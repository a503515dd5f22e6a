/** The port-forward list: filled in place by configuration loads and by --port,
    kept free of overlaps, and written back as text. */
module PortTable {
  import opened Common
  import opened PortText

  const MAX_RULES := 32   // DS_MAX_PORT_FORWARDS

  // ----- overlap -----

  function HostLast(r: Rule): nat {
    if r.hostEnd != 0 then r.hostEnd else r.hostPort
  }

  function ContLast(r: Rule): nat {
    if r.contEnd != 0 then r.contEnd else r.contPort
  }

  /** Same protocol, and host or container ranges share a port. */
  predicate Overlap(p: Rule, q: Rule) {
    p.proto == q.proto &&
    ((p.hostPort <= HostLast(q) && q.hostPort <= HostLast(p)) || (p.contPort <= ContLast(q) && q.contPort <= ContLast(p)))
  }

  predicate Clashes(rules: seq<Rule>, r: Rule) {
    exists i :: 0 <= i < |rules| && Overlap(r, rules[i])
  }

  function Add(rules: seq<Rule>, r: Rule): seq<Rule> {
    if Clashes(rules, r) then rules else rules + [r]
  }

  // ----- overlap, in terms of ports -----

  predicate OnHost(r: Rule, port: nat) {
    if r.hostEnd == 0 then port == r.hostPort else r.hostPort <= port <= r.hostEnd
  }

  predicate InContainer(r: Rule, port: nat) {
    if r.contEnd == 0 then port == r.contPort else r.contPort <= port <= r.contEnd
  }

  /** Same protocol, and a port in common on one side. */
  ghost predicate SharePort(p: Rule, q: Rule) {
    p.proto == q.proto &&
    ((exists port: nat :: OnHost(p, port) && OnHost(q, port)) || (exists port: nat :: InContainer(p, port) && InContainer(q, port)))
  }

  /** The test on range ends finds exactly the rules that share a port. */
  lemma OverlapExactly(p: Rule, q: Rule)
    requires RuleOk(p) && RuleOk(q)
    ensures Overlap(p, q) <==> SharePort(p, q)
  {
    var h := if p.hostPort > q.hostPort then p.hostPort else q.hostPort;
    var c := if p.contPort > q.contPort then p.contPort else q.contPort;
    if Overlap(p, q) {
      if p.hostPort <= HostLast(q) && q.hostPort <= HostLast(p) {
        assert OnHost(p, h) && OnHost(q, h);
      } else {
        assert InContainer(p, c) && InContainer(q, c);
      }
    }
  }

  /** `r` shares no port with any rule of the list. */
  ghost predicate Free(rules: seq<Rule>, r: Rule) {
    forall i :: 0 <= i < |rules| ==> !SharePort(r, rules[i])
  }

  lemma AddExactly(rules: seq<Rule>, r: Rule)
    requires RuleOk(r) && forall i :: 0 <= i < |rules| ==> RuleOk(rules[i])
    ensures Add(rules, r) == if Free(rules, r) then rules + [r] else rules
  {
    hide RuleOk, Overlap, SharePort;
    forall i | 0 <= i < |rules| ensures Overlap(r, rules[i]) <==> SharePort(r, rules[i]) {
      OverlapExactly(r, rules[i]);
    }
  }

  // ----- the two writers -----

  /** Tokens of a config line in turn, until the list is full; bad ones are skipped. */
  function LoadTokens(rules: seq<Rule>, toks: seq<string>): seq<Rule>
    decreases |toks|
  {
    if toks == [] || |rules| >= MAX_RULES then rules
    else LoadTokens(match ParseToken(toks[0]) case None => rules case Some(r) => Add(rules, r), toks[1..])
  }

  function Load(rules: seq<Rule>, val: string): seq<Rule> {
    LoadTokens(rules, Tokens(Copied(val)))
  }

  /** Tokens of a --port argument in turn; a full list or a bad token is an error. */
  function CliTokens(rules: seq<Rule>, toks: seq<string>): (seq<Rule>, bool)
    decreases |toks|
  {
    if toks == [] then (rules, true)
    else if |rules| >= MAX_RULES then (rules, false)
    else match ParseToken(toks[0])
         case None => (rules, false)
         case Some(r) => CliTokens(Add(rules, r), toks[1..])
  }

  function Cli(rules: seq<Rule>, arg: string): (seq<Rule>, bool) {
    CliTokens(rules, Tokens(Copied(arg)))
  }

  datatype Pass = ConfigLine(val: string) | PortOption(arg: string)

  function Passes(rules: seq<Rule>, ps: seq<Pass>): seq<Rule>
    decreases |ps|
  {
    if ps == [] then rules
    else Passes(match ps[0] case ConfigLine(val) => Load(rules, val) case PortOption(arg) => Cli(rules, arg).0, ps[1..])
  }

  // ----- the invariant -----

  ghost predicate TableOk(rules: seq<Rule>) {
    && |rules| <= MAX_RULES
    && (forall i :: 0 <= i < |rules| ==> RuleOk(rules[i]))
    && (forall i, j :: 0 <= i < j < |rules| ==> !Overlap(rules[j], rules[i]))
  }

  lemma AddKeeps(rules: seq<Rule>, r: Rule)
    requires TableOk(rules) && RuleOk(r) && |rules| < MAX_RULES
    ensures TableOk(Add(rules, r)) && rules <= Add(rules, r) && Clashes(Add(rules, r), r)
  {
    if !Clashes(rules, r) {
      assert (rules + [r])[|rules|] == r;
      assert Overlap(r, r);
    }
  }

  lemma {:induction false} LoadKeeps(rules: seq<Rule>, toks: seq<string>)
    requires TableOk(rules)
    ensures TableOk(LoadTokens(rules, toks)) && rules <= LoadTokens(rules, toks)
    decreases |toks|
  {
    if toks != [] && |rules| < MAX_RULES {
      ParsedRuleOk(toks[0]);
      match ParseToken(toks[0])
      case None => LoadKeeps(rules, toks[1..]);
      case Some(r) =>
        AddKeeps(rules, r);
        LoadKeeps(Add(rules, r), toks[1..]);
    }
  }

  lemma {:induction false} CliKeeps(rules: seq<Rule>, toks: seq<string>)
    requires TableOk(rules)
    ensures TableOk(CliTokens(rules, toks).0) && rules <= CliTokens(rules, toks).0
    decreases |toks|
  {
    if toks != [] && |rules| < MAX_RULES {
      ParsedRuleOk(toks[0]);
      match ParseToken(toks[0])
      case None =>
      case Some(r) =>
        AddKeeps(rules, r);
        CliKeeps(Add(rules, r), toks[1..]);
    }
  }

  /** One token: a readable rule that shares no port goes behind the others while
      there is room. */
  ghost function Take(rules: seq<Rule>, tok: string): seq<Rule> {
    var r := ParseToken(tok);
    if |rules| < 32 && r.Some? && Free(rules, r.value) then rules + [r.value] else rules
  }

  /** Each token in turn. */
  ghost function TakeAll(rules: seq<Rule>, toks: seq<string>): seq<Rule> {
    if toks == [] then rules else Take(TakeAll(rules, toks[..|toks| - 1]), toks[|toks| - 1])
  }

  /** The same, but a token that finds the list full or cannot be read ends it all. */
  ghost function TakeIfOk(p: (seq<Rule>, bool), tok: string): (seq<Rule>, bool) {
    if !p.1 || |p.0| >= 32 || ParseToken(tok).None? then (p.0, false) else (Take(p.0, tok), true)
  }

  ghost function TakeStrictly(rules: seq<Rule>, toks: seq<string>): (seq<Rule>, bool) {
    if toks == [] then (rules, true) else TakeIfOk(TakeStrictly(rules, toks[..|toks| - 1]), toks[|toks| - 1])
  }

  lemma TakeKeeps(rules: seq<Rule>, tok: string)
    requires TableOk(rules)
    ensures TableOk(Take(rules, tok))
    ensures |rules| < MAX_RULES && ParseToken(tok).Some? ==> Take(rules, tok) == Add(rules, ParseToken(tok).value)
  {
    ParsedRuleOk(tok);
    if |rules| < MAX_RULES && ParseToken(tok).Some? {
      AddExactly(rules, ParseToken(tok).value);
      AddKeeps(rules, ParseToken(tok).value);
    }
  }

  lemma {:induction false} LoadSnoc(rules: seq<Rule>, toks: seq<string>, tok: string)
    requires TableOk(rules)
    ensures LoadTokens(rules, toks + [tok]) == Take(LoadTokens(rules, toks), tok)
    decreases |toks|
  {
    hide TableOk, Free, ParseToken, Add;
    TakeKeeps(rules, if toks == [] then tok else toks[0]);
    if toks == [] {
      assert (toks + [tok])[1..] == [];
      assert LoadTokens(Take(rules, tok), []) == Take(rules, tok);
    } else {
      assert (toks + [tok])[1..] == toks[1..] + [tok] && (toks + [tok])[0] == toks[0];
      LoadSnoc(Take(rules, toks[0]), toks[1..], tok);
    }
  }

  /** What a configuration line does to a table, token by token. */
  lemma {:induction false} LoadedExactly(rules: seq<Rule>, toks: seq<string>)
    requires TableOk(rules)
    ensures LoadTokens(rules, toks) == TakeAll(rules, toks)
    decreases |toks|
  {
    if toks != [] {
      var n := |toks| - 1;
      LoadedExactly(rules, toks[..n]);
      LoadSnoc(rules, toks[..n], toks[n]);
      assert toks[..n] + [toks[n]] == toks;
    }
  }

  lemma {:induction false} CliSnoc(rules: seq<Rule>, toks: seq<string>, tok: string)
    requires TableOk(rules)
    ensures CliTokens(rules, toks + [tok]) == TakeIfOk(CliTokens(rules, toks), tok)
    decreases |toks|
  {
    hide TableOk, Take, ParseToken, Add;
    TakeKeeps(rules, if toks == [] then tok else toks[0]);
    if toks == [] {
      assert (toks + [tok])[1..] == [];
      assert CliTokens(Take(rules, tok), []) == (Take(rules, tok), true);
    } else {
      assert (toks + [tok])[1..] == toks[1..] + [tok] && (toks + [tok])[0] == toks[0];
      CliSnoc(Take(rules, toks[0]), toks[1..], tok);
    }
  }

  /** What a --port option does to a table, token by token. */
  lemma {:induction false} CliExactly(rules: seq<Rule>, toks: seq<string>)
    requires TableOk(rules)
    ensures CliTokens(rules, toks) == TakeStrictly(rules, toks)
    decreases |toks|
  {
    if toks != [] {
      var n := |toks| - 1;
      CliExactly(rules, toks[..n]);
      CliSnoc(rules, toks[..n], toks[n]);
      assert toks[..n] + [toks[n]] == toks;
    }
  }

  /** Every pass keeps the table in order, and drops or moves no rule. */
  lemma {:induction false} PassesKeep(rules: seq<Rule>, ps: seq<Pass>)
    requires TableOk(rules)
    ensures TableOk(Passes(rules, ps)) && rules <= Passes(rules, ps)
    decreases |ps|
  {
    if ps != [] {
      match ps[0]
      case ConfigLine(val) =>
        LoadKeeps(rules, Tokens(Copied(val)));
        PassesKeep(Load(rules, val), ps[1..]);
      case PortOption(arg) =>
        CliKeeps(rules, Tokens(Copied(arg)));
        PassesKeep(Cli(rules, arg).0, ps[1..]);
    }
  }

  // ----- what the rules mean -----

  /** Rule `r` forwards host port `hp` of `proto` to container port `cp`. */
  predicate Forwards(r: Rule, proto: string, hp: nat, cp: nat) {
    r.proto == proto && r.hostPort <= hp <= HostLast(r) && cp - r.contPort == hp - r.hostPort
  }

  /** A container port that a rule forwards to lies in its container range. */
  lemma ForwardsInRange(r: Rule, proto: string, hp: nat, cp: nat)
    requires RuleOk(r) && Forwards(r, proto, hp, cp)
    ensures r.contPort <= cp <= ContLast(r)
  {
  }

  lemma NeverOverlap(rules: seq<Rule>, i: nat, j: nat)
    requires TableOk(rules) && i < |rules| && j < |rules| && i != j
    ensures !Overlap(rules[i], rules[j])
  {
    if i < j {
      assert !Overlap(rules[j], rules[i]);
    }
  }

  /** After any sequence of config lines and --port options, at most 32 rules
      define a map from (protocol, host port) that is single-valued and
      injective, by a single rule for each port on either side. */
  lemma RulesFormPartialInjection(ps: seq<Pass>, i: nat, j: nat, proto: string, hp: nat, cp: nat, hp': nat, cp': nat)
    requires i < |Passes([], ps)| && j < |Passes([], ps)|
    requires Forwards(Passes([], ps)[i], proto, hp, cp) && Forwards(Passes([], ps)[j], proto, hp', cp')
    ensures |Passes([], ps)| <= MAX_RULES
    ensures hp == hp' <==> cp == cp'
    ensures hp == hp' ==> i == j
  {
    PassesKeep([], ps);
    var rules := Passes([], ps);
    ForwardsInRange(rules[i], proto, hp, cp);
    ForwardsInRange(rules[j], proto, hp', cp');
    if i != j {
      NeverOverlap(rules, i, j);
    }
  }

  // ----- loading again -----

  /** Processing this token again would change nothing. */
  ghost predicate Absorbed(rules: seq<Rule>, tok: string) {
    ParseToken(tok).Some? ==> Clashes(rules, ParseToken(tok).value)
  }

  lemma ClashesGrows(rules: seq<Rule>, more: seq<Rule>, r: Rule)
    requires rules <= more && Clashes(rules, r)
    ensures Clashes(more, r)
  {
    var i :| 0 <= i < |rules| && Overlap(r, rules[i]);
    assert more[i] == rules[i];
  }

  lemma {:induction false} LoadAbsorbs(rules: seq<Rule>, toks: seq<string>)
    requires TableOk(rules)
    ensures var after := LoadTokens(rules, toks);
      |after| < MAX_RULES ==> forall i :: 0 <= i < |toks| ==> Absorbed(after, toks[i])
    decreases |toks|
  {
    if toks != [] && |rules| < MAX_RULES {
      var next := match ParseToken(toks[0]) case None => rules case Some(r) => Add(rules, r);
      ParsedRuleOk(toks[0]);
      if ParseToken(toks[0]).Some? {
        AddKeeps(rules, ParseToken(toks[0]).value);
      }
      LoadAbsorbs(next, toks[1..]);
      LoadKeeps(next, toks[1..]);
      if ParseToken(toks[0]).Some? {
        ClashesGrows(next, LoadTokens(next, toks[1..]), ParseToken(toks[0]).value);
      }
      hide ParseToken, Clashes, LoadTokens;
      assert forall i :: 0 < i < |toks| ==> toks[i] == toks[1..][i - 1];
    }
  }

  lemma {:induction false} AbsorbedStays(rules: seq<Rule>, toks: seq<string>)
    requires forall i :: 0 <= i < |toks| ==> Absorbed(rules, toks[i])
    ensures LoadTokens(rules, toks) == rules
    decreases |toks|
  {
    if toks != [] && |rules| < MAX_RULES {
      assert Absorbed(rules, toks[0]);
      AbsorbedStays(rules, toks[1..]);
    }
  }

  lemma AbsorbedGrows(rules: seq<Rule>, more: seq<Rule>, tok: string)
    requires rules <= more && Absorbed(rules, tok)
    ensures Absorbed(more, tok)
  {
    if ParseToken(tok).Some? {
      ClashesGrows(rules, more, ParseToken(tok).value);
    }
  }

  /** Loading a config line again, at once or after any other passes, changes nothing. */
  lemma LoadIdempotent(rules: seq<Rule>, val: string, ps: seq<Pass>)
    requires TableOk(rules)
    ensures var later := Passes(Load(rules, val), ps); Load(later, val) == later
  {
    hide TableOk, Passes, Absorbed;
    var toks, after := Tokens(Copied(val)), Load(rules, val);
    LoadKeeps(rules, toks);
    PassesKeep(after, ps);
    var later := Passes(after, ps);
    if |later| < MAX_RULES {
      LoadAbsorbs(rules, toks);
      forall i | 0 <= i < |toks| ensures Absorbed(later, toks[i]) {
        AbsorbedGrows(after, later, toks[i]);
      }
      AbsorbedStays(later, toks);
    }
  }

  lemma {:induction false} CliIsLoad(rules: seq<Rule>, toks: seq<string>)
    requires TableOk(rules) && CliTokens(rules, toks).1
    ensures CliTokens(rules, toks).0 == LoadTokens(rules, toks)
    ensures forall i :: 0 <= i < |toks| ==> ParseToken(toks[i]).Some?
    decreases |toks|
  {
    if toks != [] {
      var r := ParseToken(toks[0]).value;
      ParsedRuleOk(toks[0]);
      AddKeeps(rules, r);
      CliIsLoad(Add(rules, r), toks[1..]);
      assert forall i :: 0 < i < |toks| ==> toks[i] == toks[1..][i - 1];
    }
  }

  lemma {:induction false} CliAbsorbedStays(rules: seq<Rule>, toks: seq<string>)
    requires |rules| < MAX_RULES
    requires forall i :: 0 <= i < |toks| ==> Absorbed(rules, toks[i]) && ParseToken(toks[i]).Some?
    ensures CliTokens(rules, toks) == (rules, true)
    decreases |toks|
  {
    if toks != [] {
      assert Absorbed(rules, toks[0]);
      CliAbsorbedStays(rules, toks[1..]);
    }
  }

  /** Giving an accepted --port option again leaves the list alone, and is
      accepted again exactly when the list is not full or the option is empty. */
  lemma CliAgain(rules: seq<Rule>, arg: string)
    requires TableOk(rules) && Cli(rules, arg).1
    ensures var after := Cli(rules, arg).0;
      && Cli(after, arg).0 == after
      && (Cli(after, arg).1 <==> |after| < MAX_RULES || Tokens(Copied(arg)) == [])
  {
    var toks := Tokens(Copied(arg));
    var after := Cli(rules, arg).0;
    CliKeeps(rules, toks);
    CliIsLoad(rules, toks);
    if |after| < MAX_RULES {
      LoadAbsorbs(rules, toks);
      CliAbsorbedStays(after, toks);
    }
  }

  /** The first `n` ports, each forwarded to itself. */
  function FirstPorts(n: nat): (r: seq<Rule>)
    ensures |r| == n && forall i :: 0 <= i < n ==> r[i] == Rule(i + 1, 0, i + 1, 0, "tcp")
  {
    seq(n, i requires 0 <= i < n => Rule(i + 1, 0, i + 1, 0, "tcp"))
  }

  /** An option of one rule that fills the list is accepted once and refused when
      given again. */
  lemma FillingOption(rules: seq<Rule>, arg: string, r: Rule)
    requires |rules| == MAX_RULES - 1 && !Clashes(rules, r)
    requires Tokens(Copied(arg)) == [arg] && ParseToken(arg) == Some(r)
    ensures Cli(rules, arg) == (rules + [r], true) && Cli(rules + [r], arg) == (rules + [r], false)
  {
    hide ParseToken, Tokens, Copied, Clashes;
    assert [arg][1..] == [];
    assert CliTokens(rules + [r], []) == (rules + [r], true);
  }

  lemma LastPortOption(arg: string)
    requires arg == "32:32/tcp"
    ensures Tokens(Copied(arg)) == [arg] && ParseToken(arg) == Some(Rule(32, 0, 32, 0, "tcp"))
  {
    var r := Rule(32, 0, 32, 0, "tcp");
    assert Digits(32) == Digits(3) + ['2'] == "32";
    assert PrintRule(r) == arg && Copied(arg) == arg;
    RuleReadsBack(r);
    PrintSplits(r);
    TokensCons(arg, "");
    hide ParseToken, Tokens, TrimLeft, ProtoOf, Before, After;
  }

  /** For one: behind 31 forwarded ports, "32:32/tcp". */
  lemma LastPortRefused()
    ensures TableOk(FirstPorts(31))
    ensures Cli(FirstPorts(31), "32:32/tcp").1 && !Cli(Cli(FirstPorts(31), "32:32/tcp").0, "32:32/tcp").1
  {
    hide ParseToken, Tokens, Copied, Cli;
    LastPortOption("32:32/tcp");
    FillingOption(FirstPorts(31), "32:32/tcp", Rule(32, 0, 32, 0, "tcp"));
  }

  // ----- printing and reading back -----

  /** The next rule of a table does not clash with those before it. */
  lemma NextFits(rules: seq<Rule>, n: nat)
    requires TableOk(rules) && n < |rules|
    ensures n < MAX_RULES && Add(rules[..n], rules[n]) == rules[..n + 1]
  {
    forall i | 0 <= i < n ensures !Overlap(rules[n], rules[..n][i]) {
      NeverOverlap(rules, n, i);
    }
    assert rules[..n] + [rules[n]] == rules[..n + 1];
  }

  /** From tokens that read back as the rules of one table, loading rebuilds it. */
  lemma {:induction false} LoadRebuilds(rules: seq<Rule>, n: nat, toks: seq<string>)
    requires TableOk(rules) && n + |toks| == |rules|
    requires forall i :: 0 <= i < |toks| ==> ParseToken(toks[i]) == Some(rules[n + i])
    ensures LoadTokens(rules[..n], toks) == rules
    decreases |toks|
  {
    hide ParseToken, TableOk, Clashes;
    if toks != [] {
      NextFits(rules, n);
      assert ParseToken(toks[0]) == Some(rules[n + 0]);
      LoadRebuilds(rules, n + 1, toks[1..]);
    } else {
      assert rules[..n] == rules;
    }
  }

  ghost predicate AllUniform(rules: seq<Rule>) {
    forall i :: 0 <= i < |rules| ==> Uniform(rules[i])
  }

  /** If no token reads as a rule with mixed ends, none comes out. */
  lemma {:induction false} LoadedUniform(acc: seq<Rule>, toks: seq<string>)
    requires AllUniform(acc)
    requires forall i :: 0 <= i < |toks| ==> ParseToken(toks[i]).Some? ==> Uniform(ParseToken(toks[i]).value)
    ensures AllUniform(LoadTokens(acc, toks))
    decreases |toks|
  {
    hide ParseToken, Uniform;
    if toks != [] && |acc| < MAX_RULES {
      LoadedUniform(match ParseToken(toks[0]) case None => acc case Some(r) => Add(acc, r), toks[1..]);
    }
  }

  /** Printer and parser undo each other on exactly those tables whose rules all
      have both ends or neither; and no printed table is cut short. */
  lemma PrintRoundTrip(rules: seq<Rule>)
    requires TableOk(rules)
    ensures |Print(rules)| <= COPY_LEN
    ensures Load([], Print(rules)) == rules <==> AllUniform(rules)
  {
    PrintShort(rules);
    TokensOfPrint(rules);
    var toks := PrintAll(rules);
    forall i | 0 <= i < |rules|
      ensures ParseToken(toks[i]) == Some(rules[i]) <==> Uniform(rules[i])
      ensures ParseToken(toks[i]).Some? ==> Uniform(ParseToken(toks[i]).value)
    {
      RuleReadsBack(rules[i]);
    }
    hide ParseToken, Uniform, PrintRule, Print, Tokens;
    if AllUniform(rules) {
      assert rules[..0] == [];
      LoadRebuilds(rules, 0, toks);
    } else {
      LoadedUniform([], toks);
    }
  }

  lemma PairOk(r: Rule)
    requires RuleOk(r) && Uniform(r)
    ensures var pair := [r.(proto := "tcp"), r.(proto := "udp")]; TableOk(pair) && AllUniform(pair)
  {
  }

  /** The same ports may be forwarded for tcp and for udp: such a pair loads whole. */
  lemma BothProtocols(r: Rule)
    requires RuleOk(r) && Uniform(r)
    ensures var pair := [r.(proto := "tcp"), r.(proto := "udp")]; Load([], Print(pair)) == pair
  {
    hide Print, Load, Uniform, RuleOk;
    var pair := [r.(proto := "tcp"), r.(proto := "udp")];
    PairOk(r);
    PrintRoundTrip(pair);
  }

  // ----- the list as the program keeps it -----

  class ForwardList {
    const slots: array<Rule>
    var count: nat

    ghost predicate Valid()
      reads this
    {
      slots.Length == MAX_RULES && count <= MAX_RULES
    }

    function Rules(): seq<Rule>
      requires Valid()
      reads this, slots
    {
      slots[..count]
    }

    constructor ()
      ensures Valid() && Rules() == [] && fresh(slots)
    {
      slots := new Rule[MAX_RULES](_ => Rule(0, 0, 0, 0, ""));
      count := 0;
    }

    /** Fill the next free slot and keep it unless an earlier rule is in the way. */
    method Place(r: Rule)
      requires Valid() && count < MAX_RULES && RuleOk(r)
      modifies this, slots
      ensures Valid() && Rules() == Add(old(Rules()), r)
    {
      slots[count] := r;
      var i, skip := 0, false;
      while i < count && !skip
        invariant i <= count && slots[..count] == old(Rules()) && slots[count] == r
        invariant skip ==> Clashes(old(Rules()), r)
        invariant !skip ==> forall j :: 0 <= j < i ==> !Overlap(r, slots[j])
        decreases count - i, !skip
      {
        var ex := slots[i];
        assert ex == old(Rules())[i];
        if ex.proto == r.proto {
          if r.hostPort == ex.hostPort && r.hostEnd == ex.hostEnd && r.contPort == ex.contPort && r.contEnd == ex.contEnd {
            skip := true;
          }
          var hostOverlap := r.hostPort <= HostLast(ex) && ex.hostPort <= HostLast(r);
          var contOverlap := r.contPort <= ContLast(ex) && ex.contPort <= ContLast(r);
          if hostOverlap || contOverlap {
            skip := true;
          }
        }
        i := i + 1;
      }
      if !skip {
        count := count + 1;
      }
    }

    /** The port_forwards line of a configuration file. */
    method LoadConfig(val: string)
      requires Valid() && TableOk(Rules())
      modifies this, slots
      ensures Valid() && Rules() == Load(old(Rules()), val) && TableOk(Rules())
      ensures Rules() == TakeAll(old(Rules()), Tokens(if |val| < 1024 then val else val[..1023]))
    {
      LoadedExactly(Rules(), Tokens(Copied(val)));
      LoadKeeps(Rules(), Tokens(Copied(val)));
      var rest := Copied(val);
      while rest != [] && count < MAX_RULES
        invariant Valid() && TableOk(Rules())
        invariant LoadTokens(Rules(), Tokens(rest)) == Load(old(Rules()), val)
        decreases |rest|
      {
        if rest[0] == ',' {
          rest := rest[1..];
        } else {
          var tok := Before(rest, ',');
          rest := if ',' in rest then After(rest, ',') else [];
          var r := ParseToken(tok);
          if r.Some? {
            ParsedRuleOk(tok);
            AddKeeps(Rules(), r.value);
            Place(r.value);
          }
        }
      }
    }

    /** A --port option; false is the error return. */
    method AddPortOption(arg: string) returns (ok: bool)
      requires Valid() && TableOk(Rules())
      modifies this, slots
      ensures Valid() && (Rules(), ok) == Cli(old(Rules()), arg) && TableOk(Rules())
      ensures (Rules(), ok) == TakeStrictly(old(Rules()), Tokens(if |arg| < 1024 then arg else arg[..1023]))
    {
      CliExactly(Rules(), Tokens(Copied(arg)));
      CliKeeps(Rules(), Tokens(Copied(arg)));
      var rest := Copied(arg);
      while rest != []
        invariant Valid() && TableOk(Rules())
        invariant CliTokens(Rules(), Tokens(rest)) == Cli(old(Rules()), arg)
        decreases |rest|
      {
        if rest[0] == ',' {
          rest := rest[1..];
        } else {
          if count >= MAX_RULES {
            return false;
          }
          var tok := Before(rest, ',');
          rest := if ',' in rest then After(rest, ',') else [];
          var r := ParseToken(tok);
          if r.None? {
            return false;
          }
          ParsedRuleOk(tok);
          AddKeeps(Rules(), r.value);
          Place(r.value);
        }
      }
      return true;
    }
  }
}
