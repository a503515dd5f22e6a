/** Port-forward rules as text: how one rule is read, how a list is split, and
    how the configuration file writes it. */
module PortText {
  import opened Common

  const COPY_LEN := 1023   // char copy[1024], less the terminator
  const MAX_PORT := 65535

  /** struct ds_port_forward; an end of 0 means a single port. */
  datatype Rule = Rule(hostPort: nat, hostEnd: nat, contPort: nat, contEnd: nat, proto: string)

  // ----- characters and numbers -----

  predicate IsDigit(c: char) {
    '0' <= c <= '9'
  }

  predicate IsSpace(c: char) {
    c == ' ' || ('\t' <= c <= '\r')
  }

  function AtoiDigits(s: string, acc: nat): nat
    decreases |s|
  {
    if s == [] || !IsDigit(s[0]) then acc else AtoiDigits(s[1..], acc * 10 + (s[0] as int - '0' as int))
  }

  /** atoi(3), without its overflow. */
  function Atoi(s: string): (r: int)
    decreases |s|
  {
    if s == [] then 0
    else if IsSpace(s[0]) then Atoi(s[1..])
    else if s[0] == '-' then 0 - AtoiDigits(s[1..], 0)
    else if s[0] == '+' then AtoiDigits(s[1..], 0)
    else AtoiDigits(s, 0)
  }

  function Digits(n: nat): (r: string)
    ensures r != [] && forall i :: 0 <= i < |r| ==> IsDigit(r[i])
    decreases n
  {
    if n < 10 then [('0' as int + n) as char] else Digits(n / 10) + [('0' as int + n % 10) as char]
  }

  lemma {:induction false} AtoiDigitsOf(n: nat, rest: string)
    ensures AtoiDigits(Digits(n) + rest, 0) == AtoiDigits(rest, n)
    decreases n
  {
    var d := [('0' as int + n % 10) as char];
    if n < 10 {
      assert (Digits(n) + rest)[1..] == rest;
    } else {
      AtoiDigitsOf(n / 10, d + rest);
      assert Digits(n) + rest == Digits(n / 10) + (d + rest);
      assert (d + rest)[1..] == rest;
    }
  }

  /** A printed number reads back, whatever non-digit follows it. */
  lemma AtoiOf(n: nat, rest: string)
    requires rest == [] || !IsDigit(rest[0])
    ensures Atoi(Digits(n) + rest) == n
  {
    AtoiDigitsOf(n, rest);
    assert (Digits(n) + rest)[0] == Digits(n)[0];
  }

  lemma {:induction false} DigitsShort(n: nat, k: nat)
    requires (k == 1 && n < 10) || (k == 2 && n < 100) || (k == 3 && n < 1000) || (k == 4 && n < 10000) || (k == 5 && n < 100000)
    ensures |Digits(n)| <= k
    decreases k
  {
    if n >= 10 {
      DigitsShort(n / 10, k - 1);
    }
  }

  // ----- cutting at a character: strchr and a NUL -----

  function Before(s: string, c: char): (r: string)
    ensures |r| <= |s| && c !in r && (c in s ==> |r| < |s|)
    ensures c !in s ==> r == s
  {
    if s == [] || s[0] == c then [] else [s[0]] + Before(s[1..], c)
  }

  function After(s: string, c: char): string
    requires c in s
  {
    s[|Before(s, c)| + 1..]
  }

  lemma {:induction false} BeforeOf(a: string, c: char, b: string)
    requires c !in a
    ensures Before(a + [c] + b, c) == a
    decreases |a|
  {
    var s := a + [c] + b;
    if a == [] {
      assert s[0] == c;
    } else {
      BeforeOf(a[1..], c, b);
      assert s[0] == a[0] && s[1..] == a[1..] + [c] + b;
    }
  }

  lemma CutOf(a: string, c: char, b: string)
    requires c !in a
    ensures c in a + [c] + b && Before(a + [c] + b, c) == a && After(a + [c] + b, c) == b
  {
    hide Before;
    BeforeOf(a, c, b);
    assert (a + [c] + b)[|a|] == c && (a + [c] + b)[|a| + 1..] == b;
  }

  // ----- one rule -----

  /** "PORT" or "START-END" as (start, end), end 0 for a single port. */
  function ParseSide(s: string): Option<(nat, nat)> {
    var a := Atoi(s);
    if '-' in s then
      var b := Atoi(After(s, '-'));
      if a <= 0 || a > MAX_PORT || b < a || b > MAX_PORT then None else Some((a, b))
    else if a <= 0 || a > MAX_PORT then None else Some((a, 0))
  }

  function Width(port: nat, end: nat): int {
    if end != 0 then end - port else 0
  }

  function TrimLeft(s: string): string {
    if s != [] && (s[0] == ' ' || s[0] == '\t') then TrimLeft(s[1..]) else s
  }

  /** What fits behind the slash into char proto[4]. */
  function ProtoOf(tok: string): string {
    if '/' !in tok then "tcp" else
    var p := After(tok, '/');
    if |p| > 3 then p[..3] else p
  }

  predicate KnownProto(p: string) {
    p == "tcp" || p == "udp"
  }

  /** HOST[:CONTAINER][/proto]; without a colon both sides are the same. */
  function ParseToken(token: string): Option<Rule> {
    var tok := TrimLeft(token);
    var proto := ProtoOf(tok);
    var spec := Before(tok, '/');
    var host := ParseSide(Before(spec, ':'));
    var cont := ParseSide(if ':' in spec then After(spec, ':') else spec);
    if !KnownProto(proto) || host.None? || cont.None? then None else
    var (h, he) := host.value;
    var (c, ce) := cont.value;
    if Width(h, he) != Width(c, ce) then None else Some(Rule(h, he, c, ce, proto))
  }

  predicate PortRange(port: nat, end: nat) {
    0 < port <= MAX_PORT && (end == 0 || port <= end <= MAX_PORT)
  }

  predicate RuleOk(r: Rule) {
    && PortRange(r.hostPort, r.hostEnd) && PortRange(r.contPort, r.contEnd)
    && Width(r.hostPort, r.hostEnd) == Width(r.contPort, r.contEnd)
    && KnownProto(r.proto)
  }

  lemma ParsedRuleOk(token: string)
    ensures ParseToken(token).Some? ==> RuleOk(ParseToken(token).value)
  {
  }

  predicate StartsBlank(s: string) {
    s != "" && (s[0] == ' ' || s[0] == '\t')
  }

  /** The part of a token before the protocol is what stands before the slash. */
  lemma SpecOf(spec: string, suffix: string)
    requires '/' !in spec && !StartsBlank(spec)
    requires suffix == "" || suffix[0] == '/'
    ensures TrimLeft(spec + suffix) == spec + suffix
    ensures Before(spec + suffix, '/') == spec && ProtoOf(spec + suffix) == ProtoOf(suffix)
  {
    if suffix == "" {
      assert spec + suffix == spec;
    } else {
      var p := suffix[1..];
      assert suffix == [] + ['/'] + p && spec + suffix == spec + ['/'] + p;
      CutOf(spec, '/', p);
      CutOf([], '/', p);
      hide Before, After;
      assert (spec + suffix)[0] == if spec == "" then '/' else spec[0];
    }
  }

  /** A spec without a colon is short for the same spec on both sides. */
  lemma SymmetricShorthand(s: string, suffix: string)
    requires ':' !in s && '/' !in s && !StartsBlank(s)
    requires suffix == "" || suffix[0] == '/'
    ensures ParseToken(s + suffix) == ParseToken(s + [':'] + s + suffix)
  {
    hide ParseSide, TrimLeft, ProtoOf, After;
    SpecOf(s, suffix);
    SpecOf(s + [':'] + s, suffix);
    CutOf(s, ':', s);
  }

  lemma {:induction false} TrimLeftOf(s: string, suffix: string)
    requires suffix != "" && suffix[0] != ' ' && suffix[0] != '\t'
    ensures TrimLeft(s + suffix) == TrimLeft(s) + suffix
    ensures forall c :: c !in s ==> c !in TrimLeft(s)
    decreases |s|
  {
    if s != "" && (s[0] == ' ' || s[0] == '\t') {
      TrimLeftOf(s[1..], suffix);
      assert (s + suffix)[1..] == s[1..] + suffix;
    } else if s == "" {
      assert s + suffix == suffix;
    }
  }

  /** No protocol means tcp. */
  lemma DefaultProtocol(s: string)
    requires '/' !in s
    ensures ParseToken(s) == ParseToken(s + "/tcp")
  {
    TrimLeftOf(s, "/tcp");
    var t := TrimLeft(s);
    CutOf(t, '/', "tcp");
    assert t + ['/'] + "tcp" == t + "/tcp";
    hide ParseSide, TrimLeft;
  }

  lemma ProtocolPart(p: string)
    ensures ProtoOf(['/'] + p) == if |p| > 3 then p[..3] else p
  {
    CutOf([], '/', p);
    assert [] + ['/'] + p == ['/'] + p;
  }

  /** Only three characters of a protocol are looked at. */
  lemma LongProtocol(s: string, p: string, more: string)
    requires '/' !in s && !StartsBlank(s) && |p| == 3
    ensures ParseToken(s + (['/'] + (p + more))) == ParseToken(s + (['/'] + p))
  {
    hide ParseSide, TrimLeft, Before, After, ProtoOf;
    SpecOf(s, ['/'] + (p + more));
    SpecOf(s, ['/'] + p);
    ProtocolPart(p + more);
    ProtocolPart(p);
    assert (p + more)[..3] == p;
  }

  /** Blanks before a token do not matter. */
  lemma LeadingBlank(c: char, s: string)
    requires c == ' ' || c == '\t'
    ensures ParseToken([c] + s) == ParseToken(s)
  {
    assert ([c] + s)[1..] == s;
  }

  /** A side that starts with a sign for a negative number is refused; white space
      before a number is not. */
  lemma SignsAndSpaces(c: char, s: string)
    ensures c == '-' ==> ParseSide([c] + s) == None
    ensures IsSpace(c) ==> ParseSide([c] + s) == ParseSide(s)
  {
    assert ([c] + s)[1..] == s;
  }

  // ----- printing -----

  function PrintSide(port: nat, end: nat, range: bool): string {
    if range then Digits(port) + ['-'] + Digits(end) else Digits(port)
  }

  /** The form of both sides follows the host side alone. */
  function PrintRule(r: Rule): string {
    PrintSide(r.hostPort, r.hostEnd, r.hostEnd != 0) + [':']
    + PrintSide(r.contPort, r.contEnd, r.hostEnd != 0) + ['/'] + r.proto
  }

  /** Ends both zero or both non-zero. */
  predicate Uniform(r: Rule) {
    r.hostEnd == 0 <==> r.contEnd == 0
  }

  predicate Plain(s: string) {
    forall i :: 0 <= i < |s| ==> IsDigit(s[i]) || s[i] == '-'
  }

  lemma SidePlain(port: nat, end: nat, range: bool)
    ensures Plain(PrintSide(port, end, range)) && PrintSide(port, end, range) != []
    ensures IsDigit(PrintSide(port, end, range)[0])
  {
  }

  lemma PlainLacks(s: string, c: char)
    requires Plain(s) && !IsDigit(c) && c != '-'
    ensures c !in s
  {
  }

  /** A printed side reads back as its two numbers; "80-0" is no range. */
  lemma SideReadsBack(port: nat, end: nat, range: bool)
    requires 0 < port <= 65535
    ensures ParseSide(PrintSide(port, end, range)) ==
      if !range then Some((port, 0)) else if port <= end <= 65535 then Some((port, end)) else None
  {
    var d := Digits(port);
    if range {
      var s := d + ['-'] + Digits(end);
      CutOf(d, '-', Digits(end));
      assert s == d + (['-'] + Digits(end));
      AtoiOf(port, ['-'] + Digits(end));
      assert Digits(end) + [] == Digits(end);
      AtoiOf(end, []);
    } else {
      assert d + [] == d;
      AtoiOf(port, []);
    }
  }

  lemma SpecLacksSlash(h: string, c: string)
    requires Plain(h) && Plain(c)
    ensures '/' !in h + [':'] + c && ':' !in h
  {
    PlainLacks(h, '/');
    PlainLacks(c, '/');
    PlainLacks(h, ':');
  }

  /** A text put together as a printed rule is split where it was joined. */
  lemma JoinSplits(h: string, c: string, proto: string)
    requires Plain(h) && Plain(c) && h != [] && IsDigit(h[0]) && KnownProto(proto)
    ensures var t := h + [':'] + c + ['/'] + proto;
      && TrimLeft(t) == t && ProtoOf(t) == proto
      && ':' in Before(t, '/') && Before(Before(t, '/'), ':') == h && After(Before(t, '/'), ':') == c
  {
    var spec := h + [':'] + c;
    SpecLacksSlash(h, c);
    hide Plain;
    CutOf(spec, '/', proto);
    CutOf(h, ':', c);
    hide Before, After;
    assert (spec + ['/'] + proto)[0] == h[0];
  }

  lemma JoinLacksComma(h: string, c: string, proto: string)
    requires Plain(h) && Plain(c) && KnownProto(proto)
    ensures ',' !in h + [':'] + c + ['/'] + proto
  {
    PlainLacks(h, ',');
    PlainLacks(c, ',');
  }

  lemma PrintSplits(r: Rule)
    requires KnownProto(r.proto)
    ensures var t := PrintRule(r);
      var range := r.hostEnd != 0;
      && TrimLeft(t) == t && ProtoOf(t) == r.proto && ',' !in t && t != []
      && ':' in Before(t, '/')
      && Before(Before(t, '/'), ':') == PrintSide(r.hostPort, r.hostEnd, range)
      && After(Before(t, '/'), ':') == PrintSide(r.contPort, r.contEnd, range)
  {
    var range := r.hostEnd != 0;
    SidePlain(r.hostPort, r.hostEnd, range);
    SidePlain(r.contPort, r.contEnd, range);
    JoinSplits(PrintSide(r.hostPort, r.hostEnd, range), PrintSide(r.contPort, r.contEnd, range), r.proto);
    JoinLacksComma(PrintSide(r.hostPort, r.hostEnd, range), PrintSide(r.contPort, r.contEnd, range), r.proto);
  }

  /** Reading back what was printed gives the rule itself, exactly when its ends
      agree; a mixed rule is rejected or loses its end. */
  lemma RuleReadsBack(r: Rule)
    requires RuleOk(r)
    ensures ParseToken(PrintRule(r)) == Some(r) <==> Uniform(r)
    ensures ParseToken(PrintRule(r)).Some? ==> Uniform(ParseToken(PrintRule(r)).value)
  {
    PrintSplits(r);
    SideReadsBack(r.hostPort, r.hostEnd, r.hostEnd != 0);
    SideReadsBack(r.contPort, r.contEnd, r.hostEnd != 0);
  }

  lemma SomePrintedSides()
    ensures PrintSide(5, 5, true) == "5-5" && PrintSide(80, 0, false) == "80"
    ensures ParseSide("5-5") == Some((5, 5)) && ParseSide("80") == Some((80, 0))
  {
    assert Digits(5) == "5";
    assert Digits(80) == Digits(8) + ['0'] == "80";
    SideReadsBack(5, 5, true);
    SideReadsBack(80, 0, false);
  }

  lemma LiteralSplits()
    ensures '/' !in "5-5:80" && Before("5-5:80", '/') == "5-5:80"
    ensures ':' in "5-5:80" && Before("5-5:80", ':') == "5-5" && After("5-5:80", ':') == "80"
  {
    assert "5-5:80" == "5-5" + [':'] + "80";
    CutOf("5-5", ':', "80");
  }

  lemma MixedRuleParses()
    ensures ParseToken("5-5:80") == Some(Rule(5, 5, 80, 0, "tcp"))
  {
    SomePrintedSides();
    LiteralSplits();
    hide ParseSide, Before, After;
    assert TrimLeft("5-5:80") == "5-5:80";
  }

  /** "5-5:80" is accepted with mixed ends, and what is printed for it is not. */
  lemma MixedEndsAreLost()
    ensures var r := Rule(5, 5, 80, 0, "tcp");
      RuleOk(r) && ParseToken("5-5:80") == Some(r) && ParseToken(PrintRule(r)) == None
  {
    MixedRuleParses();
    var r := Rule(5, 5, 80, 0, "tcp");
    PrintSplits(r);
    SideReadsBack(80, 0, true);
    hide ParseSide, PrintRule, Before, After, PrintSide;
  }

  lemma PrintRuleShort(r: Rule)
    requires RuleOk(r)
    ensures |PrintRule(r)| <= 27
  {
    DigitsShort(r.hostPort, 5);
    DigitsShort(r.hostEnd, 5);
    DigitsShort(r.contPort, 5);
    DigitsShort(r.contEnd, 5);
  }

  // ----- lists -----

  /** strtok(s, ","): the non-empty pieces between commas. */
  function Tokens(s: string): (r: seq<string>)
    decreases |s|
  {
    if s == [] then []
    else if s[0] == ',' then Tokens(s[1..])
    else [Before(s, ',')] + if ',' in s then Tokens(After(s, ',')) else []
  }

  /** Pieces put together with commas. */
  function Join(pieces: seq<string>): string {
    if pieces == [] then ""
    else if |pieces| == 1 then pieces[0]
    else pieces[0] + [','] + Join(pieces[1..])
  }

  function NonEmpty(pieces: seq<string>): seq<string> {
    if pieces == [] then [] else (if pieces[0] == "" then [] else [pieces[0]]) + NonEmpty(pieces[1..])
  }

  function Print(rules: seq<Rule>): string {
    if rules == [] then ""
    else if |rules| == 1 then PrintRule(rules[0])
    else PrintRule(rules[0]) + [','] + Print(rules[1..])
  }

  function PrintAll(rules: seq<Rule>): (r: seq<string>)
    ensures |r| == |rules| && forall i :: 0 <= i < |r| ==> r[i] == PrintRule(rules[i])
  {
    seq(|rules|, i requires 0 <= i < |rules| => PrintRule(rules[i]))
  }

  lemma TokensCons(t: string, rest: string)
    requires t != [] && ',' !in t
    ensures Tokens(t) == [t]
    ensures Tokens(t + [','] + rest) == [t] + Tokens(rest)
  {
    CutOf(t, ',', rest);
    assert (t + [','] + rest)[0] == t[0];
  }

  /** The tokens of any text are the non-empty pieces between its commas. */
  lemma {:induction false} TokensOfJoin(pieces: seq<string>)
    requires forall i :: 0 <= i < |pieces| ==> ',' !in pieces[i]
    ensures Tokens(Join(pieces)) == NonEmpty(pieces)
    decreases |pieces|
  {
    if |pieces| == 1 {
      assert pieces[1..] == [];
      if pieces[0] != "" {
        TokensCons(pieces[0], "");
      }
    } else if pieces != [] {
      TokensOfJoin(pieces[1..]);
      var rest := Join(pieces[1..]);
      if pieces[0] == "" {
        assert ("" + [','] + rest)[1..] == rest;
      } else {
        TokensCons(pieces[0], rest);
      }
    }
  }

  lemma PrintAllCons(rules: seq<Rule>)
    requires rules != []
    ensures PrintAll(rules) == [PrintRule(rules[0])] + PrintAll(rules[1..])
  {
    hide PrintRule;
  }

  /** A printed list splits into its printed rules. */
  lemma {:induction false} TokensOfPrint(rules: seq<Rule>)
    requires forall i :: 0 <= i < |rules| ==> KnownProto(rules[i].proto)
    ensures Tokens(Print(rules)) == PrintAll(rules)
    decreases |rules|
  {
    assert Tokens("") == [];
    hide PrintRule, Tokens, Before, After, TrimLeft, ProtoOf, PrintAll;
    if rules != [] {
      PrintSplits(rules[0]);
      TokensCons(PrintRule(rules[0]), Print(rules[1..]));
      PrintAllCons(rules);
      TokensOfPrint(rules[1..]);
      assert |rules| == 1 ==> rules[1..] == [];
    }
  }

  /** A list of at most 32 rules is never cut by the 1024-byte copy. */
  lemma {:induction false} PrintShort(rules: seq<Rule>)
    requires forall i :: 0 <= i < |rules| ==> RuleOk(rules[i])
    ensures |Print(rules)| <= 28 * |rules|
    decreases |rules|
  {
    if rules != [] {
      PrintRuleShort(rules[0]);
      if |rules| > 1 {
        PrintShort(rules[1..]);
      }
    }
  }

  /** safe_strncpy into the copy buffer. */
  function Copied(val: string): string {
    if |val| > COPY_LEN then val[..COPY_LEN] else val
  }
}
