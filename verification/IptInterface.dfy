/** The filter rules for one interface: how they are all set up, and how they are
    all torn down again. */
module IptInterface {
  import opened IptRules
  import opened IptTable
  import IptMeaning
  import IptPreserve
  import IptTraversal

  const LOCAL_IN := 1   // NF_INET_LOCAL_IN
  const FORWARD := 2    // NF_INET_FORWARD

  ghost predicate IsFilter(t: Table) {
    WellFormed(t) && LOCAL_IN in t.hooks && FORWARD in t.hooks
  }

  function EnsureAccept(t: Table, hook: nat, iface: string, isOut: bool): Table
    requires hook in t.hooks && IfaceArg(iface)
  {
    Ensure(t, hook, WantAccept(iface, isOut), AcceptRule(iface, isOut))
  }

  /** INPUT -i, FORWARD -i, FORWARD -o, each at the head of its hook; nothing
      without a name. */
  function SetUp(t: Table, iface: string): Table
    requires IsFilter(t) && IfaceArg(iface)
  {
    if iface == "" then t else
    EnsureAccept(EnsureAccept(EnsureAccept(t, LOCAL_IN, iface, false), FORWARD, iface, false), FORWARD, iface, true)
  }

  /** FORWARD -i, FORWARD -o, INPUT -i: not the reverse order, so each removal
      finds its rule below or above others. */
  function TearDown(t: Table, iface: string): Table {
    if iface == "" then t else
    RemoveMatching(RemoveMatching(RemoveMatching(
      t, FORWARD, AcceptPrint(iface, false)), FORWARD, AcceptPrint(iface, true)), LOCAL_IN, AcceptPrint(iface, false))
  }

  // ----- each removal passes over or takes each rule -----

  lemma RemoveKeepsFilter(t: Table, at: nat, q: Fingerprint)
    requires IsFilter(t) && at in t.hooks
    ensures IsFilter(RemoveMatching(t, at, q)) && RemoveMatching(t, at, q).hooks.Keys == t.hooks.Keys
  {
    MarksRemovable(t, at, q);
    IptPreserve.RemoveKeepsWellFormed(t, at, Marks(t, at, q));
    RemoveShrinks(t, at, q);
  }

  lemma HookForward(t: Table, hook: nat)
    requires WellFormed(t) && hook in t.hooks
    ensures t.hooks[hook].entry <= t.hooks[hook].underflow
  {
    assert HookOk(t, t.hooks[hook]);
  }

  /** With a rule inserted or not, removal does the same to the rest; its own rule
      is gone either way. */
  lemma RemovePasses(given: bool, t: Table, hook: nat, iface: string, isOut: bool, at: nat, q: Fingerprint) returns (gone: bool)
    requires IsFilter(t) && hook in t.hooks && at in t.hooks && IfaceArg(iface) && iface != ""
    ensures IsFilter(RemoveMatching(t, at, q)) && RemoveMatching(t, at, q).hooks.Keys == t.hooks.Keys
    ensures RemoveMatching(IptPreserve.InsertUnless(given, t, hook, AcceptRule(iface, isOut)), at, q) ==
      IptPreserve.InsertUnless(gone, RemoveMatching(t, at, q), hook, AcceptRule(iface, isOut))
    ensures at == hook && q == AcceptPrint(iface, isOut) ==> gone
  {
    hide WellFormed, RemoveMatching, Ours;
    AcceptRuleFacts(iface, isOut);
    AcceptRuleOurs(iface, isOut);
    RemoveKeepsFilter(t, at, q);
    HookForward(t, hook);
    RemoveMatchingAfterInsert(t, hook, AcceptRule(iface, isOut), at, q);
    gone := given || Takes(t, hook, AcceptRule(iface, isOut), at, q);
  }

  /** Ensuring is inserting unless the rule is there, and keeps a filter table one. */
  lemma EnsureInserts(t: Table, hook: nat, iface: string, isOut: bool)
    requires IsFilter(t) && hook in t.hooks && IfaceArg(iface)
    ensures var t' := EnsureAccept(t, hook, iface, isOut);
      && IsFilter(t') && t'.hooks.Keys == t.hooks.Keys
      && t' == IptPreserve.InsertUnless(Exists(t, hook, WantAccept(iface, isOut)), t, hook, AcceptRule(iface, isOut))
  {
    AcceptRuleFacts(iface, isOut);
    EnsureIdempotent(t, hook, WantAccept(iface, isOut), AcceptRule(iface, isOut));
    hide Exists;
  }

  /** Tearing down undoes setting up, whatever the table held before: what is left
      is the old table as if it had only been torn down. */
  lemma TearDownForgetsSetUp(t: Table, iface: string)
    requires IsFilter(t) && IfaceArg(iface)
    ensures IsFilter(SetUp(t, iface))
    ensures TearDown(SetUp(t, iface), iface) == TearDown(t, iface)
  {
    hide WellFormed, RemoveMatching, Exists, AcceptRule, WantAccept, AcceptPrint, EnsureAccept, IfaceArg;
    if iface != "" {
      var qIn, qOut := AcceptPrint(iface, false), AcceptPrint(iface, true);
      var t1 := EnsureAccept(t, LOCAL_IN, iface, false);
      EnsureInserts(t, LOCAL_IN, iface, false);
      var t2 := EnsureAccept(t1, FORWARD, iface, false);
      EnsureInserts(t1, FORWARD, iface, false);
      EnsureInserts(t2, FORWARD, iface, true);
      var g := RemovePasses(Exists(t2, FORWARD, WantAccept(iface, true)), t2, FORWARD, iface, true, FORWARD, qIn);
      var g1 := RemovePasses(Exists(t1, FORWARD, WantAccept(iface, false)), t1, FORWARD, iface, false, FORWARD, qIn);
      var g2 := RemovePasses(Exists(t, LOCAL_IN, WantAccept(iface, false)), t, LOCAL_IN, iface, false, FORWARD, qIn);
      var u, v := RemoveMatching(t1, FORWARD, qIn), RemoveMatching(t, FORWARD, qIn);
      var g3 := RemovePasses(g, u, FORWARD, iface, true, FORWARD, qOut);
      var g4 := RemovePasses(g2, v, LOCAL_IN, iface, false, FORWARD, qOut);
      var g5 := RemovePasses(g4, RemoveMatching(v, FORWARD, qOut), LOCAL_IN, iface, false, LOCAL_IN, qIn);
    }
  }

  // ----- when the table comes back -----

  /** No entry that tearing down would take. */
  predicate NothingToTake(t: Table, iface: string)
    requires LOCAL_IN in t.hooks && FORWARD in t.hooks
  {
    && true !in Marks(t, FORWARD, AcceptPrint(iface, false))
    && true !in Marks(t, FORWARD, AcceptPrint(iface, true))
    && true !in Marks(t, LOCAL_IN, AcceptPrint(iface, false))
  }

  /** INPUT holds no ACCEPT for what comes in on the interface, and FORWARD none for
      what comes in on it or leaves by it. */
  ghost predicate NoneExists(t: Table, iface: string)
    requires LOCAL_IN in t.hooks && FORWARD in t.hooks
  {
    && !AcceptPresent(t, FORWARD, iface, false)
    && !AcceptPresent(t, FORWARD, iface, true)
    && !AcceptPresent(t, LOCAL_IN, iface, false)
  }

  lemma NoneFound(t: Table, iface: string)
    requires IsFilter(t) && IfaceArg(iface)
    ensures NoneExists(t, iface) <==>
      && !Exists(t, FORWARD, WantAccept(iface, false))
      && !Exists(t, FORWARD, WantAccept(iface, true))
      && !Exists(t, LOCAL_IN, WantAccept(iface, false))
  {
    hide WellFormed, Exists, AcceptPresent, WantAccept;
    ExistsAccept(t, FORWARD, iface, false);
    ExistsAccept(t, FORWARD, iface, true);
    ExistsAccept(t, LOCAL_IN, iface, false);
  }

  lemma AbsentNotTaken(t: Table, hook: nat, iface: string, isOut: bool)
    requires hook in t.hooks
    ensures !Exists(t, hook, WantAccept(iface, isOut)) ==> true !in Marks(t, hook, AcceptPrint(iface, isOut))
  {
    var w, q := WantAccept(iface, isOut), AcceptPrint(iface, isOut);
    forall e | Ours(e, q) ensures Satisfies(e, w) {
      AcceptOursSatisfies(e, iface, isOut);
    }
    if !Exists(t, hook, w) {
      AbsentUnmarked(t, hook, w, q);
    }
  }

  /** Setting up and tearing down gives back the exact table just when it held
      nothing that tearing down takes; so it does when none of the three rules
      was there. */
  lemma SetUpUndone(t: Table, iface: string)
    requires IsFilter(t) && IfaceArg(iface) && iface != ""
    ensures TearDown(SetUp(t, iface), iface) == t <==> NothingToTake(t, iface)
    ensures NoneExists(t, iface) ==> TearDown(SetUp(t, iface), iface) == t
  {
    hide WellFormed, RemoveMatching, Marks, SetUp, Exists, NoneExists, AcceptPrint, WantAccept;
    NoneFound(t, iface);
    TearDownForgetsSetUp(t, iface);
    var qIn, qOut := AcceptPrint(iface, false), AcceptPrint(iface, true);
    var u := RemoveMatching(t, FORWARD, qIn);
    RemoveKeepsFilter(t, FORWARD, qIn);
    var v := RemoveMatching(u, FORWARD, qOut);
    RemoveKeepsFilter(u, FORWARD, qOut);
    RemoveShrinks(t, FORWARD, qIn);
    RemoveShrinks(u, FORWARD, qOut);
    RemoveShrinks(v, LOCAL_IN, qIn);
    AbsentNotTaken(t, FORWARD, iface, false);
    AbsentNotTaken(t, FORWARD, iface, true);
    AbsentNotTaken(t, LOCAL_IN, iface, false);
  }

  // ----- setting up twice -----

  /** One more rule ensured makes no rule disappear. */
  lemma EnsureKeepsExists(t: Table, hook: nat, iface: string, isOut: bool, at: nat, w: Wanted)
    requires IsFilter(t) && hook in t.hooks && IfaceArg(iface) && Exists(t, at, w)
    ensures Exists(EnsureAccept(t, hook, iface, isOut), at, w)
  {
    hide WellFormed, Satisfies, AcceptRule, WantAccept;
    AcceptRuleFacts(iface, isOut);
    assert at in t.hooks;
    ExistsAfterInsert(t, hook, AcceptRule(iface, isOut), at, w);
    hide Exists;
  }

  lemma EnsureFinds(t: Table, hook: nat, iface: string, isOut: bool)
    requires IsFilter(t) && hook in t.hooks && IfaceArg(iface)
    ensures Exists(EnsureAccept(t, hook, iface, isOut), hook, WantAccept(iface, isOut))
  {
    AcceptRuleFacts(iface, isOut);
    EnsureIdempotent(t, hook, WantAccept(iface, isOut), AcceptRule(iface, isOut));
  }

  /** After setting up, all three rules are found. */
  lemma SetUpFinds(t: Table, iface: string)
    requires IsFilter(t) && IfaceArg(iface) && iface != ""
    ensures IsFilter(SetUp(t, iface))
    ensures var t' := SetUp(t, iface);
      && Exists(t', LOCAL_IN, WantAccept(iface, false))
      && Exists(t', FORWARD, WantAccept(iface, false))
      && Exists(t', FORWARD, WantAccept(iface, true))
  {
    hide WellFormed, Exists, EnsureAccept, WantAccept, IfaceArg;
    var wIn := WantAccept(iface, false);
    var t1 := EnsureAccept(t, LOCAL_IN, iface, false);
    EnsureInserts(t, LOCAL_IN, iface, false);
    EnsureFinds(t, LOCAL_IN, iface, false);
    var t2 := EnsureAccept(t1, FORWARD, iface, false);
    EnsureInserts(t1, FORWARD, iface, false);
    EnsureFinds(t1, FORWARD, iface, false);
    EnsureKeepsExists(t1, FORWARD, iface, false, LOCAL_IN, wIn);
    EnsureInserts(t2, FORWARD, iface, true);
    EnsureFinds(t2, FORWARD, iface, true);
    EnsureKeepsExists(t2, FORWARD, iface, true, LOCAL_IN, wIn);
    EnsureKeepsExists(t2, FORWARD, iface, true, FORWARD, wIn);
  }

  /** Setting up is idempotent as a whole, so rules may be reinstalled at any time. */
  lemma SetUpIdempotent(t: Table, iface: string)
    requires IsFilter(t) && IfaceArg(iface)
    ensures IsFilter(SetUp(t, iface)) && SetUp(SetUp(t, iface), iface) == SetUp(t, iface)
  {
    if iface != "" {
      SetUpFinds(t, iface);
    }
    hide WellFormed, Exists, AcceptRule, WantAccept, IfaceArg;
  }

  // ----- what set-up does to packets -----

  /** The test for the rule behind one argument does not find the rule for another. */
  lemma OtherDirectionUnsatisfied(iface: string)
    requires IfaceArg(iface) && iface != ""
    ensures !Satisfies(AcceptRule(iface, false), WantAccept(iface, true))
  {
    assert CStr(NO_NAME) == "";
  }

  /** Which of the rules set-up finds missing on the way, if all are at first: all
      three, but for FORWARD -i when the range of FORWARD spans the head of INPUT,
      where the rule just inserted then passes for it. */
  lemma SetUpInserts(t: Table, iface: string)
    requires IsFilter(t) && IfaceArg(iface) && iface != "" && NoneExists(t, iface)
    ensures var t1 := EnsureAccept(t, LOCAL_IN, iface, false);
      && IsFilter(t1) && t1.hooks.Keys == t.hooks.Keys
      && (AcceptPresent(t1, FORWARD, iface, false) <==> Spans(t, FORWARD, LOCAL_IN))
      && var t2 := EnsureAccept(t1, FORWARD, iface, false);
         IsFilter(t2) && t2.hooks.Keys == t.hooks.Keys && !AcceptPresent(t2, FORWARD, iface, true)
  {
    hide WellFormed, Satisfies, AcceptRule, WantAccept, IfaceArg, Spans, Exists, NoneExists, AcceptPresent, IptMeaning.RuleOk;
    NoneFound(t, iface);
    var rule := AcceptRule(iface, false);
    AcceptRuleFacts(iface, false);
    OtherDirectionUnsatisfied(iface);
    var t1 := EnsureAccept(t, LOCAL_IN, iface, false);
    EnsureInserts(t, LOCAL_IN, iface, false);
    ExistsAfterInsert(t, LOCAL_IN, rule, FORWARD, WantAccept(iface, false));
    ExistsAfterInsert(t, LOCAL_IN, rule, FORWARD, WantAccept(iface, true));
    EnsureInserts(t1, FORWARD, iface, false);
    ExistsAfterInsert(t1, FORWARD, rule, FORWARD, WantAccept(iface, true));
    ExistsAccept(t1, FORWARD, iface, false);
    ExistsAccept(EnsureAccept(t1, FORWARD, iface, false), FORWARD, iface, true);
  }

  /** What set-up does to packets when none of the rules was there: INPUT accepts
      what comes in on the interface, FORWARD what comes in on it or leaves by it,
      and every other walk is as before. (With FORWARD spanning the head of INPUT,
      it accepts what leaves by the interface only.) */
  lemma SetUpMeaning(t: Table, iface: string, h: nat, p: IptTraversal.Packet, fuel: nat)
    requires IsFilter(t) && IfaceArg(iface) && iface != "" && NoneExists(t, iface)
    requires IptTraversal.IsPacket(p) && h in t.hooks
    ensures var t', spans := SetUp(t, iface), Spans(t, FORWARD, LOCAL_IN);
      var comesIn := p.matches(AcceptRule(iface, false).ip, p.content);
      var leaves := p.matches(AcceptRule(iface, true).ip, p.content);
      var accepted := (h == LOCAL_IN && comesIn) || (h == FORWARD && (leaves || (comesIn && !spans)));
      var rules := if h == LOCAL_IN then 1 else if h != FORWARD then 0 else if spans then 1 else 2;
      && t'.hooks.Keys == t.hooks.Keys
      && IptMeaning.Traverse(t', h, p, fuel + rules) == if accepted then IptTraversal.Verdict(NF_ACCEPT, p.content) else IptMeaning.Traverse(t, h, p, fuel)
  {
    hide WellFormed, AcceptRule, WantAccept, IfaceArg, Spans, Exists, AcceptPresent, IptMeaning.Traverse, Ensure;
    var t1 := EnsureAccept(t, LOCAL_IN, iface, false);
    SetUpInserts(t, iface);
    var t2 := EnsureAccept(t1, FORWARD, iface, false);
    EnsureInserts(t2, FORWARD, iface, true);
    EnsuredAcceptMeaning(t, LOCAL_IN, iface, false, h, p, fuel);
    EnsuredAcceptMeaning(t1, FORWARD, iface, false, h, p, fuel);
    var below := if Spans(t, FORWARD, LOCAL_IN) then fuel else fuel + 1;
    EnsuredAcceptMeaning(t2, FORWARD, iface, true, h, p, if h == FORWARD then below else fuel);
    if h == LOCAL_IN {
      EnsuredAcceptMeaning(t1, FORWARD, iface, false, h, p, fuel + 1);
      EnsuredAcceptMeaning(t2, FORWARD, iface, true, h, p, fuel + 1);
    }
  }
}
