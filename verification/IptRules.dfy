/** Which rules the program inserts, how it recognises one that is already there,
    and which entries its removal takes out. */
module IptRules {
  import opened IptTable
  import opened IptTraversal
  import opened IptRewrite
  import opened IptMeaning
  import IptPreserve

  // ----- interface names: C strings in 16-byte fields -----

  /** The part of a field before its first NUL. */
  function CStr(s: string): string {
    if s == [] || s[0] == '\0' then [] else [s[0]] + CStr(s[1..])
  }

  /** strncmp(field, iface, IFNAMSIZ) == 0, for a NUL-free `iface`. */
  predicate SameName(field: IfName, iface: string) {
    CStr(field) == if |iface| > IFNAMSIZ then iface[..IFNAMSIZ] else iface
  }

  predicate IfaceEmpty(name: IfName, mask: IfMask) {
    name == NO_NAME && mask == NO_MASK
  }

  predicate IfaceExactMatch(name: IfName, mask: IfMask, iface: string) {
    && iface != "" && |iface| < IFNAMSIZ
    && SameName(name, iface)
    && (forall i :: 0 <= i <= |iface| ==> mask[i] == 255)
    && (forall i :: |iface| < i < IFNAMSIZ ==> mask[i] == 0)
  }

  // ----- recognising rules -----

  /** What `remove_matching_rules` looks for; an empty name or a zero source is absent. */
  datatype Fingerprint = Fingerprint(src: nat, mask: nat, iface: string, matchIn: bool, matchOut: bool)

  predicate OurMasquerade(e: Entry, q: Fingerprint) {
    && q.src != 0 && e.target.name == "MASQUERADE"
    && e.ip.src == q.src && e.ip.smsk == q.mask
    && e.ip.dst == q.src && e.ip.dmsk == q.mask && e.ip.invDst
  }

  predicate OurAccept(e: Entry, q: Fingerprint) {
    && q.iface != "" && TargetIsAccept(e.target)
    && (|| (q.matchIn && IfaceExactMatch(e.ip.inIface, e.ip.inMask, q.iface) && IfaceEmpty(e.ip.outIface, e.ip.outMask))
        || (q.matchOut && IfaceExactMatch(e.ip.outIface, e.ip.outMask, q.iface) && IfaceEmpty(e.ip.inIface, e.ip.inMask)))
  }

  predicate Ours(e: Entry, q: Fingerprint) {
    OurMasquerade(e, q) || OurAccept(e, q)
  }

  predicate IsUnderflow(t: Table, off: nat) {
    exists h :: h in t.hooks && t.hooks[h].underflow == off
  }

  /** Entry `i` goes: in the range of the hook, ours, and nobody's policy. */
  predicate Goes(t: Table, hook: nat, q: Fingerprint, i: nat)
    requires hook in t.hooks && i < |t.entries|
  {
    InHook(t.hooks[hook], Offset(t.entries, i)) && Ours(t.entries[i], q) && !IsUnderflow(t, Offset(t.entries, i))
  }

  function Marks(t: Table, hook: nat, q: Fingerprint): (r: seq<bool>)
    requires hook in t.hooks
    ensures |r| == |t.entries|
    ensures forall i :: 0 <= i < |r| ==> r[i] == Goes(t, hook, q, i)
  {
    seq(|t.entries|, i requires 0 <= i < |t.entries| => Goes(t, hook, q, i))
  }

  /** The table after `remove_matching_rules`: unchanged if nothing matched. */
  function RemoveMatching(t: Table, hook: nat, q: Fingerprint): Table {
    if hook in t.hooks && true in Marks(t, hook, q) then Remove(t, Marks(t, hook, q)) else t
  }

  /** The criteria of `rule_exists_in_hook`. */
  datatype Wanted = Wanted(ifaceIn: string, ifaceOut: string, src: nat, mask: nat, target: string)

  predicate Satisfies(e: Entry, w: Wanted) {
    && (w.target != "" ==> if w.target == "ACCEPT" then TargetIsAccept(e.target) else e.target.name == w.target)
    && (w.ifaceIn != "" ==> SameName(e.ip.inIface, w.ifaceIn))
    && (w.ifaceOut != "" ==> SameName(e.ip.outIface, w.ifaceOut))
    && (w.src != 0 ==> e.ip.src == w.src && e.ip.smsk == w.mask)
  }

  predicate Exists(t: Table, hook: nat, w: Wanted) {
    hook in t.hooks &&
    exists i :: 0 <= i < |t.entries| && InHook(t.hooks[hook], Offset(t.entries, i)) && Satisfies(t.entries[i], w)
  }

  lemma OursConditional(e: Entry, q: Fingerprint)
    requires Ours(e, q)
    ensures !IsJump(e) && !IsFinal(e)
  {
    if OurAccept(e, q) {
      assert e.ip.inMask[0] == 255 || e.ip.outMask[0] == 255;
      assert NO_MASK[0] == 0;
    }
  }

  /** Removal only ever marks entries that may go. */
  lemma MarksRemovable(t: Table, hook: nat, q: Fingerprint)
    requires hook in t.hooks
    ensures Removable(t, hook, Marks(t, hook, q))
  {
    forall i | 0 <= i < |t.entries| && Ours(t.entries[i], q)
      ensures !IsJump(t.entries[i]) && !IsFinal(t.entries[i])
    {
      OursConditional(t.entries[i], q);
    }
  }

  // ----- the rules the program inserts -----

  function Zeros(n: nat): (r: string)
    ensures |r| == n && forall i :: 0 <= i < n ==> r[i] == '\0'
  {
    if n == 0 then "" else Zeros(n - 1) + ['\0']
  }

  predicate IfaceArg(iface: string) {
    |iface| < IFNAMSIZ && forall i :: 0 <= i < |iface| ==> iface[i] != '\0'
  }

  function NameField(iface: string): IfName
    requires IfaceArg(iface)
  {
    iface + Zeros(IFNAMSIZ - |iface|)
  }

  function MaskField(iface: string): IfMask
    requires IfaceArg(iface)
  {
    seq(IFNAMSIZ, i => if i <= |iface| then 255 else 0)
  }

  /** -i <iface> -j ACCEPT, or -o with `isOut`. */
  function AcceptRule(iface: string, isOut: bool): Entry
    requires IfaceArg(iface)
  {
    Entry(SIZEOF_ENTRY + SIZEOF_STANDARD, SIZEOF_ENTRY,
          if isOut then ANY.(outIface := NameField(iface), outMask := MaskField(iface))
          else ANY.(inIface := NameField(iface), inMask := MaskField(iface)),
          Target(SIZEOF_STANDARD, "", ACCEPT_VERDICT, []))
  }

  const SIZEOF_MASQUERADE := 56   // XT_ALIGN(xt_entry_target + nf_nat_ipv4_multi_range_compat)

  /** -s <net> ! -d <net> -j MASQUERADE, with one NAT range. */
  function MasqueradeRule(src: nat, mask: nat): Entry {
    Entry(SIZEOF_ENTRY + SIZEOF_MASQUERADE, SIZEOF_ENTRY,
          ANY.(src := src, smsk := mask, dst := src, dmsk := mask, invDst := true),
          Target(SIZEOF_MASQUERADE, "MASQUERADE", 0, [1]))
  }

  function WantAccept(iface: string, isOut: bool): Wanted {
    Wanted(if isOut then "" else iface, if isOut then iface else "", 0, 0, "ACCEPT")
  }

  function WantMasquerade(src: nat, mask: nat): Wanted {
    Wanted("", "", src, mask, "MASQUERADE")
  }

  function AcceptPrint(iface: string, isOut: bool): Fingerprint {
    Fingerprint(0, 0, iface, !isOut, isOut)
  }

  function MasqueradePrint(src: nat, mask: nat): Fingerprint {
    Fingerprint(src, mask, "", false, false)
  }

  /** Insert the rule at the head of the hook unless one like it is there. */
  function Ensure(t: Table, hook: nat, w: Wanted, rule: Entry): Table
    requires hook in t.hooks
  {
    if Exists(t, hook, w) then t else Insert(t, hook, rule)
  }

  lemma {:induction false} CStrOf(iface: string, n: nat)
    requires forall i :: 0 <= i < |iface| ==> iface[i] != '\0'
    requires n > 0
    ensures CStr(iface + Zeros(n)) == iface
    decreases |iface|
  {
    if iface == "" {
      assert (iface + Zeros(n))[0] == '\0';
    } else {
      CStrOf(iface[1..], n);
      assert (iface + Zeros(n))[1..] == iface[1..] + Zeros(n);
    }
  }

  lemma AcceptRuleFacts(iface: string, isOut: bool)
    requires IfaceArg(iface)
    ensures RuleOk(AcceptRule(iface, isOut))
    ensures Satisfies(AcceptRule(iface, isOut), WantAccept(iface, isOut))
  {
    CStrOf(iface, IFNAMSIZ - |iface|);
  }

  /** The inserted ACCEPT carries the fingerprint its removal looks for, exactly
      when an interface is named. */
  lemma AcceptRuleOurs(iface: string, isOut: bool)
    requires IfaceArg(iface)
    ensures Ours(AcceptRule(iface, isOut), AcceptPrint(iface, isOut)) <==> iface != ""
  {
    CStrOf(iface, IFNAMSIZ - |iface|);
  }

  /** But for the one interface the inserted ACCEPT matches everything, and it names
      that interface in full. */
  lemma AcceptRuleMatches(iface: string, isOut: bool)
    requires IfaceArg(iface)
    ensures var r := AcceptRule(iface, isOut);
      && r.ip.(inIface := NO_NAME, inMask := NO_MASK, outIface := NO_NAME, outMask := NO_MASK) == ANY
      && (if isOut then r.ip.inIface == NO_NAME && r.ip.inMask == NO_MASK else r.ip.outIface == NO_NAME && r.ip.outMask == NO_MASK)
      && var name, mask := if isOut then r.ip.outIface else r.ip.inIface, if isOut then r.ip.outMask else r.ip.inMask;
         CStr(name) == iface && forall i :: 0 <= i < IFNAMSIZ ==> mask[i] == if i <= |iface| then 255 else 0
  {
    CStrOf(iface, IFNAMSIZ - |iface|);
  }

  /** The inserted MASQUERADE carries the fingerprint its removal looks for,
      exactly when the subnet address is not zero. */
  lemma MasqueradeRuleOurs(src: nat, mask: nat)
    ensures MasqueradeRule(src, mask).ip.(src := 0, smsk := 0, dst := 0, dmsk := 0, invDst := false) == ANY
    ensures RuleOk(MasqueradeRule(src, mask))
    ensures Satisfies(MasqueradeRule(src, mask), WantMasquerade(src, mask))
    ensures Ours(MasqueradeRule(src, mask), MasqueradePrint(src, mask)) <==> src != 0
  {
  }

  /** Whatever removal takes for ours, the existence test takes for present. */
  lemma AcceptOursSatisfies(e: Entry, iface: string, isOut: bool)
    requires Ours(e, AcceptPrint(iface, isOut))
    ensures Satisfies(e, WantAccept(iface, isOut))
  {
  }

  lemma MasqueradeOursSatisfies(e: Entry, src: nat, mask: nat)
    requires Ours(e, MasqueradePrint(src, mask))
    ensures Satisfies(e, WantMasquerade(src, mask))
  {
  }

  /** The interface fields of `ip` are those of our ACCEPT, up to what follows the
      name's NUL. */
  predicate OnInterface(ip: IpMatch, iface: string, isOut: bool)
    requires IfaceArg(iface)
  {
    if isOut then ip.inIface == NO_NAME && ip.inMask == NO_MASK && CStr(ip.outIface) == iface && ip.outMask == MaskField(iface)
    else ip.outIface == NO_NAME && ip.outMask == NO_MASK && CStr(ip.inIface) == iface && ip.inMask == MaskField(iface)
  }

  /** Exactly which entries removal takes for our ACCEPT: every ACCEPT on the
      interface, whatever else it matches on. */
  lemma AcceptPrintTakes(e: Entry, iface: string, isOut: bool)
    requires IfaceArg(iface) && iface != ""
    ensures Ours(e, AcceptPrint(iface, isOut)) <==> TargetIsAccept(e.target) && OnInterface(e.ip, iface, isOut)
  {
    var mask := if isOut then e.ip.outMask else e.ip.inMask;
    assert mask == MaskField(iface) <==>
      (forall i :: 0 <= i <= |iface| ==> mask[i] == 255) && (forall i :: |iface| < i < IFNAMSIZ ==> mask[i] == 0);
  }

  /** So a rule that somebody else made narrower, by addresses or further matches,
      is taken for ours, and ensuring takes it for present. */
  lemma NarrowerRuleTaken(iface: string, isOut: bool, src: nat, smsk: nat, rest: seq<int>)
    requires IfaceArg(iface) && iface != "" && (src != 0 || rest != [])
    ensures var r := AcceptRule(iface, isOut);
      var e := r.(ip := r.ip.(src := src, smsk := smsk, rest := rest));
      e != r && Ours(e, AcceptPrint(iface, isOut)) && Satisfies(e, WantAccept(iface, isOut))
  {
    var r := AcceptRule(iface, isOut);
    var e := r.(ip := r.ip.(src := src, smsk := smsk, rest := rest));
    CStrOf(iface, IFNAMSIZ - |iface|);
    AcceptPrintTakes(e, iface, isOut);
    AcceptOursSatisfies(e, iface, isOut);
  }

  /** Exactly which entries removal takes for our MASQUERADE: every one from our
      subnet and away from it, whatever interfaces and further matches it has. */
  lemma MasqueradePrintTakes(e: Entry, src: nat, mask: nat)
    requires src != 0
    ensures Ours(e, MasqueradePrint(src, mask)) <==>
      && e.target.name == "MASQUERADE"
      && e.ip == MasqueradeRule(src, mask).ip.(inIface := e.ip.inIface, outIface := e.ip.outIface, inMask := e.ip.inMask,
                                               outMask := e.ip.outMask, goto_ := e.ip.goto_, rest := e.ip.rest)
  {
  }

  /** So one that somebody else made narrower, by an output interface or further
      matches, is taken for ours, and ensuring takes it for present. */
  lemma NarrowerMasqueradeTaken(src: nat, mask: nat, out: IfName, outMask: IfMask, rest: seq<int>)
    requires src != 0 && (out != NO_NAME || rest != [])
    ensures var r := MasqueradeRule(src, mask);
      var e := r.(ip := r.ip.(outIface := out, outMask := outMask, rest := rest));
      e != r && Ours(e, MasqueradePrint(src, mask)) && Satisfies(e, WantMasquerade(src, mask))
  {
    var r := MasqueradeRule(src, mask);
    var e := r.(ip := r.ip.(outIface := out, outMask := outMask, rest := rest));
    assert e.ip.outIface == out && e.ip.rest == rest;
  }

  // ----- what the tests find in a table -----

  const NF_ACCEPT := 1

  /** Entry `i` starts in the range of the hook, before its policy. */
  predicate InRange(t: Table, hook: nat, i: nat)
    requires hook in t.hooks && i < |t.entries|
  {
    t.hooks[hook].entry <= Offset(t.entries, i) < t.hooks[hook].underflow
  }

  /** The kernel stops at entry `i` with ACCEPT, or its extension has that name. */
  predicate Accepts(t: Table, i: nat)
    requires i < |t.entries|
  {
    Decode(t, i).op == Stop(NF_ACCEPT) || t.entries[i].target.name == "ACCEPT"
  }

  /** In the range of the hook stands an ACCEPT whose interface is the given one;
      with no name given, any ACCEPT. */
  ghost predicate AcceptPresent(t: Table, hook: nat, iface: string, isOut: bool)
    requires hook in t.hooks
  {
    exists i {:trigger InRange(t, hook, i)} :: 0 <= i < |t.entries| && InRange(t, hook, i) && Accepts(t, i) &&
      (iface == "" || CStr(if isOut then t.entries[i].ip.outIface else t.entries[i].ip.inIface) == iface)
  }

  /** In the range of the hook stands a MASQUERADE for the given source; with a zero
      address, any MASQUERADE. */
  ghost predicate MasqueradePresent(t: Table, hook: nat, src: nat, mask: nat)
    requires hook in t.hooks
  {
    exists i {:trigger InRange(t, hook, i)} :: 0 <= i < |t.entries| && InRange(t, hook, i) &&
      t.entries[i].target.name == "MASQUERADE" && (src == 0 || (t.entries[i].ip.src == src && t.entries[i].ip.smsk == mask))
  }

  lemma AcceptsExactly(t: Table, i: nat)
    requires WellFormed(t) && i < |t.entries|
    ensures TargetIsAccept(t.entries[i].target) <==> Accepts(t, i)
  {
    assert EntryOk(t.entries[i]);
  }

  /** Exactly when the existence test finds an ACCEPT for an interface. */
  lemma ExistsAccept(t: Table, hook: nat, iface: string, isOut: bool)
    requires WellFormed(t) && hook in t.hooks && IfaceArg(iface)
    ensures Exists(t, hook, WantAccept(iface, isOut)) <==> AcceptPresent(t, hook, iface, isOut)
  {
    hide WellFormed, Offset, Decode, Accepts, TargetIsAccept;
    forall i | 0 <= i < |t.entries| ensures TargetIsAccept(t.entries[i].target) <==> Accepts(t, i) {
      AcceptsExactly(t, i);
    }
    forall i | 0 <= i < |t.entries| ensures InRange(t, hook, i) <==> InHook(t.hooks[hook], Offset(t.entries, i)) {
    }
  }

  /** Exactly when it finds a MASQUERADE for a source. */
  lemma ExistsMasquerade(t: Table, hook: nat, src: nat, mask: nat)
    requires hook in t.hooks
    ensures Exists(t, hook, WantMasquerade(src, mask)) <==> MasqueradePresent(t, hook, src, mask)
  {
    hide Offset;
    forall i | 0 <= i < |t.entries| ensures InRange(t, hook, i) <==> InHook(t.hooks[hook], Offset(t.entries, i)) {
    }
  }

  /** Removal takes every entry in the range of the hook that it takes for ours; none
      of them is anybody's policy. */
  lemma MarksExactly(t: Table, hook: nat, q: Fingerprint, i: nat)
    requires WellFormed(t) && hook in t.hooks && i < |t.entries|
    ensures Marks(t, hook, q)[i] <==> InRange(t, hook, i) && Ours(t.entries[i], q)
  {
    if Ours(t.entries[i], q) && IsUnderflow(t, Offset(t.entries, i)) {
      var h :| h in t.hooks && t.hooks[h].underflow == Offset(t.entries, i);
      var k, u := HookIndices(t, h);
      OffsetOrder(t.entries, u, i);
      OursConditional(t.entries[i], q);
    }
  }

  // ----- what an insertion changes for the hooks -----

  /** The range of hook `at` holds the place where a rule for `hook` goes. */
  predicate Spans(t: Table, at: nat, hook: nat)
    requires at in t.hooks && hook in t.hooks
  {
    t.hooks[at].entry <= t.hooks[hook].entry <= t.hooks[at].underflow
  }

  /** Which hook ranges an old entry lies in, and whose policy it is, does not
      change with an insertion. */
  lemma InsertedRange(t: Table, hook: nat, rule: Entry, h: nat, i: nat)
    requires WellFormed(t) && hook in t.hooks && RuleOk(rule) && h in t.hooks && i < |t.entries|
    ensures var t', k := Insert(t, hook, rule), IndexAt(t.entries, t.hooks[hook].entry);
      && (InHook(t'.hooks[h], Offset(t'.entries, Moved(k, i))) <==> InHook(t.hooks[h], Offset(t.entries, i)))
      && (t'.hooks[h].underflow == Offset(t'.entries, Moved(k, i)) <==> t.hooks[h].underflow == Offset(t.entries, i))
  {
    var k, u := HookIndices(t, hook);
    InsertedAt(t.entries, k, rule, i);
    assert HookOk(t, t.hooks[h]);
    if h != hook {
      assert Apart(t, h, hook);
    }
  }

  /** The inserted rule is in the range of its own hook and of those that span it,
      and it is nobody's policy. */
  lemma InsertedRuleRange(t: Table, hook: nat, rule: Entry, h: nat)
    requires WellFormed(t) && hook in t.hooks && RuleOk(rule) && h in t.hooks
    ensures var t', k := Insert(t, hook, rule), IndexAt(t.entries, t.hooks[hook].entry);
      && k < |t'.entries| && t'.entries[k] == rule && Offset(t'.entries, k) == t.hooks[hook].entry
      && (InHook(t'.hooks[h], Offset(t'.entries, k)) <==> Spans(t, h, hook))
      && t'.hooks[h].underflow != Offset(t'.entries, k)
      && Spans(t, hook, hook)
  {
    hide Offset, IndexAt;
    var k, u := HookIndices(t, hook);
    InsertedAt(t.entries, k, rule, k);
    assert HookOk(t, t.hooks[h]) && HookOk(t, t.hooks[hook]);
    if h != hook {
      assert Apart(t, h, hook);
    }
  }

  lemma ShiftKeepsSatisfies(e: Entry, off: nat, delta: nat, w: Wanted)
    ensures Satisfies(Shift(e, off, delta), w) <==> Satisfies(e, w)
  {
  }

  /** After an insertion the existence test at any hook finds what it found before,
      and the new rule if that is in range. */
  lemma ExistsAfterInsert(t: Table, hook: nat, rule: Entry, at: nat, w: Wanted)
    requires WellFormed(t) && hook in t.hooks && RuleOk(rule) && at in t.hooks
    ensures Exists(Insert(t, hook, rule), at, w) <==> Exists(t, at, w) || (Satisfies(rule, w) && Spans(t, at, hook))
  {
    hide Offset, IndexAt, InHook, Satisfies, Shift, WellFormed, Spans;
    var t' := Insert(t, hook, rule);
    var k, u := HookIndices(t, hook);
    InsertedRuleRange(t, hook, rule, at);
    forall i | 0 <= i < |t.entries|
      ensures InHook(t'.hooks[at], Offset(t'.entries, Moved(k, i))) <==> InHook(t.hooks[at], Offset(t.entries, i))
      ensures Satisfies(t'.entries[Moved(k, i)], w) <==> Satisfies(t.entries[i], w)
    {
      InsertedRange(t, hook, rule, at, i);
      ShiftKeepsSatisfies(t.entries[i], t.hooks[hook].entry, rule.size, w);
      assert t'.entries[Moved(k, i)] == Shift(t.entries[i], t.hooks[hook].entry, rule.size);
    }
    if Exists(t', at, w) {
      var j :| 0 <= j < |t'.entries| && InHook(t'.hooks[at], Offset(t'.entries, j)) && Satisfies(t'.entries[j], w);
      if j != k {
        assert j == Moved(k, if j < k then j else j - 1);
      }
    }
    if Exists(t, at, w) {
      var i :| 0 <= i < |t.entries| && InHook(t.hooks[at], Offset(t.entries, i)) && Satisfies(t.entries[i], w);
      assert InHook(t'.hooks[at], Offset(t'.entries, Moved(k, i)));
    }
  }

  // ----- ensuring is idempotent -----

  /** Ensuring a rule twice is ensuring it once, and keeps the table well formed. */
  lemma EnsureIdempotent(t: Table, hook: nat, w: Wanted, rule: Entry)
    requires WellFormed(t) && hook in t.hooks && RuleOk(rule) && Satisfies(rule, w)
    ensures var t' := Ensure(t, hook, w, rule);
      WellFormed(t') && Exists(t', hook, w) && Ensure(t', hook, w, rule) == t'
  {
    if !Exists(t, hook, w) {
      InsertedRuleRange(t, hook, rule, hook);
      ExistsAfterInsert(t, hook, rule, hook, w);
      IptPreserve.InsertKeepsWellFormed(t, hook, rule);
    }
  }

  /** What ensuring an interface ACCEPT does to packets. If a rule like it was
      there, nothing; else, from its hook, every packet it matches ends with
      ACCEPT and every other packet walks as before, as all do from other hooks. */
  lemma EnsuredAcceptMeaning(t: Table, hook: nat, iface: string, isOut: bool, h: nat, p: Packet, fuel: nat)
    requires WellFormed(t) && IsPacket(p) && hook in t.hooks && h in t.hooks && IfaceArg(iface)
    ensures var t' := Ensure(t, hook, WantAccept(iface, isOut), AcceptRule(iface, isOut));
      if AcceptPresent(t, hook, iface, isOut) || h != hook then Traverse(t', h, p, fuel) == Traverse(t, h, p, fuel)
      else if p.matches(AcceptRule(iface, isOut).ip, p.content) then Traverse(t', h, p, fuel + 1) == Verdict(NF_ACCEPT, p.content)
      else Traverse(t', h, p, fuel + 1) == Traverse(t, h, p, fuel)
  {
    AcceptRuleFacts(iface, isOut);
    ExistsAccept(t, hook, iface, isOut);
    InsertPreservesMeaning(t, hook, AcceptRule(iface, isOut), h, p, fuel);
    assert p.(content := p.content) == p;
    hide Traverse, Insert, Exists, WellFormed, AcceptPresent;
  }

  // ----- removing what was ensured -----

  /** Whether removal would take an old entry is the same after an insertion. */
  lemma ShiftKeepsOurs(e: Entry, off: nat, delta: nat, q: Fingerprint)
    ensures Ours(Shift(e, off, delta), q) <==> Ours(e, q)
  {
    if Ours(Shift(e, off, delta), q) {
      OursConditional(Shift(e, off, delta), q);
    }
    if Ours(e, q) {
      OursConditional(e, q);
    }
  }

  /** Removal by `q` at hook `at` would take a rule put at the head of `hook`. */
  predicate Takes(t: Table, hook: nat, rule: Entry, at: nat, q: Fingerprint)
    requires hook in t.hooks && at in t.hooks
  {
    Ours(rule, q) && Spans(t, at, hook)
  }

  lemma InsertedGoes(t: Table, hook: nat, rule: Entry, at: nat, q: Fingerprint, i: nat)
    requires WellFormed(t) && hook in t.hooks && RuleOk(rule) && at in t.hooks && i < |t.entries|
    ensures var t', k := Insert(t, hook, rule), IndexAt(t.entries, t.hooks[hook].entry);
      Moved(k, i) < |t'.entries| && (Goes(t', at, q, Moved(k, i)) <==> Goes(t, at, q, i))
  {
    hide Offset, IndexAt, Ours, InHook, WellFormed;
    var t' := Insert(t, hook, rule);
    var k, u := HookIndices(t, hook);
    assert t'.entries[Moved(k, i)] == Shift(t.entries[i], t.hooks[hook].entry, rule.size);
    ShiftKeepsOurs(t.entries[i], t.hooks[hook].entry, rule.size, q);
    forall h | h in t.hooks
      ensures t'.hooks[h].underflow == Offset(t'.entries, Moved(k, i)) <==> t.hooks[h].underflow == Offset(t.entries, i)
    {
      InsertedRange(t, hook, rule, h, i);
    }
    InsertedRange(t, hook, rule, at, i);
  }

  /** The inserted entry goes if it is in range and ours; it is nobody's policy. */
  lemma InsertedRuleGoes(t: Table, hook: nat, rule: Entry, at: nat, q: Fingerprint)
    requires WellFormed(t) && hook in t.hooks && RuleOk(rule) && at in t.hooks
    ensures var t', k := Insert(t, hook, rule), IndexAt(t.entries, t.hooks[hook].entry);
      k < |t'.entries| && (Goes(t', at, q, k) <==> Takes(t, hook, rule, at, q))
  {
    hide Offset, IndexAt, Ours, InHook, Spans;
    forall h | h in t.hooks ensures Insert(t, hook, rule).hooks[h].underflow != t.hooks[hook].entry {
      InsertedRuleRange(t, hook, rule, h);
    }
    InsertedRuleRange(t, hook, rule, at);
  }

  lemma InsertedMarks(t: Table, hook: nat, rule: Entry, at: nat, q: Fingerprint)
    requires WellFormed(t) && hook in t.hooks && RuleOk(rule) && at in t.hooks
    ensures Marks(Insert(t, hook, rule), at, q) == IptPreserve.WithRule(t, hook, Marks(t, at, q), Takes(t, hook, rule, at, q))
  {
    hide Offset, IndexAt, Goes, Takes, IptPreserve.SplicedDead, WellFormed;
    var k, u := HookIndices(t, hook);
    var t' := Insert(t, hook, rule);
    var marks := IptPreserve.WithRule(t, hook, Marks(t, at, q), Takes(t, hook, rule, at, q));
    forall j | 0 <= j <= |t.entries| ensures Goes(t', at, q, j) == marks[j] {
      if j == k {
        InsertedRuleGoes(t, hook, rule, at, q);
      } else {
        var i := if j < k then j else j - 1;
        assert marks[Moved(k, i)] == Marks(t, at, q)[i];
        InsertedGoes(t, hook, rule, at, q, i);
      }
    }
  }

  /** Removal changes a table exactly when it marks something, and then shrinks it. */
  lemma RemoveShrinks(t: Table, at: nat, q: Fingerprint)
    requires WellFormed(t) && at in t.hooks
    ensures RemoveMatching(t, at, q) == Remove(t, Marks(t, at, q))
    ensures |RemoveMatching(t, at, q).entries| <= |t.entries|
    ensures |RemoveMatching(t, at, q).entries| == |t.entries| <==> true !in Marks(t, at, q)
    ensures RemoveMatching(t, at, q) == t <==> true !in Marks(t, at, q)
  {
    var marks := Marks(t, at, q);
    RankBound(marks, |marks|);
    if true !in marks {
      assert marks == NoneDead(|t.entries|);
      IptPreserve.RemoveNothing(t, at);
    }
  }

  /** Removal by any fingerprint, at any hook, treats a freshly inserted rule on
      its own: it takes it or leaves it, and does to the rest of the table what it
      would have done without it. */
  lemma RemoveMatchingAfterInsert(t: Table, hook: nat, rule: Entry, at: nat, q: Fingerprint)
    requires WellFormed(t) && hook in t.hooks && RuleOk(rule) && at in t.hooks
    ensures WellFormed(RemoveMatching(t, at, q)) && RemoveMatching(t, at, q).hooks.Keys == t.hooks.Keys
    ensures RemoveMatching(Insert(t, hook, rule), at, q) ==
      IptPreserve.InsertUnless(Takes(t, hook, rule, at, q), RemoveMatching(t, at, q), hook, rule)
  {
    hide WellFormed, Remove, Marks, Takes, IptPreserve.WithRule, IptPreserve.InsertUnless, RemoveMatching, RuleOk;
    var marks := Marks(t, at, q);
    MarksRemovable(t, at, q);
    IptPreserve.RemoveKeepsWellFormed(t, at, marks);
    IptPreserve.RemoveAfterInsert(t, hook, rule, at, marks, Takes(t, hook, rule, at, q));
    IptPreserve.InsertKeepsWellFormed(t, hook, rule);
    InsertedMarks(t, hook, rule, at, q);
    RemoveShrinks(t, at, q);
    IptPreserve.SameHooks(t, hook, rule, marks, true);
    RemoveShrinks(Insert(t, hook, rule), at, q);
  }

  /** Whether or not it inserts its rule, ensuring leaves no trace in a table that
      has then been cleared of that rule's fingerprint. */
  lemma RemoveForgetsEnsure(t: Table, hook: nat, w: Wanted, rule: Entry, q: Fingerprint)
    requires WellFormed(t) && hook in t.hooks && RuleOk(rule) && Ours(rule, q)
    ensures RemoveMatching(Ensure(t, hook, w, rule), hook, q) == RemoveMatching(t, hook, q)
  {
    RemoveMatchingAfterInsert(t, hook, rule, hook, q);
    assert HookOk(t, t.hooks[hook]);
    hide RemoveMatching, Ours, Exists;
  }

  /** Ensuring a rule and removing it gives back the exact old table just when the
      hook held nothing that removal takes, and removal recognises the rule or
      one like it was there all along. */
  lemma EnsureUndone(t: Table, hook: nat, w: Wanted, rule: Entry, q: Fingerprint)
    requires WellFormed(t) && hook in t.hooks && RuleOk(rule) && Satisfies(rule, w)
    ensures RemoveMatching(Ensure(t, hook, w, rule), hook, q) == t <==>
      true !in Marks(t, hook, q) && (Ours(rule, q) || Exists(t, hook, w))
  {
    hide WellFormed, Marks, RemoveMatching, Ours, Insert, Exists, Satisfies;
    RemoveShrinks(t, hook, q);
    if Ours(rule, q) {
      RemoveForgetsEnsure(t, hook, w, rule, q);
    } else if !Exists(t, hook, w) {
      var u := RemoveMatching(t, hook, q);
      RemoveMatchingAfterInsert(t, hook, rule, hook, q);
      InsertedRuleRange(u, hook, rule, hook);
      ExistsAfterInsert(u, hook, rule, hook, w);
    }
  }

  /** A hook without a rule like ours has nothing that removal takes for ours. */
  lemma AbsentUnmarked(t: Table, hook: nat, w: Wanted, q: Fingerprint)
    requires hook in t.hooks && !Exists(t, hook, w)
    requires forall e :: Ours(e, q) ==> Satisfies(e, w)
    ensures true !in Marks(t, hook, q)
  {
    hide Ours, Satisfies, Offset;
  }

  /** Setting up and tearing down an interface ACCEPT restores the exact table just
      when removal would have taken nothing before, and a name is given or the rule
      was there; so, if the first call inserted it, just when a name is given. */
  lemma AcceptRoundTrip(t: Table, hook: nat, iface: string, isOut: bool)
    requires WellFormed(t) && hook in t.hooks && IfaceArg(iface)
    ensures var w, q := WantAccept(iface, isOut), AcceptPrint(iface, isOut);
      var undone := RemoveMatching(Ensure(t, hook, w, AcceptRule(iface, isOut)), hook, q) == t;
      && (undone <==> true !in Marks(t, hook, q) && (iface != "" || Exists(t, hook, w)))
      && (!Exists(t, hook, w) ==> (undone <==> iface != ""))
  {
    var w, q := WantAccept(iface, isOut), AcceptPrint(iface, isOut);
    AcceptRuleFacts(iface, isOut);
    AcceptRuleOurs(iface, isOut);
    EnsureUndone(t, hook, w, AcceptRule(iface, isOut), q);
    forall e | Ours(e, q) ensures Satisfies(e, w) {
      AcceptOursSatisfies(e, iface, isOut);
    }
    if !Exists(t, hook, w) {
      AbsentUnmarked(t, hook, w, q);
    }
  }

  /** The same for MASQUERADE; a zero subnet address is never torn down. */
  lemma MasqueradeRoundTrip(t: Table, hook: nat, src: nat, mask: nat)
    requires WellFormed(t) && hook in t.hooks
    ensures var w, q := WantMasquerade(src, mask), MasqueradePrint(src, mask);
      var undone := RemoveMatching(Ensure(t, hook, w, MasqueradeRule(src, mask)), hook, q) == t;
      && (undone <==> true !in Marks(t, hook, q) && (src != 0 || Exists(t, hook, w)))
      && (!Exists(t, hook, w) ==> (undone <==> src != 0))
  {
    var w, q := WantMasquerade(src, mask), MasqueradePrint(src, mask);
    MasqueradeRuleOurs(src, mask);
    EnsureUndone(t, hook, w, MasqueradeRule(src, mask), q);
    forall e | Ours(e, q) ensures Satisfies(e, w) {
      MasqueradeOursSatisfies(e, src, mask);
    }
    if !Exists(t, hook, w) {
      AbsentUnmarked(t, hook, w, q);
    }
  }

  /** Removal by fingerprint keeps the table well formed and every packet's fate,
      with the removed rules taken as never matching. */
  lemma RemoveMatchingSound(t: Table, hook: nat, q: Fingerprint, h: nat, p: Packet, o: Outcome)
    requires WellFormed(t) && IsPacket(p) && hook in t.hooks && h in t.hooks
    ensures var t' := RemoveMatching(t, hook, q);
      && WellFormed(t')
      && (Ends(Resolve(t), h, Marks(t, hook, q), p, o) <==> Ends(Resolve(t'), h, NoneDead(|t'.entries|), p, o))
  {
    var marks := Marks(t, hook, q);
    MarksRemovable(t, hook, q);
    if true in marks {
      IptPreserve.RemoveKeepsWellFormed(t, hook, marks);
      RemovePreservesMeaning(t, hook, marks, h, p, o);
    } else {
      assert marks == NoneDead(|t.entries|);
    }
  }
}
