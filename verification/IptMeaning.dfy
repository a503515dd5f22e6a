/** Both rewrites preserve the meaning of a table: the byte offsets they leave
    resolve to the same entries, so the kernel's walk is preserved. */
module IptMeaning {
  import opened Common
  import opened IptTable
  import opened IptTraversal
  import opened IptRewrite

  /** What the kernel makes of entry `i`. A jump to the next entry is a
      fall-through and a GOTO never returns: neither saves itself. */
  function Decode(t: Table, i: nat): Insn
    requires i < |t.entries|
  {
    var e := t.entries[i];
    var v := e.target.verdict;
    Insn(e.ip,
         if !IsStandard(e) then Extension(e.target)
         else if v == RETURN_VERDICT then Return
         else if v < 0 then Stop(-v - 1)
         else if !IsStart(t.entries, v) then Bad
         else Jump(IndexAt(t.entries, v), v != Offset(t.entries, i + 1) && !e.ip.goto_))
  }

  function Resolve(t: Table): (g: Program)
    ensures |g.code| == |t.entries|
    ensures forall i :: 0 <= i < |t.entries| ==> g.code[i] == Decode(t, i)
    ensures g.chains.Keys == t.hooks.Keys
  {
    Program(seq(|t.entries|, i requires 0 <= i < |t.entries| => Decode(t, i)),
            map h | h in t.hooks :: Chain(IndexAt(t.entries, t.hooks[h].entry), IndexAt(t.entries, t.hooks[h].underflow)))
  }

  /** The kernel's walk of a table from one hook. */
  function Traverse(t: Table, hook: nat, p: Packet, fuel: nat): Outcome
    requires hook in t.hooks
  {
    Run(Resolve(t), hook, NoneDead(|t.entries|), p, Start(Resolve(t), hook, p), fuel)
  }

  // ----- insertion -----

  /** An offset at or after the insertion point moves, and then starts the same entry. */
  lemma InsertKeepsStart(t: Table, hook: nat, rule: Entry, off: nat)
    requires WellFormed(t) && hook in t.hooks && rule.size >= SIZEOF_ENTRY && IsStart(t.entries, off)
    ensures var at, es' := t.hooks[hook].entry, Insert(t, hook, rule).entries;
      var off' := if off >= at then off + rule.size else off;
      IsStart(es', off') && IndexAt(es', off') == Moved(IndexAt(t.entries, at), IndexAt(t.entries, off))
  {
    var k, u := HookIndices(t, hook);
    InsertedAt(t.entries, k, rule, IndexAt(t.entries, off));
  }

  /** The entry behind an entry that passes packets on is still behind it. */
  lemma InsertedNext(t: Table, hook: nat, rule: Entry, i: nat)
    requires WellFormed(t) && hook in t.hooks && rule.size >= SIZEOF_ENTRY && i < |t.entries| && !IsFinal(t.entries[i])
    ensures var off, k, es' := t.hooks[hook].entry, IndexAt(t.entries, t.hooks[hook].entry), Insert(t, hook, rule).entries;
      var next := Offset(t.entries, i + 1);
      && Moved(k, i) < |es'| && es'[Moved(k, i)] == Shift(t.entries[i], off, rule.size)
      && Offset(es', Moved(k, i) + 1) == if next >= off then next + rule.size else next
  {
    hide Offset, IndexAt;
    var k, u := HookIndices(t, hook);
    assert i + 1 != k;
    InsertedAt(t.entries, k, rule, i + 1);
  }

  lemma InsertDecodes(t: Table, hook: nat, rule: Entry, i: nat)
    requires WellFormed(t) && hook in t.hooks && rule.size >= SIZEOF_ENTRY && i < |t.entries|
    ensures var k, t' := IndexAt(t.entries, t.hooks[hook].entry), Insert(t, hook, rule);
      Moved(k, i) < |t'.entries| && Decode(t', Moved(k, i)) == MovedInsn(k, Decode(t, i))
  {
    hide Offset, IndexAt;
    var k, u := HookIndices(t, hook);
    assert Insert(t, hook, rule).entries[Moved(k, i)] == Shift(t.entries[i], t.hooks[hook].entry, rule.size);
    if IsJump(t.entries[i]) {
      assert JumpOk(t, i);
      InsertKeepsStart(t, hook, rule, t.entries[i].target.verdict);
      InsertedNext(t, hook, rule, i);
    }
  }

  lemma FinalDecodes(t: Table, i: nat)
    requires i < |t.entries|
    ensures IsFinal(t.entries[i]) ==> Final(Decode(t, i))
  {
  }

  /** The chosen hook starts at the new rule, every other one where it did. */
  lemma InsertKeepsFirst(t: Table, hook: nat, rule: Entry, h: nat)
    requires WellFormed(t) && hook in t.hooks && h in t.hooks && rule.size >= SIZEOF_ENTRY
    ensures var k, t' := IndexAt(t.entries, t.hooks[hook].entry), Insert(t, hook, rule);
      && IsStart(t'.entries, t'.hooks[h].entry)
      && IndexAt(t'.entries, t'.hooks[h].entry) == if h == hook then k else Moved(k, IndexAt(t.entries, t.hooks[h].entry))
  {
    var k, u := HookIndices(t, hook);
    if h == hook {
      InsertedAt(t.entries, k, rule, k);
      IndexOfOffset(Insert(t, hook, rule).entries, k);
    } else {
      assert Apart(t, hook, h);
      var k1, u1 := HookIndices(t, h);
      InsertKeepsStart(t, hook, rule, t.hooks[h].entry);
    }
  }

  lemma InsertMovesChain(t: Table, hook: nat, rule: Entry, h: nat)
    requires WellFormed(t) && hook in t.hooks && h in t.hooks && rule.size >= SIZEOF_ENTRY
    ensures var k, c, c' := IndexAt(t.entries, t.hooks[hook].entry), Resolve(t).chains[h], Resolve(Insert(t, hook, rule)).chains[h];
      c'.policy == Moved(k, c.policy) && c'.first == if h == hook then k else Moved(k, c.first)
  {
    var k1, u1 := HookIndices(t, h);
    InsertKeepsStart(t, hook, rule, t.hooks[h].underflow);
    InsertKeepsFirst(t, hook, rule, h);
  }

  lemma InsertExtends(t: Table, hook: nat, rule: Entry)
    requires WellFormed(t) && hook in t.hooks && rule.size >= SIZEOF_ENTRY
    ensures Extended(Resolve(t), Resolve(Insert(t, hook, rule)), hook, IndexAt(t.entries, t.hooks[hook].entry))
  {
    var k, u := HookIndices(t, hook);
    var t' := Insert(t, hook, rule);
    var g, g' := Resolve(t), Resolve(t');
    if k > 0 {
      FinalDecodes(t, k - 1);
    }
    forall i | 0 <= i < |g.code| ensures MovedAt(g, g', k, i) {
      InsertDecodes(t, hook, rule, i);
    }
    forall h | h in g.chains
      ensures g'.chains[h].policy == Moved(k, g.chains[h].policy)
      ensures g'.chains[h].first == if h == hook then k else Moved(k, g.chains[h].first)
    {
      InsertMovesChain(t, hook, rule, h);
    }
  }

  /** A rule that is neither a jump nor a RETURN. */
  predicate RuleOk(rule: Entry) {
    EntryOk(rule) && (IsStandard(rule) ==> rule.target.verdict < 0 && rule.target.verdict != RETURN_VERDICT)
  }

  /** What a rule decides for a packet, if anything, and what it leaves of it. */
  function RuleDecides(rule: Entry, p: Packet): (Option<int>, Content) {
    if !p.matches(rule.ip, p.content) then (None, p.content)
    else if IsStandard(rule) then (Some(-rule.target.verdict - 1), p.content)
    else p.fire(rule.target, p.content)
  }

  /** A walk that starts at the new rule does what the rule says, or goes on behind it. */
  lemma RuleFirst(t: Table, hook: nat, rule: Entry, p: Packet, g': Program, fuel: nat)
    requires WellFormed(t) && IsPacket(p) && hook in t.hooks && RuleOk(rule)
    requires g' == Resolve(Insert(t, hook, rule))
    ensures var k := IndexAt(t.entries, t.hooks[hook].entry);
      && k < |g'.code| && Start(g', hook, p) == State(k, [], p.content)
      && Run(g', hook, NoneDead(|g'.code|), p, State(k, [], p.content), fuel + 1) ==
         match RuleDecides(rule, p)
         case (Some(v), content) => Verdict(v, content)
         case (None, content) => Run(g', hook, NoneDead(|g'.code|), p, State(k + 1, [], content), fuel)
  {
    var k, u := HookIndices(t, hook);
    InsertKeepsFirst(t, hook, rule, hook);
    assert Insert(t, hook, rule).entries[k] == rule;
    assert g'.code[k] == Decode(Insert(t, hook, rule), k);
  }

  /** Insertion changes the chosen hook only, and there only by asking the new
      rule first: from every other hook the walk is the old walk, and from the
      chosen one it is the rule's verdict if the rule decides the packet and, one
      step later, the old walk of what the rule left of it if it does not. */
  lemma InsertPreservesMeaning(t: Table, hook: nat, rule: Entry, h: nat, p: Packet, fuel: nat)
    requires WellFormed(t) && IsPacket(p) && hook in t.hooks && h in t.hooks && RuleOk(rule)
    ensures var t' := Insert(t, hook, rule);
      if h != hook then Traverse(t', h, p, fuel) == Traverse(t, h, p, fuel)
      else match RuleDecides(rule, p)
        case (Some(v), content) => Traverse(t', h, p, fuel + 1) == Verdict(v, content)
        case (None, content) => Traverse(t', h, p, fuel + 1) == Traverse(t, h, p.(content := content), fuel)
  {
    var t' := Insert(t, hook, rule);
    var k, g, g' := IndexAt(t.entries, t.hooks[hook].entry), Resolve(t), Resolve(t');
    InsertExtends(t, hook, rule);
    if h == hook {
      RuleFirst(t, hook, rule, p, g', fuel);
    }
    hide WellFormed, Offset, IndexAt, Decode, Insert, RuleDecides, Run;
    var c := if h == hook then RuleDecides(rule, p).1 else p.content;
    var s := Start(g, h, p.(content := c));
    assert MovedAll(k, s.stack) == s.stack;
    ExtendedRun(g, g', hook, k, h, p, s, fuel);
    RunOwnContent(g, h, NoneDead(|g.code|), p, c, s, fuel);
  }

  // ----- removal -----

  /** Behind every dead entry comes a survivor, at the latest the hook's policy. */
  lemma SurvivorFollows(t: Table, hook: nat, dead: seq<bool>, i: nat)
    requires WellFormed(t) && Removable(t, hook, dead) && i < |t.entries|
    ensures Rank(dead, i) < |Remove(t, dead).entries|
  {
    RemovedAt(t, hook, dead, i);
    if dead[i] {
      var k, u := HookIndices(t, hook);
      OffsetOrder(t.entries, i, u);
      RemovedAt(t, hook, dead, u);
      RankOrder(t, hook, dead, i, u);
    }
  }

  /** An old start, re-based, starts the same entry or its next survivor. */
  lemma RemoveKeepsStart(t: Table, hook: nat, dead: seq<bool>, off: nat)
    requires WellFormed(t) && Removable(t, hook, dead) && IsStart(t.entries, off)
    ensures var i, off', es' := IndexAt(t.entries, off), Rebased(t.entries, dead, off), Remove(t, dead).entries;
      && off' >= 0 && Rank(dead, i) < |es'|
      && IsStart(es', off') && IndexAt(es', off') == Rank(dead, i) && Offset(es', Rank(dead, i)) == off'
  {
    var i := IndexAt(t.entries, off);
    RemovedAt(t, hook, dead, i);
    RankOrder(t, hook, dead, i, i);
    SurvivorFollows(t, hook, dead, i);
  }

  /** A real jump stays one, unless it now lands on the policy right behind it. */
  lemma RemoveKeepsPush(t: Table, hook: nat, dead: seq<bool>, i: nat)
    requires WellFormed(t) && Removable(t, hook, dead)
    requires i < |t.entries| && IsJump(t.entries[i])
    ensures var to := IndexAt(t.entries, t.entries[i].target.verdict);
      && to < |t.entries|
      && ((Rank(dead, to) == Rank(dead, i + 1) <==> to == i + 1) || IsFinal(t.entries[to]))
  {
    var es, v := t.entries, t.entries[i].target.verdict;
    assert JumpOk(t, i);
    var to := IndexAt(es, v);
    if to <= i {
      RankGrows(dead, to, i);
    } else if to > i + 1 && Rank(dead, to) == Rank(dead, i + 1) {
      RankGrows(dead, i + 1, to);
      assert dead[to - 1];
      var k, u := HookIndices(t, hook);
      OffsetOrder(es, to - 1, u);
      OffsetOrder(es, to, u);
      OffsetOrder(es, to - 1, to);
      OffsetOrder(es, i + 1, to);
    }
  }

  /** A re-based jump is a fall-through exactly if its target and the entry
      behind it have the same survivor. */
  lemma RemoveKeepsNext(t: Table, hook: nat, dead: seq<bool>, i: nat)
    requires WellFormed(t) && Removable(t, hook, dead) && i < |t.entries| && !dead[i] && IsJump(t.entries[i])
    ensures var es', v := Remove(t, dead).entries, t.entries[i].target.verdict;
      && Rank(dead, i) + 1 == Rank(dead, i + 1) <= |es'|
      && IsStart(t.entries, v)
      && (v == Offset(t.entries, i + 1) <==> IndexAt(t.entries, v) == i + 1)
      && (Rebased(t.entries, dead, v) == Offset(es', Rank(dead, i + 1)) <==>
          Rank(dead, IndexAt(t.entries, v)) == Rank(dead, i + 1))
  {
    var v := t.entries[i].target.verdict;
    assert JumpOk(t, i);
    var to := IndexAt(t.entries, v);
    SizedTable(t);
    RemoveKeepsStart(t, hook, dead, v);
    RankOrder(t, hook, dead, to, i + 1);
    RankOrder(t, hook, dead, i + 1, to);
    OffsetOrder(t.entries, to, i + 1);
  }

  lemma RemoveJump(t: Table, hook: nat, dead: seq<bool>, i: nat)
    requires WellFormed(t) && Removable(t, hook, dead) && i < |t.entries| && !dead[i] && IsJump(t.entries[i])
    ensures var t' := Remove(t, dead);
      Rank(dead, i) < |t'.entries| && SameInsn(Resolve(t), dead, Decode(t, i), Decode(t', Rank(dead, i)))
  {
    assert |dead| == |t.entries|;
    hide WellFormed, Removable, Offset, IndexAt, Rank;
    var t', v := Remove(t, dead), t.entries[i].target.verdict;
    RemovedAt(t, hook, dead, i);
    RemoveKeepsNext(t, hook, dead, i);
    RemoveKeepsStart(t, hook, dead, v);
    RemoveKeepsPush(t, hook, dead, i);
    FinalDecodes(t, IndexAt(t.entries, v));
    assert t'.entries[Rank(dead, i)] == WithVerdict(t.entries[i], Rebased(t.entries, dead, v));
  }

  lemma RemoveDecodes(t: Table, hook: nat, dead: seq<bool>, i: nat)
    requires WellFormed(t) && Removable(t, hook, dead) && i < |t.entries|
    ensures KeptAt(Resolve(t), Resolve(Remove(t, dead)), dead, i)
  {
    var es, t', e := t.entries, Remove(t, dead), t.entries[i];
    RemovedAt(t, hook, dead, i);
    if !dead[i] {
      assert t'.entries[Rank(dead, i)] == Retarget(es, dead, e);
      if IsJump(e) {
        RemoveJump(t, hook, dead, i);
      }
    }
  }

  lemma RemoveMovesChain(t: Table, hook: nat, dead: seq<bool>, h: nat)
    requires WellFormed(t) && Removable(t, hook, dead) && h in t.hooks
    ensures var c, c' := Resolve(t).chains[h], Resolve(Remove(t, dead)).chains[h];
      && c.first <= |dead| && c'.first == Rank(dead, c.first)
      && c.policy < |dead| && c'.policy == Rank(dead, c.policy)
  {
    var k, u := HookIndices(t, h);
    RemoveKeepsStart(t, hook, dead, t.hooks[h].entry);
    RemoveKeepsStart(t, hook, dead, t.hooks[h].underflow);
  }

  lemma RemoveFilters(t: Table, hook: nat, dead: seq<bool>)
    requires WellFormed(t) && Removable(t, hook, dead)
    ensures Filtered(Resolve(t), Resolve(Remove(t, dead)), dead)
  {
    var t' := Remove(t, dead);
    var g, g' := Resolve(t), Resolve(t');
    RemovedAt(t, hook, dead, |t.entries|);
    forall i | 0 <= i < |dead| ensures KeptAt(g, g', dead, i) {
      RemoveDecodes(t, hook, dead, i);
    }
    forall h | h in g.chains
      ensures g.chains[h].first <= |dead| && g'.chains[h].first == Rank(dead, g.chains[h].first)
      ensures g.chains[h].policy < |dead| && g'.chains[h].policy == Rank(dead, g.chains[h].policy)
    {
      RemoveMovesChain(t, hook, dead, h);
    }
  }

  /** Removal preserves meaning: from every hook and for every packet, the
      rewritten table ends with exactly the outcomes the old table ends with
      when the removed rules never match. */
  lemma RemovePreservesMeaning(t: Table, hook: nat, dead: seq<bool>, h: nat, p: Packet, o: Outcome)
    requires WellFormed(t) && IsPacket(p) && Removable(t, hook, dead) && h in t.hooks
    ensures var t' := Remove(t, dead);
      Ends(Resolve(t), h, dead, p, o) <==> Ends(Resolve(t'), h, NoneDead(|t'.entries|), p, o)
  {
    RemoveFilters(t, hook, dead);
    FilteredEnds(Resolve(t), Resolve(Remove(t, dead)), dead, h, p, o);
  }
}
