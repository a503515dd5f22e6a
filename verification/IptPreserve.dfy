/** Both rewrites keep a table well formed, and removing exactly the inserted
    entry undoes the insertion. */
module IptPreserve {
  import opened IptTable
  import opened IptTraversal
  import opened IptRewrite
  import opened IptMeaning

  // ----- insertion -----

  lemma InsertedEntry(t: Table, hook: nat, rule: Entry, i: nat)
    requires WellFormed(t) && hook in t.hooks && RuleOk(rule) && i <= |t.entries|
    ensures EntryOk(Insert(t, hook, rule).entries[i])
  {
    var k, u := HookIndices(t, hook);
    var e := SplicedAt(t.entries, k, rule, i);
    if i != k {
      assert EntryOk(t.entries[if i < k then i else i - 1]);
    }
    assert Insert(t, hook, rule).entries[i] == Shift(e, t.hooks[hook].entry, rule.size);
  }

  /** The entry before a hook is still before it. */
  lemma InsertedBefore(t: Table, hook: nat, rule: Entry, h: nat)
    requires WellFormed(t) && hook in t.hooks && RuleOk(rule) && h in t.hooks && t.hooks[h].entry > 0
    ensures var t' := Insert(t, hook, rule);
      var k' := IndexAt(t'.entries, t'.hooks[h].entry);
      0 < k' <= |t'.entries| && IsFinal(t'.entries[k' - 1])
  {
    var k, u := HookIndices(t, hook);
    var k1, u1 := HookIndices(t, h);
    assert HookOk(t, t.hooks[h]);
    InsertKeepsFirst(t, hook, rule, h);
    OffsetOrder(t.entries, k, k1);
    assert h != hook ==> Apart(t, hook, h);
    assert Insert(t, hook, rule).entries[Moved(k, k1 - 1)] == Shift(t.entries[k1 - 1], t.hooks[hook].entry, rule.size);
  }

  lemma InsertedHook(t: Table, hook: nat, rule: Entry, h: nat)
    requires WellFormed(t) && hook in t.hooks && RuleOk(rule) && h in t.hooks
    ensures var t' := Insert(t, hook, rule); HookOk(t', t'.hooks[h])
  {
    var t' := Insert(t, hook, rule);
    var k, u := HookIndices(t, hook);
    var k1, u1 := HookIndices(t, h);
    assert HookOk(t, t.hooks[h]);
    InsertKeepsStart(t, hook, rule, t.hooks[h].underflow);
    InsertKeepsFirst(t, hook, rule, h);
    if t.hooks[h].entry > 0 {
      InsertedBefore(t, hook, rule, h);
    }
    assert t'.entries[Moved(k, u1)] == Shift(t.entries[u1], t.hooks[hook].entry, rule.size);
  }

  /** An offset outside every old range is, once shifted, outside every new one. */
  lemma InsertedOutside(t: Table, hook: nat, rule: Entry, h: nat, v: nat)
    requires WellFormed(t) && hook in t.hooks && h in t.hooks && !InHook(t.hooks[h], v)
    ensures !InHook(Insert(t, hook, rule).hooks[h], if v >= t.hooks[hook].entry then v + rule.size else v)
  {
    assert HookOk(t, t.hooks[h]);
  }

  lemma InsertedJump(t: Table, hook: nat, rule: Entry, i: nat)
    requires WellFormed(t) && hook in t.hooks && RuleOk(rule) && i < |t.entries|
    ensures JumpOk(Insert(t, hook, rule), Moved(IndexAt(t.entries, t.hooks[hook].entry), i))
  {
    var t', off, v := Insert(t, hook, rule), t.hooks[hook].entry, t.entries[i].target.verdict;
    var k, u := HookIndices(t, hook);
    assert t'.entries[Moved(k, i)] == Shift(t.entries[i], off, rule.size);
    if IsJump(t.entries[i]) {
      assert JumpOk(t, i);
      InsertKeepsStart(t, hook, rule, v);
      InsertedNext(t, hook, rule, i);
      if v != Offset(t.entries, i + 1) {
        forall h | h in t'.hooks ensures !InHook(t'.hooks[h], if v >= off then v + rule.size else v) {
          InsertedOutside(t, hook, rule, h, v);
        }
      }
    }
  }

  lemma InsertedJumpAt(t: Table, hook: nat, rule: Entry, i: nat)
    requires WellFormed(t) && hook in t.hooks && RuleOk(rule) && i <= |t.entries|
    ensures JumpOk(Insert(t, hook, rule), i)
  {
    var k, u := HookIndices(t, hook);
    if i == k {
      assert Insert(t, hook, rule).entries[k] == rule;
    } else {
      InsertedJump(t, hook, rule, if i < k then i else i - 1);
    }
  }

  /** Insertion keeps the table well formed. */
  lemma InsertKeepsWellFormed(t: Table, hook: nat, rule: Entry)
    requires WellFormed(t) && hook in t.hooks && RuleOk(rule)
    ensures WellFormed(Insert(t, hook, rule))
  {
    hide Offset, IndexAt, Shift;
    var t' := Insert(t, hook, rule);
    var k, u := HookIndices(t, hook);
    InsertedAt(t.entries, k, rule, |t.entries|);
    forall h | h in t'.hooks ensures h < NUMHOOKS && HookOk(t', t'.hooks[h]) {
      assert HookOk(t, t.hooks[h]);
      InsertedHook(t, hook, rule, h);
    }
    forall g, h | g in t'.hooks && h in t'.hooks && g != h ensures Apart(t', g, h) {
      assert Apart(t, g, h);
    }
    forall i | 0 <= i < |t'.entries| ensures EntryOk(t'.entries[i]) {
      InsertedEntry(t, hook, rule, i);
    }
    forall i | 0 <= i < |t'.entries| ensures JumpOk(t', i) {
      InsertedJumpAt(t, hook, rule, i);
    }
  }

  // ----- removal -----

  lemma RemovedEntry(t: Table, hook: nat, dead: seq<bool>, i: nat)
    requires WellFormed(t) && Removable(t, hook, dead) && i < |t.entries| && !dead[i]
    ensures var t' := Remove(t, dead);
      Rank(dead, i) < |t'.entries| && EntryOk(t'.entries[Rank(dead, i)])
  {
    RemovedAt(t, hook, dead, i);
    assert EntryOk(t.entries[i]);
  }

  /** The entry just before a survivor, if it survives, is still just before it. */
  lemma RankBefore(dead: seq<bool>, i: nat)
    requires 0 < i <= |dead| && !dead[i - 1]
    ensures Rank(dead, i) > 0 && Rank(dead, i) - 1 == Rank(dead, i - 1)
  {
  }

  lemma RemovedBefore(t: Table, hook: nat, dead: seq<bool>, h: nat)
    requires WellFormed(t) && Removable(t, hook, dead) && h in t.hooks && t.hooks[h].entry > 0
    ensures var t', k' := Remove(t, dead), Rank(dead, IndexAt(t.entries, t.hooks[h].entry));
      0 < k' <= |t'.entries| && IsFinal(t'.entries[k' - 1])
  {
    var k, u := HookIndices(t, h);
    assert HookOk(t, t.hooks[h]);
    RankBefore(dead, k);
    RemovedAt(t, hook, dead, k - 1);
    RemovedAt(t, hook, dead, k);
  }

  lemma RemovedHook(t: Table, hook: nat, dead: seq<bool>, h: nat)
    requires WellFormed(t) && Removable(t, hook, dead) && h in t.hooks
    ensures var t' := Remove(t, dead); HookOk(t', t'.hooks[h])
  {
    var t' := Remove(t, dead);
    var k, u := HookIndices(t, h);
    RemoveKeepsStart(t, hook, dead, t.hooks[h].entry);
    RemoveKeepsStart(t, hook, dead, t.hooks[h].underflow);
    RankOrder(t, hook, dead, k, u);
    RemovedAt(t, hook, dead, u);
    OffsetOrder(t'.entries, Rank(dead, u), Rank(dead, k));
    if t.hooks[h].entry > 0 {
      RemovedBefore(t, hook, dead, h);
    }
  }

  /** Two hooks stay apart: the final entry before the later one survives. */
  lemma RemovedDistinct(t: Table, hook: nat, dead: seq<bool>, g: nat, h: nat)
    requires WellFormed(t) && Removable(t, hook, dead) && g in t.hooks && h in t.hooks
    requires t.hooks[g].entry < t.hooks[h].entry
    ensures Remove(t, dead).hooks[g].entry < Remove(t, dead).hooks[h].entry
  {
    var k, u := HookIndices(t, g);
    var k1, u1 := HookIndices(t, h);
    OffsetOrder(t.entries, k, k1);
    assert !dead[k1 - 1];
    RankOrder(t, hook, dead, k, k1 - 1);
    RankOrder(t, hook, dead, k1 - 1, k1);
    RankOrder(t, hook, dead, k, k1);
    RemoveKeepsStart(t, hook, dead, t.hooks[g].entry);
    RemoveKeepsStart(t, hook, dead, t.hooks[h].entry);
  }

  /** Which hook ranges an offset with a surviving entry lies in does not change. */
  lemma RemovedOutside(t: Table, hook: nat, dead: seq<bool>, h: nat, off: nat)
    requires WellFormed(t) && Removable(t, hook, dead) && h in t.hooks
    requires IsStart(t.entries, off) && !InHook(t.hooks[h], off) && !dead[IndexAt(t.entries, off)]
    ensures Rebased(t.entries, dead, off) >= 0
    ensures !InHook(Remove(t, dead).hooks[h], Rebased(t.entries, dead, off))
  {
    var to := IndexAt(t.entries, off);
    var k, u := HookIndices(t, h);
    assert !dead[u];
    RemoveKeepsStart(t, hook, dead, off);
    RemoveKeepsStart(t, hook, dead, t.hooks[h].entry);
    RemoveKeepsStart(t, hook, dead, t.hooks[h].underflow);
    OffsetOrder(t.entries, to, k);
    OffsetOrder(t.entries, u, to);
    RankOrder(t, hook, dead, to, k);
    RankOrder(t, hook, dead, u, to);
  }

  lemma RemovedOutsideAll(t: Table, hook: nat, dead: seq<bool>, off: nat)
    requires WellFormed(t) && Removable(t, hook, dead) && IsStart(t.entries, off)
    requires forall h :: h in t.hooks ==> !InHook(t.hooks[h], off)
    ensures Rebased(t.entries, dead, off) >= 0
    ensures forall h :: h in t.hooks ==> !InHook(Remove(t, dead).hooks[h], Rebased(t.entries, dead, off))
  {
    assert !InHook(t.hooks[hook], off);
    RemoveKeepsStart(t, hook, dead, off);
    forall h | h in t.hooks ensures !InHook(Remove(t, dead).hooks[h], Rebased(t.entries, dead, off)) {
      RemovedOutside(t, hook, dead, h, off);
    }
  }

  lemma RemovedJump(t: Table, hook: nat, dead: seq<bool>, i: nat)
    requires WellFormed(t) && Removable(t, hook, dead) && i < |t.entries| && !dead[i]
    ensures var t' := Remove(t, dead);
      Rank(dead, i) < |t'.entries| && JumpOk(t', Rank(dead, i))
  {
    var e, v := t.entries[i], t.entries[i].target.verdict;
    RemovedAt(t, hook, dead, i);
    if IsJump(e) {
      assert JumpOk(t, i);
      RemoveKeepsStart(t, hook, dead, v);
      RemoveKeepsNext(t, hook, dead, i);
      if v != Offset(t.entries, i + 1) {
        RemovedOutsideAll(t, hook, dead, v);
      }
      hide WellFormed, Removable, Offset, IndexAt, Rank, InHook;
      assert Remove(t, dead).entries[Rank(dead, i)] == WithVerdict(e, Rebased(t.entries, dead, v));
    }
  }

  /** The policy of hook `h` is still there, unchanged, and still its policy. */
  ghost predicate PolicyKept(t: Table, dead: seq<bool>, h: nat)
    requires |dead| == |t.entries| && h in t.hooks
  {
    var t', u := Remove(t, dead), IndexAt(t.entries, t.hooks[h].underflow);
    && u < |dead| && !dead[u] && Rank(dead, u) < |t'.entries|
    && IndexAt(t'.entries, t'.hooks[h].underflow) == Rank(dead, u)
    && t'.entries[Rank(dead, u)] == t.entries[u]
  }

  lemma RemovedPolicy(t: Table, hook: nat, dead: seq<bool>, h: nat)
    requires WellFormed(t) && Removable(t, hook, dead) && h in t.hooks
    ensures PolicyKept(t, dead, h)
  {
    var k, u := HookIndices(t, h);
    RemoveKeepsStart(t, hook, dead, t.hooks[h].underflow);
    RemovedAt(t, hook, dead, u);
  }

  /** Removal keeps the table well formed, and drops no policy. */
  lemma RemoveKeepsWellFormed(t: Table, hook: nat, dead: seq<bool>)
    requires WellFormed(t) && Removable(t, hook, dead)
    ensures WellFormed(Remove(t, dead))
    ensures forall h :: h in t.hooks ==> PolicyKept(t, dead, h)
  {
    forall h | h in t.hooks ensures PolicyKept(t, dead, h) {
      RemovedPolicy(t, hook, dead, h);
    }
    hide PolicyKept;
    var t', n := Remove(t, dead), |t.entries|;
    RemovedAt(t, hook, dead, n);
    forall r | 0 <= r < |t'.entries| ensures EntryOk(t'.entries[r]) && JumpOk(t', r) {
      var i := SurvivorSource(t.entries, dead, r, n);
      RemovedEntry(t, hook, dead, i);
      RemovedJump(t, hook, dead, i);
    }
    forall h | h in t'.hooks ensures h < NUMHOOKS && HookOk(t', t'.hooks[h]) {
      assert HookOk(t, t.hooks[h]);
      RemovedHook(t, hook, dead, h);
    }
    forall g, h | g in t'.hooks && h in t'.hooks && g != h ensures Apart(t', g, h) {
      assert Apart(t, g, h);
      if t.hooks[g].entry < t.hooks[h].entry {
        RemovedDistinct(t, hook, dead, g, h);
      } else {
        RemovedDistinct(t, hook, dead, h, g);
      }
    }
  }

  // ----- removal after insertion -----

  /** `dead` for a table with one entry more: the one at `k`, dead if `b`. */
  function SplicedDead(dead: seq<bool>, k: nat, b: bool): (r: seq<bool>)
    requires k <= |dead|
    ensures |r| == |dead| + 1 && r[k] == b
    ensures forall i :: 0 <= i < |dead| ==> r[Moved(k, i)] == dead[i]
  {
    seq(|dead| + 1, i requires 0 <= i <= |dead| => if i < k then dead[i] else if i == k then b else dead[i - 1])
  }

  lemma CountsNext(es: seq<Entry>, dead: seq<bool>, i: nat)
    requires i < |es| == |dead|
    ensures Rank(dead, i + 1) == Rank(dead, i) + if dead[i] then 0 else 1
    ensures Gone(es, dead, i + 1) == Gone(es, dead, i) + if dead[i] then es[i].size else 0
  {
  }

  lemma {:induction false} SamePrefix(es: seq<Entry>, es': seq<Entry>, dead: seq<bool>, dead': seq<bool>, k: nat, i: nat)
    requires i <= k <= |es| == |dead| && k <= |es'| == |dead'|
    requires forall j :: 0 <= j < |es| ==> Moved(k, j) < |es'| && es'[Moved(k, j)].size == es[j].size && dead'[Moved(k, j)] == dead[j]
    ensures Rank(dead', i) == Rank(dead, i) && Gone(es', dead', i) == Gone(es, dead, i)
    decreases i
  {
    if i > 0 {
      SamePrefix(es, es', dead, dead', k, i - 1);
      assert Moved(k, i - 1) == i - 1;
    }
  }

  /** Survivors and removed bytes before each entry, with and without entry `k`. */
  lemma {:induction false} SplicedCounts(es: seq<Entry>, es': seq<Entry>, dead: seq<bool>, k: nat, b: bool, i: nat)
    requires i <= |es| == |dead| && k <= |es| && |es'| == |es| + 1
    requires forall j :: 0 <= j < |es| ==> es'[Moved(k, j)].size == es[j].size
    ensures var dead' := SplicedDead(dead, k, b);
      && Rank(dead', Moved(k, i)) == Rank(dead, i) + (if i >= k && !b then 1 else 0)
      && Gone(es', dead', Moved(k, i)) == Gone(es, dead, i) + (if i >= k && b then es'[k].size else 0)
    decreases i
  {
    var dead' := SplicedDead(dead, k, b);
    if i < k {
      SamePrefix(es, es', dead, dead', k, i);
    } else if i == k {
      SamePrefix(es, es', dead, dead', k, k);
      CountsNext(es', dead', k);
    } else {
      SplicedCounts(es, es', dead, k, b, i - 1);
      CountsNext(es, dead, i - 1);
      CountsNext(es', dead', i);
      hide Rank, Gone;
      assert dead'[Moved(k, i - 1)] == dead[i - 1] && es'[Moved(k, i - 1)].size == es[i - 1].size;
    }
  }

  lemma SplicedStart(es: seq<Entry>, es': seq<Entry>, dead: seq<bool>, k: nat, b: bool)
    requires k <= |es| == |dead| && |es'| == |es| + 1
    requires forall j :: 0 <= j < |es| ==> es'[Moved(k, j)].size == es[j].size
    ensures var dead' := SplicedDead(dead, k, b);
      Rank(dead', k) == Rank(dead, k) && Gone(es', dead', k) == Gone(es, dead, k)
  {
    SamePrefix(es, es', dead, SplicedDead(dead, k, b), k, k);
  }

  /** A removal in the range of hook `at`, with room for one rule at the head of `hook`. */
  ghost predicate Setting(t: Table, hook: nat, rule: Entry, at: nat, dead: seq<bool>) {
    WellFormed(t) && hook in t.hooks && RuleOk(rule) && |dead| == |t.entries| && Removable(t, at, dead)
  }

  /** The marks for the table with the rule inserted; the rule itself goes if `b`. */
  function WithRule(t: Table, hook: nat, dead: seq<bool>, b: bool): (r: seq<bool>)
    requires hook in t.hooks && |dead| == |t.entries|
    ensures var k := IndexAt(t.entries, t.hooks[hook].entry);
      |r| == |t.entries| + 1 && r[k] == b && forall i :: 0 <= i < |dead| ==> r[Moved(k, i)] == dead[i]
  {
    SplicedDead(dead, IndexAt(t.entries, t.hooks[hook].entry), b)
  }

  /** Inserting moves the re-based offset of an entry as it moves the entry. */
  lemma ShiftedRebase(t: Table, hook: nat, rule: Entry, at: nat, dead: seq<bool>, b: bool, i: nat)
    requires Setting(t, hook, rule, at, dead) && i <= |t.entries|
    ensures var es, es', k, dead' := t.entries, Insert(t, hook, rule).entries, IndexAt(t.entries, t.hooks[hook].entry), WithRule(t, hook, dead, b);
      && (Offset(es, i) >= t.hooks[hook].entry <==> i >= k)
      && Offset(es', Moved(k, i)) == Offset(es, i) + (if i >= k then rule.size else 0)
      && Rebased(es', dead', Offset(es', Moved(k, i))) == Rebased(es, dead, Offset(es, i)) + (if i >= k && !b then rule.size else 0)
      && Rank(dead', Moved(k, i)) == Rank(dead, i) + (if i >= k && !b then 1 else 0)
      && Rebased(es', dead', t.hooks[hook].entry) == Rebased(es, dead, t.hooks[hook].entry)
      && Rank(dead', k) == Rank(dead, k)
  {
    var es, es' := t.entries, Insert(t, hook, rule).entries;
    var k, u := HookIndices(t, hook);
    InsertedAt(es, k, rule, i);
    InsertedSizes(es, k, rule);
    assert es'[k] == rule;
    SplicedCounts(es, es', dead, k, b, i);
    SplicedStart(es, es', dead, k, b);
    IndexOfOffset(es', k);
    IndexOfOffset(es, i);
    IndexOfOffset(es, k);
  }

  /** Everything before a hook's start has survivors before it: the final entry
      right before it stays. */
  lemma KeptBefore(t: Table, hook: nat, at: nat, dead: seq<bool>, i: nat)
    requires WellFormed(t) && hook in t.hooks && Removable(t, at, dead)
    requires i < IndexAt(t.entries, t.hooks[hook].entry)
    ensures Rank(dead, i) < Rank(dead, IndexAt(t.entries, t.hooks[hook].entry))
  {
    var k, u := HookIndices(t, hook);
    assert !dead[k - 1];
    RankGrows(dead, i, k - 1);
    assert Rank(dead, k) == Rank(dead, k - 1) + 1;
  }

  lemma RebasedOrder(t: Table, hook: nat, at: nat, dead: seq<bool>, i: nat)
    requires WellFormed(t) && hook in t.hooks && Removable(t, at, dead) && i <= |t.entries|
    ensures var k, T := IndexAt(t.entries, t.hooks[hook].entry), Remove(t, dead);
      && k < |t.entries|
      && IndexAt(T.entries, T.hooks[hook].entry) == Rank(dead, k)
      && T.hooks[hook].entry == Rebased(t.entries, dead, t.hooks[hook].entry)
      && (Rank(dead, i) >= Rank(dead, k) <==> i >= k)
      && (Rebased(t.entries, dead, Offset(t.entries, i)) >= T.hooks[hook].entry <==> i >= k)
  {
    var k, u := HookIndices(t, hook);
    RemoveKeepsStart(t, at, dead, t.hooks[hook].entry);
    RemovedAt(t, at, dead, i);
    RankOrder(t, at, dead, i, k);
    RankOrder(t, at, dead, k, i);
    if i < k {
      KeptBefore(t, hook, at, dead, i);
    }
  }

  /** Where the entry at an old start `x` begins in the end, in either order. */
  lemma CommutedStart(t: Table, hook: nat, rule: Entry, at: nat, dead: seq<bool>, b: bool, x: nat)
    requires Setting(t, hook, rule, at, dead) && IsStart(t.entries, x)
    ensures var es', off, y := Insert(t, hook, rule).entries, t.hooks[hook].entry, Rebased(t.entries, dead, x);
      && y >= 0 && (y >= Remove(t, dead).hooks[hook].entry <==> x >= off)
      && Rebased(es', WithRule(t, hook, dead, b), if x >= off then x + rule.size else x) == if x >= off && !b then y + rule.size else y
  {
    hide WellFormed, Removable, RuleOk, WithRule, Remove, Insert, Rebased, Offset, Rank;
    var i := IndexAt(t.entries, x);
    RemoveKeepsStart(t, at, dead, x);
    ShiftedRebase(t, hook, rule, at, dead, b, i);
    RebasedOrder(t, hook, at, dead, i);
  }

  /** What is left of an insertion when the rule itself has gone if `b`. */
  function InsertUnless(b: bool, t: Table, hook: nat, rule: Entry): Table
    requires hook in t.hooks
  {
    if b then t else Insert(t, hook, rule)
  }

  lemma JumpStarts(t: Table, i: nat)
    requires WellFormed(t) && i < |t.entries| && IsJump(t.entries[i])
    ensures IsStart(t.entries, t.entries[i].target.verdict)
  {
    assert JumpOk(t, i);
  }

  /** A verdict moved and then re-based is the verdict re-based and then moved. */
  lemma ShiftedRetarget(t: Table, hook: nat, rule: Entry, at: nat, dead: seq<bool>, b: bool, i: nat)
    requires Setting(t, hook, rule, at, dead) && i < |t.entries|
    ensures var es', e := Insert(t, hook, rule).entries, Retarget(t.entries, dead, t.entries[i]);
      Retarget(es', WithRule(t, hook, dead, b), Shift(t.entries[i], t.hooks[hook].entry, rule.size)) ==
        if b then e else Shift(e, Remove(t, dead).hooks[hook].entry, rule.size)
  {
    hide WellFormed, Removable, WithRule, Rebased, Rank, Gone, Inserted;
    if IsJump(t.entries[i]) {
      JumpStarts(t, i);
      InsertKeepsStart(t, hook, rule, t.entries[i].target.verdict);
      CommutedStart(t, hook, rule, at, dead, b, t.entries[i].target.verdict);
    }
  }

  /** A survivor comes out the same, at the same place, in either order. */
  lemma CommutedEntry(t: Table, hook: nat, rule: Entry, at: nat, dead: seq<bool>, b: bool, i: nat)
    requires Setting(t, hook, rule, at, dead) && i < |t.entries| && !dead[i]
    ensures var k, dead' := IndexAt(t.entries, t.hooks[hook].entry), WithRule(t, hook, dead, b);
      var u, v := Remove(Insert(t, hook, rule), dead'), InsertUnless(b, Remove(t, dead), hook, rule);
      var r := Rank(dead', Moved(k, i));
      r < |u.entries| && r < |v.entries| && u.entries[r] == v.entries[r]
  {
    hide WellFormed, Removable, RuleOk, WithRule, Rebased, Offset, Rank, IndexAt, Gone, Retarget, Shift, Survivors;
    var es, es', dead' := t.entries, Insert(t, hook, rule).entries, WithRule(t, hook, dead, b);
    var k, u := HookIndices(t, hook);
    RemovedAt(t, at, dead, i);
    SurvivorAt(es', dead', Moved(k, i), |es'|);
    assert es'[Moved(k, i)] == Shift(es[i], t.hooks[hook].entry, rule.size);
    ShiftedRetarget(t, hook, rule, at, dead, b, i);
    ShiftedRebase(t, hook, rule, at, dead, b, i);
    RebasedOrder(t, hook, at, dead, i);
  }

  /** A rule that stays comes out unchanged at the head of its hook in either order. */
  lemma CommutedRule(t: Table, hook: nat, rule: Entry, at: nat, dead: seq<bool>)
    requires Setting(t, hook, rule, at, dead)
    ensures var k, dead' := IndexAt(t.entries, t.hooks[hook].entry), WithRule(t, hook, dead, false);
      var u, v := Remove(Insert(t, hook, rule), dead'), Insert(Remove(t, dead), hook, rule);
      var r := Rank(dead', k);
      r < |u.entries| && r < |v.entries| && u.entries[r] == v.entries[r] == rule
  {
    var es', dead' := Insert(t, hook, rule).entries, WithRule(t, hook, dead, false);
    var k, u := HookIndices(t, hook);
    assert es'[k] == rule;
    SurvivorAt(es', dead', k, |es'|);
    ShiftedRebase(t, hook, rule, at, dead, false, k);
    RebasedOrder(t, hook, at, dead, k);
  }

  lemma TotalSize(t: Table)
    requires WellFormed(t)
    ensures t.size == Offset(t.entries, |t.entries|) && t.numEntries == |t.entries|
  {
  }

  lemma RuleInPlace(t: Table, hook: nat, rule: Entry)
    requires WellFormed(t) && hook in t.hooks && RuleOk(rule)
    ensures var k := IndexAt(t.entries, t.hooks[hook].entry);
      rule.size >= SIZEOF_ENTRY && k <= |t.entries| && Insert(t, hook, rule).entries[k] == rule
  {
  }

  lemma CommutedSize(t: Table, hook: nat, rule: Entry, at: nat, dead: seq<bool>, b: bool)
    requires Setting(t, hook, rule, at, dead)
    ensures var u, v := Remove(Insert(t, hook, rule), WithRule(t, hook, dead, b)), InsertUnless(b, Remove(t, dead), hook, rule);
      u.size == v.size && u.numEntries == v.numEntries && |u.entries| == |v.entries|
  {
    hide WellFormed, Removable, RuleOk, SplicedDead, Rebased, Offset, Rank, IndexAt, Gone, Shift, Survivors;
    var n, es' := |t.entries|, Insert(t, hook, rule).entries;
    var k, u := HookIndices(t, hook);
    TotalSize(t);
    RuleInPlace(t, hook, rule);
    InsertedAt(t.entries, k, rule, n);
    InsertedSizes(t.entries, k, rule);
    SplicedCounts(t.entries, es', dead, k, b, n);
  }

  lemma CommutedEntries(t: Table, hook: nat, rule: Entry, at: nat, dead: seq<bool>, b: bool)
    requires Setting(t, hook, rule, at, dead)
    ensures Remove(Insert(t, hook, rule), WithRule(t, hook, dead, b)).entries == InsertUnless(b, Remove(t, dead), hook, rule).entries
  {
    var es', dead' := Insert(t, hook, rule).entries, WithRule(t, hook, dead, b);
    var k, k1 := HookIndices(t, hook);
    var us, vs := Remove(Insert(t, hook, rule), dead').entries, InsertUnless(b, Remove(t, dead), hook, rule).entries;
    CommutedSize(t, hook, rule, at, dead, b);
    forall r | 0 <= r < |us| ensures us[r] == vs[r] {
      var j := SurvivorSource(es', dead', r, |es'|);
      if j == k {
        CommutedRule(t, hook, rule, at, dead);
      } else {
        var i := if j < k then j else j - 1;
        assert Moved(k, i) == j && dead'[Moved(k, i)] == dead[i];
        CommutedEntry(t, hook, rule, at, dead, b, i);
      }
    }
  }

  lemma RemoveRebases(t: Table, dead: seq<bool>, h: nat)
    requires |dead| == |t.entries| && h in t.hooks
    ensures var e, u, h' := Rebased(t.entries, dead, t.hooks[h].entry), Rebased(t.entries, dead, t.hooks[h].underflow), Remove(t, dead).hooks[h];
      (e >= 0 ==> h'.entry == e) && (u >= 0 ==> h'.underflow == u)
  {
  }

  /** Neither rewrite adds or drops a hook. */
  lemma SameHooks(t: Table, hook: nat, rule: Entry, dead: seq<bool>, b: bool)
    requires hook in t.hooks && |dead| == |t.entries|
    ensures Insert(t, hook, rule).hooks.Keys == t.hooks.Keys && |Insert(t, hook, rule).entries| == |dead| + 1
    ensures Remove(t, dead).hooks.Keys == t.hooks.Keys
    ensures Remove(Insert(t, hook, rule), WithRule(t, hook, dead, b)).hooks.Keys == t.hooks.Keys
    ensures InsertUnless(b, Remove(t, dead), hook, rule).hooks.Keys == t.hooks.Keys
  {
  }

  lemma Distinct(t: Table, g: nat, h: nat)
    requires WellFormed(t) && g in t.hooks && h in t.hooks && g != h
    ensures t.hooks[g].entry != t.hooks[h].entry
  {
    assert Apart(t, g, h);
  }

  lemma CommutedFirst(t: Table, hook: nat, rule: Entry, at: nat, dead: seq<bool>, b: bool, h: nat)
    requires Setting(t, hook, rule, at, dead) && h in t.hooks
    ensures Remove(Insert(t, hook, rule), WithRule(t, hook, dead, b)).hooks[h].entry ==
      InsertUnless(b, Remove(t, dead), hook, rule).hooks[h].entry
  {
    hide WellFormed, Removable, RuleOk, WithRule, Remove, Rebased, Offset, Rank, IndexAt, Gone, Inserted, IsFinal;
    var x := t.hooks[h].entry;
    var k1, u1 := HookIndices(t, h);
    CommutedStart(t, hook, rule, at, dead, b, x);
    if h == hook {
      ShiftedRebase(t, hook, rule, at, dead, b, k1);
    } else {
      Distinct(t, h, hook);
      if x > t.hooks[hook].entry {
        RemovedDistinct(t, at, dead, hook, h);
      }
    }
    SameHooks(t, hook, rule, dead, b);
    RemoveRebases(t, dead, h);
    RemoveRebases(Insert(t, hook, rule), WithRule(t, hook, dead, b), h);
  }

  lemma CommutedPolicy(t: Table, hook: nat, rule: Entry, at: nat, dead: seq<bool>, b: bool, h: nat)
    requires Setting(t, hook, rule, at, dead) && h in t.hooks
    ensures Remove(Insert(t, hook, rule), WithRule(t, hook, dead, b)).hooks[h].underflow ==
      InsertUnless(b, Remove(t, dead), hook, rule).hooks[h].underflow
  {
    hide WellFormed, Removable, RuleOk, WithRule, Remove, Rebased, Offset, Rank, IndexAt, Gone, Inserted, IsFinal;
    var k1, u1 := HookIndices(t, h);
    CommutedStart(t, hook, rule, at, dead, b, t.hooks[h].underflow);
    SameHooks(t, hook, rule, dead, b);
    RemoveRebases(t, dead, h);
    RemoveRebases(Insert(t, hook, rule), WithRule(t, hook, dead, b), h);
  }

  /** Insertion and removal commute: taking entries out of a table with a rule
      inserted gives the table without them with the rule inserted, or, if the
      rule is taken out too, just the table without them. */
  lemma RemoveAfterInsert(t: Table, hook: nat, rule: Entry, at: nat, dead: seq<bool>, b: bool)
    requires WellFormed(t) && hook in t.hooks && RuleOk(rule) && Removable(t, at, dead)
    ensures Remove(Insert(t, hook, rule), WithRule(t, hook, dead, b)) == InsertUnless(b, Remove(t, dead), hook, rule)
  {
    hide WellFormed, RuleOk, Insert, Remove, InsertUnless, WithRule;
    SameHooks(t, hook, rule, dead, b);
    var u, v := Remove(Insert(t, hook, rule), WithRule(t, hook, dead, b)), InsertUnless(b, Remove(t, dead), hook, rule);
    CommutedSize(t, hook, rule, at, dead, b);
    CommutedEntries(t, hook, rule, at, dead, b);
    forall h | h in t.hooks ensures u.hooks[h] == v.hooks[h] {
      CommutedFirst(t, hook, rule, at, dead, b, h);
      CommutedPolicy(t, hook, rule, at, dead, b, h);
    }
    assert u.hooks == v.hooks;
  }

  lemma {:induction false} NoneGone(es: seq<Entry>, i: nat)
    requires i <= |es|
    ensures Rank(NoneDead(|es|), i) == i && Gone(es, NoneDead(|es|), i) == 0
  {
    if i > 0 {
      NoneGone(es, i - 1);
    }
  }

  /** Removing nothing changes nothing. */
  lemma RemoveNothing(t: Table, at: nat)
    requires WellFormed(t) && at in t.hooks
    ensures Removable(t, at, NoneDead(|t.entries|)) && Remove(t, NoneDead(|t.entries|)) == t
  {
    var es, n, none := t.entries, |t.entries|, NoneDead(|t.entries|);
    var t' := Remove(t, none);
    NoneGone(es, n);
    forall i | 0 <= i < n ensures t'.entries[i] == es[i] {
      NoneGone(es, i);
      SurvivorAt(es, none, i, n);
      NoneGone(es, IndexAt(es, if IsJump(es[i]) then es[i].target.verdict else 0));
    }
    forall h | h in t.hooks ensures t'.hooks[h] == t.hooks[h] {
      NoneGone(es, IndexAt(es, t.hooks[h].entry));
      NoneGone(es, IndexAt(es, t.hooks[h].underflow));
    }
    assert t'.hooks == t.hooks;
  }

  function OnlyDead(n: nat, k: nat): (r: seq<bool>)
    ensures |r| == n && forall i :: 0 <= i < n ==> r[i] == (i == k)
  {
    seq(n, i => i == k)
  }

  /** Taking the inserted entry out again gives back the exact table: entries,
      verdicts, hook entries, underflows, size and entry count. */
  lemma RemoveUndoesInsert(t: Table, hook: nat, rule: Entry)
    requires WellFormed(t) && hook in t.hooks && RuleOk(rule)
    ensures var t', k := Insert(t, hook, rule), IndexAt(t.entries, t.hooks[hook].entry);
      Remove(t', OnlyDead(|t'.entries|, k)) == t
  {
    var none, n, k := NoneDead(|t.entries|), |t.entries|, IndexAt(t.entries, t.hooks[hook].entry);
    RemoveNothing(t, hook);
    RemoveAfterInsert(t, hook, rule, hook, none, true);
    assert WithRule(t, hook, none, true) == OnlyDead(n + 1, k);
  }
}
