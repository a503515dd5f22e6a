/** What inserting and removing entries does to a table: the value each rewrite
    produces, with every offset re-based. */
module IptRewrite {
  import opened IptTable
  import opened IptTraversal

  // ----- insertion -----

  /** `fixup_jump_targets` on one entry. */
  function Shift(e: Entry, off: nat, delta: nat): Entry {
    if IsStandard(e) && e.target.verdict >= off then WithVerdict(e, e.target.verdict + delta) else e
  }

  /** The hook's own start stays; later starts and every terminal at or after
      the insertion point move. */
  function ShiftHook(h: Hook, off: nat, delta: nat): Hook {
    Hook(if h.entry > off then h.entry + delta else h.entry,
         if h.underflow >= off then h.underflow + delta else h.underflow)
  }

  /** Entry `i` once the rule stands at index `k`, verdicts still unchanged. */
  function SplicedAt(es: seq<Entry>, k: nat, rule: Entry, i: nat): Entry
    requires k <= |es| && i <= |es|
  {
    if i < k then es[i] else if i == k then rule else es[i - 1]
  }

  function Inserted(es: seq<Entry>, k: nat, off: nat, rule: Entry): (r: seq<Entry>)
    requires k <= |es|
    ensures |r| == |es| + 1
    ensures forall i :: 0 <= i <= |es| ==> r[i] == Shift(SplicedAt(es, k, rule, i), off, rule.size)
  {
    seq(|es| + 1, i requires 0 <= i <= |es| => Shift(SplicedAt(es, k, rule, i), off, rule.size))
  }

  function Insert(t: Table, hook: nat, rule: Entry): Table
    requires hook in t.hooks
  {
    var off := t.hooks[hook].entry;
    var k := IndexAt(t.entries, off);
    Table(map h | h in t.hooks :: ShiftHook(t.hooks[h], off, rule.size),
          t.size + rule.size, t.numEntries + 1,
          Inserted(t.entries, k, off, rule))
  }

  // ----- removal -----

  /** The bytes removed before entry `i`. */
  function Gone(es: seq<Entry>, dead: seq<bool>, i: nat): nat
    requires i <= |es| == |dead|
  {
    if i == 0 then 0 else Gone(es, dead, i - 1) + if dead[i - 1] then es[i - 1].size else 0
  }

  /** The surviving entries among the first `i`, still carrying old verdicts. */
  function Survivors(es: seq<Entry>, dead: seq<bool>, i: nat): (r: seq<Entry>)
    requires i <= |es| == |dead|
    ensures |r| == Rank(dead, i)
  {
    if i == 0 then [] else
    Survivors(es, dead, i - 1) + if dead[i - 1] then [] else [es[i - 1]]
  }

  /** An old offset, less the bytes removed before the first entry at or after it. */
  function Rebased(es: seq<Entry>, dead: seq<bool>, off: nat): int
    requires |es| == |dead|
  {
    off - Gone(es, dead, IndexAt(es, off))
  }

  /** `fixup_jump_targets_removed` on one entry: a verdict that is no known
      offset is left alone. */
  function Retarget(es: seq<Entry>, dead: seq<bool>, e: Entry): Entry
    requires |es| == |dead|
  {
    if IsJump(e) && Offset(es, IndexAt(es, e.target.verdict)) == e.target.verdict
    then WithVerdict(e, Rebased(es, dead, e.target.verdict))
    else e
  }

  function RetargetAll(es: seq<Entry>, dead: seq<bool>, kept: seq<Entry>): (r: seq<Entry>)
    requires |es| == |dead|
    ensures |r| == |kept|
    ensures forall i :: 0 <= i < |kept| ==> r[i] == Retarget(es, dead, kept[i])
  {
    seq(|kept|, i requires 0 <= i < |kept| => Retarget(es, dead, kept[i]))
  }

  lemma {:induction false} GoneBound(es: seq<Entry>, dead: seq<bool>, i: nat)
    requires i <= |es| == |dead|
    ensures Offset(es, i) - Gone(es, dead, i) == Offset(Survivors(es, dead, i), Rank(dead, i)) >= 0
  {
    if i > 0 {
      GoneBound(es, dead, i - 1);
      OffsetSameSizes(Survivors(es, dead, i), Survivors(es, dead, i - 1), Rank(dead, i - 1));
    }
  }

  function RebasedHook(es: seq<Entry>, dead: seq<bool>, h: Hook): Hook
    requires |es| == |dead|
  {
    var e, u := Rebased(es, dead, h.entry), Rebased(es, dead, h.underflow);
    Hook(if e < 0 then 0 else e, if u < 0 then 0 else u)
  }

  function Remove(t: Table, dead: seq<bool>): Table
    requires |dead| == |t.entries|
  {
    var n := |t.entries|;
    var kept := Survivors(t.entries, dead, n);
    GoneBound(t.entries, dead, n);
    Table(map h | h in t.hooks :: RebasedHook(t.entries, dead, t.hooks[h]),
          Offset(t.entries, n) - Gone(t.entries, dead, n), |kept|,
          RetargetAll(t.entries, dead, kept))
  }

  /** Entries that may be marked dead: non-policy, non-jump, conditional entries
      in the range of one hook. */
  ghost predicate Removable(t: Table, hook: nat, dead: seq<bool>) {
    && hook in t.hooks
    && |dead| == |t.entries|
    && forall i {:trigger dead[i]} :: 0 <= i < |dead| && dead[i] ==>
         && InHook(t.hooks[hook], Offset(t.entries, i))
         && !IsJump(t.entries[i])
         && !IsFinal(t.entries[i])
  }

  // ----- where entries go -----

  lemma {:induction false} SplicedOffset(es: seq<Entry>, es': seq<Entry>, k: nat, rule: Entry, i: nat)
    requires k <= i <= |es| && |es'| == |es| + 1
    requires forall j :: 0 <= j < |es| ==> es'[Moved(k, j)].size == es[j].size
    requires es'[k].size == rule.size
    ensures Offset(es', i + 1) == Offset(es, i) + rule.size
    decreases i
  {
    if i == k {
      assert forall j :: 0 <= j < k ==> es'[j].size == es'[Moved(k, j)].size;
      OffsetSameSizes(es, es', k);
    } else {
      SplicedOffset(es, es', k, rule, i - 1);
      assert es'[Moved(k, i - 1)].size == es[i - 1].size;
    }
  }

  lemma InsertedSizes(es: seq<Entry>, k: nat, rule: Entry)
    requires Sized(es) && k <= |es| && rule.size >= SIZEOF_ENTRY
    ensures var es' := Inserted(es, k, Offset(es, k), rule);
      Sized(es') && forall j :: 0 <= j < |es| ==> es'[Moved(k, j)].size == es[j].size
  {
  }

  /** Old entry `i` starts at its old offset, moved up by the rule's size if it
      was at or after the insertion point. */
  lemma InsertedAt(es: seq<Entry>, k: nat, rule: Entry, i: nat)
    requires Sized(es) && k <= |es| && i <= |es| && rule.size >= SIZEOF_ENTRY
    ensures var off := Offset(es, k);
      var es' := Inserted(es, k, off, rule);
      && Sized(es')
      && Offset(es', k) == off
      && (Offset(es, i) >= off <==> i >= k)
      && Offset(es', Moved(k, i)) == Offset(es, i) + (if i >= k then rule.size else 0)
      && IndexAt(es', Offset(es', Moved(k, i))) == Moved(k, i)
  {
    var es' := Inserted(es, k, Offset(es, k), rule);
    InsertedSizes(es, k, rule);
    OffsetOrder(es, i, k);
    OffsetSameSizes(es, es', k);
    if i < k {
      OffsetSameSizes(es, es', i);
    } else {
      SplicedOffset(es, es', k, rule, i);
    }
    IndexOfOffset(es', Moved(k, i));
  }

  lemma {:induction false} RankGrows(dead: seq<bool>, i: nat, j: nat)
    requires i <= j <= |dead|
    ensures Rank(dead, i) <= Rank(dead, j)
    ensures Rank(dead, i) == Rank(dead, j) <==> forall m :: i <= m < j ==> dead[m]
    decreases j
  {
    if i < j {
      RankGrows(dead, i, j - 1);
    }
  }

  lemma {:induction false} RankBound(dead: seq<bool>, i: nat)
    requires i <= |dead|
    ensures Rank(dead, i) <= i
    ensures Rank(dead, i) == i <==> forall j :: 0 <= j < i ==> !dead[j]
  {
    if i > 0 {
      RankBound(dead, i - 1);
    }
  }

  lemma {:induction false} SurvivorAt(es: seq<Entry>, dead: seq<bool>, i: nat, n: nat)
    requires i < n <= |es| == |dead| && !dead[i]
    ensures Rank(dead, i) < Rank(dead, n) && Survivors(es, dead, n)[Rank(dead, i)] == es[i]
    decreases n
  {
    if i + 1 < n {
      SurvivorAt(es, dead, i, n - 1);
    }
  }

  lemma {:induction false} SurvivorOffset(es: seq<Entry>, dead: seq<bool>, i: nat, n: nat)
    requires i <= n <= |es| == |dead|
    ensures Rank(dead, i) <= Rank(dead, n)
    ensures Offset(Survivors(es, dead, n), Rank(dead, i)) == Offset(es, i) - Gone(es, dead, i)
    decreases n
  {
    if i == n {
      GoneBound(es, dead, n);
    } else {
      SurvivorOffset(es, dead, i, n - 1);
      OffsetSameSizes(Survivors(es, dead, n), Survivors(es, dead, n - 1), Rank(dead, i));
    }
  }

  lemma {:induction false} SurvivorSource(es: seq<Entry>, dead: seq<bool>, r: nat, n: nat) returns (i: nat)
    requires n <= |es| == |dead| && r < Rank(dead, n)
    ensures i < n && !dead[i] && Rank(dead, i) == r
    decreases n
  {
    if r < Rank(dead, n - 1) {
      i := SurvivorSource(es, dead, r, n - 1);
    } else {
      i := n - 1;
    }
  }

  /** Old entry `i` sits at `Rank(dead, i)` in the new table, at its old offset
      less the bytes removed before it; for a dead entry that is its next survivor. */
  lemma RemovedAt(t: Table, hook: nat, dead: seq<bool>, i: nat)
    requires WellFormed(t) && Removable(t, hook, dead) && i <= |t.entries|
    ensures var es, es' := t.entries, Remove(t, dead).entries;
      && Sized(es) && Sized(es') && Rank(dead, i) <= |es'| == Rank(dead, |es|)
      && Offset(es', Rank(dead, i)) == Offset(es, i) - Gone(es, dead, i) == Rebased(es, dead, Offset(es, i))
      && (i < |es| && !dead[i] ==> Rank(dead, i) < |es'| && es'[Rank(dead, i)] == Retarget(es, dead, es[i]))
  {
    var es, es', n := t.entries, Remove(t, dead).entries, |t.entries|;
    var kept := Survivors(es, dead, n);
    SizedTable(t);
    forall r | 0 <= r < |kept| ensures es'[r].size >= SIZEOF_ENTRY && es'[r].size == kept[r].size {
      var j := SurvivorSource(es, dead, r, n);
      SurvivorAt(es, dead, j, n);
    }
    SurvivorOffset(es, dead, i, n);
    OffsetSameSizes(es', kept, Rank(dead, i));
    IndexOfOffset(es, i);
    if i < n && !dead[i] {
      SurvivorAt(es, dead, i, n);
    }
  }

  /** Survivor order and survivor offsets agree with the old ones. */
  lemma RankOrder(t: Table, hook: nat, dead: seq<bool>, i: nat, j: nat)
    requires WellFormed(t) && Removable(t, hook, dead) && i <= |dead| && j <= |dead|
    ensures var es' := Remove(t, dead).entries;
      && Rank(dead, i) <= |es'| && Rank(dead, j) <= |es'|
      && (Offset(es', Rank(dead, i)) < Offset(es', Rank(dead, j)) <==> Rank(dead, i) < Rank(dead, j))
      && (i <= j ==> Rank(dead, i) <= Rank(dead, j))
      && (i < j && !dead[i] ==> Rank(dead, i) < Rank(dead, j))
      && IndexAt(es', Offset(es', Rank(dead, i))) == Rank(dead, i)
  {
    RemovedAt(t, hook, dead, i);
    RemovedAt(t, hook, dead, j);
    var es' := Remove(t, dead).entries;
    OffsetOrder(es', Rank(dead, i), Rank(dead, j));
    IndexOfOffset(es', Rank(dead, i));
    if i <= j {
      RankGrows(dead, i, j);
    }
  }
}
