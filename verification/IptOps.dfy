/** The table operations as the program performs them: walks over the blob with
    running offsets, verdicts patched in place, and a replacement built field by
    field before it is handed to the kernel. */
module IptOps {
  import opened IptTable
  import IptTraversal
  import opened IptRewrite
  import IptMeaning
  import IptPreserve
  import opened IptRules
  import opened IptInterface

  /** struct ipt_replace with its trailing blob. */
  class Replace {
    const valid: set<nat>
    const hookEntry: array<nat>
    const underflow: array<nat>
    const blob: array<Entry>
    var size: nat
    var numEntries: nat

    ghost predicate Valid()
      reads this
    {
      && hookEntry.Length == NUMHOOKS == underflow.Length && hookEntry != underflow
      && forall h :: h in valid ==> h < NUMHOOKS
    }

    /** The table the kernel installs from this replacement. */
    function AsTable(): Table
      requires Valid()
      reads this, hookEntry, underflow, blob
    {
      Table(map h | h in valid :: Hook(hookEntry[h], underflow[h]), size, numEntries, blob[..])
    }

    constructor (valid: set<nat>, count: nat, filler: Entry)
      requires forall h :: h in valid ==> h < NUMHOOKS
      ensures Valid() && this.valid == valid && blob.Length == count
      ensures fresh(hookEntry) && fresh(underflow) && fresh(blob)
    {
      this.valid := valid;
      hookEntry := new nat[NUMHOOKS](_ => 0);
      underflow := new nat[NUMHOOKS](_ => 0);
      blob := new Entry[count](_ => filler);
      size, numEntries := 0, 0;
    }
  }

  lemma PrefixOffset(es: seq<Entry>, n: nat, i: nat)
    requires i < n <= |es| && Sized(es[..n])
    ensures Offset(es, i) < Offset(es, n) && Offset(es, i + 1) <= Offset(es, n)
  {
    OffsetGrows(es[..n], i, n);
    OffsetSameSizes(es, es[..n], i);
    OffsetSameSizes(es, es[..n], n);
  }

  // ----- insertion -----

  /** Walks the blob and raises every verdict at or after the insertion point. */
  method FixupJumpTargets(blob: array<Entry>, blobSz: nat, insertOff: nat, delta: nat)
    requires Sized(blob[..]) && blobSz == Offset(blob[..], blob.Length)
    modifies blob
    ensures forall i :: 0 <= i < blob.Length ==> blob[i] == Shift(old(blob[i]), insertOff, delta)
  {
    ghost var was := blob[..];
    var off, i := 0, 0;
    while off < blobSz
      invariant i <= blob.Length && off == Offset(was, i)
      invariant forall j :: 0 <= j < i ==> blob[j] == Shift(was[j], insertOff, delta)
      invariant forall j :: i <= j < blob.Length ==> blob[j] == was[j]
      decreases blob.Length - i
    {
      OffsetOrder(was, i, blob.Length);
      var e := blob[i];
      PrefixOffset(was, blob.Length, i);
      if e.size < SIZEOF_ENTRY || off + e.size > blobSz {
        break;
      }
      if IsStandard(e) && e.target.verdict >= insertOff {
        blob[i] := WithVerdict(e, e.target.verdict + delta);
      }
      off := off + e.size;
      i := i + 1;
    }
    OffsetOrder(was, i, blob.Length);
  }

  method ShiftHooks(hooks: map<nat, Hook>, insertOff: nat, delta: nat, repl: Replace)
    requires repl.Valid() && repl.valid == hooks.Keys
    modifies repl.hookEntry, repl.underflow
    ensures forall g :: g in hooks ==> Hook(repl.hookEntry[g], repl.underflow[g]) == ShiftHook(hooks[g], insertOff, delta)
  {
    var h := 0;
    while h < NUMHOOKS
      invariant h <= NUMHOOKS
      invariant forall g :: g in hooks && g < h ==>
        Hook(repl.hookEntry[g], repl.underflow[g]) == ShiftHook(hooks[g], insertOff, delta)
    {
      if h in hooks {
        repl.hookEntry[h] := hooks[h].entry;
        repl.underflow[h] := hooks[h].underflow;
        if hooks[h].entry > insertOff {
          repl.hookEntry[h] := repl.hookEntry[h] + delta;
        }
        if hooks[h].underflow >= insertOff {
          repl.underflow[h] := repl.underflow[h] + delta;
        }
      }
      h := h + 1;
    }
    assert forall g :: g in hooks ==> g in repl.valid;
  }

  /** The entries before index `k`, the rule, and the rest, copied one by one. */
  method SpliceInto(blob: array<Entry>, es: seq<Entry>, k: nat, rule: Entry)
    requires k <= |es| && blob.Length == |es| + 1
    modifies blob
    ensures forall i :: 0 <= i <= |es| ==> blob[i] == SplicedAt(es, k, rule, i)
  {
    var i := 0;
    while i < k
      invariant i <= k && forall j :: 0 <= j < i ==> blob[j] == es[j]
    {
      blob[i] := es[i];
      i := i + 1;
    }
    blob[k] := rule;
    while i < |es|
      invariant k <= i <= |es| && forall j :: 0 <= j <= i ==> blob[j] == SplicedAt(es, k, rule, j)
    {
      blob[i + 1] := es[i];
      i := i + 1;
    }
  }

  lemma SplicedTotal(es: seq<Entry>, es': seq<Entry>, k: nat, rule: Entry)
    requires Sized(es) && k <= |es| && |es'| == |es| + 1 && rule.size >= SIZEOF_ENTRY
    requires forall i :: 0 <= i <= |es| ==> es'[i] == SplicedAt(es, k, rule, i)
    ensures Sized(es') && Offset(es', |es'|) == Offset(es, |es|) + rule.size
  {
    assert forall j :: 0 <= j < |es| ==> es'[IptTraversal.Moved(k, j)].size == es[j].size;
    SplicedOffset(es, es', k, rule, |es|);
  }

  method InsertRuleAtHook(info: Table, hook: nat, rule: Entry) returns (repl: Replace)
    requires WellFormed(info) && hook in info.hooks && rule.size >= SIZEOF_ENTRY
    ensures fresh(repl) && repl.Valid() && repl.AsTable() == Insert(info, hook, rule)
  {
    ghost var kk, u := HookIndices(info, hook);
    var insertOff := info.hooks[hook].entry;
    var newSz := info.size + rule.size;
    forall h | h in info.hooks ensures h < NUMHOOKS {
      assert HookOk(info, info.hooks[h]);
    }
    repl := new Replace(info.hooks.Keys, |info.entries| + 1, rule);
    repl.numEntries := info.numEntries + 1;
    repl.size := newSz;

    ShiftHooks(info.hooks, insertOff, rule.size, repl);
    SpliceInto(repl.blob, info.entries, IndexAt(info.entries, insertOff), rule);
    ghost var spliced := repl.blob[..];
    SplicedTotal(info.entries, spliced, kk, rule);
    FixupJumpTargets(repl.blob, newSz, insertOff, rule.size);
    assert repl.blob[..] == Insert(info, hook, rule).entries;
    assert repl.AsTable().hooks == Insert(info, hook, rule).hooks;
  }

  // ----- finding a rule -----

  /** The entries a hook starts at and ends before. */
  method StartAndEnd(info: Table, hook: nat) returns (k: nat, u: nat)
    requires WellFormed(info) && hook in info.hooks
    ensures Sized(info.entries) && k <= u < |info.entries|
    ensures Offset(info.entries, k) == info.hooks[hook].entry
    ensures Offset(info.entries, u) == info.hooks[hook].underflow
  {
    ghost var k0, u0 := HookIndices(info, hook);
    k := IndexAt(info.entries, info.hooks[hook].entry);
    u := IndexAt(info.entries, info.hooks[hook].underflow);
  }

  /** What the test finds for the criteria the program passes. */
  lemma TestFinds(info: Table, hook: nat, w: Wanted)
    requires WellFormed(info) && hook in info.hooks
    ensures forall iface, isOut :: IfaceArg(iface) && w == WantAccept(iface, isOut) ==>
      Exists(info, hook, w) == AcceptPresent(info, hook, iface, isOut)
    ensures forall src, mask :: w == WantMasquerade(src, mask) ==>
      Exists(info, hook, w) == MasqueradePresent(info, hook, src, mask)
  {
    hide *;
    forall iface, isOut | IfaceArg(iface) && w == WantAccept(iface, isOut)
      ensures Exists(info, hook, w) == AcceptPresent(info, hook, iface, isOut)
    {
      ExistsAccept(info, hook, iface, isOut);
    }
    forall src, mask | w == WantMasquerade(src, mask)
      ensures Exists(info, hook, w) == MasqueradePresent(info, hook, src, mask)
    {
      ExistsMasquerade(info, hook, src, mask);
    }
  }

  method RuleExistsInHook(info: Table, hook: nat, w: Wanted) returns (found: bool)
    requires WellFormed(info)
    ensures found == Exists(info, hook, w)
    ensures hook !in info.hooks ==> !found
    ensures hook in info.hooks ==> forall iface, isOut :: IfaceArg(iface) && w == WantAccept(iface, isOut) ==>
      found == AcceptPresent(info, hook, iface, isOut)
    ensures hook in info.hooks ==> forall src, mask :: w == WantMasquerade(src, mask) ==>
      found == MasqueradePresent(info, hook, src, mask)
  {
    if hook !in info.hooks {
      return false;
    }
    hide Exists, Satisfies, WantAccept, WantMasquerade, AcceptPresent, MasqueradePresent, IfaceArg, WellFormed;
    TestFinds(info, hook, w);
    var k, u := StartAndEnd(info, hook);
    var off, end := info.hooks[hook].entry, info.hooks[hook].underflow;
    ghost var es := info.entries;
    var i := k;
    while off + SIZEOF_ENTRY <= end
      invariant k <= i <= u && off == Offset(es, i)
      invariant forall j :: k <= j < i ==> !Satisfies(es[j], w)
      decreases u - i
    {
      OffsetOrder(es, i, u);
      var e := info.entries[i];
      OffsetGrows(es, i, u);
      assert EntryOk(e);
      if e.size < SIZEOF_ENTRY || e.size > end - off || e.targetOff + SIZEOF_TARGET > e.size {
        break;
      }
      var match_ := true;
      if w.target != "" {
        if w.target == "ACCEPT" {
          if !TargetIsAccept(e.target) {
            match_ := false;
          }
        } else if e.target.name != w.target {
          match_ := false;
        }
      }
      if match_ && w.ifaceIn != "" && !SameName(e.ip.inIface, w.ifaceIn) {
        match_ := false;
      }
      if match_ && w.ifaceOut != "" && !SameName(e.ip.outIface, w.ifaceOut) {
        match_ := false;
      }
      if match_ && w.src != 0 && (e.ip.src != w.src || e.ip.smsk != w.mask) {
        match_ := false;
      }
      if match_ {
        OffsetOrder(es, k, i);
        assert InHook(info.hooks[hook], Offset(es, i));
        return true;
      }
      off := off + e.size;
      i := i + 1;
    }
    if i < u {
      OffsetGrows(es, i, u);
    }
    forall j | 0 <= j < |es| && InHook(info.hooks[hook], Offset(es, j)) ensures !Satisfies(es[j], w) {
      OffsetOrder(es, k, j);
      OffsetOrder(es, j, u);
      OffsetOrder(es, j, k);
    }
    return false;
  }

  // ----- removal -----

  /** What the first pass records at each entry start, and at the end. */
  ghost predicate FullyTracked(es: seq<Entry>, dead: seq<bool>, oldOffsets: array<nat>, removedBefore: array<nat>)
    reads oldOffsets, removedBefore
  {
    && |es| == |dead|
    && oldOffsets.Length == removedBefore.Length == |es| + 1
    && forall i {:trigger oldOffsets[i]} {:trigger removedBefore[i]} :: 0 <= i <= |es| ==> oldOffsets[i] == Offset(es, i) && removedBefore[i] == Gone(es, dead, i)
  }

  /** The bytes removed before the first recorded entry at or after `off`. */
  method Adjustment(oldOffsets: array<nat>, removedBefore: array<nat>, off: nat, ghost es: seq<Entry>, ghost dead: seq<bool>)
    returns (adj: nat)
    requires FullyTracked(es, dead, oldOffsets, removedBefore) && off <= Offset(es, |es|)
    ensures adj == Gone(es, dead, IndexAt(es, off))
  {
    adj := 0;
    var k := 0;
    while k < oldOffsets.Length
      invariant k <= oldOffsets.Length
      invariant forall j :: 0 <= j < k ==> Offset(es, j) < off
    {
      if oldOffsets[k] >= off {
        adj := removedBefore[k];
        IndexIsFirst(es, off, 0, k);
        return;
      }
      k := k + 1;
    }
    assert false;
  }

  /** Walks the surviving entries and lowers every verdict that names a recorded
      offset by the bytes removed before it. */
  method FixupJumpTargetsRemoved(blob: array<Entry>, count: nat, blobSz: nat, oldOffsets: array<nat>, removedBefore: array<nat>,
                                 ghost es: seq<Entry>, ghost dead: seq<bool>)
    requires count <= blob.Length && Sized(blob[..count]) && blobSz == Offset(blob[..], count)
    requires Sized(es) && FullyTracked(es, dead, oldOffsets, removedBefore)
    modifies blob
    ensures forall i :: 0 <= i < count ==> blob[i] == Retarget(es, dead, old(blob[i]))
  {
    ghost var was := blob[..];
    var off, i := 0, 0;
    while off < blobSz
      invariant i <= count && off == Offset(was, i)
      invariant forall j :: 0 <= j < i ==> blob[j] == Retarget(es, dead, was[j])
      invariant forall j :: i <= j < count ==> blob[j] == was[j]
      decreases count - i
    {
      assert i < count;
      var e := blob[i];
      assert was[..count][i] == e;
      PrefixOffset(was, count, i);
      if e.size < SIZEOF_ENTRY || off + e.size > blobSz {
        break;
      }
      if IsStandard(e) && e.target.verdict >= 0 {
        var k, hit := 0, false;
        while k < oldOffsets.Length && !hit
          invariant k <= oldOffsets.Length && blob[i] == e
          invariant hit ==> k < oldOffsets.Length && oldOffsets[k] == e.target.verdict
          invariant !hit ==> forall j :: 0 <= j < k ==> oldOffsets[j] != e.target.verdict
          decreases oldOffsets.Length - k, !hit
        {
          if oldOffsets[k] == e.target.verdict {
            hit := true;
          } else {
            k := k + 1;
          }
        }
        if hit {
          IndexOfOffset(es, k);
          blob[i] := WithVerdict(e, e.target.verdict - removedBefore[k]);
        } else {
          assert oldOffsets[IndexAt(es, e.target.verdict)] != e.target.verdict;
        }
      }
      off := off + e.size;
      i := i + 1;
    }
    if i < count {
      PrefixOffset(was, count, i);
    }
  }

  /** The first `i` entries have been walked: survivors copied, bytes counted. */
  ghost predicate Walked(es: seq<Entry>, dead: seq<bool>, i: nat, kept: seq<Entry>, newSz: nat, gone: nat, removed: nat)
    requires i <= |es| == |dead|
  {
    && kept == Survivors(es, dead, i)
    && newSz + gone == Offset(es, i)
    && gone == Gone(es, dead, i)
    && removed + |kept| == i
  }

  method IsUnderflowAt(info: Table, offset: nat) returns (hit: bool)
    requires WellFormed(info)
    ensures hit == IsUnderflow(info, offset)
  {
    var h := 0;
    while h < NUMHOOKS
      invariant h <= NUMHOOKS
      invariant forall g :: g in info.hooks && g < h ==> info.hooks[g].underflow != offset
    {
      if h in info.hooks && info.hooks[h].underflow == offset {
        return true;
      }
      h := h + 1;
    }
    forall g | g in info.hooks ensures g < NUMHOOKS {
      assert HookOk(info, info.hooks[g]);
    }
    return false;
  }

  /** Is this entry, at this offset, one that goes? */
  method Classify(info: Table, hook: nat, q: Fingerprint, offset: nat, e: Entry) returns (goes: bool)
    requires WellFormed(info) && hook in info.hooks
    ensures goes == (InHook(info.hooks[hook], offset) && Ours(e, q) && !IsUnderflow(info, offset))
  {
    var isOurs := false;
    if InHook(info.hooks[hook], offset) {
      if q.src != 0 && e.target.name == "MASQUERADE" && e.ip.src == q.src && e.ip.smsk == q.mask
         && e.ip.dst == q.src && e.ip.dmsk == q.mask && e.ip.invDst {
        isOurs := true;
      }
      if !isOurs && q.iface != "" && TargetIsAccept(e.target) {
        if q.matchIn && IfaceExactMatch(e.ip.inIface, e.ip.inMask, q.iface) && IfaceEmpty(e.ip.outIface, e.ip.outMask) {
          isOurs := true;
        }
        if q.matchOut && IfaceExactMatch(e.ip.outIface, e.ip.outMask, q.iface) && IfaceEmpty(e.ip.inIface, e.ip.inMask) {
          isOurs := true;
        }
      }
    }
    goes := isOurs;
    if isOurs {
      var isUnderflow := IsUnderflowAt(info, offset);
      goes := !isUnderflow;
    }
  }

  lemma EntryFits(info: Table, i: nat)
    requires WellFormed(info) && i < |info.entries|
    ensures EntryOk(info.entries[i])
    ensures Offset(info.entries, i) + info.entries[i].size == Offset(info.entries, i + 1) <= info.size
  {
    SizedTable(info);
    OffsetGrows(info.entries, i, |info.entries|);
    assert EntryOk(info.entries[i]);
  }

  lemma WalkBegins(es: seq<Entry>, dead: seq<bool>)
    requires |es| == |dead|
    ensures Walked(es, dead, 0, [], 0, 0, 0) && Offset(es, 0) == 0
  {
  }

  lemma WalkStep(es: seq<Entry>, dead: seq<bool>, i: nat, kept: seq<Entry>, newSz: nat, gone: nat, removed: nat)
    requires i < |es| == |dead| && Walked(es, dead, i, kept, newSz, gone, removed)
    ensures dead[i] ==> Walked(es, dead, i + 1, kept, newSz, gone + es[i].size, removed + 1)
    ensures !dead[i] ==> Walked(es, dead, i + 1, kept + [es[i]], newSz + es[i].size, gone, removed)
  {
  }

  /** First pass: classify every entry, copy what stays, record what went. */
  method WalkAndFilter(info: Table, hook: nat, q: Fingerprint, newBlob: array<Entry>, oldOffsets: array<nat>, removedBefore: array<nat>)
    returns (count: nat, newSz: nat, removed: nat)
    requires WellFormed(info) && hook in info.hooks
    requires newBlob.Length == |info.entries| && oldOffsets.Length == removedBefore.Length == |info.entries| + 1
    requires oldOffsets != removedBefore
    modifies newBlob, oldOffsets, removedBefore
    ensures count <= newBlob.Length
    ensures Walked(info.entries, Marks(info, hook, q), |info.entries|, newBlob[..count], newSz, Gone(info.entries, Marks(info, hook, q), |info.entries|), removed)
    ensures FullyTracked(info.entries, Marks(info, hook, q), oldOffsets, removedBefore)
  {
    hide Offset, WellFormed, Marks, Gone, Survivors, IsUnderflow, Ours;
    ghost var es, dead := info.entries, Marks(info, hook, q);
    ghost var n := |es|;
    SizedTable(info);
    IptPreserve.TotalSize(info);
    WalkBegins(es, dead);
    count, newSz, removed := 0, 0, 0;
    var cumulativeGone: nat, offset: nat, ei: nat := 0, 0, 0;
    while offset + SIZEOF_ENTRY <= info.size && ei < info.numEntries
      invariant count <= ei <= n && offset == Offset(es, ei)
      invariant Walked(es, dead, ei, newBlob[..count], newSz, cumulativeGone, removed)
      invariant forall j {:trigger oldOffsets[j]} {:trigger removedBefore[j]} :: 0 <= j < ei ==> oldOffsets[j] == Offset(es, j) && removedBefore[j] == Gone(es, dead, j)
      decreases n - ei
    {
      var e := info.entries[ei];
      EntryFits(info, ei);
      if e.size < SIZEOF_ENTRY || e.size > info.size - offset || e.targetOff + SIZEOF_TARGET > e.size {
        break;
      }
      oldOffsets[ei] := offset;
      removedBefore[ei] := cumulativeGone;
      var goes := Classify(info, hook, q, offset, e);
      assert goes == dead[ei];
      WalkStep(es, dead, ei, newBlob[..count], newSz, cumulativeGone, removed);
      if goes {
        cumulativeGone := cumulativeGone + e.size;
        removed := removed + 1;
      } else {
        newBlob[count] := e;
        assert newBlob[..count + 1] == newBlob[..count] + [e];
        newSz := newSz + e.size;
        count := count + 1;
      }
      offset := offset + e.size;
      ei := ei + 1;
    }
    if ei < n {
      OffsetGrows(es, ei, n);
    }
    oldOffsets[ei] := offset;
    removedBefore[ei] := cumulativeGone;
  }

  /** Every hook can be re-based. */
  ghost predicate Rebasable(hooks: map<nat, Hook>, es: seq<Entry>, dead: seq<bool>) {
    && |es| == |dead|
    && forall h :: h in hooks ==>
      && h < NUMHOOKS
      && Rebased(es, dead, hooks[h].entry) >= 0 && Rebased(es, dead, hooks[h].underflow) >= 0
      && hooks[h].entry <= Offset(es, |es|) && hooks[h].underflow <= Offset(es, |es|)
  }

  /** Second pass: hook entries and underflows. */
  method RebaseHooks(hooks: map<nat, Hook>, repl: Replace, oldOffsets: array<nat>, removedBefore: array<nat>,
                     ghost es: seq<Entry>, ghost dead: seq<bool>)
    requires Rebasable(hooks, es, dead) && repl.Valid() && repl.valid == hooks.Keys
    requires FullyTracked(es, dead, oldOffsets, removedBefore)
    requires {repl.hookEntry, repl.underflow} !! {oldOffsets, removedBefore}
    modifies repl.hookEntry, repl.underflow
    ensures forall g :: g in hooks ==> Hook(repl.hookEntry[g], repl.underflow[g]) == RebasedHook(es, dead, hooks[g])
  {
    var h := 0;
    while h < NUMHOOKS
      invariant h <= NUMHOOKS
      invariant FullyTracked(es, dead, oldOffsets, removedBefore)
      invariant forall g :: g in hooks && g < h ==>
        Hook(repl.hookEntry[g], repl.underflow[g]) == RebasedHook(es, dead, hooks[g])
    {
      if h in hooks {
        var adj := Adjustment(oldOffsets, removedBefore, hooks[h].entry, es, dead);
        repl.hookEntry[h] := hooks[h].entry - adj;
        adj := Adjustment(oldOffsets, removedBefore, hooks[h].underflow, es, dead);
        repl.underflow[h] := hooks[h].underflow - adj;
      }
      h := h + 1;
    }
    assert forall g :: g in hooks ==> g in repl.valid;
  }

  method BuildReplacement(info: Table, newBlob: array<Entry>, count: nat, newSz: nat, numEntries: nat,
                          oldOffsets: array<nat>, removedBefore: array<nat>, ghost dead: seq<bool>) returns (repl: Replace)
    requires info.entries != [] && count <= newBlob.Length
    requires Rebasable(info.hooks, info.entries, dead) && FullyTracked(info.entries, dead, oldOffsets, removedBefore)
    ensures fresh(repl) && repl.Valid()
    ensures repl.AsTable() == Table(map h | h in info.hooks :: RebasedHook(info.entries, dead, info.hooks[h]),
                                    newSz, numEntries, newBlob[..count])
  {
    repl := new Replace(info.hooks.Keys, count, info.entries[0]);
    repl.numEntries := numEntries;
    repl.size := newSz;
    RebaseHooks(info.hooks, repl, oldOffsets, removedBefore, info.entries, dead);
    var i := 0;
    while i < count
      invariant i <= count && repl.size == newSz && repl.numEntries == numEntries
      invariant forall g :: g in info.hooks ==> g in repl.valid && Hook(repl.hookEntry[g], repl.underflow[g]) == RebasedHook(info.entries, dead, info.hooks[g])
      invariant forall j :: 0 <= j < i ==> repl.blob[j] == newBlob[j]
    {
      repl.blob[i] := newBlob[i];
      i := i + 1;
    }
    assert repl.blob[..] == newBlob[..count];
    assert repl.AsTable().hooks == map h | h in info.hooks :: RebasedHook(info.entries, dead, info.hooks[h]);
  }

  lemma HookRebases(info: Table, hook: nat, q: Fingerprint, h: nat)
    requires WellFormed(info) && hook in info.hooks && h in info.hooks
    ensures var es, dead := info.entries, Marks(info, hook, q);
      && Rebased(es, dead, info.hooks[h].entry) >= 0 && Rebased(es, dead, info.hooks[h].underflow) >= 0
      && info.hooks[h].entry <= Offset(es, |es|) && info.hooks[h].underflow <= Offset(es, |es|)
  {
    var k, u := HookIndices(info, h);
    MarksRemovable(info, hook, q);
    IptMeaning.RemoveKeepsStart(info, hook, Marks(info, hook, q), info.hooks[h].entry);
    IptMeaning.RemoveKeepsStart(info, hook, Marks(info, hook, q), info.hooks[h].underflow);
    OffsetOrder(info.entries, |info.entries|, k);
    OffsetOrder(info.entries, |info.entries|, u);
  }

  lemma RebasableHooks(info: Table, hook: nat, q: Fingerprint)
    requires WellFormed(info) && hook in info.hooks
    ensures Rebasable(info.hooks, info.entries, Marks(info, hook, q))
  {
    forall h | h in info.hooks
      ensures h < NUMHOOKS
      ensures Rebased(info.entries, Marks(info, hook, q), info.hooks[h].entry) >= 0
      ensures Rebased(info.entries, Marks(info, hook, q), info.hooks[h].underflow) >= 0
      ensures info.hooks[h].entry <= Offset(info.entries, |info.entries|)
      ensures info.hooks[h].underflow <= Offset(info.entries, |info.entries|)
    {
      assert HookOk(info, info.hooks[h]);
      HookRebases(info, hook, q, h);
    }
  }

  /** What the passes have computed, put together, is the table with the marked entries removed. */
  lemma RemovedTable(info: Table, hook: nat, q: Fingerprint, kept: seq<Entry>, newSz: nat, removed: nat)
    requires WellFormed(info) && hook in info.hooks
    requires var es, dead := info.entries, Marks(info, hook, q);
      Walked(es, dead, |es|, kept, newSz, Gone(es, dead, |es|), removed)
    ensures var es, dead := info.entries, Marks(info, hook, q);
      && Sized(es) && Sized(kept) && newSz == Offset(kept, |kept|)
      && |dead| == |es| && info.numEntries >= removed
      && (removed == 0 <==> true !in dead)
      && var t' := Table(map h | h in info.hooks :: RebasedHook(es, dead, info.hooks[h]),
                         newSz, info.numEntries - removed, RetargetAll(es, dead, kept));
         removed > 0 ==> RemoveMatching(info, hook, q) == t'
  {
    var es, dead, n := info.entries, Marks(info, hook, q), |info.entries|;
    SizedTable(info);
    RankBound(dead, n);
    forall r | 0 <= r < |kept| ensures kept[r].size >= SIZEOF_ENTRY {
      var j := SurvivorSource(es, dead, r, n);
      SurvivorAt(es, dead, j, n);
    }
    GoneBound(es, dead, n);
  }

  /** No replacement at all when the hook is not there or nothing matched. */
  method RemoveMatchingRules(info: Table, hook: nat, q: Fingerprint) returns (repl: Replace?)
    requires WellFormed(info)
    ensures repl == null <==> hook !in info.hooks || true !in Marks(info, hook, q)
    ensures repl != null ==> fresh(repl) && repl.Valid() && repl.AsTable() == RemoveMatching(info, hook, q)
  {
    if hook !in info.hooks {
      return null;
    }
    hide Offset, IndexAt, Retarget, Marks, Walked, RemoveMatching, WellFormed;
    ghost var es, dead := info.entries, Marks(info, hook, q);
    ghost var kk, uu := HookIndices(info, hook);
    var newBlob := new Entry[|info.entries|](_ => info.entries[0]);
    var oldOffsets := new nat[|info.entries| + 1](_ => 0);
    var removedBefore := new nat[|info.entries| + 1](_ => 0);
    var count, newSz, removed := WalkAndFilter(info, hook, q, newBlob, oldOffsets, removedBefore);
    ghost var kept := newBlob[..count];
    RemovedTable(info, hook, q, kept, newSz, removed);
    if removed == 0 {
      return null;
    }
    OffsetSameSizes(newBlob[..], kept, count);
    FixupJumpTargetsRemoved(newBlob, count, newSz, oldOffsets, removedBefore, es, dead);
    assert newBlob[..count] == RetargetAll(es, dead, kept);

    RebasableHooks(info, hook, q);
    repl := BuildReplacement(info, newBlob, count, newSz, info.numEntries - removed, oldOffsets, removedBefore, dead);
  }

  // ----- the public operations, on the table the kernel holds -----

  class XtTable {
    var table: Table

    ghost predicate Valid()
      reads this
    {
      WellFormed(table)
    }

    /** Insert -i/-o <iface> -j ACCEPT at the head of `hook` unless it is there. */
    method InsertIfaceAccept(hook: nat, iface: string, isOut: bool)
      requires Valid() && hook in table.hooks && IfaceArg(iface)
      modifies this
      ensures Valid() && table == Ensure(old(table), hook, WantAccept(iface, isOut), AcceptRule(iface, isOut))
      ensures table == if AcceptPresent(old(table), hook, iface, isOut) then old(table) else Insert(old(table), hook, AcceptRule(iface, isOut))
    {
      hide Exists, WantAccept, AcceptRule, AcceptPresent, WellFormed;
      ExistsAccept(table, hook, iface, isOut);
      AcceptRuleFacts(iface, isOut);
      EnsureIdempotent(table, hook, WantAccept(iface, isOut), AcceptRule(iface, isOut));
      var found := RuleExistsInHook(table, hook, WantAccept(iface, isOut));
      if found {
        return;
      }
      var repl := InsertRuleAtHook(table, hook, AcceptRule(iface, isOut));
      table := repl.AsTable();
    }

    /** Insert -s <net> ! -d <net> -j MASQUERADE at the head of `hook` unless it is there. */
    method EnsureMasquerade(hook: nat, src: nat, mask: nat)
      requires Valid() && hook in table.hooks
      modifies this
      ensures Valid() && table == Ensure(old(table), hook, WantMasquerade(src, mask), MasqueradeRule(src, mask))
      ensures table == if MasqueradePresent(old(table), hook, src, mask) then old(table) else Insert(old(table), hook, MasqueradeRule(src, mask))
    {
      hide Exists, WantMasquerade, MasqueradeRule, MasqueradePresent, WellFormed;
      ExistsMasquerade(table, hook, src, mask);
      MasqueradeRuleOurs(src, mask);
      EnsureIdempotent(table, hook, WantMasquerade(src, mask), MasqueradeRule(src, mask));
      var found := RuleExistsInHook(table, hook, WantMasquerade(src, mask));
      if found {
        return;
      }
      var repl := InsertRuleAtHook(table, hook, MasqueradeRule(src, mask));
      table := repl.AsTable();
    }

    method RemoveRules(hook: nat, q: Fingerprint)
      requires Valid()
      modifies this
      ensures Valid() && table == RemoveMatching(old(table), hook, q)
    {
      var repl := RemoveMatchingRules(table, hook, q);
      if repl != null {
        MarksRemovable(table, hook, q);
        IptPreserve.RemoveKeepsWellFormed(table, hook, Marks(table, hook, q));
        table := repl.AsTable();
      }
    }

    /** What the program inserts for an interface when NAT comes up. */
    method InstallInterfaceRules(iface: string)
      requires Valid() && IsFilter(table) && IfaceArg(iface)
      modifies this
      ensures Valid() && IsFilter(table) && table == SetUp(old(table), iface)
    {
      hide WellFormed, Ensure, WantAccept, AcceptRule;
      TearDownForgetsSetUp(table, iface);
      if iface != "" {
        EnsureInserts(table, LOCAL_IN, iface, false);
        InsertIfaceAccept(LOCAL_IN, iface, false);
        EnsureInserts(table, FORWARD, iface, false);
        InsertIfaceAccept(FORWARD, iface, false);
        InsertIfaceAccept(FORWARD, iface, true);
      }
    }

    method RemoveInterfaceRules(iface: string)
      requires Valid()
      modifies this
      ensures Valid() && table == TearDown(old(table), iface)
    {
      if iface == "" {
        return;
      }
      RemoveRules(FORWARD, AcceptPrint(iface, false));
      RemoveRules(FORWARD, AcceptPrint(iface, true));
      RemoveRules(LOCAL_IN, AcceptPrint(iface, false));
    }
  }
}
