/** The rule table that IP_TABLES exchanges with user space: a blob of entries of
    unequal byte sizes, with every chain jump, hook entry and underflow given as
    an absolute byte offset into that blob. */
module IptTable {
  const SIZEOF_ENTRY := 112     // struct ipt_entry
  const SIZEOF_TARGET := 32     // struct xt_entry_target
  const SIZEOF_STANDARD := 40   // XT_ALIGN(struct xt_standard_target)
  const NUMHOOKS := 5           // NF_INET_NUMHOOKS
  const IFNAMSIZ := 16
  const ACCEPT_VERDICT := -2    // -NF_ACCEPT - 1
  const RETURN_VERDICT := -5    // XT_RETURN: -NF_REPEAT - 1

  const NO_NAME: string := "\0\0\0\0\0\0\0\0\0\0\0\0\0\0\0\0"
  const NO_MASK: seq<int> := [0, 0, 0, 0, 0, 0, 0, 0, 0, 0, 0, 0, 0, 0, 0, 0]

  type IfName = s: string | |s| == IFNAMSIZ witness NO_NAME
  type IfMask = s: seq<int> | |s| == IFNAMSIZ witness NO_MASK

  /** The fields of struct ipt_ip that the code reads or writes, the GOTO flag,
      and everything else a rule can match on (`rest`, empty when absent). */
  datatype IpMatch = IpMatch(
    src: nat, smsk: nat, dst: nat, dmsk: nat,
    inIface: IfName, outIface: IfName, inMask: IfMask, outMask: IfMask,
    invDst: bool, goto_: bool, rest: seq<int>)

  const ANY := IpMatch(0, 0, 0, 0, NO_NAME, NO_NAME, NO_MASK, NO_MASK, false, false, [])

  datatype Target = Target(size: nat, name: string, verdict: int, data: seq<int>)

  datatype Entry = Entry(size: nat, targetOff: nat, ip: IpMatch, target: Target)

  datatype Hook = Hook(entry: nat, underflow: nat)

  /** `hooks.Keys` is valid_hooks. */
  datatype Table = Table(hooks: map<nat, Hook>, size: nat, numEntries: nat, entries: seq<Entry>)

  // ----- byte offsets -----

  /** The byte offset at which entry `i` starts. */
  function Offset(es: seq<Entry>, i: nat): nat
    requires i <= |es|
  {
    if i == 0 then 0 else Offset(es, i - 1) + es[i - 1].size
  }

  /** The first index at or after `k` whose offset is at least `off`. */
  function IndexFrom(es: seq<Entry>, off: nat, k: nat): (r: nat)
    requires k <= |es|
    ensures k <= r <= |es|
    decreases |es| - k
  {
    if k == |es| || Offset(es, k) >= off then k else IndexFrom(es, off, k + 1)
  }

  function IndexAt(es: seq<Entry>, off: nat): (r: nat)
    ensures r <= |es|
  {
    IndexFrom(es, off, 0)
  }

  /** `off` is where some entry starts. */
  predicate IsStart(es: seq<Entry>, off: nat) {
    var k := IndexAt(es, off);
    k < |es| && Offset(es, k) == off
  }

  lemma {:induction false} IndexIsFirst(es: seq<Entry>, off: nat, k: nat, i: nat)
    requires k <= i <= |es| && (i < |es| ==> Offset(es, i) >= off)
    requires forall j :: k <= j < i ==> Offset(es, j) < off
    ensures IndexFrom(es, off, k) == i
    decreases |es| - k
  {
    if k < i {
      IndexIsFirst(es, off, k + 1, i);
    }
  }

  ghost predicate Sized(es: seq<Entry>) {
    forall i :: 0 <= i < |es| ==> es[i].size >= SIZEOF_ENTRY
  }

  lemma {:induction false} OffsetGrows(es: seq<Entry>, i: nat, j: nat)
    requires Sized(es) && i < j <= |es|
    ensures Offset(es, i) + es[i].size <= Offset(es, j)
    ensures Offset(es, i) < Offset(es, j)
    decreases j
  {
    if i + 1 < j {
      OffsetGrows(es, i, j - 1);
    }
  }

  /** Looking up the offset of an entry finds that entry. */
  lemma IndexOfOffset(es: seq<Entry>, i: nat)
    requires Sized(es) && i <= |es|
    ensures IndexAt(es, Offset(es, i)) == i
  {
    forall j | 0 <= j < i ensures Offset(es, j) < Offset(es, i) {
      OffsetGrows(es, j, i);
    }
    IndexIsFirst(es, Offset(es, i), 0, i);
  }

  lemma OffsetOrder(es: seq<Entry>, i: nat, j: nat)
    requires Sized(es) && i <= |es| && j <= |es|
    ensures Offset(es, i) < Offset(es, j) <==> i < j
    ensures Offset(es, i) == Offset(es, j) <==> i == j
  {
    if i < j {
      OffsetGrows(es, i, j);
    } else if j < i {
      OffsetGrows(es, j, i);
    }
  }

  /** Offsets depend on sizes only. */
  lemma {:induction false} OffsetSameSizes(es: seq<Entry>, fs: seq<Entry>, i: nat)
    requires i <= |es| && i <= |fs|
    requires forall j :: 0 <= j < i ==> es[j].size == fs[j].size
    ensures Offset(es, i) == Offset(fs, i)
  {
    if i > 0 {
      OffsetSameSizes(es, fs, i - 1);
    }
  }

  // ----- targets -----

  /** The test under which both fixups touch a verdict. */
  predicate IsStandard(e: Entry) {
    e.targetOff + SIZEOF_STANDARD <= e.size && e.target.name == "" && e.target.size == SIZEOF_STANDARD
  }

  predicate IsJump(e: Entry) {
    IsStandard(e) && e.target.verdict >= 0
  }

  predicate TargetIsAccept(t: Target) {
    t.name == "ACCEPT" || (t.name == "" && t.size >= SIZEOF_STANDARD && t.verdict == ACCEPT_VERDICT)
  }

  /** Matches every packet and ends the traversal: what the kernel demands of a
      chain policy. */
  predicate IsFinal(e: Entry) {
    e.ip == ANY && IsStandard(e) && e.target.verdict < 0 && e.target.verdict != RETURN_VERDICT
  }

  function WithVerdict(e: Entry, v: int): Entry {
    e.(target := e.target.(verdict := v))
  }

  // ----- well-formed tables -----

  predicate InHook(h: Hook, off: nat) {
    h.entry <= off < h.underflow
  }

  predicate EntryOk(e: Entry) {
    && e.size >= SIZEOF_ENTRY
    && e.targetOff + SIZEOF_TARGET <= e.size
    && (e.target.name == "" ==> IsStandard(e))
  }

  predicate HookOk(t: Table, h: Hook) {
    && h.entry <= h.underflow
    && IsStart(t.entries, h.entry)
    && IsStart(t.entries, h.underflow)
    && IsFinal(t.entries[IndexAt(t.entries, h.underflow)])
    && (h.entry > 0 ==>
          var k := IndexAt(t.entries, h.entry);
          k > 0 && IsFinal(t.entries[k - 1]))
  }

  predicate JumpOk(t: Table, i: nat)
    requires i < |t.entries|
  {
    var e := t.entries[i];
    IsJump(e) ==>
      && IsStart(t.entries, e.target.verdict)
      && (e.target.verdict == Offset(t.entries, i + 1)
          || forall h :: h in t.hooks ==> !InHook(t.hooks[h], e.target.verdict))
  }

  predicate Apart(t: Table, g: nat, h: nat)
    requires g in t.hooks && h in t.hooks
  {
    t.hooks[g].entry != t.hooks[h].entry
  }

  /** A table as the kernel hands it out: entries tile the blob, hooks and jumps
      point at entry starts, policies are final, a hook is never reached by
      falling into it, and a jump goes to the next entry or out of every hook. */
  ghost predicate WellFormed(t: Table) {
    && (forall i {:trigger EntryOk(t.entries[i])} :: 0 <= i < |t.entries| ==> EntryOk(t.entries[i]))
    && t.size == Offset(t.entries, |t.entries|)
    && t.numEntries == |t.entries|
    && (forall h {:trigger HookOk(t, t.hooks[h])} :: h in t.hooks ==> h < NUMHOOKS && HookOk(t, t.hooks[h]))
    && (forall g, h {:trigger Apart(t, g, h)} :: g in t.hooks && h in t.hooks && g != h ==> Apart(t, g, h))
    && (forall i {:trigger JumpOk(t, i)} :: 0 <= i < |t.entries| ==> JumpOk(t, i))
  }

  lemma SizedTable(t: Table)
    requires WellFormed(t)
    ensures Sized(t.entries)
  {
    forall i | 0 <= i < |t.entries| ensures t.entries[i].size >= SIZEOF_ENTRY {
      assert EntryOk(t.entries[i]);
    }
  }

  /** Facts about hook `h` in terms of entry indices. */
  lemma HookIndices(t: Table, h: nat) returns (k: nat, u: nat)
    requires WellFormed(t) && h in t.hooks
    ensures Sized(t.entries)
    ensures k == IndexAt(t.entries, t.hooks[h].entry) && Offset(t.entries, k) == t.hooks[h].entry
    ensures u == IndexAt(t.entries, t.hooks[h].underflow) && Offset(t.entries, u) == t.hooks[h].underflow
    ensures k <= u < |t.entries| && IsFinal(t.entries[u])
    ensures k > 0 ==> IsFinal(t.entries[k - 1])
  {
    assert HookOk(t, t.hooks[h]);
    SizedTable(t);
    k := IndexAt(t.entries, t.hooks[h].entry);
    u := IndexAt(t.entries, t.hooks[h].underflow);
    OffsetOrder(t.entries, u, k);
    OffsetOrder(t.entries, 0, k);
  }
}
