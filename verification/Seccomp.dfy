/** Classic BPF, the program that `ds_seccomp_apply_minimal` emits, and the policy
    that program decides. */
module Seccomp {
  import opened Common

  type word = bv32

  /** struct seccomp_data: 64-bit arguments, of which a 32-bit load at the
      argument's offset sees the low half. */
  datatype Data = Data(nr: word, arch: word, args: seq<bv64>)

  predicate DataOk(d: Data) {
    |d.args| == 6
  }

  function Low(x: bv64): word {
    (x & 0xFFFF_FFFF) as word
  }

  // ----- the machine -----

  datatype Field = Nr | Arch | Arg(i: nat)

  datatype Action = Kill | Errno(e: word) | Allow

  datatype Insn =
    | Ld(f: Field)
    | Jeq(k: word, jt: nat, jf: nat)
    | Jge(k: word, jt: nat, jf: nat)
    | Jset(k: word, jt: nat, jf: nat)
    | Ret(a: Action)

  function Load(f: Field, d: Data): word
    requires DataOk(d)
  {
    match f
    case Nr => d.nr
    case Arch => d.arch
    case Arg(i) => if i < 6 then Low(d.args[i]) else 0
  }

  /** `Fell(acc)`: control ran past the last instruction; a whole program must
      never do that. `OutOfRange` is a jump beyond that point. */
  datatype Result = Returned(a: Action) | Fell(acc: word) | OutOfRange

  datatype StepResult = Skip(n: nat, acc: word) | Stop(a: Action)

  function Step(i: Insn, acc: word, d: Data): StepResult
    requires DataOk(d)
  {
    match i
    case Ld(f) => Skip(0, Load(f, d))
    case Jeq(k, jt, jf) => Skip(if acc == k then jt else jf, acc)
    case Jge(k, jt, jf) => Skip(if acc >= k then jt else jf, acc)
    case Jset(k, jt, jf) => Skip(if acc & k != 0 then jt else jf, acc)
    case Ret(a) => Stop(a)
  }

  function Exec(p: seq<Insn>, pc: nat, acc: word, d: Data): Result
    requires DataOk(d) && pc <= |p|
    decreases |p| - pc
  {
    if pc == |p| then Fell(acc) else
    match Step(p[pc], acc, d)
    case Stop(a) => Returned(a)
    case Skip(n, acc') => if pc + 1 + n > |p| then OutOfRange else Exec(p, pc + 1 + n, acc', d)
  }

  predicate Fits(i: Insn, room: nat) {
    match i
    case Jeq(k, jt, jf) => jt <= room && jf <= room
    case Jge(k, jt, jf) => jt <= room && jf <= room
    case Jset(k, jt, jf) => jt <= room && jf <= room
    case _ => true
  }

  /** Every jump lands inside the block or just behind it. */
  predicate Closed(p: seq<Insn>) {
    forall i :: 0 <= i < |p| ==> Fits(p[i], |p| - i - 1)
  }

  /** Every jump of a whole program lands on one of its instructions, and every
      other instruction but a return has one behind it. */
  predicate Inside(p: seq<Insn>) {
    forall i :: 0 <= i < |p| ==> p[i].Ret? || (i + 1 < |p| && Fits(p[i], |p| - i - 2))
  }

  /** A closed block runs the same wherever it stands, and hands over to what
      stands behind it. */
  lemma {:induction false} ExecSeq(a: seq<Insn>, b: seq<Insn>, pc: nat, acc: word, d: Data)
    requires DataOk(d) && pc <= |a| && Closed(a)
    ensures Exec(a, pc, acc, d) != OutOfRange
    ensures Exec(a + b, pc, acc, d) ==
      match Exec(a, pc, acc, d)
      case Fell(acc') => Exec(a + b, |a|, acc', d)
      case r => r
    decreases |a| - pc
  {
    if pc < |a| {
      assert (a + b)[pc] == a[pc] && Fits(a[pc], |a| - pc - 1);
      match Step(a[pc], acc, d)
      case Stop(x) =>
      case Skip(n, acc') => ExecSeq(a, b, pc + 1 + n, acc', d);
    }
  }

  lemma {:induction false} ExecBehind(a: seq<Insn>, b: seq<Insn>, pc: nat, acc: word, d: Data)
    requires DataOk(d) && pc <= |b|
    ensures Exec(a + b, |a| + pc, acc, d) == Exec(b, pc, acc, d)
    decreases |b| - pc
  {
    if pc < |b| {
      assert (a + b)[|a| + pc] == b[pc];
      match Step(b[pc], acc, d)
      case Stop(x) =>
      case Skip(n, acc') =>
        if pc + 1 + n <= |b| {
          ExecBehind(a, b, pc + 1 + n, acc', d);
        }
    }
  }

  /** The meaning of a block: run from its start. */
  function Meaning(p: seq<Insn>, acc: word, d: Data): Result
    requires DataOk(d)
  {
    Exec(p, 0, acc, d)
  }

  lemma Sequence(a: seq<Insn>, b: seq<Insn>, acc: word, d: Data)
    requires DataOk(d) && Closed(a)
    ensures Meaning(a, acc, d) != OutOfRange
    ensures Meaning(a + b, acc, d) ==
      match Meaning(a, acc, d)
      case Fell(acc') => Meaning(b, acc', d)
      case r => r
  {
    ExecSeq(a, b, 0, acc, d);
    if Meaning(a, acc, d).Fell? {
      ExecBehind(a, b, 0, Meaning(a, acc, d).acc, d);
    }
  }

  lemma ClosedSeq(a: seq<Insn>, b: seq<Insn>)
    requires Closed(a) && Closed(b)
    ensures Closed(a + b)
  {
    forall i | 0 <= i < |a + b| ensures Fits((a + b)[i], |a + b| - i - 1) {
      if i < |a| {
        assert Fits(a[i], |a| - i - 1);
      } else {
        assert Fits(b[i - |a|], |b| - (i - |a|) - 1);
      }
    }
  }

  /** Such a program, entered anywhere, ends in a return. */
  lemma {:induction false} InsideReturns(p: seq<Insn>, pc: nat, acc: word, d: Data)
    requires DataOk(d) && pc < |p| && Inside(p)
    ensures Exec(p, pc, acc, d).Returned?
    decreases |p| - pc
  {
    match Step(p[pc], acc, d)
    case Stop(a) =>
    case Skip(n, acc') => InsideReturns(p, pc + 1 + n, acc', d);
  }

  lemma InsideSeq(a: seq<Insn>, b: seq<Insn>)
    requires Closed(a) && Inside(b) && b != []
    ensures Inside(a + b)
  {
    forall i | 0 <= i < |a + b| ensures (a + b)[i].Ret? || (i + 1 < |a + b| && Fits((a + b)[i], |a + b| - i - 2)) {
      if i < |a| {
        assert Fits(a[i], |a| - i - 1);
      } else {
        assert b[i - |a|].Ret? || Fits(b[i - |a|], |b| - (i - |a|) - 2);
      }
    }
  }

  // ----- the build -----

  const CAPACITY := 74   // of the static filter array

  /** What the target architecture defines. An absent number is an #ifdef that
      is off. */
  datatype Target = Target(
    auditArch: word, isX86_64: bool,
    initModule: word, finitModule: word, deleteModule: word, kexecLoad: word, kexecFileLoad: Option<word>,
    clone3: Option<word>, unshare: word, clone: word, socket: word, reboot: word,
    settimeofday: Option<word>, adjtimex: Option<word>, clockSettime: Option<word>,
    clockAdjtime: Option<word>, clockSettime64: Option<word>, keyctl: word)

  const X32_BIT: word := 0x4000_0000
  const CLONE_NEWUSER: word := 0x1000_0000
  const AF_ALG: word := 38
  const KSU_MAGIC1: word := 0xDEAD_BEEF
  const KSU_MAGIC2: word := 0xCAFE_BABE
  const ENOSYS: word := 38
  const EPERM: word := 1

  // ----- the policy -----

  predicate Is(nr: word, which: Option<word>) {
    which == Some(nr)
  }

  predicate KernelTakeover(t: Target, nr: word) {
    nr == t.initModule || nr == t.finitModule || nr == t.deleteModule || nr == t.kexecLoad || Is(nr, t.kexecFileLoad)
  }

  predicate SetsClock(t: Target, nr: word) {
    || Is(nr, t.settimeofday) || Is(nr, t.adjtimex) || Is(nr, t.clockSettime)
    || Is(nr, t.clockAdjtime) || Is(nr, t.clockSettime64)
  }

  predicate NewUserNamespace(t: Target, d: Data)
    requires DataOk(d)
  {
    (d.nr == t.unshare || d.nr == t.clone) && Low(d.args[0]) & CLONE_NEWUSER != 0
  }

  predicate KsuReboot(t: Target, d: Data)
    requires DataOk(d)
  {
    d.nr == t.reboot && Low(d.args[0]) == KSU_MAGIC1 && Low(d.args[1]) == KSU_MAGIC2
  }

  /** What happens to a system call. */
  function Policy(t: Target, sandboxing: bool, d: Data): Action
    requires DataOk(d)
  {
    if d.arch != t.auditArch then Kill
    else if t.isX86_64 && d.nr >= X32_BIT then Kill
    else if KernelTakeover(t, d.nr) then Kill
    else if !sandboxing && Is(d.nr, t.clone3) then Errno(ENOSYS)
    else if !sandboxing && NewUserNamespace(t, d) then Errno(EPERM)
    else if d.nr == t.socket && Low(d.args[0]) == AF_ALG then Errno(EPERM)
    else if KsuReboot(t, d) then Errno(EPERM)
    else if SetsClock(t, d.nr) then Errno(EPERM)
    else Allow
  }

  // ----- the program, block by block -----

  function ArchBlock(t: Target): seq<Insn> {
    [Ld(Arch), Jeq(t.auditArch, 1, 0), Ret(Kill), Ld(Nr)]
  }

  function X32Block(t: Target): seq<Insn> {
    if t.isX86_64 then [Jge(X32_BIT, 0, 1), Ret(Kill)] else []
  }

  /** One system call, one answer. */
  function Deny(nr: Option<word>, a: Action): seq<Insn> {
    match nr
    case None => []
    case Some(k) => [Jeq(k, 0, 1), Ret(a)]
  }

  function UnshareBlock(t: Target): seq<Insn> {
    [Jeq(t.unshare, 0, 4), Ld(Arg(0)), Jset(CLONE_NEWUSER, 0, 1), Ret(Errno(EPERM)), Ld(Nr)]
  }

  /** Leaves the argument in the accumulator when it falls through a clone. */
  function CloneBlock(t: Target): seq<Insn> {
    [Jeq(t.clone, 0, 3), Ld(Arg(0)), Jset(CLONE_NEWUSER, 0, 1), Ret(Errno(EPERM))]
  }

  function SocketBlock(t: Target): seq<Insn> {
    [Ld(Nr), Jeq(t.socket, 0, 4), Ld(Arg(0)), Jeq(AF_ALG, 0, 1), Ret(Errno(EPERM)), Ld(Nr)]
  }

  function RebootBlock(t: Target): seq<Insn> {
    [Ld(Nr), Jeq(t.reboot, 0, 6), Ld(Arg(0)), Jeq(KSU_MAGIC1, 0, 3), Ld(Arg(1)), Jeq(KSU_MAGIC2, 0, 1),
     Ret(Errno(EPERM)), Ld(Nr)]
  }

  function KillBlock(t: Target): seq<Insn> {
    Deny(Some(t.initModule), Kill) + (Deny(Some(t.finitModule), Kill) + (Deny(Some(t.deleteModule), Kill) +
    (Deny(Some(t.kexecLoad), Kill) + Deny(t.kexecFileLoad, Kill))))
  }

  function NamespaceBlock(t: Target, sandboxing: bool): seq<Insn> {
    if sandboxing then [] else Deny(t.clone3, Errno(ENOSYS)) + (UnshareBlock(t) + CloneBlock(t))
  }

  function ClockBlock(t: Target): seq<Insn> {
    Deny(t.settimeofday, Errno(EPERM)) + (Deny(t.adjtimex, Errno(EPERM)) + (Deny(t.clockSettime, Errno(EPERM)) +
    (Deny(t.clockAdjtime, Errno(EPERM)) + Deny(t.clockSettime64, Errno(EPERM)))))
  }

  function Program(t: Target, sandboxing: bool): seq<Insn> {
    ArchBlock(t) + (X32Block(t) + (KillBlock(t) + (NamespaceBlock(t, sandboxing) +
    (SocketBlock(t) + (RebootBlock(t) + (ClockBlock(t) + [Ret(Allow)]))))))
  }

  // ----- what each block does -----

  /** A block that, entered with the system call number in the accumulator,
      either answers or leaves the number there. */
  ghost predicate Guards(p: seq<Insn>, d: Data, fires: bool, a: Action)
    requires DataOk(d)
  {
    Closed(p) && Meaning(p, d.nr, d) == if fires then Returned(a) else Fell(d.nr)
  }

  lemma BlocksClosed(t: Target)
    ensures Closed(ArchBlock(t)) && Closed(X32Block(t)) && Closed(UnshareBlock(t)) && Closed(CloneBlock(t))
    ensures Closed(SocketBlock(t)) && Closed(RebootBlock(t))
  {
  }

  lemma DenyGuards(nr: Option<word>, a: Action, d: Data)
    requires DataOk(d)
    ensures Guards(Deny(nr, a), d, Is(d.nr, nr), a)
  {
    var p := Deny(nr, a);
    if nr.Some? {
      assert Exec(p, 2, d.nr, d) == Fell(d.nr);
      assert Exec(p, 1, d.nr, d) == Returned(a);
    }
  }

  lemma GuardsSeq(p: seq<Insn>, q: seq<Insn>, d: Data, f: bool, g: bool, a: Action)
    requires DataOk(d) && Guards(p, d, f, a) && Guards(q, d, g, a)
    ensures Guards(p + q, d, f || g, a)
  {
    Sequence(p, q, d.nr, d);
    ClosedSeq(p, q);
  }

  lemma ArchMeaning(t: Target, acc: word, d: Data)
    requires DataOk(d)
    ensures Meaning(ArchBlock(t), acc, d) == if d.arch != t.auditArch then Returned(Kill) else Fell(d.nr)
  {
    var p := ArchBlock(t);
    assert Exec(p, 4, d.nr, d) == Fell(d.nr);
    assert Exec(p, 3, d.arch, d) == Fell(d.nr);
    assert Exec(p, 2, d.arch, d) == Returned(Kill);
    assert Exec(p, 1, d.arch, d) == if d.arch != t.auditArch then Returned(Kill) else Fell(d.nr);
  }

  lemma X32Guards(t: Target, d: Data)
    requires DataOk(d)
    ensures Guards(X32Block(t), d, t.isX86_64 && d.nr >= X32_BIT, Kill)
  {
    var p := X32Block(t);
    if t.isX86_64 {
      assert Exec(p, 2, d.nr, d) == Fell(d.nr);
      assert Exec(p, 1, d.nr, d) == Returned(Kill);
    }
  }

  /** Five answers in a row answer if one of them does. */
  lemma Deny5(v: Option<word>, w: Option<word>, x: Option<word>, y: Option<word>, z: Option<word>, a: Action, d: Data)
    requires DataOk(d)
    ensures Guards(Deny(v, a) + (Deny(w, a) + (Deny(x, a) + (Deny(y, a) + Deny(z, a)))), d,
                   Is(d.nr, v) || Is(d.nr, w) || Is(d.nr, x) || Is(d.nr, y) || Is(d.nr, z), a)
  {
    hide Guards, Deny, Is;
    DenyGuards(v, a, d);
    DenyGuards(w, a, d);
    DenyGuards(x, a, d);
    DenyGuards(y, a, d);
    DenyGuards(z, a, d);
    var b4 := Deny(y, a) + Deny(z, a);
    var b3 := Deny(x, a) + b4;
    var b2 := Deny(w, a) + b3;
    var f4 := Is(d.nr, y) || Is(d.nr, z);
    var f3 := Is(d.nr, x) || f4;
    var f2 := Is(d.nr, w) || f3;
    GuardsSeq(Deny(y, a), Deny(z, a), d, Is(d.nr, y), Is(d.nr, z), a);
    GuardsSeq(Deny(x, a), b4, d, Is(d.nr, x), f4, a);
    GuardsSeq(Deny(w, a), b3, d, Is(d.nr, w), f3, a);
    GuardsSeq(Deny(v, a), b2, d, Is(d.nr, v), f2, a);
  }

  lemma KillGuards(t: Target, d: Data)
    requires DataOk(d)
    ensures Guards(KillBlock(t), d, KernelTakeover(t, d.nr), Kill)
  {
    Deny5(Some(t.initModule), Some(t.finitModule), Some(t.deleteModule), Some(t.kexecLoad), t.kexecFileLoad, Kill, d);
  }

  lemma ClockGuards(t: Target, d: Data)
    requires DataOk(d)
    ensures Guards(ClockBlock(t), d, SetsClock(t, d.nr), Errno(EPERM))
  {
    Deny5(t.settimeofday, t.adjtimex, t.clockSettime, t.clockAdjtime, t.clockSettime64, Errno(EPERM), d);
  }

  lemma UnshareMeaning(t: Target, d: Data)
    requires DataOk(d)
    ensures Meaning(UnshareBlock(t), d.nr, d) ==
      if d.nr == t.unshare && Low(d.args[0]) & CLONE_NEWUSER != 0 then Returned(Errno(EPERM)) else Fell(d.nr)
  {
    var p, x := UnshareBlock(t), Low(d.args[0]);
    assert Exec(p, 5, d.nr, d) == Fell(d.nr);
    assert Exec(p, 4, x, d) == Fell(d.nr);
    assert Exec(p, 3, x, d) == Returned(Errno(EPERM));
    assert Exec(p, 2, x, d) == if x & CLONE_NEWUSER != 0 then Returned(Errno(EPERM)) else Fell(d.nr);
    assert Exec(p, 1, d.nr, d) == Exec(p, 2, x, d);
  }

  /** Falling through a clone, the accumulator holds its flags, not the number. */
  lemma CloneMeaning(t: Target, d: Data)
    requires DataOk(d)
    ensures Meaning(CloneBlock(t), d.nr, d) ==
      if d.nr != t.clone then Fell(d.nr)
      else if Low(d.args[0]) & CLONE_NEWUSER != 0 then Returned(Errno(EPERM)) else Fell(Low(d.args[0]))
  {
    var p, x := CloneBlock(t), Low(d.args[0]);
    assert Exec(p, 4, d.nr, d) == Fell(d.nr) && Exec(p, 4, x, d) == Fell(x);
    assert Exec(p, 3, x, d) == Returned(Errno(EPERM));
    assert Exec(p, 2, x, d) == if x & CLONE_NEWUSER != 0 then Returned(Errno(EPERM)) else Fell(x);
    assert Exec(p, 1, d.nr, d) == Exec(p, 2, x, d);
  }

  /** Reloads the number first, so it does not matter what it is entered with. */
  lemma SocketMeaning(t: Target, acc: word, d: Data)
    requires DataOk(d)
    ensures Meaning(SocketBlock(t), acc, d) ==
      if d.nr == t.socket && Low(d.args[0]) == AF_ALG then Returned(Errno(EPERM)) else Fell(d.nr)
  {
    var p, x := SocketBlock(t), Low(d.args[0]);
    assert Exec(p, 6, d.nr, d) == Fell(d.nr);
    assert Exec(p, 5, x, d) == Fell(d.nr);
    assert Exec(p, 4, x, d) == Returned(Errno(EPERM));
    assert Exec(p, 3, x, d) == if x == AF_ALG then Returned(Errno(EPERM)) else Fell(d.nr);
    assert Exec(p, 2, d.nr, d) == Exec(p, 3, x, d);
    assert Exec(p, 1, d.nr, d) == if d.nr == t.socket then Exec(p, 3, x, d) else Fell(d.nr);
  }

  lemma RebootArguments(t: Target, d: Data)
    requires DataOk(d)
    ensures Exec(RebootBlock(t), 3, Low(d.args[0]), d) ==
      if Low(d.args[0]) == KSU_MAGIC1 && Low(d.args[1]) == KSU_MAGIC2 then Returned(Errno(EPERM)) else Fell(d.nr)
  {
    var p, x, y := RebootBlock(t), Low(d.args[0]), Low(d.args[1]);
    assert Exec(p, 8, d.nr, d) == Fell(d.nr);
    assert Exec(p, 7, x, d) == Fell(d.nr) && Exec(p, 7, y, d) == Fell(d.nr);
    assert Exec(p, 6, y, d) == Returned(Errno(EPERM));
    assert Exec(p, 5, y, d) == if y == KSU_MAGIC2 then Returned(Errno(EPERM)) else Fell(d.nr);
    assert Exec(p, 4, x, d) == Exec(p, 5, y, d);
  }

  lemma RebootMeaning(t: Target, acc: word, d: Data)
    requires DataOk(d)
    ensures Meaning(RebootBlock(t), acc, d) == if KsuReboot(t, d) then Returned(Errno(EPERM)) else Fell(d.nr)
  {
    var p, x := RebootBlock(t), Low(d.args[0]);
    RebootArguments(t, d);
    assert Exec(p, 8, d.nr, d) == Fell(d.nr);
    assert Exec(p, 2, d.nr, d) == Exec(p, 3, x, d);
    assert Exec(p, 1, d.nr, d) == if d.nr == t.reboot then Exec(p, 3, x, d) else Fell(d.nr);
  }

  /** The namespace block answers as the policy does; falling through it, the
      accumulator may hold anything. */
  lemma NamespaceMeaning(t: Target, sandboxing: bool, d: Data)
    requires DataOk(d)
    ensures Closed(NamespaceBlock(t, sandboxing))
    ensures var r := Meaning(NamespaceBlock(t, sandboxing), d.nr, d);
      if !sandboxing && Is(d.nr, t.clone3) then r == Returned(Errno(ENOSYS))
      else if !sandboxing && NewUserNamespace(t, d) then r == Returned(Errno(EPERM))
      else r.Fell?
  {
    BlocksClosed(t);
    if !sandboxing {
      DenyGuards(t.clone3, Errno(ENOSYS), d);
      UnshareMeaning(t, d);
      CloneMeaning(t, d);
      ClosedSeq(UnshareBlock(t), CloneBlock(t));
      ClosedSeq(Deny(t.clone3, Errno(ENOSYS)), UnshareBlock(t) + CloneBlock(t));
      Sequence(UnshareBlock(t), CloneBlock(t), d.nr, d);
      Sequence(Deny(t.clone3, Errno(ENOSYS)), UnshareBlock(t) + CloneBlock(t), d.nr, d);
    }
  }

  // ----- the whole program -----

  /** The blocks behind the namespace block, entered with anything at all. */
  function Tail(t: Target): seq<Insn> {
    SocketBlock(t) + (RebootBlock(t) + (ClockBlock(t) + [Ret(Allow)]))
  }

  lemma TailMeaning(t: Target, acc: word, d: Data)
    requires DataOk(d)
    ensures Inside(Tail(t)) && Tail(t) != []
    ensures Meaning(Tail(t), acc, d) == Returned(
      if d.nr == t.socket && Low(d.args[0]) == AF_ALG then Errno(EPERM)
      else if KsuReboot(t, d) then Errno(EPERM)
      else if SetsClock(t, d.nr) then Errno(EPERM)
      else Allow)
  {
    var c := ClockBlock(t) + [Ret(Allow)];
    var r := RebootBlock(t) + c;
    BlocksClosed(t);
    ClockGuards(t, d);
    RebootMeaning(t, d.nr, d);
    SocketMeaning(t, acc, d);
    Sequence(ClockBlock(t), [Ret(Allow)], d.nr, d);
    Sequence(RebootBlock(t), c, d.nr, d);
    Sequence(SocketBlock(t), r, acc, d);
    InsideSeq(ClockBlock(t), [Ret(Allow)]);
    InsideSeq(RebootBlock(t), c);
    InsideSeq(SocketBlock(t), r);
  }

  /** For every system call, every argument and every architecture tag, the
      program returns exactly what the policy says, whatever the accumulator
      holds at first. */
  lemma ProgramDecidesPolicy(t: Target, sandboxing: bool, acc: word, d: Data)
    requires DataOk(d)
    ensures Meaning(Program(t, sandboxing), acc, d) == Returned(Policy(t, sandboxing, d))
  {
    BlocksClosed(t);
    var n := NamespaceBlock(t, sandboxing) + Tail(t);
    var k := KillBlock(t) + n;
    var x := X32Block(t) + k;
    ArchMeaning(t, acc, d);
    X32Guards(t, d);
    KillGuards(t, d);
    NamespaceMeaning(t, sandboxing, d);
    var r := Meaning(NamespaceBlock(t, sandboxing), d.nr, d);
    TailMeaning(t, if r.Fell? then r.acc else 0, d);
    Sequence(NamespaceBlock(t, sandboxing), Tail(t), d.nr, d);
    Sequence(KillBlock(t), n, d.nr, d);
    Sequence(X32Block(t), k, d.nr, d);
    Sequence(ArchBlock(t), x, acc, d);
  }

  /** Every jump stays inside the program, and it fits the static array. */
  lemma ProgramClosed(t: Target, sandboxing: bool)
    ensures Inside(Program(t, sandboxing))
    ensures 0 < |Program(t, sandboxing)| <= 52 < CAPACITY
  {
    var d := Data(0, 0, [0, 0, 0, 0, 0, 0]);
    var n := NamespaceBlock(t, sandboxing) + Tail(t);
    var k := KillBlock(t) + n;
    BlocksClosed(t);
    X32Guards(t, d);
    KillGuards(t, d);
    NamespaceMeaning(t, sandboxing, d);
    TailMeaning(t, 0, d);
    InsideSeq(NamespaceBlock(t, sandboxing), Tail(t));
    InsideSeq(KillBlock(t), n);
    InsideSeq(X32Block(t), k);
    InsideSeq(ArchBlock(t), X32Block(t) + k);
  }

  /** Allowing sandboxing lifts the namespace rules and nothing else: the two
      programs disagree on exactly the calls those rules decide and no rule
      before them kills, nor, for a new user namespace, any rule after them stops. */
  lemma SandboxingLiftsNamespaceRules(t: Target, acc: word, d: Data)
    requires DataOk(d)
    ensures Meaning(Program(t, true), acc, d) != Meaning(Program(t, false), acc, d) <==>
      Policy(t, true, d) != Kill && (Is(d.nr, t.clone3) || (NewUserNamespace(t, d) && Policy(t, true, d) == Allow))
    ensures Meaning(Program(t, false), acc, d) == Returned(Allow) ==> Meaning(Program(t, true), acc, d) == Returned(Allow)
  {
    ProgramDecidesPolicy(t, true, acc, d);
    ProgramDecidesPolicy(t, false, acc, d);
  }

  // ----- the keyring filter for kernels below 5.0 -----

  function KeyringProgram(t: Target): seq<Insn> {
    ArchBlock(t) + (Deny(Some(t.keyctl), Errno(ENOSYS)) + [Ret(Allow)])
  }

  lemma KeyringProgramDecides(t: Target, acc: word, d: Data)
    requires DataOk(d)
    ensures Inside(KeyringProgram(t))
    ensures Meaning(KeyringProgram(t), acc, d) == Returned(
      if d.arch != t.auditArch then Kill else if d.nr == t.keyctl then Errno(ENOSYS) else Allow)
  {
    var k := Deny(Some(t.keyctl), Errno(ENOSYS));
    BlocksClosed(t);
    ArchMeaning(t, acc, d);
    DenyGuards(Some(t.keyctl), Errno(ENOSYS), d);
    Sequence(k, [Ret(Allow)], d.nr, d);
    Sequence(ArchBlock(t), k + [Ret(Allow)], acc, d);
    InsideSeq(k, [Ret(Allow)]);
    InsideSeq(ArchBlock(t), k + [Ret(Allow)]);
  }

  // ----- the builder -----

  lemma Assoc5(e: seq<Insn>, a: seq<Insn>, b: seq<Insn>, c: seq<Insn>, d: seq<Insn>, f: seq<Insn>)
    ensures e + a + b + c + d + f == e + (a + (b + (c + (d + f))))
  {
    Assoc(e + a + b + c, d, f);
    Assoc(e + a + b, c, d + f);
    Assoc(e + a, b, c + (d + f));
    Assoc(e, a, b + (c + (d + f)));
  }

  /** The static array the filter is built in, and how much of it is filled. */
  class FilterBuffer {
    const filter: array<Insn>
    var curr: nat

    ghost predicate Valid()
      reads this
    {
      filter.Length == CAPACITY && curr <= CAPACITY
    }

    function Emitted(): seq<Insn>
      requires Valid()
      reads this, filter
    {
      filter[..curr]
    }

    constructor ()
      ensures Valid() && Emitted() == [] && fresh(filter)
    {
      filter := new Insn[CAPACITY](_ => Ret(Kill));
      curr := 0;
    }

    method Add(i: Insn)
      requires Valid() && curr < CAPACITY
      modifies this, filter
      ensures Valid() && curr == old(curr) + 1 && Emitted() == old(Emitted()) + [i]
    {
      filter[curr] := i;
      curr := curr + 1;
    }

    method AddDeny(nr: Option<word>, a: Action)
      requires Valid() && curr + 2 <= CAPACITY
      modifies this, filter
      ensures Valid() && Emitted() == old(Emitted()) + Deny(nr, a) && curr == old(curr) + |Deny(nr, a)|
    {
      if nr.Some? {
        Add(Jeq(nr.value, 0, 1));
        Add(Ret(a));
      }
    }

    method AddTwo(i: Insn, j: Insn)
      requires Valid() && curr + 2 <= CAPACITY
      modifies this, filter
      ensures Valid() && curr == old(curr) + 2 && Emitted() == old(Emitted()) + [i, j]
    {
      Add(i);
      Add(j);
    }

    method AddArch(t: Target)
      requires Valid() && curr + 4 <= CAPACITY
      modifies this, filter
      ensures Valid() && Emitted() == old(Emitted()) + ArchBlock(t) && curr == old(curr) + 4
    {
      AddTwo(Ld(Arch), Jeq(t.auditArch, 1, 0));
      AddTwo(Ret(Kill), Ld(Nr));
      Assoc(old(Emitted()), [Ld(Arch), Jeq(t.auditArch, 1, 0)], [Ret(Kill), Ld(Nr)]);
    }

    method AddX32(t: Target)
      requires Valid() && curr + 2 <= CAPACITY
      modifies this, filter
      ensures Valid() && Emitted() == old(Emitted()) + X32Block(t) && curr <= old(curr) + 2
    {
      if t.isX86_64 {
        AddTwo(Jge(X32_BIT, 0, 1), Ret(Kill));
      }
    }

    method AddKills(t: Target)
      requires Valid() && curr + 10 <= CAPACITY
      modifies this, filter
      ensures Valid() && Emitted() == old(Emitted()) + KillBlock(t) && curr <= old(curr) + 10
    {
      AddDeny(Some(t.initModule), Kill);
      AddDeny(Some(t.finitModule), Kill);
      AddDeny(Some(t.deleteModule), Kill);
      AddDeny(Some(t.kexecLoad), Kill);
      AddDeny(t.kexecFileLoad, Kill);
      Assoc5(old(Emitted()), Deny(Some(t.initModule), Kill), Deny(Some(t.finitModule), Kill), Deny(Some(t.deleteModule), Kill),
             Deny(Some(t.kexecLoad), Kill), Deny(t.kexecFileLoad, Kill));
    }

    method AddUnshare(t: Target)
      requires Valid() && curr + 5 <= CAPACITY
      modifies this, filter
      ensures Valid() && Emitted() == old(Emitted()) + UnshareBlock(t) && curr == old(curr) + 5
    {
      AddTwo(Jeq(t.unshare, 0, 4), Ld(Arg(0)));
      AddTwo(Jset(CLONE_NEWUSER, 0, 1), Ret(Errno(EPERM)));
      Add(Ld(Nr));
    }

    method AddClone(t: Target)
      requires Valid() && curr + 4 <= CAPACITY
      modifies this, filter
      ensures Valid() && Emitted() == old(Emitted()) + CloneBlock(t) && curr == old(curr) + 4
    {
      AddTwo(Jeq(t.clone, 0, 3), Ld(Arg(0)));
      AddTwo(Jset(CLONE_NEWUSER, 0, 1), Ret(Errno(EPERM)));
    }

    method AddNamespaces(t: Target, sandboxing: bool)
      requires Valid() && curr + 11 <= CAPACITY
      modifies this, filter
      ensures Valid() && Emitted() == old(Emitted()) + NamespaceBlock(t, sandboxing) && curr <= old(curr) + 11
    {
      if !sandboxing {
        AddDeny(t.clone3, Errno(ENOSYS));
        AddUnshare(t);
        AddClone(t);
        Assoc(old(Emitted()) + Deny(t.clone3, Errno(ENOSYS)), UnshareBlock(t), CloneBlock(t));
        Assoc(old(Emitted()), Deny(t.clone3, Errno(ENOSYS)), UnshareBlock(t) + CloneBlock(t));
      }
    }

    method AddSocket(t: Target)
      requires Valid() && curr + 6 <= CAPACITY
      modifies this, filter
      ensures Valid() && Emitted() == old(Emitted()) + SocketBlock(t) && curr == old(curr) + 6
    {
      AddTwo(Ld(Nr), Jeq(t.socket, 0, 4));
      AddTwo(Ld(Arg(0)), Jeq(AF_ALG, 0, 1));
      AddTwo(Ret(Errno(EPERM)), Ld(Nr));
    }

    method AddReboot(t: Target)
      requires Valid() && curr + 8 <= CAPACITY
      modifies this, filter
      ensures Valid() && Emitted() == old(Emitted()) + RebootBlock(t) && curr == old(curr) + 8
    {
      AddTwo(Ld(Nr), Jeq(t.reboot, 0, 6));
      AddTwo(Ld(Arg(0)), Jeq(KSU_MAGIC1, 0, 3));
      assert Emitted() == old(Emitted()) + [Ld(Nr), Jeq(t.reboot, 0, 6), Ld(Arg(0)), Jeq(KSU_MAGIC1, 0, 3)];
      AddTwo(Ld(Arg(1)), Jeq(KSU_MAGIC2, 0, 1));
      AddTwo(Ret(Errno(EPERM)), Ld(Nr));
    }

    method AddClocks(t: Target)
      requires Valid() && curr + 10 <= CAPACITY
      modifies this, filter
      ensures Valid() && Emitted() == old(Emitted()) + ClockBlock(t) && curr <= old(curr) + 10
    {
      AddDeny(t.settimeofday, Errno(EPERM));
      AddDeny(t.adjtimex, Errno(EPERM));
      AddDeny(t.clockSettime, Errno(EPERM));
      AddDeny(t.clockAdjtime, Errno(EPERM));
      AddDeny(t.clockSettime64, Errno(EPERM));
      Assoc5(old(Emitted()), Deny(t.settimeofday, Errno(EPERM)), Deny(t.adjtimex, Errno(EPERM)),
             Deny(t.clockSettime, Errno(EPERM)), Deny(t.clockAdjtime, Errno(EPERM)), Deny(t.clockSettime64, Errno(EPERM)));
    }
  }

  /** The blocks in the order they are appended make up the program. */
  lemma EmittedIsProgram(t: Target, sandboxing: bool)
    ensures [] + ArchBlock(t) + X32Block(t) + KillBlock(t) + NamespaceBlock(t, sandboxing) + SocketBlock(t) + RebootBlock(t) +
      ClockBlock(t) + [Ret(Allow)] == Program(t, sandboxing)
  {
    var a, x, k, n, s, r, c, z := ArchBlock(t), X32Block(t), KillBlock(t), NamespaceBlock(t, sandboxing), SocketBlock(t),
      RebootBlock(t), ClockBlock(t), [Ret(Allow)];
    assert [] + a == a;
    Assoc5(a + x + k, n, s, r, c, z);
    Assoc(a + x, k, n + (s + (r + (c + z))));
    Assoc(a, x, k + (n + (s + (r + (c + z)))));
  }

  /** With noseccomp nothing is installed; otherwise the program that decides
      the policy is, and nothing else. */
  method ApplyMinimal(t: Target, noseccomp: bool, sandboxing: bool) returns (prog: Option<seq<Insn>>)
    ensures prog.None? <==> noseccomp
    ensures prog.Some? ==> |prog.value| <= CAPACITY && Inside(prog.value)
    ensures prog.Some? ==> forall acc, d: Data :: DataOk(d) ==> Meaning(prog.value, acc, d) == Returned(Policy(t, sandboxing, d))
  {
    if noseccomp {
      return None;
    }
    var b := new FilterBuffer();
    b.AddArch(t);
    b.AddX32(t);
    b.AddKills(t);
    b.AddNamespaces(t, sandboxing);
    b.AddSocket(t);
    b.AddReboot(t);
    b.AddClocks(t);
    b.Add(Ret(Allow));
    var p := b.Emitted();
    EmittedIsProgram(t, sandboxing);
    assert p == Program(t, sandboxing);
    ProgramClosed(t, sandboxing);
    forall acc, d: Data | DataOk(d) ensures Meaning(p, acc, d) == Returned(Policy(t, sandboxing, d)) {
      ProgramDecidesPolicy(t, sandboxing, acc, d);
    }
    return Some(p);
  }
}
