/** The boot handshake between monitor, intermediate and init: three pipes, made
    afresh for every reboot cycle, and processes that may fail or die at any step. */
module Handshake {
  import opened Common

  /** Which processes hold an open copy of one end of a pipe. */
  datatype Ends = Ends(mon: bool, mid: bool, init: bool) {
    predicate Any() {
      mon || mid || init
    }
  }

  /** `data` counts the messages in the pipe; each message is written and read whole. */
  datatype Pipe = Pipe(data: nat, w: Ends, r: Ends)

  /** HOST needs no network handshake; every other mode does it. */
  datatype Mode = Host | Networked

  /** `Waiting(true)` is the wait loop after a handshake, `Waiting(false)` after none. */
  datatype Monitor = Forked | ReadingPid | ClosingEnds | ReadingReady | Wiring | Rewiring | SendingDone | ClosingDone
                   | Waiting(linked: bool) | Gone

  datatype Intermediate = Unsharing | Forking | WritingPid | ClosingSync | WaitingInit | Exited(reboot: bool)

  datatype Handover = NoHandshake | Full | Incomplete

  /** `Dead(true)` is a death that the intermediate reports as a reboot. */
  datatype Init = Unborn | Starting | DroppingEnds | WritingReady | ClosingReady | ReadingDone
                | Running(got: Handover) | Dead(reboot: bool)

  datatype State = State(
    mode: Mode, mon: Monitor, mid: Intermediate, init: Init,
    sync: Pipe, ready: Pipe, done: Pipe,
    wired: bool, rewired: bool, midKilled: bool)

  /** Monitor right after forking the intermediate: both hold all ends. */
  function Cycle(mode: Mode): State {
    var p := Pipe(0, Ends(mode == Networked, mode == Networked, false), Ends(mode == Networked, mode == Networked, false));
    State(mode, Forked, Unsharing, Unborn, p, p, p, false, false, false)
  }

  /** One step of one process, a failing system call, a death, or a reboot. */
  datatype Label = Mon | Mid(ok: bool) | Ini | InitDies(reboot: bool) | KillMid | Reboot(next: Mode)

  // ----- pipe operations -----

  function Write(p: Pipe): Pipe {
    if p.r.Any() then p.(data := p.data + 1) else p
  }

  /** A read returns when there is a message or when no writer is left. */
  predicate ReadReturns(p: Pipe) {
    p.data > 0 || !p.w.Any()
  }

  function Consume(p: Pipe): Pipe {
    if p.data > 0 then p.(data := p.data - 1) else p
  }

  function MonDrops(p: Pipe): Pipe {
    p.(w := p.w.(mon := false), r := p.r.(mon := false))
  }

  function MidDrops(p: Pipe): Pipe {
    p.(w := p.w.(mid := false), r := p.r.(mid := false))
  }

  function InitDrops(p: Pipe): Pipe {
    p.(w := p.w.(init := false), r := p.r.(init := false))
  }

  /** A fork gives init a copy of every end the intermediate holds. */
  function InitInherits(p: Pipe): Pipe {
    p.(w := p.w.(init := p.w.mid), r := p.r.(init := p.r.mid))
  }

  // ----- the steps -----

  function MonStep(s: State): Option<State> {
    match s.mon
    case Forked =>
      if s.mode == Host then Some(s.(mon := Waiting(false)))
      else Some(s.(mon := ReadingPid, sync := s.sync.(w := s.sync.w.(mon := false))))
    case ReadingPid =>
      if !ReadReturns(s.sync) then None
      else Some(s.(mon := if s.sync.data > 0 then ClosingEnds else Waiting(false), sync := MonDrops(Consume(s.sync))))
    case ClosingEnds =>
      Some(s.(mon := ReadingReady, ready := s.ready.(w := s.ready.w.(mon := false)), done := s.done.(r := s.done.r.(mon := false))))
    case ReadingReady =>
      if !ReadReturns(s.ready) then None else Some(s.(mon := Wiring, ready := MonDrops(Consume(s.ready))))
    case Wiring => Some(s.(mon := Rewiring, wired := true))
    case Rewiring => Some(s.(mon := SendingDone, rewired := true))
    case SendingDone => Some(s.(mon := ClosingDone, done := Write(s.done)))
    case ClosingDone => Some(s.(mon := Waiting(true), done := MonDrops(s.done)))
    case Waiting(_) =>
      if s.mid.Exited? then Some(s.(mon := Gone, sync := MonDrops(s.sync), ready := MonDrops(s.ready), done := MonDrops(s.done)))
      else None
    case Gone => None
  }

  function MidExits(s: State, reboot: bool): State {
    s.(mid := Exited(reboot), sync := MidDrops(s.sync), ready := MidDrops(s.ready), done := MidDrops(s.done))
  }

  function MidStep(s: State, ok: bool): Option<State> {
    match s.mid
    case Unsharing => Some(if ok then s.(mid := Forking) else MidExits(s, false))
    case Forking =>
      if !ok then Some(MidExits(s, false))
      else Some(s.(mid := WritingPid, init := Starting,
                   sync := InitInherits(s.sync), ready := InitInherits(s.ready), done := InitInherits(s.done)))
    case WritingPid =>
      if s.mode == Host then Some(s.(mid := WaitingInit))
      else Some(s.(mid := ClosingSync, sync := Write(s.sync)))
    case ClosingSync => Some(s.(mid := WaitingInit, sync := MidDrops(s.sync)))
    case WaitingInit => if s.init.Dead? then Some(MidExits(s, s.init.reboot)) else None
    case Exited(_) => None
  }

  function InitStep(s: State): Option<State> {
    match s.init
    case Unborn => None
    case Starting =>
      if s.mode == Host then Some(s.(init := Running(NoHandshake)))
      else Some(s.(init := DroppingEnds, sync := InitDrops(s.sync)))
    case DroppingEnds =>
      Some(s.(init := WritingReady, ready := s.ready.(r := s.ready.r.(init := false)), done := s.done.(w := s.done.w.(init := false))))
    case WritingReady => Some(s.(init := ClosingReady, ready := Write(s.ready)))
    case ClosingReady => Some(s.(init := ReadingDone, ready := InitDrops(s.ready)))
    case ReadingDone =>
      if !ReadReturns(s.done) then None
      else Some(s.(init := Running(if s.done.data > 0 then Full else Incomplete), done := InitDrops(Consume(s.done))))
    case Running(_) => None
    case Dead(_) => None
  }

  function Next(s: State, l: Label): Option<State> {
    match l
    case Mon => MonStep(s)
    case Mid(ok) => MidStep(s, ok)
    case Ini => InitStep(s)
    case InitDies(reboot) =>
      if s.init.Unborn? || s.init.Dead? then None
      else Some(s.(init := Dead(reboot), sync := InitDrops(s.sync), ready := InitDrops(s.ready), done := InitDrops(s.done)))
    case KillMid => if s.mid.Exited? then None else Some(MidExits(s, false).(midKilled := true))
    case Reboot(next) => if s.mon.Waiting? && s.mid == Exited(true) then Some(Cycle(next)) else None
  }

  // ----- the invariant -----

  /** The monitor has not yet dropped its unused ends, or never will. */
  predicate Early(m: Monitor) {
    m.Forked? || m.ReadingPid? || m.ClosingEnds? || m == Waiting(false)
  }

  predicate Linked(m: Monitor) {
    m.ClosingEnds? || m.ReadingReady? || m.Wiring? || m.Rewiring? || m.SendingDone? || m.ClosingDone? || m == Waiting(true)
  }

  predicate Unread(m: Monitor) {
    m.Forked? || m.ReadingPid?
  }

  predicate Sent(m: Monitor) {
    m.ClosingDone? || m == Waiting(true)
  }

  predicate BeforeReady(i: Init) {
    i.Starting? || i.DroppingEnds? || i.WritingReady? || i.ClosingReady?
  }

  predicate MidSyncing(m: Intermediate) {
    m.Unsharing? || m.Forking? || m.WritingPid? || m.ClosingSync?
  }

  /** Who holds which end of which pipe, read off from where each process is. */
  ghost predicate SyncEnds(s: State) {
    var net, mid := s.mode == Networked, MidSyncing(s.mid);
    && s.sync.w == Ends(net && s.mon.Forked?, net && mid, net && s.init.Starting?)
    && s.sync.r == Ends(net && Unread(s.mon), net && mid, net && s.init.Starting?)
  }

  ghost predicate ReadyEnds(s: State) {
    var net, mid := s.mode == Networked, !s.mid.Exited?;
    && s.ready.w == Ends(net && Early(s.mon), net && mid, net && BeforeReady(s.init))
    && s.ready.r == Ends(net && (Early(s.mon) || s.mon.ReadingReady?), net && mid, net && (s.init.Starting? || s.init.DroppingEnds?))
  }

  ghost predicate DoneWriters(s: State) {
    var net, mid := s.mode == Networked, !s.mid.Exited?;
    s.done.w == Ends(net && s.mon != Waiting(true) && !s.mon.Gone?, net && mid, net && (s.init.Starting? || s.init.DroppingEnds?))
  }

  ghost predicate DoneReaders(s: State) {
    var net, mid := s.mode == Networked, !s.mid.Exited?;
    s.done.r == Ends(net && Early(s.mon), net && mid, net && (BeforeReady(s.init) || s.init.ReadingDone?))
  }

  ghost predicate DoneEnds(s: State) {
    DoneWriters(s) && DoneReaders(s)
  }

  /** Init is born after the fork and outlived by an intermediate nobody killed. */
  ghost predicate LifeInv(s: State) {
    && (s.mid.Unsharing? || s.mid.Forking? ==> s.init.Unborn?)
    && (s.mid.WritingPid? || s.mid.ClosingSync? || s.mid.WaitingInit? ==> !s.init.Unborn?)
    && (s.mid.Exited? && !s.midKilled ==> s.init.Unborn? || s.init.Dead?)
    && (s.mid == Exited(true) ==> s.init == Dead(true) && !s.midKilled)
    && (s.mid == Exited(false) && !s.midKilled && s.init.Dead? ==> s.init == Dead(false))
    && (s.midKilled ==> s.mid.Exited?)
    && (s.mon.Gone? ==> s.mid.Exited?)
  }

  /** Where the process id is while the monitor has not read it. */
  ghost predicate PidInv(s: State) {
    s.mode == Networked ==>
    && (Unread(s.mon) && (s.mid.ClosingSync? || s.mid.WaitingInit?) ==> s.sync.data > 0)
    && (Unread(s.mon) && s.mid.Exited? && s.sync.data == 0 && !s.midKilled ==> s.init.Unborn?)
    && (s.mon == Waiting(false) && !s.midKilled ==> s.init.Unborn? && s.mid.Exited?)
    && (s.sync.data > 0 ==> !s.init.Unborn?)
    && (Linked(s.mon) ==> !s.init.Unborn?)
  }

  /** A handshake in the pipe or received was sent after the wiring; one that
      was sent waits for init as long as init lives. */
  ghost predicate DoneInv(s: State) {
    && (s.mon.Rewiring? ==> s.wired)
    && (s.rewired ==> s.wired)
    && (s.mon.SendingDone? || Sent(s.mon) ==> s.rewired)
    && (s.done.data > 0 || s.init == Running(Full) ==> s.rewired)
    && (s.init == Running(Incomplete) ==> s.midKilled)
    && (s.init == Running(NoHandshake) ==> s.mode == Host)
    && (s.mode == Networked && Sent(s.mon) && (BeforeReady(s.init) || s.init.ReadingDone?) ==> s.done.data > 0)
  }

  ghost predicate HostInv(s: State) {
    s.mode == Host ==>
    && (s.mon.Forked? || s.mon == Waiting(false) || s.mon.Gone?)
    && (s.init.Unborn? || s.init.Starting? || s.init.Running? || s.init.Dead?)
  }

  /** Init's READY byte waits for the monitor. */
  ghost predicate ReadyInv(s: State) {
    s.mode == Networked && (Early(s.mon) || s.mon.ReadingReady?) && (s.init.ClosingReady? || s.init.ReadingDone? || s.init.Running?)
    ==> s.ready.data > 0
  }

  /** The monitor has not sent the handshake but still may. */
  predicate Unsent(m: Monitor) {
    Unread(m) || m.ClosingEnds? || m.ReadingReady? || m.Wiring? || m.Rewiring? || m.SendingDone?
  }

  predicate InWiring(m: Monitor) {
    m.Wiring? || m.Rewiring? || m.SendingDone?
  }

  /** A READY byte was written by an init past writing it, before the handshake is
      sent there is none and init does not run, and the wiring has an init that
      waits for it or died. */
  ghost predicate WiringInv(s: State) {
    s.mode == Networked ==>
    && (s.ready.data > 0 ==> s.init.ClosingReady? || s.init.ReadingDone? || s.init.Running? || s.init.Dead?)
    && (Unsent(s.mon) ==> s.done.data == 0 && !s.init.Running?)
    && (InWiring(s.mon) ==> s.init.ClosingReady? || s.init.ReadingDone? || s.init.Dead?)
  }

  ghost predicate Inv(s: State) {
    HostInv(s) && SyncEnds(s) && ReadyEnds(s) && DoneEnds(s) && LifeInv(s) && PidInv(s) && ReadyInv(s) && DoneInv(s) && WiringInv(s)
  }

  lemma MonKeepsSyncEnds(s: State)
    requires HostInv(s) && SyncEnds(s) && MonStep(s).Some?
    ensures SyncEnds(MonStep(s).value)
  {
    match s.mon
    case Forked =>
    case ReadingPid =>
    case ClosingEnds =>
    case ReadingReady =>
    case Wiring =>
    case Rewiring =>
    case SendingDone =>
    case ClosingDone =>
    case Waiting(_) =>
  }

  lemma MonKeepsReadyEnds(s: State)
    requires HostInv(s) && ReadyEnds(s) && MonStep(s).Some?
    ensures ReadyEnds(MonStep(s).value)
  {
    if s.mode == Networked {
      match s.mon
      case Forked =>
      case ReadingPid =>
      case ClosingEnds =>
      case ReadingReady =>
      case Wiring =>
      case Rewiring =>
      case SendingDone =>
      case ClosingDone =>
      case Waiting(_) =>
    }
  }

  lemma MonKeepsDoneWriters(s: State)
    requires DoneWriters(s) && MonStep(s).Some?
    ensures DoneWriters(MonStep(s).value)
  {
    match s.mon
    case Forked =>
    case ReadingPid =>
    case ClosingEnds =>
    case ReadingReady =>
    case Wiring =>
    case Rewiring =>
    case SendingDone =>
    case ClosingDone =>
    case Waiting(_) =>
  }

  lemma MonKeepsDoneReaders(s: State)
    requires DoneReaders(s) && MonStep(s).Some?
    ensures DoneReaders(MonStep(s).value)
  {
    match s.mon
    case Forked =>
    case ReadingPid =>
    case ClosingEnds =>
    case ReadingReady =>
    case Wiring =>
    case Rewiring =>
    case SendingDone =>
    case ClosingDone =>
    case Waiting(_) =>
  }

  lemma MonKeepsData(s: State)
    requires Inv(s) && MonStep(s).Some?
    ensures var s' := MonStep(s).value; HostInv(s') && LifeInv(s') && PidInv(s') && ReadyInv(s')
  {
    hide DoneReaders, DoneWriters, DoneInv;
    match s.mon
    case Forked =>
    case ReadingPid =>
    case ClosingEnds =>
    case ReadingReady =>
    case Wiring =>
    case Rewiring =>
    case SendingDone =>
    case ClosingDone =>
    case Waiting(_) =>
  }

  lemma MonKeepsDone(s: State)
    requires Inv(s) && MonStep(s).Some?
    ensures DoneInv(MonStep(s).value)
  {
    hide SyncEnds, ReadyEnds, PidInv, ReadyInv;
    match s.mon
    case Forked =>
    case ReadingPid =>
    case ClosingEnds =>
    case ReadingReady =>
    case Wiring =>
    case Rewiring =>
    case SendingDone =>
    case ClosingDone =>
    case Waiting(_) =>
  }

  lemma MidKeepsSyncEnds(s: State, ok: bool)
    requires HostInv(s) && SyncEnds(s) && MidStep(s, ok).Some? && (s.mid.Forking? ==> s.init.Unborn?)
    ensures SyncEnds(MidStep(s, ok).value)
  {
    match s.mid
    case Unsharing =>
    case Forking =>
    case WritingPid =>
    case ClosingSync =>
    case WaitingInit =>
  }

  lemma MidKeepsReadyEnds(s: State, ok: bool)
    requires HostInv(s) && ReadyEnds(s) && MidStep(s, ok).Some? && (s.mid.Forking? ==> s.init.Unborn?)
    ensures ReadyEnds(MidStep(s, ok).value)
  {
    if s.mode == Networked {
      match s.mid
      case Unsharing =>
      case Forking =>
      case WritingPid =>
      case ClosingSync =>
      case WaitingInit =>
    }
  }

  lemma MidKeepsDoneWriters(s: State, ok: bool)
    requires DoneWriters(s) && MidStep(s, ok).Some? && (s.mid.Forking? ==> s.init.Unborn?)
    ensures DoneWriters(MidStep(s, ok).value)
  {
    match s.mid
    case Unsharing =>
    case Forking =>
    case WritingPid =>
    case ClosingSync =>
    case WaitingInit =>
  }

  lemma MidKeepsDoneReaders(s: State, ok: bool)
    requires DoneReaders(s) && MidStep(s, ok).Some? && (s.mid.Forking? ==> s.init.Unborn?)
    ensures DoneReaders(MidStep(s, ok).value)
  {
    match s.mid
    case Unsharing =>
    case Forking =>
    case WritingPid =>
    case ClosingSync =>
    case WaitingInit =>
  }

  lemma MidKeepsData(s: State, ok: bool)
    requires Inv(s) && MidStep(s, ok).Some?
    ensures var s' := MidStep(s, ok).value; HostInv(s') && LifeInv(s') && PidInv(s') && ReadyInv(s') && DoneInv(s')
  {
    match s.mid
    case Unsharing =>
    case Forking =>
    case WritingPid =>
    case ClosingSync =>
    case WaitingInit =>
  }

  lemma InitKeepsSyncEnds(s: State)
    requires HostInv(s) && SyncEnds(s) && InitStep(s).Some?
    ensures SyncEnds(InitStep(s).value)
  {
    match s.init
    case Starting =>
    case DroppingEnds =>
    case WritingReady =>
    case ClosingReady =>
    case ReadingDone =>
  }

  lemma InitKeepsReadyEnds(s: State)
    requires HostInv(s) && ReadyEnds(s) && InitStep(s).Some?
    ensures ReadyEnds(InitStep(s).value)
  {
    if s.mode == Networked {
      match s.init
      case Starting =>
      case DroppingEnds =>
      case WritingReady =>
      case ClosingReady =>
      case ReadingDone =>
    }
  }

  lemma InitKeepsDoneEnds(s: State)
    requires HostInv(s) && DoneEnds(s) && InitStep(s).Some?
    ensures DoneEnds(InitStep(s).value)
  {
    if s.mode == Networked {
      match s.init
      case Starting =>
      case DroppingEnds =>
      case WritingReady =>
      case ClosingReady =>
      case ReadingDone =>
    }
  }

  lemma InitKeepsData(s: State)
    requires Inv(s) && InitStep(s).Some?
    ensures var s' := InitStep(s).value; HostInv(s') && LifeInv(s') && PidInv(s') && ReadyInv(s') && DoneInv(s')
  {
    match s.init
    case Starting =>
    case DroppingEnds =>
    case WritingReady =>
    case ClosingReady =>
    case ReadingDone =>
  }

  lemma MonKeepsWiring(s: State)
    requires Inv(s) && MonStep(s).Some?
    ensures WiringInv(MonStep(s).value)
  {
    hide DoneInv, HostInv;
    match s.mon
    case Forked =>
    case ReadingPid =>
    case ClosingEnds =>
    case ReadingReady =>
    case Wiring =>
    case Rewiring =>
    case SendingDone =>
    case ClosingDone =>
    case Waiting(_) =>
  }

  lemma MidKeepsWiring(s: State, ok: bool)
    requires Inv(s) && MidStep(s, ok).Some?
    ensures WiringInv(MidStep(s, ok).value)
  {
    hide DoneInv, HostInv;
    match s.mid
    case Unsharing =>
    case Forking =>
    case WritingPid =>
    case ClosingSync =>
    case WaitingInit =>
  }

  lemma InitKeepsWiring(s: State)
    requires Inv(s) && InitStep(s).Some?
    ensures WiringInv(InitStep(s).value)
  {
    hide DoneInv, HostInv;
    match s.init
    case Starting =>
    case DroppingEnds =>
    case WritingReady =>
    case ClosingReady =>
    case ReadingDone =>
  }

  lemma NextKeepsInv(s: State, l: Label)
    requires Inv(s) && Next(s, l).Some?
    ensures Inv(Next(s, l).value)
  {
    match l
    case Mon =>
      MonKeepsSyncEnds(s);
      MonKeepsReadyEnds(s);
      MonKeepsDoneWriters(s);
      MonKeepsDoneReaders(s);
      MonKeepsData(s);
      MonKeepsDone(s);
      MonKeepsWiring(s);
    case Mid(ok) =>
      MidKeepsSyncEnds(s, ok);
      MidKeepsReadyEnds(s, ok);
      MidKeepsDoneWriters(s, ok);
      MidKeepsDoneReaders(s, ok);
      MidKeepsData(s, ok);
      MidKeepsWiring(s, ok);
    case Ini =>
      InitKeepsSyncEnds(s);
      InitKeepsReadyEnds(s);
      InitKeepsDoneEnds(s);
      InitKeepsData(s);
      InitKeepsWiring(s);
    case _ =>
  }

  // ----- runs over any number of reboot cycles -----

  function Run(s: State, ls: seq<Label>): Option<State>
    decreases |ls|
  {
    if ls == [] then Some(s) else
    match Next(s, ls[0])
    case None => None
    case Some(s') => Run(s', ls[1..])
  }

  lemma {:induction false} RunKeepsInv(s: State, ls: seq<Label>)
    requires Inv(s) && Run(s, ls).Some?
    ensures Inv(Run(s, ls).value)
    decreases |ls|
  {
    if ls != [] {
      NextKeepsInv(s, ls[0]);
      RunKeepsInv(Next(s, ls[0]).value, ls[1..]);
    }
  }

  /** In any run and any reboot cycle outside host mode: init gets a full
      handshake only after the monitor finished this cycle's wiring and gateway
      rewire, and anything less only if the intermediate was killed; with the
      intermediate alive, no end-of-file can release init. */
  lemma HandshakeSafety(mode: Mode, ls: seq<Label>)
    requires Run(Cycle(mode), ls).Some?
    ensures var s := Run(Cycle(mode), ls).value;
      && (s.init == Running(Full) ==> s.wired && s.rewired)
      && (s.init == Running(Incomplete) ==> s.midKilled)
      && (s.init == Running(NoHandshake) ==> s.mode == Host)
      && (s.mode == Networked && s.init == ReadingDone && !s.mid.Exited? && ReadReturns(s.done) ==> s.done.data > 0 && s.rewired)
  {
    RunKeepsInv(Cycle(mode), ls);
  }

  /** In every run the intermediate reports a reboot exactly if it lived to see init
      die of one; so that, and nothing else, lets a waiting monitor boot again. */
  lemma RebootsAsInitDied(mode: Mode, ls: seq<Label>, next: Mode)
    requires Run(Cycle(mode), ls).Some?
    ensures var s := Run(Cycle(mode), ls).value;
      && (s.mid == Exited(true) ==> s.init == Dead(true))
      && (s.mid == Exited(false) && !s.midKilled && s.init.Dead? ==> s.init == Dead(false))
      && (Next(s, Reboot(next)).Some? <==> s.mon.Waiting? && s.mid.Exited? && !s.midKilled && s.init == Dead(true))
      && (Next(s, Reboot(next)).Some? ==> Next(s, Reboot(next)) == Some(Cycle(next)))
  {
    RunKeepsInv(Cycle(mode), ls);
  }

  /** The network is wired while init waits for it: from the start of the wiring
      until the handshake is sent, init has sent READY and not gone on, or died;
      nothing is in the pipe that could let it go on, and neither can end-of-file,
      even if the intermediate was killed. */
  lemma WiringWhileInitWaits(mode: Mode, ls: seq<Label>)
    requires Run(Cycle(mode), ls).Some?
    ensures var s := Run(Cycle(mode), ls).value;
      InWiring(s.mon) ==>
        && (s.init.ClosingReady? || s.init.ReadingDone? || s.init.Dead?)
        && s.done.data == 0 && !ReadReturns(s.done)
  {
    RunKeepsInv(Cycle(mode), ls);
  }

  // ----- no deadlock -----

  function MonRank(m: Monitor): nat {
    match m
    case Forked => 9
    case ReadingPid => 8
    case ClosingEnds => 7
    case ReadingReady => 6
    case Wiring => 5
    case Rewiring => 4
    case SendingDone => 3
    case ClosingDone => 2
    case Waiting(_) => 1
    case Gone => 0
  }

  function MidRank(m: Intermediate): nat {
    match m
    case Unsharing => 5
    case Forking => 4
    case WritingPid => 3
    case ClosingSync => 2
    case WaitingInit => 1
    case Exited(_) => 0
  }

  function InitRank(i: Init): nat {
    match i
    case Unborn => 7
    case Starting => 6
    case DroppingEnds => 5
    case WritingReady => 4
    case ClosingReady => 3
    case ReadingDone => 2
    case Running(_) => 1
    case Dead(_) => 0
  }

  /** How many steps are left at most before this cycle is over. */
  function Rank(s: State): nat {
    MonRank(s.mon) + MidRank(s.mid) + InitRank(s.init)
  }

  lemma MonLowersRank(s: State)
    requires MonStep(s).Some?
    ensures Rank(MonStep(s).value) < Rank(s)
  {
    match s.mon
    case Forked =>
    case ReadingPid =>
    case ClosingEnds =>
    case ReadingReady =>
    case Wiring =>
    case Rewiring =>
    case SendingDone =>
    case ClosingDone =>
    case Waiting(_) =>
  }

  lemma MidLowersRank(s: State, ok: bool)
    requires LifeInv(s) && MidStep(s, ok).Some?
    ensures Rank(MidStep(s, ok).value) < Rank(s)
  {
    match s.mid
    case Unsharing =>
    case Forking =>
    case WritingPid =>
    case ClosingSync =>
    case WaitingInit =>
  }

  lemma InitLowersRank(s: State)
    requires InitStep(s).Some?
    ensures Rank(InitStep(s).value) < Rank(s)
  {
    match s.init
    case Starting =>
    case DroppingEnds =>
    case WritingReady =>
    case ClosingReady =>
    case ReadingDone =>
  }

  lemma StepLowersRank(s: State, l: Label)
    requires LifeInv(s) && Next(s, l).Some? && !l.Reboot?
    ensures Rank(Next(s, l).value) < Rank(s)
  {
    hide LifeInv, MonStep, MidStep, InitStep;
    match l
    case Mon => MonLowersRank(s);
    case Mid(ok) => MidLowersRank(s, ok);
    case Ini => InitLowersRank(s);
    case _ =>
  }

  /** Within a cycle no run is longer than its rank. */
  lemma {:induction false} CycleIsBounded(s: State, ls: seq<Label>)
    requires Inv(s) && Run(s, ls).Some? && forall i :: 0 <= i < |ls| ==> !ls[i].Reboot?
    ensures |ls| + Rank(Run(s, ls).value) <= Rank(s)
    decreases |ls|
  {
    if ls != [] {
      StepLowersRank(s, ls[0]);
      NextKeepsInv(s, ls[0]);
      CycleIsBounded(Next(s, ls[0]).value, ls[1..]);
    }
  }

  /** No process can take a step of its own accord. */
  predicate Stuck(s: State) {
    Next(s, Mon).None? && Next(s, Mid(true)).None? && Next(s, Ini).None?
  }

  /** The only states in which nothing moves: the monitor gone with init, or the
      container up -- monitor in its wait loop, intermediate waiting for init,
      init running with a full handshake -- or, after a kill of the
      intermediate, the monitor gone. */
  lemma StuckMeansUp(s: State)
    requires Inv(s) && Stuck(s)
    ensures s.mon.Waiting? || s.mon.Gone?
    ensures s.mon.Waiting? ==> s.mid == WaitingInit && s.init.Running?
    ensures s.mon.Waiting? && s.mode == Networked ==> s.init == Running(Full) && s.wired && s.rewired
  {
    if s.init.Running? {
      match s.init.got
      case NoHandshake =>
      case Full =>
      case Incomplete =>
    }
  }

  /** Whatever fails or dies, and whoever runs when, the monitor reaches its wait
      loop: a cycle has at most 21 steps, and as long as the monitor is not
      waiting some process can step. */
  lemma MonitorReachesWaitLoop(mode: Mode, ls: seq<Label>)
    requires Run(Cycle(mode), ls).Some? && forall i :: 0 <= i < |ls| ==> !ls[i].Reboot?
    ensures |ls| <= 21
    ensures var s := Run(Cycle(mode), ls).value;
      !s.mon.Waiting? && !s.mon.Gone? ==> exists l: Label :: !l.Reboot? && !l.KillMid? && !l.InitDies? && Next(s, l).Some?
  {
    CycleIsBounded(Cycle(mode), ls);
    RunKeepsInv(Cycle(mode), ls);
    var s := Run(Cycle(mode), ls).value;
    if !s.mon.Waiting? && !s.mon.Gone? {
      if Stuck(s) {
        StuckMeansUp(s);
      }
      assert Next(s, Mon).Some? || Next(s, Mid(true)).Some? || Next(s, Ini).Some?;
    }
  }

  /** The same in every later cycle: a reboot starts the protocol afresh. */
  lemma EveryCycleReachesWaitLoop(mode: Mode, ls: seq<Label>)
    requires Run(Cycle(mode), ls).Some?
    ensures var s := Run(Cycle(mode), ls).value;
      Stuck(s) ==>
        (s.mon.Gone? || (s.mon.Waiting? && s.mid == WaitingInit && s.init.Running? &&
                         (s.mode == Networked ==> s.init == Running(Full) && s.wired && s.rewired)))
  {
    RunKeepsInv(Cycle(mode), ls);
    var s := Run(Cycle(mode), ls).value;
    if Stuck(s) {
      StuckMeansUp(s);
    }
  }
}
