/** Keyboard input on its way from a client to the PTY master: frames, the write
    queue with its watermarks, and the epoll interest that follows it. */
module PtyFlow {
  import opened Common

  const IOBUF := 8192
  const WBUF_MAX := 262144   // PTY_WBUF_MAX, 256 KiB
  const WBUF_HIGH := 196608  // PTY_WBUF_HIGH, 192 KiB
  const WBUF_LOW := 65536    // PTY_WBUF_LOW, 64 KiB
  const MSG_OUT: byte := 1

  // ----- the queue as a value -----

  /** `armed` is EPOLLOUT on the master, `suspended` the absence of EPOLLIN on
      the connection. `sent` is what the master has taken and `accepted` the
      payloads received, in order. */
  datatype Flow = Flow(
    queue: seq<byte>, cap: nat, suspended: bool, armed: bool,
    sent: seq<byte>, accepted: seq<byte>, droppedFull: bool, droppedAlloc: bool)

  const IDLE := Flow([], 0, false, false, [], [], false, false)

  /** A frame with the result of the direct write and of realloc, should either
      be tried; or writability of the master with the results of the writes. */
  datatype Event = Frame(kind: byte, payload: seq<byte>, w: int, reallocOk: bool) | Writable(ws: seq<int>)

  predicate IsInput(e: Event) {
    e.Frame? && e.kind == MSG_OUT && 0 < |e.payload| <= IOBUF
  }

  /** The doubling loop, clamped before it can pass the cap. */
  function Grown(ncap: nat, need: nat): (r: nat)
    requires 0 < ncap <= WBUF_MAX && need <= WBUF_MAX
    ensures need <= r <= WBUF_MAX && ncap <= r
    decreases WBUF_MAX - ncap
  {
    if ncap >= need then ncap
    else if ncap > WBUF_MAX / 2 then WBUF_MAX
    else Grown(ncap * 2, need)
  }

  /** The capacity after making room for `need` bytes. */
  function Capacity(cap: nat, need: nat, reallocOk: bool): (r: nat)
    requires cap <= WBUF_MAX && need <= WBUF_MAX
    ensures cap <= r <= WBUF_MAX && (r < need ==> r == cap)
  {
    if need <= cap || !reallocOk then cap else Grown(if cap > 0 then cap else IOBUF, need)
  }

  /** Queue what the direct write left over, or drop it. */
  function Enqueue(s: Flow, rem: seq<byte>, reallocOk: bool): Flow
    requires s.cap <= WBUF_MAX
  {
    var need := |s.queue| + |rem|;
    if need > WBUF_MAX then s.(droppedFull := true) else
    var cap := Capacity(s.cap, need, reallocOk);
    if need > cap then s.(droppedAlloc := true)
    else s.(queue := s.queue + rem, cap := cap, armed := true, suspended := s.suspended || need >= WBUF_HIGH)
  }

  function Written(s: Flow, e: Event): nat
    requires e.Frame?
  {
    if s.queue == [] && e.w > 0 then e.w else 0
  }

  function OnFrame(s: Flow, e: Event): Flow
    requires e.Frame? && e.w <= |e.payload| && s.cap <= WBUF_MAX
  {
    if !IsInput(e) then s else
    var n := Written(s, e);
    var s1 := s.(sent := s.sent + e.payload[..n], accepted := s.accepted + e.payload);
    if n == |e.payload| then s1 else Enqueue(s1, e.payload[n..], e.reallocOk)
  }

  /** How many bytes a series of writes takes from a queue of `len`. */
  function Taken(len: nat, ws: seq<int>): (n: nat)
    ensures n <= len
    decreases |ws|
  {
    if len == 0 || ws == [] || ws[0] <= 0 || ws[0] > len then 0
    else ws[0] + Taken(len - ws[0], ws[1..])
  }

  function OnWritable(s: Flow, ws: seq<int>): Flow {
    var n := Taken(|s.queue|, ws);
    var rest := |s.queue| - n;
    s.(queue := s.queue[n..], sent := s.sent + s.queue[..n],
       armed := s.armed && rest > 0, suspended := s.suspended && rest >= WBUF_LOW)
  }

  /** epoll reports a frame only while input is not suspended, and writability
      only while EPOLLOUT is armed. A write takes no more than it is given. */
  predicate Enabled(s: Flow, e: Event) {
    match e
    case Frame(_, payload, w, _) => !s.suspended && w <= |payload|
    case Writable(_) => s.armed
  }

  function Next(s: Flow, e: Event): (r: Flow)
    requires Enabled(s, e) && s.cap <= WBUF_MAX
    ensures r.cap <= WBUF_MAX
  {
    if e.Frame? then OnFrame(s, e) else OnWritable(s, e.ws)
  }

  // ----- every run -----

  ghost predicate Backpressure(s: Flow) {
    && (s.suspended ==> |s.queue| >= WBUF_LOW)
    && (!s.suspended ==> |s.queue| < WBUF_HIGH)
    && (s.armed <==> s.queue != [])
    && |s.queue| <= s.cap <= WBUF_MAX
  }

  /** Nothing is lost to a full queue, and unless an allocation failed nothing
      is lost at all: what the master took, then what is queued, is what came in. */
  ghost predicate Conserved(s: Flow) {
    !s.droppedFull && (!s.droppedAlloc ==> s.sent + s.queue == s.accepted)
  }

  /** A frame's bytes are written or left over, in order. */
  lemma FrameSplits(s: Flow, e: Event)
    requires e.Frame? && e.w <= |e.payload|
    ensures var n := Written(s, e);
      s.sent + e.payload[..n] + (s.queue + e.payload[n..]) == s.sent + s.queue + e.payload
  {
    var n := Written(s, e);
    var head, tail := e.payload[..n], e.payload[n..];
    assert head + tail == e.payload;
    if s.queue == [] {
      assert s.sent + s.queue == s.sent && s.queue + tail == tail;
      Assoc(s.sent, head, tail);
    } else {
      assert head == [] && tail == e.payload;
      Assoc(s.sent, s.queue, e.payload);
    }
  }

  lemma FrameKeeps(s: Flow, e: Event)
    requires Backpressure(s) && Conserved(s) && Enabled(s, e) && e.Frame?
    ensures Backpressure(OnFrame(s, e))
    ensures Conserved(OnFrame(s, e))
    ensures OnFrame(s, e).droppedAlloc ==> s.droppedAlloc || !e.reallocOk
  {
    if IsInput(e) {
      FrameSplits(s, e);
      if Written(s, e) == |e.payload| {
        assert s.queue == [] && e.payload[|e.payload|..] == [];
        assert s.queue + e.payload[|e.payload|..] == [];
        assert s.sent + e.payload[..|e.payload|] + [] == s.sent + e.payload[..|e.payload|];
      }
    }
  }

  lemma WritableKeeps(s: Flow, ws: seq<int>)
    requires Backpressure(s) && Conserved(s)
    ensures Backpressure(OnWritable(s, ws)) && Conserved(OnWritable(s, ws))
  {
    var n := Taken(|s.queue|, ws);
    assert s.sent + s.queue[..n] + s.queue[n..] == s.sent + s.queue;
  }

  ghost predicate ValidRun(s: Flow, es: seq<Event>)
    requires s.cap <= WBUF_MAX
    decreases |es|
  {
    es == [] || (Enabled(s, es[0]) && ValidRun(Next(s, es[0]), es[1..]))
  }

  function After(s: Flow, es: seq<Event>): (r: Flow)
    requires s.cap <= WBUF_MAX && ValidRun(s, es)
    ensures r.cap <= WBUF_MAX
    decreases |es|
  {
    if es == [] then s else After(Next(s, es[0]), es[1..])
  }

  lemma {:induction false} RunKeeps(s: Flow, es: seq<Event>)
    requires Backpressure(s) && Conserved(s) && ValidRun(s, es)
    ensures Backpressure(After(s, es)) && Conserved(After(s, es))
    ensures After(s, es).droppedAlloc ==> s.droppedAlloc || exists i :: 0 <= i < |es| && es[i].Frame? && !es[i].reallocOk
    decreases |es|
  {
    if es != [] {
      if es[0].Frame? {
        FrameKeeps(s, es[0]);
      } else {
        WritableKeeps(s, es[0].ws);
      }
      RunKeeps(Next(s, es[0]), es[1..]);
      assert forall i :: 0 <= i < |es[1..]| ==> es[1..][i] == es[i + 1];
    }
  }

  /** All the payload bytes of input frames, in order. */
  function Inputs(es: seq<Event>): seq<byte> {
    if es == [] then [] else
    (match es[0]
     case Frame(kind, payload, _, _) => if kind == MSG_OUT && 1 <= |payload| <= 8192 then payload else []
     case Writable(_) => []) + Inputs(es[1..])
  }

  lemma AcceptedStep(s: Flow, e: Event)
    requires s.cap <= WBUF_MAX && Enabled(s, e)
    ensures Next(s, e).accepted == s.accepted + if IsInput(e) then e.payload else []
  {
  }

  lemma {:induction false} AcceptedAre(s: Flow, es: seq<Event>)
    requires s.cap <= WBUF_MAX && ValidRun(s, es)
    ensures After(s, es).accepted == s.accepted + Inputs(es)
    decreases |es|
  {
    if es != [] {
      AcceptedAre(Next(s, es[0]), es[1..]);
      AcceptedStep(s, es[0]);
      hide Next;
      assert s.accepted + Inputs(es) == Next(s, es[0]).accepted + Inputs(es[1..]);
    }
  }

  /** Keystroke conservation over every run: as long as no allocation fails,
      the bytes written to the master followed by the queue are exactly the
      payloads of 1 to 8192 bytes received, in order; and whatever happens the
      256 KiB limit never drops anything. */
  lemma KeystrokesConserved(es: seq<Event>)
    requires ValidRun(IDLE, es)
    ensures var s := After(IDLE, es);
      && !s.droppedFull
      && ((forall i :: 0 <= i < |es| && es[i].Frame? ==> es[i].reallocOk) ==> s.sent + s.queue == Inputs(es))
  {
    RunKeeps(IDLE, es);
    AcceptedAre(IDLE, es);
    hide After, ValidRun, Inputs;
    assert IDLE.accepted + Inputs(es) == Inputs(es);
  }

  /** The watermarks, in every run: whatever comes next, an active connection is
      suspended just when the queue reaches the high mark, and a suspended one stays
      so just as long as the queue holds the low mark. */
  lemma Hysteresis(es: seq<Event>, e: Event)
    requires ValidRun(IDLE, es) && Enabled(After(IDLE, es), e)
    ensures var s, s' := After(IDLE, es), Next(After(IDLE, es), e);
      s'.suspended <==> |s'.queue| >= if s.suspended then 65536 else 196608
  {
    RunKeeps(IDLE, es);
    hide After, ValidRun, Conserved;
  }

  /** An input frame that finds the queue empty goes straight to the master as far as
      the master takes it; one that finds it waiting is only queued. */
  lemma DirectWrite(s: Flow, e: Event)
    requires s.cap <= WBUF_MAX && Enabled(s, e) && e.Frame? && IsInput(e)
    ensures s.queue == [] && e.w > 0 ==> Next(s, e).sent == s.sent + e.payload[..e.w]
    ensures s.queue != [] || e.w <= 0 ==> Next(s, e).sent == s.sent
  {
    assert e.payload[..0] == [];
  }

  function Sum(ws: seq<int>): int {
    if ws == [] then 0 else ws[0] + Sum(ws[1..])
  }

  lemma {:induction false} SumPositive(ws: seq<int>)
    requires forall i :: 0 <= i < |ws| ==> ws[i] > 0
    ensures Sum(ws) >= 0
  {
    if ws != [] {
      SumPositive(ws[1..]);
    }
  }

  /** A flush takes what its writes take, up to the first that takes nothing or until
      the queue is empty. */
  lemma {:induction false} FlushTakes(len: nat, ws: seq<int>, rest: seq<int>)
    requires forall i :: 0 <= i < |ws| ==> ws[i] > 0
    requires Sum(ws) <= len && (Sum(ws) == len || rest == [] || rest[0] <= 0)
    ensures Taken(len, ws + rest) == Sum(ws)
    decreases |ws|
  {
    if ws == [] {
      assert ws + rest == rest;
    } else {
      SumPositive(ws[1..]);
      FlushTakes(len - ws[0], ws[1..], rest);
      assert (ws + rest)[1..] == ws[1..] + rest;
    }
  }

  function Doubled(n: nat, k: nat): nat {
    if k == 0 then n else 2 * Doubled(n, k - 1)
  }

  lemma {:induction false} DoubledTwice(n: nat, k: nat)
    ensures Doubled(2 * n, k) == Doubled(n, k + 1)
  {
    if k > 0 {
      DoubledTwice(n, k - 1);
    } else {
      assert Doubled(n, 1) == 2 * Doubled(n, 0);
    }
  }

  /** The buffer grows to the first doubling that suffices, or to the limit if that
      comes first. */
  lemma {:induction false} GrowthIsLeast(ncap: nat, need: nat) returns (k: nat)
    requires 0 < ncap <= WBUF_MAX && need <= WBUF_MAX
    ensures Doubled(ncap, k) >= need && (k > 0 ==> Doubled(ncap, k - 1) < need)
    ensures Grown(ncap, need) == if Doubled(ncap, k) > WBUF_MAX then WBUF_MAX else Doubled(ncap, k)
    decreases WBUF_MAX - ncap
  {
    if ncap >= need {
      k := 0;
    } else if ncap > WBUF_MAX / 2 {
      k := 1;
      assert Doubled(ncap, 1) == 2 * Doubled(ncap, 0) == 2 * ncap;
    } else {
      var j := GrowthIsLeast(2 * ncap, need);
      DoubledTwice(ncap, j);
      if j > 0 {
        DoubledTwice(ncap, j - 1);
      } else {
        assert Doubled(ncap, 0) == ncap;
      }
      k := j + 1;
    }
  }

  /** A suspended connection is waiting for an armed, non-empty queue, and a
      flush that the master takes whole resumes it. */
  lemma SuspendedCanResume(es: seq<Event>)
    requires ValidRun(IDLE, es) && After(IDLE, es).suspended
    ensures var s := After(IDLE, es);
      && s.armed && |s.queue| >= WBUF_LOW
      && !OnWritable(s, [|s.queue|]).suspended && !OnWritable(s, [|s.queue|]).armed
  {
    RunKeeps(IDLE, es);
  }

  // ----- the session object -----

  class Session {
    var wbuf: array<byte>
    var len: nat
    var suspended: bool
    var armed: bool
    var sent: seq<byte>
    var accepted: seq<byte>
    var droppedFull: bool
    var droppedAlloc: bool

    ghost predicate Valid()
      reads this
    {
      len <= wbuf.Length <= WBUF_MAX
    }

    function State(): Flow
      requires Valid()
      reads this, wbuf
    {
      Flow(wbuf[..len], wbuf.Length, suspended, armed, sent, accepted, droppedFull, droppedAlloc)
    }

    constructor ()
      ensures Valid() && State() == IDLE && fresh(wbuf)
    {
      wbuf := new byte[0];
      len, suspended, armed, sent, accepted := 0, false, false, [], [];
      droppedFull, droppedAlloc := false, false;
    }

    /** realloc: a larger buffer with the old bytes, or failure and no change. */
    method Realloc(ncap: nat, ok: bool)
      requires Valid() && wbuf.Length <= ncap <= WBUF_MAX
      modifies this`wbuf
      ensures Valid() && wbuf[..len] == old(wbuf[..len])
      ensures wbuf.Length == if ok then ncap else old(wbuf.Length)
      ensures wbuf == old(wbuf) || fresh(wbuf)
    {
      if ok {
        var nb := new byte[ncap](_ => 0);
        var i := 0;
        while i < len
          invariant i <= len && wbuf == old(wbuf)
          invariant forall j :: 0 <= j < i ==> nb[j] == wbuf[j]
        {
          nb[i] := wbuf[i];
          i := i + 1;
        }
        wbuf := nb;
      }
    }

    /** Grow by doubling from 8 KiB until `need` bytes fit. */
    method MakeRoom(need: nat, reallocOk: bool)
      requires Valid() && need <= WBUF_MAX
      modifies this`wbuf
      ensures Valid() && wbuf[..len] == old(wbuf[..len])
      ensures wbuf.Length == Capacity(old(wbuf.Length), need, reallocOk)
      ensures wbuf == old(wbuf) || fresh(wbuf)
    {
      if need > wbuf.Length {
        var start := if wbuf.Length > 0 then wbuf.Length else IOBUF;
        var ncap := start;
        while ncap < need
          invariant start <= ncap <= WBUF_MAX && Grown(start, need) == Grown(ncap, need)
          decreases WBUF_MAX - ncap
        {
          if ncap > WBUF_MAX / 2 {
            ncap := WBUF_MAX;
            break;
          }
          ncap := ncap * 2;
        }
        if ncap > WBUF_MAX {
          ncap := WBUF_MAX;
        }
        Realloc(ncap, reallocOk);
      }
    }

    /** Copies the part the master did not take behind the queue. */
    method CopyIn(payload: seq<byte>, written: nat)
      requires Valid() && written <= |payload| && len + |payload| - written <= wbuf.Length
      modifies wbuf
      ensures wbuf[..len + |payload| - written] == old(wbuf[..len]) + payload[written..]
    {
      var rem, i := |payload| - written, 0;
      while i < rem
        invariant i <= rem
        invariant forall j :: 0 <= j < len ==> wbuf[j] == old(wbuf[j])
        invariant forall j :: len <= j < len + i ==> wbuf[j] == payload[written + j - len]
      {
        wbuf[len + i] := payload[written + i];
        i := i + 1;
      }
    }

    method QueueRemainder(payload: seq<byte>, written: nat, reallocOk: bool)
      requires Valid() && written < |payload|
      modifies this, wbuf
      ensures Valid() && State() == Enqueue(old(State()), payload[written..], reallocOk)
      ensures wbuf == old(wbuf) || fresh(wbuf)
    {
      hide Grown, Capacity;
      var rem := |payload| - written;
      if len + rem <= WBUF_MAX {
        MakeRoom(len + rem, reallocOk);
        if len + rem <= wbuf.Length {
          CopyIn(payload, written);
          len := len + rem;
          armed := true;
          if !suspended && len >= WBUF_HIGH {
            suspended := true;
          }
        } else {
          droppedAlloc := true;
        }
      } else {
        droppedFull := true;
      }
    }

    /** One frame from the client. `w` is what a direct write to the master
        would return, `reallocOk` whether an allocation would succeed. */
    method ReceiveFrame(kind: byte, payload: seq<byte>, w: int, reallocOk: bool)
      requires Valid() && w <= |payload|
      modifies this, wbuf
      ensures Valid() && State() == OnFrame(old(State()), Frame(kind, payload, w, reallocOk))
      ensures wbuf == old(wbuf) || fresh(wbuf)
    {
      if kind == MSG_OUT && |payload| > 0 && |payload| <= IOBUF {
        var written := 0;
        if len == 0 {
          if w > 0 {
            written := w;
          }
        }
        sent := sent + payload[..written];
        accepted := accepted + payload;
        if |payload| - written > 0 {
          QueueRemainder(payload, written, reallocOk);
        }
      }
    }

    /** Moves what is still queued to the front of the buffer. */
    method MoveDown(w: nat)
      requires Valid() && w + len <= wbuf.Length
      modifies wbuf
      ensures wbuf[..len] == old(wbuf[w..w + len])
    {
      var i := 0;
      while i < len
        invariant i <= len
        invariant forall j :: 0 <= j < i ==> wbuf[j] == old(wbuf[w + j])
        invariant forall j :: i <= j < wbuf.Length ==> wbuf[j] == old(wbuf[j])
      {
        wbuf[i] := wbuf[w + i];
        i := i + 1;
      }
    }

    /** The master takes the first `w` bytes; the rest moves to the front. */
    method WriteOut(w: nat)
      requires Valid() && 0 < w <= len
      modifies this`sent, this`len, wbuf
      ensures Valid() && len == old(len) - w
      ensures wbuf[..len] == old(wbuf[..len])[w..] && sent == old(sent) + old(wbuf[..len])[..w]
    {
      sent := sent + wbuf[..w];
      len := len - w;
      MoveDown(w);
    }

    method WriteAll(ws: seq<int>)
      requires Valid()
      modifies this`sent, this`len, wbuf
      ensures Valid()
      ensures var n := Taken(old(len), ws);
        wbuf[..len] == old(wbuf[..len])[n..] && sent == old(sent) + old(wbuf[..len])[..n]
    {
      ghost var queue := wbuf[..len];
      ghost var n := 0;
      var k := 0;
      while len > 0 && k < |ws|
        invariant Valid() && k <= |ws|
        invariant n + len == |queue| && wbuf[..len] == queue[n..] && sent == old(sent) + queue[..n]
        invariant Taken(|queue|, ws) == n + Taken(len, ws[k..])
        decreases |ws| - k
      {
        var w := ws[k];
        if w <= 0 || w > len {
          break;
        }
        assert ws[k..][1..] == ws[k + 1..];
        assert queue[..n] + queue[n..][..w] == queue[..n + w];
        WriteOut(w);
        n := n + w;
        k := k + 1;
      }
    }

    /** Flush until the queue is empty or a write takes nothing, then follow
        with the epoll interest. */
    method Flush(ws: seq<int>)
      requires Valid()
      modifies this, wbuf
      ensures Valid() && wbuf == old(wbuf) && State() == OnWritable(old(State()), ws)
    {
      WriteAll(ws);
      if len == 0 {
        armed := false;
      }
      if suspended && len < WBUF_LOW {
        suspended := false;
      }
    }
  }
}
