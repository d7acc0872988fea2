/** The receive queue between the driver and the IP stack (chips/ws63/rf/src/netif_smoltcp.rs): four
    frame slots used as a ring, a count of the frames lost because all were taken, and the largest
    number queued, both since the last reset of the diagnostics. */
module RxQueue {
  import opened Arithmetic
  import opened RingBuffer
  import opened Words
  import opened Wrappers

  const MTU: nat := 1536
  const DEPTH: nat := 4
  const COUNTER_MAX: nat := WORD_LIMIT - 1

  type Frame = seq<Byte>

  datatype Event = Push(frame: Frame) | Pop | ResetDiagnostics

  /** What the ring stands for. */
  datatype Queue = Queue(frames: seq<Frame>, dropped: nat, highWatermark: nat)

  function Max(a: nat, b: nat): nat { if a > b then a else b }

  function Apply(q: Queue, e: Event): Queue {
    match e
    case Push(frame) =>
      if |frame| > MTU then q
      else if |q.frames| >= DEPTH then q.(dropped := Min(q.dropped + 1, COUNTER_MAX))
      else Queue(q.frames + [frame], q.dropped, Max(q.highWatermark, |q.frames| + 1))
    case Pop => if q.frames == [] then q else q.(frames := q.frames[1..])
    case ResetDiagnostics => Queue(q.frames, 0, |q.frames|)
  }

  const EMPTY := Queue([], 0, 0)

  /** The queue after the first n events of a run. */
  function After(events: seq<Event>, n: nat): Queue
    requires n <= |events|
  {
    if n == 0 then EMPTY else Apply(After(events, n - 1), events[n - 1])
  }

  /** How many frames wait after the first n events. */
  function Waiting(events: seq<Event>, n: nat): nat
    requires n <= |events|
  {
    |After(events, n).frames|
  }

  predicate IsAccepted(events: seq<Event>, i: nat)
    requires i < |events|
  {
    events[i].Push? && |events[i].frame| <= MTU && Waiting(events, i) < DEPTH
  }

  predicate IsDropped(events: seq<Event>, i: nat)
    requires i < |events|
  {
    events[i].Push? && |events[i].frame| <= MTU && Waiting(events, i) >= DEPTH
  }

  /** The frames taken in by the first n events, in order. */
  function Accepted(events: seq<Event>, n: nat): seq<Frame>
    requires n <= |events|
  {
    if n == 0 then []
    else Accepted(events, n - 1) + if IsAccepted(events, n - 1) then [events[n - 1].frame] else []
  }

  /** The frames handed out by the first n events, in order. */
  function Delivered(events: seq<Event>, n: nat): seq<Frame>
    requires n <= |events|
  {
    if n == 0 then []
    else
      var q := After(events, n - 1);
      Delivered(events, n - 1) + if events[n - 1].Pop? && q.frames != [] then [q.frames[0]] else []
  }

  /** Where the diagnostic window of the first n events starts: behind the last reset. */
  function WindowStart(events: seq<Event>, n: nat): (start: nat)
    requires n <= |events|
    ensures start <= n
  {
    if n == 0 then 0 else if events[n - 1].ResetDiagnostics? then n else WindowStart(events, n - 1)
  }

  /** Pushes of frames that fit a slot, and pushes dropped, among events start..n. */
  function InSize(events: seq<Event>, start: nat, n: nat): nat
    requires start <= n <= |events|
  {
    if n == start then 0
    else InSize(events, start, n - 1) + if events[n - 1].Push? && |events[n - 1].frame| <= MTU then 1 else 0
  }

  function Dropped(events: seq<Event>, start: nat, n: nat): nat
    requires start <= n <= |events|
  {
    if n == start then 0 else Dropped(events, start, n - 1) + if IsDropped(events, n - 1) then 1 else 0
  }

  /** First in, first out, nothing lost on the way. */
  lemma {:induction false} Fifo(events: seq<Event>, n: nat)
    requires n <= |events|
    ensures Accepted(events, n) == Delivered(events, n) + After(events, n).frames
  {
    if n > 0 {
      Fifo(events, n - 1);
      FifoStep(Accepted(events, n - 1), Delivered(events, n - 1), After(events, n - 1).frames, events[n - 1]);
    }
  }

  lemma FifoStep(accepted: seq<Frame>, delivered: seq<Frame>, waiting: seq<Frame>, e: Event)
    requires accepted == delivered + waiting
    ensures e.Push? ==> accepted + [e.frame] == delivered + (waiting + [e.frame])
    ensures waiting != [] ==> accepted == delivered + [waiting[0]] + waiting[1..]
  {
  }

  /** Never more than four frames wait, and each fits its slot. */
  lemma {:induction false} Bounded(events: seq<Event>, n: nat)
    requires n <= |events|
    ensures Waiting(events, n) <= DEPTH
    ensures forall f :: f in After(events, n).frames ==> |f| <= MTU
  {
    if n > 0 {
      Bounded(events, n - 1);
    }
  }

  /** In a window every frame that fits is accepted or counted as dropped, until the counter stops. */
  lemma {:induction false} WindowCounts(events: seq<Event>, n: nat)
    requires n <= |events|
    ensures var start := WindowStart(events, n);
            && InSize(events, start, n) == |Accepted(events, n)| - |Accepted(events, start)| + Dropped(events, start, n)
            && After(events, n).dropped == Min(Dropped(events, start, n), COUNTER_MAX)
  {
    if n > 0 {
      if !events[n - 1].ResetDiagnostics? {
        WindowCounts(events, n - 1);
      }
    }
  }

  /** A step inside a window raises the watermark to the number waiting behind it, or leaves it. */
  lemma WatermarkStep(q: Queue, e: Event)
    requires !e.ResetDiagnostics? && |q.frames| <= q.highWatermark
    ensures Apply(q, e).highWatermark == Max(q.highWatermark, |Apply(q, e).frames|)
  {
  }

  /** The high watermark is the largest number of waiting frames in the window. */
  lemma {:induction false} WatermarkIsMaximum(events: seq<Event>, n: nat)
    requires n <= |events|
    ensures forall k :: WindowStart(events, n) <= k <= n ==> Waiting(events, k) <= After(events, n).highWatermark
    ensures exists k :: WindowStart(events, n) <= k <= n && Waiting(events, k) == After(events, n).highWatermark
  {
    if n == 0 || events[n - 1].ResetDiagnostics? {
      assert Waiting(events, n) == After(events, n).highWatermark;
    } else {
      WatermarkIsMaximum(events, n - 1);
      assert Waiting(events, n - 1) <= After(events, n - 1).highWatermark;
      WatermarkStep(After(events, n - 1), events[n - 1]);
      MaximumExtends(events, n - 1, WindowStart(events, n), After(events, n - 1).highWatermark);
    }
  }

  lemma MaximumExtends(events: seq<Event>, n: nat, start: nat, high: nat)
    requires start <= n < |events|
    requires exists k :: start <= k <= n && Waiting(events, k) == high
    ensures exists k :: start <= k <= n + 1 && Waiting(events, k) == Max(high, Waiting(events, n + 1))
  {
    var k :| start <= k <= n && Waiting(events, k) == high;
    assert Waiting(events, if high > Waiting(events, n + 1) then k else n + 1) == Max(high, Waiting(events, n + 1));
  }

  // ----- the ring

  /** As much of the frame as the buffer holds, and the rest of the buffer as it was. */
  ghost predicate CopiedOut(frame: Frame, before: seq<Byte>, after: seq<Byte>, copied: Option<nat>) {
    var n := Min(|frame|, |before|);
    copied == Some(n) && after == frame[..n] + before[n..]
  }

  method CopyOut(frame: Frame, into: array<Byte>) returns (copied: nat)
    modifies into
    ensures CopiedOut(frame, old(into[..]), into[..], Some(copied))
  {
    copied := Min(|frame|, into.Length);
    forall j | 0 <= j < copied {
      into[j] := frame[j];
    }
    assert into[..] == frame[..copied] + old(into[..])[copied..];
  }

  class Bridge {
    const rx: array<seq<Byte>>
    const rxLen: array<nat>
    var rxHead: nat
    var rxCount: nat
    var rxDropped: nat
    var rxHighWatermark: nat

    ghost predicate Valid()
      reads this, rx, rxLen
    {
      && rx.Length == rxLen.Length == DEPTH
      && rxHead < DEPTH && rxCount <= DEPTH
      && forall k :: 0 <= k < DEPTH ==> |rx[k]| == MTU && rxLen[k] <= MTU
    }

    /** The frames in the slots. */
    ghost function Slots(): (slots: seq<Frame>)
      requires Valid()
      reads this, rx, rxLen
      ensures |slots| == DEPTH
    {
      [rx[0][..rxLen[0]], rx[1][..rxLen[1]], rx[2][..rxLen[2]], rx[3][..rxLen[3]]]
    }

    lemma SlotAt(k: nat)
      requires Valid() && k < DEPTH
      ensures Slots()[k] == rx[k][..rxLen[k]]
    {
    }

    /** The waiting frames, oldest first. */
    ghost function Frames(): (frames: seq<Frame>)
      requires Valid()
      reads this, rx, rxLen
      ensures |frames| == rxCount
    {
      Ring(Slots(), rxHead, rxCount)
    }

    ghost function View(): Queue
      requires Valid()
      reads this, rx, rxLen
    {
      Queue(Frames(), rxDropped, rxHighWatermark)
    }

    constructor ()
      ensures Valid() && View() == EMPTY
      ensures fresh(rx) && fresh(rxLen)
    {
      rx := new seq<Byte>[DEPTH](i => seq<Byte>(MTU, j => 0));
      rxLen := new nat[DEPTH](i => 0);
      rxHead, rxCount, rxDropped, rxHighWatermark := 0, 0, 0, 0;
    }

    method Store(slot: nat, frame: Frame)
      requires Valid() && slot < DEPTH && |frame| <= MTU
      modifies rx, rxLen
      ensures Valid() && Slots() == old(Slots())[slot := frame]
    {
      rx[slot] := frame + rx[slot][|frame|..];
      rxLen[slot] := |frame|;
      assert rx[slot][..|frame|] == frame;
    }

    /** `rx_push`. */
    method Push(frame: Frame)
      requires Valid()
      modifies this, rx, rxLen
      ensures Valid() && View() == Apply(old(View()), Event.Push(frame))
    {
      if |frame| > MTU {
        return;
      }
      if rxCount >= DEPTH {
        rxDropped := Min(rxDropped + 1, COUNTER_MAX);
        return;
      }
      RingAppend(Slots(), rxHead, rxCount, frame);
      var slot := (rxHead + rxCount) % DEPTH;
      Store(slot, frame);
      rxCount := rxCount + 1;
      rxHighWatermark := Max(rxHighWatermark, rxCount);
    }

    /** `rx_pop`: the oldest frame, cut to the size of the buffer. */
    method Pop(into: array<Byte>) returns (copied: Option<nat>)
      requires Valid()
      modifies `rxHead, `rxCount, into
      ensures Valid() && View() == Apply(old(View()), Event.Pop)
      ensures if old(Frames()) == [] then copied == None && into[..] == old(into[..])
              else CopiedOut(old(Frames())[0], old(into[..]), into[..], copied)
    {
      if rxCount == 0 {
        return None;
      }
      RingTake(Slots(), rxHead, rxCount);
      SlotAt(rxHead);
      var n := CopyOut(rx[rxHead][..rxLen[rxHead]], into);
      rxHead := (rxHead + 1) % DEPTH;
      rxCount := rxCount - 1;
      return Some(n);
    }

    /** `reset_rx_queue_diagnostics`. */
    method ResetDiagnostics()
      requires Valid()
      modifies `rxDropped, `rxHighWatermark
      ensures Valid() && View() == Apply(old(View()), Event.ResetDiagnostics)
    {
      rxDropped, rxHighWatermark := 0, rxCount;
    }
  }
}
