/** The receive half of the software UART, and the proof that it decodes what the transmit half
    sends across two different bit periods, handler latency and any number of timer wraps. */
module SwUartRx {
  import opened Bytes
  import opened SwUartLine
  import opened Timer1
  import opened Words
  import Tx = SwUartTx

  const RING_SZ: nat := 8

  /** RX_DATA0 .. RX_DATA7 are `RxData` with the bit index beside it. */
  datatype Phase = RxIdle | RxConfirm | RxData | RxStop

  datatype Rx = Rx(phase: Phase, shift: byte, bitIndex: nat, deadline: word,
                   queue: seq<byte>, errors: word, mode: CcpMode, compare: word)

  const RESET: Rx := Rx(RxIdle, 0, 0, 0, [], 0, CaptureFalling, 0)

  function CountError(h: Rx): Rx {
    h.(errors := (h.errors + 1) % WRAP)
  }

  /** A decoded byte is dropped, and counted, when the ring is full. */
  function Push(h: Rx, b: byte): Rx {
    if |h.queue| >= RING_SZ then CountError(h) else h.(queue := h.queue + [b])
  }

  function ShiftIn(shift: byte, pin: bool): byte {
    (shift >> 1) | (if pin then 0x80 else 0)
  }

  /** A capture or compare event: `captured` is the capture register, `pin` the level the handler
      reads. */
  function RxEvent(h: Rx, captured: word, pin: bool, bitTime: word): Rx {
    var next := (h.deadline + bitTime) % WRAP;
    match h.phase
    case RxIdle =>
      var confirm := (captured + bitTime / 2) % WRAP;
      h.(phase := RxConfirm, deadline := confirm, compare := confirm, mode := CompareSoftIf)
    case RxConfirm =>
      if pin then h.(phase := RxIdle, mode := CaptureFalling)
      else h.(phase := RxData, shift := 0, bitIndex := 0, deadline := next, compare := next)
    case RxData =>
      h.(shift := ShiftIn(h.shift, pin), bitIndex := h.bitIndex + 1,
         phase := if h.bitIndex + 1 < 8 then RxData else RxStop, deadline := next, compare := next)
    case RxStop =>
      (if pin then Push(h, h.shift) else CountError(h)).(phase := RxIdle, mode := CaptureFalling)
  }

  // ---------- runs against a line ----------

  /** `decoded` records every byte handed to the ring, `delivered` those read out, `lost` those that
      met a full ring and `framing` the bad stop bits. */
  datatype RxWorld = RxWorld(rx: Rx, armed: nat, decoded: seq<byte>, delivered: seq<byte>, lost: nat, framing: nat)

  /** `Capture`: the pin falls at `edge`, and `latency` cycles later the handler reads the register,
      which holds the time `latched` of the latest fall. `Sample`: the compare matches and the handler
      reads the pin `latency` cycles later. `Take`: the application reads one byte. */
  datatype RxStep = Capture(edge: nat, latency: nat, latched: nat) | Sample(latency: nat) | Take

  ghost predicate NoFall(edges: seq<Edge>, lo: nat, hi: nat) {
    forall t: nat :: lo < t < hi ==> !Falling(edges, t)
  }

  ghost predicate Valid(w: RxWorld, edges: seq<Edge>, s: RxStep, maxLatency: nat) {
    match s
    case Capture(edge, latency, latched) =>
      && w.rx.mode == CaptureFalling && latency <= maxLatency
      && w.armed < edge && Falling(edges, edge) && NoFall(edges, w.armed, edge)
      && edge <= latched <= edge + latency && Falling(edges, latched) && NoFall(edges, latched, edge + latency + 1)
    case Sample(latency) => w.rx.mode == CompareSoftIf && latency <= maxLatency
    case Take => true
  }

  function Step(w: RxWorld, edges: seq<Edge>, s: RxStep, bitTime: word): RxWorld {
    match s
    case Capture(edge, latency, latched) =>
      w.(rx := RxEvent(w.rx, Counter(latched), PinAt(edges, edge + latency), bitTime), armed := edge + latency)
    case Sample(latency) =>
      var at := NextMatch(w.armed, w.rx.compare) + latency;
      var pin := PinAt(edges, at);
      var stop := w.rx.phase == RxStop;
      w.(rx := RxEvent(w.rx, 0, pin, bitTime), armed := at,
         decoded := if stop && pin then w.decoded + [w.rx.shift] else w.decoded,
         lost := if stop && pin && |w.rx.queue| >= RING_SZ then w.lost + 1 else w.lost,
         framing := if stop && !pin then w.framing + 1 else w.framing)
    case Take =>
      if w.rx.queue == [] then w
      else w.(rx := w.rx.(queue := w.rx.queue[1..]), delivered := w.delivered + [w.rx.queue[0]])
  }

  function Run(w: RxWorld, edges: seq<Edge>, steps: seq<RxStep>, bitTime: word): RxWorld
    decreases steps
  {
    if steps == [] then w else Run(Step(w, edges, steps[0], bitTime), edges, steps[1..], bitTime)
  }

  ghost predicate ValidRun(w: RxWorld, edges: seq<Edge>, steps: seq<RxStep>, bitTime: word, maxLatency: nat)
    decreases steps
  {
    steps == [] ||
    (Valid(w, edges, steps[0], maxLatency) &&
     ValidRun(Step(w, edges, steps[0], bitTime), edges, steps[1..], bitTime, maxLatency))
  }

  /** The receiver as initialised at time `armed`. */
  function Start(armed: nat): RxWorld {
    RxWorld(RESET, armed, [], [], 0, 0)
  }

  // ---------- timing ----------

  /** The drift and latency budget between a transmit bit time `t` and a receive bit time `r`. */
  predicate Tolerates(t: nat, r: nat, maxLatency: nat) {
    && maxLatency < r / 2
    && r / 2 + 9 * r + maxLatency < 10 * t
    && 9 * t <= r / 2 + 9 * r
  }

  /** Every sample of a frame, however late its handler, falls inside the bit cell it is meant for. */
  lemma SampleInCell(t: nat, r: nat, maxLatency: nat, k: nat, latency: nat)
    requires Tolerates(t, r, maxLatency) && k <= 9 && latency <= maxLatency
    ensures k * t <= r / 2 + k * r && r / 2 + k * r + latency < (k + 1) * t
  {
    if k <= 4 {
      if k == 0 {} else if k == 1 {} else if k == 2 {} else if k == 3 {} else {}
    } else {
      if k == 5 {} else if k == 6 {} else if k == 7 {} else if k == 8 {} else {}
    }
  }

  /** The confirming compare, armed by the capture handler, matches half a bit after the start edge just
      when the handler arms it before that. */
  lemma ConfirmIsTimelyIff(start: nat, latency: nat, r: word)
    ensures NextMatch(start + latency, (Counter(start) + r / 2) % WRAP) == start + r / 2 <==> latency < r / 2
  {
    CounterAdd(start, r / 2);
    if latency < r / 2 {
      MatchIsExact(start + latency, start + r / 2);
    }
  }

  /** The budget is exact: it holds just when, for every latency it allows, the confirming compare is
      armed in time and all ten samples fall inside their cells. */
  lemma BudgetIsExact(t: nat, r: nat, maxLatency: nat)
    ensures Tolerates(t, r, maxLatency)
            <==> forall k: nat, latency: nat {:trigger SampledInCell(t, r, k, latency)} ::
                   k <= 9 && latency <= maxLatency ==> latency < r / 2 && SampledInCell(t, r, k, latency)
  {
    if Tolerates(t, r, maxLatency) {
      forall k: nat, latency: nat | k <= 9 && latency <= maxLatency
        ensures SampledInCell(t, r, k, latency)
      {
        SampleInCell(t, r, maxLatency, k, latency);
      }
    } else {
      assert !SampledInCell(t, r, 9, maxLatency) || !(maxLatency < r / 2);
    }
  }

  predicate SampledInCell(t: nat, r: nat, k: nat, latency: nat) {
    k * t <= r / 2 + k * r && r / 2 + k * r + latency < (k + 1) * t
  }

  // ---------- what every run keeps ----------

  /** The shift register after the low `i` bits of `b` have been sampled. */
  function Received(b: byte, i: nat): byte {
    if i == 0 then 0 else ShiftIn(Received(b, i - 1), Bit(b, i - 1))
  }

  lemma ReceivedAll(b: byte)
    ensures Received(b, 8) == b
  {
    ShiftedIs(b);
    assert Received(b, 1) == b << 7 && Received(b, 2) == b << 6;
    assert Received(b, 3) == b << 5 && Received(b, 4) == b << 4;
    assert Received(b, 5) == b << 3 && Received(b, 6) == b << 2 && Received(b, 7) == b << 1;
  }

  /** The receiver waits for the sample of cell `k` of frame `f`. */
  ghost predicate Awaits(w: RxWorld, f: Frame, k: nat, r: word) {
    && k <= 9 && w.rx.mode == CompareSoftIf
    && w.rx.deadline == w.rx.compare
    && NextMatch(w.armed, w.rx.compare) == f.start + r / 2 + k * r
    && InCell(w.rx, f.data, k)
  }

  predicate InCell(h: Rx, b: byte, k: nat) {
    && (k == 0 ==> h.phase == RxConfirm)
    && (1 <= k <= 8 ==> h.phase == RxData && h.bitIndex == k - 1 && h.shift == Received(b, k - 1))
    && (k == 9 ==> h.phase == RxStop && h.shift == Received(b, 8))
  }

  lemma NextCell(h: Rx, b: byte, k: nat, bitTime: word)
    requires k <= 8 && InCell(h, b, k) && h.mode == CompareSoftIf
    ensures var h' := RxEvent(h, 0, FrameLevel(b, k), bitTime);
            && InCell(h', b, k + 1) && h'.mode == CompareSoftIf
            && h'.queue == h.queue && h'.errors == h.errors
            && h'.deadline == h'.compare == (h.deadline + bitTime) % WRAP
  {
  }

  /** The receiver waits for the next start edge while the line is in its stop cell or idle. */
  ghost predicate Listens(w: RxWorld, frames: seq<Frame>, t: nat) {
    var n := |w.decoded|;
    && n <= |frames| && w.rx.phase == RxIdle && w.rx.mode == CaptureFalling
    && (0 < n ==> frames[n - 1].start + 9 * t <= w.armed < frames[n - 1].start + 10 * t)
    && (n == 0 && frames != [] ==> w.armed < frames[0].start)
  }

  ghost predicate Waits(w: RxWorld, frames: seq<Frame>, t: nat, r: word) {
    Listens(w, frames, t) ||
    (|w.decoded| < |frames| && exists k: nat :: Awaits(w, frames[|w.decoded|], k, r))
  }

  /** Everything decoded is a prefix of what was sent, and every decoded byte is delivered, queued
      or counted as lost. */
  ghost predicate Inv(w: RxWorld, frames: seq<Frame>, t: nat, r: word) {
    && |w.decoded| <= |frames|
    && w.decoded == Payload(frames[..|w.decoded|])
    && Waits(w, frames, t, r)
    && Accounted(w)
  }

  ghost predicate Accounted(w: RxWorld) {
    && w.framing == 0
    && |w.decoded| == |w.delivered| + |w.rx.queue| + w.lost
    && w.rx.errors == w.lost % WRAP
    && (w.lost == 0 ==> w.decoded == w.delivered + w.rx.queue)
  }

  /** While listening, the line stays high until the next frame starts. */
  lemma QuietUntilStart(w: RxWorld, edges: seq<Edge>, frames: seq<Frame>, t: nat, x: nat)
    requires Complete(edges, frames, t) && |w.decoded| <= |frames| && Listens(w, frames, t)
    requires w.armed <= x && (|w.decoded| < |frames| ==> x < frames[|w.decoded|].start)
    ensures PinAt(edges, x)
  {
    var n := |w.decoded|;
    if 0 < n {
      PinInCell(edges, frames, t, n - 1, 9, x);
    } else {
      PinBeforeFirst(edges, frames, t, x);
    }
  }

  /** So the only event the receiver can see is the fall at the next start, and the capture register
      still holds its time when the handler reads it. */
  lemma CaptureIsStart(w: RxWorld, edges: seq<Edge>, frames: seq<Frame>, t: nat, s: RxStep, maxLatency: nat)
    requires Complete(edges, frames, t) && |w.decoded| <= |frames| && Listens(w, frames, t)
    requires s.Capture? && Valid(w, edges, s, maxLatency) && maxLatency < t
    ensures |w.decoded| < |frames| && s.edge == s.latched == frames[|w.decoded|].start
  {
    var n := |w.decoded|;
    if n == |frames| || s.edge < frames[n].start {
      QuietUntilStart(w, edges, frames, t, s.edge);
      assert false;
    }
    StartFalls(w, edges, frames, t);
    assert s.edge == frames[n].start;
    if s.latched > s.edge {
      PinInCell(edges, frames, t, n, 0, s.latched);
      PinInCell(edges, frames, t, n, 0, s.latched - 1);
    }
  }

  lemma StartFalls(w: RxWorld, edges: seq<Edge>, frames: seq<Frame>, t: nat)
    requires Complete(edges, frames, t) && |w.decoded| < |frames| && Listens(w, frames, t)
    ensures var e := frames[|w.decoded|].start;
            w.armed < e && Falling(edges, e) && NoFall(edges, w.armed, e)
  {
    var e := frames[|w.decoded|].start;
    ArmedBeforeStart(w, frames, t);
    forall x: nat | w.armed <= x < e
      ensures PinAt(edges, x)
    {
      QuietUntilStart(w, edges, frames, t, x);
    }
    PinInCell(edges, frames, t, |w.decoded|, 0, e);
    FallsAt(edges, w.armed, e);
  }

  lemma ArmedBeforeStart(w: RxWorld, frames: seq<Frame>, t: nat)
    requires Spaced(frames, t) && |w.decoded| < |frames| && Listens(w, frames, t)
    ensures w.armed < frames[|w.decoded|].start
  {
  }

  lemma FallsAt(edges: seq<Edge>, armed: nat, e: nat)
    requires armed < e && !PinAt(edges, e)
    requires forall x: nat | armed <= x < e :: PinAt(edges, x)
    ensures Falling(edges, e) && NoFall(edges, armed, e)
  {
  }

  lemma CaptureKeeps(w: RxWorld, edges: seq<Edge>, frames: seq<Frame>, t: nat, r: word, maxLatency: nat, s: RxStep)
    requires Complete(edges, frames, t) && Tolerates(t, r, maxLatency)
    requires Inv(w, frames, t, r) && s.Capture? && Valid(w, edges, s, maxLatency)
    ensures Inv(Step(w, edges, s, r), frames, t, r)
  {
    assert Listens(w, frames, t);
    CaptureIsStart(w, edges, frames, t, s, maxLatency);
    var f := frames[|w.decoded|];
    var w' := Step(w, edges, s, r);
    AwaitsConfirm(w, w', f, r, PinAt(edges, s.edge + s.latency), s.latency);
    SameRecord(w, w', frames, t, r);
  }

  lemma ConfirmCell(h: Rx, b: byte)
    requires h.phase == RxConfirm
    ensures InCell(h, b, 0)
  {
  }

  lemma AwaitsConfirm(w: RxWorld, w': RxWorld, f: Frame, r: word, pin: bool, latency: nat)
    requires w.rx.phase == RxIdle && latency < r / 2
    requires w'.rx == RxEvent(w.rx, Counter(f.start), pin, r) && w'.armed == f.start + latency
    ensures Awaits(w', f, 0, r) && w'.rx.queue == w.rx.queue && w'.rx.errors == w.rx.errors
  {
    hide NextMatch, Counter, InCell;
    CounterAdd(f.start, r / 2);
    MatchIsExact(f.start + latency, f.start + r / 2);
    ConfirmCell(w'.rx, f.data);
  }

  /** A step that decodes nothing keeps the invariant as long as the receiver still waits. */
  lemma SameRecord(w: RxWorld, w': RxWorld, frames: seq<Frame>, t: nat, r: word)
    requires Inv(w, frames, t, r) && Waits(w', frames, t, r)
    requires w' == w.(rx := w'.rx, armed := w'.armed)
    requires w'.rx.queue == w.rx.queue && w'.rx.errors == w.rx.errors
    ensures Inv(w', frames, t, r)
  {
  }

  /** The pin read for cell `k` is that cell's level. */
  lemma SampleReadsCell(w: RxWorld, edges: seq<Edge>, frames: seq<Frame>, t: nat, r: word, maxLatency: nat,
                        latency: nat, k: nat)
    requires Complete(edges, frames, t) && Tolerates(t, r, maxLatency) && latency <= maxLatency
    requires |w.decoded| < |frames| && Awaits(w, frames[|w.decoded|], k, r)
    ensures var f := frames[|w.decoded|];
            var at := NextMatch(w.armed, w.rx.compare) + latency;
            && PinAt(edges, at) == FrameLevel(f.data, k)
            && f.start + k * t <= at < f.start + (k + 1) * t
  {
    var n := |w.decoded|;
    var start := frames[n].start;
    var at := start + r / 2 + k * r + latency;
    SampleInCell(t, r, maxLatency, k, latency);
    assert start + k * t <= at < start + (k + 1) * t;
    assert k == 9 ==> (k + 1) * t == 10 * t;
    PinInCell(edges, frames, t, n, k, at);
  }

  lemma NextDeadline(w: RxWorld, f: Frame, k: nat, r: word, latency: nat)
    requires Awaits(w, f, k, r) && latency < r
    ensures NextMatch(NextMatch(w.armed, w.rx.compare) + latency, (w.rx.deadline + r) % WRAP)
            == f.start + r / 2 + (k + 1) * r
  {
    var at := NextMatch(w.armed, w.rx.compare);
    CounterAdd(at, r);
    MatchIsExact(at + latency, at + r);
    assert (k + 1) * r == k * r + r;
  }

  lemma WaitsForCell(w: RxWorld, frames: seq<Frame>, t: nat, r: word, k: nat)
    requires |w.decoded| < |frames| && Awaits(w, frames[|w.decoded|], k, r)
    ensures Waits(w, frames, t, r)
  {
  }

  /** What a sample of the start bit or a data bit changes. */
  lemma SampleStep(w: RxWorld, edges: seq<Edge>, f: Frame, k: nat, r: word, latency: nat)
    requires k <= 8 && Awaits(w, f, k, r)
    ensures var at := NextMatch(w.armed, w.rx.compare) + latency;
            Step(w, edges, Sample(latency), r) == w.(rx := RxEvent(w.rx, 0, PinAt(edges, at), r), armed := at)
  {
    hide RxEvent, PinAt, NextMatch;
  }

  lemma SampleBitKeeps(w: RxWorld, edges: seq<Edge>, frames: seq<Frame>, t: nat, r: word, maxLatency: nat,
                       latency: nat, k: nat)
    requires Complete(edges, frames, t) && Tolerates(t, r, maxLatency) && latency <= maxLatency
    requires Inv(w, frames, t, r) && |w.decoded| < |frames|
    requires k <= 8 && Awaits(w, frames[|w.decoded|], k, r)
    ensures Inv(Step(w, edges, Sample(latency), r), frames, t, r)
  {
    assert latency < r;
    hide *;
    var f := frames[|w.decoded|];
    var w' := Step(w, edges, Sample(latency), r);
    SampleReadsCell(w, edges, frames, t, r, maxLatency, latency, k);
    SampleStep(w, edges, f, k, r, latency);
    BitStep(w, w', f, k, r, latency);
    WaitsForCell(w', frames, t, r, k + 1);
    SameRecord(w, w', frames, t, r);
  }

  lemma BitStep(w: RxWorld, w': RxWorld, f: Frame, k: nat, r: word, latency: nat)
    requires k <= 8 && Awaits(w, f, k, r) && latency < r
    requires w'.rx == RxEvent(w.rx, 0, FrameLevel(f.data, k), r)
    requires w'.armed == NextMatch(w.armed, w.rx.compare) + latency
    ensures Awaits(w', f, k + 1, r) && w'.rx.queue == w.rx.queue && w'.rx.errors == w.rx.errors
  {
    hide NextMatch, RxEvent, InCell, FrameLevel;
    NextDeadline(w, f, k, r, latency);
    NextCell(w.rx, f.data, k, r);
  }

  lemma SampleStopKeeps(w: RxWorld, edges: seq<Edge>, frames: seq<Frame>, t: nat, r: word, maxLatency: nat,
                        latency: nat)
    requires Complete(edges, frames, t) && Tolerates(t, r, maxLatency) && latency <= maxLatency
    requires Inv(w, frames, t, r) && |w.decoded| < |frames|
    requires Awaits(w, frames[|w.decoded|], 9, r)
    ensures Inv(Step(w, edges, Sample(latency), r), frames, t, r)
  {
    var f := frames[|w.decoded|];
    SampleReadsCell(w, edges, frames, t, r, maxLatency, latency, 9);
    ReceivedAll(f.data);
    var w' := Step(w, edges, Sample(latency), r);
    assert w'.decoded == w.decoded + [f.data];
    PushAccounted(w, w');
    StopStep(w, w', frames, t, r);
  }

  lemma StopStep(w: RxWorld, w': RxWorld, frames: seq<Frame>, t: nat, r: word)
    requires Inv(w, frames, t, r) && |w.decoded| < |frames| && Accounted(w')
    requires var f := frames[|w.decoded|];
             && w'.decoded == w.decoded + [f.data]
             && f.start + 9 * t <= w'.armed < f.start + 10 * t
    requires w'.rx.phase == RxIdle && w'.rx.mode == CaptureFalling
    ensures Inv(w', frames, t, r)
  {
  }

  lemma PushAccounted(w: RxWorld, w': RxWorld)
    requires Accounted(w) && w'.framing == 0 && w'.delivered == w.delivered
    requires w'.decoded == w.decoded + [w.rx.shift]
    requires w'.lost == if |w.rx.queue| >= RING_SZ then w.lost + 1 else w.lost
    requires w'.rx.queue == Push(w.rx, w.rx.shift).queue && w'.rx.errors == Push(w.rx, w.rx.shift).errors
    ensures Accounted(w')
  {
  }

  lemma StepKeeps(w: RxWorld, edges: seq<Edge>, frames: seq<Frame>, t: nat, r: word, maxLatency: nat, s: RxStep)
    requires Complete(edges, frames, t) && Tolerates(t, r, maxLatency)
    requires Inv(w, frames, t, r) && Valid(w, edges, s, maxLatency)
    ensures Inv(Step(w, edges, s, r), frames, t, r)
  {
    match s
    case Capture(_, _, _) => CaptureKeeps(w, edges, frames, t, r, maxLatency, s);
    case Sample(latency) =>
      var k: nat :| Awaits(w, frames[|w.decoded|], k, r);
      if k <= 8 {
        SampleBitKeeps(w, edges, frames, t, r, maxLatency, latency, k);
      } else {
        SampleStopKeeps(w, edges, frames, t, r, maxLatency, latency);
      }
    case Take => TakeKeeps(w, edges, frames, t, r);
  }

  lemma TakeKeeps(w: RxWorld, edges: seq<Edge>, frames: seq<Frame>, t: nat, r: word)
    requires Inv(w, frames, t, r)
    ensures Inv(Step(w, edges, Take, r), frames, t, r)
  {
    var w' := Step(w, edges, Take, r);
    if w.rx.queue != [] {
      assert w.rx.queue == [w.rx.queue[0]] + w'.rx.queue;
      assert w'.delivered + w'.rx.queue == w.delivered + w.rx.queue;
      if Listens(w, frames, t) {
        assert Listens(w', frames, t);
      } else {
        var k: nat :| Awaits(w, frames[|w.decoded|], k, r);
        assert Awaits(w', frames[|w.decoded|], k, r);
      }
    }
  }

  lemma {:induction false} RunKeeps(w: RxWorld, edges: seq<Edge>, frames: seq<Frame>, t: nat, r: word,
                                    maxLatency: nat, steps: seq<RxStep>)
    requires Complete(edges, frames, t) && Tolerates(t, r, maxLatency)
    requires Inv(w, frames, t, r) && ValidRun(w, edges, steps, r, maxLatency)
    ensures Inv(Run(w, edges, steps, r), frames, t, r)
    decreases steps
  {
    if steps != [] {
      StepKeeps(w, edges, frames, t, r, maxLatency, steps[0]);
      RunKeeps(Step(w, edges, steps[0], r), edges, frames, t, r, maxLatency, steps[1..]);
    }
  }

  /** Until the last byte has been decoded, the receiver can always take another step. */
  lemma NeverStuck(w: RxWorld, edges: seq<Edge>, frames: seq<Frame>, t: nat, r: word, maxLatency: nat)
    requires Complete(edges, frames, t) && Inv(w, frames, t, r) && |w.decoded| < |frames|
    ensures exists s: RxStep :: !s.Take? && Valid(w, edges, s, maxLatency)
  {
    if Listens(w, frames, t) {
      var e := frames[|w.decoded|].start;
      StartFalls(w, edges, frames, t);
      assert Valid(w, edges, Capture(e, 0, e), maxLatency);
    } else {
      assert Valid(w, edges, Sample(0), maxLatency);
    }
  }

  // ---------- every run gets to the end ----------

  /** The events since the last stop bit, out of eleven a frame: one capture and ten samples. */
  function Position(h: Rx): nat {
    match h.phase
    case RxIdle => 0
    case RxConfirm => 1
    case RxData => h.bitIndex + 2
    case RxStop => 10
  }

  function Handled(w: RxWorld): nat {
    11 * |w.decoded| + Position(w.rx)
  }

  /** The interrupts among the steps. */
  function Events(steps: seq<RxStep>): nat {
    if steps == [] then 0 else (if steps[0].Take? then 0 else 1) + Events(steps[1..])
  }

  lemma HandledBound(w: RxWorld, frames: seq<Frame>, t: nat, r: word)
    requires Inv(w, frames, t, r)
    ensures Handled(w) <= 11 * |frames|
    ensures Handled(w) == 11 * |frames| <==> |w.decoded| == |frames|
    ensures |w.decoded| == |frames| ==> Listens(w, frames, t)
  {
  }

  lemma SampleAdvances(w: RxWorld, edges: seq<Edge>, frames: seq<Frame>, t: nat, r: word, maxLatency: nat,
                       latency: nat, k: nat)
    requires Complete(edges, frames, t) && Tolerates(t, r, maxLatency) && latency <= maxLatency
    requires |w.decoded| < |frames| && Awaits(w, frames[|w.decoded|], k, r)
    ensures Handled(Step(w, edges, Sample(latency), r)) == Handled(w) + 1
  {
    SampleReadsCell(w, edges, frames, t, r, maxLatency, latency, k);
    hide NextMatch, PinAt, Complete, Tolerates, Received;
  }

  lemma EventAdvances(w: RxWorld, edges: seq<Edge>, frames: seq<Frame>, t: nat, r: word, maxLatency: nat, s: RxStep)
    requires Complete(edges, frames, t) && Tolerates(t, r, maxLatency)
    requires Inv(w, frames, t, r) && Valid(w, edges, s, maxLatency)
    ensures Handled(Step(w, edges, s, r)) == Handled(w) + if s.Take? then 0 else 1
  {
    match s {
      case Sample(latency) =>
        var k: nat :| Awaits(w, frames[|w.decoded|], k, r);
        SampleAdvances(w, edges, frames, t, r, maxLatency, latency, k);
      case _ =>
    }
  }

  lemma {:induction false} RunAdvances(w: RxWorld, edges: seq<Edge>, frames: seq<Frame>, t: nat, r: word,
                                       maxLatency: nat, steps: seq<RxStep>)
    requires Complete(edges, frames, t) && Tolerates(t, r, maxLatency)
    requires Inv(w, frames, t, r) && ValidRun(w, edges, steps, r, maxLatency)
    ensures Handled(Run(w, edges, steps, r)) == Handled(w) + Events(steps)
    decreases steps
  {
    hide Step, Handled, Inv, Valid, Complete, Tolerates;
    if steps != [] {
      StepKeeps(w, edges, frames, t, r, maxLatency, steps[0]);
      EventAdvances(w, edges, frames, t, r, maxLatency, steps[0]);
      RunAdvances(Step(w, edges, steps[0], r), edges, frames, t, r, maxLatency, steps[1..]);
    }
  }

  /** The receiver sees nothing more: no handler is due or can become due. */
  ghost predicate Finished(w: RxWorld, edges: seq<Edge>, maxLatency: nat) {
    forall s: RxStep :: !s.Take? ==> !Valid(w, edges, s, maxLatency)
  }

  /** That is so exactly when every frame has been decoded. */
  lemma FinishedIff(w: RxWorld, edges: seq<Edge>, frames: seq<Frame>, t: nat, r: word, maxLatency: nat)
    requires Complete(edges, frames, t) && Inv(w, frames, t, r) && maxLatency < t
    ensures Finished(w, edges, maxLatency) <==> |w.decoded| == |frames|
  {
    if |w.decoded| < |frames| {
      NeverStuck(w, edges, frames, t, r, maxLatency);
    } else {
      HandledBound(w, frames, t, r);
      forall s: RxStep | !s.Take?
        ensures !Valid(w, edges, s, maxLatency)
      {
        if s.Capture? && Valid(w, edges, s, maxLatency) {
          CaptureIsStart(w, edges, frames, t, s, maxLatency);
        }
      }
    }
  }

  /** From any point of a run, some further interrupts decode all that is left. */
  lemma {:induction false} RunsToEnd(w: RxWorld, edges: seq<Edge>, frames: seq<Frame>, t: nat, r: word,
                                     maxLatency: nat)
    returns (more: seq<RxStep>)
    requires Complete(edges, frames, t) && Tolerates(t, r, maxLatency) && Inv(w, frames, t, r)
    ensures ValidRun(w, edges, more, r, maxLatency)
    ensures |Run(w, edges, more, r).decoded| == |frames|
    decreases 11 * |frames| - Handled(w)
  {
    HandledBound(w, frames, t, r);
    if |w.decoded| == |frames| {
      more := [];
    } else {
      NeverStuck(w, edges, frames, t, r, maxLatency);
      var s: RxStep :| !s.Take? && Valid(w, edges, s, maxLatency);
      var w' := Step(w, edges, s, r);
      StepKeeps(w, edges, frames, t, r, maxLatency, s);
      EventAdvances(w, edges, frames, t, r, maxLatency, s);
      HandledBound(w', frames, t, r);
      hide Step, Valid, Inv, Handled;
      var rest := RunsToEnd(w', edges, frames, t, r, maxLatency);
      more := [s] + rest;
      assert more[1..] == rest;
    }
  }

  lemma {:induction false} RunConcat(w: RxWorld, edges: seq<Edge>, a: seq<RxStep>, b: seq<RxStep>, bitTime: word,
                                     maxLatency: nat)
    ensures Run(w, edges, a + b, bitTime) == Run(Run(w, edges, a, bitTime), edges, b, bitTime)
    ensures ValidRun(w, edges, a + b, bitTime, maxLatency)
            <==> && ValidRun(w, edges, a, bitTime, maxLatency)
                 && ValidRun(Run(w, edges, a, bitTime), edges, b, bitTime, maxLatency)
    decreases a
  {
    hide Step, Valid;
    if a == [] {
      assert a + b == b;
    } else {
      assert (a + b)[1..] == a[1..] + b;
      RunConcat(Step(w, edges, a[0], bitTime), edges, a[1..], b, bitTime, maxLatency);
    }
  }

  // ---------- when bytes are lost ----------

  /** At every point of the run, decoded bytes are ahead of the reads by at most the ring. */
  predicate ReaderKeepsUp(w: RxWorld, edges: seq<Edge>, steps: seq<RxStep>, bitTime: word)
    decreases steps
  {
    && |w.decoded| - |w.delivered| <= RING_SZ
    && (steps != [] ==> ReaderKeepsUp(Step(w, edges, steps[0], bitTime), edges, steps[1..], bitTime))
  }

  /** The CCP module captures exactly while the machine is idle. */
  predicate Counted(w: RxWorld) {
    && |w.decoded| == |w.delivered| + |w.rx.queue| + w.lost && |w.rx.queue| <= RING_SZ
    && w.rx.mode == (if w.rx.phase == RxIdle then CaptureFalling else CompareSoftIf)
    && w.rx.errors == (w.lost + w.framing) % WRAP
  }

  lemma StepCounts(w: RxWorld, edges: seq<Edge>, s: RxStep, bitTime: word, maxLatency: nat)
    requires Counted(w) && Valid(w, edges, s, maxLatency)
    ensures var w' := Step(w, edges, s, bitTime);
            Counted(w') && w.lost <= w'.lost && (w.lost < w'.lost ==> |w'.rx.queue| == RING_SZ)
  {
    hide PinAt, NextMatch, ShiftIn;
    match s {
      case Capture(_, _, _) =>
      case Sample(_) =>
      case Take =>
    }
  }

  lemma {:induction false} LossesStay(w: RxWorld, edges: seq<Edge>, steps: seq<RxStep>, bitTime: word, maxLatency: nat)
    requires Counted(w) && ValidRun(w, edges, steps, bitTime, maxLatency)
    ensures w.lost <= Run(w, edges, steps, bitTime).lost
    decreases steps
  {
    if steps != [] {
      StepCounts(w, edges, steps[0], bitTime, maxLatency);
      hide Step, Valid;
      LossesStay(Step(w, edges, steps[0], bitTime), edges, steps[1..], bitTime, maxLatency);
    }
  }

  /** Over any run against any line, the error count is the number of bytes that met a full ring plus
      the number of bad stop bits, and every other decoded byte is delivered or queued. */
  lemma {:induction false} ErrorsAreCounted(w: RxWorld, edges: seq<Edge>, steps: seq<RxStep>, bitTime: word,
                                            maxLatency: nat)
    requires Counted(w) && ValidRun(w, edges, steps, bitTime, maxLatency)
    ensures Counted(Run(w, edges, steps, bitTime))
    decreases steps
  {
    if steps != [] {
      StepCounts(w, edges, steps[0], bitTime, maxLatency);
      hide Step, Valid;
      ErrorsAreCounted(Step(w, edges, steps[0], bitTime), edges, steps[1..], bitTime, maxLatency);
    }
  }

  /** Over any run against any line, no decoded byte is lost exactly when the reader keeps up. */
  lemma {:induction false} LosslessIff(w: RxWorld, edges: seq<Edge>, steps: seq<RxStep>, bitTime: word,
                                       maxLatency: nat)
    requires Counted(w) && w.lost == 0 && ValidRun(w, edges, steps, bitTime, maxLatency)
    ensures Run(w, edges, steps, bitTime).lost == 0 <==> ReaderKeepsUp(w, edges, steps, bitTime)
    decreases steps
  {
    if steps != [] {
      var w' := Step(w, edges, steps[0], bitTime);
      StepCounts(w, edges, steps[0], bitTime, maxLatency);
      hide Step, Valid;
      if w'.lost == 0 {
        LosslessIff(w', edges, steps[1..], bitTime, maxLatency);
      } else {
        LossesStay(w', edges, steps[1..], bitTime, maxLatency);
      }
    }
  }

  // ---------- both halves together ----------

  /** Every valid run of the receiver against a complete burst of frames: it has at most eleven
      interrupts a frame, and with the last of them it has decoded all. */
  lemma Decodes(edges: seq<Edge>, frames: seq<Frame>, t: nat, r: word, maxLatency: nat, armed: nat, steps: seq<RxStep>)
    requires Complete(edges, frames, t) && Tolerates(t, r, maxLatency)
    requires frames != [] ==> armed < frames[0].start
    requires ValidRun(Start(armed), edges, steps, r, maxLatency)
    ensures var got := Run(Start(armed), edges, steps, r);
            && Inv(got, frames, t, r) && got.decoded <= Payload(frames)
            && Events(steps) <= 11 * |frames|
            && (Finished(got, edges, maxLatency) <==> Events(steps) == 11 * |frames|)
            && (Finished(got, edges, maxLatency) <==> got.decoded == Payload(frames))
  {
    var got := Run(Start(armed), edges, steps, r);
    assert Listens(Start(armed), frames, t);
    RunKeeps(Start(armed), edges, frames, t, r, maxLatency, steps);
    RunAdvances(Start(armed), edges, frames, t, r, maxLatency, steps);
    HandledBound(got, frames, t, r);
    FinishedIff(got, edges, frames, t, r, maxLatency);
    assert frames[..|frames|] == frames;
    assert Payload(frames)[..|got.decoded|] == Payload(frames[..|got.decoded|]);
  }

  /** Any session of writes sent at bit time `t` and run until the transmitter is off, received at
      bit time `r` with every handler at most `maxLatency` late: at every moment the bytes decoded
      are a prefix of the bytes accepted, there is no framing error and no noise, the error count is
      the number of bytes that met a full ring, and there is none exactly as long as the reader keeps
      up: then the application's reads plus the ring are what was decoded. The receiver sees eleven
      events a frame, no more, and with the last of them it has decoded every byte that was started. */
  lemma EndToEnd(txSteps: seq<Tx.TxStep>, sent: Tx.TxWorld, rxSteps: seq<RxStep>, got: RxWorld,
                 t: word, r: word, maxLatency: nat, armed: nat)
    requires Tolerates(t, r, maxLatency)
    requires Tx.LegalRun(Tx.START, txSteps, t)
    requires sent == Tx.Run(Tx.START, txSteps, t) && sent.tx.mode == Off
    requires sent.frames != [] ==> armed < sent.frames[0].start
    requires ValidRun(Start(armed), sent.edges, rxSteps, r, maxLatency)
    requires got == Run(Start(armed), sent.edges, rxSteps, r)
    ensures got.decoded <= sent.accepted
    ensures got.framing == 0 && got.rx.errors == got.lost % WRAP
    ensures |got.decoded| == |got.delivered| + |got.rx.queue| + got.lost
    ensures got.lost == 0 <==> ReaderKeepsUp(Start(armed), sent.edges, rxSteps, r)
    ensures got.lost == 0 ==> got.delivered + got.rx.queue == got.decoded
    ensures Events(rxSteps) <= 11 * |sent.frames|
    ensures Events(rxSteps) == 11 * |sent.frames| <==> Finished(got, sent.edges, maxLatency)
    ensures Events(rxSteps) == 11 * |sent.frames| <==> got.decoded + sent.tx.queue == sent.accepted
  {
    Tx.SessionWaveform(txSteps, t);
    Decodes(sent.edges, sent.frames, t, r, maxLatency, armed, rxSteps);
    LosslessIff(Start(armed), sent.edges, rxSteps, r, maxLatency);
    assert sent.accepted == Payload(sent.frames) + sent.tx.queue;
    hide *;
    SameFront(got.decoded, Payload(sent.frames), sent.tx.queue);
  }

  lemma SameFront(a: seq<byte>, b: seq<byte>, c: seq<byte>)
    ensures a + c == b + c <==> a == b
  {
    if a + c == b + c {
      assert a == (a + c)[..|a|] == (b + c)[..|b|] == b;
    }
  }

  /** However a run has gone so far, it can be carried on until everything is decoded. */
  lemma CanFinish(txSteps: seq<Tx.TxStep>, sent: Tx.TxWorld, rxSteps: seq<RxStep>, t: word, r: word,
                  maxLatency: nat, armed: nat) returns (more: seq<RxStep>)
    requires Tolerates(t, r, maxLatency)
    requires Tx.LegalRun(Tx.START, txSteps, t)
    requires sent == Tx.Run(Tx.START, txSteps, t) && sent.tx.mode == Off
    requires sent.frames != [] ==> armed < sent.frames[0].start
    requires ValidRun(Start(armed), sent.edges, rxSteps, r, maxLatency)
    ensures ValidRun(Start(armed), sent.edges, rxSteps + more, r, maxLatency)
    ensures Run(Start(armed), sent.edges, rxSteps + more, r).decoded + sent.tx.queue == sent.accepted
  {
    var got := Run(Start(armed), sent.edges, rxSteps, r);
    Tx.SessionWaveform(txSteps, t);
    Decodes(sent.edges, sent.frames, t, r, maxLatency, armed, rxSteps);
    more := RunsToEnd(got, sent.edges, sent.frames, t, r, maxLatency);
    RunConcat(Start(armed), sent.edges, rxSteps, more, r, maxLatency);
    Decodes(sent.edges, sent.frames, t, r, maxLatency, armed, rxSteps + more);
    hide Step, Valid, Inv, Finished;
  }
}
