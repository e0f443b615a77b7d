/** Writes that find the software UART's transmitter idle while it is not: the machine counts as idle
    from the handling of the last data bit on, two bits before the line is free. For each order in
    which the pending stop edge, its handler and the statements that end the write can follow each
    other, exactly when the line still carries proper frames. */
module SwUartRaces {
  import opened Bytes
  import Ring
  import opened SwUartLine
  import opened SwUartTx
  import opened Timer1
  import opened Words

  /** The line carries whole frames, each with its full stop bit. */
  ghost predicate Clean(w: TxWorld, bitTime: word) {
    Drives(w.edges, w.frames, bitTime) && Spaced(w.frames, bitTime)
  }

  /** A frame started at `start` leaves the last one its full stop bit. */
  predicate StopBitOver(frames: seq<Frame>, start: nat, bitTime: word) {
    frames == [] || frames[|frames| - 1].start + 10 * bitTime <= start
  }

  lemma SpacedIff(frames: seq<Frame>, f: Frame, bitTime: word)
    requires Spaced(frames, bitTime)
    ensures Spaced(frames + [f], bitTime) <==> StopBitOver(frames, f.start, bitTime)
  {
    var more := frames + [f];
    if frames != [] {
      assert more[|frames|] == f && more[|frames| - 1] == frames[|frames| - 1];
    }
    if StopBitOver(frames, f.start, bitTime) {
      forall i | 0 < i < |more|
        ensures more[i - 1].start + 10 * bitTime <= more[i].start
      {
        if i < |frames| {
          assert more[i] == frames[i] && more[i - 1] == frames[i - 1];
        }
      }
    }
  }

  lemma StopPending(w: TxWorld, bitTime: word)
    requires Inv(w, bitTime) && w.tx.phase == TxIdle && w.tx.mode != Off
    ensures w.frames != [] && |w.edges| == 10 * |w.frames| - 1
    ensures Edge(NextMatch(w.armed, w.tx.compare), w.tx.mode == CompareSet)
            == FrameEdge(w.frames[|w.frames| - 1], 9, bitTime)
  {
  }

  // ---------- the compare register is rewritten before the pending match ----------

  /** The start that the kick arms, once it has matched. */
  lemma KickedStart(w: TxWorld, now: nat, armed: nat, latency: nat, bitTime: word)
    requires w.tx.phase == TxIdle && w.tx.queue != []
    ensures var f := Frame(StartAt(now, armed), w.tx.queue[0]);
            var w' := Step(Step(w, EndWrite(now, armed), bitTime), Fire(latency), bitTime);
            w'.frames == w.frames + [f] && w'.edges == w.edges + [Edge(f.start, false)]
  {
    hide NextMatch, Counter;
  }

  /** The end of a write that finds the machine idle and rewrites the compare register, at time
      `rewritten`, before any pending match, and sets the mode, at time `armed`, before the new value
      matches in the old mode: the line stays clean exactly when the module was already off and the
      last stop bit is over when the new frame starts. While the stop edge is pending, the new start
      edge replaces it. */
  lemma IdleWriteIsCleanIff(w: TxWorld, now: nat, rewritten: nat, armed: nat, latency: nat, bitTime: word)
    requires Inv(w, bitTime) && w.tx.phase == TxIdle && w.tx.queue != []
    requires now <= rewritten <= armed
    requires w.tx.mode != Off ==> rewritten < NextMatch(w.armed, w.tx.compare) && armed < StartAt(now, rewritten)
    ensures var w' := Step(Step(w, EndWrite(now, armed), bitTime), Fire(latency), bitTime);
            Clean(w', bitTime) <==> w.tx.mode == Off && StopBitOver(w.frames, StartAt(now, armed), bitTime)
  {
    var f := Frame(StartAt(now, armed), w.tx.queue[0]);
    KickedStart(w, now, armed, latency, bitTime);
    SpacedIff(w.frames, f, bitTime);
    if w.tx.mode == Off {
      StartDrives(w.edges, w.frames, f, bitTime);
    } else {
      StopPending(w, bitTime);
      hide Inv, Step, NextMatch;
      StartInStopCell(w.edges, w.frames, f, bitTime);
    }
  }

  /** If the new value matches before the mode is set, the module still drives a stop edge: the right
      one just when the new value is the old one. */
  lemma MatchInOldMode(w: TxWorld, now: nat, rewritten: nat, bitTime: word)
    requires Inv(w, bitTime) && w.tx.phase == TxIdle && w.tx.mode != Off
    ensures var m := StartAt(now, rewritten);
            Drives(w.edges + [Edge(m, w.tx.mode == CompareSet)], w.frames, bitTime)
            <==> m == NextMatch(w.armed, w.tx.compare)
  {
    var m, n := StartAt(now, rewritten), |w.edges|;
    var e := Edge(m, w.tx.mode == CompareSet);
    StopPending(w, bitTime);
    hide NextMatch, StartAt;
    assert n / 10 == |w.frames| - 1 && n % 10 == 9;
    assert (w.edges + [e])[n] == e;
    if m == NextMatch(w.armed, w.tx.compare) {
      DrivesMore(w.edges, w.frames, e, 9, bitTime);
    }
  }

  lemma StartDrives(edges: seq<Edge>, frames: seq<Frame>, f: Frame, bitTime: word)
    requires Drives(edges, frames, bitTime) && |edges| == 10 * |frames|
    ensures Drives(edges + [Edge(f.start, false)], frames + [f], bitTime)
  {
    DrivesNewFrame(edges, frames, f, bitTime);
    DrivesMore(edges, frames + [f], Edge(f.start, false), 0, bitTime);
  }

  lemma StartInStopCell(edges: seq<Edge>, frames: seq<Frame>, f: Frame, bitTime: word)
    requires frames != [] && |edges| == 10 * |frames| - 1
    ensures !Drives(edges + [Edge(f.start, false)], frames + [f], bitTime)
  {
    var n, more := |edges|, edges + [Edge(f.start, false)];
    assert n / 10 == |frames| - 1 && n % 10 == 9;
    assert more[n].level != FrameEdge((frames + [f])[n / 10], n % 10, bitTime).level;
  }

  // ---------- the stop edge matches, but its handler runs after the write ----------

  /** The stop edge matches before the compare register is rewritten, or before the mode is set because
      the new value is the old one. */
  predicate StopMatched(w: TxWorld, now: nat, rewritten: nat, armed: nat) {
    var at := NextMatch(w.armed, w.tx.compare);
    at <= rewritten || (at <= armed && at == StartAt(now, rewritten))
  }

  /** The stop edge matches in the old mode unless the write is done with both registers before anything
      matches, or the new value takes effect while the stop edge is pending and drives an edge elsewhere. */
  lemma StopMatchedIff(w: TxWorld, now: nat, rewritten: nat, armed: nat)
    requires now <= rewritten <= armed
    ensures var stop, start := NextMatch(w.armed, w.tx.compare), StartAt(now, rewritten);
            StopMatched(w, now, rewritten, armed)
            <==> !(rewritten < stop && (armed < start || start != stop))
  {
    hide NextMatch, StartAt;
  }

  /** The world at time `handled`, when the handler of the stop edge, delayed past the end of the
      write, runs against the restarted machine. A start edge that is due by then has matched too: the
      two share one interrupt flag and one run of the handler. */
  function HandledLate(w: TxWorld, now: nat, armed: nat, handled: nat, bitTime: word): TxWorld
    requires w.tx.queue != []
  {
    var tx := Kick(w.tx, Counter(now));
    var start := StartAt(now, armed);
    var edges := w.edges + [Edge(NextMatch(w.armed, w.tx.compare), w.tx.mode == CompareSet)];
    w.(tx := TxEvent(tx, bitTime), armed := handled,
       edges := if handled < start then edges else edges + [Edge(start, false)],
       frames := w.frames + [Frame(start, tx.shift)])
  }

  /** The stop edge has matched, but its handler runs only after the write: the line stays clean exactly
      when the handler is so late that the start edge has already matched, and the stop bit was over by
      then. A handler that runs earlier moves the deadline on, and the start edge never comes. */
  lemma HandledLateIsCleanIff(w: TxWorld, now: nat, rewritten: nat, armed: nat, handled: nat, latency: nat,
                              bitTime: word)
    requires Inv(w, bitTime) && w.tx.phase == TxIdle && w.tx.mode != Off && w.tx.queue != []
    requires now <= rewritten <= armed <= handled && StopMatched(w, now, rewritten, armed)
    requires 0 < bitTime && handled < StartAt(now, armed) + bitTime
    ensures var w' := Step(HandledLate(w, now, armed, handled, bitTime), Fire(latency), bitTime);
            var start := StartAt(now, armed);
            Clean(w', bitTime) <==> start <= handled && StopBitOver(w.frames, start, bitTime)
  {
    var f := Frame(StartAt(now, armed), w.tx.queue[0]);
    var stop := Edge(NextMatch(w.armed, w.tx.compare), w.tx.mode == CompareSet);
    var late := HandledLate(w, now, armed, handled, bitTime);
    var next := Edge(NextMatch(handled, late.tx.compare), Bit(f.data, 0));
    StopPending(w, bitTime);
    DrivesMore(w.edges, w.frames, stop, 9, bitTime);
    SpacedIff(w.frames, f, bitTime);
    KickThenEvent(w.tx, now, armed, bitTime);
    assert Step(late, Fire(latency), bitTime).edges == late.edges + [next];
    assert late.frames == w.frames + [f];
    hide Inv, Step, TxEvent, HandledLate, NextMatch, StartAt;
    if f.start <= handled {
      MatchIsExact(handled, f.start + bitTime);
      StartDrives(w.edges + [stop], w.frames, f, bitTime);
      FirstBitDrives(w.edges + [stop], w.frames, f, next, bitTime);
    } else {
      LateStart(late.edges, late.frames, f.start, next, bitTime);
    }
  }

  /** A handler run after a kick arms the edge one bit after the start. */
  lemma KickThenEvent(h: Tx, now: nat, armed: nat, bitTime: word)
    requires h.queue != []
    ensures TxEvent(Kick(h, Counter(now)), bitTime).compare == Counter(StartAt(now, armed) + bitTime)
  {
    CounterAdd(StartAt(now, armed), bitTime);
  }

  lemma FirstBitDrives(edges: seq<Edge>, frames: seq<Frame>, f: Frame, e: Edge, bitTime: word)
    requires Drives(edges + [Edge(f.start, false)], frames + [f], bitTime) && |edges| == 10 * |frames|
    requires e == Edge(f.start + bitTime, Bit(f.data, 0))
    ensures Drives(edges + [Edge(f.start, false)] + [e], frames + [f], bitTime)
  {
    DrivesMore(edges + [Edge(f.start, false)], frames + [f], e, 1, bitTime);
  }

  /** An edge one bit after the start of the last frame is not its start edge. */
  lemma LateStart(edges: seq<Edge>, frames: seq<Frame>, start: nat, e: Edge, bitTime: word)
    requires frames != [] && frames[|frames| - 1].start == start && |edges| == 10 * (|frames| - 1)
    requires 0 < bitTime && Counter(e.time) == Counter(start + bitTime)
    ensures !Drives(edges + [e], frames, bitTime)
  {
    var n := |edges|;
    assert (edges + [e])[n] == e && n / 10 == |frames| - 1 && n % 10 == 0;
    assert FrameEdge(frames[n / 10], n % 10, bitTime).time == start;
    CountersDiffer(start, bitTime);
  }

  lemma CountersDiffer(start: nat, d: word)
    requires 0 < d
    ensures Counter(start + d) != Counter(start)
  {
  }

  // ---------- the handler interrupts the end of the write ----------

  /** Where the interrupt of the stop edge lands in the statements that start a frame: before the byte
      is read from the ring, before the tail moves past it, before the count goes down, before the
      state is stored, before the deadline is, before the compare register is loaded, before the mode
      is set. */
  datatype Point =
    | BeforePop | BeforeTail | BeforeCount | BeforeState
    | BeforeDeadline | BeforeCompare | BeforeMode

  /** The handle and the registers after the write, interrupted at `p`, has completed. */
  function Interrupted(h: Tx, window: seq<byte>, counter: word, p: Point, bitTime: word): Tx
    requires h.queue != [] && |window| == RING_SZ
  {
    var start := (counter + LEAD) % WRAP;
    var popped := h.(shift := h.queue[0], queue := h.queue[1..]);
    var stored := popped.(bitIndex := 0, phase := TxData);
    match p
    case BeforePop =>
      var e := TxEvent(h, bitTime);
      Kick(e.(queue := Poppable(e.queue, window)), counter)
    case BeforeTail =>
      // the handler takes the same byte; the write then drops the one behind it
      var e := TxEvent(h, bitTime);
      e.(queue := Poppable(e.queue, window)[1..], bitIndex := 0, phase := TxData, deadline := start,
         compare := start, mode := CompareClear)
    case BeforeCount =>
      // the count still covers the byte taken, so the handler takes one more, if need be a stale one
      var e := TxEvent(popped.(queue := Poppable(popped.queue, window)), bitTime);
      e.(bitIndex := 0, phase := TxData, deadline := start, compare := start, mode := CompareClear)
    case BeforeState =>
      var e := TxEvent(popped, bitTime);
      e.(bitIndex := 0, phase := TxData, deadline := start, compare := start, mode := CompareClear)
    case BeforeDeadline =>
      var e := TxEvent(stored, bitTime);
      e.(deadline := start, compare := start, mode := CompareClear)
    case BeforeCompare =>
      var e := TxEvent(stored.(deadline := start), bitTime);
      e.(compare := e.deadline, mode := CompareClear)
    case BeforeMode =>
      var e := TxEvent(stored.(deadline := start, compare := start), bitTime);
      e.(mode := CompareClear)
  }

  /** How many bytes the handler and the write have taken between them. */
  function Taken(h: Tx, p: Point): nat {
    match p
    case BeforePop => 2
    case BeforeTail => 2
    case BeforeCount => 2
    case BeforeState => if 1 < |h.queue| then 2 else 1
    case _ => 1
  }

  /** The world after that write: the stop edge has happened, and each byte taken counts as a frame
      to be sent; `frames` says when those would start. */
  function InterruptedWrite(w: TxWorld, window: seq<byte>, now: nat, armed: nat, frames: seq<Frame>, p: Point,
                            bitTime: word): TxWorld
    requires w.tx.queue != [] && |window| == RING_SZ
  {
    w.(tx := Interrupted(w.tx, window, Counter(now), p, bitTime), armed := armed,
       edges := w.edges + [Edge(NextMatch(w.armed, w.tx.compare), w.tx.mode == CompareSet)],
       frames := w.frames + frames)
  }

  /** The transitions the machine still makes for the byte in its shift register. */
  function StillToCome(h: Tx): int {
    match h.phase
    case TxData => 10 - h.bitIndex
    case TxStop => 2
    case TxIdle => if h.mode == Off then 0 else 1
  }

  /** The transitions that the bytes taken from the ring call for and that will never happen. */
  function Owed(w: TxWorld): int {
    10 * |w.frames| - |w.edges| - StillToCome(w.tx)
  }

  predicate Sane(h: Tx) {
    && (h.phase == TxData ==> h.bitIndex < 8)
    && (h.phase != TxIdle ==> Armed(h))
    && (h.mode != Off ==> Armed(h))
  }

  /** No later handler, write or byte ever makes up for a transition owed. */
  lemma {:induction false} OwedForGood(w: TxWorld, steps: seq<TxStep>, bitTime: word)
    requires Sane(w.tx) && LegalRun(w, steps, bitTime)
    ensures Sane(Run(w, steps, bitTime).tx) && Owed(Run(w, steps, bitTime)) == Owed(w)
    decreases steps
  {
    if steps != [] {
      OwedStays(w, steps[0], bitTime);
      hide Step, Legal;
      OwedForGood(Step(w, steps[0], bitTime), steps[1..], bitTime);
    }
  }

  lemma OwedStays(w: TxWorld, s: TxStep, bitTime: word)
    requires Sane(w.tx) && Legal(w, s, bitTime)
    ensures Sane(Step(w, s, bitTime).tx) && Owed(Step(w, s, bitTime)) == Owed(w)
  {
  }

  lemma NothingOwed(w: TxWorld, bitTime: word)
    requires Inv(w, bitTime)
    ensures Sane(w.tx) && Owed(w) == 0
  {
  }

  /** Ten transitions are owed when a byte was taken and then dropped, one when only its first data bit
      was. */
  function Loss(h: Tx, p: Point): nat {
    match p
    case BeforePop => 10
    case BeforeTail => 10
    case BeforeCount => 10
    case BeforeState => if 1 < |h.queue| then 10 else 0
    case _ => 1
  }

  lemma InterruptedOwes(w: TxWorld, window: seq<byte>, now: nat, armed: nat, frames: seq<Frame>, p: Point,
                        bitTime: word)
    requires Inv(w, bitTime) && w.tx.phase == TxIdle && w.tx.mode != Off && w.tx.queue != []
    requires |window| == RING_SZ && |frames| == Taken(w.tx, p)
    ensures var w' := InterruptedWrite(w, window, now, armed, frames, p, bitTime);
            Sane(w'.tx) && Owed(w') == Loss(w.tx, p)
  {
    NothingOwed(w, bitTime);
    hide Inv, Ring.Times;
    assert StillToCome(w.tx) == 1;
  }

  /** A write interrupted by the handler of the stop edge between its check of the state and the end:
      whenever the transmitter has switched off later, transitions are missing, except in one case:
      the interrupt came after the pop and before the state was stored, and found no further byte. */
  lemma InterruptedWriteLosesBits(w: TxWorld, window: seq<byte>, now: nat, armed: nat, frames: seq<Frame>, p: Point,
                                  steps: seq<TxStep>, bitTime: word)
    requires Inv(w, bitTime) && w.tx.phase == TxIdle && w.tx.mode != Off && w.tx.queue != []
    requires |window| == RING_SZ && |frames| == Taken(w.tx, p)
    requires LegalRun(InterruptedWrite(w, window, now, armed, frames, p, bitTime), steps, bitTime)
    ensures var r := Run(InterruptedWrite(w, window, now, armed, frames, p, bitTime), steps, bitTime);
            && (r.tx.mode == Off ==> |r.edges| == 10 * |r.frames| - Loss(w.tx, p))
            && (Loss(w.tx, p) == 0 <==> p == BeforeState && |w.tx.queue| == 1)
  {
    var w' := InterruptedWrite(w, window, now, armed, frames, p, bitTime);
    InterruptedOwes(w, window, now, armed, frames, p, bitTime);
    OwedForGood(w', steps, bitTime);
  }

  /** The bytes taken leave the ring, and no others. Where only one was there, the count wraps and 255
      stale ones take their place. The byte in the shift register is the last one taken, but the first
      where the write had read it and the handler read it again; its low bit is gone where the handler
      already found the frame begun. */
  lemma InterruptedTakes(h: Tx, window: seq<byte>, now: nat, p: Point, bitTime: word)
    requires h.phase == TxIdle && h.queue != [] && |window| == RING_SZ
    ensures var r, n := Interrupted(h, window, Counter(now), p, bitTime), Taken(h, p);
            && (if n <= |h.queue| then r.queue == h.queue[n..] else |r.queue| == 255)
            && (n <= |h.queue| ==>
                  r.shift == if p == BeforeTail then h.queue[0]
                             else if p in {BeforeDeadline, BeforeCompare, BeforeMode} then h.queue[0] >> 1
                             else h.queue[n - 1])
  {
    hide Ring.Times;
  }

  /** The start edge is armed for 120 cycles after the counter was read, or a bit later where the handler
      has moved the new deadline on. */
  lemma InterruptedArms(h: Tx, window: seq<byte>, now: nat, p: Point, bitTime: word)
    requires h.phase == TxIdle && h.queue != [] && |window| == RING_SZ
    ensures var r := Interrupted(h, window, Counter(now), p, bitTime);
            && r.mode == CompareClear && r.deadline == r.compare
            && r.compare == (now + 120 + if p in {BeforeCompare, BeforeMode} then bitTime else 0) % 0x1_0000
  {
    CounterAdd(now, LEAD);
    CounterAdd(now + LEAD, bitTime);
    hide Ring.Times, Counter;
  }

  /** In that case the write leaves exactly what it would have left behind the handler. */
  lemma InterruptedAtRest(w: TxWorld, window: seq<byte>, now: nat, armed: nat, latency: nat, bitTime: word)
    requires w.tx.phase == TxIdle && |w.tx.queue| == 1 && |window| == RING_SZ
    ensures var f := Frame(StartAt(now, armed), w.tx.queue[0]);
            var rest := Step(w.(tx := w.tx.(queue := [])), Fire(latency), bitTime);
            InterruptedWrite(w, window, now, armed, [f], BeforeState, bitTime)
            == Step(rest.(tx := rest.tx.(queue := w.tx.queue)), EndWrite(now, armed), bitTime)
  {
  }

  // ---------- the window is reached ----------

  /** Two bytes written from the start lead to the window: the machine idle, the stop edge of the first
      frame pending, the second byte in the ring. */
  lemma IdleWindowIsReachable(a: byte, b: byte, latencies: seq<nat>, bitTime: word) returns (steps: seq<TxStep>)
    requires |latencies| == 9 && WithinBit(latencies, bitTime)
    ensures LegalRun(START, steps, bitTime)
    ensures var w := Run(START, steps, bitTime);
            Inv(w, bitTime) && w.tx.phase == TxIdle && w.tx.mode != Off && w.tx.queue == [b]
  {
    var w1 := Step(START, Put(a), bitTime);
    var w2 := Step(w1, EndWrite(0, 0), bitTime);
    var w3 := Step(w2, Put(b), bitTime);
    assert Inv(START, bitTime);
    assert Legal(START, Put(a), bitTime) && Legal(w1, EndWrite(0, 0), bitTime) && Legal(w2, Put(b), bitTime);
    assert w3.tx.queue == [b] && w3.tx.mode != Off && |w3.edges| + 9 == 10 * |w3.frames| - 1;
    hide *;
    StepKeeps(START, Put(a), bitTime);
    StepKeeps(w1, EndWrite(0, 0), bitTime);
    StepKeeps(w2, Put(b), bitTime);
    var fires := Fires(latencies);
    ReachesStop(w3, latencies, bitTime);
    RunFirst(w2, Put(b), fires, bitTime);
    RunFirst(w1, EndWrite(0, 0), [Put(b)] + fires, bitTime);
    steps := [Put(a)] + ([EndWrite(0, 0)] + ([Put(b)] + fires));
    RunFirst(START, Put(a), [EndWrite(0, 0)] + ([Put(b)] + fires), bitTime);
  }

  // ---------- the write is held up until its bytes are gone ----------

  /** A write that stores a byte while the machine runs, and is then held up for as many matches as it
      takes to send everything, finds the machine idle and off, its byte sent and the ring empty. */
  lemma HeldUpWriteFindsEmptyRing(w: TxWorld, b: byte, latencies: seq<nat>, bitTime: word)
    requires Inv(w, bitTime) && w.tx.mode != Off && |w.tx.queue| < RING_SZ
    requires |latencies| == Remaining(w) + 10 && WithinBit(latencies, bitTime)
    ensures LegalRun(w, [Put(b)] + Fires(latencies), bitTime)
    ensures var r := Run(w, [Put(b)] + Fires(latencies), bitTime);
            && r.tx.phase == TxIdle && r.tx.queue == [] && r.accepted == w.accepted + [b] == Payload(r.frames)
  {
    var w' := Step(w, Put(b), bitTime);
    StepKeeps(w, Put(b), bitTime);
    Drains(w', latencies, bitTime);
    RunFirst(w, Put(b), Fires(latencies), bitTime);
  }

  /** The kick takes a byte without asking whether there is one: it leaves the ring within its size
      exactly when it found a byte. From an empty ring it sends a stale one and leaves 255, so that no
      write finds room until 248 of them have gone out. */
  lemma KickOnEmptyRing(h: Tx, window: seq<byte>, counter: word, data: seq<byte>)
    requires |window| == RING_SZ && |h.queue| <= RING_SZ
    ensures var h' := Kick(h.(queue := Poppable(h.queue, window)), counter);
            && (|h'.queue| < RING_SZ <==> h.queue != [])
            && (h.queue == [] ==> |h'.queue| == 255 && h'.shift == window[0] && Fits(h', data) == 0)
  {
    if h.queue == [] {
      FirstOfTimes(window, 256 / RING_SZ);
    }
    hide Ring.Times;
  }

  lemma {:induction false} FirstOfTimes(s: seq<byte>, k: nat)
    requires 0 < |s| && 0 < k
    ensures 0 < |Ring.Times(s, k)| && Ring.Times(s, k)[0] == s[0]
  {
    if k > 1 {
      FirstOfTimes(s, k - 1);
    }
  }
}
