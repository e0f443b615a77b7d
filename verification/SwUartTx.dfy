/** The transmit half of the software UART: the state machine of the handle, the compare hardware
    it drives, and whole sessions of writes and interrupts. */
module SwUartTx {
  import opened Bytes
  import Ring
  import opened SwUartLine
  import opened Timer1
  import opened Words

  const RING_SZ: nat := 8
  const LEAD: nat := 120

  datatype Phase = TxIdle | TxData | TxStop

  /** The transmit fields of the handle, the ring as the queue it stands for, and the two registers
      of the CCP module. */
  datatype Tx = Tx(phase: Phase, shift: byte, bitIndex: nat, deadline: word,
                   queue: seq<byte>, mode: CcpMode, compare: word)

  const RESET: Tx := Tx(TxIdle, 0, 0, 0, [], Off, 0)

  function ShiftOut(shift: byte): byte {
    shift >> 1
  }

  /** The transition for the next data bit, the low bit of the shift register. */
  function DataMode(shift: byte): CcpMode {
    if shift & 1 == 1 then CompareSet else CompareClear
  }

  /** Arms the transition after the one that has just matched. */
  function TxEvent(h: Tx, bitTime: word): Tx {
    if h.phase == TxIdle && h.queue == [] then
      h.(mode := Off)
    else
      var next := (h.deadline + bitTime) % WRAP;
      var armed := h.(deadline := next, compare := next);
      match h.phase
      case TxIdle =>
        armed.(shift := h.queue[0], queue := h.queue[1..], bitIndex := 0,
               phase := TxData, mode := CompareClear)
      case TxData =>
        armed.(shift := ShiftOut(h.shift), bitIndex := h.bitIndex + 1,
               phase := if h.bitIndex + 1 >= 8 then TxStop else TxData,
               mode := DataMode(h.shift))
      case TxStop =>
        armed.(phase := TxIdle, mode := CompareSet)
  }

  /** One byte of a write: dropped when the ring is full. */
  function Enqueue(h: Tx, b: byte): Tx {
    if |h.queue| < RING_SZ then h.(queue := h.queue + [b]) else h
  }

  /** The end of a write: an idle machine is started, LEAD cycles after the counter value read. */
  function Kick(h: Tx, counter: word): Tx
    requires h.queue != []
  {
    var start := (counter + LEAD) % WRAP;
    h.(shift := h.queue[0], queue := h.queue[1..], bitIndex := 0, phase := TxData,
       deadline := start, compare := start, mode := CompareClear)
  }

  /** A whole write without interrupts in between: the bytes that fit are stored, and an idle
      machine that was given any is started. */
  function WriteAll(h: Tx, data: seq<byte>, counter: word): Tx {
    var n := Fits(h, data);
    var stored := h.(queue := h.queue + data[..n]);
    if 0 < n && h.phase == TxIdle then Kick(stored, counter) else stored
  }

  /** How many bytes of a write find room. */
  function Fits(h: Tx, data: seq<byte>): (n: nat)
    ensures n <= |data|
  {
    if RING_SZ <= |h.queue| then 0
    else if |data| <= RING_SZ - |h.queue| then |data| else RING_SZ - |h.queue|
  }

  /** What a pop finds in the ring. The count of an empty one wraps, and the array `window` behind it
      is queued again, 32 times over. */
  function Poppable(queue: seq<byte>, window: seq<byte>): (q: seq<byte>)
    requires |window| == RING_SZ
    ensures |q| == if queue == [] then 256 else |queue|
  {
    if queue == [] then Ring.Times(window, 256 / RING_SZ) else queue
  }

  // ---------- sessions ----------

  /** The transmitter in its environment. `edges` is what the pin has done; `frames` and `accepted`
      record the bytes loaded for transmission and the bytes taken by writes. */
  datatype TxWorld = TxWorld(tx: Tx, armed: nat, edges: seq<Edge>, frames: seq<Frame>, accepted: seq<byte>)

  const START: TxWorld := TxWorld(RESET, 0, [], [], [])

  /** When the start edge comes of a write that reads the counter at `now` and has armed the module by
      time `armed`. */
  function StartAt(now: nat, armed: nat): nat {
    NextMatch(armed, (Counter(now) + LEAD) % WRAP)
  }

  /** The start edge comes 120 cycles after the counter was read exactly when the module is armed before
      that. Otherwise the deadline is missed until the timer has turned once more; the frame is late, but
      none the worse. */
  lemma StartIsPromptIff(now: nat, armed: nat)
    requires now <= armed
    ensures StartAt(now, armed) == now + 120 <==> armed < now + 120
    ensures now + 120 <= armed < now + 120 + WRAP ==> StartAt(now, armed) == now + 120 + WRAP
  {
    CounterAdd(now, LEAD);
    if armed < now + LEAD {
      MatchIsExact(armed, now + LEAD);
    } else if armed < now + LEAD + WRAP {
      CounterTurn(now + LEAD);
      MatchIsExact(armed, now + LEAD + WRAP);
    }
  }

  lemma CounterTurn(t: nat)
    ensures Counter(t + WRAP) == Counter(t)
  {
  }

  /** `Fire`: the armed compare matches, the pin moves, and the handler has re-armed the module
      `latency` cycles later. `Put`: a write stores one byte. `EndWrite`: a write reaches its check
      of the phase, reads the counter at `now` and has armed the module by time `armed`. */
  datatype TxStep = Fire(latency: nat) | Put(b: byte) | EndWrite(now: nat, armed: nat)

  predicate Armed(h: Tx) {
    h.mode == CompareClear || h.mode == CompareSet
  }

  function Step(w: TxWorld, s: TxStep, bitTime: word): TxWorld {
    match s
    case Fire(latency) =>
      var at := NextMatch(w.armed, w.tx.compare);
      var tx := TxEvent(w.tx, bitTime);
      w.(tx := tx, armed := at + latency, edges := w.edges + [Edge(at, w.tx.mode == CompareSet)],
         frames := if w.tx.phase == TxIdle && w.tx.queue != []
                   then w.frames + [Frame(NextMatch(at + latency, tx.compare), tx.shift)] else w.frames)
    case Put(b) =>
      w.(tx := Enqueue(w.tx, b), accepted := if |w.tx.queue| < RING_SZ then w.accepted + [b] else w.accepted)
    case EndWrite(now, armed) =>
      if w.tx.phase == TxIdle && w.tx.queue != [] then
        var tx := Kick(w.tx, Counter(now));
        w.(tx := tx, armed := armed, frames := w.frames + [Frame(NextMatch(armed, tx.compare), tx.shift)])
      else
        w
  }

  /** What the environment owes the transmitter. A handler finishes within one bit. A write that
      finds the machine idle does so after the stop edge has been handled, its start edge falls at
      least one bit after the stop edge, and its byte is still in the ring. */
  ghost predicate Legal(w: TxWorld, s: TxStep, bitTime: word) {
    match s
    case Fire(latency) => Armed(w.tx) && latency < bitTime
    case Put(b) => true
    case EndWrite(now, armed) =>
      w.tx.phase == TxIdle ==>
        && w.tx.mode == Off && w.tx.queue != []
        && now <= armed
        && (w.frames == [] || w.frames[|w.frames| - 1].start + 10 * bitTime <= StartAt(now, armed))
  }

  function Run(w: TxWorld, steps: seq<TxStep>, bitTime: word): TxWorld
    decreases steps
  {
    if steps == [] then w else Run(Step(w, steps[0], bitTime), steps[1..], bitTime)
  }

  ghost predicate LegalRun(w: TxWorld, steps: seq<TxStep>, bitTime: word)
    decreases steps
  {
    steps == [] || (Legal(w, steps[0], bitTime) && LegalRun(Step(w, steps[0], bitTime), steps[1..], bitTime))
  }

  function Puts(data: seq<byte>): seq<TxStep> {
    seq(|data|, i requires 0 <= i < |data| => Put(data[i]))
  }

  function Stored(w: TxWorld, data: seq<byte>): TxWorld {
    w.(tx := w.tx.(queue := w.tx.queue + data), accepted := w.accepted + data)
  }

  lemma StoredTwice(w: TxWorld, a: seq<byte>, b: seq<byte>)
    ensures Stored(Stored(w, a), b) == Stored(w, a + b) && Stored(w, []) == w
  {
    assert w.tx.queue + a + b == w.tx.queue + (a + b) && w.accepted + a + b == w.accepted + (a + b);
    assert w.tx.queue + [] == w.tx.queue && w.accepted + [] == w.accepted;
  }

  lemma PutStores(w: TxWorld, b: byte, bitTime: word)
    requires |w.tx.queue| < RING_SZ
    ensures Step(w, Put(b), bitTime) == Stored(w, [b])
  {
  }

  lemma RunFirst(w: TxWorld, s: TxStep, rest: seq<TxStep>, bitTime: word)
    ensures Run(w, [s] + rest, bitTime) == Run(Step(w, s, bitTime), rest, bitTime)
    ensures LegalRun(w, [s] + rest, bitTime) <==> Legal(w, s, bitTime) && LegalRun(Step(w, s, bitTime), rest, bitTime)
    ensures Run(w, [], bitTime) == w && LegalRun(w, [], bitTime)
  {
    hide Step, Legal;
    assert ([s] + rest)[1..] == rest;
  }

  /** Offered one by one, the bytes of a write are accepted up to the first that finds the ring full; no
      byte behind it is. That prefix is what the write reports. */
  lemma {:induction false} PutsAccept(w: TxWorld, data: seq<byte>, bitTime: word)
    ensures var r, n := Run(w, Puts(data), bitTime), Fits(w.tx, data);
            && r == Stored(w, data[..n])
            && (n < |data| ==> 8 <= |w.tx.queue| + n)
            && (0 < n ==> |w.tx.queue| + n <= 8)
    decreases data
  {
    hide Run, Step;
    if data == [] {
      StoredTwice(w, [], []);
      RunFirst(w, Put(0), [], bitTime);
      assert Puts(data) == [];
    } else {
      var rest := data[1..];
      assert data == [data[0]] + rest && Puts(data) == [Put(data[0])] + Puts(rest);
      RunFirst(w, Put(data[0]), Puts(rest), bitTime);
      if |w.tx.queue| < RING_SZ {
        PutStores(w, data[0], bitTime);
        PutsAccept(Stored(w, [data[0]]), rest, bitTime);
        var n := Fits(Stored(w, [data[0]]).tx, rest);
        assert data[..n + 1] == [data[0]] + rest[..n];
        StoredTwice(w, [data[0]], rest[..n]);
      } else {
        PutDrops(w, data[0], bitTime);
        PutsAccept(w, rest, bitTime);
      }
    }
  }

  lemma PutDrops(w: TxWorld, b: byte, bitTime: word)
    requires RING_SZ <= |w.tx.queue|
    ensures Step(w, Put(b), bitTime) == w
  {
  }

  lemma {:induction false} RunConcat(w: TxWorld, a: seq<TxStep>, b: seq<TxStep>, bitTime: word)
    ensures Run(w, a + b, bitTime) == Run(Run(w, a, bitTime), b, bitTime)
    decreases a
  {
    if a == [] {
      assert a + b == b;
    } else {
      assert (a + b)[1..] == a[1..] + b;
      RunConcat(Step(w, a[0], bitTime), a[1..], b, bitTime);
    }
  }

  /** The uninterrupted write is one interleaving of the session model: its bytes, those it has to drop
      included, then its check. */
  lemma WriteIsSteps(w: TxWorld, data: seq<byte>, now: nat, armed: nat, bitTime: word)
    requires 0 < Fits(w.tx, data)
    ensures var w' := Run(w, Puts(data) + [EndWrite(now, armed)], bitTime);
            && w'.tx == WriteAll(w.tx, data, Counter(now))
            && w'.accepted == w.accepted + data[..Fits(w.tx, data)]
  {
    RunConcat(w, Puts(data), [EndWrite(now, armed)], bitTime);
    PutsAccept(w, data, bitTime);
    var mid := Run(w, Puts(data), bitTime);
    assert Run(mid, [EndWrite(now, armed)], bitTime) == Step(mid, EndWrite(now, armed), bitTime);
  }

  // ---------- what every session keeps ----------

  /** The module is armed for cell `k` of the frame `f`. */
  ghost predicate Pending(w: TxWorld, f: Frame, k: nat, bitTime: word) {
    && k <= 9 && Armed(w.tx)
    && w.tx.deadline == w.tx.compare
    && NextMatch(w.armed, w.tx.compare) == f.start + k * bitTime
    && (w.tx.mode == CompareSet <==> FrameLevel(f.data, k))
    && InCell(w.tx, f.data, k)
  }

  ghost predicate Inv(w: TxWorld, bitTime: word) {
    && |w.tx.queue| <= RING_SZ
    && w.accepted == Payload(w.frames) + w.tx.queue
    && Spaced(w.frames, bitTime)
    && Drives(w.edges, w.frames, bitTime)
    && if w.tx.mode == Off
       then w.tx.phase == TxIdle && |w.edges| == 10 * |w.frames|
       else && w.frames != []
            && |w.edges| >= 10 * (|w.frames| - 1)
            && Pending(w, w.frames[|w.frames| - 1], |w.edges| - 10 * (|w.frames| - 1), bitTime)
  }

  /** Loading the next byte keeps accepted = loaded ++ queued. */
  lemma LoadKeepsBytes(w: TxWorld, f: Frame)
    requires w.tx.queue != [] && w.accepted == Payload(w.frames) + w.tx.queue && f.data == w.tx.queue[0]
    ensures w.accepted == Payload(w.frames + [f]) + w.tx.queue[1..]
  {
  }

  /** Re-arming lands the next match exactly one bit after the last just when it is done within that
      bit. */
  lemma RearmIsExactIff(w: TxWorld, latency: nat, bitTime: word)
    requires w.tx.deadline == w.tx.compare
    ensures var at := NextMatch(w.armed, w.tx.compare);
            NextMatch(at + latency, (w.tx.deadline + bitTime) % WRAP) == at + bitTime <==> latency < bitTime
  {
    var at := NextMatch(w.armed, w.tx.compare);
    CounterAdd(at, bitTime);
    if latency < bitTime {
      MatchIsExact(at + latency, at + bitTime);
    }
  }

  lemma DrivesMore(edges: seq<Edge>, frames: seq<Frame>, e: Edge, k: nat, bitTime: nat)
    requires Drives(edges, frames, bitTime) && frames != []
    requires k <= 9 && |edges| == 10 * (|frames| - 1) + k && e == FrameEdge(frames[|frames| - 1], k, bitTime)
    ensures Drives(edges + [e], frames, bitTime)
  {
  }

  lemma DrivesNewFrame(edges: seq<Edge>, frames: seq<Frame>, f: Frame, bitTime: nat)
    requires Drives(edges, frames, bitTime)
    ensures Drives(edges, frames + [f], bitTime)
  {
  }

  /** The matching edge is the one the frame calls for, and the next match is a bit later. */
  lemma FireDrives(w: TxWorld, latency: nat, bitTime: word)
    requires Inv(w, bitTime) && Legal(w, Fire(latency), bitTime)
    ensures var n := |w.frames| - 1;
            var k := |w.edges| - 10 * n;
            var w' := Step(w, Fire(latency), bitTime);
            && Drives(w'.edges, w.frames, bitTime)
            && NextMatch(w'.armed, (w.tx.deadline + bitTime) % WRAP) == w.frames[n].start + (k + 1) * bitTime
  {
    var n := |w.frames| - 1;
    CellDrives(w, w.frames[n], |w.edges| - 10 * n, latency, bitTime);
  }

  lemma CellDrives(w: TxWorld, f: Frame, k: nat, latency: nat, bitTime: word)
    requires w.frames != [] && f == w.frames[|w.frames| - 1] && |w.edges| == 10 * (|w.frames| - 1) + k
    requires Drives(w.edges, w.frames, bitTime) && Pending(w, f, k, bitTime) && latency < bitTime
    ensures var at := NextMatch(w.armed, w.tx.compare);
            && Drives(w.edges + [Edge(at, w.tx.mode == CompareSet)], w.frames, bitTime)
            && NextMatch(at + latency, (w.tx.deadline + bitTime) % WRAP) == f.start + (k + 1) * bitTime
  {
    var at := NextMatch(w.armed, w.tx.compare);
    assert Edge(at, w.tx.mode == CompareSet) == FrameEdge(f, k, bitTime);
    RearmIsExactIff(w, latency, bitTime);
    DrivesMore(w.edges, w.frames, FrameEdge(f, k, bitTime), k, bitTime);
    assert (k + 1) * bitTime == k * bitTime + bitTime;
  }

  lemma FireKeeps(w: TxWorld, latency: nat, bitTime: word)
    requires Inv(w, bitTime) && Legal(w, Fire(latency), bitTime)
    ensures Inv(Step(w, Fire(latency), bitTime), bitTime)
  {
    if w.tx.phase != TxIdle {
      NextBitKeeps(w, latency, bitTime);
    } else if w.tx.queue != [] {
      LoadNextKeeps(w, latency, bitTime);
    } else {
      FireDrives(w, latency, bitTime);
    }
  }

  /** The phase, bit index and shift register while the module is armed for cell `k` of `b`. */
  predicate InCell(h: Tx, b: byte, k: nat) {
    && (k <= 7 ==> h.phase == TxData && h.bitIndex == k && h.shift == Shifted(b, k))
    && (k == 8 ==> h.phase == TxStop)
    && (k == 9 ==> h.phase == TxIdle)
  }

  lemma NextCell(h: Tx, b: byte, k: nat, bitTime: word)
    requires k <= 8 && InCell(h, b, k)
    ensures var h' := TxEvent(h, bitTime);
            && InCell(h', b, k + 1) && Armed(h') && h'.queue == h.queue
            && (h'.mode == CompareSet <==> FrameLevel(b, k + 1))
            && h'.deadline == h'.compare == (h.deadline + bitTime) % WRAP
  {
  }

  lemma NextBitKeeps(w: TxWorld, latency: nat, bitTime: word)
    requires Inv(w, bitTime) && Legal(w, Fire(latency), bitTime) && w.tx.phase != TxIdle
    ensures Inv(Step(w, Fire(latency), bitTime), bitTime)
  {
    var n := |w.frames| - 1;
    var k := |w.edges| - 10 * n;
    var f := w.frames[n];
    var w' := Step(w, Fire(latency), bitTime);
    FireDrives(w, latency, bitTime);
    NextCell(w.tx, f.data, k, bitTime);
    assert Pending(w', f, k + 1, bitTime);
  }

  lemma LoadNextKeeps(w: TxWorld, latency: nat, bitTime: word)
    requires Inv(w, bitTime) && Legal(w, Fire(latency), bitTime)
    requires w.tx.phase == TxIdle && w.tx.queue != []
    ensures Inv(Step(w, Fire(latency), bitTime), bitTime)
  {
    var w' := Step(w, Fire(latency), bitTime);
    FireDrives(w, latency, bitTime);
    var f' := w'.frames[|w.frames|];
    LoadKeepsBytes(w, f');
    DrivesNewFrame(w'.edges, w.frames, f', bitTime);
    assert Pending(w', f', 0, bitTime);
  }

  lemma EndWriteKeeps(w: TxWorld, now: nat, armed: nat, bitTime: word)
    requires Inv(w, bitTime) && Legal(w, EndWrite(now, armed), bitTime)
    ensures Inv(Step(w, EndWrite(now, armed), bitTime), bitTime)
  {
    if w.tx.phase == TxIdle {
      var w' := Step(w, EndWrite(now, armed), bitTime);
      var f := w'.frames[|w.frames|];
      assert f.start == StartAt(now, armed);
      LoadKeepsBytes(w, f);
      DrivesNewFrame(w.edges, w.frames, f, bitTime);
      assert Pending(w', f, 0, bitTime);
    }
  }

  lemma StepKeeps(w: TxWorld, s: TxStep, bitTime: word)
    requires Inv(w, bitTime) && Legal(w, s, bitTime)
    ensures Inv(Step(w, s, bitTime), bitTime)
  {
    match s
    case Fire(latency) => FireKeeps(w, latency, bitTime);
    case EndWrite(now, armed) => EndWriteKeeps(w, now, armed, bitTime);
    case Put(b) =>
      var w' := Step(w, s, bitTime);
      assert w'.frames == w.frames && w'.edges == w.edges;
      if |w.tx.queue| < RING_SZ {
        assert w'.accepted == Payload(w.frames) + w'.tx.queue;
      }
  }

  lemma {:induction false} RunKeeps(w: TxWorld, steps: seq<TxStep>, bitTime: word)
    requires Inv(w, bitTime) && LegalRun(w, steps, bitTime)
    ensures Inv(Run(w, steps, bitTime), bitTime)
    decreases steps
  {
    if steps != [] {
      StepKeeps(w, steps[0], bitTime);
      RunKeeps(Step(w, steps[0], bitTime), steps[1..], bitTime);
    }
  }

  /** Every legal session, whatever the handler latencies and the interleaving of writes: frame
      starts are at least ten bits apart, transition `j` of a frame happens at exactly its start
      plus `j` bit times with the level the frame calls for, and the accepted bytes are those
      loaded so far followed by the ring. */
  lemma {:induction false} SessionWaveform(steps: seq<TxStep>, bitTime: word)
    requires LegalRun(START, steps, bitTime)
    ensures var w := Run(START, steps, bitTime);
            && Spaced(w.frames, bitTime)
            && Drives(w.edges, w.frames, bitTime)
            && w.accepted == Payload(w.frames) + w.tx.queue
            && (w.tx.mode == Off ==> |w.edges| == 10 * |w.frames|)
            && (w.tx.mode != Off ==> 10 * (|w.frames| - 1) <= |w.edges| < 10 * |w.frames|)
  {
    RunKeeps(START, steps, bitTime);
  }

  // ---------- bursts ----------

  /** The indices of the frames started by a write to an idle machine. All others are loaded by the
      handler of the stop edge before. */
  function Kicked(w: TxWorld, steps: seq<TxStep>, bitTime: word): set<nat>
    decreases steps
  {
    if steps == [] then {}
    else
      (if steps[0].EndWrite? && w.tx.phase == TxIdle && w.tx.queue != [] then {|w.frames|} else {})
      + Kicked(Step(w, steps[0], bitTime), steps[1..], bitTime)
  }

  /** Every frame but the first and those started by a write follows its predecessor without a gap. */
  ghost predicate BackToBack(frames: seq<Frame>, kicked: set<nat>, bitTime: nat) {
    forall i {:trigger frames[i]} :: 0 < i < |frames| && i !in kicked ==>
      frames[i].start == frames[i - 1].start + 10 * bitTime
  }

  /** The frame that a handler loads starts one bit after the stop edge it handles. */
  lemma LoadsOnTime(w: TxWorld, latency: nat, bitTime: word)
    requires Inv(w, bitTime) && Legal(w, Fire(latency), bitTime) && w.tx.phase == TxIdle && w.tx.queue != []
    ensures var n := |w.frames|;
            var frames := Step(w, Fire(latency), bitTime).frames;
            && 0 < n && |frames| == n + 1 && frames[..n] == w.frames
            && frames[n].start == w.frames[n - 1].start + 10 * bitTime
  {
    FireDrives(w, latency, bitTime);
    assert |w.edges| == 10 * |w.frames| - 1;
  }

  lemma StepBackToBack(w: TxWorld, s: TxStep, kicked: set<nat>, bitTime: word)
    requires Inv(w, bitTime) && Legal(w, s, bitTime) && BackToBack(w.frames, kicked, bitTime)
    ensures var more := if s.EndWrite? && w.tx.phase == TxIdle && w.tx.queue != [] then {|w.frames|} else {};
            BackToBack(Step(w, s, bitTime).frames, kicked + more, bitTime)
  {
    if s.Fire? && w.tx.phase == TxIdle && w.tx.queue != [] {
      LoadsOnTime(w, s.latency, bitTime);
    }
  }

  lemma {:induction false} RunBackToBack(w: TxWorld, steps: seq<TxStep>, kicked: set<nat>, bitTime: word)
    requires Inv(w, bitTime) && LegalRun(w, steps, bitTime) && BackToBack(w.frames, kicked, bitTime)
    ensures BackToBack(Run(w, steps, bitTime).frames, kicked + Kicked(w, steps, bitTime), bitTime)
    decreases steps
  {
    hide Step, Legal, Inv, BackToBack;
    if steps == [] {
      assert kicked + {} == kicked;
    } else {
      var w' := Step(w, steps[0], bitTime);
      var more := if steps[0].EndWrite? && w.tx.phase == TxIdle && w.tx.queue != [] then {|w.frames|} else {};
      StepKeeps(w, steps[0], bitTime);
      StepBackToBack(w, steps[0], kicked, bitTime);
      RunBackToBack(w', steps[1..], kicked + more, bitTime);
      assert kicked + more + Kicked(w', steps[1..], bitTime) == kicked + Kicked(w, steps, bitTime);
    }
  }

  lemma Times(a: int, b: int, t: int)
    ensures (a + b) * t == a * t + b * t
  {
  }

  lemma {:induction false} EvenStarts(frames: seq<Frame>, kicked: set<nat>, from: nat, n: nat, bitTime: nat)
    requires BackToBack(frames, kicked, bitTime) && from + n < |frames|
    requires forall i: nat {:trigger i in kicked} :: from < i <= from + n ==> i !in kicked
    ensures frames[from + n].start == frames[from].start + (10 * n) * bitTime
  {
    if n > 0 {
      EvenStarts(frames, kicked, from, n - 1, bitTime);
      assert frames[from + n].start == frames[from + n - 1].start + 10 * bitTime;
      hide *;
      Times(10 * (n - 1), 10, bitTime);
      assert 10 * (n - 1) + 10 == 10 * n;
    }
  }

  /** Transition `j` of a burst is the one that its frame calls for, `j` bit times after its start. */
  lemma BurstEdge(edges: seq<Edge>, frames: seq<Frame>, kicked: set<nat>, from: nat, j: nat, bitTime: nat)
    requires Drives(edges, frames, bitTime) && BackToBack(frames, kicked, bitTime) && 10 * from + j < |edges|
    requires forall i: nat {:trigger i in kicked} :: from < i <= from + j / 10 ==> i !in kicked
    ensures from + j / 10 < |frames|
    ensures edges[10 * from + j]
            == Edge(frames[from].start + j * bitTime, FrameLevel(frames[from + j / 10].data, j % 10))
  {
    var n, k := j / 10, j % 10;
    assert j == 10 * n + k && (10 * from + j) / 10 == from + n && (10 * from + j) % 10 == k;
    assert edges[10 * from + j] == FrameEdge(frames[from + n], k, bitTime);
    EvenStarts(frames, kicked, from, n, bitTime);
    hide FrameLevel, Drives, BackToBack;
    Times(10 * n, k, bitTime);
  }

  /** A burst does not drift. In every legal session, whatever the handler latencies and the
      interleaving of writes, transition `j` of a burst, counted across all its frames from the one
      that a write started, happens at exactly the start of the burst plus `j` bit times, and with
      the level its frame calls for. */
  lemma BurstWaveform(steps: seq<TxStep>, from: nat, j: nat, bitTime: word)
    requires LegalRun(START, steps, bitTime)
    requires 10 * from + j < |Run(START, steps, bitTime).edges|
    requires forall i: nat {:trigger i in Kicked(START, steps, bitTime)} :: from < i <= from + j / 10 ==>
               i !in Kicked(START, steps, bitTime)
    ensures var w := Run(START, steps, bitTime);
            && from + j / 10 < |w.frames|
            && w.edges[10 * from + j] == Edge(w.frames[from].start + j * bitTime,
                                              FrameLevel(w.frames[from + j / 10].data, j % 10))
  {
    var w, kicked := Run(START, steps, bitTime), Kicked(START, steps, bitTime);
    RunKeeps(START, steps, bitTime);
    RunBackToBack(START, steps, {}, bitTime);
    assert {} + kicked == kicked;
    hide Run, Kicked, LegalRun;
    BurstEdge(w.edges, w.frames, kicked, from, j, bitTime);
  }

  /** Writes start frames only while the module is off. So all frames loaded while it stays on belong
      to the burst of the last frame before. */
  lemma {:induction false} OneBurst(w: TxWorld, steps: seq<TxStep>, bitTime: word)
    requires LegalRun(w, steps, bitTime) && StaysOn(w, steps, bitTime)
    ensures Kicked(w, steps, bitTime) == {}
    decreases steps
  {
    if steps != [] {
      OneBurst(Step(w, steps[0], bitTime), steps[1..], bitTime);
    }
  }

  predicate StaysOn(w: TxWorld, steps: seq<TxStep>, bitTime: word)
    decreases steps
  {
    w.tx.mode != Off && (steps != [] ==> StaysOn(Step(w, steps[0], bitTime), steps[1..], bitTime))
  }

  lemma {:induction false} KickedConcat(w: TxWorld, a: seq<TxStep>, b: seq<TxStep>, bitTime: word)
    ensures Kicked(w, a + b, bitTime) == Kicked(w, a, bitTime) + Kicked(Run(w, a, bitTime), b, bitTime)
    ensures LegalRun(w, a + b, bitTime) <==> LegalRun(w, a, bitTime) && LegalRun(Run(w, a, bitTime), b, bitTime)
    decreases a
  {
    hide Step, Legal;
    if a == [] {
      assert a + b == b;
    } else {
      assert (a + b)[1..] == a[1..] + b;
      KickedConcat(Step(w, a[0], bitTime), a[1..], b, bitTime);
    }
  }

  lemma {:induction false} KickedSoFar(w: TxWorld, steps: seq<TxStep>, bitTime: word)
    ensures |w.frames| <= |Run(w, steps, bitTime).frames|
    ensures forall i {:trigger i in Kicked(w, steps, bitTime)} :: i in Kicked(w, steps, bitTime) ==>
              i < |Run(w, steps, bitTime).frames|
    decreases steps
  {
    if steps != [] {
      KickedSoFar(Step(w, steps[0], bitTime), steps[1..], bitTime);
    }
  }

  /** While the module stays on, every transition comes a whole number of bit times after the start of
      the frame that was being sent at first. */
  lemma NoDriftWhileOn(before: seq<TxStep>, steps: seq<TxStep>, j: nat, bitTime: word)
    requires LegalRun(START, before + steps, bitTime)
    requires var w := Run(START, before, bitTime);
             w.frames != [] && StaysOn(w, steps, bitTime)
    requires 10 * (|Run(START, before, bitTime).frames| - 1) + j < |Run(START, before + steps, bitTime).edges|
    ensures var from, w := |Run(START, before, bitTime).frames| - 1, Run(START, before + steps, bitTime);
            && from + j / 10 < |w.frames|
            && w.edges[10 * from + j] == Edge(w.frames[from].start + j * bitTime,
                                              FrameLevel(w.frames[from + j / 10].data, j % 10))
  {
    KickedConcat(START, before, steps, bitTime);
    KickedSoFar(START, before, bitTime);
    OneBurst(Run(START, before, bitTime), steps, bitTime);
    BurstWaveform(before + steps, |Run(START, before, bitTime).frames| - 1, j, bitTime);
  }

  // ---------- the transmitter always finishes ----------

  function Fires(latencies: seq<nat>): seq<TxStep> {
    seq(|latencies|, i requires 0 <= i < |latencies| => Fire(latencies[i]))
  }

  predicate WithinBit(latencies: seq<nat>, bitTime: nat) {
    forall i {:trigger latencies[i]} :: 0 <= i < |latencies| ==> latencies[i] < bitTime
  }

  /** The matches it takes to send everything accepted. */
  function Remaining(w: TxWorld): int {
    10 * |w.tx.queue| + 10 * |w.frames| - |w.edges|
  }

  lemma FireShape(w: TxWorld, latency: nat, bitTime: word)
    requires Inv(w, bitTime) && w.tx.mode != Off && latency < bitTime
    ensures Legal(w, Fire(latency), bitTime) && 0 < Remaining(w)
    ensures var w' := Step(w, Fire(latency), bitTime);
            && Remaining(w') == Remaining(w) - 1
            && w'.accepted == w.accepted && (w'.tx.mode == Off ==> w'.tx.queue == [])
  {
  }

  lemma OffIsComplete(w: TxWorld, bitTime: word)
    requires Inv(w, bitTime) && w.tx.mode == Off && w.tx.queue == []
    ensures w.accepted == Payload(w.frames) && |w.edges| == 10 * |w.frames| && Remaining(w) == 0
  {
    assert Payload(w.frames) + [] == Payload(w.frames);
  }

  lemma OnIsUnfinished(w: TxWorld, bitTime: word)
    requires Inv(w, bitTime) && w.tx.mode != Off
    ensures 0 < Remaining(w)
  {
  }

  /** Left to itself a running transmitter sends everything it has accepted and switches off, after
      exactly the matches that takes, whatever the latencies of their handlers. */
  lemma {:induction false} Drains(w: TxWorld, latencies: seq<nat>, bitTime: word)
    requires Inv(w, bitTime) && w.tx.mode != Off
    requires |latencies| == Remaining(w) && WithinBit(latencies, bitTime)
    ensures LegalRun(w, Fires(latencies), bitTime)
    ensures var r := Run(w, Fires(latencies), bitTime);
            && Inv(r, bitTime) && r.tx.mode == Off && r.tx.queue == []
            && r.accepted == w.accepted == Payload(r.frames) && |r.edges| == 10 * |r.frames|
    decreases latencies
  {
    OnIsUnfinished(w, bitTime);
    var latency, rest := latencies[0], latencies[1..];
    assert WithinBit(rest, bitTime);
    hide *;
    var w' := Step(w, Fire(latency), bitTime);
    FireShape(w, latency, bitTime);
    StepKeeps(w, Fire(latency), bitTime);
    FiresFirst(latencies);
    RunFirst(w, Fire(latency), Fires(rest), bitTime);
    if w'.tx.mode == Off {
      OffIsComplete(w', bitTime);
      RunFirst(w', Fire(0), [], bitTime);
    } else {
      OnIsUnfinished(w', bitTime);
      Drains(w', rest, bitTime);
    }
  }

  lemma FiresFirst(latencies: seq<nat>)
    ensures latencies == [] ==> Fires(latencies) == []
    ensures latencies != [] ==> Fires(latencies) == [Fire(latencies[0])] + Fires(latencies[1..])
  {
  }

  /** The handling of a bit before the stop bit. */
  lemma BitShape(w: TxWorld, latency: nat, bitTime: word)
    requires Inv(w, bitTime) && w.tx.mode != Off && |w.edges| < 10 * |w.frames| - 1 && latency < bitTime
    ensures Legal(w, Fire(latency), bitTime)
    ensures var w' := Step(w, Fire(latency), bitTime);
            && w'.frames == w.frames && w'.tx.queue == w.tx.queue
            && |w'.edges| == |w.edges| + 1 && w'.tx.mode != Off
  {
  }

  lemma IdleBeforeStop(w: TxWorld, bitTime: word)
    requires Inv(w, bitTime) && w.tx.mode != Off && |w.edges| == 10 * |w.frames| - 1
    ensures w.tx.phase == TxIdle
  {
  }

  /** Every frame leads to the point where the machine is idle and its stop edge still to come. */
  lemma {:induction false} ReachesStop(w: TxWorld, latencies: seq<nat>, bitTime: word)
    requires Inv(w, bitTime) && w.tx.mode != Off
    requires |w.edges| + |latencies| == 10 * |w.frames| - 1 && WithinBit(latencies, bitTime)
    ensures LegalRun(w, Fires(latencies), bitTime)
    ensures var r := Run(w, Fires(latencies), bitTime);
            Inv(r, bitTime) && r.tx.phase == TxIdle && r.tx.mode != Off && r.tx.queue == w.tx.queue
    decreases latencies
  {
    if latencies == [] {
      hide *;
      FiresFirst(latencies);
      RunFirst(w, Fire(0), [], bitTime);
      IdleBeforeStop(w, bitTime);
    } else {
      var latency, rest := latencies[0], latencies[1..];
      assert WithinBit(rest, bitTime);
      hide *;
      BitShape(w, latency, bitTime);
      StepKeeps(w, Fire(latency), bitTime);
      ReachesStop(Step(w, Fire(latency), bitTime), rest, bitTime);
      FiresFirst(latencies);
      RunFirst(w, Fire(latency), Fires(rest), bitTime);
    }
  }
}
