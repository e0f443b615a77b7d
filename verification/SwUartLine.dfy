/** The serial line of the software UART: what a frame looks like in time, and the pin level that a
    history of transitions produces. */
module SwUartLine {
  import opened Arith
  import opened Bytes

  /** The shift register after `i` right shifts. */
  function Shifted(b: byte, i: nat): byte {
    if i == 0 then b else Shifted(b, i - 1) >> 1
  }

  predicate Bit(b: byte, i: nat) {
    Shifted(b, i) & 1 == 1
  }

  /** The line level in bit cell `k` of a frame: low start, eight data bits from the least
      significant one, high stop. */
  predicate FrameLevel(b: byte, k: nat) {
    if k == 0 then false else if k <= 8 then Bit(b, k - 1) else true
  }

  /** Cell 0 is low, cells 1 to 8 are bits 0 to 7 of the byte, cell 9 is high. */
  lemma FrameIs(b: byte, k: nat)
    requires k <= 9
    ensures FrameLevel(b, k) <==> k == 9 || (1 <= k <= 8 && (b >> (k - 1)) & 1 == 1)
  {
    if 1 <= k <= 8 {
      ShiftedIs(b);
      hide Shifted;
      if k == 1 {} else if k == 2 {} else if k == 3 {} else if k == 4 {}
      else if k == 5 {} else if k == 6 {} else if k == 7 {} else {}
    }
  }

  lemma ShiftedIs(b: byte)
    ensures Shifted(b, 0) == b && Shifted(b, 1) == b >> 1 && Shifted(b, 2) == b >> 2
    ensures Shifted(b, 3) == b >> 3 && Shifted(b, 4) == b >> 4
    ensures Shifted(b, 5) == b >> 5 && Shifted(b, 6) == b >> 6 && Shifted(b, 7) == b >> 7
  {
  }

  /** A byte and the time of its start edge. */
  datatype Frame = Frame(start: nat, data: byte)

  /** A pin transition made by the compare hardware. */
  datatype Edge = Edge(time: nat, level: bool)

  function Payload(frames: seq<Frame>): (bs: seq<byte>)
    ensures |bs| == |frames|
    ensures forall i {:trigger bs[i]} | 0 <= i < |bs| :: bs[i] == frames[i].data
  {
    seq(|frames|, i requires 0 <= i < |frames| => frames[i].data)
  }

  /** Consecutive frames leave at least one full stop bit between them. */
  ghost predicate Spaced(frames: seq<Frame>, bitTime: nat) {
    forall i {:trigger frames[i]} :: 0 < i < |frames| ==> frames[i - 1].start + 10 * bitTime <= frames[i].start
  }

  /** The `k`-th transition of a frame, free of drift. */
  function FrameEdge(f: Frame, k: nat, bitTime: nat): Edge {
    Edge(f.start + k * bitTime, FrameLevel(f.data, k))
  }

  /** The transitions on the pin are those of the frames, in order, up to the present. */
  ghost predicate Drives(edges: seq<Edge>, frames: seq<Frame>, bitTime: nat) {
    |edges| <= 10 * |frames| &&
    forall j {:trigger edges[j]} :: 0 <= j < |edges| ==> edges[j] == FrameEdge(frames[j / 10], j % 10, bitTime)
  }

  /** The pin holds the level of the latest transition; before the first one it idles high. */
  predicate PinAt(edges: seq<Edge>, t: nat) {
    if edges == [] then true
    else if edges[|edges| - 1].time <= t then edges[|edges| - 1].level
    else PinAt(edges[..|edges| - 1], t)
  }

  /** The pin goes low at time `t`. */
  predicate Falling(edges: seq<Edge>, t: nat) {
    0 < t && !PinAt(edges, t) && PinAt(edges, t - 1)
  }

  ghost predicate Sorted(edges: seq<Edge>) {
    forall j {:trigger edges[j]} :: 0 < j < |edges| ==> edges[j - 1].time < edges[j].time
  }

  /** All frames have been driven to their stop edge. */
  ghost predicate Complete(edges: seq<Edge>, frames: seq<Frame>, bitTime: nat) {
    && 0 < bitTime && Spaced(frames, bitTime)
    && |edges| == 10 * |frames| && Drives(edges, frames, bitTime)
  }

  lemma WithinFrame(f: Frame, k: nat, bitTime: nat)
    requires 0 < k && 0 < bitTime
    ensures FrameEdge(f, k - 1, bitTime).time < FrameEdge(f, k, bitTime).time
  {
    assert k * bitTime == (k - 1) * bitTime + bitTime;
  }

  lemma BetweenFrames(f: Frame, g: Frame, bitTime: nat)
    requires 0 < bitTime && f.start + 10 * bitTime <= g.start
    ensures FrameEdge(f, 9, bitTime).time < FrameEdge(g, 0, bitTime).time
  {
  }

  lemma CompleteSorted(edges: seq<Edge>, frames: seq<Frame>, bitTime: nat)
    requires Complete(edges, frames, bitTime)
    ensures Sorted(edges)
  {
    hide FrameEdge;
    forall j | 0 < j < |edges|
      ensures edges[j - 1].time < edges[j].time
    {
      var i, k := j / 10, j % 10;
      if k == 0 {
        assert (j - 1) / 10 == i - 1 && (j - 1) % 10 == 9;
        BetweenFrames(frames[i - 1], frames[i], bitTime);
      } else {
        assert (j - 1) / 10 == i && (j - 1) % 10 == k - 1;
        WithinFrame(frames[i], k, bitTime);
      }
    }
  }

  lemma {:induction false} LastIsLatest(edges: seq<Edge>, j: nat)
    requires Sorted(edges) && j < |edges|
    ensures edges[j].time <= edges[|edges| - 1].time
  {
    if j + 1 < |edges| {
      assert Sorted(edges[..|edges| - 1]);
      LastIsLatest(edges[..|edges| - 1], j);
    }
  }

  lemma {:induction false} PinIs(edges: seq<Edge>, j: nat, t: nat)
    requires Sorted(edges) && j < |edges| && edges[j].time <= t
    requires j + 1 < |edges| ==> t < edges[j + 1].time
    ensures PinAt(edges, t) == edges[j].level
  {
    if j + 1 < |edges| {
      LastIsLatest(edges, j + 1);
      PinIs(edges[..|edges| - 1], j, t);
    }
  }

  lemma {:induction false} PinBefore(edges: seq<Edge>, t: nat)
    requires edges != [] ==> t < edges[0].time
    requires Sorted(edges)
    ensures PinAt(edges, t)
  {
    if edges != [] {
      LastIsLatest(edges, 0);
      PinBefore(edges[..|edges| - 1], t);
    }
  }

  /** In bit cell `k` of frame `i` the pin shows that cell's level; the stop cell lasts until the
      next frame starts. */
  lemma PinInCell(edges: seq<Edge>, frames: seq<Frame>, bitTime: nat, i: nat, k: nat, t: nat)
    requires Complete(edges, frames, bitTime) && i < |frames| && k <= 9
    requires frames[i].start + k * bitTime <= t
    requires k < 9 ==> t < frames[i].start + (k + 1) * bitTime
    requires k == 9 && i + 1 < |frames| ==> t < frames[i + 1].start
    ensures PinAt(edges, t) == FrameLevel(frames[i].data, k)
  {
    hide Drives, Spaced, FrameLevel;
    CompleteSorted(edges, frames, bitTime);
    EdgeOf(edges, frames, bitTime, i, k);
    if k < 9 {
      EdgeOf(edges, frames, bitTime, i, k + 1);
    } else if i + 1 < |frames| {
      EdgeOf(edges, frames, bitTime, i + 1, 0);
    }
    PinIs(edges, 10 * i + k, t);
  }

  lemma EdgeOf(edges: seq<Edge>, frames: seq<Frame>, bitTime: nat, i: nat, k: nat)
    requires Complete(edges, frames, bitTime) && i < |frames| && k <= 9
    ensures 10 * i + k < |edges|
    ensures edges[10 * i + k] == FrameEdge(frames[i], k, bitTime)
  {
    hide Spaced, FrameEdge;
    DivModUnique(10 * i + k, 10, i, k);
  }

  lemma PinBeforeFirst(edges: seq<Edge>, frames: seq<Frame>, bitTime: nat, t: nat)
    requires Complete(edges, frames, bitTime) && (frames != [] ==> t < frames[0].start)
    ensures PinAt(edges, t)
  {
    CompleteSorted(edges, frames, bitTime);
    if frames != [] {
      assert edges[0] == FrameEdge(frames[0], 0, bitTime);
    }
    PinBefore(edges, t);
  }
}
