/** The free-running 16-bit Timer1 and the CCP modules that compare against it. Time is an unbounded
    count of instruction cycles; the hardware only ever sees it modulo 2^16. */
module Timer1 {
  import opened Words

  const WRAP: nat := 0x1_0000

  /** CCP modes the software UART uses. Compare modes drive the pin at the match; capture and the
      software-interrupt compare do not. */
  datatype CcpMode = Off | CompareClear | CompareSet | CompareSoftIf | CaptureFalling

  /** The counter value at a point of unbounded time. */
  function Counter(time: nat): word {
    time % WRAP
  }

  /** When a compare register armed at time `armed` with value `v` matches: the first later
      instant at which the counter shows `v`. */
  function NextMatch(armed: nat, v: word): (t: nat)
    ensures armed < t <= armed + WRAP && Counter(t) == v
  {
    armed + 1 + (v - (armed + 1)) % WRAP
  }

  /** A deadline less than one wrap ahead of the arming is met exactly, however often the counter
      has wrapped before. */
  lemma MatchIsExact(armed: nat, t: nat)
    requires armed < t <= armed + WRAP
    ensures NextMatch(armed, Counter(t)) == t
  {
    assert (Counter(t) - (armed + 1)) % WRAP == (t - (armed + 1)) % WRAP;
  }

  /** Adding a delay to a 16-bit deadline follows unbounded time through the wrap. */
  lemma CounterAdd(t: nat, d: nat)
    ensures (Counter(t) + d) % WRAP == Counter(t + d)
  {
  }
}
