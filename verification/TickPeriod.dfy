/** The Timer2 configuration search of the 1 ms timebase. */
module TickPeriod {
  import opened Arith

  datatype Prescaler = Pre16 | Pre4 | Pre1

  function Ratio(p: Prescaler): nat {
    match p case Pre16 => 16 case Pre4 => 4 case Pre1 => 1
  }

  /** PR2, the prescaler, and the postscaler register value (ratio minus one). */
  datatype Config = Config(pr2: nat, pre: Prescaler, post: nat)

  predicate Exists(c: Config) {
    c.pr2 <= 255 && c.post <= 15
  }

  /** Instruction cycles per tick. */
  function Cycles(c: Config): nat {
    Ratio(c.pre) * (c.post + 1) * (c.pr2 + 1)
  }

  function Error(cycles: nat, target: nat): nat {
    if cycles >= target then cycles - target else target - cycles
  }

  /** Instruction cycles in a millisecond, at least one. */
  function Target(foscHz: nat): nat {
    if foscHz / 4000 == 0 then 1 else foscHz / 4000
  }

  /** No configuration of the timer comes closer to the target. */
  ghost predicate Optimal(c: Config, target: nat) {
    && Exists(c)
    && forall d: Config {:trigger Cycles(d)} :: Exists(d) ==> Error(Cycles(c), target) <= Error(Cycles(d), target)
  }

  /** The count of a scaler pair, rounded down. */
  function Floor(target: nat, pq: nat): (n: nat)
    requires 0 < pq
    ensures pq * n <= target < pq * n + pq
  {
    target / pq
  }

  /** `err` is a lower bound for every period `pq * n` that the pair's floor is in range for. */
  ghost predicate Covered(pq: nat, target: nat, err: nat)
    requires 0 < pq
  {
    Floor(target, pq) <= 256 ==> forall n {:trigger pq * n} :: 1 <= n <= 256 ==> err <= Error(pq * n, target)
  }

  /** Floor and ceiling of target / pq, where they are valid counts, are the best counts of a pair. */
  lemma FloorOrCeiling(pq: nat, target: nat, err: nat)
    requires 0 < pq
    requires var n := Floor(target, pq);
             (1 <= n <= 256 ==> err <= Error(pq * n, target)) && (n + 1 <= 256 ==> err <= Error(pq * (n + 1), target))
    ensures Covered(pq, target, err)
  {
    hide Floor;
    var f := Floor(target, pq);
    assert pq * (f + 1) == pq * f + pq;
    forall n | 1 <= n <= 256 && f <= 256
      ensures err <= Error(pq * n, target)
    {
      if n <= f {
        MulMonotone(n, f, pq);
        CloserFromBelow(pq * n, pq * f, target);
      } else {
        MulMonotone(f + 1, n, pq);
        CloserFromAbove(pq * (f + 1), pq * n, target);
      }
    }
  }

  lemma CloserFromBelow(a: nat, b: nat, target: nat)
    requires a <= b <= target
    ensures Error(b, target) <= Error(a, target)
  {
  }

  lemma CloserFromAbove(a: nat, b: nat, target: nat)
    requires target <= a <= b
    ensures Error(a, target) <= Error(b, target)
  {
  }

  /** A pair whose floor is out of range is beaten by the largest pair, whose error is the target
      modulo 256. */
  lemma BeatenByLargest(pq: nat, n: nat, target: nat, err: nat)
    requires 1 <= pq && 256 < Floor(target, pq) && target <= 65791 && 1 <= n <= 256
    requires Covered(256, target, err)
    ensures err <= Error(pq * n, target)
  {
    var f, top := Floor(target, pq), target / 256;
    assert target == f * pq + target % pq;
    MulMonotone(257, f, pq);
    assert 257 * pq <= target;
    assert pq <= top;
    assert err <= Error(256 * top, target) == target % 256;
    MulMonotone(n, 256, pq);
    assert pq * n <= 256 * pq;
    assert target - 256 * pq >= target % 256;
  }

  predicate Earlier(i: nat, q: nat, i': nat, q': nat) {
    i < i' || (i == i' && q < q')
  }

  const ORDER: seq<Prescaler> := [Pre16, Pre4, Pre1]

  /** The pairs before (i, q) in the search order are covered by `err`. */
  ghost predicate CoveredUpTo(i: nat, q: nat, target: nat, err: nat) {
    forall i0: nat, q0: nat {:trigger Earlier(i0, q0, i, q)} ::
      i0 < 3 && 1 <= q0 <= 16 && Earlier(i0, q0, i, q) ==> Covered(Ratio(ORDER[i0]) * q0, target, err)
  }

  /** Where the search comes to a prescaler. */
  function Place(p: Prescaler): (i: nat)
    ensures i < 3 && ORDER[i] == p
  {
    match p case Pre16 => 0 case Pre4 => 1 case Pre1 => 2
  }

  /** Which configuration the search would come to first. */
  predicate Sooner(d: Config, c: Config) {
    Earlier(Place(d.pre), d.post, Place(c.pre), c.post) || (d.pre == c.pre && d.post == c.post && d.pr2 < c.pr2)
  }

  /** Every configuration the search comes to sooner is worse, if the floor of its pair is in range. */
  ghost predicate First(c: Config, target: nat) {
    forall d: Config {:trigger Sooner(d, c)} ::
      Exists(d) && Sooner(d, c) && Floor(target, Ratio(d.pre) * (d.post + 1)) <= 256 ==>
        Error(Cycles(c), target) < Error(Cycles(d), target)
  }

  /** What the search has kept: nothing yet, or a configuration with its error. */
  ghost predicate Kept(best: Config, err: nat, target: nat) {
    && Exists(best)
    && (if err == 0xFFFF_FFFF then best == Config(255, Pre1, 0) else err == Error(Cycles(best), target))
    && (65791 < target ==> err == 0xFFFF_FFFF)
    && (err != 0xFFFF_FFFF ==> First(best, target))
  }

  lemma CoverageOnlyImproves(i: nat, q: nat, target: nat, err: nat, err': nat)
    requires CoveredUpTo(i, q, target, err) && err' <= err
    ensures CoveredUpTo(i, q, target, err')
  {
  }

  /** A count that improves on everything tried before it is the first one as good. */
  lemma FirstSoFar(c: Config, target: nat, err: nat)
    requires Exists(c) && Error(Cycles(c), target) < err && CoveredUpTo(Place(c.pre), c.post + 1, target, err)
    requires var pq := Ratio(c.pre) * (c.post + 1);
             var n := Floor(target, pq);
             c.pr2 + 1 == n || (c.pr2 == n && (1 <= n ==> err <= Error(pq * n, target)))
    ensures First(c, target)
  {
    forall d: Config | Exists(d) && Sooner(d, c) && Floor(target, Ratio(d.pre) * (d.post + 1)) <= 256
      ensures Error(Cycles(c), target) < Error(Cycles(d), target)
    {
      var pq := Ratio(d.pre) * (d.post + 1);
      assert Cycles(d) == pq * (d.pr2 + 1);
      if Earlier(Place(d.pre), d.post, Place(c.pre), c.post) {
        assert Earlier(Place(d.pre), d.post + 1, Place(c.pre), c.post + 1);
        assert Covered(pq, target, err);
      } else {
        FewerIsWorse(pq, target, d.pr2 + 1, c.pr2 + 1, err);
      }
    }
  }

  lemma FewerIsWorse(pq: nat, target: nat, fewer: nat, count: nat, err: nat)
    requires 0 < pq && 1 <= fewer < count && Error(pq * count, target) < err
    requires var n := Floor(target, pq); count == n || (count == n + 1 && err <= Error(pq * n, target))
    ensures Error(pq * count, target) < Error(pq * fewer, target)
  {
    hide Floor;
    var n := Floor(target, pq);
    MulMonotone(fewer, n, pq);
    MulStep(fewer, count, pq);
  }

  /** `nn` is the floor, or the ceiling after the floor has been tried. */
  ghost predicate InTurn(pq: nat, nn: nat, target: nat, err: nat)
    requires 0 < pq
  {
    var n := Floor(target, pq);
    nn == n || (nn == n + 1 && (1 <= n <= 256 ==> err <= Error(pq * n, target)))
  }

  /** Tries one count of a pair, the floor or the one after it, if it is a valid one. */
  method TryCount(pre: Prescaler, q: nat, pq: nat, nn: nat, target: nat, best0: Config, err0: nat)
    returns (best: Config, err: nat)
    requires 1 <= q <= 16 && 0 < pq == Ratio(pre) * q && target <= 1_073_741 && Kept(best0, err0, target)
    requires 65791 < target ==> 256 < nn
    requires CoveredUpTo(Place(pre), q, target, err0)
    requires InTurn(pq, nn, target, err0)
    ensures Kept(best, err, target) && err <= err0
    ensures 1 <= nn <= 256 ==> err <= Error(pq * nn, target)
  {
    best, err := best0, err0;
    if 1 <= nn <= 256 {
      var cand := pq * nn;
      var e := Error(cand, target);
      if e < err {
        CandBound(pq, nn, target);
        best := Config(nn - 1, pre, q - 1);
        assert Cycles(best) == cand;
        FirstSoFar(best, target, err);
        err := e;
      }
    }
  }

  lemma TakeTurns(pq: nat, k: nat, target: nat, err: nat)
    requires 0 < pq && k < 2
    requires 1 <= k && 1 <= Floor(target, pq) <= 256 ==> err <= Error(pq * (Floor(target, pq)), target)
    ensures InTurn(pq, Floor(target, pq) + k, target, err)
  {
  }

  /** Tries the floor and the ceiling of one pair. */
  method TryPair(pre: Prescaler, q: nat, target: nat, best0: Config, err0: nat) returns (best: Config, err: nat)
    requires 1 <= q <= 16 && 1 <= target <= 1_073_741 && Kept(best0, err0, target)
    requires CoveredUpTo(Place(pre), q, target, err0)
    ensures Kept(best, err, target) && err <= err0 && Covered(Ratio(pre) * q, target, err)
  {
    hide Kept, Covered, Error, Ratio, CoveredUpTo, Place, InTurn, Floor;
    assert 1 <= Ratio(pre) * q <= 256 by { RatioBound(pre, q); }
    best, err := best0, err0;
    var pq := Ratio(pre) * q;
    var n := Floor(target, pq);
    FloorOutOfRange(pq, target);
    var k := 0;
    while k < 2
      invariant 0 <= k <= 2 && Kept(best, err, target) && err <= err0
      invariant 1 <= k && 1 <= n <= 256 ==> err <= Error(pq * n, target)
      invariant 2 <= k && 1 <= n + 1 <= 256 ==> err <= Error(pq * (n + 1), target)
    {
      CoverageOnlyImproves(Place(pre), q, target, err0, err);
      assert InTurn(pq, n + k, target, err) by { TakeTurns(pq, k, target, err); }
      best, err := TryCount(pre, q, pq, n + k, target, best, err);
      k := k + 1;
    }
    FloorOrCeiling(pq, target, err);
  }

  lemma RatioBound(pre: Prescaler, q: nat)
    requires 1 <= q <= 16
    ensures 1 <= Ratio(pre) * q <= 256
  {
  }

  lemma FloorOutOfRange(pq: nat, target: nat)
    requires 1 <= pq <= 256
    ensures 65791 < target ==> 256 < Floor(target, pq)
  {
    hide Floor;
    var n := Floor(target, pq);
    if n <= 256 {
      MulMonotone(n + 1, 257, pq);
      MulMonotone(pq, 256, 257);
    }
  }

  lemma CandBound(pq: nat, nn: nat, target: nat)
    requires pq <= 256 && nn <= 256 && target <= 1_073_741
    ensures Error(pq * nn, target) < 0xFFFF_FFFF
  {
    MulMonotone(pq, 256, nn);
  }

  /** How far a tick is from a millisecond, in clock periods times a thousand: four clock periods make an
      instruction cycle, and a millisecond has foscHz / 1000 of them. */
  function Deviation(c: Config, foscHz: nat): nat {
    Error(4000 * Cycles(c), foscHz)
  }

  /** What is best for the rounded target is best for the clock itself, but for the rounding: no other
      configuration is closer to a millisecond by more than twice the remainder, none at all if the
      clock is a multiple of 4 kHz. */
  lemma OptimalForTheClock(c: Config, d: Config, foscHz: nat)
    requires Optimal(c, Target(foscHz)) && Exists(d)
    ensures Deviation(c, foscHz) <= Deviation(d, foscHz) + 2 * (foscHz % 4000)
  {
    CyclesPositive(c);
    CyclesPositive(d);
    assert Error(Cycles(c), Target(foscHz)) <= Error(Cycles(d), Target(foscHz));
    var t, r := foscHz / 4000, foscHz % 4000;
    assert foscHz == 4000 * t + r;
    hide Cycles;
    if t == 0 {
      assert Exists(Config(0, Pre1, 0));
      OneCycle();
      assert Error(Cycles(c), 1) <= Error(Cycles(Config(0, Pre1, 0)), 1);
    }
  }

  lemma CyclesPositive(c: Config)
    ensures 1 <= Cycles(c)
  {
    MulAtLeast(Ratio(c.pre), c.post + 1);
    MulAtLeast(Ratio(c.pre) * (c.post + 1), c.pr2 + 1);
  }

  lemma OneCycle()
    ensures Cycles(Config(0, Pre1, 0)) == 1
  {
  }

  /** The search tries at most two counts per prescaler and postscaler pair; its result is a global
      optimum over all configurations exactly when the target is at most 65791 cycles, the largest
      that the longest period can still round to. Beyond that it falls back to 256 cycles. */
  method ComputePeriod(foscHz: nat) returns (best: Config)
    requires foscHz < 0x1_0000_0000
    ensures Exists(best)
    ensures Optimal(best, Target(foscHz)) <==> Target(foscHz) <= 65791
    ensures Target(foscHz) <= 65791 ==> First(best, Target(foscHz))
    ensures 65791 < Target(foscHz) ==> best == Config(255, Pre1, 0)
  {
    var target := Target(foscHz);
    var err := 0xFFFF_FFFF;
    best := Config(255, Pre1, 0);
    var i := 0;
    while i < 3
      invariant 0 <= i <= 3 && Kept(best, err, target) && CoveredUpTo(i, 1, target, err)
    {
      var q := 1;
      while q <= 16
        invariant 1 <= q <= 17 && Kept(best, err, target) && CoveredUpTo(i, q, target, err)
      {
        ghost var before := err;
        best, err := TryPair(ORDER[i], q, target, best, err);
        CoverageOnlyImproves(i, q, target, before, err);
        CoverNext(i, q, target, err);
        q := q + 1;
      }
      RowDone(i, target, err);
      i := i + 1;
    }
    if target <= 65791 {
      CoverageIsOptimal(best, err, target);
    } else {
      FallbackIsWorse(target);
    }
  }

  lemma CoverNext(i: nat, q: nat, target: nat, err: nat)
    requires i < 3 && 1 <= q && CoveredUpTo(i, q, target, err) && Covered(Ratio(ORDER[i]) * q, target, err)
    ensures CoveredUpTo(i, q + 1, target, err)
  {
    forall i0: nat, q0: nat | i0 < 3 && 1 <= q0 <= 16 && Earlier(i0, q0, i, q + 1)
      ensures Covered(Ratio(ORDER[i0]) * q0, target, err)
    {
      assert Earlier(i0, q0, i, q) || (i0 == i && q0 == q);
    }
  }

  lemma RowDone(i: nat, target: nat, err: nat)
    requires i < 3 && CoveredUpTo(i, 17, target, err)
    ensures CoveredUpTo(i + 1, 1, target, err)
  {
    forall i0: nat, q0: nat | i0 < 3 && 1 <= q0 <= 16 && Earlier(i0, q0, i + 1, 1)
      ensures Covered(Ratio(ORDER[i0]) * q0, target, err)
    {
      assert Earlier(i0, q0, i, 17);
    }
  }

  /** The bound holds for every configuration. */
  lemma CoverageBounds(err: nat, target: nat, d: Config)
    requires 1 <= target <= 65791 && CoveredUpTo(3, 1, target, err) && Exists(d)
    ensures err <= Error(Cycles(d), target)
  {
    var i0: nat := match d.pre case Pre16 => 0 case Pre4 => 1 case Pre1 => 2;
    assert Earlier(0, 16, 3, 1) && Earlier(i0, d.post + 1, 3, 1);
    var pq := Ratio(d.pre) * (d.post + 1);
    assert Covered(256, target, err) && Covered(pq, target, err);
    assert Cycles(d) == pq * (d.pr2 + 1) && 1 <= pq && d.pr2 + 1 <= 256;
    PairBounds(pq, d.pr2 + 1, target, err);
  }

  lemma PairBounds(pq: nat, n: nat, target: nat, err: nat)
    requires 1 <= target <= 65791 && 1 <= pq && 1 <= n <= 256
    requires Covered(256, target, err) && Covered(pq, target, err)
    ensures err <= Error(pq * n, target)
  {
    if Floor(target, pq) <= 256 {
      assert err <= Error(pq * n, target);
    } else {
      BeatenByLargest(pq, n, target, err);
    }
  }

  lemma CoverageIsOptimal(best: Config, err: nat, target: nat)
    requires 1 <= target <= 65791 && Kept(best, err, target) && CoveredUpTo(3, 1, target, err)
    ensures Optimal(best, target) && First(best, target)
  {
    forall d: Config | Exists(d)
      ensures err <= Error(Cycles(d), target)
    {
      CoverageBounds(err, target, d);
    }
    // some configuration was kept: the longest period is already closer than the initial error
    var longest := Config(255, Pre16, 15);
    assert Exists(longest) && Cycles(longest) == 65536;
  }

  lemma FallbackIsWorse(target: nat)
    requires 65791 < target
    ensures !Optimal(Config(255, Pre1, 0), target)
  {
    var longest := Config(255, Pre16, 15);
    assert Exists(longest) && Cycles(longest) == 65536;
    assert Cycles(Config(255, Pre1, 0)) == 256;
  }
}
