/** The fixed-point PID controller: Q8.8 gains, an integrator clamped to the output rails, and the
    hand-over between manual and automatic mode. */
module Pid {
  import opened PicKernels
  import PicMultiply

  datatype Mode = Manual | Auto

  datatype State = State(kp: sword, ki: sword, kd: sword, outMin: sword, outMax: sword,
                         integrator: int, prev: sword, havePrev: bool, skip: bool, mode: Mode, manual: sword)

  predicate Fits32(x: int) {
    -0x8000_0000 <= x < 0x8000_0000
  }

  function Clamp(x: int, lo: int, hi: int): int {
    var y := if x < lo then lo else x;
    if y > hi then hi else y
  }

  /** The error term as the subtraction is cast back to int16. */
  function P(s: State, setpoint: sword, measurement: sword): int {
    s.kp * Cast16(setpoint - measurement)
  }

  /** Minus the gain times the change of the measurement, zero on the first call. */
  function D(s: State, measurement: sword): int {
    if s.havePrev then -(s.kd * Cast16(measurement - s.prev)) else 0
  }

  function Lo(s: State): int {
    s.outMin * 256
  }

  function Hi(s: State): int {
    s.outMax * 256
  }

  /** The integrator before its clamp in an automatic step. */
  function Accumulated(s: State, setpoint: sword, measurement: sword): int {
    if s.skip then s.integrator else s.integrator + s.ki * Cast16(setpoint - measurement)
  }

  /** The integrator a manual step aims for, so that the next automatic step reproduces its output. */
  function BackCalculated(s: State, setpoint: sword, measurement: sword): int {
    Clamp(s.manual, s.outMin, s.outMax) * 256 - P(s, setpoint, measurement) - D(s, measurement)
  }

  /** Everything the step computes fits the 32-bit arithmetic of the source. */
  predicate NoOverflow(s: State, setpoint: sword, measurement: sword) {
    match s.mode
    case Manual =>
      && Fits32(Clamp(s.manual, s.outMin, s.outMax) * 256 - P(s, setpoint, measurement))
      && Fits32(BackCalculated(s, setpoint, measurement))
    case Auto =>
      && Fits32(Accumulated(s, setpoint, measurement))
      && var i := Clamp(Accumulated(s, setpoint, measurement), Lo(s), Hi(s));
         Fits32(P(s, setpoint, measurement) + i) && Fits32(P(s, setpoint, measurement) + i + D(s, measurement))
  }

  /** P + I + D of an automatic step. */
  function Sum(s: State, setpoint: sword, measurement: sword): int {
    P(s, setpoint, measurement) + Clamp(Accumulated(s, setpoint, measurement), Lo(s), Hi(s)) + D(s, measurement)
  }

  /** One control period: the new state and the output. */
  function Step(s: State, setpoint: sword, measurement: sword): (State, int) {
    var s' := s.(havePrev := true, prev := measurement);
    match s.mode
    case Manual =>
      (s'.(integrator := Clamp(BackCalculated(s, setpoint, measurement), Lo(s), Hi(s)), skip := true),
       Clamp(s.manual, s.outMin, s.outMax))
    case Auto =>
      (s'.(integrator := Clamp(Accumulated(s, setpoint, measurement), Lo(s), Hi(s)), skip := false),
       Clamp(Cast16(Sum(s, setpoint, measurement) / 256), s.outMin, s.outMax))
  }

  // ---------- rails over every sequence of calls ----------

  datatype Call =
    | Update(setpoint: sword, measurement: sword)
    | SetGains(kp: sword, ki: sword, kd: sword)
    | SetMode(mode: Mode)
    | SetManual(value: sword)
    | Reset

  function Apply(s: State, c: Call): State {
    match c
    case Update(sp, m) => Step(s, sp, m).0
    case SetGains(kp, ki, kd) => s.(kp := kp, ki := ki, kd := kd)
    case SetMode(mode) => s.(mode := mode)
    case SetManual(v) => s.(manual := v)
    case Reset => s.(integrator := 0, havePrev := false, skip := false)
  }

  function Run(s: State, calls: seq<Call>): State
    decreases |calls|
  {
    if calls == [] then s else Run(Apply(s, calls[0]), calls[1..])
  }

  predicate InRails(s: State) {
    Lo(s) <= s.integrator <= Hi(s)
  }

  lemma StepKeepsRails(s: State, setpoint: sword, measurement: sword)
    requires s.outMin <= s.outMax
    ensures var (s', out) := Step(s, setpoint, measurement);
            s.outMin <= out <= s.outMax && InRails(s') && (s'.outMin, s'.outMax) == (s.outMin, s.outMax)
  {
  }

  /** After any calls, an update answers within the rails and leaves the integrator within them; a
      state within the rails leaves them only through a reset of rails that do not span zero. */
  lemma {:induction false} RailsHold(s: State, calls: seq<Call>, setpoint: sword, measurement: sword)
    requires s.outMin <= s.outMax
    ensures var r := Run(s, calls);
            var (s', out) := Step(r, setpoint, measurement);
            && r.outMin == s.outMin && r.outMax == s.outMax
            && s.outMin <= out <= s.outMax && InRails(s')
    ensures InRails(s) && (Reset !in calls || s.outMin <= 0 <= s.outMax) ==> InRails(Run(s, calls))
    decreases |calls|
  {
    hide Step;
    if calls == [] {
      StepKeepsRails(s, setpoint, measurement);
    } else {
      var c := calls[0];
      if c.Update? {
        StepKeepsRails(s, c.setpoint, c.measurement);
      }
      assert Reset !in calls ==> Reset !in calls[1..] && c != Reset;
      RailsHold(Apply(s, c), calls[1..], setpoint, measurement);
    }
  }

  /** What the updates among the calls answer. */
  function Outputs(s: State, calls: seq<Call>): seq<int>
    decreases |calls|
  {
    if calls == [] then []
    else
      var later := Outputs(Apply(s, calls[0]), calls[1..]);
      if calls[0].Update? then [Step(s, calls[0].setpoint, calls[0].measurement).1] + later else later
  }

  /** The same controller, but for a measurement that neither of them will look at. */
  predicate Alike(s: State, t: State) {
    s == t.(prev := s.prev) && (s.havePrev ==> s.prev == t.prev)
  }

  lemma {:induction false} AlikeAnswerAlike(s: State, t: State, calls: seq<Call>)
    requires Alike(s, t)
    ensures Outputs(s, calls) == Outputs(t, calls)
    decreases |calls|
  {
    if calls != [] {
      var c := calls[0];
      if c.Update? {
        AlikeSteps(s, t, c.setpoint, c.measurement);
      }
      AlikeAnswerAlike(Apply(s, c), Apply(t, c), calls[1..]);
    }
  }

  lemma AlikeSteps(s: State, t: State, setpoint: sword, measurement: sword)
    requires Alike(s, t)
    ensures Step(s, setpoint, measurement) == Step(t, setpoint, measurement)
  {
    assert D(s, measurement) == D(t, measurement);
    assert P(s, setpoint, measurement) == P(t, setpoint, measurement);
    hide P, D, Clamp, Cast16;
  }

  /** A reset leaves no trace of what came before it: from then on the controller answers as one just set up
      with the same gains, rails, mode and manual output. */
  lemma ResetIsFresh(s: State, calls: seq<Call>)
    ensures Outputs(s, [Reset] + calls)
         == Outputs(State(s.kp, s.ki, s.kd, s.outMin, s.outMax, 0, 0, false, false, s.mode, s.manual), calls)
  {
    var anew := State(s.kp, s.ki, s.kd, s.outMin, s.outMax, 0, 0, false, false, s.mode, s.manual);
    assert ([Reset] + calls)[1..] == calls;
    AlikeAnswerAlike(Apply(s, Reset), anew, calls);
  }

  /** The automatic output is the clamped floor of (P + I + D) / 256 exactly when that sum is within 24
      bits, or the int16 cast, which comes before the clamp, still lands on or past the rail that the
      sum asks for, or both rails are the same. */
  lemma AutoOutputIff(s: State, setpoint: sword, measurement: sword)
    requires s.mode == Auto && s.outMin <= s.outMax
    ensures var sum := Sum(s, setpoint, measurement);
            Step(s, setpoint, measurement).1 == Clamp(sum / 256, s.outMin, s.outMax)
            <==> || -0x80_0000 <= sum < 0x80_0000
                 || s.outMin == s.outMax
                 || (0x80_0000 <= sum && s.outMax <= Cast16(sum / 256))
                 || (sum < -0x80_0000 && Cast16(sum / 256) <= s.outMin)
  {
    var sum := Sum(s, setpoint, measurement);
    assert Step(s, setpoint, measurement).1 == Clamp(Cast16(sum / 256), s.outMin, s.outMax);
    hide *;
    CastedClamp(sum, s.outMin, s.outMax);
  }

  lemma CastedClamp(sum: int, lo: sword, hi: sword)
    requires lo <= hi
    ensures Clamp(Cast16(sum / 256), lo, hi) == Clamp(sum / 256, lo, hi)
            <==> || -0x80_0000 <= sum < 0x80_0000
                 || lo == hi
                 || (0x80_0000 <= sum && hi <= Cast16(sum / 256))
                 || (sum < -0x80_0000 && Cast16(sum / 256) <= lo)
  {
    if -0x80_0000 <= sum < 0x80_0000 {
      CastInRange(sum / 256);
    }
    hide Cast16;
  }

  lemma CastInRange(x: int)
    requires -0x8000 <= x < 0x8000
    ensures Cast16(x) == x
  {
  }

  /** A sum of 2^23: the proportional term alone asks for the upper rail and the output is the lower. */
  lemma CastBeforeClamp()
    ensures var s := State(512, 0, 0, -100, 100, 0, 0, false, false, Auto, 0);
            && Sum(s, 16384, 0) == 0x80_0000
            && Step(s, 16384, 0).1 == -100 && Clamp(Sum(s, 16384, 0) / 256, -100, 100) == 100
  {
  }

  // ---------- the direction of control ----------

  /** `x` held between two rails. */
  predicate Held(y: int, x: int, lo: int, hi: int) {
    y == if x < lo then lo else if hi < x then hi else x
  }

  /** No difference of the inputs leaves 16 bits. */
  predicate Near(s: State, setpoint: sword, measurement: sword) {
    && -0x8000 <= setpoint - measurement < 0x8000
    && (s.havePrev ==> -0x8000 <= measurement - s.prev < 0x8000)
  }

  lemma NearIs(s: State, setpoint: sword, measurement: sword)
    requires Near(s, setpoint, measurement)
    ensures P(s, setpoint, measurement) == s.kp * (setpoint - measurement)
    ensures D(s, measurement) == if s.havePrev then -(s.kd * (measurement - s.prev)) else 0
    ensures Cast16(setpoint - measurement) == setpoint - measurement
  {
    CastInRange(setpoint - measurement);
    if s.havePrev {
      CastInRange(measurement - s.prev);
    }
    hide Cast16;
  }

  /** An automatic step: the error is integrated between the rails, the output is proportional to the
      error, plus the integral, minus the rise of the measurement since the last step. */
  lemma AutomaticStep(s: State, setpoint: sword, measurement: sword)
    requires s.mode == Auto && s.outMin <= s.outMax && Near(s, setpoint, measurement)
    ensures var (s', out) := Step(s, setpoint, measurement);
            var e := setpoint - measurement;
            var rise := if s.havePrev then measurement - s.prev else 0;
            var sum := s.kp * e + s'.integrator - s.kd * rise;
            && Held(s'.integrator, if s.skip then s.integrator else s.integrator + s.ki * e,
                    256 * s.outMin, 256 * s.outMax)
            && (-0x80_0000 <= sum < 0x80_0000 ==> Held(out, sum / 256, s.outMin, s.outMax))
            && s' == s.(integrator := s'.integrator, havePrev := true, prev := measurement, skip := false)
  {
    NearIs(s, setpoint, measurement);
    AutoOutputIff(s, setpoint, measurement);
    hide P, D, Cast16;
  }

  /** A manual step: the output is the set one between the rails, and the integrator what is missing
      from it. */
  lemma ManualStep(s: State, setpoint: sword, measurement: sword)
    requires s.mode == Manual && s.outMin <= s.outMax && Near(s, setpoint, measurement)
    ensures var (s', out) := Step(s, setpoint, measurement);
            var rise := if s.havePrev then measurement - s.prev else 0;
            && Held(out, s.manual, s.outMin, s.outMax)
            && Held(s'.integrator, 256 * out - s.kp * (setpoint - measurement) + s.kd * rise,
                    256 * s.outMin, 256 * s.outMax)
            && s' == s.(integrator := s'.integrator, havePrev := true, prev := measurement, skip := true)
  {
    NearIs(s, setpoint, measurement);
    hide P, D, Cast16;
  }

  /** Updates that all see the error `e`. */
  predicate SeeError(calls: seq<Call>, e: int) {
    forall i {:trigger calls[i]} :: 0 <= i < |calls| ==>
      calls[i].Update? && calls[i].setpoint - calls[i].measurement == e
  }

  /** A constant error winds the integrator by ki * e a step, up to the rails and no further. */
  lemma {:induction false} IntegratesError(s: State, calls: seq<Call>, e: int)
    requires s.mode == Auto && !s.skip && s.outMin <= s.outMax && InRails(s)
    requires -0x8000 <= e < 0x8000 && SeeError(calls, e)
    ensures Held(Run(s, calls).integrator, s.integrator + |calls| * (s.ki * e), 256 * s.outMin, 256 * s.outMax)
    decreases |calls|
  {
    var n, x := |calls|, s.ki * e;
    if n == 0 {
      assert 0 * x == 0;
    } else {
      var c := calls[0];
      var s' := Apply(s, c);
      CastInRange(e);
      assert s'.integrator == Clamp(s.integrator + x, Lo(s), Hi(s));
      hide Step, Cast16;
      assert s'.mode == Auto && !s'.skip && InRails(s') && s'.ki == s.ki by { StepIs(s, c.setpoint, c.measurement); }
      assert s'.outMin == s.outMin && s'.outMax == s.outMax by { StepIs(s, c.setpoint, c.measurement); }
      IntegratesError(s', calls[1..], e);
      Winds(s.integrator, s'.integrator, Run(s', calls[1..]).integrator, x, n, 256 * s.outMin, 256 * s.outMax);
    }
  }

  lemma StepIs(s: State, setpoint: sword, measurement: sword)
    requires s.mode == Auto && s.outMin <= s.outMax
    ensures var s' := Step(s, setpoint, measurement).0;
            && s' == s.(integrator := s'.integrator, havePrev := true, prev := measurement, skip := false)
            && InRails(s')
  {
  }

  lemma Winds(i: int, i1: int, r: int, x: int, n: nat, lo: int, hi: int)
    requires lo <= i <= hi && 0 < n && Held(i1, i + x, lo, hi) && Held(r, i1 + (n - 1) * x, lo, hi)
    ensures Held(r, i + n * x, lo, hi)
  {
    assert n * x == (n - 1) * x + x;
    SameSign(n - 1, x);
  }

  lemma SameSign(n: nat, x: int)
    ensures (0 <= x ==> 0 <= n * x) && (x <= 0 ==> n * x <= 0)
  {
  }

  lemma Scale(k: int, a: int, b: int)
    requires 0 <= k && a <= b
    ensures k * a <= k * b
  {
    assert k * b == k * a + k * (b - a);
    SameSign(k, b - a);
  }

  /** With gains of the usual sign, a higher setpoint never lowers the output and a higher measurement
      never raises it. */
  lemma OutputFollowsError(s: State, setpoint: sword, measurement: sword, setpoint': sword, measurement': sword)
    requires s.mode == Auto && s.outMin <= s.outMax && 0 <= s.kp && 0 <= s.ki && 0 <= s.kd
    requires setpoint <= setpoint' && measurement' <= measurement
    requires Near(s, setpoint, measurement) && Near(s, setpoint', measurement')
    requires -0x80_0000 <= Sum(s, setpoint, measurement) && Sum(s, setpoint', measurement') < 0x80_0000
    ensures Step(s, setpoint, measurement).0.integrator <= Step(s, setpoint', measurement').0.integrator
    ensures Step(s, setpoint, measurement).1 <= Step(s, setpoint', measurement').1
  {
    var e, e' := setpoint - measurement, setpoint' - measurement';
    NearIs(s, setpoint, measurement);
    NearIs(s, setpoint', measurement');
    Scale(s.kp, e, e');
    Scale(s.ki, e, e');
    if s.havePrev {
      Scale(s.kd, measurement' - s.prev, measurement - s.prev);
    }
    hide P, D, Cast16;
    var low, high := Sum(s, setpoint, measurement), Sum(s, setpoint', measurement');
    assert low <= high;
    Floors(low, high);
    CastInRange(low / 256);
    CastInRange(high / 256);
  }

  lemma Floors(low: int, high: int)
    requires -0x80_0000 <= low <= high < 0x80_0000
    ensures -0x8000 <= low / 256 <= high / 256 < 0x8000
  {
  }

  // ---------- bumpless transfer ----------

  /** The measurement does not move into a step. */
  predicate Steady(s: State, measurement: sword) {
    !s.havePrev || s.prev == measurement
  }

  /** By how many output steps, rounded up, the rails cut the back-calculated integrator; negative
      when it was raised to the lower rail. */
  function Overshoot(s: State, setpoint: sword, measurement: sword): int {
    var raw := BackCalculated(s, setpoint, measurement);
    -((Clamp(raw, Lo(s), Hi(s)) - raw) / 256)
  }

  /** Manual, then automatic with the same setpoint, gains and an unmoved measurement: the second
      output is the held one exactly when the rails cut the integrator by a multiple of 2^16 output
      steps, zero above all, or the output was held on a rail and what the cast makes of the missed
      output lies on or past it. */
  lemma BumplessIff(s: State, setpoint: sword, measurement: sword)
    requires s.mode == Manual && s.outMin <= s.outMax && Steady(s, measurement)
    ensures var (after, out) := Step(s, setpoint, measurement);
            var k := Overshoot(s, setpoint, measurement);
            Step(after.(mode := Auto), setpoint, measurement).1 == out
            <==> || k % 0x1_0000 == 0
                 || (out == s.outMin && Cast16(out - k) <= out)
                 || (out == s.outMax && out <= Cast16(out - k))
  {
    HandOver(s, setpoint, measurement);
    var out := Step(s, setpoint, measurement).1;
    assert s.outMin <= out <= s.outMax;
    hide *;
    CastedStep(out, Overshoot(s, setpoint, measurement), s.outMin, s.outMax);
  }

  /** The first automatic output after the hand-over. */
  lemma HandOver(s: State, setpoint: sword, measurement: sword)
    requires s.mode == Manual && s.outMin <= s.outMax && Steady(s, measurement)
    ensures var (after, out) := Step(s, setpoint, measurement);
            var k := Overshoot(s, setpoint, measurement);
            var held := after.(mode := Auto);
            && Sum(held, setpoint, measurement) / 256 == out - k
            && Step(held, setpoint, measurement).1 == Clamp(Cast16(out - k), s.outMin, s.outMax)
  {
    var (after, out) := Step(s, setpoint, measurement);
    var held := after.(mode := Auto);
    NoChangeNoD(s, measurement);
    NoChangeNoD(held, measurement);
    var p := P(s, setpoint, measurement);
    var raw := BackCalculated(s, setpoint, measurement);
    var kept := Clamp(raw, Lo(s), Hi(s));
    assert raw == out * 256 - p;
    assert Sum(held, setpoint, measurement) == p + kept == out * 256 + (kept - raw);
  }

  lemma CastedStep(out: int, k: int, lo: sword, hi: sword)
    requires lo <= out <= hi
    ensures Clamp(Cast16(out - k), lo, hi) == out
            <==> k % 0x1_0000 == 0 || (out == lo && Cast16(out - k) <= out) || (out == hi && out <= Cast16(out - k))
  {
    CastFixes(out, k);
    hide Cast16;
  }

  lemma CastFixes(out: sword, k: int)
    ensures Cast16(out - k) == out <==> k % 0x1_0000 == 0
  {
  }

  /** While the held sum is within 24 bits, that means: the integrator was kept, or fell short of the
      lower rail by less than one output step, or the output already sat on the rail that the
      proportional term pushes towards. */
  lemma BumplessWithin24Bits(s: State, setpoint: sword, measurement: sword)
    requires s.mode == Manual && s.outMin <= s.outMax && Steady(s, measurement)
    requires var held := Step(s, setpoint, measurement).0.(mode := Auto);
             -0x80_0000 <= Sum(held, setpoint, measurement) < 0x80_0000
    ensures var (after, out) := Step(s, setpoint, measurement);
            var raw := BackCalculated(s, setpoint, measurement);
            Step(after.(mode := Auto), setpoint, measurement).1 == out
            <==> || Lo(s) - 256 < raw <= Hi(s)
                 || (Hi(s) < raw && out == s.outMin)
                 || (raw <= Lo(s) - 256 && out == s.outMax)
  {
    HandOver(s, setpoint, measurement);
    var out := Step(s, setpoint, measurement).1;
    var k := Overshoot(s, setpoint, measurement);
    assert s.outMin <= out <= s.outMax;
    hide P, D, Sum, Step, BackCalculated, Cast16;
    CastInRange(out - k);
    SmallOvershoot(BackCalculated(s, setpoint, measurement), s.outMin, s.outMax, out, k);
  }

  lemma SmallOvershoot(raw: int, lo: int, hi: int, out: int, k: int)
    requires lo <= out <= hi && k == -((Clamp(raw, lo * 256, hi * 256) - raw) / 256)
    ensures Clamp(out - k, lo, hi) == out
            <==> || lo * 256 - 256 < raw <= hi * 256
                 || (hi * 256 < raw && out == lo)
                 || (raw <= lo * 256 - 256 && out == hi)
  {
  }

  /** Holding the upper rail against a proportional term far beyond 24 bits is bumpless although the
      integrator was clamped: the missed output wraps around to the rail. */
  lemma WrappedHandOver()
    ensures var s := State(512, 0, 0, -100, 100, 0, 0, false, false, Manual, 100);
            var (after, out) := Step(s, -16435, 0);
            && out == 100 && Hi(s) < BackCalculated(s, -16435, 0)
            && Step(after.(mode := Auto), -16435, 0).1 == out
  {
    var s := State(512, 0, 0, -100, 100, 0, 0, false, false, Manual, 100);
    assert Cast16(-16435 - 0) == -16435;
    assert P(s, -16435, 0) == 512 * -16435;
    NoChangeNoD(s, 0);
    hide P, D;
    assert BackCalculated(s, -16435, 0) == 8440320;
    assert Overshoot(s, -16435, 0) == 32870;
    assert Cast16(100 - 32870) == 32766;
    BumplessIff(s, -16435, 0);
  }

  lemma NoChangeNoD(s: State, measurement: sword)
    requires Steady(s, measurement)
    ensures D(s, measurement) == 0
  {
  }

  // ---------- the controller ----------

  function Limit(x: sword, lo: sword, hi: sword): (r: sword)
    requires lo <= hi
    ensures r == Clamp(x, lo, hi)
  {
    var y := if x < lo then lo else x;
    if y > hi then hi else y
  }

  /** The fields of `pid_t`. */
  class Controller {
    var kp: sword
    var ki: sword
    var kd: sword
    var outMin: sword
    var outMax: sword
    var integrator: int
    var prev: sword
    var havePrev: bool
    var skip: bool
    var mode: Mode
    var manual: sword

    ghost function View(): State
      reads this
    {
      State(kp, ki, kd, outMin, outMax, integrator, prev, havePrev, skip, mode, manual)
    }

    constructor (kp: sword, ki: sword, kd: sword, outMin: sword, outMax: sword)
      ensures View() == State(kp, ki, kd, outMin, outMax, 0, 0, false, false, Auto, 0)
    {
      this.kp, this.ki, this.kd, this.outMin, this.outMax := kp, ki, kd, outMin, outMax;
      integrator, prev, havePrev, skip, mode, manual := 0, 0, false, false, Auto, 0;
    }

    method ResetState()
      modifies this`integrator, this`havePrev, this`skip
      ensures View() == Apply(old(View()), Reset)
      ensures integrator == 0 && !havePrev && !skip
    {
      integrator, havePrev, skip := 0, false, false;
    }

    method ChangeGains(kp: sword, ki: sword, kd: sword)
      modifies this`kp, this`ki, this`kd
      ensures View() == Apply(old(View()), SetGains(kp, ki, kd))
      ensures this.kp == kp && this.ki == ki && this.kd == kd
    {
      this.kp, this.ki, this.kd := kp, ki, kd;
    }

    method ChangeMode(mode: Mode)
      modifies this`mode
      ensures View() == Apply(old(View()), SetMode(mode))
      ensures this.mode == mode
    {
      this.mode := mode;
    }

    method ChangeManualOutput(value: sword)
      modifies this`manual
      ensures View() == Apply(old(View()), SetManual(value))
      ensures manual == value
    {
      manual := value;
    }

    method UpdateOnce(setpoint: sword, measurement: sword) returns (output: sword)
      requires outMin <= outMax && NoOverflow(View(), setpoint, measurement)
      modifies this`integrator, this`prev, this`havePrev, this`skip
      ensures (View(), output as int) == Step(old(View()), setpoint, measurement)
    {
      var error := Cast16(setpoint - measurement);
      var p := PicMultiply.MulS16(kp, error);
      var dmeas: sword := 0;
      if havePrev {
        dmeas := Cast16(measurement - prev);
      } else {
        havePrev := true;
      }
      prev := measurement;
      var kdTerm := PicMultiply.MulS16(kd, dmeas);
      var d := -(kdTerm as int);
      assert p as int == P(old(View()), setpoint, measurement) && d == D(old(View()), measurement);
      hide P, D, Cast16;
      var lo, hi := outMin * 256, outMax * 256;
      if mode == Manual {
        output := Limit(manual, outMin, outMax);
        integrator := Clamp(output * 256 - p - d, lo, hi);
        skip := true;
        return;
      }
      if !skip {
        var i := PicMultiply.MulS16(ki, error);
        integrator := integrator + i;
      }
      skip := false;
      integrator := Clamp(integrator, lo, hi);
      output := Limit(Cast16((p + integrator + d) / 256), outMin, outMax);
    }
  }
}
