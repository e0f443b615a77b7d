/** The 1 ms timebase as a whole: the configuration the search finds, put into Timer2, and the interrupts
    that come of it. */
module Timebase {
  import opened Arith
  import opened Bytes
  import opened TickPeriod
  import opened Timer246
  import opened Timer2

  /** The handle the timebase fills in. */
  function Setting(c: Config): Handle
    requires Exists(c)
  {
    Handle(match c.pre case Pre1 => 0 case Pre4 => 1 case Pre16 => 2, c.post as byte, c.pr2)
  }

  /** Timer2 from reset, started with a configuration. */
  function SetUp(c: Config): Timer
    requires Exists(c)
  {
    Started(PowerOn(), Setting(c))
  }

  lemma SetUpIs(c: Config)
    requires Exists(c)
    ensures var t := SetUp(c);
            && Running(t) && t.pr == c.pr2 <= 255 && Period(t) == Cycles(c)
            && forall n: nat :: Events(t, n) == n / Cycles(c)
  {
    var h := Setting(c);
    ControlDecodes(h);
    SmallPost(c.post);
    assert Running(SetUp(c));
    hide On, Control, Running, Period, Events, Started;
    StartIsExactIff(PowerOn(), h);
    Regrouped(Ratio(c.pre), c.pr2 + 1, c.post + 1);
  }

  lemma Regrouped(a: nat, b: nat, c: nat)
    ensures a * b * c == a * c * b
  {
  }

  lemma SmallPost(post: nat)
    requires post <= 15
    ensures (((post as byte) & 0xF) as int) == post
  {
  }

  /** On both simulators a configuration gives one tick for every `Cycles(c)` cycles from the start on,
      over every length of run; on the one that compares after the increment exactly when the period
      register is not 255. If it is, no tick ever comes. */
  lemma TicksIff(c: Config)
    requires Exists(c)
    ensures forall n: nat :: Events(SetUp(c), n) == n / Cycles(c)
    ensures (forall n: nat :: Raised(SetUp(c), n) == n / Cycles(c)) <==> c.pr2 < 255
    ensures c.pr2 == 255 ==> forall n: nat :: Raised(SetUp(c), n) == 0
  {
    var t := SetUp(c);
    SetUpIs(c);
    hide *;
    RaisedIff(t);
    if c.pr2 == 255 {
      forall n: nat ensures Raised(t, n) == 0 {
        FullNeverRaises(t, n);
      }
    }
  }

  /** For these clocks, in MHz, some configuration makes a millisecond. */
  function Exact(mhz: nat): Config
    requires mhz in {4, 8, 16, 20, 32, 48}
  {
    match mhz
    case 4 => Config(249, Pre4, 0)
    case 8 => Config(249, Pre4, 1)
    case 16 => Config(249, Pre16, 0)
    case 20 => Config(249, Pre4, 4)
    case 32 => Config(249, Pre16, 1)
    case _ => Config(249, Pre16, 2)
  }

  /** For the clocks the documentation calls common, whatever optimum the search finds, the simulators tick
      once for every millisecond, neither more nor less. */
  lemma CommonClocksAreExact(mhz: nat, c: Config, n: nat)
    requires mhz in {4, 8, 16, 20, 32, 48} && Optimal(c, Target(1_000_000 * mhz))
    ensures Raised(SetUp(c), n) == n / (250 * mhz) && Events(SetUp(c), n) == n / (250 * mhz)
  {
    ExactMillisecond(mhz);
    NotFull(c, mhz) by {
      assert Error(Cycles(c), 250 * mhz) <= Error(Cycles(Exact(mhz)), 250 * mhz);
    }
    hide *;
    TicksIff(c);
  }

  lemma ExactMillisecond(mhz: nat)
    requires mhz in {4, 8, 16, 20, 32, 48}
    ensures Target(1_000_000 * mhz) == 250 * mhz && Exists(Exact(mhz)) && Cycles(Exact(mhz)) == 250 * mhz
  {
  }

  lemma NotFull(c: Config, mhz: nat)
    requires mhz in {4, 8, 16, 20, 32, 48} && Exists(c) && Error(Cycles(c), 250 * mhz) == 0
    ensures Cycles(c) == 250 * mhz && c.pr2 < 255
  {
    FullPeriods(c);
    hide Cycles;
  }

  lemma FullPeriods(c: Config)
    ensures c.pr2 == 255 ==> Cycles(c) % 256 == 0
  {
  }

  /** The settings that the documentation's table gives for 20 and 48 MHz are those the search finds. */
  lemma DocumentedSettings(c: Config)
    ensures Optimal(c, Target(20_000_000)) && First(c, Target(20_000_000)) ==> c == Config(249, Pre4, 4)
    ensures Optimal(c, Target(48_000_000)) && First(c, Target(48_000_000)) ==> c == Config(249, Pre16, 2)
  {
    assert Cycles(Config(249, Pre4, 4)) == 5000 && Cycles(Config(249, Pre16, 2)) == 12000;
    assert Target(20_000_000) == 5000 && Target(48_000_000) == 12000;
    hide Cycles, Sooner, First;
    if Optimal(c, 5000) && First(c, 5000) {
      FoundFirst(c, Config(249, Pre4, 4), 5000);
      Twenty(c);
    }
    if Optimal(c, 12000) && First(c, 12000) {
      FoundFirst(c, Config(249, Pre16, 2), 12000);
      FortyEight(c);
    }
  }

  lemma Twenty(c: Config)
    requires Exists(c) && Cycles(c) == 5000 && !Sooner(Config(249, Pre4, 4), c)
    ensures c == Config(249, Pre4, 4)
  {
    Factors(c.post + 1, c.pr2 + 1);
    Split(c);
    hide Cycles;
  }

  lemma FortyEight(c: Config)
    requires Exists(c) && Cycles(c) == 12000 && !Sooner(Config(249, Pre16, 2), c)
    ensures c == Config(249, Pre16, 2)
  {
    Factors(c.post + 1, c.pr2 + 1);
    Split(c);
    hide Cycles;
  }

  lemma Split(c: Config)
    ensures Cycles(c) == Ratio(c.pre) * ((c.post + 1) * (c.pr2 + 1))
  {
  }

  lemma Factors(q: nat, n: nat)
    requires 1 <= q && 1 <= n <= 256
    ensures q <= 5 && q * n == 1250 ==> q == 5 && n == 250
    ensures q <= 3 && q * n == 750 ==> q == 3 && n == 250
  {
    if q == 1 {} else if q == 2 {} else if q == 3 {} else if q == 4 {} else if q == 5 {}
  }

  /** An exact configuration within reach of the search is the one it finds, or comes later. */
  lemma FoundFirst(c: Config, d: Config, target: nat)
    requires Optimal(c, target) && First(c, target) && Exists(d) && Cycles(d) == target
    requires Floor(target, Ratio(d.pre) * (d.post + 1)) <= 256
    ensures Exists(c) && Cycles(c) == target && !Sooner(d, c)
  {
    assert Error(Cycles(c), target) <= Error(Cycles(d), target);
  }

  /** At 16.384 MHz the first optimum has a full period register: on the simulators that compare after the
      increment the timebase never ticks, although other configurations would be exact. */
  lemma NeverTicksAt16384(c: Config, n: nat)
    requires Optimal(c, Target(16_384_000)) && First(c, Target(16_384_000))
    ensures c == Config(255, Pre16, 0) && Raised(SetUp(c), n) == 0
    ensures var d := Config(127, Pre16, 1); Optimal(d, Target(16_384_000)) && Raised(SetUp(d), n) == n / 4096
  {
    FoundFirst(c, Config(255, Pre16, 0), 4096);
    assert Cycles(Config(127, Pre16, 1)) == 4096;
    hide Raised, Events;
    TicksIff(c);
    TicksIff(Config(127, Pre16, 1));
  }

  /** The set-up of the timebase, on a simulator fresh from reset. */
  method Init(sim: Timer2.Simulator, foscHz: nat) returns (ghost c: Config)
    requires foscHz < 0x1_0000_0000 && sim.View() == PowerOn()
    modifies sim
    ensures Exists(c) && sim.View() == SetUp(c)
    ensures Target(foscHz) <= 65791 ==> Optimal(c, Target(foscHz)) && First(c, Target(foscHz))
  {
    var best := ComputePeriod(foscHz);
    c := best;
    sim.Start(Setting(best));
  }
}
