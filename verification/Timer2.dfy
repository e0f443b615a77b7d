/** Timer2 as the simulators of the two older families step it: the counter is compared after it has been
    incremented, in eight bits. */
module Timer2 {
  import opened Arith
  import opened Bytes
  import opened Timer246

  /** The increment that a cycle makes once the prescaler lets it through. */
  function Counted(t: Timer): nat {
    (t.tmr + 1) % 0x100
  }

  /** Whether the next cycle raises the interrupt flag. */
  predicate Raises(t: Timer) {
    && On(t.con) && t.prescale + 1 >= PreRatio(Ckps(t.con))
    && Counted(t) > t.pr && t.postscale + 1 >= PostRatio(Outps(t.con))
  }

  /** One instruction cycle. */
  function Cycle(t: Timer): Timer {
    if !On(t.con) then t
    else if t.prescale + 1 < PreRatio(Ckps(t.con)) then t.(prescale := t.prescale + 1)
    else if Counted(t) <= t.pr then t.(prescale := 0, tmr := Counted(t))
    else if t.postscale + 1 >= PostRatio(Outps(t.con)) then t.(prescale := 0, tmr := 0, postscale := 0)
    else t.(prescale := 0, tmr := 0, postscale := t.postscale + 1)
  }

  function Later(t: Timer, n: nat): Timer {
    if n == 0 then t else Cycle(Later(t, n - 1))
  }

  /** How many of the first `n` cycles raise the flag. */
  function Raised(t: Timer, n: nat): nat {
    if n == 0 then 0 else Raised(t, n - 1) + if Raises(Later(t, n - 1)) then 1 else 0
  }

  // ---------- against the comparison before the increment ----------

  lemma CycleIsTick(t: Timer)
    requires Running(t) && t.pr < 0xFF
    ensures Cycle(t) == Tick(t) && (Raises(t) <==> Fires(t))
  {
  }

  /** Below a full period register the two ways to compare are the same, cycle by cycle. */
  lemma {:induction false} SameBelowFull(t: Timer, n: nat)
    requires Running(t) && t.pr < 0xFF
    ensures Later(t, n) == After(t, n) && Raised(t, n) == Events(t, n)
  {
    if n > 0 {
      SameBelowFull(t, n - 1);
      hide Cycle, Tick, Raises, Fires, Running;
      StaysRunning(t, n - 1);
      CycleIsTick(After(t, n - 1));
    }
  }

  lemma StaysRunning(t: Timer, n: nat)
    requires Running(t)
    ensures Running(After(t, n)) && After(t, n).pr == t.pr
  {
    PhaseCounts(t, n);
    PrKept(t, n);
  }

  /** No eight-bit count exceeds a period register of 255: the flag is never raised. */
  lemma {:induction false} FullNeverRaises(t: Timer, n: nat)
    requires t.pr >= 0xFF
    ensures Later(t, n).pr == t.pr && Raised(t, n) == 0
  {
    if n > 0 {
      FullNeverRaises(t, n - 1);
    }
  }

  /** The comparison after the increment raises the flag as often as the one before it, over every
      length of run, exactly when the period register is not full. */
  lemma RaisedIff(t: Timer)
    requires Running(t)
    ensures (forall n: nat :: Raised(t, n) == Events(t, n)) <==> t.pr < 0xFF
  {
    hide *;
    if t.pr < 0xFF {
      forall n: nat ensures Raised(t, n) == Events(t, n) {
        SameBelowFull(t, n);
      }
    } else {
      var p := Period(t);
      FullNeverRaises(t, p);
      EventsAreExact(t, p);
      DivModUnique(Phase(t) + p, p, 1, Phase(t)) by { PhaseInPeriod(t); }
      assert Raised(t, p) != Events(t, p);
    }
  }

  /** With the run bit clear nothing moves. */
  lemma {:induction false} OffStands(t: Timer, n: nat)
    requires t.con & 4 == 0
    ensures Later(t, n) == t && Raised(t, n) == 0
  {
    if n > 0 {
      OffStands(t, n - 1);
    }
  }

  /** A count that a start has left beyond the new period register ends the period at the next increment,
      but for 255, which wraps and counts up again. */
  lemma BeyondEndsAtOnce(t: Timer)
    requires On(t.con) && t.pr < t.tmr < 0x100 && t.prescale + 1 >= PreRatio(Ckps(t.con))
    ensures Cycle(t).tmr == 0 && Cycle(t).prescale == 0
    ensures Raises(t) <==> t.tmr != 0xFF && t.postscale >= Outps(t.con) as nat
    ensures Cycle(t).postscale == if Raises(t) then 0 else if t.tmr == 0xFF then t.postscale else t.postscale + 1
  {
    hide On, PreRatio, Ckps, Outps;
  }

  // ---------- in place ----------

  /** The registers and the simulator's static counters. */
  class Simulator {
    var con: byte
    var tmr: nat
    var pr: nat
    var prescale: nat
    var postscale: nat
    var flag: bool

    ghost function View(): Timer
      reads this
    {
      Timer(con, pr, tmr, prescale, postscale)
    }

    constructor ()
      ensures View() == PowerOn() && !flag
    {
      con, pr, tmr, prescale, postscale, flag := 0, 0xFF, 0, 0, 0, false;
    }

    /** The driver's start leaves the counter alone. */
    method Start(h: Handle)
      modifies this`con, this`pr
      ensures con == ((h.postscaler & 0xF) << 3) | 4 | (h.prescaler & 3) && pr == h.period
    {
      pr := h.period;
      con := Control(h);
    }

    method Step() returns (irq: bool)
      modifies this`tmr, this`prescale, this`postscale, this`flag
      ensures View() == Cycle(old(View()))
      ensures irq == Raises(old(View())) && flag == (old(flag) || irq)
    {
      hide On, Ckps, Outps, PreRatio;
      irq := false;
      if !On(con) {
        return;
      }
      prescale := prescale + 1;
      if prescale < PreRatio(Ckps(con)) {
        return;
      }
      prescale := 0;
      var count := (tmr + 1) % 0x100;
      if count > pr {
        count := 0;
        postscale := postscale + 1;
        if postscale >= PostRatio(Outps(con)) {
          postscale := 0;
          flag := true;
          irq := true;
        }
      }
      tmr := count;
    }

    /** Any number of cycles: with a full period register no callback comes, otherwise one for every
        whole period, counted from the phase at the start. */
    method Run(ticks: nat) returns (calls: nat)
      requires Running(View())
      modifies this`tmr, this`prescale, this`postscale, this`flag
      ensures View() == Later(old(View()), ticks) && flag == (old(flag) || calls > 0)
      ensures calls == if pr == 0xFF then 0 else (old(Phase(View())) + ticks) / old(Period(View()))
    {
      hide Cycle, Raises, Phase, Period;
      ghost var start := View();
      calls := 0;
      for n := 0 to ticks
        invariant View() == Later(start, n) && calls == Raised(start, n)
        invariant flag == (old(flag) || calls > 0)
      {
        var irq := Step();
        calls := calls + if irq then 1 else 0;
      }
      if pr == 0xFF {
        FullNeverRaises(start, ticks);
      } else {
        SameBelowFull(start, ticks);
        EventsAreExact(start, ticks);
      }
    }
  }
}
