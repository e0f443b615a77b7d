/** Timer2/4/6 as the simulator steps them: prescaler, counter and postscaler form one mixed-radix
    counter per instance. */
module Timer246 {
  import opened Arith
  import opened Bytes

  /** One instance: its three registers and the simulator's two private counters. */
  datatype Timer = Timer(con: byte, pr: nat, tmr: nat, prescale: nat, postscale: nat)

  /** The driver's handle: the encodings of the two scalers and the period register. */
  datatype Handle = Handle(prescaler: byte, postscaler: byte, period: nat)

  function PreRatio(ckps: byte): (ratio: nat)
    ensures 1 <= ratio <= 16
  {
    match ckps & 3
    case 0 => 1
    case 1 => 4
    case _ => 16
  }

  function PostRatio(outps: byte): (ratio: nat)
    ensures 1 <= ratio
  {
    (outps as nat) + 1
  }

  function On(con: byte): bool {
    con & 4 != 0
  }

  function Ckps(con: byte): byte {
    con & 3
  }

  function Outps(con: byte): byte {
    (con >> 3) & 0xF
  }

  /** The control byte `EPIC_TIMER246_Start` builds. */
  function Control(h: Handle): byte {
    ((h.postscaler & 0xF) << 3) | 4 | (h.prescaler & 3)
  }

  /** The control byte has the prescaler in bits 0 and 1, the run bit in bit 2 and the postscaler in
      bits 3 to 6, and the simulator decodes it to the scalers the driver put in. */
  lemma ControlDecodes(h: Handle)
    ensures Control(h) & 3 == h.prescaler & 3 && Control(h) & 4 != 0 && (Control(h) >> 3) == h.postscaler & 0xF
    ensures On(Control(h))
    ensures Ckps(Control(h)) == h.prescaler & 3
    ensures Outps(Control(h)) == h.postscaler & 0xF
  {
  }

  /** Whether the next cycle raises the interrupt flag. */
  predicate Fires(t: Timer) {
    && On(t.con) && t.prescale + 1 >= PreRatio(Ckps(t.con))
    && t.tmr == t.pr && t.postscale + 1 > Outps(t.con) as nat
  }

  /** One instruction cycle. */
  function Tick(t: Timer): Timer {
    if !On(t.con) then t
    else if t.prescale + 1 < PreRatio(Ckps(t.con)) then t.(prescale := t.prescale + 1)
    else if t.tmr != t.pr then t.(prescale := 0, tmr := (t.tmr + 1) % 0x100)
    else if t.postscale + 1 > Outps(t.con) as nat then t.(prescale := 0, tmr := 0, postscale := 0)
    else t.(prescale := 0, tmr := 0, postscale := t.postscale + 1)
  }

  function After(t: Timer, n: nat): Timer {
    if n == 0 then t else Tick(After(t, n - 1))
  }

  /** How many of the first `n` cycles raise the flag. */
  function Events(t: Timer, n: nat): nat {
    if n == 0 then 0 else Events(t, n - 1) + if Fires(After(t, n - 1)) then 1 else 0
  }

  /** Cycles from one flag to the next. */
  function Period(t: Timer): (p: nat)
    ensures 1 <= p
  {
    MulAtLeast(t.pr + 1, PreRatio(Ckps(t.con)));
    MulAtLeast((Outps(t.con) as nat) + 1, (t.pr + 1) * PreRatio(Ckps(t.con)));
    ((Outps(t.con) as nat) + 1) * ((t.pr + 1) * PreRatio(Ckps(t.con)))
  }

  predicate Running(t: Timer) {
    On(t.con) && t.tmr <= t.pr < 0x100
  }

  /** How far into the current period the timer is. A private counter left beyond its new limit acts
      as if it stood at the limit. */
  function Phase(t: Timer): nat {
    var ratio := PreRatio(Ckps(t.con));
    Value(Least(t.postscale, Outps(t.con) as nat), t.pr + 1, t.tmr, ratio, Least(t.prescale, ratio - 1))
  }

  /** The mixed-radix value of three digits. */
  function Value(high: nat, width: nat, mid: nat, ratio: nat, low: nat): nat {
    (high * width + mid) * ratio + low
  }

  lemma ValueBound(high: nat, limit: nat, width: nat, mid: nat, ratio: nat, low: nat)
    requires high <= limit && mid < width && low < ratio
    ensures Value(high, width, mid, ratio, low) < (limit + 1) * (width * ratio)
  {
    MulStep(high, limit + 1, width);
    MulStep(high * width + mid, (limit + 1) * width, ratio);
    assert (limit + 1) * width * ratio == (limit + 1) * (width * ratio);
  }

  lemma PhaseInPeriod(t: Timer)
    requires Running(t)
    ensures Phase(t) < Period(t)
  {
    var ratio, limit := PreRatio(Ckps(t.con)), Outps(t.con) as nat;
    ValueBound(Least(t.postscale, limit), limit, t.pr + 1, t.tmr, ratio, Least(t.prescale, ratio - 1));
  }

  lemma ValueStep(high: nat, width: nat, mid: nat, ratio: nat, low: nat)
    ensures Value(high, width, mid, ratio, low) + 1 == Value(high, width, mid, ratio, low + 1)
  {
  }

  /** The two carries between the digits. */
  lemma CarryLow(high: nat, width: nat, mid: nat, ratio: nat)
    requires 1 <= ratio
    ensures Value(high, width, mid, ratio, ratio - 1) + 1 == Value(high, width, mid + 1, ratio, 0)
  {
  }

  lemma CarryMid(high: nat, width: nat, ratio: nat)
    ensures Value(high, width, width, ratio, 0) == Value(high + 1, width, 0, ratio, 0)
    ensures Value(high, width, 0, ratio, 0) == high * (width * ratio)
  {
  }

  /** A cycle advances the phase by one, wrapping just when the flag is raised. */
  lemma TickAdvances(t: Timer)
    requires Running(t)
    ensures Running(Tick(t)) && Period(Tick(t)) == Period(t)
    ensures Phase(Tick(t)) + (if Fires(t) then Period(t) else 0) == Phase(t) + 1
  {
    hide Value, PreRatio;
    var ratio, limit := PreRatio(Ckps(t.con)), Outps(t.con) as nat;
    var c, width := Least(t.postscale, limit), t.pr + 1;
    if t.prescale + 1 < ratio {
      ValueStep(c, width, t.tmr, ratio, t.prescale);
    } else {
      CarryLow(c, width, t.tmr, ratio);
      CarryMid(c, width, ratio);
      CarryMid(c + 1, width, ratio);
      CarryMid(0, width, ratio);
    }
  }

  lemma OneMore(e: nat, p: nat)
    ensures (e + 1) * p == e * p + p && 0 * p == 0
  {
  }

  lemma {:induction false} PhaseCounts(t: Timer, n: nat)
    requires Running(t)
    ensures Running(After(t, n)) && Period(After(t, n)) == Period(t)
    ensures Phase(t) + n == Events(t, n) * Period(t) + Phase(After(t, n))
  {
    hide Running, Phase, Period, Tick, Fires;
    OneMore(if n == 0 then 0 else Events(t, n - 1), Period(t));
    if n > 0 {
      PhaseCounts(t, n - 1);
      TickAdvances(After(t, n - 1));
    }
  }

  /** After any number of cycles the flag has been raised once per full period, counted from the
      phase the timer was started in, and the counter never passes the period register. */
  lemma EventsAreExact(t: Timer, n: nat)
    requires Running(t)
    ensures Events(t, n) == (Phase(t) + n) / Period(t)
    ensures After(t, n).tmr <= t.pr
  {
    hide *;
    var u := After(t, n);
    PhaseCounts(t, n);
    PrKept(t, n);
    CounterBound(u);
    PhaseInPeriod(u);
    DivModUnique(Phase(t) + n, Period(t), Events(t, n), Phase(u));
  }

  lemma CounterBound(t: Timer)
    requires Running(t)
    ensures t.tmr <= t.pr
  {
  }

  lemma {:induction false} PrKept(t: Timer, n: nat)
    ensures After(t, n).pr == t.pr
  {
    if n > 0 {
      PrKept(t, n - 1);
    }
  }

  /** The instance after a start: registers rewritten, the private counters as they were. */
  function Started(t: Timer, h: Handle): Timer {
    t.(con := Control(h), pr := h.period, tmr := 0)
  }

  /** The period a setting stands for: the prescaler encodings 0 to 3 divide by 1, 4, 16 and 16, the
      postscaler encodings by one more than their value. */
  lemma StartedPeriod(t: Timer, h: Handle)
    requires h.period < 0x100
    ensures var pre := h.prescaler & 3;
            var ratio := if pre == 0 then 1 else if pre == 1 then 4 else 16;
            Period(Started(t, h)) == ratio * (h.period + 1) * (((h.postscaler & 0xF) as int) + 1)
  {
    ControlDecodes(h);
    var ratio, limit := PreRatio(h.prescaler & 3), (h.postscaler & 0xF) as nat;
    assert (h.prescaler & 3) & 3 == h.prescaler & 3;
    Regroup(limit + 1, h.period + 1, ratio);
  }

  /** A start keeps the promised rate for every length of run exactly when nothing is left in the
      scalers that the new setting would count. */
  lemma StartIsExactIff(t: Timer, h: Handle)
    requires h.period < 0x100
    ensures var promised := PreRatio(h.prescaler) * (h.period + 1) * PostRatio(h.postscaler & 0xF);
            && promised == Period(Started(t, h))
            && ((forall n: nat :: Events(Started(t, h), n) == n / promised)
                <==> (t.prescale == 0 || h.prescaler & 3 == 0) && (t.postscale == 0 || h.postscaler & 0xF == 0))
  {
    var s := Started(t, h);
    ControlDecodes(h);
    var ratio, limit := PreRatio(h.prescaler), (h.postscaler & 0xF) as nat;
    assert PreRatio(h.prescaler & 3) == ratio by { assert (h.prescaler & 3) & 3 == h.prescaler & 3; }
    var p := ratio * (h.period + 1) * PostRatio(h.postscaler & 0xF);
    assert p == Period(s) by { Regroup(limit + 1, h.period + 1, ratio); }
    assert Running(s);
    PhaseZeroIff(s);
    hide *;
    if Phase(s) == 0 {
      forall n: nat ensures Events(s, n) == n / p {
        EventsAreExact(s, n);
      }
    } else {
      EarlyEvent(s);
    }
  }

  lemma Regroup(a: nat, b: nat, c: nat)
    ensures c * b * a == a * (b * c)
  {
  }

  /** A timer that starts inside a period raises its first flag early. */
  lemma EarlyEvent(s: Timer)
    requires Running(s) && Phase(s) != 0
    ensures exists n: nat :: Events(s, n) != n / Period(s)
  {
    hide *;
    PhaseInPeriod(s);
    var n := Period(s) - Phase(s);
    EventsAreExact(s, n);
    DivModUnique(Period(s), Period(s), 1, 0);
    DivModUnique(n, Period(s), 0, n);
    assert Events(s, n) != n / Period(s);
  }

  /** With the run bit clear nothing moves. */
  lemma {:induction false} OffStands(t: Timer, n: nat)
    requires t.con & 4 == 0
    ensures After(t, n) == t && Events(t, n) == 0
  {
    if n > 0 {
      OffStands(t, n - 1);
    }
  }

  /** The cycles a running timer needs for one more count. */
  function CountIn(t: Timer): (n: nat)
    ensures 1 <= n
  {
    var ratio := PreRatio(Ckps(t.con));
    if t.prescale < ratio then ratio - t.prescale else 1
  }

  lemma {:induction false} Prescales(t: Timer, n: nat)
    requires On(t.con) && n < CountIn(t)
    ensures After(t, n) == t.(prescale := t.prescale + n) && Events(t, n) == 0
  {
    if n > 0 {
      Prescales(t, n - 1);
      hide On, Ckps, Outps, PreRatio;
    }
  }

  /** A count beyond the period register goes on up to 255 and then wraps, without an event. */
  lemma CountsBeyond(t: Timer)
    requires On(t.con) && t.pr < t.tmr < 0x100
    ensures var n := CountIn(t);
            && After(t, n) == t.(prescale := 0, tmr := if t.tmr == 255 then 0 else t.tmr + 1)
            && Events(t, n) == 0
  {
    hide On, Ckps, Outps, PreRatio, Tick, Fires;
    var m := CountIn(t) - 1;
    var u := t.(prescale := t.prescale + m);
    Prescales(t, m);
    CountBeyond(u);
    OneMoreCycle(t, m);
  }

  lemma OneMoreCycle(t: Timer, n: nat)
    ensures After(t, n + 1) == Tick(After(t, n))
    ensures Events(t, n + 1) == Events(t, n) + if Fires(After(t, n)) then 1 else 0
  {
    hide Tick, Fires;
  }

  lemma CountBeyond(t: Timer)
    requires On(t.con) && t.pr < t.tmr < 0x100 && PreRatio(Ckps(t.con)) <= t.prescale + 1
    ensures Tick(t) == t.(prescale := 0, tmr := if t.tmr == 255 then 0 else t.tmr + 1) && !Fires(t)
  {
    hide On, Ckps, Outps, PreRatio;
  }

  function PowerOn(): Timer {
    Timer(0, 0xFF, 0, 0, 0)
  }

  /** With the prescaler at 1:1 the counter counts cycles up to the period register. */
  lemma {:induction false} CountsUp(t: Timer, n: nat)
    requires On(t.con) && Ckps(t.con) == 0 && t.prescale == 0 && t.tmr == 0 && n <= t.pr < 0x100
    ensures After(t, n) == t.(tmr := n)
  {
    if n > 0 {
      CountsUp(t, n - 1);
    }
  }

  /** The shortest time after a start from power-on that leaves something in a counted scaler. */
  function Leaving(h: Handle): nat {
    if h.prescaler & 3 != 0 then 1 else h.period + 1
  }

  lemma LeavesState(h: Handle)
    requires h.period < 0x100 && (h.prescaler & 3 != 0 || h.postscaler & 0xF != 0)
    ensures var t := After(Started(PowerOn(), h), Leaving(h));
            if h.prescaler & 3 != 0 then t.prescale == 1 else t.postscale == 1
  {
    var s := Started(PowerOn(), h);
    ControlDecodes(h);
    if h.prescaler & 3 != 0 {
      assert After(s, 1) == Tick(After(s, 0)) == Tick(s);
    } else {
      CountsUp(s, h.period);
      assert After(s, h.period + 1) == Tick(After(s, h.period));
    }
  }

  /** The timer started from power-on, started again with the same setting after `m` cycles. */
  function Restarted(h: Handle, m: nat): Timer {
    Started(After(Started(PowerOn(), h), m), h)
  }

  /** Restarts keep the promised rate, whenever they come, exactly when neither scaler counts. If one
      does, a restart after one cycle, or after one period, already loses it. */
  lemma RestartIsExactIff(h: Handle)
    requires h.period < 0x100
    ensures var promised := PreRatio(h.prescaler) * (h.period + 1) * PostRatio(h.postscaler & 0xF);
            (forall m: nat, n: nat :: Events(Restarted(h, m), n) == n / promised)
            <==> h.prescaler & 3 == 0 && h.postscaler & 0xF == 0
  {
    var promised := PreRatio(h.prescaler) * (h.period + 1) * PostRatio(h.postscaler & 0xF);
    if h.prescaler & 3 == 0 && h.postscaler & 0xF == 0 {
      forall m: nat, n: nat
        ensures Events(Restarted(h, m), n) == n / promised
      {
        StartIsExactIff(After(Started(PowerOn(), h), m), h);
      }
    } else {
      LeavesState(h);
      StartIsExactIff(After(Started(PowerOn(), h), Leaving(h)), h);
      hide *;
      RestartLoses(h, promised);
    }
  }

  lemma RestartLoses(h: Handle, promised: nat)
    requires 0 < promised
    requires !(forall n: nat :: Events(Started(After(Started(PowerOn(), h), Leaving(h)), h), n) == n / promised)
    ensures !(forall m: nat, n: nat :: Events(Restarted(h, m), n) == n / promised)
  {
    var n: nat :| Events(Started(After(Started(PowerOn(), h), Leaving(h)), h), n) != n / promised;
    assert Events(Restarted(h, Leaving(h)), n) != n / promised;
  }

  lemma PhaseZeroIff(s: Timer)
    requires s.tmr == 0 && s.pr < 0x100
    ensures Phase(s) == 0 <==>
            (s.prescale == 0 || Ckps(s.con) == 0) && (s.postscale == 0 || Outps(s.con) == 0)
  {
    var ratio, c := PreRatio(Ckps(s.con)), Least(s.postscale, Outps(s.con) as nat);
    assert Ckps(s.con) & 3 == Ckps(s.con);
    if c > 0 {
      MulAtLeast(c, s.pr + 1);
      MulAtLeast(c * (s.pr + 1), ratio);
    }
  }

  /** The three instances: the special function registers and the simulator's static counters. */
  class Simulator {
    const con: array<byte>
    const tmr: array<nat>
    const pr: array<nat>
    const prescale: array<nat>
    const postscale: array<nat>
    const flag: array<bool>

    ghost predicate Valid()
      reads this
    {
      && con.Length == tmr.Length == pr.Length == prescale.Length == postscale.Length == flag.Length == 3
      && tmr != pr && tmr != prescale && tmr != postscale && pr != prescale && pr != postscale
      && prescale != postscale && con as object !in {flag as object, tmr, pr, prescale, postscale}
      && flag as object !in {tmr as object, pr, prescale, postscale}
    }

    ghost function View(i: nat): Timer
      requires Valid() && i < 3
      reads this, con, tmr, pr, prescale, postscale
    {
      Timer(con[i], pr[i], tmr[i], prescale[i], postscale[i])
    }

    constructor ()
      ensures Valid()
      ensures PowerOn() == Timer(0, 0xFF, 0, 0, 0)
      ensures forall i: nat :: i < 3 ==> View(i) == PowerOn() && !flag[i]
    {
      con := new byte[3](_ => 0);
      tmr := new nat[3](_ => 0);
      pr := new nat[3](_ => 0xFF);
      prescale := new nat[3](_ => 0);
      postscale := new nat[3](_ => 0);
      flag := new bool[3](_ => false);
    }

    /** The driver's start: touches the registers of its own instance only. */
    method Start(i: nat, h: Handle)
      requires Valid() && i < 3
      modifies con, tmr, pr
      ensures View(i) == Started(old(View(i)), h)
      ensures forall j: nat :: j < 3 && j != i ==> View(j) == old(View(j))
    {
      pr[i] := h.period;
      tmr[i] := 0;
      con[i] := Control(h);
    }

    /** One instance's share of a cycle; `irq` says whether it calls the interrupt callback. */
    method StepOne(i: nat) returns (irq: bool)
      requires Valid() && i < 3
      modifies tmr, prescale, postscale, flag
      ensures View(i) == Tick(old(View(i)))
      ensures irq == Fires(old(View(i))) && flag[i] == (old(flag[i]) || irq)
      ensures forall j: nat :: j < 3 && j != i ==> View(j) == old(View(j)) && flag[j] == old(flag[j])
    {
      hide On, Ckps, Outps, PreRatio;
      irq := false;
      if !On(con[i]) {
        return;
      }
      prescale[i] := prescale[i] + 1;
      if prescale[i] < PreRatio(Ckps(con[i])) {
        return;
      }
      prescale[i] := 0;
      var count := tmr[i];
      if count == pr[i] {
        count := 0;
        postscale[i] := postscale[i] + 1;
        if postscale[i] > Outps(con[i]) as nat {
          postscale[i] := 0;
          flag[i] := true;
          irq := true;
        }
      } else {
        count := (count + 1) % 0x100;
      }
      tmr[i] := count;
    }

    /** One cycle of all three timers; none of them depends on another. */
    method Step() returns (irqs: seq<bool>)
      requires Valid()
      modifies tmr, prescale, postscale, flag
      ensures |irqs| == 3
      ensures forall i: nat :: i < 3 ==>
                && View(i) == Tick(old(View(i))) && irqs[i] == Fires(old(View(i)))
                && flag[i] == (old(flag[i]) || irqs[i])
    {
      hide Tick, Fires;
      irqs := [];
      for i := 0 to 3
        invariant |irqs| == i
        invariant forall j: nat :: j < i ==>
                    && View(j) == Tick(old(View(j))) && irqs[j] == Fires(old(View(j)))
                    && flag[j] == (old(flag[j]) || irqs[j])
        invariant forall j: nat :: i <= j < 3 ==> View(j) == old(View(j)) && flag[j] == old(flag[j])
      {
        var irq := StepOne(i);
        irqs := irqs + [irq];
      }
    }

    /** Any number of cycles. Each running instance has called back once for every whole period,
        counted from its phase at the start, whatever the other two do. */
    method Run(ticks: nat) returns (calls: seq<nat>)
      requires Valid()
      modifies tmr, prescale, postscale, flag
      ensures |calls| == 3
      ensures forall i: nat :: i < 3 ==>
                View(i) == After(old(View(i)), ticks) && flag[i] == (old(flag[i]) || calls[i] > 0)
      ensures forall i: nat :: i < 3 && old(Running(View(i))) ==>
                calls[i] == (old(Phase(View(i))) + ticks) / old(Period(View(i)))
    {
      hide Tick, Fires, Phase, Period;
      calls := [0, 0, 0];
      for n := 0 to ticks
        invariant |calls| == 3
        invariant forall i: nat :: i < 3 ==>
                    && View(i) == After(old(View(i)), n) && calls[i] == Events(old(View(i)), n)
                    && flag[i] == (old(flag[i]) || calls[i] > 0)
      {
        var irqs := Step();
        calls := seq(3, i requires 0 <= i < 3 => calls[i] + if irqs[i] then 1 else 0);
      }
      forall i: nat | i < 3 && old(Running(View(i)))
        ensures calls[i] == (old(Phase(View(i))) + ticks) / old(Period(View(i)))
      {
        EventsAreExact(old(View(i)), ticks);
      }
    }
  }
}
