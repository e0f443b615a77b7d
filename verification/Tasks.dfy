/** The cooperative scheduler as a state machine: the task table, the API calls and ticks that change
    it, and the round that snapshots the ready tasks and then runs them. */
module Tasks {
  import opened Arith
  import opened Words

  datatype FnPtr = Null | Fn(id: nat)

  /** A task control block; the three flag bits are kept apart. */
  datatype Task = Task(fn: FnPtr, arg: int, period: word, countdown: word, priority: octet,
                       used: bool, enabled: bool, ready: bool)

  type Table = seq<Task>

  const EMPTY: Task := Task(Null, 0, 0, 0, 0, false, false, false)

  function ArmCountdown(period: word): word {
    if period == 0 then 0 else period - 1
  }

  /** What a task body, the main loop or the tick interrupt can do to the table. */
  datatype Op =
    | Spawn(fn: FnPtr, arg: int, period: word, priority: octet)
    | Start(id: nat)
    | Stop(id: nat)
    | Reset(id: nat)
    | SetPeriod(id: nat, newPeriod: word)
    | Tick

  /** The first free slot at or after `i`, or the table size. */
  function FreeSlot(tab: Table, i: nat): (r: nat)
    requires i <= |tab|
    ensures i <= r <= |tab| && (r < |tab| ==> !tab[r].used)
    ensures forall j :: i <= j < r ==> tab[j].used
    decreases |tab| - i
  {
    if i == |tab| || !tab[i].used then i else FreeSlot(tab, i + 1)
  }

  function SpawnIn(tab: Table, op: Op): Table
    requires op.Spawn?
  {
    var i := FreeSlot(tab, 0);
    if op.fn == Null || i == |tab| then tab
    else tab[i := Task(op.fn, op.arg, op.period, ArmCountdown(op.period), op.priority, true, true, false)]
  }

  function Rearmed(t: Task): Task {
    t.(countdown := ArmCountdown(t.period), enabled := true, ready := false)
  }

  function TickTask(t: Task): Task {
    if !t.used || !t.enabled then t
    else if t.countdown == 0 then
      t.(ready := true, countdown := if t.period != 0 then ArmCountdown(t.period) else 0)
    else t.(countdown := t.countdown - 1)
  }

  function TickAll(tab: Table): (r: Table)
    ensures |r| == |tab| && forall i {:trigger r[i]} :: 0 <= i < |tab| ==> r[i] == TickTask(tab[i])
  {
    seq(|tab|, i requires 0 <= i < |tab| => TickTask(tab[i]))
  }

  function Apply(tab: Table, op: Op): (r: Table)
    ensures |r| == |tab|
  {
    match op
    case Spawn(_, _, _, _) => SpawnIn(tab, op)
    case Start(id) => if id < |tab| && tab[id].used then tab[id := Rearmed(tab[id])] else tab
    case Stop(id) => if id < |tab| && tab[id].used then tab[id := tab[id].(enabled := false, ready := false)] else tab
    case Reset(id) => if id < |tab| && tab[id].used then tab[id := Rearmed(tab[id])] else tab
    case SetPeriod(id, p) => if id < |tab| && tab[id].used then tab[id := tab[id].(period := p)] else tab
    case Tick => TickAll(tab)
  }

  // ---------- selection ----------

  /** A task that the selection loop can pick: ready, and of a priority below the sentinel 255. */
  predicate Runnable(t: Task) {
    t.used && t.enabled && t.ready && t.priority < 0xFF
  }

  /** The order tasks run in: by priority, ties by slot. */
  predicate Before(tab: Table, a: nat, b: nat)
    requires a < |tab| && b < |tab|
  {
    tab[a].priority < tab[b].priority || (tab[a].priority == tab[b].priority && a < b)
  }

  /** The choice of the scan after `n` slots, -1 for none. */
  function Best(tab: Table, n: nat): (b: int)
    requires n <= |tab|
    ensures -1 <= b < n && (0 <= b ==> Runnable(tab[b]))
    ensures forall j :: 0 <= j < n && Runnable(tab[j]) ==> 0 <= b && (j == b || Before(tab, b, j))
  {
    if n == 0 then -1 else
    var b := Best(tab, n - 1);
    if Runnable(tab[n - 1]) && tab[n - 1].priority < (if b < 0 then 0xFF else tab[b].priority) then n - 1 else b
  }

  function ReadyCount(tab: Table): nat {
    if tab == [] then 0 else ReadyCount(tab[..|tab| - 1]) + if tab[|tab| - 1].ready then 1 else 0
  }

  function Unready(tab: Table, i: nat): (r: Table)
    requires i < |tab|
    ensures |r| == |tab|
  {
    tab[i := tab[i].(ready := false)]
  }

  lemma {:induction false} UnreadyCounts(tab: Table, i: nat)
    requires i < |tab| && tab[i].ready
    ensures ReadyCount(Unready(tab, i)) == ReadyCount(tab) - 1
  {
    var init, last := tab[..|tab| - 1], tab[|tab| - 1];
    if i < |init| {
      UnreadyCounts(init, i);
      assert Unready(tab, i)[..|tab| - 1] == Unready(init, i);
    } else {
      assert Unready(tab, i)[..|tab| - 1] == init;
    }
  }

  /** The repeated selection: the slots in the order picked, and the table with their ready flags
      cleared. It ends because every pick uses up a ready flag. */
  function Snapshot(tab: Table): (r: (seq<nat>, Table))
    ensures |r.1| == |tab|
    decreases ReadyCount(tab)
  {
    var b := Best(tab, |tab|);
    if b < 0 then ([], tab)
    else
      UnreadyCounts(tab, b);
      var (order, rest) := Snapshot(Unready(tab, b));
      ([b as nat] + order, rest)
  }

  lemma SnapshotStep(tab: Table)
    ensures var b := Best(tab, |tab|);
            && (b < 0 ==> Snapshot(tab) == ([], tab))
            && (0 <= b ==>
                  && ReadyCount(Unready(tab, b)) < ReadyCount(tab)
                  && var (order, rest) := Snapshot(Unready(tab, b));
                     Snapshot(tab) == ([b as nat] + order, rest))
  {
    if 0 <= Best(tab, |tab|) {
      UnreadyCounts(tab, Best(tab, |tab|));
    }
  }

  ghost predicate InOrder(tab: Table, order: seq<nat>) {
    && (forall k {:trigger order[k]} :: 0 <= k < |order| ==> order[k] < |tab|)
    && forall k, l {:trigger order[k], order[l]} :: 0 <= k < l < |order| ==> Before(tab, order[k], order[l])
  }

  /** `order` lists exactly the runnable slots of `tab`, and `rest` is `tab` with their flags cleared. */
  ghost predicate Exactly(tab: Table, order: seq<nat>, rest: Table) {
    && |rest| == |tab|
    && (forall s: nat {:trigger s in order} :: s in order <==> s < |tab| && Runnable(tab[s]))
    && forall s {:trigger rest[s]} :: 0 <= s < |tab| ==>
         rest[s] == if s in order then tab[s].(ready := false) else tab[s]
  }

  lemma PickedOrder(tab: Table, b: nat, order: seq<nat>)
    requires b < |tab| && Best(tab, |tab|) == b
    requires InOrder(Unready(tab, b), order)
    requires forall s: nat {:trigger s in order} :: s in order <==> s < |tab| && Runnable(Unready(tab, b)[s])
    ensures InOrder(tab, [b] + order)
  {
    var all := [b] + order;
    forall k | 0 <= k < |all|
      ensures all[k] < |tab| && (0 < k ==> all[k] != b && Runnable(tab[all[k]]))
    {
      if 0 < k {
        assert order[k - 1] in order;
      }
    }
    forall k, l | 0 <= k < l < |all|
      ensures Before(tab, all[k], all[l])
    {
      if 0 < k {
        assert Before(Unready(tab, b), order[k - 1], order[l - 1]);
      }
    }
  }

  lemma PickedExactly(tab: Table, b: nat, order: seq<nat>, rest: Table)
    requires b < |tab| && Runnable(tab[b]) && Exactly(Unready(tab, b), order, rest)
    ensures Exactly(tab, [b] + order, rest)
  {
    assert b !in order;
    forall s: nat
      ensures s in [b] + order <==> s < |tab| && Runnable(tab[s])
    {
      assert s in [b] + order <==> s == b || s in order;
    }
  }

  /** The snapshot holds exactly the ready tasks of priority below 255, each once, by priority and
      then slot, and clears the ready flag of those and no others. */
  lemma {:induction false} SnapshotIsExact(tab: Table)
    ensures InOrder(tab, Snapshot(tab).0) && Exactly(tab, Snapshot(tab).0, Snapshot(tab).1)
    decreases ReadyCount(tab)
  {
    var b := Best(tab, |tab|);
    SnapshotStep(tab);
    hide Snapshot, ReadyCount;
    if 0 <= b {
      var tab' := Unready(tab, b);
      SnapshotIsExact(tab');
      var (order, rest) := Snapshot(tab');
      PickedOrder(tab, b, order);
      PickedExactly(tab, b, order, rest);
    }
  }

  /** A smaller priority number runs first, and of equal ones the smaller slot. */
  lemma SmallerRunsFirst(tab: Table, k: nat, l: nat)
    requires k < l < |Snapshot(tab).0|
    ensures var a, b := Snapshot(tab).0[k], Snapshot(tab).0[l];
            && a < |tab| && b < |tab|
            && (tab[a].priority < tab[b].priority || (tab[a].priority == tab[b].priority && a < b))
  {
    SnapshotIsExact(tab);
    hide Snapshot;
    assert Before(tab, Snapshot(tab).0[k], Snapshot(tab).0[l]);
  }

  /** A round serves every ready task exactly when none of them has priority 255. */
  lemma ReadyAreServedIff(tab: Table)
    ensures (forall s: nat :: s < |tab| && tab[s].used && tab[s].enabled && tab[s].ready ==> s in Snapshot(tab).0)
       <==> (forall s: nat :: s < |tab| && tab[s].used && tab[s].enabled && tab[s].ready ==> tab[s].priority != 0xFF)
  {
    SnapshotIsExact(tab);
  }

  // ---------- rounds, one step at a time ----------

  datatype Run = Ran(slot: nat, fn: FnPtr, arg: int)

  /** The scheduler between steps. `order` and `k` are the locals of the round in progress, `running`
      says that the body of order[k] has been entered, `snap` is the table at the snapshot and `calls`
      the bodies entered in this round. */
  datatype Sched = Sched(tab: Table, ticks: word, order: seq<nat>, k: nat, running: bool, snap: Table, calls: seq<Run>)

  /** `Call` is an API call or a tick, from wherever it comes. */
  datatype Step = Call(op: Op) | Begin | Dispatch | Finish

  /** Rounds do not nest; everything else may happen at any point. */
  predicate Legal(s: Sched, step: Step) {
    match step
    case Call(_) => true
    case Begin => s.k == |s.order| && !s.running
    case Dispatch => s.k < |s.order| && s.order[s.k] < |s.tab| && !s.running
    case Finish => s.k < |s.order| && s.order[s.k] < |s.tab| && s.running
  }

  function Do(s: Sched, step: Step): (s': Sched)
    requires Legal(s, step)
    ensures |s'.tab| == |s.tab|
  {
    match step
    case Call(op) =>
      s.(tab := Apply(s.tab, op), ticks := if op == Tick then (s.ticks + 1) % 0x1_0000 else s.ticks)
    case Begin =>
      var (order, tab) := Snapshot(s.tab);
      s.(tab := tab, order := order, k := 0, snap := s.tab, calls := [])
    case Dispatch =>
      var slot := s.order[s.k];
      s.(running := true, calls := s.calls + [Ran(slot, s.tab[slot].fn, s.tab[slot].arg)])
    case Finish =>
      var slot := s.order[s.k];
      var t := s.tab[slot];
      s.(running := false, k := s.k + 1,
         tab := if t.period == 0 then s.tab[slot := t.(fn := Null, used := false, enabled := false, ready := false)]
                else s.tab)
  }

  predicate LegalRun(s: Sched, steps: seq<Step>)
    decreases |steps|
  {
    steps == [] || (Legal(s, steps[0]) && LegalRun(Do(s, steps[0]), steps[1..]))
  }

  function Exec(s: Sched, steps: seq<Step>): (s': Sched)
    requires LegalRun(s, steps)
    ensures |s'.tab| == |s.tab|
    decreases |steps|
  {
    if steps == [] then s else Exec(Do(s, steps[0]), steps[1..])
  }

  /** The scheduler after task_manager_init, or between rounds with any table. */
  function Idle(tab: Table, ticks: word): Sched {
    Sched(tab, ticks, [], 0, false, tab, [])
  }

  /** Used slots have an entry point. */
  ghost predicate TableOk(tab: Table) {
    forall i {:trigger tab[i]} :: 0 <= i < |tab| && tab[i].used ==> tab[i].fn != Null
  }

  /** A slot still to be served, or being served, holds what it held at the snapshot. */
  ghost predicate Held(s: Sched, j: nat)
    requires j < |s.order|
  {
    var slot := s.order[j];
    && slot < |s.tab| && |s.snap| == |s.tab| && s.tab[slot].used
    && s.tab[slot].fn == s.snap[slot].fn && s.tab[slot].arg == s.snap[slot].arg
  }

  /** The calls are those of the first slots in the order, as the snapshot holds them. */
  ghost predicate CallsAre(calls: seq<Run>, order: seq<nat>, snap: Table) {
    |calls| <= |order| &&
    forall j {:trigger calls[j]} :: 0 <= j < |calls| ==>
      order[j] < |snap| && calls[j] == Ran(order[j], snap[order[j]].fn, snap[order[j]].arg)
  }

  ghost predicate Inv(s: Sched) {
    && TableOk(s.tab) && TableOk(s.snap) && |s.snap| == |s.tab|
    && s.k <= |s.order|
    && (s.running ==> s.k < |s.order|)
    && (s.order == [] || s.order == Snapshot(s.snap).0)
    && |s.calls| == s.k + (if s.running then 1 else 0)
    && CallsAre(s.calls, s.order, s.snap)
    && (forall j :: s.k <= j < |s.order| ==> Held(s, j))
    && Distinct(s.order)
  }

  ghost predicate Distinct(order: seq<nat>) {
    forall i, j {:trigger order[i], order[j]} :: 0 <= i < j < |order| ==> order[i] != order[j]
  }

  /** No API call touches a used slot's entry point or argument, or frees it. */
  lemma ApplyKeepsUsed(tab: Table, op: Op, i: nat)
    requires i < |tab| && tab[i].used
    ensures var r := Apply(tab, op);
            r[i].used && r[i].fn == tab[i].fn && r[i].arg == tab[i].arg && r[i].priority == tab[i].priority
  {
  }

  lemma ApplyKeepsTable(tab: Table, op: Op)
    requires TableOk(tab)
    ensures TableOk(Apply(tab, op))
  {
  }

  lemma CallKeeps(s: Sched, op: Op)
    requires Inv(s)
    ensures Inv(Do(s, Call(op)))
  {
    var s' := Do(s, Call(op));
    ApplyKeepsTable(s.tab, op);
    forall j | s.k <= j < |s.order|
      ensures Held(s', j)
    {
      assert Held(s, j);
      ApplyKeepsUsed(s.tab, op, s.order[j]);
    }
  }

  lemma BeginKeeps(s: Sched)
    requires Inv(s) && Legal(s, Begin)
    ensures Inv(Do(s, Begin))
  {
    var s' := Do(s, Begin);
    SnapshotIsExact(s.tab);
    forall j | 0 <= j < |s'.order|
      ensures Held(s', j)
    {
      assert s'.order[j] in s'.order;
    }
    forall i | 0 <= i < |s'.tab| && s'.tab[i].used
      ensures s'.tab[i].fn != Null
    {
      assert s.tab[i].used;
    }
  }

  lemma CallsMore(calls: seq<Run>, order: seq<nat>, snap: Table, r: Run)
    requires CallsAre(calls, order, snap) && |calls| < |order| && order[|calls|] < |snap|
    requires r == Ran(order[|calls|], snap[order[|calls|]].fn, snap[order[|calls|]].arg)
    ensures CallsAre(calls + [r], order, snap)
  {
    forall j | 0 <= j < |calls + [r]|
      ensures order[j] < |snap| && (calls + [r])[j] == Ran(order[j], snap[order[j]].fn, snap[order[j]].arg)
    {
      if j < |calls| {
        assert (calls + [r])[j] == calls[j];
      }
    }
  }

  lemma DispatchKeeps(s: Sched)
    requires Inv(s) && Legal(s, Dispatch)
    ensures Inv(Do(s, Dispatch))
  {
    assert Held(s, s.k);
    var s' := Do(s, Dispatch);
    var slot := s.order[s.k];
    var r := Ran(slot, s.snap[slot].fn, s.snap[slot].arg);
    assert s'.calls == s.calls + [r];
    CallsMore(s.calls, s.order, s.snap, r);
    forall j | s'.k <= j < |s'.order|
      ensures Held(s', j)
    {
      assert Held(s, j);
    }
  }

  lemma FinishKeeps(s: Sched)
    requires Inv(s) && Legal(s, Finish)
    ensures Inv(Do(s, Finish))
  {
    var s' := Do(s, Finish);
    forall j | s'.k <= j < |s'.order|
      ensures Held(s', j)
    {
      assert Held(s, j);
    }
    forall i | 0 <= i < |s'.tab| && s'.tab[i].used
      ensures s'.tab[i].fn != Null
    {
      assert s.tab[i].used;
    }
  }

  lemma {:induction false} ExecKeeps(s: Sched, steps: seq<Step>)
    requires Inv(s) && LegalRun(s, steps)
    ensures Inv(Exec(s, steps))
    decreases |steps|
  {
    if steps != [] {
      match steps[0] {
        case Call(op) => CallKeeps(s, op);
        case Begin => BeginKeeps(s);
        case Dispatch => DispatchKeeps(s);
        case Finish => FinishKeeps(s);
      }
      ExecKeeps(Do(s, steps[0]), steps[1..]);
    }
  }

  /** However task bodies and ticks interleave, over any number of rounds: the bodies entered in the
      current round are, in order, those the snapshot selected, each with the entry point and argument
      its slot held at the snapshot; a round that is over has entered all of them; and no null entry
      point is ever called. */
  lemma RoundsRunTheSnapshot(tab: Table, ticks: word, steps: seq<Step>, s: Sched)
    requires TableOk(tab) && LegalRun(Idle(tab, ticks), steps) && s == Exec(Idle(tab, ticks), steps)
    ensures s.order == [] || s.order == Snapshot(s.snap).0
    ensures |s.calls| == s.k + (if s.running then 1 else 0) <= |s.order|
    ensures forall j {:trigger s.calls[j]} :: 0 <= j < |s.calls| ==>
              && s.order[j] < |s.snap|
              && s.calls[j] == Ran(s.order[j], s.snap[s.order[j]].fn, s.snap[s.order[j]].arg)
              && s.calls[j].fn != Null
    ensures Legal(s, Begin) ==> |s.calls| == |s.order|
  {
    assert Inv(Idle(tab, ticks));
    ExecKeeps(Idle(tab, ticks), steps);
    SnapshotIsExact(s.snap);
    forall j | 0 <= j < |s.calls|
      ensures s.calls[j].fn != Null
    {
      assert s.order[j] in s.order;
    }
  }

  // ---------- single slots ----------

  /** The step changes slot `i` on purpose. */
  predicate Touches(step: Step, i: nat) {
    step.Call? &&
    match step.op
    case Start(id) => id == i
    case Stop(id) => id == i
    case Reset(id) => id == i
    case SetPeriod(id, _) => id == i
    case _ => false
  }

  ghost predicate Untouched(steps: seq<Step>, i: nat) {
    forall j {:trigger steps[j]} :: 0 <= j < |steps| ==> !Touches(steps[j], i)
  }

  function TickCount(steps: seq<Step>): nat {
    if steps == [] then 0 else (if steps[0] == Call(Tick) then 1 else 0) + TickCount(steps[1..])
  }

  /** What one step does to a periodic slot that nobody touches. */
  lemma StepOnPeriodic(s: Sched, step: Step, i: nat)
    requires Legal(s, step) && i < |s.tab| && s.tab[i].used && s.tab[i].period != 0 && !Touches(step, i)
    ensures var t, t' := s.tab[i], Do(s, step).tab[i];
            && t'.(ready := false) == (if step == Call(Tick) then TickTask(t) else t).(ready := false)
            && (step != Begin && t.ready ==> t'.ready)
  {
    if step == Begin {
      SnapshotIsExact(s.tab);
    }
  }

  /** The countdown of a periodic slot `phase` ticks after its last due tick. */
  ghost predicate AtPhase(t: Task, p: nat, phase: nat) {
    t.used && t.enabled && 0 < p && phase < p && t.period == p && t.countdown == p - 1 - phase
  }

  lemma StepOnPhase(s: Sched, step: Step, i: nat, p: nat, phase: nat)
    requires Legal(s, step) && i < |s.tab| && !Touches(step, i) && AtPhase(s.tab[i], p, phase)
    ensures var phase' := if step != Call(Tick) then phase else if phase + 1 == p then 0 else phase + 1;
            AtPhase(Do(s, step).tab[i], p, phase')
  {
    StepOnPeriodic(s, step, i);
    hide Do;
  }

  lemma PhaseAfter(phase: nat, n: nat, p: nat)
    requires 0 < p && phase < p
    ensures phase % p == phase
    ensures (phase + (n + 1)) % p == ((if phase + 1 == p then 0 else phase + 1) + n) % p
  {
    SmallMod(phase, p);
    if phase + 1 == p {
      AddPeriod(n, p);
    }
  }

  /** A task armed with period p > 0 and left alone is, after n later ticks, n modulo p ticks past its
      last due one, whatever else runs, ticks, starts, stops or rounds go on in between. */
  lemma {:induction false} DueExactlyOnMultiples(s: Sched, steps: seq<Step>, i: nat, p: nat, phase: nat)
    requires LegalRun(s, steps) && Untouched(steps, i) && i < |s.tab| && AtPhase(s.tab[i], p, phase)
    ensures (phase + TickCount(steps)) % p < p
    ensures AtPhase(Exec(s, steps).tab[i], p, (phase + TickCount(steps)) % p)
    decreases |steps|
  {
    hide Do, Legal, AtPhase, Touches;
    assert 0 < p && phase < p by { PhaseBound(s.tab[i], p, phase); }
    if steps == [] {
      SmallMod(phase, p);
    } else {
      var s' := Do(s, steps[0]);
      assert !Touches(steps[0], i);
      StepOnPhase(s, steps[0], i, p, phase);
      var rest := TickCount(steps[1..]);
      if steps[0] == Call(Tick) {
        PhaseAfter(phase, rest, p);
        DueExactlyOnMultiples(s', steps[1..], i, p, if phase + 1 == p then 0 else phase + 1);
      } else {
        DueExactlyOnMultiples(s', steps[1..], i, p, phase);
      }
    }
  }

  lemma PhaseBound(t: Task, p: nat, phase: nat)
    requires AtPhase(t, p, phase)
    ensures 0 < p && phase < p
  {
  }

  lemma NextDue(n: nat, p: nat)
    requires 0 < p
    ensures n % p == p - 1 <==> (n + 1) % p == 0
  {
    var q, r := n / p, n % p;
    assert n == q * p + r;
    if r == p - 1 {
      assert (q + 1) * p == q * p + p;
      DivModUnique(n + 1, p, q + 1, 0);
    } else {
      DivModUnique(n + 1, p, q, r + 1);
    }
  }

  /** The operation arms slot `i` with period `p`. */
  predicate Arms(tab: Table, op: Op, i: nat, p: nat)
    requires i < |tab|
  {
    match op
    case Spawn(fn, _, period, _) => fn != Null && FreeSlot(tab, 0) == i && period == p
    case Start(id) => id == i && tab[i].used && tab[i].period == p
    case Reset(id) => id == i && tab[i].used && tab[i].period == p
    case _ => false
  }

  /** Counted from the spawn, start or reset that armed it, the n-th tick makes the task ready exactly
      when its period divides n. */
  lemma DueOnNthTick(s: Sched, arm: Op, steps: seq<Step>, i: nat, p: nat)
    requires i < |s.tab| && 0 < p && Arms(s.tab, arm, i, p)
    requires LegalRun(Do(s, Call(arm)), steps) && Untouched(steps, i)
    ensures var t := Exec(Do(s, Call(arm)), steps).tab[i];
            TickTask(t.(ready := false)).ready <==> (TickCount(steps) + 1) % p == 0
  {
    var s' := Do(s, Call(arm));
    assert AtPhase(s'.tab[i], p, 0);
    DueExactlyOnMultiples(s', steps, i, p, 0);
    hide Do, Exec;
    NextDue(TickCount(steps), p);
  }

  /** The countdown in progress, whatever period it was armed with, `c` ticks before a due one. */
  lemma {:induction false} DueAfterCountdown(s: Sched, steps: seq<Step>, i: nat, p: nat, c: nat)
    requires LegalRun(s, steps) && Untouched(steps, i) && i < |s.tab|
    requires var t := s.tab[i]; t.used && t.enabled && t.period == p && t.countdown == c && 0 < p
    ensures var t, n := Exec(s, steps).tab[i], TickCount(steps);
            t.used && t.enabled && (t.countdown == 0 <==> c <= n && (n - c) % p == 0)
    decreases |steps|
  {
    if steps != [] {
      assert !Touches(steps[0], i);
      StepOnPeriodic(s, steps[0], i);
      var n := TickCount(steps);
      if steps[0] == Call(Tick) && c == 0 {
        hide Do, Legal, Touches;
        DueAfterCountdown(Do(s, steps[0]), steps[1..], i, p, p - 1);
        FirstMultiple(n, p);
      } else {
        hide Do, Legal, Touches;
        DueAfterCountdown(Do(s, steps[0]), steps[1..], i, p, if steps[0] == Call(Tick) then c - 1 else c);
      }
    }
  }

  lemma FirstMultiple(n: nat, p: nat)
    requires 0 < n && 0 < p
    ensures n % p == 0 <==> p <= n && (n - p) % p == 0
  {
    if n < p {
      SmallMod(n, p);
    } else {
      AddPeriod(n - p, p);
    }
  }

  /** A new period does not disturb the countdown in progress: the next due tick comes as it would have,
      and from then on one every `p` ticks. */
  lemma NewPeriodSetsIn(s: Sched, steps: seq<Step>, i: nat, p: word)
    requires i < |s.tab| && s.tab[i].used && s.tab[i].enabled && 0 < p
    requires LegalRun(Do(s, Call(SetPeriod(i, p))), steps) && Untouched(steps, i)
    ensures var t, n := Exec(Do(s, Call(SetPeriod(i, p))), steps).tab[i], TickCount(steps);
            TickTask(t.(ready := false)).ready
            <==> s.tab[i].countdown <= n && (n - s.tab[i].countdown) % p == 0
  {
    DueAfterCountdown(Do(s, Call(SetPeriod(i, p))), steps, i, p, s.tab[i].countdown);
  }

  /** Nothing arms or stops slot `i`; its period may be changed. */
  ghost predicate LeftRunning(steps: seq<Step>, i: nat) {
    forall j {:trigger steps[j]} :: 0 <= j < |steps| ==>
      steps[j] != Begin && steps[j] != Call(Start(i)) && steps[j] != Call(Stop(i)) && steps[j] != Call(Reset(i))
  }

  /** What one step within a round does to a used slot that is left running, as long as it stays used. */
  lemma StepMidRound(s: Sched, step: Step, i: nat)
    requires Legal(s, step) && i < |s.tab| && s.tab[i].used && LeftRunning([step], i)
    ensures var t, t' := s.tab[i], Do(s, step).tab[i];
            t'.used ==> t' == if step == Call(Tick) then TickTask(t) else t.(period := t'.period)
  {
    assert [step][0] == step;
  }

  /** `k` ticks from now make the task ready, if it is not yet. */
  ghost predicate DueIn(t: Task, k: nat) {
    t.used && t.enabled && (t.ready <==> k == 0) && (0 < k ==> t.countdown == k - 1)
  }

  lemma {:induction false} ReadyWhenDue(s: Sched, steps: seq<Step>, i: nat, k: nat)
    requires LegalRun(s, steps) && LeftRunning(steps, i) && Lives(s, steps, i) && DueIn(s.tab[i], k)
    ensures var t := Exec(s, steps).tab[i];
            t.used && t.enabled && (t.ready <==> k <= TickCount(steps))
    decreases |steps|
  {
    if steps != [] {
      var s', rest := Do(s, steps[0]), steps[1..];
      assert LeftRunning([steps[0]], i);
      StepMidRound(s, steps[0], i);
      ReadyWhenDue(s', rest, i, if steps[0] == Call(Tick) && 0 < k then k - 1 else k);
    }
  }

  /** Until the next round begins, a task spawned, started or reset is ready once its period has passed,
      a one-shot once a tick has, and not before. A new period counts from the next arming on only. */
  lemma ReadyAfterArming(s: Sched, arm: Op, steps: seq<Step>, i: nat, p: nat)
    requires i < |s.tab| && Arms(s.tab, arm, i, p)
    requires LegalRun(Do(s, Call(arm)), steps) && LeftRunning(steps, i) && Lives(Do(s, Call(arm)), steps, i)
    ensures var t := Exec(Do(s, Call(arm)), steps).tab[i];
            t.used && t.enabled && (t.ready <==> (if p == 0 then 1 else p) <= TickCount(steps))
  {
    ReadyWhenDue(Do(s, Call(arm)), steps, i, if p == 0 then 1 else p);
  }

  /** The tick counter counts the ticks, modulo 2^16. */
  lemma {:induction false} TicksAreCounted(s: Sched, steps: seq<Step>)
    requires LegalRun(s, steps)
    ensures Exec(s, steps).ticks == (s.ticks + TickCount(steps)) % 0x1_0000
    decreases |steps|
  {
    if steps != [] {
      var s' := Do(s, steps[0]);
      var d := if steps[0] == Call(Tick) then 1 else 0;
      assert s'.ticks == (s.ticks + d) % 0x1_0000 by { TickedOnce(s.ticks); }
      hide Do, Legal;
      TicksAreCounted(s', steps[1..]);
      WrapsOnce(s.ticks + d, TickCount(steps[1..]));
    } else {
      TickedOnce(s.ticks);
    }
  }

  lemma TickedOnce(x: word)
    ensures x % 0x1_0000 == x
  {
  }

  lemma WrapsOnce(x: nat, n: nat)
    ensures (x % 0x1_0000 + n) % 0x1_0000 == (x + n) % 0x1_0000
  {
  }

  lemma SmallMod(x: nat, p: nat)
    requires x < p
    ensures x % p == x
  {
  }

  lemma AddPeriod(x: nat, p: nat)
    requires 0 < p
    ensures (p + x) % p == x % p
  {
    var q, r := x / p, x % p;
    assert p + x == (q + 1) * p + r;
    DivModUnique(p + x, p, q + 1, r);
  }

  /** A periodic task readied in the middle of a round is still ready when the next round starts. */
  lemma {:induction false} ReadyWaitsForNextRound(s: Sched, steps: seq<Step>, i: nat)
    requires LegalRun(s, steps) && Untouched(steps, i) && Begin !in steps && i < |s.tab|
    requires var t := s.tab[i];
             t.used && t.enabled && t.ready && t.period != 0
    ensures var t := Exec(s, steps).tab[i];
            t.used && t.enabled && t.ready && t.period == s.tab[i].period && t.priority == s.tab[i].priority
    decreases |steps|
  {
    if steps != [] {
      StepOnPeriodic(s, steps[0], i);
      ReadyWaitsForNextRound(Do(s, steps[0]), steps[1..], i);
    }
  }

  // ---------- one-shots ----------

  /** No step gives slot `i` another period. */
  ghost predicate PeriodKept(steps: seq<Step>, i: nat) {
    forall j {:trigger steps[j]} :: 0 <= j < |steps| ==>
      !(steps[j].Call? && steps[j].op.SetPeriod? && steps[j].op.id == i)
  }

  /** How often slot `i` is entered before it is freed. */
  function LifeRuns(s: Sched, steps: seq<Step>, i: nat): nat
    requires LegalRun(s, steps)
    decreases |steps|
  {
    if steps == [] || i >= |s.tab| || !s.tab[i].used then 0
    else (if steps[0].Dispatch? && s.order[s.k] == i then 1 else 0) + LifeRuns(Do(s, steps[0]), steps[1..], i)
  }

  /** The slot is in use through the whole run. */
  predicate Lives(s: Sched, steps: seq<Step>, i: nat)
    requires LegalRun(s, steps)
    decreases |steps|
  {
    i < |s.tab| && s.tab[i].used && (steps == [] || Lives(Do(s, steps[0]), steps[1..], i))
  }

  predicate Serves(s: Sched, i: nat) {
    s.running && s.k < |s.order| && s.order[s.k] == i
  }

  lemma StepOnOneShot(s: Sched, step: Step, i: nat)
    requires Legal(s, step) && i < |s.tab| && s.tab[i].used && s.tab[i].period == 0
    requires !(step.Call? && step.op.SetPeriod? && step.op.id == i)
    ensures var s' := Do(s, step);
            && (s'.tab[i].used <==> !(step.Finish? && Serves(s, i)))
            && (s'.tab[i].used ==> s'.tab[i].period == 0)
            && (Serves(s', i) <==> (step.Dispatch? && s.order[s.k] == i) || (Serves(s, i) && !step.Finish?))
  {
    hide Snapshot, FreeSlot;
    if step == Begin {
      SnapshotIsExact(s.tab);
    }
  }

  /** A one-shot whose period is never changed is entered at most once per spawn; once entered, the
      slot is freed as its body returns. */
  lemma {:induction false} OneShotRunsOnce(s: Sched, steps: seq<Step>, i: nat)
    requires LegalRun(s, steps) && PeriodKept(steps, i)
    requires i < |s.tab| && s.tab[i].used && s.tab[i].period == 0
    ensures LifeRuns(s, steps, i) <= if Serves(s, i) then 0 else 1
    ensures Lives(s, steps, i) ==>
              (Serves(Exec(s, steps), i) <==> Serves(s, i) || LifeRuns(s, steps, i) == 1)
    decreases |steps|
  {
    if steps != [] {
      StepOnOneShot(s, steps[0], i);
      var s' := Do(s, steps[0]);
      if s'.tab[i].used {
        OneShotRunsOnce(s', steps[1..], i);
      } else {
        assert !Lives(s', steps[1..], i);
      }
    }
  }

  /** Whatever else happens, as long as a spawned slot lives its body is entered with the entry point and
      argument it was spawned with, and it keeps the priority it was given. */
  lemma {:induction false} KeepsItsTask(s: Sched, steps: seq<Step>, i: nat)
    requires LegalRun(s, steps) && Lives(s, steps, i)
    ensures var t, t' := s.tab[i], Exec(s, steps).tab[i];
            t'.fn == t.fn && t'.arg == t.arg && t'.priority == t.priority
    decreases |steps|
  {
    if steps != [] {
      StepKeepsTask(s, steps[0], i);
      KeepsItsTask(Do(s, steps[0]), steps[1..], i);
    }
  }

  lemma StepKeepsTask(s: Sched, step: Step, i: nat)
    requires Legal(s, step) && i < |s.tab| && s.tab[i].used && Do(s, step).tab[i].used
    ensures var t, t' := s.tab[i], Do(s, step).tab[i];
            t'.fn == t.fn && t'.arg == t.arg && t'.priority == t.priority
  {
    if step == Begin {
      SnapshotIsExact(s.tab);
    }
  }

  /** A spawn takes the first free slot; until that is freed, every entry of it calls what was given. */
  lemma SpawnedRuns(s: Sched, fn: FnPtr, arg: int, period: word, priority: octet, steps: seq<Step>, i: nat)
    requires fn != Null && i < |s.tab| && !s.tab[i].used && forall j {:trigger s.tab[j]} :: 0 <= j < i ==> s.tab[j].used
    requires var s' := Do(s, Call(Spawn(fn, arg, period, priority)));
             LegalRun(s', steps) && Lives(s', steps, i)
    ensures var r := Exec(Do(s, Call(Spawn(fn, arg, period, priority))), steps);
            && r.tab[i].priority == priority
            && (Legal(r, Dispatch) && r.order[r.k] == i ==>
                  |Do(r, Dispatch).calls| == |r.calls| + 1 && Do(r, Dispatch).calls[|r.calls|] == Ran(i, fn, arg))
  {
    var s' := Do(s, Call(Spawn(fn, arg, period, priority)));
    assert FreeSlot(s.tab, 0) == i;
    KeepsItsTask(s', steps, i);
  }

  /** After initialisation nothing is ready, whatever ticks come, and the first spawn takes slot 0. */
  lemma {:induction false} FreshIsIdle(n: nat, ticks: nat, tab: Table)
    requires tab == Ticked(seq(n, _ => EMPTY), ticks)
    ensures Snapshot(tab).0 == [] && FreeSlot(tab, 0) == 0
  {
    StillFresh(n, ticks);
    SomeRunnable(tab);
    hide Snapshot;
  }

  /** A round that is not empty has picked some runnable task. */
  lemma SomeRunnable(tab: Table)
    ensures Snapshot(tab).0 == [] || exists s {:trigger tab[s]} :: 0 <= s < |tab| && Runnable(tab[s])
  {
    SnapshotIsExact(tab);
    hide Snapshot;
    var order := Snapshot(tab).0;
    if order != [] {
      assert order[0] in order;
      assert Runnable(tab[order[0]]);
    }
  }

  function Ticked(tab: Table, ticks: nat): Table {
    if ticks == 0 then tab else TickAll(Ticked(tab, ticks - 1))
  }

  lemma {:induction false} StillFresh(n: nat, ticks: nat)
    ensures Ticked(seq(n, _ => EMPTY), ticks) == seq(n, _ => EMPTY)
  {
    if ticks > 0 {
      StillFresh(n, ticks - 1);
    }
  }

  // ---------- stopping ----------

  /** The round in progress has still to enter slot `i`. */
  predicate Pending(s: Sched, i: nat)
    requires |s.calls| <= |s.order|
  {
    i in s.order[|s.calls|..]
  }

  /** Nothing arms slot `i` again. */
  predicate NeverArmed(steps: seq<Step>, i: nat) {
    Call(Start(i)) !in steps && Call(Reset(i)) !in steps
  }

  predicate Stopped(s: Sched, i: nat) {
    i < |s.tab| && s.tab[i].used && !s.tab[i].enabled && !s.tab[i].ready
  }

  /** The round in progress ends within the run. */
  predicate RoundEnds(s: Sched, steps: seq<Step>)
    requires LegalRun(s, steps)
  {
    Begin in steps || Legal(Exec(s, steps), Begin)
  }

  lemma StepOnStopped(s: Sched, step: Step, i: nat)
    requires Inv(s) && Legal(s, step) && Stopped(s, i) && step != Call(Start(i)) && step != Call(Reset(i))
    ensures var s' := Do(s, step);
            && (s'.tab[i].used ==> Stopped(s', i))
            && (Pending(s, i) ==> s'.tab[i].used && step != Begin)
            && |s'.calls| <= |s'.order|
            && (Pending(s', i) <==> Pending(s, i) && !(step.Dispatch? && s.order[s.k] == i))
            && (step.Dispatch? && s.order[s.k] == i ==> Pending(s, i))
  {
    match step {
      case Begin =>
        SnapshotIsExact(s.tab);
      case Dispatch =>
        var order, k := s.order, s.k;
        assert order[k..] == [order[k]] + order[k + 1..];
        assert order[k] !in order[k + 1..];
      case Finish =>
        assert s.order[s.k] !in s.order[s.k + 1..];
      case Call(op) =>
    }
  }

  /** Stopping does not recall a task that the round in progress has selected: until it is armed again
      a stopped task is entered once more if it is still to be served, and never otherwise. */
  lemma {:induction false} StoppedRuns(s: Sched, steps: seq<Step>, i: nat)
    requires Inv(s) && Stopped(s, i) && LegalRun(s, steps) && NeverArmed(steps, i)
    ensures LifeRuns(s, steps, i) <= if Pending(s, i) then 1 else 0
    ensures RoundEnds(s, steps) ==> LifeRuns(s, steps, i) == if Pending(s, i) then 1 else 0
    decreases |steps|
  {
    if steps != [] {
      var s', rest := Do(s, steps[0]), steps[1..];
      StepOnStopped(s, steps[0], i);
      ExecKeeps(s, [steps[0]]);
      assert Exec(s, [steps[0]]) == s' by {
        assert [steps[0]][1..] == [];
      }
      assert steps == [steps[0]] + rest;
      if s'.tab[i].used {
        StoppedRuns(s', rest, i);
      }
    }
  }

  /** task_stop keeps a task from being entered until it is armed again if and only if the round in
      progress has no pending entry for it. */
  lemma StopHoldsIff(s: Sched, i: nat, steps: seq<Step>)
    requires Inv(s) && i < |s.tab| && s.tab[i].used
    requires LegalRun(Do(s, Call(Stop(i))), steps) && NeverArmed(steps, i)
    ensures !Pending(s, i) ==> LifeRuns(Do(s, Call(Stop(i))), steps, i) == 0
    ensures RoundEnds(Do(s, Call(Stop(i))), steps) ==>
              LifeRuns(Do(s, Call(Stop(i))), steps, i) == if Pending(s, i) then 1 else 0
  {
    CallKeeps(s, Stop(i));
    StoppedRuns(Do(s, Call(Stop(i))), steps, i);
  }
}
