/** The scheduler's table updated in place: the mutators, the tick and the round. */
module TaskManager {
  import opened Tasks
  import opened Words

  /** The steps of one round whose k-th task body performs the operations `bodies[k]`. */
  function BodyOf(bodies: seq<seq<Op>>, k: nat): seq<Op> {
    if k < |bodies| then bodies[k] else []
  }

  function Calls(ops: seq<Op>): (r: seq<Step>)
    ensures |r| == |ops|
  {
    seq(|ops|, i requires 0 <= i < |ops| => Call(ops[i]))
  }

  /** The steps from the k-th dispatch to the end of a round of `n` tasks. */
  function RestOfRound(bodies: seq<seq<Op>>, k: nat, n: nat): seq<Step>
    requires k <= n
    decreases n - k
  {
    if k == n then [] else [Dispatch] + Calls(BodyOf(bodies, k)) + [Finish] + RestOfRound(bodies, k + 1, n)
  }

  /** Running `a` and then `b` is running `a + b`. */
  lemma {:induction false} ExecConcat(s: Sched, a: seq<Step>, b: seq<Step>)
    requires LegalRun(s, a) && LegalRun(Exec(s, a), b)
    ensures LegalRun(s, a + b) && Exec(s, a + b) == Exec(Exec(s, a), b)
    decreases |a|
  {
    if a == [] {
      assert a + b == b;
    } else {
      assert (a + b)[1..] == a[1..] + b;
      ExecConcat(Do(s, a[0]), a[1..], b);
    }
  }

  lemma NoSteps(s: Sched)
    ensures LegalRun(s, []) && Exec(s, []) == s
  {
  }

  lemma OneStep(s: Sched, step: Step)
    requires Legal(s, step)
    ensures LegalRun(s, [step]) && Exec(s, [step]) == Do(s, step)
  {
    assert [step][1..] == [];
  }

  lemma {:induction false} CallsAreLegal(s: Sched, ops: seq<Op>)
    ensures LegalRun(s, Calls(ops))
    ensures var s' := Exec(s, Calls(ops));
            s' == s.(tab := s'.tab, ticks := s'.ticks)
    decreases |ops|
  {
    if ops != [] {
      assert Calls(ops)[1..] == Calls(ops[1..]);
      CallsAreLegal(Do(s, Call(ops[0])), ops[1..]);
    }
  }

  class Manager {
    const tasks: array<Task>
    var ticks: word

    constructor (size: nat)
      ensures fresh(tasks) && tasks.Length == size && ticks == 0
      ensures tasks[..] == seq(size, _ => EMPTY) && TableOk(tasks[..])
    {
      tasks := new Task[size](_ => EMPTY);
      ticks := 0;
    }

    /** The scheduler state between rounds. */
    ghost function View(): Sched
      reads this, tasks
    {
      Idle(tasks[..], ticks)
    }

    method Spawn(fn: FnPtr, arg: int, period: word, priority: octet) returns (id: int)
      modifies tasks
      ensures tasks[..] == Apply(old(tasks[..]), Op.Spawn(fn, arg, period, priority))
      ensures id == -1 <==> fn == Null || FreeSlot(old(tasks[..]), 0) == tasks.Length
      ensures 0 <= id ==> id == FreeSlot(old(tasks[..]), 0)
    {
      if fn == Null {
        return -1;
      }
      var i := 0;
      while i < tasks.Length
        invariant 0 <= i <= tasks.Length
        invariant FreeSlot(tasks[..], 0) == FreeSlot(tasks[..], i)
        invariant tasks[..] == old(tasks[..])
      {
        if !tasks[i].used {
          tasks[i] := Task(fn, arg, period, ArmCountdown(period), priority, true, true, false);
          return i;
        }
        i := i + 1;
      }
      return -1;
    }

    method Start(id: nat)
      modifies tasks
      ensures tasks[..] == Apply(old(tasks[..]), Op.Start(id))
    {
      if id < tasks.Length && tasks[id].used {
        tasks[id] := tasks[id].(countdown := ArmCountdown(tasks[id].period), enabled := true, ready := false);
      }
    }

    method Stop(id: nat)
      modifies tasks
      ensures tasks[..] == Apply(old(tasks[..]), Op.Stop(id))
    {
      if id < tasks.Length && tasks[id].used {
        tasks[id] := tasks[id].(enabled := false, ready := false);
      }
    }

    method Reset(id: nat)
      modifies tasks
      ensures tasks[..] == Apply(old(tasks[..]), Op.Reset(id))
    {
      if id < tasks.Length && tasks[id].used {
        tasks[id] := tasks[id].(countdown := ArmCountdown(tasks[id].period), enabled := true, ready := false);
      }
    }

    method SetPeriod(id: nat, period: word)
      modifies tasks
      ensures tasks[..] == Apply(old(tasks[..]), Op.SetPeriod(id, period))
    {
      if id < tasks.Length && tasks[id].used {
        tasks[id] := tasks[id].(period := period);
      }
    }

    method Tick()
      modifies tasks, this`ticks
      ensures tasks[..] == TickAll(old(tasks[..])) && ticks == (old(ticks) + 1) % 0x1_0000
    {
      ticks := (ticks + 1) % 0x1_0000;
      var i := 0;
      while i < tasks.Length
        invariant 0 <= i <= tasks.Length && ticks == (old(ticks) + 1) % 0x1_0000
        invariant forall j :: 0 <= j < i ==> tasks[j] == TickTask(old(tasks[..])[j])
        invariant forall j :: i <= j < tasks.Length ==> tasks[j] == old(tasks[..])[j]
      {
        var t := tasks[i];
        if t.used && t.enabled {
          if t.countdown == 0 {
            t := t.(ready := true);
            if t.period != 0 {
              t := t.(countdown := ArmCountdown(t.period));
            }
          } else {
            t := t.(countdown := t.countdown - 1);
          }
          tasks[i] := t;
        }
        i := i + 1;
      }
    }

    /** One operation of a task body, or one tick interrupt during it. */
    method Perform(op: Op)
      modifies tasks, this`ticks
      ensures tasks[..] == Apply(old(tasks[..]), op)
      ensures ticks == if op == Op.Tick then (old(ticks) + 1) % 0x1_0000 else old(ticks)
    {
      match op
      case Spawn(fn, arg, period, priority) =>
        var _ := Spawn(fn, arg, period, priority);
      case Start(id) => Start(id);
      case Stop(id) => Stop(id);
      case Reset(id) => Reset(id);
      case SetPeriod(id, period) => SetPeriod(id, period);
      case Tick => Tick();
    }

    /** The scan for the next task to pick, -1 for none. */
    method PickBest() returns (best: int)
      ensures best == Best(tasks[..], tasks.Length)
    {
      best := -1;
      var bestPrio: octet := 0xFF;
      var i := 0;
      while i < tasks.Length
        invariant 0 <= i <= tasks.Length
        invariant best == Best(tasks[..], i)
        invariant bestPrio == if best < 0 then 0xFF else tasks[best].priority
      {
        var t := tasks[i];
        if t.used && t.enabled && t.ready && t.priority < bestPrio {
          best := i;
          bestPrio := t.priority;
        }
        i := i + 1;
      }
    }

    method TakeSnapshot() returns (order: seq<nat>)
      modifies tasks
      ensures order == Snapshot(old(tasks[..])).0 && tasks[..] == Snapshot(old(tasks[..])).1
    {
      hide Snapshot, ReadyCount;
      order := [];
      while true
        invariant Snapshot(old(tasks[..])).0 == order + Snapshot(tasks[..]).0
        invariant Snapshot(old(tasks[..])).1 == Snapshot(tasks[..]).1
        decreases ReadyCount(tasks[..])
      {
        ghost var before := tasks[..];
        SnapshotStep(before);
        var best := PickBest();
        if best < 0 {
          assert order + [] == order;
          break;
        }
        tasks[best] := tasks[best].(ready := false);
        assert tasks[..] == Unready(before, best);
        order := order + [best];
      }
    }

    /** One task body: its operations, with ticks landing anywhere among them. */
    method RunBody(ops: seq<Op>, ghost s: Sched) returns (ghost s': Sched)
      requires s.tab == tasks[..] && s.ticks == ticks
      modifies tasks, this`ticks
      ensures LegalRun(s, Calls(ops)) && s' == Exec(s, Calls(ops))
      ensures s' == s.(tab := tasks[..], ticks := ticks)
    {
      s' := s;
      var i := 0;
      assert Calls(ops[..0]) == [];
      NoSteps(s);
      hide LegalRun, Exec, Apply;
      while i < |ops|
        invariant 0 <= i <= |ops|
        invariant LegalRun(s, Calls(ops[..i])) && s' == Exec(s, Calls(ops[..i]))
        invariant s' == s.(tab := tasks[..], ticks := ticks)
      {
        Perform(ops[i]);
        assert Calls(ops[..i + 1]) == Calls(ops[..i]) + [Call(ops[i])];
        OneStep(s', Call(ops[i]));
        ExecConcat(s, Calls(ops[..i]), [Call(ops[i])]);
        s' := Do(s', Call(ops[i]));
        i := i + 1;
      }
      assert ops[..|ops|] == ops;
    }

    /** A round whose task bodies behave as `bodies` says is a run of the step machine; `calls` lists
        the bodies entered. */
    method RunOnce(bodies: seq<seq<Op>>) returns (n: nat, calls: seq<Run>)
      requires TableOk(tasks[..])
      modifies tasks, this`ticks
      ensures n == |Snapshot(old(tasks[..])).0|
      ensures var steps := [Begin] + RestOfRound(bodies, 0, n);
              && LegalRun(old(View()), steps)
              && var s := Exec(old(View()), steps);
                 s.tab == tasks[..] && s.ticks == ticks && s.calls == calls && |calls| == n
    {
      ghost var s0 := View();
      var order := TakeSnapshot();
      n := |order|;
      calls := [];
      ghost var s := Do(s0, Begin);
      ghost var done := [Begin];
      assert Inv(s0);
      BeginKeeps(s0);
      assert LegalRun(s, []) && Exec(s0, done) == s by {
        assert done[1..] == [];
      }
      var k := 0;
      while k < n
        invariant 0 <= k <= n && Inv(s)
        invariant s.tab == tasks[..] && s.ticks == ticks && s.order == order && s.k == k && !s.running
        invariant s.calls == calls
        invariant LegalRun(s0, done) && Exec(s0, done) == s
        invariant done + RestOfRound(bodies, k, n) == [Begin] + RestOfRound(bodies, 0, n)
      {
        assert Held(s, k);
        var slot := order[k];
        calls := calls + [Ran(slot, tasks[slot].fn, tasks[slot].arg)];
        ghost var s1 := Do(s, Dispatch);
        DispatchKeeps(s);
        var ops := BodyOf(bodies, k);
        ghost var s2 := RunBody(ops, s1);
        ExecKeeps(s1, Calls(ops));
        if tasks[slot].period == 0 {
          tasks[slot] := tasks[slot].(fn := Null, used := false, enabled := false, ready := false);
        }
        ghost var s3 := Do(s2, Finish);
        FinishKeeps(s2);
        OneTask(s0, done, s, ops);
        RoundSplits(done, bodies, k, n);
        done := done + ([Dispatch] + Calls(ops) + [Finish]);
        s := s3;
        k := k + 1;
      }
      assert done + [] == done;
    }
  }

  lemma RoundSplits(done: seq<Step>, bodies: seq<seq<Op>>, k: nat, n: nat)
    requires k < n
    ensures done + RestOfRound(bodies, k, n)
            == done + ([Dispatch] + Calls(BodyOf(bodies, k)) + [Finish]) + RestOfRound(bodies, k + 1, n)
  {
  }

  /** Extending a run by a dispatch, a body and the return from it. */
  lemma OneTask(s0: Sched, done: seq<Step>, s: Sched, ops: seq<Op>)
    requires LegalRun(s0, done) && Exec(s0, done) == s && Legal(s, Dispatch)
    ensures var s1 := Do(s, Dispatch);
            var steps := done + ([Dispatch] + Calls(ops) + [Finish]);
            && LegalRun(s1, Calls(ops))
            && var s2 := Exec(s1, Calls(ops));
               Legal(s2, Finish) && LegalRun(s0, steps) && Exec(s0, steps) == Do(s2, Finish)
  {
    var s1 := Do(s, Dispatch);
    CallsAreLegal(s1, ops);
    var s2 := Exec(s1, Calls(ops));
    OneStep(s2, Finish);
    ExecConcat(s1, Calls(ops), [Finish]);
    var rest := Calls(ops) + [Finish];
    assert ([Dispatch] + rest)[1..] == rest;
    assert [Dispatch] + Calls(ops) + [Finish] == [Dispatch] + rest;
    ExecConcat(s0, done, [Dispatch] + rest);
  }
}
