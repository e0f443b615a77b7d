/** The receive ring of the serial module: its callback as an interrupt, as a call pumped from the main
    loop that interrupts can cut in on between any two statements, and the reads. */
module SerialRx {
  import opened Arith
  import opened Bytes
  import Tx = SerialTx

  const SZ: nat := Tx.SZ

  /** A callback called from the main loop: the byte it was given, the unread bytes when it was, and
      those that interrupts have stored since. */
  datatype Call = Call(b: byte, before: seq<byte>, since: seq<byte>)

  /** Where the main loop stands: outside the callback, or inside it with the byte read from the
      register, the count tested, the byte stored, or the head moved. `slot` is what the head moved
      past, `late` what interrupts have stored since. */
  datatype Main =
    | Idle
    | Took(call: Call) | Tested(call: Call) | Stored(call: Call)
    | Moved(call: Call, slot: byte, late: seq<byte>)

  /** `rx` is what the count covers, from the tail on. `window` is the whole array, the slot at the head
      first. `spoilt` counts the calls that left the ring out of order. */
  datatype State = State(main: Main, rx: seq<byte>, window: seq<byte>, read: seq<byte>, spoilt: nat)

  const RESET := State(Idle, [], Tx.Zeroes(), [], 0)

  datatype Step =
    | OnRx(b: byte)
    | Read(max: nat)
    | PumpRead(b: byte) | PumpTest | PumpStore | PumpMove | PumpCount

  /** Interrupts may arrive between any two main steps; the main steps keep their program order. */
  predicate Enabled(s: State, e: Step) {
    match e
    case OnRx(_) => true
    case Read(_) => s.main == Idle
    case PumpRead(_) => s.main == Idle
    case PumpTest => s.main.Took?
    case PumpStore => s.main.Tested?
    case PumpMove => s.main.Stored?
    case PumpCount => s.main.Moved?
  }

  /** Storing at the head: the oldest byte is overwritten if `covered` slots reach around to it. */
  function Overwritten(rx: seq<byte>, covered: nat, b: byte): (r: seq<byte>)
    ensures |r| == |rx|
  {
    if covered == SZ && rx != [] then rx[0 := b] else rx
  }

  function Heard(call: Call, b: byte): Call {
    call.(since := call.since + [b])
  }

  /** What a call in progress is told of a byte that an interrupt stores. */
  function Noted(main: Main, b: byte): Main {
    match main
    case Idle => Idle
    case Took(call) => Took(Heard(call, b))
    case Tested(call) => Tested(Heard(call, b))
    case Stored(call) => Stored(Heard(call, b))
    case Moved(call, slot, late) => Moved(call, slot, late + [b])
  }

  /** The main loop is at the same statement of the same call. */
  predicate SamePlace(m: Main, n: Main) {
    match m
    case Idle => n == Idle
    case Took(call) => n.Took? && n.call.b == call.b
    case Tested(call) => n.Tested? && n.call.b == call.b
    case Stored(call) => n.Stored? && n.call.b == call.b
    case Moved(call, _, _) => n.Moved? && n.call.b == call.b
  }

  lemma SamePlaceIs()
    ensures forall n {:trigger SamePlace(Idle, n)} :: SamePlace(Idle, n) ==> n == Idle
    ensures forall m, n {:trigger SamePlace(m, n)} ::
              SamePlace(m, n) && m != Idle ==> n != Idle && n.call.b == m.call.b
    ensures forall m, n {:trigger SamePlace(m, n)} ::
              SamePlace(m, n) ==> && (m.Took? ==> n.Took?) && (m.Tested? ==> n.Tested?)
                                  && (m.Stored? ==> n.Stored?) && (m.Moved? ==> n.Moved?)
  {
  }

  lemma StaysThere(m: Main)
    ensures SamePlace(m, m)
  {
  }

  lemma SameThere(m: Main, n: Main, o: Main)
    requires SamePlace(m, n) && SamePlace(n, o)
    ensures SamePlace(m, o)
  {
  }

  /** A receive interrupt. If it finds the head moved and the count not yet, its own count covers the
      slot moved past, and the byte it stores is left for the main loop to count. */
  function Receive(s: State, b: byte): State
    requires |s.window| == SZ
  {
    if SZ <= |s.rx| then s
    else
      s.(main := Noted(s.main, b), window := s.window[1..] + [b],
         rx := if s.main.Moved? then Overwritten(s.rx + [s.window[SZ - 1]], |s.rx| + 1, b) else s.rx + [b])
  }

  /** What the call and the interrupts within it should leave unread. */
  function Due(main: Main): seq<byte>
    requires main != Idle
  {
    main.call.before + [main.call.b] + main.call.since + if main.Moved? then main.late else []
  }

  /** The stretch of `s` from index `i` on has equal neighbours. */
  predicate AlikeFrom(s: seq<byte>, i: nat) {
    forall k {:trigger s[k]} :: i <= k < |s| - 1 ==> s[k] == s[k + 1]
  }

  /** The byte in hand, those that interrupts stored before the head moved, and the slot moved past are
      all alike; if the ring is overfull, the last byte stored, which has replaced the oldest one,
      equals it. (If there was no unread byte, that one was the byte in hand itself, and the others
      need only be alike among themselves.) */
  predicate Clean(s: State)
    requires |s.window| == SZ && s.main.Moved?
  {
    var call := s.main.call;
    var overfull := |s.rx| == SZ;
    && AlikeFrom([call.b] + call.since + [s.main.slot], if overfull && call.before == [] then 1 else 0)
    && (overfull ==> s.window[SZ - 1] == (call.before + [call.b])[0])
  }

  function Next(s: State, e: Step): State
    requires |s.window| == SZ
  {
    match e
    case OnRx(b) => Receive(s, b)
    case Read(max) =>
      var n := Least(max, |s.rx|);
      s.(read := s.read + s.rx[..n], rx := s.rx[n..])
    case PumpRead(b) => s.(main := Took(Call(b, s.rx, [])))
    case PumpTest =>
      if !s.main.Took? then s else s.(main := if |s.rx| < SZ then Tested(s.main.call) else Idle)
    case PumpStore =>
      if !s.main.Tested? then s
      else
        s.(main := Stored(s.main.call), rx := Overwritten(s.rx, |s.rx|, s.main.call.b),
           window := s.window[0 := s.main.call.b])
    case PumpMove =>
      if !s.main.Stored? then s
      else s.(main := Moved(s.main.call, s.window[0], []), window := s.window[1..] + [s.window[0]])
    case PumpCount =>
      if !s.main.Moved? then s
      else
        s.(main := Idle, rx := s.rx + [s.window[SZ - 1]], spoilt := if Clean(s) then s.spoilt else s.spoilt + 1)
  }

  function Exec(s: State, es: seq<Step>): (r: State)
    requires |s.window| == SZ
    ensures |r.window| == SZ
  {
    if es == [] then s else Next(Exec(s, es[..|es| - 1]), es[|es| - 1])
  }

  predicate Allowed(s: State, es: seq<Step>)
    requires |s.window| == SZ
  {
    es != [] ==> Allowed(s, es[..|es| - 1]) && Enabled(Exec(s, es[..|es| - 1]), es[|es| - 1])
  }

  // ---------- the array behind the ring ----------

  /** The last `n` slots before the head, around the array if need be. */
  function Tail(window: seq<byte>, n: nat): (t: seq<byte>)
    requires |window| == SZ && n <= SZ + 1
    ensures |t| == n
  {
    if n <= SZ then window[SZ - n..] else [window[SZ - 1]] + window
  }

  /** The ring as it will be once the main loop has counted. */
  function Covered(s: State): seq<byte>
    requires |s.window| == SZ
  {
    if s.main.Moved? then s.rx + [s.window[SZ - 1]] else s.rx
  }

  lemma TailGrows(window: seq<byte>, n: nat, b: byte)
    requires |window| == SZ && n <= SZ
    ensures Overwritten(Tail(window, n), n, b) + [b] == Tail(window[1..] + [b], n + 1)
  {
    var next := window[1..] + [b];
    if n < SZ {
      assert next[SZ - n - 1..] == window[SZ - n..] + [b];
    } else {
      assert window[0 := b] == [b] + window[1..];
    }
  }

  lemma TailStored(window: seq<byte>, n: nat, b: byte)
    requires |window| == SZ && n <= SZ
    ensures Overwritten(Tail(window, n), n, b) == Tail(window[0 := b], n)
  {
  }

  lemma TailRead(window: seq<byte>, n: nat, k: nat)
    requires |window| == SZ && k <= n <= SZ + 1
    ensures Tail(window, n)[k..] == Tail(window, n - k)
  {
    if n <= SZ {
      assert window[SZ - n..][k..] == window[SZ - n + k..];
    } else if 0 < k {
      assert ([window[SZ - 1]] + window)[k..] == window[k - 1..];
    }
  }

  /** The count never covers more than the array and one slot, and never other slots than those before
      the head. */
  ghost predicate Sound(s: State) {
    && |s.window| == SZ && |Covered(s)| <= SZ + 1
    && (s.main != Idle && !s.main.Took? ==> |s.rx| <= SZ)
    && Covered(s) == Tail(s.window, |Covered(s)|)
  }

  lemma StepSound(s: State, e: Step)
    requires Sound(s) && Enabled(s, e)
    ensures Sound(Next(s, e))
  {
    hide Clean, Tail, Overwritten;
    match e {
      case OnRx(b) =>
        if |s.rx| < SZ {
          TailGrows(s.window, |Covered(s)|, b);
          if !s.main.Moved? {
            NotFull(s.rx, b);
          }
        }
      case Read(max) => TailRead(s.window, |s.rx|, Least(max, |s.rx|));
      case PumpStore => TailStored(s.window, |s.rx|, s.main.call.b);
      case PumpMove =>
        TailGrows(s.window, |s.rx|, s.window[0]);
        SameOldest(s.window, |s.rx|);
      case _ =>
    }
  }

  lemma NotFull(rx: seq<byte>, b: byte)
    requires |rx| < SZ
    ensures Overwritten(rx, |rx|, b) == rx
  {
  }

  lemma SameOldest(window: seq<byte>, n: nat)
    requires |window| == SZ && n <= SZ
    ensures Overwritten(Tail(window, n), n, window[0]) == Tail(window, n)
  {
  }

  // ---------- what a call does to the ring ----------

  /** What a call in progress keeps, whatever cuts in on it. */
  ghost predicate InCall(s: State)
    requires |s.window| == SZ
  {
    match s.main
    case Idle => true
    case Took(c) => s.rx == c.before + c.since
    case Tested(c) => s.rx == c.before + c.since
    case Stored(c) => s.rx == c.before + c.since || (|s.rx| == SZ && FullButOldest(s.rx, c.before + c.since, c.b))
    case Moved(c, slot, late) =>
      var full := c.before + c.since + [slot] + late;
      if |s.rx| < SZ then Covered(s) == full
      else |full| == SZ + 1 && FullButOldest(Covered(s), full, Covered(s)[SZ])
  }

  /** `rx` is `full` but for the oldest byte, which is `b`. */
  predicate FullButOldest(rx: seq<byte>, full: seq<byte>, b: byte) {
    rx != [] && |rx| == |full| && rx[0] == b && rx[1..] == full[1..]
  }

  lemma CallKeeps(s: State, e: Step)
    requires Sound(s) && InCall(s) && Enabled(s, e)
    ensures InCall(Next(s, e))
  {
    match e {
      case OnRx(b) => ReceiveInCall(s, b);
      case PumpStore =>
      case PumpMove => MoveInCall(s);
      case _ =>
    }
  }

  lemma MoveInCall(s: State)
    requires Sound(s) && InCall(s) && s.main.Stored?
    ensures InCall(Next(s, PumpMove))
  {
    var c, x := s.main.call, s.window[0];
    var full := c.before + c.since;
    var s' := Next(s, PumpMove);
    assert s'.rx == s.rx && Covered(s') == s.rx + [x] && c.before + c.since + [x] + [] == full + [x];
    if |s.rx| == SZ {
      assert s.rx == s.window;
      assert (s.rx + [x])[1..] == s.rx[1..] + [x] && (full + [x])[1..] == full[1..] + [x];
      assert s.rx[1..] == full[1..];
    }
  }

  lemma ReceiveInCall(s: State, b: byte)
    requires Sound(s) && InCall(s)
    ensures InCall(Receive(s, b))
  {
    if |s.rx| < SZ {
      match s.main {
        case Idle =>
        case Moved(_, _, _) => ReceiveMoved(s, b);
        case _ =>
          var c := s.main.call;
          assert c.before + (c.since + [b]) == c.before + c.since + [b];
      }
    }
  }

  lemma ReceiveMoved(s: State, b: byte)
    requires Sound(s) && InCall(s) && s.main.Moved? && |s.rx| < SZ
    ensures InCall(Receive(s, b))
  {
    var c, slot, late := s.main.call, s.main.slot, s.main.late;
    var full := c.before + c.since + [slot] + late;
    var s' := Receive(s, b);
    assert c.before + c.since + [slot] + (late + [b]) == full + [b];
    assert Covered(s') == Overwritten(full, |full|, b) + [b];
    hide Tail, Clean, Noted;
    OldestGone(full, b);
  }

  lemma OldestGone(full: seq<byte>, b: byte)
    requires full != []
    ensures if |full| == SZ then FullButOldest(Overwritten(full, SZ, b) + [b], full + [b], b)
            else Overwritten(full, |full|, b) == full
  {
    if |full| == SZ {
      assert full[0 := b][1..] == full[1..];
      assert (full[0 := b] + [b])[1..] == full[0 := b][1..] + [b] && (full + [b])[1..] == full[1..] + [b];
    }
  }

  // ---------- when a call keeps the order ----------

  lemma {:induction false} Rotated(s: seq<byte>, b: byte, x: byte)
    ensures s + [x] == [b] + s <==>
            forall i {:trigger ([b] + s + [x])[i]} :: 0 <= i <= |s| ==> ([b] + s + [x])[i] == ([b] + s + [x])[i + 1]
  {
    var left, right, all := s + [x], [b] + s, [b] + s + [x];
    assert forall i {:trigger all[i]} :: 0 <= i <= |s| ==> all[i] == right[i] && all[i + 1] == left[i];
    if left == right {
      forall i | 0 <= i <= |s|
        ensures all[i] == all[i + 1]
      {
        assert all[i] == right[i] && left[i] == right[i];
      }
    } else if forall i {:trigger all[i]} :: 0 <= i <= |s| ==> all[i] == all[i + 1] {
      forall i | 0 <= i <= |s|
        ensures left[i] == right[i]
      {
        assert all[i] == right[i];
      }
    }
  }

  lemma SameMiddle(a: seq<byte>, x: seq<byte>, y: seq<byte>, c: seq<byte>)
    requires |x| == |y|
    ensures a + x + c == a + y + c <==> x == y
  {
    if a + x + c == a + y + c {
      assert x == (a + x + c)[|a|..|a| + |x|] == (a + y + c)[|a|..|a| + |x|] == y;
    }
  }

  lemma RoomFor(c: Call, x: byte, late: seq<byte>)
    ensures c.before + c.since + [x] + late == c.before + [c.b] + c.since + late
            <==> AlikeFrom([c.b] + c.since + [x], 0)
  {
    assert c.before + c.since + [x] + late == c.before + (c.since + [x]) + late;
    assert c.before + [c.b] + c.since + late == c.before + ([c.b] + c.since) + late;
    SameMiddle(c.before, c.since + [x], [c.b] + c.since, late);
    Rotated(c.since, c.b, x);
  }

  /** The same but for the oldest byte, if there was none unread. */
  lemma NoneBefore(c: Call, x: byte, late: seq<byte>)
    requires c.before == []
    ensures (c.before + c.since + [x] + late)[1..] == (c.before + [c.b] + c.since + late)[1..]
            <==> AlikeFrom([c.b] + c.since + [x], 1)
  {
    assert (c.before + [c.b] + c.since + late)[1..] == c.since + late;
    if c.since == [] {
      assert (c.before + c.since + [x] + late)[1..] == late;
    } else {
      var first, rest := c.since[0], c.since[1..];
      var all := [c.b] + c.since + [x];
      assert c.since == [first] + rest;
      assert (c.before + c.since + [x] + late)[1..] == [] + (rest + [x]) + late;
      assert c.since + late == [] + ([first] + rest) + late;
      SameMiddle([], rest + [x], [first] + rest, late);
      Rotated(rest, first, x);
      assert all[1..] == [first] + rest + [x];
      AlikeDrop(all);
    }
  }

  lemma AlikeDrop(all: seq<byte>)
    requires all != []
    ensures AlikeFrom(all, 1) <==> AlikeFrom(all[1..], 0)
  {
    var t := all[1..];
    if AlikeFrom(t, 0) {
      forall k | 1 <= k < |all| - 1
        ensures all[k] == all[k + 1]
      {
        assert t[k - 1] == t[k];
      }
    }
  }

  lemma Overfull(covered: seq<byte>, full: seq<byte>, due: seq<byte>, last: byte)
    requires FullButOldest(covered, full, last) && |full| == |due|
    ensures covered == due <==> last == due[0] && full[1..] == due[1..]
  {
    assert covered == [last] + full[1..] && due == [due[0]] + due[1..];
  }

  lemma SameFront(full: seq<byte>, due: seq<byte>)
    requires |full| == |due| && 0 < |full| && full[0] == due[0]
    ensures full[1..] == due[1..] <==> full == due
  {
    assert full == [full[0]] + full[1..] && due == [due[0]] + due[1..];
  }

  /** The call leaves in the ring what had come in, in the order it came, exactly when it is clean. */
  lemma CallIff(s: State)
    requires Sound(s) && InCall(s) && s.main.Moved?
    ensures Next(s, PumpCount).rx == Due(s.main) <==> Clean(s)
  {
    var c, x, late := s.main.call, s.main.slot, s.main.late;
    var full, due := c.before + c.since + [x] + late, Due(s.main);
    var alike := [c.b] + c.since + [x];
    assert due == c.before + [c.b] + c.since + late;
    RoomFor(c, x, late);
    if |s.rx| == SZ {
      assert due[0] == (c.before + [c.b])[0];
      Overfull(Covered(s), full, due, s.window[SZ - 1]);
      if c.before == [] {
        NoneBefore(c, x, late);
      } else {
        SameFront(full, due);
      }
    }
    hide AlikeFrom;
  }

  /** The steps of a call that is not interrupted and finds room. */
  function Alone(b: byte): seq<Step> {
    [PumpRead(b), PumpTest, PumpStore, PumpMove, PumpCount]
  }

  /** An uninterrupted call is the callback as an interrupt. */
  lemma UninterruptedCall(s: State, b: byte)
    requires |s.window| == SZ && |s.rx| < SZ && s.main == Idle
    ensures Exec(s, Alone(b)) == Next(s, OnRx(b))
  {
    var call := Call(b, s.rx, []);
    var e1: seq<Step> := [PumpRead(b)];
    var e2 := e1 + [PumpTest];
    var e3 := e2 + [PumpStore];
    var e4 := e3 + [PumpMove];
    var stored := s.(main := Stored(call), window := s.window[0 := b]);
    var moved := s.(main := Moved(call, b, []), window := s.window[1..] + [b]);
    assert [] + [PumpRead(b)] == e1 && e4 + [PumpCount] == Alone(b);
    NotFull(s.rx, b);
    CleanAlone(moved);
    hide Exec, Clean, Overwritten;
    ExecOne(s, [], PumpRead(b));
    ExecOne(s, e1, PumpTest);
    ExecOne(s, e2, PumpStore);
    ExecOne(s, e3, PumpMove);
    ExecOne(s, e4, PumpCount);
    assert Exec(s, e3) == stored;
    assert stored.window[1..] == s.window[1..];
    assert Exec(s, e4) == moved;
  }

  lemma CleanAlone(s: State)
    requires |s.window| == SZ && |s.rx| < SZ && s.main.Moved? && s.main.call.since == [] && s.main.slot == s.main.call.b
    ensures Clean(s)
  {
  }

  lemma ExecOne(s: State, es: seq<Step>, e: Step)
    requires |s.window| == SZ
    ensures Exec(s, es + [e]) == Next(Exec(s, es), e)
    ensures Allowed(s, es + [e]) <==> Allowed(s, es) && Enabled(Exec(s, es), e)
    ensures Exec(s, []) == s && Allowed(s, [])
  {
    hide Next, Enabled;
    assert (es + [e])[..|es + [e]| - 1] == es;
  }

  // ---------- runs ----------

  function Inserted(k: seq<byte>, n: nat, b: byte): (r: seq<byte>)
    ensures |r| <= |k| + 1 && (n <= |k| ==> |r| == |k| + 1)
  {
    if n <= |k| then k[..|k| - n] + [b] + k[|k| - n..] else k
  }

  /** The bytes that found room, in the order the line delivered them: a byte in the main loop's hand
      comes before those that interrupts have stored since it was read. */
  function Kept(es: seq<Step>): seq<byte> {
    if es == [] then []
    else
      var before, e := es[..|es| - 1], es[|es| - 1];
      var s, k := Exec(RESET, before), Kept(before);
      if e.OnRx? && |s.rx| < SZ then k + [e.b]
      else if e.PumpTest? && s.main.Took? && |s.rx| < SZ then Inserted(k, |s.main.call.since|, s.main.call.b)
      else k
  }

  /** The bytes read, those unread, and what a call in progress is about to add. */
  function Stream(s: State): seq<byte> {
    s.read + match s.main
             case Idle => s.rx
             case Took(_) => s.rx
             case _ => Due(s.main)
  }

  lemma StreamStep(s: State, e: Step, k: seq<byte>)
    requires Sound(s) && InCall(s) && Enabled(s, e) && k == Stream(s)
    requires Next(s, e).spoilt == s.spoilt
    ensures var k' := if e.OnRx? && |s.rx| < SZ then k + [e.b]
                      else if e.PumpTest? && |s.rx| < SZ then Inserted(k, |s.main.call.since|, s.main.call.b)
                      else k;
            k' == Stream(Next(s, e))
  {
    hide Clean;
    match e {
      case OnRx(b) => StreamHears(s, b);
      case Read(max) =>
        var n := Least(max, |s.rx|);
        assert s.read + s.rx == s.read + s.rx[..n] + s.rx[n..];
      case PumpTest => StreamTested(s);
      case PumpCount => CallIff(s);
      case _ =>
    }
  }

  lemma StreamHears(s: State, b: byte)
    requires |s.window| == SZ
    ensures Stream(Receive(s, b)) == if |s.rx| < SZ then Stream(s) + [b] else Stream(s)
  {
    hide Overwritten;
  }

  lemma StreamTested(s: State)
    requires |s.window| == SZ && s.main.Took? && InCall(s)
    ensures var c := s.main.call;
            Stream(Next(s, PumpTest))
            == if |s.rx| < SZ then Inserted(Stream(s), |c.since|, c.b) else Stream(s)
  {
    var c := s.main.call;
    var k, a := Stream(s), s.read + c.before;
    assert k == a + c.since;
    if |s.rx| < SZ {
      InsertedAt(a, c.since, c.b);
      assert Due(Tested(c)) == c.before + [c.b] + c.since + [];
      assert a + [c.b] + c.since == s.read + (c.before + [c.b] + c.since + []);
    }
    hide Inserted;
  }

  lemma InsertedAt(a: seq<byte>, c: seq<byte>, b: byte)
    ensures Inserted(a + c, |c|, b) == a + [b] + c
  {
    assert (a + c)[..|a|] == a && (a + c)[|a|..] == c;
  }

  // ---------- order ----------

  /** How many bytes found room. */
  lemma StepCounts(s: State, e: Step)
    requires Sound(s) && InCall(s) && Enabled(s, e)
    ensures var s' := Next(s, e);
            |Stream(s')| == |Stream(s)| + if (e.OnRx? || e.PumpTest?) && |s.rx| < SZ then 1 else 0
  {
    hide Clean;
    match e {
      case OnRx(b) => StreamHears(s, b);
      case PumpTest => StreamTested(s);
      case _ =>
    }
  }

  /** Everything a run keeps. */
  ghost predicate Inv(s: State, kept: seq<byte>) {
    && Sound(s) && InCall(s) && |kept| == |Stream(s)| && (s.spoilt == 0 ==> kept == Stream(s))
  }

  lemma {:induction false} RunKeeps(es: seq<Step>)
    requires Allowed(RESET, es)
    ensures Inv(Exec(RESET, es), Kept(es))
  {
    if es == [] {
      assert Exec(RESET, es) == RESET && Kept(es) == [];
      assert Sound(RESET);
    } else {
      var before, e := es[..|es| - 1], es[|es| - 1];
      var s := Exec(RESET, before);
      RunKeeps(before);
      StepSound(s, e);
      CallKeeps(s, e);
      StepCounts(s, e);
      SpoiltStays(s, e);
      if Next(s, e).spoilt == 0 {
        StreamStep(s, e, Kept(before));
      }
      SinceIsKept(s, Kept(before));
      hide Next, Stream, Sound, InCall;
    }
  }

  lemma SpoiltStays(s: State, e: Step)
    requires |s.window| == SZ
    ensures s.spoilt <= Next(s, e).spoilt
  {
    hide Clean, Overwritten;
  }

  lemma SinceIsKept(s: State, kept: seq<byte>)
    requires |s.window| == SZ && InCall(s) && |kept| == |Stream(s)|
    ensures s.main.Took? ==> |s.main.call.since| <= |kept|
  {
  }

  /** Outside the callback, the bytes read and the ring are the bytes kept, in order. */
  ghost predicate InOrder(es: seq<Step>) {
    var s := Exec(RESET, es);
    s.main == Idle ==> s.read + s.rx == Kept(es)
  }

  /** Whatever the run, the reads and the ring are the bytes kept, in order, whenever the main loop is
      outside the callback, exactly as long as every call it has pumped has been clean. */
  lemma {:induction false} ReadsAreKeptIff(es: seq<Step>)
    requires Allowed(RESET, es)
    ensures Exec(RESET, es).spoilt == 0 <==> forall n :: 0 <= n <= |es| ==> InOrder(es[..n])
  {
    RunKeeps(es);
    assert es[..|es|] == es;
    if es == [] {
      assert forall n :: 0 <= n <= |es| ==> es[..n] == es;
    } else {
      var before, e := es[..|es| - 1], es[|es| - 1];
      assert forall n :: 0 <= n < |es| ==> es[..n] == before[..n];
      ReadsAreKeptIff(before);
      RunKeeps(before);
      LastStep(Exec(RESET, before), e, Kept(before), Kept(es));
      assert Exec(RESET, es) == Next(Exec(RESET, before), e);
      hide Next, Inv, Kept, Exec;
    }
  }

  /** The step that spoils the ring leaves it out of order. */
  lemma LastStep(s: State, e: Step, kept: seq<byte>, kept': seq<byte>)
    requires Inv(s, kept) && Enabled(s, e) && Inv(Next(s, e), kept')
    requires e == PumpCount ==> kept' == kept
    ensures var s' := Next(s, e);
            && s.spoilt <= s'.spoilt
            && (s'.spoilt == 0 && s'.main == Idle ==> s'.read + s'.rx == kept')
            && (s.spoilt == 0 < s'.spoilt ==> s'.main == Idle && s'.read + s'.rx != kept')
  {
    SpoiltStays(s, e);
    if e == PumpCount {
      CallIff(s);
      var rx', due := Next(s, e).rx, Due(s.main);
      if s.spoilt == 0 && s.read + rx' == kept {
        assert rx' == (s.read + rx')[|s.read|..] == (s.read + due)[|s.read|..] == due;
      }
    }
    hide Clean;
  }

  // ---------- losses ----------

  /** The bytes the line delivered, in order. */
  function Arrived(es: seq<Step>): seq<byte> {
    if es == [] then []
    else
      var e := es[|es| - 1];
      Arrived(es[..|es| - 1]) + match e case OnRx(b) => [b] case PumpRead(b) => [b] case _ => []
  }

  function InHand(main: Main): nat {
    if main == Idle then 0 else 1
  }

  /** Whenever it is decided whether a byte finds room, fewer earlier arrivals than the ring has slots
      are unread, not counting one in the main loop's hand. */
  predicate ReaderKeepsUp(es: seq<Step>) {
    es != [] ==>
      var before, e := es[..|es| - 1], es[|es| - 1];
      var s := Exec(RESET, before);
      && ReaderKeepsUp(before)
      && (e.OnRx? || e.PumpTest? ==> |Arrived(before)| - |s.read| - InHand(s.main) < SZ)
  }

  /** The bytes kept, with a byte in hand that may still be dropped. */
  function Hoped(s: State, kept: seq<byte>): seq<byte> {
    if s.main.Took? then Inserted(kept, |s.main.call.since|, s.main.call.b) else kept
  }

  lemma InsertLater(k: seq<byte>, n: nat, b: byte, c: byte)
    requires n <= |k|
    ensures Inserted(k + [c], n + 1, b) == Inserted(k, n, b) + [c]
    ensures Inserted(k, 0, b) == k + [b]
  {
    assert (k + [c])[..|k| - n] == k[..|k| - n] && (k + [c])[|k| - n..] == k[|k| - n..] + [c];
  }

  lemma HopedLength(s: State, kept: seq<byte>)
    requires Inv(s, kept)
    ensures |Hoped(s, kept)| == |s.read| + |s.rx| + InHand(s.main)
  {
    SinceIsKept(s, kept);
  }

  lemma HopedHears(s: State, b: byte, kept: seq<byte>)
    requires |s.window| == SZ && |s.rx| < SZ && (s.main.Took? ==> |s.main.call.since| <= |kept|)
    ensures Hoped(Receive(s, b), kept + [b]) == Hoped(s, kept) + [b]
  {
    hide Overwritten, Inserted;
    if s.main.Took? {
      InsertLater(kept, |s.main.call.since|, s.main.call.b, b);
    }
  }

  lemma HopedTested(s: State, kept: seq<byte>)
    requires |s.window| == SZ && s.main.Took? && |s.main.call.since| <= |kept|
    ensures var s', hoped := Next(s, PumpTest), Hoped(s, kept);
            if |s.rx| < SZ then Hoped(s', hoped) == hoped else Hoped(s', kept) == kept && |kept| < |hoped|
  {
  }

  lemma HopedTaken(s: State, b: byte, kept: seq<byte>)
    requires |s.window| == SZ && s.main == Idle
    ensures Hoped(Next(s, PumpRead(b)), kept) == Hoped(s, kept) + [b]
  {
    InsertLater(kept, 0, b, b);
    hide Inserted;
  }

  lemma HopedStep(s: State, e: Step, kept: seq<byte>)
    requires |s.window| == SZ && Enabled(s, e) && (s.main.Took? ==> |s.main.call.since| <= |kept|)
    ensures var kept' := if e.OnRx? && |s.rx| < SZ then kept + [e.b]
                         else if e.PumpTest? && |s.rx| < SZ then Inserted(kept, |s.main.call.since|, s.main.call.b)
                         else kept;
            var hoped, hoped' := Hoped(s, kept), Hoped(Next(s, e), kept');
            match e
            case OnRx(b) => hoped' == if |s.rx| < SZ then hoped + [b] else hoped
            case PumpRead(b) => hoped' == hoped + [b]
            case PumpTest => if |s.rx| < SZ then hoped' == hoped else |hoped'| < |hoped|
            case _ => hoped' == hoped
  {
    hide Clean, Overwritten, Inserted;
    match e {
      case OnRx(b) =>
        if |s.rx| < SZ {
          HopedHears(s, b, kept);
        }
      case PumpRead(b) => HopedTaken(s, b, kept);
      case PumpTest => HopedTested(s, kept);
      case _ =>
    }
  }

  lemma {:induction false} HopedIff(es: seq<Step>)
    requires Allowed(RESET, es)
    ensures var hoped := Hoped(Exec(RESET, es), Kept(es));
            && |hoped| <= |Arrived(es)|
            && (ReaderKeepsUp(es) <==> |hoped| == |Arrived(es)|)
            && (ReaderKeepsUp(es) ==> hoped == Arrived(es))
  {
    if es != [] {
      var before, e := es[..|es| - 1], es[|es| - 1];
      var s, k := Exec(RESET, before), Kept(before);
      HopedIff(before);
      RunKeeps(before);
      SinceIsKept(s, k);
      HopedLength(s, k);
      HopedStep(s, e, k);
      hide Next, Inv, Hoped, Inserted, InHand;
    }
  }

  /** No received byte is lost exactly when the reader keeps up. */
  lemma LosslessIff(es: seq<Step>)
    requires Allowed(RESET, es) && !Exec(RESET, es).main.Took?
    ensures |Kept(es)| <= |Arrived(es)|
    ensures Kept(es) == Arrived(es) <==> ReaderKeepsUp(es)
  {
    HopedIff(es);
    hide Kept, Arrived, ReaderKeepsUp, Exec;
  }

  // ---------- a call that spoils the order ----------

  function SpoilingRun(b: byte, c: byte): seq<Step> {
    [PumpRead(b), PumpTest, OnRx(c), PumpStore, PumpMove, PumpCount]
  }

  /** One interrupt between the test of the count and the store is enough. */
  lemma SpoilingIsReachable(b: byte, c: byte)
    requires b != c
    ensures var es := SpoilingRun(b, c);
            var s := Exec(RESET, es);
            && Allowed(RESET, es) && s.spoilt == 1 && s.rx == [c, b] && Arrived(es) == [b, c]
  {
    var e1: seq<Step> := [PumpRead(b)];
    var e2 := e1 + [PumpTest];
    var e3 := e2 + [OnRx(c)];
    var e4 := e3 + [PumpStore];
    var e5 := e4 + [PumpMove];
    assert [] + [PumpRead(b)] == e1 && e5 + [PumpCount] == SpoilingRun(b, c);
    hide Exec, Allowed, Overwritten, Clean, Arrived;
    SpoilingSteps(b, c);
    ArrivedNext([], PumpRead(b));
    ArrivedNext(e1, PumpTest);
    ArrivedNext(e2, OnRx(c));
    ArrivedNext(e3, PumpStore);
    ArrivedNext(e4, PumpMove);
    ArrivedNext(e5, PumpCount);
    ExecOne(RESET, [], PumpRead(b));
    ExecOne(RESET, e1, PumpTest);
    ExecOne(RESET, e2, OnRx(c));
    ExecOne(RESET, e3, PumpStore);
    ExecOne(RESET, e4, PumpMove);
    ExecOne(RESET, e5, PumpCount);
    hide *;
  }

  lemma SpoilingSteps(b: byte, c: byte)
    requires b != c
    ensures var s1 := Next(RESET, PumpRead(b));
            var s2 := Next(s1, PumpTest);
            var s3 := Next(s2, OnRx(c));
            var s4 := Next(s3, PumpStore);
            var s5 := Next(s4, PumpMove);
            var s6 := Next(s5, PumpCount);
            && Enabled(RESET, PumpRead(b)) && Enabled(s1, PumpTest) && Enabled(s2, OnRx(c))
            && Enabled(s3, PumpStore) && Enabled(s4, PumpMove) && Enabled(s5, PumpCount)
            && s6.spoilt == 1 && s6.rx == [c, b]
  {
    NotFull([c], b);
    hide Overwritten, Clean;
    var s3 := Next(Next(Next(RESET, PumpRead(b)), PumpTest), OnRx(c));
    var none: seq<byte> := [];
    assert none + [c] == [c];
    assert s3 == RESET.(main := Tested(Call(b, [], [c])), rx := [c], window := RESET.window[1..] + [c]);
    var s5 := Next(Next(s3, PumpStore), PumpMove);
    assert s5.window[SZ - 1] == b;
    CleanNeeds(s5, b, c);
  }

  lemma NotAlike(b: byte, c: byte)
    requires b != c
    ensures !AlikeFrom([b] + [c] + [b], 0)
  {
    assert ([b] + [c] + [b])[0] == b && ([b] + [c] + [b])[1] == c;
  }

  lemma CleanNeeds(s: State, b: byte, c: byte)
    requires |s.window| == SZ && |s.rx| < SZ && s.main.Moved? && s.main.call.b == b && s.main.call.since == [c]
    requires s.main.slot == b && b != c
    ensures !Clean(s)
  {
    NotAlike(b, c);
  }

  lemma ArrivedNext(es: seq<Step>, e: Step)
    ensures Arrived([]) == []
    ensures Arrived(es + [e]) == Arrived(es) + match e case OnRx(b) => [b] case PumpRead(b) => [b] case _ => []
  {
    assert (es + [e])[..|es + [e]| - 1] == es;
  }
}
