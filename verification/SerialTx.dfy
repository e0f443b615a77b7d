/** The transmit ring of the serial module: writes and pumped callbacks of the main loop interleaved in
    any order with the transmit interrupt. */
module SerialTx {
  import opened Arith
  import opened Bytes
  import Ring

  const SZ: nat := 32

  /** Where the main loop stands: between calls, between the queueing of a byte and the enabling of
      the transmit interrupt, or inside a transmit callback that it pumps itself, after the callback's
      test of the count or with a byte popped and not yet written to the transmit register. */
  datatype Main = Idle | Kicking | Pumping | Loading(b: byte)

  /** `window` is what the transmit array holds, the slot that is overwritten next first. `underflows`
      counts the pops from an empty ring, `overtaken` the transmit interrupts that sent a byte other
      than the one the main loop was still holding. */
  datatype State = State(main: Main, tx: seq<byte>, window: seq<byte>, txie: bool, loaded: seq<byte>,
                         underflows: nat, overtaken: nat)

  function Zeroes(): (z: seq<byte>)
    ensures |z| == SZ
  {
    seq(SZ, _ => 0)
  }

  const RESET := State(Idle, [], Zeroes(), false, [], 0, 0)

  datatype Step =
    | Enqueue(b: byte) | Enable
    | OnTx
    | PumpTest | PumpPop | PumpLoad

  /** Interrupts may arrive between any two main steps; the main steps keep their program order. */
  predicate Enabled(s: State, e: Step) {
    match e
    case Enqueue(_) => s.main == Idle && |s.tx| < SZ
    case Enable => s.main == Kicking
    case PumpTest => s.main == Idle
    case PumpPop => s.main == Pumping
    case PumpLoad => s.main.Loading?
    case OnTx => true
  }

  /** What a pop finds in the ring. The count of an empty ring wraps: behind the byte that is taken,
      the whole array is queued again, eight times over. */
  function Poppable(s: State): State {
    if s.tx == [] then s.(tx := Ring.Times(s.window, 256 / SZ), underflows := s.underflows + 1) else s
  }

  /** The transmit callback run without interruption. */
  function Transmit(s: State): State {
    if s.tx == [] then s.(txie := false)
    else
      s.(loaded := s.loaded + [s.tx[0]], tx := s.tx[1..],
         overtaken := if s.main.Loading? && s.main.b != s.tx[0] then s.overtaken + 1 else s.overtaken)
  }

  function Next(s: State, e: Step): State
    requires |s.window| == SZ
  {
    match e
    case Enqueue(b) => s.(tx := s.tx + [b], window := s.window[1..] + [b], main := Kicking)
    case Enable => s.(txie := true, main := Idle)
    case OnTx => Transmit(s)
    case PumpTest => if s.tx != [] then s.(main := Pumping) else s.(txie := false)
    case PumpPop =>
      var found := Poppable(s);
      found.(tx := found.tx[1..], main := Loading(found.tx[0]))
    case PumpLoad =>
      if s.main.Loading? then s.(loaded := s.loaded + [s.main.b], main := Idle) else s
  }

  function Exec(s: State, es: seq<Step>): (r: State)
    requires |s.window| == SZ
    ensures |r.window| == SZ
  {
    if es == [] then s else Next(Exec(s, es[..|es| - 1]), es[|es| - 1])
  }

  predicate Allowed(s: State, es: seq<Step>)
    requires |s.window| == SZ
  {
    es != [] ==> Allowed(s, es[..|es| - 1]) && Enabled(Exec(s, es[..|es| - 1]), es[|es| - 1])
  }

  /** The bytes the application queued, in order. */
  function Written(es: seq<Step>): seq<byte> {
    if es == [] then []
    else
      var e := es[|es| - 1];
      Written(es[..|es| - 1]) + if e.Enqueue? then [e.b] else []
  }

  // ---------- the transmit ring ----------

  /** The bytes written to the transmit register, the one in the main loop's hand, and the ring. */
  function Stream(s: State): seq<byte> {
    s.loaded + (if s.main.Loading? then [s.main.b] else []) + s.tx
  }

  ghost predicate OutOfOrder(loaded: seq<byte>, written: seq<byte>) {
    |loaded| <= |written| && loaded != written[..|loaded|]
  }

  /** What the transmit side keeps. `written` is what the application queued so far. */
  ghost predicate Inv(s: State, written: seq<byte>) {
    && |s.window| == SZ && |s.tx| < 256
    && |Stream(s)| == |written| + 256 * s.underflows
    && (s.underflows == 0 ==>
          && (if s.overtaken == 0 then Stream(s) == written else OutOfOrder(s.loaded, written))
          && |s.tx| <= SZ
          && (s.tx != [] && s.main != Kicking ==> s.txie))
  }

  /** Once out of order, always out of order. */
  lemma StaysOutOfOrder(loaded: seq<byte>, more: seq<byte>, written: seq<byte>, later: seq<byte>)
    requires OutOfOrder(loaded, written) && |loaded + more| <= |written + later|
    ensures OutOfOrder(loaded + more, written + later)
  {
    var l, w := loaded + more, written + later;
    assert l[..|loaded|] == loaded && w[..|l|][..|loaded|] == written[..|loaded|];
  }

  lemma OutOfOrderStep(s: State, e: Step, written: seq<byte>)
    requires Inv(s, written) && Enabled(s, e) && s.underflows == 0 && s.overtaken != 0
    ensures var s' := Next(s, e);
            s'.underflows == 0 ==> OutOfOrder(s'.loaded, written + if e.Enqueue? then [e.b] else [])
  {
    hide Ring.Times, OutOfOrder;
    var s', later := Next(s, e), if e.Enqueue? then [e.b] else [];
    if s'.underflows == 0 {
      assert s'.loaded == s.loaded + s'.loaded[|s.loaded|..];
      StaysOutOfOrder(s.loaded, s'.loaded[|s.loaded|..], written, later);
    }
  }

  /** A transmit interrupt keeps the order exactly when it sends what the main loop holds, if that holds
      anything. */
  lemma InterruptOrder(s: State, written: seq<byte>)
    requires Stream(s) == written && s.tx != []
    ensures var s' := Transmit(s);
            if s'.overtaken == s.overtaken then Stream(s') == written else OutOfOrder(s'.loaded, written)
  {
    var s' := Transmit(s);
    assert s.tx == [s.tx[0]] + s.tx[1..];
    if s'.overtaken != s.overtaken {
      assert written[|s.loaded|] == s.main.b;
      assert s'.loaded[|s.loaded|] == s.tx[0];
    } else if s.main.Loading? {
      assert s'.loaded + [s.main.b] + s'.tx == s.loaded + [s.main.b] + ([s.tx[0]] + s.tx[1..]);
    }
  }

  lemma InOrderStep(s: State, e: Step, written: seq<byte>)
    requires Inv(s, written) && Enabled(s, e) && s.underflows == 0 && s.overtaken == 0
    ensures var s', written' := Next(s, e), written + if e.Enqueue? then [e.b] else [];
            s'.underflows == 0 ==>
              if s'.overtaken == 0 then Stream(s') == written' else OutOfOrder(s'.loaded, written')
  {
    hide OutOfOrder, Ring.Times;
    assert written + [] == written;
    match e {
      case Enqueue(b) => assert s.loaded + [] + (s.tx + [b]) == s.loaded + [] + s.tx + [b];
      case OnTx =>
        if s.tx != [] {
          InterruptOrder(s, written);
        }
      case PumpPop =>
        if s.tx != [] {
          assert s.loaded + [s.tx[0]] + s.tx[1..] == s.loaded + [] + s.tx;
        }
      case PumpLoad => assert s.loaded + [s.main.b] + [] + s.tx == s.loaded + [s.main.b] + s.tx;
      case _ =>
    }
  }

  lemma StepKeeps(s: State, e: Step, written: seq<byte>)
    requires Inv(s, written) && Enabled(s, e)
    ensures Inv(Next(s, e), written + if e.Enqueue? then [e.b] else [])
  {
    if s.underflows == 0 {
      if s.overtaken == 0 {
        InOrderStep(s, e, written);
      } else {
        OutOfOrderStep(s, e, written);
        assert s.overtaken <= Next(s, e).overtaken;
      }
    }
    hide OutOfOrder, Ring.Times;
  }

  lemma {:induction false} RunKeeps(es: seq<Step>)
    requires Allowed(RESET, es)
    ensures Inv(Exec(RESET, es), Written(es))
  {
    if es == [] {
      assert Inv(RESET, Written(es));
    } else {
      hide Inv, Next, Enabled;
      RunKeeps(es[..|es| - 1]);
      StepKeeps(Exec(RESET, es[..|es| - 1]), es[|es| - 1], Written(es[..|es| - 1]));
    }
  }

  /** Over every interleaving, the bytes written to the transmit register, the one in the main loop's
      hand and the ring are the bytes queued, in order, exactly as long as no pop has met an empty ring
      and no interrupt has sent another byte than the one in hand. A pop from an empty ring adds 256
      bytes that were never written, for good. Until then a waiting byte has its interrupt armed,
      except inside `epic_serial_write` before it enables it. */
  lemma FifoIff(es: seq<Step>)
    requires Allowed(RESET, es)
    ensures var s := Exec(RESET, es);
            && (Stream(s) == Written(es) <==> s.underflows == 0 && s.overtaken == 0)
            && |Stream(s)| == |Written(es)| + 256 * s.underflows
            && (s.underflows == 0 ==> |s.tx| <= 32 && (s.tx != [] && s.main != Kicking ==> s.txie))
  {
    RunKeeps(es);
    var s := Exec(RESET, es);
    if Stream(s) == Written(es) && s.underflows == 0 {
      assert Stream(s)[..|s.loaded|] == s.loaded;
    }
  }

  // ---------- draining ----------

  lemma {:induction false} ExecSplit(s: State, es: seq<Step>, fs: seq<Step>)
    requires |s.window| == SZ
    ensures Exec(s, es + fs) == Exec(Exec(s, es), fs)
  {
    hide Next;
    if fs == [] {
      assert es + fs == es;
    } else {
      assert (es + fs)[..|es + fs| - 1] == es + fs[..|fs| - 1];
      ExecSplit(s, es, fs[..|fs| - 1]);
    }
  }

  /** Any number of transmit interrupts. */
  function Interrupts(k: nat): (es: seq<Step>)
    ensures |es| == k
  {
    seq(k, _ => OnTx)
  }

  /** Interrupts send the oldest bytes, one each, for as long as there are any. */
  lemma {:induction false} InterruptsSend(s: State, k: nat)
    requires |s.window| == SZ
    ensures var r, n := Exec(s, Interrupts(k)), Least(k, |s.tx|);
            && r.loaded == s.loaded + s.tx[..n] && r.tx == s.tx[n..]
            && r.main == s.main && r.underflows == s.underflows && r.window == s.window
  {
    hide Ring.Times;
    if k == 0 {
      assert s.tx[..0] == [] && s.tx[0..] == s.tx;
    } else {
      InterruptsSend(s, k - 1);
      assert Interrupts(k)[..k - 1] == Interrupts(k - 1);
      var n := Least(k - 1, |s.tx|);
      if n < |s.tx| {
        assert s.tx[n..][1..] == s.tx[n + 1..];
        assert s.loaded + s.tx[..n] + [s.tx[n]] == s.loaded + s.tx[..n + 1];
      }
    }
  }

  /** With no more writes, one transmit interrupt a byte sends everything, and the next one turns the
      interrupt off: it does not fire for ever on an empty ring. */
  lemma DrainsAndStops(s: State)
    requires |s.window| == SZ
    ensures var done := Exec(s, Interrupts(|s.tx|));
            && done.loaded == s.loaded + s.tx && done.tx == []
            && !Next(done, OnTx).txie
  {
    InterruptsSend(s, |s.tx|);
    assert s.tx[..|s.tx|] == s.tx;
  }

  /** The callback tests the count before it masks interrupts. Pumped from the main loop, it pops an
      empty ring exactly when the interrupts taken in between sent every byte the test saw. */
  lemma PumpUnderflowsIff(s: State, k: nat)
    requires |s.window| == SZ && s.main == Idle && s.tx != []
    ensures var r := Exec(s, [PumpTest] + Interrupts(k) + [PumpPop]);
            r.underflows == s.underflows + if |s.tx| <= k then 1 else 0
  {
    var tested := s.(main := Pumping);
    var all := [PumpTest] + Interrupts(k) + [PumpPop];
    assert all[..|all| - 1] == [PumpTest] + Interrupts(k);
    assert [PumpTest][..0] == [];
    assert Exec(s, [PumpTest]) == tested;
    ExecSplit(s, [PumpTest], Interrupts(k));
    InterruptsSend(tested, k);
    hide Ring.Times;
  }

  /** The callback writes the transmit register after it has let interrupts in again. The stream is as
      it was exactly when all the bytes they send before that equal the one in hand. */
  lemma PumpOvertakesIff(s: State, k: nat)
    requires |s.window| == SZ && s.main.Loading?
    ensures var r := Exec(s, Interrupts(k) + [PumpLoad]);
            r.loaded + r.tx == s.loaded + [s.main.b] + s.tx
            <==> forall i {:trigger s.tx[i]} :: 0 <= i < Least(k, |s.tx|) ==> s.tx[i] == s.main.b
  {
    ExecNext(s, Interrupts(k), PumpLoad);
    InterruptsSend(s, k);
    var n, mid := Least(k, |s.tx|), Exec(s, Interrupts(k));
    assert Next(mid, PumpLoad).loaded + Next(mid, PumpLoad).tx == s.loaded + s.tx[..n] + [s.main.b] + s.tx[n..];
    hide *;
    OvertakenIff(s.loaded, s.tx, n, s.main.b);
  }

  lemma OvertakenIff(loaded: seq<byte>, tx: seq<byte>, k: nat, b: byte)
    requires k <= |tx|
    ensures loaded + tx[..k] + [b] + tx[k..] == loaded + [b] + tx
            <==> forall i {:trigger tx[i]} :: 0 <= i < k ==> tx[i] == b
  {
    var sent, rest := tx[..k], tx[k..];
    assert tx == sent + rest;
    assert loaded + sent + [b] + rest == loaded + ((sent + [b]) + rest);
    assert loaded + [b] + (sent + rest) == loaded + (([b] + sent) + rest);
    Rotation(sent, b);
    SameMiddle(loaded, sent + [b], [b] + sent, rest);
    assert forall i {:trigger tx[i]} {:trigger sent[i]} :: 0 <= i < k ==> tx[i] == sent[i];
  }

  lemma SameMiddle(a: seq<byte>, x: seq<byte>, y: seq<byte>, c: seq<byte>)
    requires |x| == |y|
    ensures a + (x + c) == a + (y + c) <==> x == y
  {
    if a + (x + c) == a + (y + c) {
      assert x == (a + (x + c))[|a|..|a| + |x|] == (a + (y + c))[|a|..|a| + |x|] == y;
    }
  }

  /** Moving a byte from the front of a sequence to its end changes nothing just when all are alike. */
  lemma {:induction false} Rotation(s: seq<byte>, b: byte)
    ensures s + [b] == [b] + s <==> forall i {:trigger s[i]} :: 0 <= i < |s| ==> s[i] == b
  {
    if s + [b] == [b] + s && s != [] {
      assert s[0] == (s + [b])[0] == b;
      var t := s[1..];
      assert s == [b] + t;
      assert t + [b] == ([b] + t + [b])[1..] == (s + [b])[1..] == ([b] + s)[1..] == s;
      Rotation(t, b);
    }
  }

  lemma ExecNext(s: State, es: seq<Step>, e: Step)
    requires |s.window| == SZ
    ensures Exec(s, es + [e]) == Next(Exec(s, es), e)
    ensures Allowed(s, es + [e]) <==> Allowed(s, es) && Enabled(Exec(s, es), e)
    ensures Exec(s, []) == s && Allowed(s, [])
  {
    hide Next, Enabled;
    assert (es + [e])[..|es + [e]| - 1] == es;
  }

  /** The array behind the ring holds the last 32 bytes written, whatever else has happened. */
  lemma {:induction false} WindowIsLatest(es: seq<Step>)
    ensures Exec(RESET, es).window == (Zeroes() + Written(es))[|Written(es)|..]
  {
    if es == [] {
      assert Zeroes() + [] == Zeroes();
    } else {
      var init, e := es[..|es| - 1], es[|es| - 1];
      var all := Zeroes() + Written(init);
      assert es == init + [e];
      hide Ring.Times, Exec, Allowed, Enabled, Written;
      ExecNext(RESET, init, e);
      WrittenNext(init, e);
      WindowIsLatest(init);
      if e.Enqueue? {
        assert Zeroes() + Written(es) == all + [e.b];
      }
    }
  }

  lemma {:induction false} TimesStarts(s: seq<byte>, k: nat)
    requires s != [] && 0 < k
    ensures Ring.Times(s, k) != [] && Ring.Times(s, k)[0] == s[0]
  {
    if 1 < k {
      TimesStarts(s, k - 1);
    }
  }

  /** The pop from the empty ring takes the byte that was written 32 writes ago, and leaves 255. */
  lemma StaleByte(es: seq<Step>)
    requires Exec(RESET, es).tx == []
    ensures var s, n := Next(Exec(RESET, es), PumpPop), |Written(es)|;
            && s.main == Loading(if n < 32 then 0 else Written(es)[n - 32])
            && |s.tx| == 255
  {
    var n := |Written(es)|;
    WindowIsLatest(es);
    TimesStarts(Exec(RESET, es).window, 256 / SZ);
    assert Exec(RESET, es).window[0] == (Zeroes() + Written(es))[n];
    hide Ring.Times, Exec, Written;
  }

  /** A pumped call that is not interrupted is the callback as an interrupt: the oldest byte goes out, or
      the transmit interrupt is turned off. */
  lemma UninterruptedCall(s: State)
    requires |s.window| == SZ && s.main == Idle
    ensures Exec(s, if s.tx == [] then [PumpTest] else [PumpTest, PumpPop, PumpLoad]) == Next(s, OnTx)
  {
    var e1: seq<Step> := [PumpTest];
    var e2 := e1 + [PumpPop];
    assert [] + [PumpTest] == e1 && e2 + [PumpLoad] == [PumpTest, PumpPop, PumpLoad];
    ExecNext(s, [], PumpTest);
    ExecNext(s, e1, PumpPop);
    ExecNext(s, e2, PumpLoad);
    hide Exec, Allowed, Ring.Times;
  }

  /** The shortest run that breaks the ring: one byte is written, the main loop pumps the callback, and
      the interrupt sends the byte after the test. The callback then sends a byte that was never
      written and leaves 255 more. */
  lemma UnderflowIsReachable(b: byte)
    ensures var es := [Enqueue(b), Enable, PumpTest, OnTx, PumpPop, PumpLoad];
            var s := Exec(RESET, es);
            && Allowed(RESET, es) && s.underflows == 1
            && |s.loaded| == 2 && s.loaded[0] == b && |s.tx| == 255
  {
    var e1: seq<Step> := [Enqueue(b)];
    var e2 := e1 + [Enable];
    var e3 := e2 + [PumpTest];
    var e4 := e3 + [OnTx];
    var e5 := e4 + [PumpPop];
    assert [] + [Enqueue(b)] == e1;
    assert e5 + [PumpLoad] == [Enqueue(b), Enable, PumpTest, OnTx, PumpPop, PumpLoad];
    ExecNext(RESET, [], Enqueue(b));
    ExecNext(RESET, e1, Enable);
    ExecNext(RESET, e2, PumpTest);
    ExecNext(RESET, e3, OnTx);
    ExecNext(RESET, e4, PumpPop);
    ExecNext(RESET, e5, PumpLoad);
    hide Exec, Allowed, Ring.Times;
  }

  /** The shortest run that reorders bytes: two are written, the main loop pumps the callback, and the
      interrupt sends the second while the first is in hand. No pop met an empty ring. */
  lemma OvertakingIsReachable(b: byte, c: byte)
    requires b != c
    ensures var es := [Enqueue(b), Enable, Enqueue(c), Enable, PumpTest, PumpPop, OnTx, PumpLoad];
            var s := Exec(RESET, es);
            && Allowed(RESET, es) && s.underflows == 0 && s.overtaken == 1
            && s.loaded == [c, b] && s.tx == [] && Written(es) == [b, c]
  {
    var e1: seq<Step> := [Enqueue(b)];
    var e2 := e1 + [Enable];
    var e3 := e2 + [Enqueue(c)];
    var e4 := e3 + [Enable];
    var e5 := e4 + [PumpTest];
    var e6 := e5 + [PumpPop];
    var e7 := e6 + [OnTx];
    assert [] + [Enqueue(b)] == e1;
    assert e7 + [PumpLoad] == [Enqueue(b), Enable, Enqueue(c), Enable, PumpTest, PumpPop, OnTx, PumpLoad];
    ExecNext(RESET, [], Enqueue(b));
    ExecNext(RESET, e1, Enable);
    ExecNext(RESET, e2, Enqueue(c));
    ExecNext(RESET, e3, Enable);
    ExecNext(RESET, e4, PumpTest);
    ExecNext(RESET, e5, PumpPop);
    ExecNext(RESET, e6, OnTx);
    ExecNext(RESET, e7, PumpLoad);
    WrittenNext([], Enqueue(b));
    WrittenNext(e1, Enable);
    WrittenNext(e2, Enqueue(c));
    WrittenNext(e3, Enable);
    WrittenNext(e4, PumpTest);
    WrittenNext(e5, PumpPop);
    WrittenNext(e6, OnTx);
    WrittenNext(e7, PumpLoad);
    hide Exec, Allowed, Written, Ring.Times;
  }

  lemma WrittenNext(es: seq<Step>, e: Step)
    ensures Written(es + [e]) == Written(es) + if e.Enqueue? then [e.b] else []
    ensures Written([]) == []
  {
    assert (es + [e])[..|es + [e]| - 1] == es;
  }
}
