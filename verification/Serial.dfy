/** The serial module's variables and functions in place, with interrupts wherever the source lets them
    in, tied to the machines of its two rings. */
module Serial {
  import opened Arith
  import opened Bytes
  import Ring
  import Rx = SerialRx
  import Tx = SerialTx

  const SZ: nat := Tx.SZ

  datatype Irq = TxIrq | RxIrq(b: byte)

  datatype Option<T> = None | Some(value: T)

  /** What happens at one point where interrupts are let in: those taken, and what the handlers find if
      the main loop polls then, a transmitter that is ready and a byte in the receive register. */
  datatype Moment = Moment(irqs: seq<Irq>, ready: bool, arrived: Option<byte>)

  lemma TxExtend(es: seq<Tx.Step>, e: Tx.Step)
    requires Tx.Allowed(Tx.RESET, es) && Tx.Enabled(Tx.Exec(Tx.RESET, es), e)
    ensures Tx.Allowed(Tx.RESET, es + [e])
    ensures Tx.Exec(Tx.RESET, es + [e]) == Tx.Next(Tx.Exec(Tx.RESET, es), e)
    ensures Tx.Written(es + [e]) == Tx.Written(es) + if e.Enqueue? then [e.b] else []
  {
    Tx.ExecNext(Tx.RESET, es, e);
    Tx.WrittenNext(es, e);
  }

  lemma RxExtend(es: seq<Rx.Step>, e: Rx.Step)
    requires Rx.Allowed(Rx.RESET, es) && Rx.Enabled(Rx.Exec(Rx.RESET, es), e)
    ensures Rx.Allowed(Rx.RESET, es + [e])
    ensures Rx.Exec(Rx.RESET, es + [e]) == Rx.Next(Rx.Exec(Rx.RESET, es), e)
  {
    Rx.ExecOne(Rx.RESET, es, e);
  }

  lemma RxBound(es: seq<Rx.Step>)
    requires Rx.Allowed(Rx.RESET, es)
    ensures var s := Rx.Exec(Rx.RESET, es);
            |s.rx| <= SZ + 1 && (s.main != Rx.Idle && !s.main.Took? ==> |s.rx| <= SZ)
  {
    Rx.RunKeeps(es);
  }

  // ---------- what the functions do, as steps of the machines ----------

  /** The steps of the two machines so far, and the interrupts still to come. */
  datatype Past = Past(tx: seq<Tx.Step>, rx: seq<Rx.Step>, moments: seq<Moment>)

  /** What comes next; after the last moment all is calm. */
  function Coming(moments: seq<Moment>): Moment {
    if moments == [] then Moment([], true, None) else moments[0]
  }

  function TxIrqs(irqs: seq<Irq>): seq<Tx.Step> {
    if irqs == [] then []
    else TxIrqs(irqs[..|irqs| - 1]) + if irqs[|irqs| - 1].TxIrq? then [Tx.OnTx] else []
  }

  function RxIrqs(irqs: seq<Irq>): seq<Rx.Step> {
    if irqs == [] then []
    else
      var last := irqs[|irqs| - 1];
      RxIrqs(irqs[..|irqs| - 1]) + if last.RxIrq? then [Rx.OnRx(last.b)] else []
  }

  function Interrupted(p: Past): Past {
    var irqs := Coming(p.moments).irqs;
    Past(p.tx + TxIrqs(irqs), p.rx + RxIrqs(irqs), if p.moments == [] then [] else p.moments[1..])
  }

  function TxDone(p: Past, e: Tx.Step): Past {
    p.(tx := p.tx + [e])
  }

  function RxDone(p: Past, e: Rx.Step): Past {
    p.(rx := p.rx + [e])
  }

  function Unsent(p: Past): nat {
    |Tx.Exec(Tx.RESET, p.tx).tx|
  }

  function Unread(p: Past): nat {
    |Rx.Exec(Rx.RESET, p.rx).rx|
  }

  /** The transmit callback called from the main loop: interrupts come in after its test and again before
      it writes the transmit register. */
  function Transmitting(p: Past): Past {
    var tested := TxDone(p, Tx.PumpTest);
    if Unsent(p) == 0 then tested
    else TxDone(Interrupted(TxDone(Interrupted(tested), Tx.PumpPop)), Tx.PumpLoad)
  }

  /** The receive callback called from the main loop: interrupts come in before each of its statements. */
  function Receiving(p: Past, b: byte): Past {
    var asked := Interrupted(RxDone(p, Rx.PumpRead(b)));
    var tested := RxDone(asked, Rx.PumpTest);
    if SZ <= Unread(asked) then tested
    else
      var stored := RxDone(Interrupted(tested), Rx.PumpStore);
      RxDone(Interrupted(RxDone(Interrupted(stored), Rx.PumpMove)), Rx.PumpCount)
  }

  /** A poll of the flags, and the callbacks that are due. */
  function Polling(p: Past): Past {
    var m, now := Coming(p.moments), Interrupted(p);
    var sent := if m.ready then Transmitting(now) else now;
    if m.arrived.Some? then Receiving(sent, m.arrived.value) else sent
  }

  function Polls(p: Past, n: nat): Past {
    if n == 0 then p else Polling(Polls(p, n - 1))
  }

  /** There is no room before any of the first `n` polls. */
  ghost predicate Full(p: Past, n: nat) {
    forall k {:trigger Polls(p, k)} :: 0 <= k < n ==> SZ <= Unsent(Polls(p, k))
  }

  /** `n` is the number of polls until there is room. */
  ghost predicate Awaits(p: Past, n: nat) {
    Unsent(Polls(p, n)) < SZ && Full(p, n)
  }

  /** One byte of a write. */
  function Sending(p: Past, n: nat, b: byte): Past {
    TxDone(Interrupted(TxDone(Polls(p, n), Tx.Enqueue(b))), Tx.Enable)
  }

  /** A write whose bytes wait for room for `ns` polls each. */
  function Writing(p: Past, data: seq<byte>, ns: seq<nat>): Past
    requires |ns| == |data|
  {
    if data == [] then p
    else
      var n := |data| - 1;
      Sending(Writing(p, data[..n], ns[..n]), ns[n], data[n])
  }

  /** One byte to send and an interrupt after the callback's test: the pumped callback pops an empty
      ring. */
  lemma PumpedUnderflow(b: byte, rx: seq<Rx.Step>)
    ensures var p := Past([Tx.Enqueue(b), Tx.Enable], rx, [Moment([TxIrq], true, None)]);
            Tx.Exec(Tx.RESET, Transmitting(p).tx).underflows == 1
  {
    var p := Past([Tx.Enqueue(b), Tx.Enable], rx, [Moment([TxIrq], true, None)]);
    Tx.UnderflowIsReachable(b);
    OneUnsent(b);
    OneIrq(TxIrq);
    NoIrqs();
    hide Tx.Exec, TxIrqs, RxIrqs;
    assert Transmitting(p).tx == [Tx.Enqueue(b), Tx.Enable, Tx.PumpTest, Tx.OnTx, Tx.PumpPop, Tx.PumpLoad];
  }

  /** Two bytes to send and an interrupt after the callback's pop: it sends the second before the
      first. */
  lemma PumpedOvertaking(b: byte, c: byte, rx: seq<Rx.Step>)
    requires b != c
    ensures var p := Past([Tx.Enqueue(b), Tx.Enable, Tx.Enqueue(c), Tx.Enable], rx,
                          [Moment([], true, None), Moment([TxIrq], true, None)]);
            Tx.Exec(Tx.RESET, Transmitting(p).tx).loaded == [c, b]
  {
    var p := Past([Tx.Enqueue(b), Tx.Enable, Tx.Enqueue(c), Tx.Enable], rx,
                  [Moment([], true, None), Moment([TxIrq], true, None)]);
    hide Tx.Exec, TxIrqs, RxIrqs, Tx.Allowed, Tx.Written;
    Tx.OvertakingIsReachable(b, c);
    TwoUnsent(b, c);
    OneIrq(TxIrq);
    NoIrqs();
    assert Transmitting(p).tx == [Tx.Enqueue(b), Tx.Enable, Tx.Enqueue(c), Tx.Enable, Tx.PumpTest, Tx.PumpPop, Tx.OnTx,
                                  Tx.PumpLoad];
  }

  lemma OneUnsent(b: byte)
    ensures |Tx.Exec(Tx.RESET, [Tx.Enqueue(b), Tx.Enable]).tx| == 1
  {
    assert [] + [Tx.Enqueue(b)] == [Tx.Enqueue(b)] && [Tx.Enqueue(b)] + [Tx.Enable] == [Tx.Enqueue(b), Tx.Enable];
    Tx.ExecNext(Tx.RESET, [], Tx.Enqueue(b));
    Tx.ExecNext(Tx.RESET, [Tx.Enqueue(b)], Tx.Enable);
    hide Tx.Exec;
  }

  lemma TwoUnsent(b: byte, c: byte)
    ensures |Tx.Exec(Tx.RESET, [Tx.Enqueue(b), Tx.Enable, Tx.Enqueue(c), Tx.Enable]).tx| == 2
  {
    var two: seq<Tx.Step> := [Tx.Enqueue(b), Tx.Enable];
    assert two + [Tx.Enqueue(c)] + [Tx.Enable] == [Tx.Enqueue(b), Tx.Enable, Tx.Enqueue(c), Tx.Enable];
    OneUnsent(b);
    Tx.ExecNext(Tx.RESET, two, Tx.Enqueue(c));
    Tx.ExecNext(Tx.RESET, two + [Tx.Enqueue(c)], Tx.Enable);
    hide Tx.Exec;
  }

  lemma OneIrq(q: Irq)
    ensures TxIrqs([q]) == if q.TxIrq? then [Tx.OnTx] else []
    ensures RxIrqs([q]) == if q.RxIrq? then [Rx.OnRx(q.b)] else []
  {
    assert [q][..0] == [];
  }

  /** An interrupt lands in each of the four gaps of the pumped receive callback. */
  lemma ReceivingIs(p: Past, b: byte, q0: Irq, q1: Irq, q2: Irq, q3: Irq)
    requires p.moments == [Moment([q0], true, None), Moment([q1], true, None), Moment([q2], true, None),
                           Moment([q3], true, None)]
    requires Unread(p.(rx := p.rx + [Rx.PumpRead(b)] + RxIrqs([q0]))) < SZ
    ensures Receiving(p, b).rx == p.rx + [Rx.PumpRead(b)] + RxIrqs([q0]) + [Rx.PumpTest] + RxIrqs([q1])
                                  + [Rx.PumpStore] + RxIrqs([q2]) + [Rx.PumpMove] + RxIrqs([q3]) + [Rx.PumpCount]
    ensures Receiving(p, b).moments == []
  {
    hide Rx.Exec, TxIrqs, RxIrqs;
  }

  lemma NoneComing(p: Past)
    requires p.moments == [] || p.moments[0].irqs == []
    ensures Interrupted(p) == p.(moments := if p.moments == [] then [] else p.moments[1..])
  {
    NoIrqs();
    assert p.tx + [] == p.tx && p.rx + [] == p.rx;
  }

  /** A poll calls the transmit callback only if the transmitter is ready and the receive callback only if
      a byte is there, in this order. */
  lemma PollingIs(p: Past, m: Moment)
    requires p.moments == [m] && m.irqs == []
    ensures Polling(p).tx == if !m.ready then p.tx
                             else p.tx + if Unsent(p) == 0 then [Tx.PumpTest]
                                         else [Tx.PumpTest, Tx.PumpPop, Tx.PumpLoad]
    ensures m.arrived.None? ==> Polling(p).rx == p.rx
    ensures m.arrived.Some? ==>
              Polling(p).rx == p.rx + if SZ <= Unread(RxDone(p, Rx.PumpRead(m.arrived.value)))
                                      then [Rx.PumpRead(m.arrived.value), Rx.PumpTest]
                                      else Rx.Alone(m.arrived.value)
  {
    var now := p.(moments := []);
    NoneComing(p);
    CalmTransmitting(now);
    var sent := if m.ready then Transmitting(now) else now;
    if m.arrived.Some? {
      CalmReceiving(sent, m.arrived.value);
    }
    hide Transmitting, Receiving, Interrupted, Rx.Exec, Tx.Exec;
  }

  lemma CalmTransmitting(p: Past)
    requires p.moments == []
    ensures Transmitting(p)
            == p.(tx := p.tx + if Unsent(p) == 0 then [Tx.PumpTest] else [Tx.PumpTest, Tx.PumpPop, Tx.PumpLoad])
  {
    var tested := TxDone(p, Tx.PumpTest);
    NoneComing(tested);
    NoneComing(TxDone(tested, Tx.PumpPop));
    hide Interrupted, Unsent;
    assert p.tx + [Tx.PumpTest] + [Tx.PumpPop] + [Tx.PumpLoad] == p.tx + [Tx.PumpTest, Tx.PumpPop, Tx.PumpLoad];
  }

  lemma CalmReceiving(p: Past, b: byte)
    requires p.moments == []
    ensures Receiving(p, b)
            == p.(rx := p.rx + if SZ <= Unread(RxDone(p, Rx.PumpRead(b))) then [Rx.PumpRead(b), Rx.PumpTest]
                               else Rx.Alone(b))
  {
    var asked := RxDone(p, Rx.PumpRead(b));
    var tested := RxDone(asked, Rx.PumpTest);
    var stored := RxDone(tested, Rx.PumpStore);
    NoneComing(asked);
    NoneComing(tested);
    NoneComing(stored);
    NoneComing(RxDone(stored, Rx.PumpMove));
    hide Interrupted, Unread;
    assert p.rx + [Rx.PumpRead(b)] + [Rx.PumpTest] == p.rx + [Rx.PumpRead(b), Rx.PumpTest];
    assert p.rx + [Rx.PumpRead(b)] + [Rx.PumpTest] + [Rx.PumpStore] + [Rx.PumpMove] + [Rx.PumpCount]
        == p.rx + Rx.Alone(b);
  }

  // ---------- the variables ----------

  class Port {
    const txRing: Ring.ByteRing<byte>
    const rxRing: Ring.ByteRing<byte>
    var txie: bool
    /** The interrupts still to come; afterwards all is calm. */
    var moments: seq<Moment>

    ghost var txMain: Tx.Main
    ghost var loaded: seq<byte>
    ghost var underflows: nat
    ghost var overtaken: nat
    ghost var rxMain: Rx.Main
    ghost var read: seq<byte>
    ghost var spoilt: nat
    /** What has happened so far. */
    ghost var txSteps: seq<Tx.Step>
    ghost var rxSteps: seq<Rx.Step>

    ghost function TxView(): Tx.State
      requires txRing.buf.Length == SZ
      reads this, txRing, txRing.buf
    {
      Tx.State(txMain, txRing.contents, txRing.Window(), txie, loaded, underflows, overtaken)
    }

    ghost function RxView(): Rx.State
      requires rxRing.buf.Length == SZ
      reads this, rxRing, rxRing.buf
    {
      Rx.State(rxMain, rxRing.contents, rxRing.Window(), read, spoilt)
    }

    ghost function History(): Past
      reads this
    {
      Past(txSteps, rxSteps, moments)
    }

    ghost function Lag(): nat
      reads this
    {
      if rxMain.Moved? then 1 else 0
    }

    /** The variables are those of the machines after what has happened. */
    ghost predicate Valid()
      reads this, txRing, txRing.buf, rxRing, rxRing.buf
    {
      && txRing.Valid() && txRing.buf.Length == SZ && rxRing.Lags(Lag()) && rxRing.buf.Length == SZ
      && txRing != rxRing && txRing.buf != rxRing.buf
      && Tx.Allowed(Tx.RESET, txSteps) && TxView() == Tx.Exec(Tx.RESET, txSteps)
      && Rx.Allowed(Rx.RESET, rxSteps) && RxView() == Rx.Exec(Rx.RESET, rxSteps)
    }

    constructor (moments: seq<Moment>)
      ensures Valid() && txSteps == [] && rxSteps == [] && this.moments == moments
    {
      txRing := new Ring.ByteRing(SZ, 0);
      rxRing := new Ring.ByteRing(SZ, 0);
      txie, this.moments := false, moments;
      txMain, loaded, underflows, overtaken, txSteps := Tx.Idle, [], 0, 0, [];
      rxMain, read, spoilt, rxSteps := Rx.Idle, [], 0, [];
    }

    // ---------- the two interrupts ----------

    /** The critical section of the transmit callback: takes a byte without asking whether there is
        one. */
    method PopNext() returns (b: byte)
      requires Valid() && txMain == Tx.Pumping
      modifies this`underflows, this`txMain, this`txSteps, txRing
      ensures Valid() && txSteps == old(txSteps) + [Tx.PumpPop] && txMain == Tx.Loading(b)
      ensures Tx.Written(txSteps) == old(Tx.Written(txSteps))
      ensures 0 < old(txRing.count) ==>
                && underflows == old(underflows) && [b] + txRing.contents == old(txRing.contents)
                && txRing.count == old(txRing.count) - 1
    {
      hide Tx.Written, Ring.Slots, Ring.Queue, Ring.Times, Tx.Exec, Tx.Allowed, Rx.Exec, Rx.Allowed;
      TxExtend(txSteps, Tx.PumpPop);
      underflows := if txRing.count == 0 then underflows + 1 else underflows;
      b := txRing.Fetch();
      txMain, txSteps := Tx.Loading(b), txSteps + [Tx.PumpPop];
    }

    /** The transmit callback as an interrupt, whatever the main loop is at; `sent` is what it writes to
        the transmit register. */
    method Transmitted() returns (sent: seq<byte>)
      requires Valid()
      modifies this`txie, this`loaded, this`overtaken, this`txSteps, txRing
      ensures Valid() && txSteps == old(txSteps) + [Tx.OnTx] && loaded == old(loaded) + sent
    {
      hide Ring.Slots, Ring.Queue, Ring.Times, Tx.Exec, Tx.Allowed, Rx.Exec, Rx.Allowed;
      TxExtend(txSteps, Tx.OnTx);
      if txRing.count > 0 {
        var b := txRing.Fetch();
        sent := [b];
        loaded := loaded + [b];
        overtaken := if txMain.Loading? && txMain.b != b then overtaken + 1 else overtaken;
      } else {
        sent := [];
        txie := false;
      }
      txSteps := txSteps + [Tx.OnTx];
    }

    /** The receive callback as an interrupt, whatever the main loop is at. */
    method Received(b: byte)
      requires Valid()
      modifies this`rxMain, this`rxSteps, rxRing, rxRing.buf
      ensures Valid() && rxSteps == old(rxSteps) + [Rx.OnRx(b)] && Rx.SamePlace(old(rxMain), rxMain)
    {
      hide Ring.Slots, Ring.Queue, Tx.Exec, Tx.Allowed, Rx.Exec, Rx.Allowed;
      RxExtend(rxSteps, Rx.OnRx(b));
      if rxRing.count < SZ {
        rxRing.StoreAhead(b, Lag());
        rxMain := Rx.Noted(rxMain, b);
      }
      rxSteps := rxSteps + [Rx.OnRx(b)];
    }

    method TakeAll(irqs: seq<Irq>)
      requires Valid()
      modifies this`txie, this`loaded, this`overtaken, this`txSteps
      modifies this`rxMain, this`rxSteps, txRing, rxRing, rxRing.buf
      ensures Valid() && Rx.SamePlace(old(rxMain), rxMain)
      ensures txSteps == old(txSteps) + TxIrqs(irqs) && rxSteps == old(rxSteps) + RxIrqs(irqs)
      ensures Tx.Written(txSteps) == old(Tx.Written(txSteps))
      ensures irqs == [] ==>
                && rxMain == old(rxMain) && overtaken == old(overtaken) && loaded == old(loaded)
                && txRing.contents == old(txRing.contents) && txRing.count == old(txRing.count)
    {
      hide *;
      Rx.StaysThere(rxMain);
      NoIrqs();
      assert irqs[..0] == [] && irqs[..|irqs|] == irqs;
      for i := 0 to |irqs|
        invariant Valid() && Rx.SamePlace(old(rxMain), rxMain)
        invariant txSteps == old(txSteps) + TxIrqs(irqs[..i]) && rxSteps == old(rxSteps) + RxIrqs(irqs[..i])
        invariant Tx.Written(txSteps) == old(Tx.Written(txSteps))
        invariant i == 0 ==>
                    && rxMain == old(rxMain) && overtaken == old(overtaken) && loaded == old(loaded)
                    && txRing.contents == old(txRing.contents) && txRing.count == old(txRing.count)
      {
        ghost var before := rxMain;
        IrqsNext(irqs, i);
        match irqs[i] {
          case TxIrq =>
            Tx.WrittenNext(txSteps, Tx.OnTx);
            var _ := Transmitted();
          case RxIrq(b) =>
            Received(b);
        }
        Rx.SameThere(old(rxMain), before, rxMain);
      }
    }

    /** A point where interrupts are let in: takes all that come before the main loop goes on, and says
        what the flags show then. */
    method LetIn() returns (m: Moment)
      requires Valid()
      modifies this`moments, this`txie, this`loaded, this`overtaken, this`txSteps
      modifies this`rxMain, this`rxSteps, txRing, rxRing, rxRing.buf
      ensures Valid() && Rx.SamePlace(old(rxMain), rxMain)
      ensures m == Coming(old(moments)) && History() == Interrupted(old(History()))
      ensures Tx.Written(txSteps) == old(Tx.Written(txSteps))
      ensures |moments| <= |old(moments)| && (old(moments) != [] ==> |moments| < |old(moments)|)
      ensures old(moments) == [] ==>
                && m.ready && m.arrived.None? && moments == [] && rxMain == old(rxMain) && overtaken == old(overtaken)
                && loaded == old(loaded) && txRing.contents == old(txRing.contents) && txRing.count == old(txRing.count)
    {
      hide Ring.Slots, Ring.Queue, Tx.Exec, Tx.Allowed, Tx.Written, Rx.Exec, Rx.Allowed, TxIrqs, RxIrqs;
      m := Coming(moments);
      moments := if moments == [] then [] else moments[1..];
      assert Valid();
      TakeAll(m.irqs);
    }

    // ---------- the callbacks pumped from the main loop ----------

    /** The transmit callback's test. */
    method TestCount() returns (some: bool)
      requires Valid() && txMain == Tx.Idle
      modifies this`txie, this`txMain, this`txSteps
      ensures Valid() && some == (0 < txRing.count) == (Unsent(old(History())) != 0)
      ensures txMain == if some then Tx.Pumping else Tx.Idle
      ensures txSteps == old(txSteps) + [Tx.PumpTest] && Tx.Written(txSteps) == old(Tx.Written(txSteps))
    {
      hide Ring.Slots, Ring.Queue, Ring.Times, Tx.Exec, Tx.Allowed, Tx.Written, Rx.Exec, Rx.Allowed;
      TxExtend(txSteps, Tx.PumpTest);
      some := txRing.count > 0;
      if !some {
        txie := false;
      }
      txMain, txSteps := if some then Tx.Pumping else Tx.Idle, txSteps + [Tx.PumpTest];
    }

    /** Its write to the transmit register. */
    method LoadNext(b: byte)
      requires Valid() && txMain == Tx.Loading(b)
      modifies this`loaded, this`txMain, this`txSteps
      ensures Valid() && txMain == Tx.Idle && loaded == old(loaded) + [b]
      ensures txSteps == old(txSteps) + [Tx.PumpLoad] && Tx.Written(txSteps) == old(Tx.Written(txSteps))
    {
      hide Ring.Slots, Ring.Queue, Ring.Times, Tx.Exec, Tx.Allowed, Tx.Written, Rx.Exec, Rx.Allowed;
      TxExtend(txSteps, Tx.PumpLoad);
      loaded := loaded + [b];
      txMain, txSteps := Tx.Idle, txSteps + [Tx.PumpLoad];
    }

    /** The transmit callback called from the main loop, interrupted after its test of the count and
        again before it writes the transmit register. */
    method PumpTransmit()
      requires Valid() && txMain == Tx.Idle
      modifies this`moments, this`txie, this`loaded, this`underflows, this`overtaken, this`txMain, this`txSteps
      modifies this`rxMain, this`rxSteps, txRing, rxRing, rxRing.buf
      ensures Valid() && txMain == Tx.Idle && Rx.SamePlace(old(rxMain), rxMain)
      ensures History() == Transmitting(old(History()))
      ensures Tx.Written(txSteps) == old(Tx.Written(txSteps)) && |moments| <= |old(moments)|
      ensures old(moments) == [] ==>
                && moments == [] && underflows == old(underflows) && overtaken == old(overtaken)
                && loaded + txRing.contents == old(loaded + txRing.contents)
                && txRing.count == if old(txRing.count) == 0 then 0 else old(txRing.count) - 1
    {
      hide Valid, Unsent, Interrupted, Coming, Rx.SamePlace, Ring.Queue, Ring.Slots, Ring.Times, Tx.Written;
      Rx.StaysThere(rxMain);
      var some := TestCount();
      if some {
        var _ := LetIn();
        ghost var mid := rxMain;
        var b := PopNext();
        ghost var rest := txRing.contents;
        var _ := LetIn();
        Rx.SameThere(old(rxMain), mid, rxMain);
        LoadNext(b);
        assert old(loaded) + [b] + rest == old(loaded) + ([b] + rest);
      }
    }

    /** The receive callback is given the byte that the handler has read. */
    method TakeByte(b: byte)
      requires Valid() && rxMain == Rx.Idle
      modifies this`rxMain, this`rxSteps
      ensures Valid() && rxMain.Took? && rxMain.call.b == b && rxSteps == old(rxSteps) + [Rx.PumpRead(b)]
    {
      hide Ring.Slots, Ring.Queue, Tx.Exec, Tx.Allowed, Rx.Exec, Rx.Allowed;
      RxExtend(rxSteps, Rx.PumpRead(b));
      rxMain, rxSteps := Rx.Took(Rx.Call(b, rxRing.contents, [])), rxSteps + [Rx.PumpRead(b)];
    }

    method TestRoom() returns (room: bool)
      requires Valid() && rxMain.Took?
      modifies this`rxMain, this`rxSteps
      ensures Valid() && room == (Unread(old(History())) < SZ) && rxSteps == old(rxSteps) + [Rx.PumpTest]
      ensures if room then rxMain.Tested? && rxMain.call.b == old(rxMain.call.b) else rxMain == Rx.Idle
    {
      hide Ring.Slots, Ring.Queue, Tx.Exec, Tx.Allowed, Rx.Exec, Rx.Allowed;
      RxExtend(rxSteps, Rx.PumpTest);
      room := rxRing.count < SZ;
      rxMain, rxSteps := if room then Rx.Tested(rxMain.call) else Rx.Idle, rxSteps + [Rx.PumpTest];
    }

    method StoreByte(b: byte)
      requires Valid() && rxMain.Tested? && rxMain.call.b == b
      modifies this`rxMain, this`rxSteps, rxRing, rxRing.buf
      ensures Valid() && rxMain.Stored? && rxSteps == old(rxSteps) + [Rx.PumpStore]
    {
      hide Ring.Slots, Ring.Queue, Tx.Exec, Tx.Allowed, Rx.Exec, Rx.Allowed;
      RxBound(rxSteps);
      RxExtend(rxSteps, Rx.PumpStore);
      rxRing.StoreAt(b, 0);
      rxMain, rxSteps := Rx.Stored(rxMain.call), rxSteps + [Rx.PumpStore];
    }

    method MoveOn()
      requires Valid() && rxMain.Stored?
      modifies this`rxMain, this`rxSteps, rxRing
      ensures Valid() && rxMain.Moved? && rxSteps == old(rxSteps) + [Rx.PumpMove]
    {
      hide Ring.Slots, Ring.Queue, Tx.Exec, Tx.Allowed, Rx.Exec, Rx.Allowed;
      RxExtend(rxSteps, Rx.PumpMove);
      rxMain, rxSteps := Rx.Moved(rxMain.call, rxRing.Window()[0], []), rxSteps + [Rx.PumpMove];
      rxRing.MoveHead(0);
    }

    method CountByte()
      requires Valid() && rxMain.Moved?
      modifies this`rxMain, this`spoilt, this`rxSteps, rxRing
      ensures Valid() && rxMain == Rx.Idle && rxSteps == old(rxSteps) + [Rx.PumpCount]
    {
      hide Ring.Slots, Ring.Queue, Tx.Exec, Tx.Allowed, Rx.Exec, Rx.Allowed, Rx.Clean;
      RxBound(rxSteps);
      RxExtend(rxSteps, Rx.PumpCount);
      spoilt := if Rx.Clean(RxView()) then spoilt else spoilt + 1;
      rxMain, rxSteps := Rx.Idle, rxSteps + [Rx.PumpCount];
      rxRing.CountOne(0);
    }

    /** The receive callback called from the main loop, interrupted before each of its statements. */
    method PumpReceive(b: byte)
      requires Valid() && rxMain == Rx.Idle && txMain == Tx.Idle
      modifies this`moments, this`txie, this`loaded, this`overtaken, this`txSteps
      modifies this`rxMain, this`spoilt, this`rxSteps, txRing, rxRing, rxRing.buf
      ensures Valid() && rxMain == Rx.Idle && History() == Receiving(old(History()), b)
      ensures Tx.Written(txSteps) == old(Tx.Written(txSteps)) && |moments| <= |old(moments)|
    {
      hide Valid, Unread, Interrupted, Coming, Rx.SamePlace, Ring.Queue, Ring.Slots, Ring.Times, Tx.Written;
      TakeByte(b);
      var _ := LetIn();
      Rx.SamePlaceIs();
      var room := TestRoom();
      if room {
        var _ := LetIn();
        StoreByte(b);
        var _ := LetIn();
        MoveOn();
        var _ := LetIn();
        CountByte();
      }
    }

    /** Polls the flags and calls the two callbacks that are due. */
    method Dispatch()
      requires Valid() && rxMain == Rx.Idle && txMain == Tx.Idle
      modifies this, txRing, rxRing, rxRing.buf
      ensures Valid() && rxMain == Rx.Idle && txMain == Tx.Idle && History() == Polling(old(History()))
      ensures Tx.Written(txSteps) == old(Tx.Written(txSteps)) && read == old(read)
      ensures old(moments) != [] ==> |moments| < |old(moments)|
      ensures old(moments) == [] ==>
                && moments == [] && underflows == old(underflows) && overtaken == old(overtaken)
                && loaded + txRing.contents == old(loaded + txRing.contents)
                && txRing.count == if old(txRing.count) == 0 then 0 else old(txRing.count) - 1
    {
      Rx.SamePlaceIs();
      hide Valid, Transmitting, Receiving, Interrupted, Coming, Rx.SamePlace, Ring.Queue, Ring.Slots, Tx.Written;
      var m := LetIn();
      if m.ready {
        PumpTransmit();
      }
      if m.arrived.Some? {
        PumpReceive(m.arrived.value);
      }
    }

    // ---------- the functions ----------

    method Enqueue(b: byte)
      requires Valid() && txMain == Tx.Idle && txRing.count < SZ
      modifies this`txMain, this`txSteps, txRing, txRing.buf
      ensures Valid() && txMain == Tx.Kicking && txSteps == old(txSteps) + [Tx.Enqueue(b)]
      ensures Tx.Written(txSteps) == old(Tx.Written(txSteps)) + [b]
      ensures txRing.contents == old(txRing.contents) + [b] && txRing.count == old(txRing.count) + 1
    {
      hide Ring.Slots, Ring.Queue, Ring.Times, Tx.Exec, Tx.Allowed, Tx.Written, Rx.Exec, Rx.Allowed;
      TxExtend(txSteps, Tx.Enqueue(b));
      txRing.Store(b);
      txMain, txSteps := Tx.Kicking, txSteps + [Tx.Enqueue(b)];
    }

    method EnableTransmit()
      requires Valid() && txMain == Tx.Kicking
      modifies this`txie, this`txMain, this`txSteps
      ensures Valid() && txMain == Tx.Idle && txie && txSteps == old(txSteps) + [Tx.Enable]
      ensures Tx.Written(txSteps) == old(Tx.Written(txSteps))
    {
      hide Ring.Slots, Ring.Queue, Ring.Times, Tx.Exec, Tx.Allowed, Tx.Written, Rx.Exec, Rx.Allowed;
      TxExtend(txSteps, Tx.Enable);
      txie := true;
      txMain, txSteps := Tx.Idle, txSteps + [Tx.Enable];
    }

    lemma CountIs()
      requires Valid()
      ensures txRing.count == Unsent(History())
    {
      hide Ring.Slots, Ring.Queue, Tx.Exec, Tx.Allowed, Rx.Exec, Rx.Allowed;
    }

    /** Polls until the ring has a free slot, `n` times. It always comes to an end: each poll uses up a
        moment, and when there are no more, sends a byte. */
    method AwaitRoom() returns (ghost n: nat)
      requires Valid() && rxMain == Rx.Idle && txMain == Tx.Idle
      modifies this, txRing, rxRing, rxRing.buf
      ensures Valid() && rxMain == Rx.Idle && txMain == Tx.Idle && txRing.count < SZ
      ensures History() == Polls(old(History()), n) && Awaits(old(History()), n)
      ensures Tx.Written(txSteps) == old(Tx.Written(txSteps)) && read == old(read) && |moments| <= |old(moments)|
      ensures old(moments) == [] ==>
                && moments == [] && underflows == old(underflows) && overtaken == old(overtaken)
                && loaded + txRing.contents == old(loaded + txRing.contents)
                && txRing.count == Least(SZ - 1, old(txRing.count))
    {
      n := 0;
      hide *;
      LeastIs();
      ghost var past := History();
      PollsStart(past);
      CountIs();
      while txRing.count >= SZ
        invariant Valid() && rxMain == Rx.Idle && txMain == Tx.Idle
        invariant History() == Polls(past, n) && txRing.count == Unsent(History())
        invariant Full(past, n)
        invariant Tx.Written(txSteps) == old(Tx.Written(txSteps)) && read == old(read) && |moments| <= |old(moments)|
        invariant old(moments) == [] ==>
                    && moments == [] && underflows == old(underflows) && overtaken == old(overtaken)
                    && loaded + txRing.contents == old(loaded + txRing.contents)
                    && (txRing.count == old(txRing.count) || SZ - 1 <= txRing.count <= old(txRing.count))
        decreases |moments|, txRing.count
      {
        PollsNext(past, n);
        Dispatch();
        CountIs();
        n := n + 1;
      }
      AwaitsIs(past, n);
    }

    /** Queues one byte, after waiting for room. */
    method SendByte(b: byte) returns (ghost n: nat)
      requires Valid() && rxMain == Rx.Idle && txMain == Tx.Idle
      modifies this, txRing, txRing.buf, rxRing, rxRing.buf
      ensures Valid() && rxMain == Rx.Idle && txMain == Tx.Idle && txie
      ensures History() == Sending(old(History()), n, b) && Awaits(old(History()), n)
      ensures Tx.Written(txSteps) == old(Tx.Written(txSteps)) + [b] && read == old(read)
      ensures |moments| <= |old(moments)|
      ensures old(moments) == [] ==>
                && underflows == old(underflows) && overtaken == old(overtaken)
                && loaded + txRing.contents == old(loaded + txRing.contents) + [b]
                && txRing.count == Least(SZ, old(txRing.count) + 1)
    {
      Rx.SamePlaceIs();
      LeastIs();
      hide Valid, Polls, Awaits, Interrupted, Coming, Least, Rx.SamePlace, Ring.Queue, Ring.Slots, Tx.Written;
      n := AwaitRoom();
      ghost var queue := txRing.contents;
      Enqueue(b);
      assert loaded + (queue + [b]) == loaded + queue + [b];
      var _ := LetIn();
      EnableTransmit();
    }

    /** Queues every byte, with interrupts let in wherever the source does. */
    method Write(data: seq<byte>) returns (ghost ns: seq<nat>)
      requires Valid() && rxMain == Rx.Idle && txMain == Tx.Idle
      modifies this, txRing, txRing.buf, rxRing, rxRing.buf
      ensures Valid() && rxMain == Rx.Idle && txMain == Tx.Idle
      ensures |ns| == |data| && History() == Writing(old(History()), data, ns)
      ensures forall i {:trigger ns[i]} :: 0 <= i < |data| ==>
                Awaits(Writing(old(History()), data[..i], ns[..i]), ns[i])
      ensures Tx.Written(txSteps) == old(Tx.Written(txSteps)) + data && read == old(read) && (data != [] ==> txie)
      ensures old(moments) == [] ==>
                && underflows == old(underflows) && overtaken == old(overtaken)
                && loaded + txRing.contents == old(loaded + txRing.contents) + data
                && (data != [] ==> txRing.count == Least(SZ, old(txRing.count) + |data|))
    {
      ns := [];
      hide *;
      ghost var past := History();
      WritingStart(past);
      LeastIs();
      for i := 0 to |data|
        invariant Valid() && rxMain == Rx.Idle && txMain == Tx.Idle && |moments| <= |old(moments)|
        invariant |ns| == i && History() == Writing(past, data[..i], ns)
        invariant forall k {:trigger ns[k]} :: 0 <= k < i ==> Awaits(Writing(past, data[..k], ns[..k]), ns[k])
        invariant Tx.Written(txSteps) == old(Tx.Written(txSteps)) + data[..i] && read == old(read) && (0 < i ==> txie)
        invariant old(moments) == [] ==>
                    && underflows == old(underflows) && overtaken == old(overtaken)
                    && loaded + txRing.contents == old(loaded + txRing.contents) + data[..i]
                    && txRing.count == if i == 0 then old(txRing.count) else Least(SZ, old(txRing.count) + i)
      {
        var n := SendByte(data[i]);
        assert data[..i + 1] == data[..i] + [data[i]];
        WritingNext(past, data, ns, n);
        ns := ns + [n];
      }
      assert data[..|data|] == data;
    }

    method ReadInto(max: nat) returns (data: seq<byte>)
      requires Valid() && rxMain == Rx.Idle
      modifies this`read, this`rxSteps, rxRing
      ensures Valid() && rxMain == Rx.Idle && rxSteps == old(rxSteps) + [Rx.Read(max)]
      ensures read == old(read) + data && data == old(rxRing.contents)[..Least(max, |old(rxRing.contents)|)]
    {
      hide Ring.Slots, Ring.Queue, Ring.Times, Tx.Exec, Tx.Allowed, Rx.Exec, Rx.Allowed;
      RxExtend(rxSteps, Rx.Read(max));
      data := FetchUpTo(rxRing, max);
      read, rxSteps := read + data, rxSteps + [Rx.Read(max)];
    }
  }

  method FetchUpTo(ring: Ring.ByteRing<byte>, max: nat) returns (data: seq<byte>)
    requires ring.Valid()
    modifies ring
    ensures ring.Valid() && ring.Window() == old(ring.Window())
    ensures data == old(ring.contents)[..Least(max, |old(ring.contents)|)]
    ensures ring.contents == old(ring.contents)[Least(max, |old(ring.contents)|)..]
  {
    hide Ring.Slots, Ring.Queue, Ring.Times;
    data := [];
    while |data| < max && ring.count > 0
      invariant ring.Valid() && ring.Window() == old(ring.Window()) && |data| <= max
      invariant data + ring.contents == old(ring.contents)
    {
      StreamMoves(data, ring.contents);
      var b := ring.Fetch();
      data := data + [b];
    }
    assert data == old(ring.contents)[..|data|];
    assert ring.contents == old(ring.contents)[|data|..];
  }

  lemma NoIrqs()
    ensures TxIrqs([]) == [] && RxIrqs([]) == []
  {
  }

  lemma IrqsNext(irqs: seq<Irq>, i: nat)
    requires i < |irqs|
    ensures TxIrqs(irqs[..i + 1]) == TxIrqs(irqs[..i]) + if irqs[i].TxIrq? then [Tx.OnTx] else []
    ensures RxIrqs(irqs[..i + 1]) == RxIrqs(irqs[..i]) + if irqs[i].RxIrq? then [Rx.OnRx(irqs[i].b)] else []
  {
    assert irqs[..i + 1][..i] == irqs[..i];
  }

  lemma PollsStart(p: Past)
    ensures Polls(p, 0) == p && Full(p, 0)
  {
    hide Polling, Unsent;
  }

  lemma PollsNext(p: Past, n: nat)
    requires Full(p, n) && SZ <= Unsent(Polls(p, n))
    ensures Polls(p, n + 1) == Polling(Polls(p, n)) && Full(p, n + 1)
  {
    hide Polling, Unsent;
  }

  lemma AwaitsIs(p: Past, n: nat)
    requires Unsent(Polls(p, n)) < SZ && Full(p, n)
    ensures Awaits(p, n)
  {
  }

  lemma WritingStart(p: Past)
    ensures Writing(p, [], []) == p
  {
  }

  lemma WritingNext(p: Past, data: seq<byte>, ns: seq<nat>, n: nat)
    requires |ns| < |data|
    ensures Writing(p, data[..|ns| + 1], ns + [n]) == Sending(Writing(p, data[..|ns|], ns), n, data[|ns|])
    ensures forall k {:trigger ns[k]} :: 0 <= k < |ns| ==> (ns + [n])[..k] == ns[..k]
    ensures (ns + [n])[..|ns|] == ns
  {
    hide Sending;
    assert data[..|ns| + 1][..|ns|] == data[..|ns|] && (ns + [n])[..|ns|] == ns;
  }

  lemma LeastIs()
    ensures SZ == 32 && forall a: nat, b: nat {:trigger Least(a, b)} :: Least(a, b) == if a < b then a else b
  {
  }

  lemma StreamMoves(data: seq<byte>, queue: seq<byte>)
    requires queue != []
    ensures data + [queue[0]] + queue[1..] == data + queue
  {
  }
}
