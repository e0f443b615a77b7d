/** The handle of one software UART channel and its interrupt handlers, updated in place, each tied
    to the state machine it implements. */
module SwUart {
  import opened Arith
  import opened Bytes
  import opened SwUartLine
  import opened Timer1
  import opened Words
  import Ring
  import Tx = SwUartTx
  import Rx = SwUartRx

  function Rounded(target: nat, baud: nat): nat
    requires 0 < baud
  {
    (target + baud / 2) / baud
  }

  /** Timer counts per bit: the rounded ratio, kept within the 16-bit counter. */
  function CyclesPerBit(foscHz: nat, baud: nat): word
    requires 0 < baud
  {
    var cycles := Rounded(foscHz / 4, baud);
    if cycles > 65535 then 65535 else if cycles < 1 then 1 else cycles
  }

  function Distance(a: int, b: int): nat {
    if a < b then b - a else a - b
  }

  lemma RoundedRatio(target: nat, baud: nat)
    requires 0 < baud
    ensures var p := Rounded(target, baud) * baud; p <= target + baud / 2 < p + baud
  {
  }

  /** A product at least one step short of one that the rounding reaches is no closer to the target,
      nor is one at least a step beyond. */
  lemma NoCloser(target: nat, baud: nat, rounded: nat, c: nat, o: nat)
    requires 0 < baud && rounded <= target + baud / 2 < rounded + baud
    requires o == c || (o + baud <= c <= rounded) || (rounded <= c && c + baud <= o)
    ensures Distance(c, target) <= Distance(o, target)
  {
  }

  /** The bit time is at least one count, and no other 16-bit one comes closer to the requested rate,
      clamped or not. */
  lemma CyclesPerBitIsNearest(foscHz: nat, baud: nat, other: nat)
    requires 0 < baud && 1 <= other <= 65535
    ensures 1 <= CyclesPerBit(foscHz, baud)
    ensures Distance(CyclesPerBit(foscHz, baud) * baud, foscHz / 4) <= Distance(other * baud, foscHz / 4)
  {
    var target := foscHz / 4;
    var cycles := Rounded(target, baud);
    var c := CyclesPerBit(foscHz, baud);
    RoundedRatio(target, baud);
    hide Rounded, Distance;
    if other < c {
      MulStep(other, c, baud);
      MulMonotone(c, cycles, baud);
    } else if other > c {
      MulStep(c, other, baud);
      MulMonotone(cycles, c, baud);
    }
    NoCloser(target, baud, cycles * baud, c * baud, other * baud);
  }

  class Channel {
    var txPhase: Tx.Phase
    var txShift: byte
    var txBitIndex: nat
    var txDeadline: word
    const txRing: Ring.ByteRing<byte>

    var rxPhase: Rx.Phase
    var rxShift: byte
    var rxBitIndex: nat
    var rxDeadline: word
    const rxRing: Ring.ByteRing<byte>
    var errorCount: word

    // the registers of the two CCP modules the channel owns
    var txMode: CcpMode
    var txCompare: word
    var rxMode: CcpMode
    var rxCompare: word

    ghost predicate Valid()
      reads txRing, txRing.buf, rxRing, rxRing.buf
    {
      && txRing.Valid() && txRing.buf.Length == Tx.RING_SZ
      && rxRing.Valid() && rxRing.buf.Length == Rx.RING_SZ
      && txRing != rxRing && txRing.buf != rxRing.buf
    }

    ghost function TxView(): Tx.Tx
      reads this`txPhase, this`txShift, this`txBitIndex, this`txDeadline, this`txMode, this`txCompare, txRing
    {
      Tx.Tx(txPhase, txShift, txBitIndex, txDeadline, txRing.contents, txMode, txCompare)
    }

    ghost function RxView(): Rx.Rx
      reads this`rxPhase, this`rxShift, this`rxBitIndex, this`rxDeadline, this`errorCount, this`rxMode,
            this`rxCompare, rxRing
    {
      Rx.Rx(rxPhase, rxShift, rxBitIndex, rxDeadline, rxRing.contents, errorCount, rxMode, rxCompare)
    }

    constructor ()
      ensures Valid()
      ensures TxView().(shift := 0, bitIndex := 0) == Tx.RESET
      ensures RxView().(shift := 0, bitIndex := 0) == Rx.RESET
    {
      txRing := new Ring.ByteRing(Tx.RING_SZ, 0);
      rxRing := new Ring.ByteRing(Rx.RING_SZ, 0);
      txPhase, txDeadline, txMode, txCompare := Tx.TxIdle, 0, Off, 0;
      rxPhase, rxDeadline, rxMode, rxCompare := Rx.RxIdle, 0, CaptureFalling, 0;
      txShift, txBitIndex, rxShift, rxBitIndex := 0, 0, 0, 0;
      errorCount := 0;
    }

    method TxCompareEvent(bitTime: word)
      requires Valid()
      modifies this`txPhase, this`txShift, this`txBitIndex, this`txDeadline, this`txMode, this`txCompare, txRing
      ensures Valid() && TxView() == Tx.TxEvent(old(TxView()), bitTime)
    {
      hide Ring.Slots, Ring.Queue, Ring.Times;
      var nextMode;
      match txPhase {
        case TxIdle =>
          if txRing.count == 0 {
            txMode := Off;
            return;
          }
          txShift := txRing.Fetch();
          txBitIndex := 0;
          nextMode := CompareClear;
          txPhase := Tx.TxData;
        case TxData =>
          nextMode := Tx.DataMode(txShift);
          txShift := Tx.ShiftOut(txShift);
          txBitIndex := txBitIndex + 1;
          if txBitIndex >= 8 {
            txPhase := Tx.TxStop;
          }
        case TxStop =>
          nextMode := CompareSet;
          txPhase := Tx.TxIdle;
      }
      txDeadline := (txDeadline + bitTime) % WRAP;
      txCompare := txDeadline;
      txMode := nextMode;
    }

    method RxPush(b: byte)
      requires Valid()
      modifies this`errorCount, rxRing, rxRing.buf
      ensures Valid() && RxView() == Rx.Push(old(RxView()), b)
    {
      hide Ring.Slots, Ring.Queue, Ring.Times;
      if rxRing.count >= Rx.RING_SZ {
        errorCount := (errorCount + 1) % WRAP;
        return;
      }
      rxRing.Store(b);
    }

    /** The stop-bit branch of the handler: keep the byte, or count a framing error. */
    method RxStopSample(pin: bool)
      requires Valid() && rxPhase == Rx.RxStop
      modifies this`rxPhase, this`errorCount, this`rxMode, rxRing, rxRing.buf
      ensures Valid() && RxView() == Rx.RxEvent(old(RxView()), 0, pin, 0)
    {
      hide Ring.Slots, Ring.Queue, Ring.Times;
      if pin {
        RxPush(rxShift);
      } else {
        errorCount := (errorCount + 1) % WRAP;
      }
      rxPhase := Rx.RxIdle;
      rxMode := CaptureFalling;
    }

    /** The data-bit branch: shift the sample in and move the deadline on by one bit. */
    method RxDataSample(pin: bool, bitTime: word)
      requires Valid() && rxPhase == Rx.RxData
      modifies this`rxPhase, this`rxShift, this`rxBitIndex, this`rxDeadline, this`rxCompare
      ensures Valid() && RxView() == Rx.RxEvent(old(RxView()), 0, pin, bitTime)
    {
      rxShift := Rx.ShiftIn(rxShift, pin);
      rxBitIndex := rxBitIndex + 1;
      rxPhase := if rxBitIndex < 8 then Rx.RxData else Rx.RxStop;
      rxDeadline := (rxDeadline + bitTime) % WRAP;
      rxCompare := rxDeadline;
    }

    method RxCaptureEvent(captured: word, pin: bool, bitTime: word)
      requires Valid()
      modifies this`rxPhase, this`rxShift, this`rxBitIndex, this`rxDeadline, this`errorCount, this`rxMode,
               this`rxCompare, rxRing, rxRing.buf
      ensures Valid() && RxView() == Rx.RxEvent(old(RxView()), captured, pin, bitTime)
    {
      hide Ring.Slots, Ring.Queue, Ring.Times;
      if rxPhase == Rx.RxIdle {
        rxDeadline := (captured + bitTime / 2) % WRAP;
        rxPhase := Rx.RxConfirm;
        rxCompare := rxDeadline;
        rxMode := CompareSoftIf;
        return;
      }
      if rxPhase == Rx.RxConfirm {
        if pin {
          rxPhase := Rx.RxIdle;
          rxMode := CaptureFalling;
          return;
        }
        rxShift, rxBitIndex := 0, 0;
        rxPhase := Rx.RxData;
        rxDeadline := (rxDeadline + bitTime) % WRAP;
        rxCompare := rxDeadline;
        return;
      }
      if rxPhase == Rx.RxStop {
        RxStopSample(pin);
        return;
      }
      RxDataSample(pin, bitTime);
    }

    method Write(data: seq<byte>, counter: word) returns (written: nat)
      requires Valid()
      modifies this`txPhase, this`txShift, this`txBitIndex, this`txDeadline, this`txMode, this`txCompare,
               txRing, txRing.buf
      ensures Valid()
      ensures written == Tx.Fits(old(TxView()), data)
      ensures written <= |data| && (written < |data| ==> 8 <= |old(txRing.contents)| + written)
      ensures 0 < written ==> |old(txRing.contents)| + written <= 8
      ensures TxView() == Tx.WriteAll(old(TxView()), data, counter)
    {
      hide Ring.Slots, Ring.Queue, Ring.Times, Tx.Kick;
      written := 0;
      while written < |data| && txRing.count < Tx.RING_SZ
        invariant Valid() && written <= |data|
        invariant TxView() == old(TxView()).(queue := old(txRing.contents) + data[..written])
        invariant 0 < written ==> |txRing.contents| <= Tx.RING_SZ
      {
        txRing.Store(data[written]);
        written := written + 1;
      }
      if written > 0 && txPhase == Tx.TxIdle {
        StartFrame(counter);
      }
    }

    /** The kick at the end of a write that found the machine idle, whether or not its bytes are still
        in the ring. */
    method StartFrame(counter: word)
      requires Valid()
      modifies this`txPhase, this`txShift, this`txBitIndex, this`txDeadline, this`txMode, this`txCompare, txRing
      ensures Valid()
      ensures var found := Tx.Poppable(old(txRing.contents), old(txRing.Window()));
              TxView() == Tx.Kick(old(TxView()).(queue := found), counter)
    {
      hide Ring.Slots, Ring.Queue, Ring.Times;
      ghost var found := Tx.Poppable(txRing.contents, txRing.Window());
      txShift := txRing.Fetch();
      assert [txShift] + txRing.contents == found;
      txBitIndex := 0;
      txPhase := Tx.TxData;
      txDeadline := (counter + Tx.LEAD) % WRAP;
      txCompare := txDeadline;
      txMode := CompareClear;
    }

    method Read(maxlen: nat) returns (data: seq<byte>)
      requires Valid()
      modifies rxRing
      ensures Valid()
      ensures |data| == if maxlen < |old(RxView().queue)| then maxlen else |old(RxView().queue)|
      ensures data + RxView().queue == old(RxView().queue)
    {
      hide Ring.Slots, Ring.Queue, Ring.Times;
      data := [];
      while |data| < maxlen && rxRing.count > 0
        invariant Valid() && |data| <= maxlen
        invariant data + rxRing.contents == old(rxRing.contents)
      {
        var b := rxRing.Fetch();
        assert data + ([b] + rxRing.contents) == data + [b] + rxRing.contents;
        data := data + [b];
      }
    }
  }
}
