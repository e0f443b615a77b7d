/** The Modbus RTU slave on its own storage: bit-packed coil arrays, register arrays, the frame
    buffer and the response buffer, tied to the map-level meaning of each frame. */
module ModbusSlave {
  import opened Bytes
  import opened Bits
  import opened Crc16
  import opened ModbusMap

  /** The CRC loop over the first `len` bytes of a buffer. */
  method CrcOfBuffer(buf: array<byte>, len: nat) returns (crc: bv16)
    requires len <= buf.Length
    ensures crc == Crc(Modbus, buf[..len])
  {
    hide CrcByte;
    crc := 0xFFFF;
    var i := 0;
    while i < len
      invariant 0 <= i <= len && crc == Crc(Modbus, buf[..i])
    {
      crc := Update(Modbus, crc, buf[i]);
      assert buf[..i + 1][..i] == buf[..i];
      i := i + 1;
    }
  }

  ghost function BitTable(a: array?<byte>, n: nat): seq<bool>
    requires a != null ==> n <= 8 * a.Length
    reads a
  {
    if a == null then [] else Unpack(a[..], n)
  }

  ghost function RegTable(a: array?<bv16>, n: nat): seq<bv16>
    requires a != null ==> n <= a.Length
    reads a
  {
    if a == null then [] else a[..n]
  }

  /** Reads `qty` bits of a packed table into the response payload. */
  method PackInto(table: array<byte>, ghost tableLen: nat, start: nat, qty: nat, resp: array<byte>)
    requires tableLen <= 8 * table.Length && start + qty <= tableLen
    requires resp != table && 3 + (qty + 7) / 8 <= resp.Length
    modifies resp
    ensures resp[..3] == old(resp[..3])
    ensures resp[3..3 + (qty + 7) / 8] == Pack(Unpack(table[..], tableLen)[start..start + qty])
  {
    var n := (qty + 7) / 8;
    ghost var bits := Unpack(table[..], tableLen)[start..start + qty];
    var i := 0;
    while i < n
      invariant 0 <= i <= n && resp[..3] == old(resp[..3])
      invariant forall j :: 3 <= j < 3 + i ==> resp[j] == 0
    {
      resp[3 + i] := 0;
      i := i + 1;
    }
    ZeroesPackNothing(resp[3..3 + n], bits);
    i := 0;
    while i < qty
      invariant 0 <= i <= qty && resp[..3] == old(resp[..3])
      invariant PacksUpTo(resp[3..3 + n], bits, i)
    {
      PackNext(resp[3..3 + n], bits, i);
      ghost var before := resp[3..3 + n];
      if Get(table[(start + i) / 8], (start + i) % 8) {
        resp[3 + i / 8] := Put(resp[3 + i / 8], i % 8, true);
        assert resp[3..3 + n] == before[i / 8 := Put(before[i / 8], i % 8, true)];
      }
      i := i + 1;
    }
    PackedAll(resp[3..3 + n], bits);
  }

  /** Writes the registers big-endian into the response payload. */
  method SpellInto(table: array<bv16>, start: nat, qty: nat, resp: array<byte>)
    requires start + qty <= table.Length && 3 + 2 * qty <= resp.Length
    modifies resp
    ensures resp[..3] == old(resp[..3])
    ensures resp[3..3 + 2 * qty] == RegBytes(table[start..start + qty])
  {
    var i := 0;
    while i < qty
      invariant 0 <= i <= qty && resp[..3] == old(resp[..3])
      invariant resp[3..3 + 2 * i] == RegBytes(table[start..start + i])
    {
      ghost var before := resp[3..3 + 2 * i];
      resp[3 + 2 * i] := HighByte(table[start + i]);
      resp[3 + 2 * i + 1] := LowByte(table[start + i]);
      assert resp[3..3 + 2 * (i + 1)] == before + [HighByte(table[start + i]), LowByte(table[start + i])];
      assert table[start..start + i + 1][..i] == table[start..start + i];
      i := i + 1;
    }
  }

  /** The data bytes of the request in the frame buffer. */
  ghost predicate Carries(frame: array<byte>, data: seq<byte>)
    reads frame
  {
    7 + |data| <= frame.Length && forall k {:trigger data[k]} :: 0 <= k < |data| ==> frame[7 + k] == data[k]
  }

  /** Sets a run of coils from the data bytes of a request. */
  method StoreBits(coils: array<byte>, ghost numCoils: nat, start: nat, qty: nat, frame: array<byte>,
                   ghost data: seq<byte>)
    requires numCoils <= 8 * coils.Length && start + qty <= numCoils && coils != frame
    requires qty <= 8 * |data| && Carries(frame, data)
    modifies coils
    ensures Unpack(coils[..], numCoils) == Overwrite(old(Unpack(coils[..], numCoils)), start, Unpack(data, qty))
  {
    hide Put, Get, Overwrite;
    ghost var bits := Unpack(data, qty);
    ghost var before := Unpack(coils[..], numCoils);
    NothingOverwritten(before, start, bits);
    var i := 0;
    while i < qty
      invariant 0 <= i <= qty
      invariant Unpack(coils[..], numCoils) == Overwrite(before, start, bits[..i])
    {
      assert frame[7 + i / 8] == data[i / 8];
      var v := Get(frame[7 + i / 8], i % 8);
      var idx := start + i;
      PutSetsEntry(coils[..], numCoils, idx, v);
      ghost var packed := coils[..];
      coils[idx / 8] := Put(coils[idx / 8], idx % 8, v);
      assert coils[..] == packed[idx / 8 := Put(packed[idx / 8], idx % 8, v)];
      assert bits[i] == v;
      OverwriteMore(before, start, bits, i);
      i := i + 1;
    }
    assert bits[..qty] == bits;
  }

  lemma NothingOverwritten<T>(t: seq<T>, start: nat, part: seq<T>)
    requires start + |part| <= |t|
    ensures Overwrite(t, start, part[..0]) == t
  {
  }

  lemma OverwriteMore<T>(t: seq<T>, start: nat, part: seq<T>, i: nat)
    requires i < |part| && start + |part| <= |t|
    ensures Overwrite(t, start, part[..i + 1]) == Overwrite(t, start, part[..i])[start + i := part[i]]
  {
  }

  /** Sets a run of registers from the data bytes of a request. */
  method StoreRegs(regs: array<bv16>, ghost numRegs: nat, start: nat, qty: nat, frame: array<byte>,
                   ghost data: seq<byte>)
    requires numRegs <= regs.Length && start + qty <= numRegs
    requires 2 * qty <= |data| && Carries(frame, data)
    modifies regs
    ensures regs[..numRegs] == Overwrite(old(regs[..numRegs]), start, BytesRegs(data, qty))
  {
    ghost var words := BytesRegs(data, qty);
    ghost var before := regs[..numRegs];
    var i := 0;
    while i < qty
      invariant 0 <= i <= qty
      invariant regs[..numRegs] == Overwrite(before, start, words[..i])
    {
      assert frame[7 + 2 * i] == data[2 * i] && frame[7 + 2 * i + 1] == data[2 * i + 1];
      assert words[i] == Word(data[2 * i], data[2 * i + 1]);
      OverwriteMore(before, start, words, i);
      ghost var was := regs[..numRegs];
      regs[start + i] := Word(frame[7 + 2 * i], frame[7 + 2 * i + 1]);
      assert regs[..numRegs] == was[start + i := words[i]];
      i := i + 1;
    }
    assert words[..qty] == words;
  }

  /** The comparison of the last two bytes. */
  lemma CrcTest(f: seq<byte>)
    ensures 4 <= |f| ==>
              var n, crc := |f| - 2, Crc(Modbus, f[..|f| - 2]);
              CrcOk(Modbus, f) <==> f[n] == Low(crc) && f[n + 1] == High(crc)
  {
    hide Crc, Low, High;
  }

  class Slave {
    const self: byte
    const maxAdu: nat
    const coils: array?<byte>
    const numCoils: nat
    const discretes: array?<byte>
    const numDiscretes: nat
    const holding: array?<bv16>
    const numHolding: nat
    const inputs: array?<bv16>
    const numInputs: nat
    const frame: array<byte>
    var frameLen: nat

    /** The tables cover their counts, are distinct from each other and from the frame buffer, and the
        buffer holds the shortest write request. */
    ghost predicate Valid()
      reads this
    {
      && 8 <= maxAdu && frame.Length == maxAdu && frameLen <= maxAdu
      && (coils != null ==> numCoils <= 8 * coils.Length)
      && (discretes != null ==> numDiscretes <= 8 * discretes.Length)
      && (holding != null ==> numHolding <= holding.Length)
      && (inputs != null ==> numInputs <= inputs.Length)
      && frame != coils && frame != discretes
      && (coils != null ==> coils != discretes)
      && (holding != null ==> holding != inputs)
    }

    ghost function View(): Map
      requires Valid()
      reads this, coils, discretes, holding, inputs
    {
      Map(BitTable(coils, numCoils), BitTable(discretes, numDiscretes),
          RegTable(holding, numHolding), RegTable(inputs, numInputs))
    }

    ghost function Frame(): seq<byte>
      requires Valid()
      reads this, frame
    {
      frame[..frameLen]
    }

    method BuildException(resp: array<byte>, fc: byte, code: byte) returns (n: nat)
      requires 3 <= resp.Length
      modifies resp
      ensures n == 3 && resp[..n] == Exception(self, fc, code)
    {
      resp[0] := self;
      resp[1] := fc | 0x80;
      resp[2] := code;
      n := 3;
    }

    method BuildEcho(resp: array<byte>) returns (n: nat)
      requires Valid() && 8 <= frameLen && 6 <= resp.Length && resp != frame
      modifies resp
      ensures n == 6 && resp[..n] == Echo(self, Frame())
    {
      resp[0], resp[1], resp[2] := self, frame[1], frame[2];
      resp[3], resp[4], resp[5] := frame[3], frame[4], frame[5];
      n := 6;
    }

    /** `r` can serve as the response buffer. */
    ghost predicate Buffer(r: array<byte>)
      reads this
    {
      r.Length == maxAdu && r != frame && r != coils && r != discretes
    }

    /** The map is as the outcome says and the first `n` bytes of the buffer are its response. */
    ghost predicate Answers(o: Outcome, resp: array<byte>, n: nat)
      requires Valid()
      reads this, coils, discretes, holding, inputs, resp
    {
      View() == o.after && n <= maxAdu && n <= resp.Length && resp[..n] == o.pdu
    }

    method HandleReadBits(table: array?<byte>, tableLen: nat, resp: array<byte>) returns (n: nat)
      requires Valid() && 4 <= frameLen && Buffer(resp) && resp != table
      requires table != null ==> tableLen <= 8 * table.Length
      modifies resp
      ensures n <= maxAdu && resp[..n] == ReadBits(self, maxAdu, BitTable(table, tableLen), Frame())
    {
      hide Pack, Exception, Be16, Unpack, CountByte;
      if frameLen != 8 {
        return 0;
      }
      var start, qty := Be16(frame[2], frame[3]), Be16(frame[4], frame[5]);
      if qty == 0 || qty > 2000 {
        n := BuildException(resp, frame[1], ILLEGAL_DATA_VALUE);
        return;
      }
      if table == null || start + qty > tableLen {
        n := BuildException(resp, frame[1], ILLEGAL_DATA_ADDRESS);
        return;
      }
      var byteCount := (qty + 7) / 8;
      if byteCount + 5 > maxAdu {
        n := BuildException(resp, frame[1], ILLEGAL_DATA_VALUE);
        return;
      }
      resp[0], resp[1], resp[2] := self, frame[1], CountByte(byteCount);
      PackInto(table, tableLen, start, qty, resp);
      n := 3 + byteCount;
      assert resp[..n] == resp[..3] + resp[3..n];
    }

    method HandleReadRegs(table: array?<bv16>, tableLen: nat, resp: array<byte>) returns (n: nat)
      requires Valid() && 4 <= frameLen && Buffer(resp)
      requires table != null ==> tableLen <= table.Length
      modifies resp
      ensures n <= maxAdu && resp[..n] == ReadRegs(self, maxAdu, RegTable(table, tableLen), Frame())
    {
      hide RegBytes, Exception, Be16, CountByte;
      if frameLen != 8 {
        return 0;
      }
      var start, qty := Be16(frame[2], frame[3]), Be16(frame[4], frame[5]);
      if qty == 0 || qty > 125 {
        n := BuildException(resp, frame[1], ILLEGAL_DATA_VALUE);
        return;
      }
      if table == null || start + qty > tableLen {
        n := BuildException(resp, frame[1], ILLEGAL_DATA_ADDRESS);
        return;
      }
      var byteCount := 2 * qty;
      if byteCount + 5 > maxAdu {
        n := BuildException(resp, frame[1], ILLEGAL_DATA_VALUE);
        return;
      }
      assert table[..tableLen][start..start + qty] == table[start..start + qty];
      n := ReplyRegs(table, start, qty, resp);
    }

    /** The accepted case of a register read. */
    method ReplyRegs(table: array<bv16>, start: nat, qty: nat, resp: array<byte>) returns (n: nat)
      requires Valid() && 4 <= frameLen && Buffer(resp)
      requires start + qty <= table.Length && qty <= 125 && 2 * qty + 5 <= maxAdu
      modifies resp
      ensures n == 3 + 2 * qty
      ensures resp[..n] == [self, frame[1], CountByte(2 * qty)] + RegBytes(table[start..start + qty])
    {
      hide RegBytes, CountByte;
      resp[0], resp[1], resp[2] := self, frame[1], CountByte(2 * qty);
      ghost var head := resp[..3];
      SpellInto(table, start, qty, resp);
      n := 3 + 2 * qty;
      assert head == [self, frame[1], CountByte(2 * qty)];
      assert resp[..n] == head + resp[3..n];
    }

    method HandleWriteCoil(resp: array<byte>) returns (n: nat)
      requires Valid() && 4 <= frameLen && Buffer(resp)
      modifies resp, coils
      ensures Answers(WriteCoil(self, old(View()), Frame()), resp, n)
    {
      hide Put, Exception, Be16, Unpack, Echo;
      if frameLen != 8 {
        return 0;
      }
      var addr, value := Be16(frame[2], frame[3]), Be16(frame[4], frame[5]);
      assert addr == StartOf(Frame()) && value == QtyOf(Frame());
      hide StartOf, QtyOf, RegTable;
      if value != 0xFF00 && value != 0 {
        n := BuildException(resp, frame[1], ILLEGAL_DATA_VALUE);
        return;
      }
      if coils == null || addr >= numCoils {
        n := BuildException(resp, frame[1], ILLEGAL_DATA_ADDRESS);
        return;
      }
      PutSetsEntry(coils[..], numCoils, addr, value == 0xFF00);
      coils[addr / 8] := Put(coils[addr / 8], addr % 8, value == 0xFF00);
      assert coils[..] == old(coils[..])[addr / 8 := Put(old(coils[..])[addr / 8], addr % 8, value == 0xFF00)];
      n := BuildEcho(resp);
    }

    method HandleWriteReg(resp: array<byte>) returns (n: nat)
      requires Valid() && 4 <= frameLen && Buffer(resp)
      modifies resp, holding
      ensures Answers(WriteReg(self, old(View()), Frame()), resp, n)
    {
      hide Exception, Be16, Echo, Word;
      if frameLen != 8 {
        return 0;
      }
      var addr := Be16(frame[2], frame[3]);
      if holding == null || addr >= numHolding {
        n := BuildException(resp, frame[1], ILLEGAL_DATA_ADDRESS);
        return;
      }
      holding[addr] := Word(frame[4], frame[5]);
      n := BuildEcho(resp);
    }

    /** The accepted case of write-multiple-coils. */
    method WriteCoilRange(resp: array<byte>, start: nat, qty: nat) returns (n: nat)
      requires Valid() && 9 <= frameLen && Buffer(resp)
      requires coils != null && start + qty <= numCoils && qty <= 8 * (frameLen - 9)
      modifies resp, coils
      ensures n == 6 && resp[..n] == Echo(self, Frame())
      ensures View() == old(View()).(coils := Overwrite(old(View()).coils, start, Unpack(DataOf(Frame()), qty)))
    {
      hide Unpack, Overwrite, Echo;
      ghost var data := DataOf(Frame());
      assert Carries(frame, data);
      StoreBits(coils, numCoils, start, qty, frame, data);
      n := BuildEcho(resp);
    }

    /** The accepted case of write-multiple-registers. */
    method WriteRegRange(resp: array<byte>, start: nat, qty: nat) returns (n: nat)
      requires Valid() && 9 <= frameLen && Buffer(resp)
      requires holding != null && start + qty <= numHolding && 2 * qty <= frameLen - 9
      modifies resp, holding
      ensures n == 6 && resp[..n] == Echo(self, Frame())
      ensures var written := BytesRegs(DataOf(Frame()), qty);
              View() == old(View()).(holding := Overwrite(old(View()).holding, start, written))
    {
      hide BytesRegs, Overwrite, Echo;
      ghost var data := DataOf(Frame());
      assert Carries(frame, data);
      StoreRegs(holding, numHolding, start, qty, frame, data);
      n := BuildEcho(resp);
    }

    method HandleWriteCoils(resp: array<byte>) returns (n: nat)
      requires Valid() && 4 <= frameLen && Buffer(resp)
      modifies resp, coils
      ensures Answers(WriteCoils(self, old(View()), Frame()), resp, n)
    {
      hide Exception, Be16, CountOf, Unpack, Echo, Overwrite, DataOf;
      if frameLen < 9 {
        return 0;
      }
      var start, qty := Be16(frame[2], frame[3]), Be16(frame[4], frame[5]);
      var byteCount := CountOf(frame[6]);
      assert start == StartOf(Frame()) && qty == QtyOf(Frame());
      assert |View().coils| == if coils == null then 0 else numCoils;
      hide StartOf, QtyOf, BitTable, RegTable;
      if qty == 0 || qty > 1968 || byteCount != (qty + 7) / 8 {
        n := BuildException(resp, frame[1], ILLEGAL_DATA_VALUE);
        return;
      }
      if 7 + byteCount + 2 != frameLen {
        return 0;
      }
      if coils == null || start + qty > numCoils {
        n := BuildException(resp, frame[1], ILLEGAL_DATA_ADDRESS);
        return;
      }
      assert qty <= 8 * byteCount;
      n := WriteCoilRange(resp, start, qty);
    }

    method HandleWriteRegs(resp: array<byte>) returns (n: nat)
      requires Valid() && 4 <= frameLen && Buffer(resp)
      modifies resp, holding
      ensures Answers(WriteRegs(self, old(View()), Frame()), resp, n)
    {
      hide Exception, Be16, CountOf, BytesRegs, Echo, Overwrite, DataOf;
      if frameLen < 9 {
        return 0;
      }
      var start, qty := Be16(frame[2], frame[3]), Be16(frame[4], frame[5]);
      var byteCount := CountOf(frame[6]);
      assert start == StartOf(Frame()) && qty == QtyOf(Frame());
      assert |View().holding| == if holding == null then 0 else numHolding;
      hide StartOf, QtyOf, BitTable, RegTable;
      if qty == 0 || qty > 123 || byteCount != 2 * qty {
        n := BuildException(resp, frame[1], ILLEGAL_DATA_VALUE);
        return;
      }
      if 7 + byteCount + 2 != frameLen {
        return 0;
      }
      if holding == null || start + qty > numHolding {
        n := BuildException(resp, frame[1], ILLEGAL_DATA_ADDRESS);
        return;
      }
      n := WriteRegRange(resp, start, qty);
    }

    method Dispatch(resp: array<byte>) returns (n: nat)
      requires Valid() && 4 <= frameLen && Buffer(resp)
      modifies resp, coils, holding
      ensures Answers(Handle(self, maxAdu, old(View()), Frame()), resp, n)
    {
      hide ReadBits, ReadRegs, WriteCoil, WriteReg, WriteCoils, WriteRegs;
      var fc := frame[1];
      if fc == 1 {
        n := HandleReadBits(coils, numCoils, resp);
      } else if fc == 2 {
        n := HandleReadBits(discretes, numDiscretes, resp);
      } else if fc == 3 {
        n := HandleReadRegs(holding, numHolding, resp);
      } else if fc == 4 {
        n := HandleReadRegs(inputs, numInputs, resp);
      } else if fc == 5 {
        n := HandleWriteCoil(resp);
      } else if fc == 6 {
        n := HandleWriteReg(resp);
      } else if fc == 15 {
        n := HandleWriteCoils(resp);
      } else if fc == 16 {
        n := HandleWriteRegs(resp);
      } else {
        n := BuildException(resp, fc, ILLEGAL_FUNCTION);
      }
    }

    /** Whether the frame in the buffer is long enough, passes the CRC check and is for this slave. */
    method Accepted() returns (ok: bool)
      requires Valid()
      ensures ok == Accepts(self, Frame())
    {
      CrcTest(Frame());
      hide Crc, CrcOk, Low, High;
      if frameLen < 4 {
        return false;
      }
      var crc := CrcOfBuffer(frame, frameLen - 2);
      assert Frame()[..frameLen - 2] == frame[..frameLen - 2];
      if frame[frameLen - 2] != Low(crc) || frame[frameLen - 1] != High(crc) {
        return false;
      }
      ok := frame[0] == 0 || frame[0] == self;
    }

    /** One received frame: the map moves, and a reply is sent, exactly as the map-level meaning says. */
    method ProcessFrame() returns (reply: Reply)
      requires Valid()
      modifies coils, holding
      ensures (View(), reply) == Serve(self, maxAdu, old(View()), Frame())
    {
      hide CrcOk, Handle, Sealed, BitTable, RegTable;
      var accepted := Accepted();
      if !accepted {
        return NoReply;
      }
      RoomForCrc(self, maxAdu, View(), Frame());
      var broadcast := frame[0] == 0;
      var resp := new byte[maxAdu];
      var n := Dispatch(resp);
      if n == 0 || broadcast {
        return NoReply;
      }
      reply := Seal(resp, n);
    }

    /** Appends the CRC to a response and sends it. */
    method Seal(resp: array<byte>, n: nat) returns (reply: Reply)
      requires n + 2 <= resp.Length
      modifies resp
      ensures reply == Reply(Sealed(Modbus, old(resp[..n])))
    {
      var crc := CrcOfBuffer(resp, n);
      resp[n] := Low(crc);
      resp[n + 1] := High(crc);
      reply := Reply(resp[..n + 2]);
    }
  }
}
