/** What a Modbus RTU slave does to its register map, over plain sequences of coils and registers:
    MODBUS Application Protocol V1.1b3, sections 6.1-6.6, 6.11, 6.12 and 7, as the slave implements
    them. */
module ModbusMap {
  import opened Bytes
  import opened Bits
  import opened Crc16

  /** An absent table is an empty one. */
  datatype Map = Map(coils: seq<bool>, discretes: seq<bool>, holding: seq<bv16>, inputs: seq<bv16>)

  /** `after` is the map the request leaves and `pdu` the response before its CRC, empty for a request
      that is dropped. */
  datatype Outcome = Outcome(after: Map, pdu: seq<byte>)

  datatype Reply = NoReply | Reply(frame: seq<byte>)

  const ILLEGAL_FUNCTION: byte := 1
  const ILLEGAL_DATA_ADDRESS: byte := 2
  const ILLEGAL_DATA_VALUE: byte := 3

  function Be16(hi: byte, lo: byte): nat {
    (hi as int) * 0x100 + (lo as int)
  }

  /** A byte count on the wire. */
  function CountByte(n: nat): byte
    requires n < 0x100
  {
    n as byte
  }

  function CountOf(b: byte): (n: nat)
    ensures n < 0x100
  {
    b as int
  }

  function Word(hi: byte, lo: byte): bv16 {
    ((hi as bv16) << 8) | (lo as bv16)
  }

  function HighByte(w: bv16): byte {
    (w >> 8) as byte
  }

  function LowByte(w: bv16): byte {
    (w & 0xFF) as byte
  }

  /** Start address or single address of a request. */
  function StartOf(f: seq<byte>): nat
    requires 8 <= |f|
  {
    Be16(f[2], f[3])
  }

  /** Quantity, or the value of a single write. */
  function QtyOf(f: seq<byte>): nat
    requires 8 <= |f|
  {
    Be16(f[4], f[5])
  }

  function Exception(self: byte, fc: byte, code: byte): seq<byte> {
    [self, fc | 0x80, code]
  }

  function Echo(self: byte, f: seq<byte>): seq<byte>
    requires 8 <= |f|
  {
    [self, f[1], f[2], f[3], f[4], f[5]]
  }

  /** Big-endian bytes of a run of registers. */
  function RegBytes(regs: seq<bv16>): (s: seq<byte>)
    ensures |s| == 2 * |regs|
  {
    if regs == [] then []
    else RegBytes(regs[..|regs| - 1]) + [HighByte(regs[|regs| - 1]), LowByte(regs[|regs| - 1])]
  }

  /** The registers that a run of bytes spells. */
  function BytesRegs(s: seq<byte>, n: nat): (regs: seq<bv16>)
    requires 2 * n <= |s|
    ensures |regs| == n && forall i {:trigger regs[i]} :: 0 <= i < n ==> regs[i] == Word(s[2 * i], s[2 * i + 1])
  {
    seq(n, i requires 0 <= i < n => Word(s[2 * i], s[2 * i + 1]))
  }

  /** `t` with `part` written over it from `start` on. */
  function Overwrite<T>(t: seq<T>, start: nat, part: seq<T>): (r: seq<T>)
    requires start + |part| <= |t|
    ensures |r| == |t|
    ensures forall i {:trigger r[i]} :: 0 <= i < |t| ==>
              r[i] == if start <= i < start + |part| then part[i - start] else t[i]
  {
    t[..start] + part + t[start + |part|..]
  }

  // ---------- the function codes ----------

  function ReadBits(self: byte, maxAdu: nat, table: seq<bool>, f: seq<byte>): seq<byte>
    requires 4 <= |f|
  {
    if |f| != 8 then []
    else if QtyOf(f) == 0 || QtyOf(f) > 2000 then Exception(self, f[1], ILLEGAL_DATA_VALUE)
    else if StartOf(f) + QtyOf(f) > |table| then Exception(self, f[1], ILLEGAL_DATA_ADDRESS)
    else if (QtyOf(f) + 7) / 8 + 5 > maxAdu then Exception(self, f[1], ILLEGAL_DATA_VALUE)
    else [self, f[1], CountByte((QtyOf(f) + 7) / 8)] + Pack(table[StartOf(f)..StartOf(f) + QtyOf(f)])
  }

  function ReadRegs(self: byte, maxAdu: nat, table: seq<bv16>, f: seq<byte>): seq<byte>
    requires 4 <= |f|
  {
    if |f| != 8 then []
    else if QtyOf(f) == 0 || QtyOf(f) > 125 then Exception(self, f[1], ILLEGAL_DATA_VALUE)
    else if StartOf(f) + QtyOf(f) > |table| then Exception(self, f[1], ILLEGAL_DATA_ADDRESS)
    else if 2 * QtyOf(f) + 5 > maxAdu then Exception(self, f[1], ILLEGAL_DATA_VALUE)
    else [self, f[1], CountByte(2 * QtyOf(f))] + RegBytes(table[StartOf(f)..StartOf(f) + QtyOf(f)])
  }

  function WriteCoil(self: byte, m: Map, f: seq<byte>): Outcome
    requires 4 <= |f|
  {
    if |f| != 8 then Outcome(m, [])
    else if QtyOf(f) != 0xFF00 && QtyOf(f) != 0 then Outcome(m, Exception(self, f[1], ILLEGAL_DATA_VALUE))
    else if StartOf(f) >= |m.coils| then Outcome(m, Exception(self, f[1], ILLEGAL_DATA_ADDRESS))
    else Outcome(m.(coils := m.coils[StartOf(f) := QtyOf(f) == 0xFF00]), Echo(self, f))
  }

  function WriteReg(self: byte, m: Map, f: seq<byte>): Outcome
    requires 4 <= |f|
  {
    if |f| != 8 then Outcome(m, [])
    else if StartOf(f) >= |m.holding| then Outcome(m, Exception(self, f[1], ILLEGAL_DATA_ADDRESS))
    else Outcome(m.(holding := m.holding[StartOf(f) := Word(f[4], f[5])]), Echo(self, f))
  }

  /** The data bytes of a write-multiple request. */
  function DataOf(f: seq<byte>): seq<byte>
    requires 9 <= |f|
  {
    f[7..|f| - 2]
  }

  function WriteCoils(self: byte, m: Map, f: seq<byte>): Outcome
    requires 4 <= |f|
  {
    if |f| < 9 then Outcome(m, [])
    else if QtyOf(f) == 0 || QtyOf(f) > 1968 || CountOf(f[6]) != (QtyOf(f) + 7) / 8 then
      Outcome(m, Exception(self, f[1], ILLEGAL_DATA_VALUE))
    else if 7 + CountOf(f[6]) + 2 != |f| then Outcome(m, [])
    else if StartOf(f) + QtyOf(f) > |m.coils| then Outcome(m, Exception(self, f[1], ILLEGAL_DATA_ADDRESS))
    else Outcome(m.(coils := Overwrite(m.coils, StartOf(f), Unpack(DataOf(f), QtyOf(f)))), Echo(self, f))
  }

  function WriteRegs(self: byte, m: Map, f: seq<byte>): Outcome
    requires 4 <= |f|
  {
    if |f| < 9 then Outcome(m, [])
    else if QtyOf(f) == 0 || QtyOf(f) > 123 || CountOf(f[6]) != 2 * QtyOf(f) then
      Outcome(m, Exception(self, f[1], ILLEGAL_DATA_VALUE))
    else if 7 + CountOf(f[6]) + 2 != |f| then Outcome(m, [])
    else if StartOf(f) + QtyOf(f) > |m.holding| then Outcome(m, Exception(self, f[1], ILLEGAL_DATA_ADDRESS))
    else Outcome(m.(holding := Overwrite(m.holding, StartOf(f), BytesRegs(DataOf(f), QtyOf(f)))), Echo(self, f))
  }

  function Handle(self: byte, maxAdu: nat, m: Map, f: seq<byte>): Outcome
    requires 4 <= |f|
  {
    var fc := f[1];
    if fc == 1 then Outcome(m, ReadBits(self, maxAdu, m.coils, f))
    else if fc == 2 then Outcome(m, ReadBits(self, maxAdu, m.discretes, f))
    else if fc == 3 then Outcome(m, ReadRegs(self, maxAdu, m.holding, f))
    else if fc == 4 then Outcome(m, ReadRegs(self, maxAdu, m.inputs, f))
    else if fc == 5 then WriteCoil(self, m, f)
    else if fc == 6 then WriteReg(self, m, f)
    else if fc == 15 then WriteCoils(self, m, f)
    else if fc == 16 then WriteRegs(self, m, f)
    else Outcome(m, Exception(self, fc, ILLEGAL_FUNCTION))
  }

  /** Whether a frame gets as far as a handler: long enough, CRC right, for this slave or for all. */
  predicate Accepts(self: byte, f: seq<byte>) {
    4 <= |f| && CrcOk(Modbus, f) && (f[0] == 0 || f[0] == self)
  }

  /** The effect of one received frame. A broadcast is served but never answered. */
  function Serve(self: byte, maxAdu: nat, m: Map, f: seq<byte>): (Map, Reply) {
    if !Accepts(self, f) then (m, NoReply)
    else
      var o := Handle(self, maxAdu, m, f);
      (o.after, if o.pdu == [] || f[0] == 0 then NoReply else Reply(Sealed(Modbus, o.pdu)))
  }

  // ---------- what follows ----------

  /** A valid frame hit by an error burst of at most 16 bits on the wire, wherever and at whatever
      length, changes nothing and is not answered. */
  lemma BurstIsDropped(self: byte, maxAdu: nat, m: Map, f: seq<byte>, g: seq<byte>, i: nat)
    requires CrcOk(Modbus, f) && WithinBurst(Modbus, f, g, i) && f != g
    ensures Serve(self, maxAdu, m, g) == (m, NoReply)
  {
    BurstDetected(Modbus, f, g, i);
  }

  /** The same for damage within two adjacent bytes. */
  lemma DamageIsDropped(self: byte, maxAdu: nat, m: Map, f: seq<byte>, g: seq<byte>, i: nat)
    requires CrcOk(Modbus, f) && AgreeOutside(f, g, i) && f != g
    ensures Serve(self, maxAdu, m, g) == (m, NoReply)
  {
    TwoByteErrorDetected(Modbus, f, g, i);
  }

  /** The same for any odd number of flipped bits. */
  lemma OddErrorIsDropped(self: byte, maxAdu: nat, m: Map, f: seq<byte>, g: seq<byte>)
    requires CrcOk(Modbus, f) && |f| == |g| && Differing(Modbus, f, g, 8 * |f|) % 2 == 1
    ensures Serve(self, maxAdu, m, g) == (m, NoReply)
  {
    OddErrorDetected(Modbus, f, g);
  }

  /** Whatever is answered carries a valid CRC and this slave's address, and was addressed to it. */
  lemma RepliesAreSealed(self: byte, maxAdu: nat, m: Map, f: seq<byte>)
    ensures var (_, r) := Serve(self, maxAdu, m, f);
            r.Reply? ==> CrcOk(Modbus, r.frame) && r.frame[0] == self && f[0] == self && |r.frame| >= 5
  {
    hide Crc, CrcOk, First, Second, Handle;
    if Accepts(self, f) {
      PduShape(self, maxAdu, m, f);
      SealedIsOk(Modbus, Handle(self, maxAdu, m, f).pdu);
    }
  }

  lemma PduShape(self: byte, maxAdu: nat, m: Map, f: seq<byte>)
    requires 4 <= |f|
    ensures var pdu := Handle(self, maxAdu, m, f).pdu;
            pdu != [] ==> 3 <= |pdu| && pdu[0] == self
  {
    hide Pack, RegBytes, Overwrite, Unpack, BytesRegs;
  }

  /** The buffer always has room for a response and its CRC. */
  lemma RoomForCrc(self: byte, maxAdu: nat, m: Map, f: seq<byte>)
    requires 8 <= maxAdu && 4 <= |f|
    ensures |Handle(self, maxAdu, m, f).pdu| + 2 <= maxAdu
  {
  }

  /** Reads, exceptions and dropped requests leave the map alone; a write changes one table only, and
      in it only the addressed range. */
  lemma OnlyTheRangeChanges(self: byte, maxAdu: nat, m: Map, f: seq<byte>)
    requires 4 <= |f|
    ensures var o := Handle(self, maxAdu, m, f);
            && o.after.discretes == m.discretes && o.after.inputs == m.inputs
            && |o.after.coils| == |m.coils| && |o.after.holding| == |m.holding|
            && (o.after != m ==> o.pdu == Echo(self, f) && f[1] in {5, 6, 15, 16})
            && (o.after.coils != m.coils ==> f[1] in {5, 15} && o.after.holding == m.holding)
            && (forall i {:trigger o.after.coils[i]} ::
                  0 <= i < |m.coils| && o.after.coils[i] != m.coils[i] ==>
                  StartOf(f) <= i < StartOf(f) + (if f[1] == 5 then 1 else QtyOf(f)))
            && (forall i {:trigger o.after.holding[i]} ::
                  0 <= i < |m.holding| && o.after.holding[i] != m.holding[i] ==>
                  StartOf(f) <= i < StartOf(f) + (if f[1] == 6 then 1 else QtyOf(f)))
  {
  }

  lemma BytesOfWord(hi: byte, lo: byte)
    ensures HighByte(Word(hi, lo)) == hi && LowByte(Word(hi, lo)) == lo
  {
  }

  /** Writing coils and reading the same range back returns the bits that were written. */
  lemma CoilsReadBack(self: byte, maxAdu: nat, m: Map, w: seq<byte>, r: seq<byte>)
    requires 9 <= |w| && |r| == 8 && w[1] == 15 && r[1] == 1
    requires StartOf(r) == StartOf(w) && QtyOf(r) == QtyOf(w) && (QtyOf(w) + 7) / 8 + 5 <= maxAdu
    requires Handle(self, maxAdu, m, w).pdu == Echo(self, w)
    ensures var pdu := Handle(self, maxAdu, Handle(self, maxAdu, m, w).after, r).pdu;
            && |pdu| == 3 + |DataOf(w)|
            && Unpack(pdu[3..], QtyOf(w)) == Unpack(DataOf(w), QtyOf(w))
  {
    var bits := Unpack(DataOf(w), QtyOf(w));
    var m' := Handle(self, maxAdu, m, w).after;
    assert m' == m.(coils := Overwrite(m.coils, StartOf(w), bits));
    assert m'.coils[StartOf(w)..StartOf(w) + QtyOf(w)] == bits;
    var pdu := Handle(self, maxAdu, m', r).pdu;
    assert pdu[3..] == Pack(bits);
    UnpackPack(bits);
  }

  /** Writing registers and reading the same range back returns the bytes that were written. */
  lemma RegsReadBack(self: byte, maxAdu: nat, m: Map, w: seq<byte>, r: seq<byte>)
    requires 9 <= |w| && |r| == 8 && w[1] == 16 && r[1] == 3
    requires StartOf(r) == StartOf(w) && QtyOf(r) == QtyOf(w) && 2 * QtyOf(w) + 5 <= maxAdu
    requires Handle(self, maxAdu, m, w).pdu == Echo(self, w)
    ensures var pdu := Handle(self, maxAdu, Handle(self, maxAdu, m, w).after, r).pdu;
            |pdu| == 3 + |DataOf(w)| && pdu[3..] == DataOf(w)
  {
    var regs := BytesRegs(DataOf(w), QtyOf(w));
    var m' := Handle(self, maxAdu, m, w).after;
    assert m' == m.(holding := Overwrite(m.holding, StartOf(w), regs));
    assert m'.holding[StartOf(w)..StartOf(w) + QtyOf(w)] == regs;
    var pdu := Handle(self, maxAdu, m', r).pdu;
    assert pdu[3..] == RegBytes(regs);
    RegBytesBack(DataOf(w), QtyOf(w));
  }

  lemma {:induction false} RegBytesBack(s: seq<byte>, n: nat)
    requires |s| == 2 * n
    ensures RegBytes(BytesRegs(s, n)) == s
    decreases n
  {
    if n > 0 {
      var init := s[..2 * n - 2];
      assert BytesRegs(s, n)[..n - 1] == BytesRegs(init, n - 1);
      RegBytesBack(init, n - 1);
      BytesOfWord(s[2 * n - 2], s[2 * n - 1]);
      hide HighByte, LowByte, Word;
      assert s == init + [s[2 * n - 2], s[2 * n - 1]];
    }
  }

  // ---------- requests by their bytes ----------

  /** The address and the quantity or value of a request, most significant byte first. */
  predicate Asks(f: seq<byte>, fc: byte, start: nat, qty: nat) {
    && 8 <= |f| && f[1] == fc
    && start == 256 * (f[2] as int) + (f[3] as int) && qty == 256 * (f[4] as int) + (f[5] as int)
  }

  lemma AsksIs(f: seq<byte>, fc: byte, start: nat, qty: nat)
    requires Asks(f, fc, start, qty)
    ensures f[1] == fc && StartOf(f) == start && QtyOf(f) == qty
  {
  }

  /** The bit table that function codes 1 and 2 read. */
  function BitsRead(m: Map, fc: byte): seq<bool>
    requires fc in {1, 2}
  {
    if fc == 1 then m.coils else m.discretes
  }

  function RegsRead(m: Map, fc: byte): seq<bv16>
    requires fc in {3, 4}
  {
    if fc == 3 then m.holding else m.inputs
  }

  /** A read of coils or discrete inputs: 1 to 2000 of them, all within the table, with a response that
      fits the buffer, are spelled eight to a byte from the least significant bit on, with zeroes behind
      the last; anything else is refused, a bad quantity before a bad address. */
  lemma BitsAreSpelled(self: byte, maxAdu: nat, m: Map, f: seq<byte>, fc: byte, start: nat, qty: nat)
    requires |f| == 8 && Asks(f, fc, start, qty) && fc in {1, 2}
    ensures var pdu, table, n := Handle(self, maxAdu, m, f).pdu, BitsRead(m, fc), (qty + 7) / 8;
            if !(1 <= qty <= 2000) then pdu == [self, fc + 0x80, 3]
            else if |table| < start + qty then pdu == [self, fc + 0x80, 2]
            else if maxAdu < n + 5 then pdu == [self, fc + 0x80, 3]
            else
              && |pdu| == 3 + n && pdu[..2] == [self, fc] && Counts(pdu[2], n)
              && SpellsBits(pdu[3..], table, start, qty)
  {
    AsksIs(f, fc, start, qty);
    ReadsBits(self, maxAdu, m, f);
    hide *;
    BitsReply(self, maxAdu, BitsRead(m, fc), f, start, qty);
  }

  lemma BitsReply(self: byte, maxAdu: nat, table: seq<bool>, f: seq<byte>, start: nat, qty: nat)
    requires |f| == 8 && f[1] < 0x80 && StartOf(f) == start && QtyOf(f) == qty
    ensures var pdu, n := ReadBits(self, maxAdu, table, f), (qty + 7) / 8;
            if !(1 <= qty <= 2000) then pdu == [self, f[1] + 0x80, 3]
            else if |table| < start + qty then pdu == [self, f[1] + 0x80, 2]
            else if maxAdu < n + 5 then pdu == [self, f[1] + 0x80, 3]
            else
              && |pdu| == 3 + n && pdu[..2] == [self, f[1]] && Counts(pdu[2], n)
              && SpellsBits(pdu[3..], table, start, qty)
  {
    hide StartOf, QtyOf, Exception, Counts, CountByte, SpellsBits, Pack;
    ExceptionIs(self, f[1], 2);
    ExceptionIs(self, f[1], 3);
    if 1 <= qty <= 2000 && start + qty <= |table| && (qty + 7) / 8 + 5 <= maxAdu {
      PackSpells(table, start, qty);
      CountByteIs((qty + 7) / 8);
      Headed([self, f[1], CountByte((qty + 7) / 8)], Pack(table[start..start + qty]));
    }
  }

  lemma ReadsBits(self: byte, maxAdu: nat, m: Map, f: seq<byte>)
    requires 4 <= |f| && f[1] in {1, 2}
    ensures Handle(self, maxAdu, m, f).pdu == ReadBits(self, maxAdu, BitsRead(m, f[1]), f)
  {
    hide ReadBits;
  }

  lemma ReadsRegs(self: byte, maxAdu: nat, m: Map, f: seq<byte>)
    requires 4 <= |f| && f[1] in {3, 4}
    ensures Handle(self, maxAdu, m, f).pdu == ReadRegs(self, maxAdu, RegsRead(m, f[1]), f)
  {
    hide ReadRegs;
  }

  /** A byte that counts `n`. */
  predicate Counts(b: byte, n: nat) {
    n < 0x100 && b == n as byte
  }

  lemma CountByteIs(n: nat)
    requires n < 0x100
    ensures Counts(CountByte(n), n)
  {
  }

  lemma Headed(head: seq<byte>, rest: seq<byte>)
    requires |head| == 3
    ensures (head + rest)[..2] == head[..2] && (head + rest)[2] == head[2] && (head + rest)[3..] == rest
  {
  }

  /** Bit `i` of a run is bit `i % 8` of byte `i / 8`, counted from the least significant one. */
  predicate BitIn(s: seq<byte>, i: nat)
    requires i < 8 * |s|
  {
    (s[i / 8] >> (i % 8)) & 1 == 1
  }

  lemma AtIsBit(s: seq<byte>, i: nat)
    requires i < 8 * |s|
    ensures At(s, i) <==> BitIn(s, i)
  {
    hide Get;
    GetIsShift(s[i / 8], i % 8);
  }

  ghost predicate SpellsBits(s: seq<byte>, table: seq<bool>, start: nat, qty: nat)
    requires start + qty <= |table|
  {
    && |s| == (qty + 7) / 8
    && forall i: nat {:trigger BitIn(s, i)} :: i < 8 * |s| ==> (BitIn(s, i) <==> i < qty && table[start + i])
  }

  lemma PackSpells(table: seq<bool>, start: nat, qty: nat)
    requires start + qty <= |table|
    ensures SpellsBits(Pack(table[start..start + qty]), table, start, qty)
  {
    var bits := table[start..start + qty];
    var s := Pack(bits);
    PackPacks(bits);
    hide BitIn, Get;
    forall i: nat | i < 8 * |s|
      ensures BitIn(s, i) <==> i < qty && table[start + i]
    {
      assert At(s, i) == (i < qty && bits[i]);
      AtIsBit(s, i);
    }
  }

  lemma ExceptionIs(self: byte, fc: byte, code: byte)
    requires fc < 0x80
    ensures Exception(self, fc, code) == [self, fc + 0x80, code]
  {
  }

  /** A read of holding or input registers: 1 to 125 of them, spelled most significant byte first. */
  lemma RegsAreSpelled(self: byte, maxAdu: nat, m: Map, f: seq<byte>, fc: byte, start: nat, qty: nat)
    requires |f| == 8 && Asks(f, fc, start, qty) && fc in {3, 4}
    ensures var pdu, table := Handle(self, maxAdu, m, f).pdu, RegsRead(m, fc);
            if !(1 <= qty <= 125) then pdu == [self, fc + 0x80, 3]
            else if |table| < start + qty then pdu == [self, fc + 0x80, 2]
            else if maxAdu < 2 * qty + 5 then pdu == [self, fc + 0x80, 3]
            else
              && |pdu| == 3 + 2 * qty && pdu[..2] == [self, fc] && Counts(pdu[2], 2 * qty)
              && SpellsRegs(pdu[3..], table[start..start + qty])
  {
    AsksIs(f, fc, start, qty);
    ReadsRegs(self, maxAdu, m, f);
    hide *;
    RegsReply(self, maxAdu, RegsRead(m, fc), f, start, qty);
  }

  lemma RegsReply(self: byte, maxAdu: nat, table: seq<bv16>, f: seq<byte>, start: nat, qty: nat)
    requires |f| == 8 && f[1] < 0x80 && StartOf(f) == start && QtyOf(f) == qty
    ensures var pdu := ReadRegs(self, maxAdu, table, f);
            if !(1 <= qty <= 125) then pdu == [self, f[1] + 0x80, 3]
            else if |table| < start + qty then pdu == [self, f[1] + 0x80, 2]
            else if maxAdu < 2 * qty + 5 then pdu == [self, f[1] + 0x80, 3]
            else
              && |pdu| == 3 + 2 * qty && pdu[..2] == [self, f[1]] && Counts(pdu[2], 2 * qty)
              && SpellsRegs(pdu[3..], table[start..start + qty])
  {
    hide StartOf, QtyOf, Exception, Counts, CountByte, SpellsRegs, RegBytes;
    ExceptionIs(self, f[1], 2);
    ExceptionIs(self, f[1], 3);
    if 1 <= qty <= 125 && start + qty <= |table| && 2 * qty + 5 <= maxAdu {
      RegBytesSpell(table[start..start + qty]);
      CountByteIs(2 * qty);
      Headed([self, f[1], CountByte(2 * qty)], RegBytes(table[start..start + qty]));
    }
  }

  /** The two bytes of a register, the most significant one first. */
  predicate Spells(hi: byte, lo: byte, w: bv16) {
    ((hi as bv16) << 8) | (lo as bv16) == w
  }

  ghost predicate SpellsRegs(s: seq<byte>, regs: seq<bv16>) {
    && |s| == 2 * |regs|
    && forall i {:trigger regs[i]} :: 0 <= i < |regs| ==> Spells(s[2 * i], s[2 * i + 1], regs[i])
  }

  lemma {:induction false} RegBytesSpell(regs: seq<bv16>)
    ensures SpellsRegs(RegBytes(regs), regs)
  {
    hide Spells, HighByte, LowByte;
    if regs != [] {
      RegBytesSpell(regs[..|regs| - 1]);
      BytesOfReg(regs[|regs| - 1]);
    }
  }

  lemma BytesOfReg(w: bv16)
    ensures Spells(HighByte(w), LowByte(w), w)
  {
  }

  /** A single coil is switched on by FF00, off by 0000 and by nothing else. */
  lemma SingleCoil(self: byte, maxAdu: nat, m: Map, f: seq<byte>, start: nat, value: nat)
    requires |f| == 8 && Asks(f, 5, start, value)
    ensures var o := Handle(self, maxAdu, m, f);
            if value != 0xFF00 && value != 0 then o == Outcome(m, [self, 0x85, 3])
            else if |m.coils| <= start then o == Outcome(m, [self, 0x85, 2])
            else o == Outcome(m.(coils := m.coils[start := value == 0xFF00]), [self] + f[1..6])
  {
    AsksIs(f, 5, start, value);
    ExceptionIs(self, 5, 2);
    ExceptionIs(self, 5, 3);
    EchoIs(self, f);
    hide StartOf, QtyOf, Exception, Echo;
  }

  lemma EchoIs(self: byte, f: seq<byte>)
    requires 8 <= |f|
    ensures Echo(self, f) == [self] + f[1..6]
  {
  }

  /** A single register takes the two bytes of the request, most significant one first. */
  lemma SingleReg(self: byte, maxAdu: nat, m: Map, f: seq<byte>, start: nat, value: nat)
    requires |f| == 8 && Asks(f, 6, start, value)
    ensures var o := Handle(self, maxAdu, m, f);
            if |m.holding| <= start then o == Outcome(m, [self, 0x86, 2])
            else
              && o.pdu == [self] + f[1..6] && |o.after.holding| == |m.holding|
              && SpellsRegs(f[4..6], o.after.holding[start..start + 1])
              && o.after == m.(holding := m.holding[start := o.after.holding[start]])
  {
    AsksIs(f, 6, start, value);
    assert Handle(self, maxAdu, m, f) == WriteReg(self, m, f) by { hide WriteReg; }
    hide *;
    RegStored(self, m, f, start);
  }

  lemma RegStored(self: byte, m: Map, f: seq<byte>, start: nat)
    requires |f| == 8 && f[1] < 0x80 && StartOf(f) == start
    ensures var o := WriteReg(self, m, f);
            if |m.holding| <= start then o == Outcome(m, [self, f[1] + 0x80, 2])
            else
              && o.pdu == [self] + f[1..6] && |o.after.holding| == |m.holding|
              && SpellsRegs(f[4..6], o.after.holding[start..start + 1])
              && o.after == m.(holding := m.holding[start := o.after.holding[start]])
  {
    ExceptionIs(self, f[1], 2);
    EchoIs(self, f);
    WordSpells(f[4], f[5]);
    hide StartOf, Exception, Echo, Spells, Word;
  }

  lemma WordSpells(hi: byte, lo: byte)
    ensures Spells(hi, lo, Word(hi, lo))
  {
  }

  /** A run of coils, 1 to 1968 of them with a byte count to match, takes the bits of the request, from
      the least significant bit of its first data byte on. A frame of another length is dropped. */
  lemma ManyCoils(self: byte, maxAdu: nat, m: Map, f: seq<byte>, start: nat, qty: nat)
    requires 9 <= |f| && Asks(f, 15, start, qty)
    ensures var o, n := Handle(self, maxAdu, m, f), (qty + 7) / 8;
            if !(1 <= qty <= 1968 && CountOf(f[6]) == n) then o == Outcome(m, [self, 0x8F, 3])
            else if |f| != n + 9 then o == Outcome(m, [])
            else if |m.coils| < start + qty then o == Outcome(m, [self, 0x8F, 2])
            else
              && o.pdu == [self] + f[1..6] && o.after == m.(coils := o.after.coils)
              && TakesBits(o.after.coils, m.coils, f[7..], start, qty)
  {
    AsksIs(f, 15, start, qty);
    assert Handle(self, maxAdu, m, f) == WriteCoils(self, m, f) by { hide WriteCoils; }
    hide *;
    CoilsStored(self, m, f, start, qty);
  }

  /** `t` is `old` with `qty` entries from `start` on taken from the bits of `data`. */
  ghost predicate TakesBits(t: seq<bool>, was: seq<bool>, data: seq<byte>, start: nat, qty: nat) {
    && qty <= 8 * |data| && |t| == |was|
    && forall i {:trigger t[i]} :: 0 <= i < |t| ==>
         if start <= i < start + qty then t[i] <==> BitIn(data, i - start) else t[i] == was[i]
  }

  lemma CoilsStored(self: byte, m: Map, f: seq<byte>, start: nat, qty: nat)
    requires 9 <= |f| && f[1] < 0x80 && StartOf(f) == start && QtyOf(f) == qty
    ensures var o, n := WriteCoils(self, m, f), (qty + 7) / 8;
            if !(1 <= qty <= 1968 && CountOf(f[6]) == n) then o == Outcome(m, [self, f[1] + 0x80, 3])
            else if |f| != n + 9 then o == Outcome(m, [])
            else if |m.coils| < start + qty then o == Outcome(m, [self, f[1] + 0x80, 2])
            else
              && o.pdu == [self] + f[1..6] && o.after == m.(coils := o.after.coils)
              && TakesBits(o.after.coils, m.coils, f[7..], start, qty)
  {
    ExceptionIs(self, f[1], 2);
    ExceptionIs(self, f[1], 3);
    CoilsRefused(self, m, f, start, qty);
    hide WriteCoils, StartOf, QtyOf, Exception, Echo, CountOf, Overwrite, Unpack, BytesRegs, TakesBits, DataOf;
    if 1 <= qty <= 1968 && CountOf(f[6]) == (qty + 7) / 8 && |f| == (qty + 7) / 8 + 9 && start + qty <= |m.coils| {
      EchoIs(self, f);
      DataIs(f);
      CoilsTaken(self, m, f, start, qty);
      OverwriteTakes(m.coils, start, f[7..], DataOf(f), qty);
    }
  }

  lemma CoilsRefused(self: byte, m: Map, f: seq<byte>, start: nat, qty: nat)
    requires 9 <= |f| && StartOf(f) == start && QtyOf(f) == qty
    ensures var o := WriteCoils(self, m, f);
            && (!(1 <= qty <= 1968 && CountOf(f[6]) == (qty + 7) / 8) ==> o == Outcome(m, Exception(self, f[1], 3)))
            && (1 <= qty <= 1968 && CountOf(f[6]) == (qty + 7) / 8 ==>
                  && (|f| != (qty + 7) / 8 + 9 ==> o == Outcome(m, []))
                  && (|f| == (qty + 7) / 8 + 9 && |m.coils| < start + qty ==>
                        o == Outcome(m, Exception(self, f[1], 2))))
  {
    hide StartOf, QtyOf, Exception, Echo, CountOf, Overwrite, Unpack, BytesRegs, DataOf;
  }

  lemma CoilsTaken(self: byte, m: Map, f: seq<byte>, start: nat, qty: nat)
    requires 9 <= |f| && StartOf(f) == start && QtyOf(f) == qty && 1 <= qty <= 1968 && start + qty <= |m.coils|
    requires CountOf(f[6]) == (qty + 7) / 8 && |f| == (qty + 7) / 8 + 9
    ensures WriteCoils(self, m, f)
            == Outcome(m.(coils := Overwrite(m.coils, start, Unpack(DataOf(f), qty))), Echo(self, f))
  {
    hide StartOf, QtyOf, Exception, Echo, CountOf, Overwrite, Unpack, BytesRegs;
  }

  lemma DataIs(f: seq<byte>)
    requires 9 <= |f|
    ensures DataOf(f) == f[7..][..|f| - 9]
  {
  }

  lemma OverwriteTakes(was: seq<bool>, start: nat, data: seq<byte>, part: seq<byte>, qty: nat)
    requires start + qty <= |was| && qty <= 8 * |part| && part <= data
    ensures TakesBits(Overwrite(was, start, Unpack(part, qty)), was, data, start, qty)
  {
    var bits := Unpack(part, qty);
    var t := Overwrite(was, start, bits);
    hide Overwrite, Unpack, BitIn, Get;
    forall i | 0 <= i < |t|
      ensures if start <= i < start + qty then t[i] <==> BitIn(data, i - start) else t[i] == was[i]
    {
      if start <= i < start + qty {
        assert bits[i - start] == At(part, i - start);
        AtIsBit(data, i - start);
        assert At(data, i - start) == At(part, i - start);
      }
    }
  }

  /** The same for 1 to 123 registers, two bytes each, the most significant one first. */
  lemma ManyRegs(self: byte, maxAdu: nat, m: Map, f: seq<byte>, start: nat, qty: nat)
    requires 9 <= |f| && Asks(f, 16, start, qty)
    ensures var o := Handle(self, maxAdu, m, f);
            if !(1 <= qty <= 123 && CountOf(f[6]) == 2 * qty) then o == Outcome(m, [self, 0x90, 3])
            else if |f| != 2 * qty + 9 then o == Outcome(m, [])
            else if |m.holding| < start + qty then o == Outcome(m, [self, 0x90, 2])
            else
              && o.pdu == [self] + f[1..6] && o.after == m.(holding := o.after.holding)
              && TakesRegs(o.after.holding, m.holding, f[7..], start, qty)
  {
    AsksIs(f, 16, start, qty);
    assert Handle(self, maxAdu, m, f) == WriteRegs(self, m, f) by { hide WriteRegs; }
    hide *;
    RegsStored(self, m, f, start, qty);
  }

  ghost predicate TakesRegs(t: seq<bv16>, was: seq<bv16>, data: seq<byte>, start: nat, qty: nat) {
    && 2 * qty <= |data| && |t| == |was|
    && forall i {:trigger t[i]} :: 0 <= i < |t| ==>
         if start <= i < start + qty then Spells(data[2 * (i - start)], data[2 * (i - start) + 1], t[i])
         else t[i] == was[i]
  }

  lemma RegsStored(self: byte, m: Map, f: seq<byte>, start: nat, qty: nat)
    requires 9 <= |f| && f[1] < 0x80 && StartOf(f) == start && QtyOf(f) == qty
    ensures var o := WriteRegs(self, m, f);
            if !(1 <= qty <= 123 && CountOf(f[6]) == 2 * qty) then o == Outcome(m, [self, f[1] + 0x80, 3])
            else if |f| != 2 * qty + 9 then o == Outcome(m, [])
            else if |m.holding| < start + qty then o == Outcome(m, [self, f[1] + 0x80, 2])
            else
              && o.pdu == [self] + f[1..6] && o.after == m.(holding := o.after.holding)
              && TakesRegs(o.after.holding, m.holding, f[7..], start, qty)
  {
    ExceptionIs(self, f[1], 2);
    ExceptionIs(self, f[1], 3);
    RegsRefused(self, m, f, start, qty);
    hide WriteRegs, StartOf, QtyOf, Exception, Echo, CountOf, Overwrite, Unpack, BytesRegs, TakesRegs, DataOf;
    if 1 <= qty <= 123 && CountOf(f[6]) == 2 * qty && |f| == 2 * qty + 9 && start + qty <= |m.holding| {
      EchoIs(self, f);
      DataIs(f);
      RegsTaken(self, m, f, start, qty);
      OverwriteTakesRegs(m.holding, start, f[7..], DataOf(f), qty);
    }
  }

  lemma RegsRefused(self: byte, m: Map, f: seq<byte>, start: nat, qty: nat)
    requires 9 <= |f| && StartOf(f) == start && QtyOf(f) == qty
    ensures var o := WriteRegs(self, m, f);
            && (!(1 <= qty <= 123 && CountOf(f[6]) == 2 * qty) ==> o == Outcome(m, Exception(self, f[1], 3)))
            && (1 <= qty <= 123 && CountOf(f[6]) == 2 * qty ==>
                  && (|f| != 2 * qty + 9 ==> o == Outcome(m, []))
                  && (|f| == 2 * qty + 9 && |m.holding| < start + qty ==> o == Outcome(m, Exception(self, f[1], 2))))
  {
    hide StartOf, QtyOf, Exception, Echo, CountOf, Overwrite, Unpack, BytesRegs, DataOf;
  }

  lemma RegsTaken(self: byte, m: Map, f: seq<byte>, start: nat, qty: nat)
    requires 9 <= |f| && StartOf(f) == start && QtyOf(f) == qty && 1 <= qty <= 123 && start + qty <= |m.holding|
    requires CountOf(f[6]) == 2 * qty && |f| == 2 * qty + 9
    ensures WriteRegs(self, m, f)
            == Outcome(m.(holding := Overwrite(m.holding, start, BytesRegs(DataOf(f), qty))), Echo(self, f))
  {
    hide StartOf, QtyOf, Exception, Echo, CountOf, Overwrite, Unpack, BytesRegs;
  }

  lemma OverwriteTakesRegs(was: seq<bv16>, start: nat, data: seq<byte>, part: seq<byte>, qty: nat)
    requires start + qty <= |was| && 2 * qty <= |part| && part <= data
    ensures TakesRegs(Overwrite(was, start, BytesRegs(part, qty)), was, data, start, qty)
  {
    var regs := BytesRegs(part, qty);
    var t := Overwrite(was, start, regs);
    hide Overwrite, BytesRegs, Word, Spells;
    forall i | 0 <= i < |t|
      ensures if start <= i < start + qty then Spells(data[2 * (i - start)], data[2 * (i - start) + 1], t[i])
              else t[i] == was[i]
    {
      if start <= i < start + qty {
        assert t[i] == regs[i - start];
        WordSpells(data[2 * (i - start)], data[2 * (i - start) + 1]);
      }
    }
  }

  /** Any other function code is refused, and a request of a wrong length is dropped. */
  lemma OtherRequests(self: byte, maxAdu: nat, m: Map, f: seq<byte>)
    requires 4 <= |f|
    ensures f[1] !in {1, 2, 3, 4, 5, 6, 15, 16} ==> Handle(self, maxAdu, m, f) == Outcome(m, [self, f[1] | 0x80, 1])
    ensures 1 <= f[1] <= 6 && |f| != 8 ==> Handle(self, maxAdu, m, f) == Outcome(m, [])
    ensures f[1] in {15, 16} && |f| < 9 ==> Handle(self, maxAdu, m, f) == Outcome(m, [])
  {
  }

  /** Who is served: a frame of at least four bytes with a valid CRC, addressed to this slave, which
      answers whenever there is an answer, or to all, which it never does. */
  lemma WhoIsServed(self: byte, maxAdu: nat, m: Map, f: seq<byte>)
    ensures var (after, r) := Serve(self, maxAdu, m, f);
            if 4 <= |f| && CrcOk(Modbus, f) && f[0] in {0, self} then
              var o := Handle(self, maxAdu, m, f);
              && after == o.after
              && (r.NoReply? <==> o.pdu == [] || f[0] == 0)
              && (r.Reply? ==> |r.frame| == |o.pdu| + 2 && r.frame[..|o.pdu|] == o.pdu)
            else after == m && r.NoReply?
  {
    hide Handle, CrcOk, Crc, First, Second;
  }

  /** What an accepted single write has stored, a read of that one entry returns. */
  lemma SingleCoilReadsBack(self: byte, maxAdu: nat, m: Map, w: seq<byte>, r: seq<byte>, start: nat, value: nat)
    requires |w| == 8 && |r| == 8 && Asks(w, 5, start, value) && Asks(r, 1, start, 1) && 6 <= maxAdu
    requires start < |m.coils| && value in {0xFF00, 0}
    ensures Handle(self, maxAdu, Handle(self, maxAdu, m, w).after, r).pdu
            == [self, 1, 1, if value == 0xFF00 then 1 else 0]
  {
    SingleCoil(self, maxAdu, m, w, start, value);
    var m' := Handle(self, maxAdu, m, w).after;
    assert m'.coils[start + 0] == (value == 0xFF00);
    BitsAreSpelled(self, maxAdu, m', r, 1, start, 1);
    var pdu := Handle(self, maxAdu, m', r).pdu;
    hide Handle, Asks;
    OneBit(pdu[3..], m'.coils, start);
    assert pdu == pdu[..3] + pdu[3..];
  }

  lemma OneBit(s: seq<byte>, table: seq<bool>, start: nat)
    requires start < |table| && SpellsBits(s, table, start, 1)
    ensures s == [if table[start] then 1 else 0]
  {
    var c: byte := if table[start] then 1 else 0;
    hide Get;
    forall k: nat | k < 8
      ensures Get(s[0], k) == Get(c, k)
    {
      assert BitIn(s, k) == (k == 0 && table[start]);
      GetIsShift(s[0], k);
      GetIsShift(c, k);
      OneOrNone(k);
    }
    SameBits(s[0], c);
  }

  lemma OneOrNone(k: nat)
    requires k < 8
    ensures ((1 as byte) >> k) & 1 == 1 <==> k == 0
    ensures ((0 as byte) >> k) & 1 == 0
  {
    if k == 0 {} else if k == 1 {} else if k == 2 {} else if k == 3 {}
    else if k == 4 {} else if k == 5 {} else if k == 6 {} else {}
  }

  lemma SingleRegReadsBack(self: byte, maxAdu: nat, m: Map, w: seq<byte>, r: seq<byte>, start: nat, value: nat)
    requires |w| == 8 && |r| == 8 && Asks(w, 6, start, value) && Asks(r, 3, start, 1) && 7 <= maxAdu
    requires start < |m.holding|
    ensures Handle(self, maxAdu, Handle(self, maxAdu, m, w).after, r).pdu == [self, 3, 2, w[4], w[5]]
  {
    hide Handle, Asks, SpellsRegs, Counts;
    SingleReg(self, maxAdu, m, w, start, value);
    var m' := Handle(self, maxAdu, m, w).after;
    RegsAreSpelled(self, maxAdu, m', r, 3, start, 1);
    var pdu := Handle(self, maxAdu, m', r).pdu;
    CountsTwo(pdu[2]);
    SameSpelling(pdu[3..], w[4..6], m'.holding[start..start + 1]);
    assert pdu == pdu[..3] + pdu[3..];
  }

  lemma CountsTwo(b: byte)
    requires Counts(b, 2)
    ensures b == 2
  {
  }

  lemma SameSpelling(s: seq<byte>, t: seq<byte>, regs: seq<bv16>)
    requires SpellsRegs(s, regs) && SpellsRegs(t, regs)
    ensures s == t
  {
    hide Spells;
    forall i | 0 <= i < |regs|
      ensures s[2 * i] == t[2 * i] && s[2 * i + 1] == t[2 * i + 1]
    {
      SameHalves(s[2 * i], s[2 * i + 1], t[2 * i], t[2 * i + 1], regs[i]);
    }
    forall j | 0 <= j < |s|
      ensures s[j] == t[j]
    {
      assert j == 2 * (j / 2) + j % 2;
    }
  }

  lemma SameHalves(a: byte, b: byte, c: byte, d: byte, w: bv16)
    requires Spells(a, b, w) && Spells(c, d, w)
    ensures a == c && b == d
  {
  }
}
