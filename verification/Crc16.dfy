/** The two CRC-16 variants of the repository, both with initial value 0xFFFF, and what they detect:
    Modbus (reflected polynomial 0xA001, low byte sent first) and the settings store's CCITT
    (polynomial 0x1021, high byte stored first). */
module Crc16 {
  import opened Bytes
  import opened Xor16

  datatype Variant = Modbus | Ccitt

  /** The bit about to be shifted out. */
  predicate Out(v: Variant, c: bv16) {
    match v case Modbus => c & 1 == 1 case Ccitt => c & 0x8000 != 0
  }

  function Shift(v: Variant, c: bv16): bv16 {
    match v case Modbus => c >> 1 case Ccitt => c << 1
  }

  function Poly(v: Variant): bv16 {
    match v case Modbus => 0xA001 case Ccitt => 0x1021
  }

  /** One bit step of the register. */
  function CrcBit(v: Variant, c: bv16): bv16 {
    if Out(v, c) then Xor(Shift(v, c), Poly(v)) else Shift(v, c)
  }

  function Crc8(v: Variant, c: bv16): bv16 {
    CrcBit(v, CrcBit(v, CrcBit(v, CrcBit(v, CrcBit(v, CrcBit(v, CrcBit(v, CrcBit(v, c))))))))
  }

  /** Where a data byte enters the register. */
  function Enter(v: Variant, b: byte): bv16 {
    match v case Modbus => b as bv16 case Ccitt => (b as bv16) << 8
  }

  function CrcByte(v: Variant, c: bv16, b: byte): bv16 {
    Crc8(v, Xor(c, Enter(v, b)))
  }

  /** The register after the bytes of `s`. */
  function Crc(v: Variant, s: seq<byte>): bv16 {
    if s == [] then 0xFFFF else CrcByte(v, Crc(v, s[..|s| - 1]), s[|s| - 1])
  }

  function Low(c: bv16): byte {
    (c & 0xFF) as byte
  }

  function High(c: bv16): byte {
    (c >> 8) as byte
  }

  /** The register as the two bytes appended to the data. */
  function First(v: Variant, c: bv16): byte {
    match v case Modbus => Low(c) case Ccitt => High(c)
  }

  function Second(v: Variant, c: bv16): byte {
    match v case Modbus => High(c) case Ccitt => Low(c)
  }

  /** `s` with its CRC appended. */
  function Sealed(v: Variant, s: seq<byte>): seq<byte> {
    s + [First(v, Crc(v, s)), Second(v, Crc(v, s))]
  }

  /** The reader's check: the last two bytes are the CRC of the rest. */
  predicate CrcOk(v: Variant, s: seq<byte>) {
    2 <= |s| &&
    var n := |s| - 2;
    s[n] == First(v, Crc(v, s[..n])) && s[n + 1] == Second(v, Crc(v, s[..n]))
  }

  // ---------- one bit, one byte ----------

  lemma ShiftLinear(v: Variant, a: bv16, b: bv16)
    ensures Shift(v, Xor(a, b)) == Xor(Shift(v, a), Shift(v, b))
  {
    match v {
      case Modbus =>
      case Ccitt =>
    }
  }

  lemma OutLinear(v: Variant, a: bv16, b: bv16)
    ensures Out(v, Xor(a, b)) <==> Out(v, a) != Out(v, b)
  {
    match v {
      case Modbus =>
      case Ccitt =>
    }
  }

  lemma CrcBitIs(v: Variant, c: bv16)
    ensures CrcBit(v, c) == if Out(v, c) then Xor(Shift(v, c), Poly(v)) else Shift(v, c)
  {
    hide Out, Shift, Poly, Xor;
  }

  lemma BitLinear(v: Variant, a: bv16, b: bv16)
    ensures CrcBit(v, Xor(a, b)) == Xor(CrcBit(v, a), CrcBit(v, b))
  {
    hide Xor, Out, Shift, Poly;
    var x, y, p := Shift(v, a), Shift(v, b), Poly(v);
    ShiftLinear(v, a, b);
    OutLinear(v, a, b);
    XorAssoc(x, y, p);
    XorAssoc(x, p, y);
    XorComm(y, p);
    Regroup(x, y, p, p);
    XorZero(p, p);
    XorComm(Xor(x, y), 0);
    XorWithZero(Xor(x, y));
  }

  lemma BitNonzero(v: Variant, c: bv16)
    ensures CrcBit(v, c) == 0 <==> c == 0
  {
    match v {
      case Modbus =>
      case Ccitt =>
    }
  }

  lemma Crc8Linear(v: Variant, a: bv16, b: bv16)
    ensures Crc8(v, Xor(a, b)) == Xor(Crc8(v, a), Crc8(v, b))
  {
    hide CrcBit, Xor;
    var a1, b1 := CrcBit(v, a), CrcBit(v, b);
    var a2, b2 := CrcBit(v, a1), CrcBit(v, b1);
    var a3, b3 := CrcBit(v, a2), CrcBit(v, b2);
    var a4, b4 := CrcBit(v, a3), CrcBit(v, b3);
    var a5, b5 := CrcBit(v, a4), CrcBit(v, b4);
    var a6, b6 := CrcBit(v, a5), CrcBit(v, b5);
    var a7, b7 := CrcBit(v, a6), CrcBit(v, b6);
    BitLinear(v, a, b);
    BitLinear(v, a1, b1);
    BitLinear(v, a2, b2);
    BitLinear(v, a3, b3);
    BitLinear(v, a4, b4);
    BitLinear(v, a5, b5);
    BitLinear(v, a6, b6);
    BitLinear(v, a7, b7);
  }

  lemma Crc8Nonzero(v: Variant, c: bv16)
    ensures Crc8(v, c) == 0 <==> c == 0
  {
    hide CrcBit;
    var c1 := CrcBit(v, c);
    var c2 := CrcBit(v, c1);
    var c3 := CrcBit(v, c2);
    var c4 := CrcBit(v, c3);
    var c5 := CrcBit(v, c4);
    var c6 := CrcBit(v, c5);
    var c7 := CrcBit(v, c6);
    BitNonzero(v, c);
    BitNonzero(v, c1);
    BitNonzero(v, c2);
    BitNonzero(v, c3);
    BitNonzero(v, c4);
    BitNonzero(v, c5);
    BitNonzero(v, c6);
    BitNonzero(v, c7);
  }

  lemma Crc8Injective(v: Variant, a: bv16, b: bv16)
    requires Crc8(v, a) == Crc8(v, b)
    ensures a == b
  {
    hide Crc8, Xor;
    Crc8Linear(v, a, b);
    XorZero(Crc8(v, a), Crc8(v, b));
    Crc8Nonzero(v, Xor(a, b));
    XorZero(a, b);
  }

  /** A byte in the half that data does not enter. */
  function Opposite(v: Variant, b: byte): bv16 {
    match v case Modbus => (b as bv16) << 8 case Ccitt => b as bv16
  }

  /** Eight steps move it, unchanged, to where data enters. */
  lemma Crc8OfOpposite(v: Variant, b: byte)
    ensures Crc8(v, Opposite(v, b)) == Enter(v, b)
  {
    match v {
      case Modbus =>
      case Ccitt =>
    }
  }

  /** The register after `n` bit steps. */
  function Bits(v: Variant, c: bv16, n: nat): bv16 {
    if n == 0 then c else CrcBit(v, Bits(v, c, n - 1))
  }

  lemma Crc8IsBits(v: Variant, c: bv16)
    ensures Bits(v, c, 8) == Crc8(v, c)
  {
    hide CrcBit;
    assert Bits(v, c, 1) == CrcBit(v, c);
    assert Bits(v, c, 3) == CrcBit(v, CrcBit(v, Bits(v, c, 1)));
    assert Bits(v, c, 5) == CrcBit(v, CrcBit(v, Bits(v, c, 3)));
    assert Bits(v, c, 7) == CrcBit(v, CrcBit(v, Bits(v, c, 5)));
  }

  // ---------- the residue ----------

  lemma Halves(v: Variant, c: bv16)
    ensures c == Xor(Enter(v, First(v, c)), Opposite(v, Second(v, c)))
  {
    match v {
      case Modbus =>
      case Ccitt =>
    }
  }

  lemma HalvesUnique(v: Variant, a: byte, b: byte)
    ensures First(v, Xor(Enter(v, a), Opposite(v, b))) == a && Second(v, Xor(Enter(v, a), Opposite(v, b))) == b
  {
    match v {
      case Modbus =>
      case Ccitt =>
    }
  }

  lemma HalvesIff(v: Variant, c: bv16, a: byte, b: byte)
    ensures Xor(c, Enter(v, a)) == Opposite(v, b) <==> a == First(v, c) && b == Second(v, c)
  {
    hide *;
    var e, o := Enter(v, a), Opposite(v, b);
    Halves(v, c);
    HalvesUnique(v, a, b);
    XorComm(c, e);
    XorMove(c, e, o);
  }

  /** Running the register over its own two bytes leaves zero, and no other two bytes do. */
  lemma ResidueIff(v: Variant, c: bv16, a: byte, b: byte)
    ensures CrcByte(v, CrcByte(v, c, a), b) == 0 <==> a == First(v, c) && b == Second(v, c)
  {
    hide Crc8, Xor, Opposite, First, Second, Enter;
    var x := Xor(c, Enter(v, a));
    Crc8Nonzero(v, Xor(Crc8(v, x), Enter(v, b)));
    XorZero(Crc8(v, x), Enter(v, b));
    Crc8OfOpposite(v, b);
    if Crc8(v, x) == Enter(v, b) {
      Crc8Injective(v, x, Opposite(v, b));
    }
    HalvesIff(v, c, a, b);
  }

  lemma SameSecond(v: Variant, c: bv16, d: bv16)
    requires Second(v, c) == Second(v, d)
    ensures Xor(c, d) == Enter(v, First(v, Xor(c, d)))
  {
    match v {
      case Modbus =>
      case Ccitt =>
    }
  }

  lemma EnteredApart(v: Variant, c: bv16, a: byte, b: byte, h: byte)
    requires Xor(Xor(c, Enter(v, a)), Xor(c, Enter(v, b))) == Opposite(v, h)
    ensures a == b
  {
    match v {
      case Modbus =>
      case Ccitt =>
    }
  }

  /** Different last bytes leave registers that differ in the byte stored second. */
  lemma SecondDiffers(v: Variant, c: bv16, a: byte, b: byte)
    requires a != b
    ensures Second(v, CrcByte(v, c, a)) != Second(v, CrcByte(v, c, b))
  {
    hide Crc8, Xor, Opposite, First, Second, Enter;
    if Second(v, CrcByte(v, c, a)) == Second(v, CrcByte(v, c, b)) {
      var x, y := Xor(c, Enter(v, a)), Xor(c, Enter(v, b));
      SameSecond(v, Crc8(v, x), Crc8(v, y));
      var h := First(v, Xor(Crc8(v, x), Crc8(v, y)));
      Crc8Linear(v, x, y);
      Crc8OfOpposite(v, h);
      Crc8Injective(v, Xor(x, y), Opposite(v, h));
      EnteredApart(v, c, a, b, h);
    }
  }

  lemma CrcOkIffResidue(v: Variant, s: seq<byte>)
    requires 2 <= |s|
    ensures CrcOk(v, s) <==> Crc(v, s) == 0
  {
    hide CrcByte, First, Second;
    var n := |s| - 2;
    var t := s[..n + 1];
    assert s[..|s| - 1] == t && t[..n] == s[..n];
    assert Crc(v, t) == CrcByte(v, Crc(v, s[..n]), s[n]);
    ResidueIff(v, Crc(v, s[..n]), s[n], s[n + 1]);
  }

  lemma SealedIsOk(v: Variant, s: seq<byte>)
    ensures CrcOk(v, Sealed(v, s))
  {
  }

  // ---------- one data bit at a time ----------

  /** Where a single data bit enters the register. */
  function In(v: Variant, bit: bool): bv16 {
    if !bit then 0 else match v case Modbus => 1 case Ccitt => 0x8000
  }

  /** The bit of a byte that the register takes next, and the byte left after it. */
  predicate NextBit(v: Variant, b: byte) {
    match v case Modbus => b & 1 == 1 case Ccitt => b & 0x80 != 0
  }

  function Later(v: Variant, b: byte): byte {
    match v case Modbus => b >> 1 case Ccitt => b << 1
  }

  function After(v: Variant, b: byte, k: nat): byte {
    if k == 0 then b else Later(v, After(v, b, k - 1))
  }

  /** Bit `j` of a byte string in the order the register takes them, which for Modbus is the order on
      the wire. */
  predicate BitAt(v: Variant, s: seq<byte>, j: nat)
    requires j < 8 * |s|
  {
    NextBit(v, After(v, s[j / 8], j % 8))
  }

  /** The register after the first `n` bits of `s`, taken one at a time. */
  function Serial(v: Variant, s: seq<byte>, n: nat): bv16
    requires n <= 8 * |s|
  {
    if n == 0 then 0xFFFF else CrcBit(v, Xor(Serial(v, s, n - 1), In(v, BitAt(v, s, n - 1))))
  }

  /** All bits of a byte but the next one. */
  function Rest(v: Variant, b: byte): byte {
    match v case Modbus => b & 0xFE case Ccitt => b & 0x7F
  }

  lemma EnterSplits(v: Variant, b: byte)
    ensures Enter(v, b) == Xor(In(v, NextBit(v, b)), Enter(v, Rest(v, b)))
    ensures CrcBit(v, Enter(v, Rest(v, b))) == Enter(v, Later(v, b))
  {
    match v {
      case Modbus =>
      case Ccitt =>
    }
  }

  /** A step over a whole byte is a step over its next bit, with the later bits still to come. */
  lemma StepSplits(v: Variant, c: bv16, b: byte)
    ensures CrcBit(v, Xor(c, Enter(v, b)))
            == Xor(CrcBit(v, Xor(c, In(v, NextBit(v, b)))), Enter(v, Later(v, b)))
  {
    hide *;
    var head, tail := In(v, NextBit(v, b)), Enter(v, Rest(v, b));
    EnterSplits(v, b);
    XorAssoc(c, head, tail);
    BitLinear(v, Xor(c, head), tail);
  }

  lemma FourLater(v: Variant, b: byte, k: nat)
    ensures After(v, b, k + 4) == Later(v, Later(v, Later(v, Later(v, After(v, b, k)))))
  {
    hide Later;
    assert After(v, b, k + 2) == Later(v, Later(v, After(v, b, k)));
  }

  lemma NothingLeft(v: Variant, b: byte)
    ensures Later(v, Later(v, Later(v, Later(v, Later(v, Later(v, Later(v, Later(v, b)))))))) == 0
    ensures Enter(v, 0) == 0
  {
    match v {
      case Modbus =>
      case Ccitt =>
    }
  }

  lemma EightTaken(v: Variant, b: byte)
    ensures Enter(v, After(v, b, 8)) == 0
  {
    hide Later, Enter;
    FourLater(v, b, 0);
    FourLater(v, b, 4);
    NothingLeft(v, b);
  }

  lemma SerialNext(v: Variant, s: seq<byte>, m: nat, k: nat)
    requires m < |s| && k < 8
    ensures Serial(v, s, 8 * m + (k + 1))
            == CrcBit(v, Xor(Serial(v, s, 8 * m + k), In(v, NextBit(v, After(v, s[m], k)))))
  {
    hide CrcBit, Xor, In, NextBit, After;
    var j := 8 * m + k;
    assert j / 8 == m && j % 8 == k;
  }

  /** Inside a byte the bytewise register is the bitwise one plus the bits still to come. */
  lemma {:induction false} SerialInByte(v: Variant, s: seq<byte>, m: nat, k: nat)
    requires m < |s| && k <= 8
    ensures Bits(v, Xor(Serial(v, s, 8 * m), Enter(v, s[m])), k)
            == Xor(Serial(v, s, 8 * m + k), Enter(v, After(v, s[m], k)))
  {
    hide CrcBit, Xor, In, NextBit, Later, Enter, Serial;
    if k > 0 {
      SerialInByte(v, s, m, k - 1);
      SerialNext(v, s, m, k - 1);
      StepSplits(v, Serial(v, s, 8 * m + (k - 1)), After(v, s[m], k - 1));
    }
  }

  lemma SameStart(v: Variant, s: seq<byte>)
    ensures Serial(v, s, 0) == Crc(v, s[..0])
  {
  }

  lemma SerialByte(v: Variant, s: seq<byte>, m: nat)
    requires m < |s|
    ensures Serial(v, s, 8 * (m + 1)) == Crc8(v, Xor(Serial(v, s, 8 * m), Enter(v, s[m])))
  {
    hide *;
    var r := Serial(v, s, 8 * m + 8);
    SerialInByte(v, s, m, 8);
    EightTaken(v, s[m]);
    Crc8IsBits(v, Xor(Serial(v, s, 8 * m), Enter(v, s[m])));
    XorComm(r, 0);
    XorWithZero(r);
  }

  lemma CrcNext(v: Variant, s: seq<byte>, m: nat)
    requires m < |s|
    ensures Crc(v, s[..m + 1]) == Crc8(v, Xor(Crc(v, s[..m]), Enter(v, s[m])))
  {
    hide Crc8, Xor, Enter;
    assert s[..m + 1][..m] == s[..m];
  }

  /** Taking the data bit by bit gives the same register as taking it byte by byte. */
  lemma {:induction false} SerialIsCrc(v: Variant, s: seq<byte>, m: nat)
    requires m <= |s|
    ensures Serial(v, s, 8 * m) == Crc(v, s[..m])
  {
    hide *;
    if m == 0 {
      SameStart(v, s);
    } else {
      SerialIsCrc(v, s, m - 1);
      SerialByte(v, s, m - 1);
      CrcNext(v, s, m - 1);
    }
  }

  // ---------- register differences ----------

  function Shifts(v: Variant, d: bv16, k: nat): bv16
    decreases k
  {
    if k == 0 then d else Shifts(v, Shift(v, d), k - 1)
  }

  lemma {:induction false} ShiftsAdd(v: Variant, d: bv16, a: nat, b: nat)
    ensures Shifts(v, d, a + b) == Shifts(v, Shifts(v, d, a), b)
    decreases a
  {
    hide Shift;
    if a > 0 {
      ShiftsAdd(v, Shift(v, d), a - 1, b);
    }
  }

  lemma {:induction false} ShiftsOfZero(v: Variant, k: nat)
    ensures Shifts(v, 0, k) == 0
  {
    assert Shift(v, 0) == 0;
    if k > 0 {
      ShiftsOfZero(v, k - 1);
    }
  }

  lemma {:induction false} ShiftsLinear(v: Variant, a: bv16, b: bv16, k: nat)
    ensures Shifts(v, Xor(a, b), k) == Xor(Shifts(v, a, k), Shifts(v, b, k))
    decreases k
  {
    hide Shift, Xor;
    if k > 0 {
      ShiftLinear(v, a, b);
      ShiftsLinear(v, Shift(v, a), Shift(v, b), k - 1);
    }
  }

  lemma ShiftsNext(v: Variant, d: bv16, k: nat)
    ensures Shifts(v, d, k + 1) == Shifts(v, Shift(v, d), k) && Shifts(v, d, 0) == d
  {
  }

  lemma FourAtOnce(v: Variant, d: bv16)
    ensures Shift(v, Shift(v, Shift(v, Shift(v, d)))) == match v case Modbus => d >> 4 case Ccitt => d << 4
  {
    match v {
      case Modbus =>
      case Ccitt =>
    }
  }

  lemma FourShifts(v: Variant, d: bv16)
    ensures Shifts(v, d, 4) == match v case Modbus => d >> 4 case Ccitt => d << 4
  {
    hide *;
    var d1 := Shift(v, d);
    var d2 := Shift(v, d1);
    var d3 := Shift(v, d2);
    ShiftsNext(v, d, 3);
    ShiftsNext(v, d1, 2);
    ShiftsNext(v, d2, 1);
    ShiftsNext(v, d3, 0);
    ShiftsNext(v, Shift(v, d3), 0);
    FourAtOnce(v, d);
  }

  /** Sixteen shifts empty the register. */
  lemma SixteenShifts(v: Variant, d: bv16)
    ensures Shifts(v, d, 16) == 0
  {
    var d1 := Shifts(v, d, 4);
    var d2 := Shifts(v, d1, 4);
    var d3 := Shifts(v, d2, 4);
    ShiftsAdd(v, d, 4, 12);
    ShiftsAdd(v, d1, 4, 8);
    ShiftsAdd(v, d2, 4, 4);
    FourShifts(v, d);
    FourShifts(v, d1);
    FourShifts(v, d2);
    FourShifts(v, d3);
    hide Shifts, Shift;
    match v {
      case Modbus =>
      case Ccitt =>
    }
  }

  /** The bit at the far end of the register, where the polynomial comes in. */
  predicate Far(v: Variant, d: bv16) {
    Out(v, Shifts(v, d, 15))
  }

  lemma FifteenShifts(v: Variant, d: bv16)
    ensures Shifts(v, d, 15)
            == Shift(v, Shift(v, Shift(v, Shifts(v, Shifts(v, Shifts(v, d, 4), 4), 4))))
  {
    hide *;
    var d1 := Shifts(v, d, 4);
    var d2 := Shifts(v, d1, 4);
    var d3 := Shifts(v, d2, 4);
    ShiftsAdd(v, d, 4, 11);
    ShiftsAdd(v, d1, 4, 7);
    ShiftsAdd(v, d2, 4, 3);
    ShiftsNext(v, d3, 2);
    ShiftsNext(v, Shift(v, d3), 1);
    ShiftsNext(v, Shift(v, Shift(v, d3)), 0);
    ShiftsNext(v, Shift(v, Shift(v, Shift(v, d3))), 0);
  }

  lemma PolyIsFar(v: Variant)
    ensures Far(v, Poly(v))
  {
    var p := Poly(v);
    FifteenShifts(v, p);
    FourShifts(v, p);
    FourShifts(v, Shifts(v, p, 4));
    FourShifts(v, Shifts(v, Shifts(v, p, 4), 4));
    hide Shifts;
    match v {
      case Modbus =>
      case Ccitt =>
    }
  }

  lemma FarFacts(v: Variant, d: bv16)
    ensures Far(v, Poly(v)) && !Far(v, Shift(v, d))
  {
    PolyIsFar(v);
    SixteenShifts(v, d);
    ShiftsNext(v, d, 15);
    ZeroFacts(v);
    hide Shifts, Shift, Poly;
  }

  lemma ZeroFacts(v: Variant)
    ensures Shift(v, 0) == 0 && !Out(v, 0) && CrcBit(v, 0) == 0
    ensures Shift(v, In(v, true)) == 0 && Shift(v, In(v, false)) == 0 && In(v, false) == 0
    ensures CrcBit(v, In(v, true)) == Poly(v)
  {
    match v {
      case Modbus =>
      case Ccitt =>
    }
  }

  /** A difference that dies within fifteen shifts has not reached the far end. */
  lemma DiesSoon(v: Variant, d: bv16, k: nat)
    requires k <= 15 && Shifts(v, d, k) == 0
    ensures !Far(v, d)
  {
    hide Shifts, Out;
    ShiftsAdd(v, d, k, 15 - k);
    ShiftsOfZero(v, 15 - k);
    ZeroFacts(v);
  }

  /** One step back, over equal or different data bits, the difference needs one shift more to die. */
  lemma StepBack(v: Variant, d: bv16, bit: bool, k: nat)
    requires k <= 15 && Shifts(v, CrcBit(v, Xor(d, In(v, bit))), k) == 0
    ensures Shifts(v, d, k + 1) == 0
  {
    hide *;
    var y := Xor(d, In(v, bit));
    ShiftsNext(v, d, k);
    DiesSoon(v, CrcBit(v, y), k);
    CrcBitIs(v, y);
    FarLinear(v, Shift(v, y), Poly(v));
    FarFacts(v, y);
    ZeroFacts(v);
    assert Shift(v, In(v, bit)) == 0;
    ShiftLinear(v, d, In(v, bit));
    XorComm(Shift(v, d), 0);
    XorWithZero(Shift(v, d));
  }

  lemma FarLinear(v: Variant, a: bv16, b: bv16)
    ensures Far(v, Xor(a, b)) <==> Far(v, a) != Far(v, b)
  {
    hide Xor, Out, Shifts;
    ShiftsLinear(v, a, b, 15);
    OutLinear(v, Shifts(v, a, 15), Shifts(v, b, 15));
  }

  /** The difference of two registers after `n` bits. */
  function Delta(v: Variant, f: seq<byte>, g: seq<byte>, n: nat): bv16
    requires |f| == |g| && n <= 8 * |f|
  {
    Xor(Serial(v, f, n), Serial(v, g, n))
  }

  lemma InLinear(v: Variant, a: bool, b: bool)
    ensures Xor(In(v, a), In(v, b)) == In(v, a != b)
  {
    ZeroFacts(v);
    hide *;
    XorSelf(In(v, a));
    XorWithZero(In(v, true));
    XorComm(In(v, true), 0);
  }

  lemma DeltaStep(v: Variant, f: seq<byte>, g: seq<byte>, n: nat)
    requires |f| == |g| && n < 8 * |f|
    ensures Delta(v, f, g, n + 1)
            == CrcBit(v, Xor(Delta(v, f, g, n), In(v, BitAt(v, f, n) != BitAt(v, g, n))))
  {
    hide CrcBit, Xor, In, BitAt;
    var a, b := In(v, BitAt(v, f, n)), In(v, BitAt(v, g, n));
    BitLinear(v, Xor(Serial(v, f, n), a), Xor(Serial(v, g, n), b));
    Regroup(Serial(v, f, n), Serial(v, g, n), a, b);
    InLinear(v, BitAt(v, f, n), BitAt(v, g, n));
  }

  /** If the registers meet after `n + k` bits, then `k` bits before their difference dies in `k`
      shifts, whatever the data bits in between. */
  lemma {:induction false} DiesBefore(v: Variant, f: seq<byte>, g: seq<byte>, n: nat, k: nat)
    requires |f| == |g| && n + k <= 8 * |f| && k <= 16 && Delta(v, f, g, n + k) == 0
    ensures Shifts(v, Delta(v, f, g, n), k) == 0
    decreases k
  {
    hide Delta, CrcBit, Xor, In, BitAt;
    if k > 0 {
      DiesBefore(v, f, g, n + 1, k - 1);
      DeltaStep(v, f, g, n);
      StepBack(v, Delta(v, f, g, n), BitAt(v, f, n) != BitAt(v, g, n), k - 1);
    }
  }

  ghost predicate EqualBits(v: Variant, f: seq<byte>, g: seq<byte>, lo: nat, hi: nat)
    requires |f| == |g| && hi <= 8 * |f|
  {
    forall j: nat {:trigger BitAt(v, g, j)} :: lo <= j < hi ==> BitAt(v, f, j) == BitAt(v, g, j)
  }

  /** Over equal bits registers stay equal, and stay different. */
  lemma {:induction false} DeltaOverSame(v: Variant, f: seq<byte>, g: seq<byte>, lo: nat, hi: nat)
    requires |f| == |g| && lo <= hi <= 8 * |f| && EqualBits(v, f, g, lo, hi)
    ensures Delta(v, f, g, lo) == 0 <==> Delta(v, f, g, hi) == 0
    decreases hi - lo
  {
    if lo < hi {
      DeltaOverSame(v, f, g, lo + 1, hi);
      assert BitAt(v, f, lo) == BitAt(v, g, lo);
      hide *;
      DeltaStep(v, f, g, lo);
      ZeroFacts(v);
      XorComm(Delta(v, f, g, lo), 0);
      XorWithZero(Delta(v, f, g, lo));
      BitNonzero(v, Delta(v, f, g, lo));
    }
  }

  // ---------- error detection ----------

  /** The strings differ, if at all, within 16 consecutive bits, from bit `i` on. */
  ghost predicate WithinBurst(v: Variant, f: seq<byte>, g: seq<byte>, i: nat) {
    |f| == |g| &&
    forall j: nat {:trigger BitAt(v, g, j)} :: j < 8 * |f| && !(i <= j < i + 16) ==> BitAt(v, f, j) == BitAt(v, g, j)
  }

  lemma Peel(v: Variant, a: byte, b: byte)
    requires NextBit(v, a) == NextBit(v, b) && Later(v, a) == Later(v, b)
    ensures a == b
  {
    match v {
      case Modbus =>
      case Ccitt =>
    }
  }

  lemma {:induction false} SameFrom(v: Variant, a: byte, b: byte, k: nat)
    requires k <= 8
    requires forall m: nat {:trigger After(v, b, m)} ::
               k <= m < 8 ==> NextBit(v, After(v, a, m)) == NextBit(v, After(v, b, m))
    ensures After(v, a, k) == After(v, b, k)
    decreases 8 - k
  {
    hide Later, NextBit;
    if k == 8 {
      EightTaken(v, a);
      EightTaken(v, b);
    } else {
      SameFrom(v, a, b, k + 1);
      Peel(v, After(v, a, k), After(v, b, k));
    }
  }

  lemma EqualBitsSameBytes(v: Variant, f: seq<byte>, g: seq<byte>)
    requires |f| == |g| && EqualBits(v, f, g, 0, 8 * |f|)
    ensures f == g
  {
    hide After, NextBit;
    forall i | 0 <= i < |f|
      ensures f[i] == g[i]
    {
      forall m: nat | m < 8
        ensures NextBit(v, After(v, f[i], m)) == NextBit(v, After(v, g[i], m))
      {
        var j := 8 * i + m;
        assert j / 8 == i && j % 8 == m;
        assert BitAt(v, f, j) == BitAt(v, g, j);
      }
      SameFrom(v, f[i], g[i], 0);
      NothingTaken(v, f[i]);
      NothingTaken(v, g[i]);
    }
  }

  lemma NothingTaken(v: Variant, b: byte)
    ensures After(v, b, 0) == b
  {
  }

  lemma {:induction false} FirstDifference(v: Variant, f: seq<byte>, g: seq<byte>, n: nat) returns (j: nat)
    requires |f| == |g| && n <= 8 * |f| && !EqualBits(v, f, g, 0, n)
    ensures j < n && BitAt(v, f, j) != BitAt(v, g, j) && EqualBits(v, f, g, 0, j)
  {
    hide BitAt;
    if EqualBits(v, f, g, 0, n - 1) {
      j := n - 1;
    } else {
      j := FirstDifference(v, f, g, n - 1);
    }
  }

  /** Registers that part at bit `j` do not meet again within the next 15 bits. */
  lemma StayApart(v: Variant, f: seq<byte>, g: seq<byte>, j: nat, e: nat)
    requires |f| == |g| && j < e <= 8 * |f| && e <= j + 16
    requires Delta(v, f, g, j) == 0 && BitAt(v, f, j) != BitAt(v, g, j)
    ensures Delta(v, f, g, e) != 0
  {
    hide *;
    if Delta(v, f, g, e) == 0 {
      DeltaStep(v, f, g, j);
      XorWithZero(In(v, true));
      ZeroFacts(v);
      DiesBefore(v, f, g, j + 1, e - (j + 1));
      DiesSoon(v, Poly(v), e - (j + 1));
      FarFacts(v, 0);
    }
  }

  /** Every error burst of at most 16 bits in a valid byte string, the CRC included, is detected,
      wherever it starts and however long the string. */
  lemma BurstDetected(v: Variant, f: seq<byte>, g: seq<byte>, i: nat)
    requires CrcOk(v, f) && WithinBurst(v, f, g, i) && f != g
    ensures !CrcOk(v, g)
  {
    var n := 8 * |f|;
    assert 2 <= |f| && f[..|f|] == f && g[..|g|] == g;
    hide *;
    if CrcOk(v, g) {
      CrcOkIffResidue(v, f);
      CrcOkIffResidue(v, g);
      SerialIsCrc(v, f, |f|);
      SerialIsCrc(v, g, |f|);
      Meet(v, f, g, n);
      if EqualBits(v, f, g, 0, n) {
        EqualBitsSameBytes(v, f, g);
      }
      var j := FirstDifference(v, f, g, n);
      DeltaOverSame(v, f, g, 0, j);
      Meet(v, f, g, 0);
      var e := BurstEnd(v, f, g, i, j);
      DeltaOverSame(v, f, g, e, n);
      StayApart(v, f, g, j, e);
    }
  }

  lemma Meet(v: Variant, f: seq<byte>, g: seq<byte>, n: nat)
    requires |f| == |g| && n <= 8 * |f|
    ensures Delta(v, f, g, n) == 0 <==> Serial(v, f, n) == Serial(v, g, n)
    ensures n == 0 ==> Delta(v, f, g, n) == 0
  {
    hide Xor;
    XorZero(Serial(v, f, n), Serial(v, g, n));
  }

  lemma BurstEnd(v: Variant, f: seq<byte>, g: seq<byte>, i: nat, j: nat) returns (e: nat)
    requires WithinBurst(v, f, g, i) && j < 8 * |f| && BitAt(v, f, j) != BitAt(v, g, j)
    ensures j < e <= 8 * |f| && e <= j + 16 && EqualBits(v, f, g, e, 8 * |f|)
  {
    assert i <= j < i + 16;
    e := if j + 16 <= 8 * |f| then j + 16 else 8 * |f|;
  }

  /** The two byte strings agree outside positions i and i + 1. */
  ghost predicate AgreeOutside(f: seq<byte>, g: seq<byte>, i: nat) {
    |f| == |g| && forall j {:trigger g[j]} :: 0 <= j < |f| && j != i && j != i + 1 ==> f[j] == g[j]
  }

  /** Damage within two adjacent bytes is a burst of at most 16 bits. */
  lemma TwoBytesAreABurst(v: Variant, f: seq<byte>, g: seq<byte>, i: nat)
    requires AgreeOutside(f, g, i)
    ensures WithinBurst(v, f, g, 8 * i)
  {
    forall j: nat | j < 8 * |f| && !(8 * i <= j < 8 * i + 16)
      ensures BitAt(v, f, j) == BitAt(v, g, j)
    {
      assert f[j / 8] == g[j / 8];
    }
  }

  /** Any alteration of a valid byte string that keeps its length and stays within two adjacent bytes,
      the CRC bytes included, is detected, however long the string. */
  lemma TwoByteErrorDetected(v: Variant, f: seq<byte>, g: seq<byte>, i: nat)
    requires CrcOk(v, f) && AgreeOutside(f, g, i) && f != g
    ensures !CrcOk(v, g)
  {
    TwoBytesAreABurst(v, f, g, i);
    BurstDetected(v, f, g, 8 * i);
  }

  // ---------- parity ----------

  /** Whether an odd number of the next `k` bits to be shifted out is set. */
  predicate OddIn(v: Variant, c: bv16, k: nat)
    decreases k
  {
    k != 0 && Out(v, c) != OddIn(v, Shift(v, c), k - 1)
  }

  predicate Odd(v: Variant, c: bv16) {
    OddIn(v, c, 16)
  }

  lemma {:induction false} OddInLinear(v: Variant, a: bv16, b: bv16, k: nat)
    ensures OddIn(v, Xor(a, b), k) <==> OddIn(v, a, k) != OddIn(v, b, k)
    decreases k
  {
    hide Out, Shift, Xor;
    if k > 0 {
      ShiftLinear(v, a, b);
      OutLinear(v, a, b);
      OddInLinear(v, Shift(v, a), Shift(v, b), k - 1);
    }
  }

  lemma {:induction false} OneFurther(v: Variant, c: bv16, k: nat)
    ensures OddIn(v, c, k + 1) <==> OddIn(v, c, k) != Out(v, Shifts(v, c, k))
    decreases k
  {
    hide Out, Shift;
    if k > 0 {
      OneFurther(v, Shift(v, c), k - 1);
    }
  }

  lemma OddLinear(v: Variant, a: bv16, b: bv16)
    ensures Odd(v, Xor(a, b)) <==> Odd(v, a) != Odd(v, b)
  {
    hide OddIn, Xor;
    OddInLinear(v, a, b, 16);
  }

  /** Shifting loses the bit that goes out; both polynomials make up for it. */
  lemma OddShift(v: Variant, c: bv16)
    ensures Odd(v, Shift(v, c)) <==> Odd(v, c) != Out(v, c)
  {
    hide Out, Shift, Shifts;
    assert OddIn(v, c, 17) <==> Out(v, c) != OddIn(v, Shift(v, c), 16);
    OneFurther(v, c, 16);
    SixteenShifts(v, c);
    ZeroFacts(v);
  }

  lemma {:induction false} ZeroIsEven(v: Variant, k: nat)
    ensures !OddIn(v, 0, k)
  {
    ZeroFacts(v);
    hide Out, Shift;
    if k > 0 {
      ZeroIsEven(v, k - 1);
    }
  }

  lemma OddFacts(v: Variant)
    ensures Odd(v, Poly(v)) && !Odd(v, 0) && Odd(v, In(v, true)) && !Odd(v, In(v, false))
  {
    ZeroIsEven(v, 16);
    ZeroIsEven(v, 15);
    ZeroFacts(v);
    match v {
      case Modbus => assert OddIn(Modbus, 0xA001, 16);
      case Ccitt => assert OddIn(Ccitt, 0x1021, 16);
    }
  }

  /** A bit step keeps the parity. */
  lemma OddKept(v: Variant, c: bv16)
    ensures Odd(v, CrcBit(v, c)) <==> Odd(v, c)
  {
    hide *;
    CrcBitIs(v, c);
    OddShift(v, c);
    OddFacts(v);
    OddLinear(v, Shift(v, c), Poly(v));
  }

  /** In how many of the first `n` bits the strings differ. */
  function Differing(v: Variant, f: seq<byte>, g: seq<byte>, n: nat): nat
    requires |f| == |g| && n <= 8 * |f|
  {
    if n == 0 then 0
    else Differing(v, f, g, n - 1) + if BitAt(v, f, n - 1) != BitAt(v, g, n - 1) then 1 else 0
  }

  lemma {:induction false} DeltaParity(v: Variant, f: seq<byte>, g: seq<byte>, n: nat)
    requires |f| == |g| && n <= 8 * |f|
    ensures Odd(v, Delta(v, f, g, n)) <==> Differing(v, f, g, n) % 2 == 1
  {
    hide Delta, BitAt, Odd, Xor, In, CrcBit;
    if n == 0 {
      Meet(v, f, g, 0);
      OddFacts(v);
    } else {
      var d, bit := Delta(v, f, g, n - 1), BitAt(v, f, n - 1) != BitAt(v, g, n - 1);
      DeltaParity(v, f, g, n - 1);
      DeltaStep(v, f, g, n - 1);
      OddKept(v, Xor(d, In(v, bit)));
      OddLinear(v, d, In(v, bit));
      OddFacts(v);
    }
  }

  /** Any odd number of flipped bits in a valid byte string, wherever they are and however long the
      string, is detected. */
  lemma OddErrorDetected(v: Variant, f: seq<byte>, g: seq<byte>)
    requires CrcOk(v, f) && |f| == |g| && Differing(v, f, g, 8 * |f|) % 2 == 1
    ensures !CrcOk(v, g)
  {
    var n := 8 * |f|;
    assert 2 <= |f| && f[..|f|] == f && g[..|g|] == g;
    hide *;
    CrcOkIffResidue(v, f);
    CrcOkIffResidue(v, g);
    SerialIsCrc(v, f, |f|);
    SerialIsCrc(v, g, |f|);
    Meet(v, f, g, n);
    DeltaParity(v, f, g, n);
    OddFacts(v);
  }

  // ---------- check values ----------

  /** The digits 1 to 9, the string that CRC catalogues give a check value for. */
  const DIGITS: seq<byte> := [0x31, 0x32, 0x33, 0x34, 0x35, 0x36, 0x37, 0x38, 0x39]

  lemma Append(v: Variant, s: seq<byte>, b: byte, c: bv16)
    requires Crc(v, s) == c
    ensures Crc(v, s + [b]) == CrcByte(v, c, b)
  {
    hide CrcByte;
    assert (s + [b])[..|s|] == s;
  }

  lemma ModbusCheckValue()
    ensures Crc(Modbus, DIGITS) == 0x4B37
  {
    Digits(Modbus);
    hide Crc, CrcByte;
    ModbusSteps();
    ModbusLaterSteps();
  }

  lemma ModbusSteps()
    ensures CrcByte(Modbus, 0xFFFF, 0x31) == 0x947E
    ensures CrcByte(Modbus, 0x947E, 0x32) == 0xF595
    ensures CrcByte(Modbus, 0xF595, 0x33) == 0x7A75
    ensures CrcByte(Modbus, 0x7A75, 0x34) == 0x30BA
    ensures CrcByte(Modbus, 0x30BA, 0x35) == 0xA471
  {
  }

  lemma ModbusLaterSteps()
    ensures CrcByte(Modbus, 0xA471, 0x36) == 0x32E4
    ensures CrcByte(Modbus, 0x32E4, 0x37) == 0x9D73
    ensures CrcByte(Modbus, 0x9D73, 0x38) == 0x37DD
    ensures CrcByte(Modbus, 0x37DD, 0x39) == 0x4B37
  {
  }

  lemma CcittCheckValue()
    ensures Crc(Ccitt, DIGITS) == 0x29B1
  {
    Digits(Ccitt);
    hide Crc, CrcByte;
    CcittSteps();
    CcittLaterSteps();
  }

  lemma CcittSteps()
    ensures CrcByte(Ccitt, 0xFFFF, 0x31) == 0xC782
    ensures CrcByte(Ccitt, 0xC782, 0x32) == 0x3DBA
    ensures CrcByte(Ccitt, 0x3DBA, 0x33) == 0x5BCE
    ensures CrcByte(Ccitt, 0x5BCE, 0x34) == 0x5349
    ensures CrcByte(Ccitt, 0x5349, 0x35) == 0x4560
  {
  }

  lemma CcittLaterSteps()
    ensures CrcByte(Ccitt, 0x4560, 0x36) == 0x2EF4
    ensures CrcByte(Ccitt, 0x2EF4, 0x37) == 0x7718
    ensures CrcByte(Ccitt, 0x7718, 0x38) == 0xA12B
    ensures CrcByte(Ccitt, 0xA12B, 0x39) == 0x29B1
  {
  }

  /** The register byte by byte. */
  lemma Digits(v: Variant)
    ensures Crc(v, DIGITS)
            == CrcByte(v, CrcByte(v, CrcByte(v, CrcByte(v, CrcByte(v, CrcByte(v, CrcByte(v, CrcByte(v, CrcByte(v,
                 0xFFFF, 0x31), 0x32), 0x33), 0x34), 0x35), 0x36), 0x37), 0x38), 0x39)
  {
    hide CrcByte, Crc;
    Nothing(v);
    Digit(v, 0); Digit(v, 1); Digit(v, 2); Digit(v, 3); Digit(v, 4); Digit(v, 5); Digit(v, 6); Digit(v, 7);
    Digit(v, 8);
    assert DIGITS[..0] == [] && DIGITS[..9] == DIGITS;
  }

  lemma Digit(v: Variant, k: nat)
    requires k < 9
    ensures Crc(v, DIGITS[..k + 1]) == CrcByte(v, Crc(v, DIGITS[..k]), DIGITS[k])
  {
    assert DIGITS[..k + 1] == DIGITS[..k] + [DIGITS[k]];
    Append(v, DIGITS[..k], DIGITS[k], Crc(v, DIGITS[..k]));
  }

  lemma Nothing(v: Variant)
    ensures Crc(v, []) == 0xFFFF
  {
  }

  // ---------- the inner loop ----------

  method BitStepModbus(crc: bv16) returns (r: bv16)
    ensures r == CrcBit(Modbus, crc)
  {
    if crc & 0x0001 == 1 {
      r := (crc >> 1) ^ 0xA001;
    } else {
      r := crc >> 1;
    }
  }

  method BitStepCcitt(crc: bv16) returns (r: bv16)
    ensures r == CrcBit(Ccitt, crc)
  {
    if crc & 0x8000 != 0 {
      r := (crc << 1) ^ 0x1021;
    } else {
      r := crc << 1;
    }
  }

  /** The byte loop of either variant. */
  method Update(v: Variant, crc: bv16, b: byte) returns (r: bv16)
    ensures r == CrcByte(v, crc, b)
  {
    hide Xor, Enter, Crc8, CrcBit;
    r := Xor(crc, Enter(v, b));
    ghost var start := r;
    var bit := 0;
    while bit < 8
      invariant 0 <= bit <= 8 && r == Bits(v, start, bit)
    {
      match v {
        case Modbus => r := BitStepModbus(r);
        case Ccitt => r := BitStepCcitt(r);
      }
      bit := bit + 1;
    }
    hide Bits;
    Crc8IsBits(v, start);
  }
}
