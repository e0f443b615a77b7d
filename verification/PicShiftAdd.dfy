/** The PIC16 16x16 multiply by shift and add: what its loop computes, which is not the product, and
    exactly when it is. */
module PicShiftAdd {
  import opened Arith
  import opened PicAsm
  import opened PicDivide
  import opened PicKernels
  import opened PicMultiply
  import opened Words

  /** Four byte cells, the lowest first. */
  datatype Quad = Quad(b0: octet, b1: octet, b2: octet, b3: octet)

  function Value(q: Quad): dword {
    Dword(q.b0, q.b1, q.b2, q.b3)
  }

  /** The multiplicand after `i` left shifts. */
  function Scaled(a: nat, i: nat): nat {
    if i == 0 then a else 2 * Scaled(a, i - 1)
  }

  /** The multiplier after `i` right shifts. */
  function Halved(b: nat, i: nat): nat {
    if i == 0 then b else Halved(b, i - 1) / 2
  }

  predicate BitSet(b: nat, i: nat) {
    Halved(b, i) % 2 == 1
  }

  /** The true sum of the first `i` partial products. */
  function PartialSum(a: nat, b: nat, i: nat): nat {
    if i == 0 then 0 else PartialSum(a, b, i - 1) + if BitSet(b, i - 1) then Scaled(a, i - 1) else 0
  }

  /** Adding the partial product of bit `i` loses the carry between its low bytes: the high one is 0xFF
      and wraps as the carry is folded into it. */
  predicate Loses(a: nat, b: nat, i: nat) {
    BitSet(b, i) && Hi(Scaled(a, i)) == 0xFF && 0x100 <= Lo(PartialSum(a, b, i)) + Lo(Scaled(a, i))
  }

  /** The carries lost over the first `i` bits. */
  function Lost(a: nat, b: nat, i: nat): nat {
    if i == 0 then 0 else Lost(a, b, i - 1) + if Loses(a, b, i - 1) then 1 else 0
  }

  /** What the multiply returns: the high byte of the multiplier never takes part, and each carry lost
      between the low bytes is worth 2^16. */
  function ShiftAdd(a: word, b: word): int {
    PartialSum(a, Lo(b), 8) - 0x1_0000 * Lost(a, Lo(b), 8)
  }

  lemma {:induction false} SumIsProduct(a: nat, b: nat, i: nat)
    ensures PartialSum(a, b, i) + Scaled(a, i) * Halved(b, i) == a * b
  {
    if i > 0 {
      SumIsProduct(a, b, i - 1);
      HalfProduct(Scaled(a, i - 1), Halved(b, i - 1));
      StepRight(a, b, i);
      hide *;
    }
  }

  lemma HalfProduct(t: nat, h: nat)
    ensures t * h == (2 * t) * (h / 2) + if h % 2 == 1 then t else 0
  {
    var q, r := h / 2, h % 2;
    assert h == 2 * q + r;
    assert t * (2 * q + r) == 2 * (t * q) + t * r;
    assert (2 * t) * q == 2 * (t * q);
  }

  lemma StepRight(a: nat, b: nat, i: nat)
    requires 0 < i
    ensures Scaled(a, i) == 2 * Scaled(a, i - 1) && Halved(b, i) == Halved(b, i - 1) / 2
    ensures PartialSum(a, b, i)
            == PartialSum(a, b, i - 1) + if Halved(b, i - 1) % 2 == 1 then Scaled(a, i - 1) else 0
    ensures Lost(a, b, i) == Lost(a, b, i - 1) + if Loses(a, b, i - 1) then 1 else 0
  {
  }

  lemma EightBits(b: octet)
    ensures Halved(b, 8) == 0
  {
    assert Halved(b, 1) < 0x80 && Halved(b, 2) < 0x40 && Halved(b, 3) < 0x20 && Halved(b, 4) < 0x10;
    assert Halved(b, 5) < 8 && Halved(b, 6) < 4 && Halved(b, 7) < 2;
  }

  lemma {:induction false} NothingAfter(a: nat, b: octet, i: nat)
    requires 8 <= i
    ensures Halved(b, i) == 0 && PartialSum(a, b, i) == PartialSum(a, b, 8) && Lost(a, b, i) == Lost(a, b, 8)
  {
    if i == 8 {
      EightBits(b);
    } else {
      NothingAfter(a, b, i - 1);
    }
  }

  /** The 32-bit addition of the PIC16, a carry folded into the addend's next byte. It loses the carry
      out of the low byte exactly when the byte it is folded into is 0xFF. */
  method AddFolded(x: Quad, t: Quad) returns (y: Quad)
    requires t.b2 < 0xFF && t.b3 == 0 && Value(x) + Value(t) < 0x1_0000_0000
    ensures Value(y) + (if t.b1 == 0xFF && 0x100 <= x.b0 + t.b0 then 0x1_0000 else 0) == Value(x) + Value(t)
  {
    var a0 := Addwf(x.b0, t.b0);
    var a1 := Addwf(x.b1, if a0.c then Incf(t.b1) else t.b1);
    var a2 := Addwf(x.b2, if a1.c then Incf(t.b2) else t.b2);
    var a3 := Addwf(x.b3, if a2.c then Incf(t.b3) else t.b3);
    y := Quad(a0.r, a1.r, a2.r, a3.r);
  }

  lemma ScaledBound(a: word, i: nat)
    requires i <= 16
    ensures Scaled(a, i) <= 0xFFFF_0000 && (i < 8 ==> Scaled(a, i) < 0x80_0000)
  {
    ScaledMore(a, i, 16);
    assert Scaled(a, 1) == 2 * a;
    assert Scaled(a, 3) == 8 * a;
    assert Scaled(a, 5) == 32 * a;
    assert Scaled(a, 7) == 128 * a;
    assert Scaled(a, 9) == 512 * a;
    assert Scaled(a, 11) == 2048 * a;
    assert Scaled(a, 13) == 8192 * a;
    assert Scaled(a, 15) == 32768 * a;
    if i < 8 {
      ScaledMore(a, i, 7);
    }
  }

  lemma {:induction false} ScaledMore(a: nat, i: nat, j: nat)
    requires i <= j
    ensures Scaled(a, i) <= Scaled(a, j)
  {
    if i < j {
      ScaledMore(a, i, j - 1);
    }
  }

  /** The sum stays below 2^24 for one multiplier byte. */
  lemma SumBound(a: word, b: octet, i: nat)
    ensures PartialSum(a, b, i) <= 0xFF_0000
  {
    SumIsProduct(a, b, i);
    ByteProduct(a, b);
    Nonnegative(Scaled(a, i), Halved(b, i));
    hide *;
  }

  lemma ByteProduct(a: word, b: octet)
    ensures 0 <= a * b <= 0xFF_0000
  {
    MulMonotone(a, 0xFFFF, b);
  }

  lemma Nonnegative(x: nat, y: nat)
    ensures 0 <= x * y
  {
  }

  /** The left shift through carry. */
  method Double(t: Quad) returns (d: Quad)
    requires 2 * Value(t) < 0x1_0000_0000
    ensures Value(d) == 2 * Value(t)
  {
    var a0 := Rlf(t.b0, false);
    var a1 := Rlf(t.b1, a0.c);
    var a2 := Rlf(t.b2, a1.c);
    var a3 := Rlf(t.b3, a2.c);
    d := Quad(a0.r, a1.r, a2.r, a3.r);
  }

  /** The multiplier's shift, low byte first. */
  method Rotate(k0: octet, k1: octet) returns (h0: octet, h1: octet)
    ensures h0 == k0 / 2 && h1 == k1 / 2 + (if k0 % 2 == 1 then 0x80 else 0)
  {
    var a := Rrf(k0, false);
    h0 := a.r;
    a := Rrf(k1, a.c);
    h1 := a.r;
  }

  lemma LowByteKept(r: nat, k: nat)
    ensures Lo(r + 0x1_0000 * k) == Lo(r)
  {
    DivModUnique(r + 0x1_0000 * k, 0x100, r / 0x100 + 0x100 * k, r % 0x100);
  }

  /** What the addition for bit `i` loses, in terms of the cells. */
  lemma LosesInCells(a: nat, b: nat, i: nat, r: dword, t: dword)
    requires r == PartialSum(a, b, i) - 0x1_0000 * Lost(a, b, i) && t == Scaled(a, i)
    ensures Loses(a, b, i) <==> BitSet(b, i) && Hi(t) == 0xFF && 0x100 <= Lo(r) + Lo(t)
  {
    hide Lo, Hi, PartialSum, Lost, Scaled, BitSet;
    LowByteKept(r, Lost(a, b, i));
  }

  lemma CellBytes(q: Quad)
    ensures Lo(Value(q)) == q.b0 && Hi(Value(q)) == q.b1
    ensures Value(q) < 0x80_0000 ==> q.b2 < 0x80 && q.b3 == 0
  {
    var rest := q.b2 + 0x100 * q.b3;
    DivModUnique(Value(q), 0x100, q.b1 + 0x100 * rest, q.b0);
    DivModUnique(q.b1 + 0x100 * rest, 0x100, rest, q.b1);
  }

  /** The numbers in the cells after `i` passes: result, shifted multiplicand, low multiplier byte. */
  function Pass(a: nat, b: nat, i: nat): (int, int, int) {
    (PartialSum(a, b, i) - 0x1_0000 * Lost(a, b, i), Scaled(a, i), Halved(b, i))
  }

  /** The conditional addition for bit `i`. */
  method AddIfSet(r: Quad, t: Quad, k: octet, ghost a: word, ghost b: octet, ghost i: nat) returns (s: Quad)
    requires (Value(r), Value(t), k) == Pass(a, b, i)
    ensures Value(s) == Pass(a, b, i + 1).0
  {
    StepRight(a, b, i + 1);
    SumBound(a, b, i);
    if 8 <= i {
      NothingAfter(a, b, i);
    } else {
      ScaledBound(a, i);
    }
    LosesInCells(a, b, i, Value(r), Value(t));
    CellBytes(r);
    CellBytes(t);
    hide Scaled, Halved, PartialSum, Lost, Loses, Lo, Hi, Value;
    s := r;
    if k % 2 == 1 {
      s := AddFolded(r, t);
    }
  }

  lemma NextPass(a: word, b: nat, i: nat)
    requires i < 16
    ensures var p := Pass(a, b, i);
            2 * p.1 < 0x1_0000_0000 && Pass(a, b, i + 1).1 == 2 * p.1 && Pass(a, b, i + 1).2 == p.2 / 2
  {
    StepRight(a, b, i + 1);
    ScaledBound(a, i + 1);
  }

  /** A word in four byte cells. */
  function Load(x: word): (q: Quad)
    ensures Value(q) == x
  {
    Bytes(x);
    Quad(Lo(x), Hi(x), 0, 0)
  }

  /** The loop tests sixteen multiplier bits, but rotates the low byte before the high one, so that only
      zeros follow the low byte's own. */
  method MulU16(a: word, b: word) returns (r: dword)
    ensures r == ShiftAdd(a, b)
  {
    hide *;
    var sum, t := Load(0), Load(a);
    var k0, k1: octet := Lo(b), Hi(b);
    var count := 16;
    FirstPass(a, Lo(b));
    while 0 < count
      invariant count <= 16
      invariant (Value(sum), Value(t), k0) == Pass(a, Lo(b), 16 - count)
    {
      NextPass(a, Lo(b), 16 - count);
      sum := AddIfSet(sum, t, k0, a, Lo(b), 16 - count);
      t := Double(t);
      k0, k1 := Rotate(k0, k1);
      count := count - 1;
    }
    LastPass(a, b);
    r := Value(sum);
  }

  lemma FirstPass(a: nat, b: nat)
    ensures Pass(a, b, 0) == (0, a, b)
  {
  }

  lemma LastPass(a: word, b: word)
    ensures Pass(a, Lo(b), 16).0 == ShiftAdd(a, b)
  {
    NothingAfter(a, Lo(b), 16);
    hide Scaled, Halved, PartialSum, Lost, Lo;
  }

  lemma ByteSum(a: nat, b: octet)
    ensures PartialSum(a, b, 8) == a * b
  {
    EightBits(b);
    SumIsProduct(a, b, 8);
    hide PartialSum, Halved, Scaled;
  }

  lemma Split(a: nat, lo: nat, hi: nat)
    ensures a * (lo + 0x100 * hi) == a * lo + 0x100 * (a * hi) && 0 <= a * hi
  {
  }

  /** It is the product exactly when no carry is lost and the multiplier is a byte, or there is nothing
      to multiply. */
  lemma ProductIff(a: word, b: word)
    ensures ShiftAdd(a, b) == a * b <==> Lost(a, Lo(b), 8) == 0 && (a == 0 || b < 0x100)
  {
    var lo: octet, hi: octet := Lo(b), Hi(b);
    Bytes(b);
    ByteSum(a, lo);
    hide PartialSum, Lost, Lo, Hi;
    Split(a, lo, hi);
    if a != 0 && hi != 0 {
      MulAtLeast(a, hi);
    }
  }

  /** A carry is lost already for a multiplier of 3. */
  lemma CarryIsLost()
    ensures ShiftAdd(0x7FC0, 3) == 0x7F40 == 0x7FC0 * 3 - 0x1_0000
  {
    assert BitSet(3, 0) && BitSet(3, 1) && Halved(3, 2) == 0;
    assert Lost(0x7FC0, 3, 1) == 0;
    assert Loses(0x7FC0, 3, 1);
    assert Lost(0x7FC0, 3, 2) == 1;
    NothingMore(0x7FC0, 3, 2, 8);
    ByteSum(0x7FC0, 3);
    assert Lo(3) == 3;
    hide *;
  }

  lemma {:induction false} NothingMore(a: nat, b: nat, i: nat, j: nat)
    requires i <= j && Halved(b, i) == 0
    ensures Halved(b, j) == 0 && Lost(a, b, j) == Lost(a, b, i)
  {
    if i < j {
      NothingMore(a, b, i, j - 1);
      hide Loses, Scaled, PartialSum;
    }
  }

  /** Small multiplicands lose nothing. */
  lemma {:induction false} SmallLosesNothing(a: nat, b: nat, i: nat)
    requires a < 0x1FE && i <= 8
    ensures Lost(a, b, i) == 0
  {
    if i > 0 {
      SmallLosesNothing(a, b, i - 1);
      SmallScaled(a, i - 1);
      hide PartialSum, Scaled, BitSet;
    }
  }

  lemma SmallScaled(a: nat, i: nat)
    requires a < 0x1FE && i < 8
    ensures Scaled(a, i) < 0xFF00
  {
    ScaledBound(a, i);
    ScaledMore(a, i, 7);
    assert Scaled(a, 1) == 2 * a;
    assert Scaled(a, 3) == 8 * a;
    assert Scaled(a, 5) == 32 * a;
    assert Scaled(a, 7) == 128 * a;
  }

  /** The signed form over it. */
  method MulS16(a: sword, b: sword) returns (r: sdword)
    ensures r == if (a < 0) != (b < 0) then -ShiftAdd(Abs(a), Abs(b)) else ShiftAdd(Abs(a), Abs(b))
    ensures r == a * b <==> ShiftAdd(Abs(a), Abs(b)) == Abs(a) * Abs(b)
  {
    hide *;
    var neg := (a < 0) != (b < 0);
    Magnitude(a);
    Magnitude(b);
    SignedProduct(a, b);
    AtMostProduct(Abs(a), Abs(b));
    var ua := if a < 0 then Negate(Pattern(a)) else Pattern(a);
    var ub := if b < 0 then Negate(Pattern(b)) else Pattern(b);
    var ur := MulU16(ua, ub);
    SignOf(ur, neg);
    if neg {
      ur := NegateS32(ur);
    }
    r := AsSigned32(ur);
  }

  lemma AtMostProduct(a: word, b: word)
    ensures ShiftAdd(a, b) <= a * b
  {
    var lo: octet, hi: octet := Lo(b), Hi(b);
    Bytes(b);
    ByteSum(a, lo);
    hide PartialSum, Lost, Lo, Hi;
    Split(a, lo, hi);
  }

  lemma SignOf(u: dword, neg: bool)
    requires u <= 0x4000_0000
    ensures AsSigned32(u) == u && (0 < u ==> AsSigned32(0x1_0000_0000 - u) + u == 0)
  {
  }

  // ---------- five packed digits ----------

  function Digit(bcd: nat, i: nat): (d: nat)
    ensures d < 0x10
  {
    if i == 0 then bcd % 0x10 else Digit(bcd / 0x10, i - 1)
  }

  /** Every nibble counts for its value at its decimal place. */
  function BcdValue(bcd: nat): nat {
    Digit(bcd, 0) + 10 * Digit(bcd, 1) + 100 * Digit(bcd, 2) + 1000 * Digit(bcd, 3) + 10000 * Digit(bcd, 4)
  }

  /** The multiplier sees only the low byte of 1000 and 10000. */
  function BcdSeen(bcd: nat): nat {
    Digit(bcd, 0) + 10 * Digit(bcd, 1) + 100 * Digit(bcd, 2) + 232 * Digit(bcd, 3) + 16 * Digit(bcd, 4)
  }

  /** What the multiplier makes of `n` more digits from a place on. */
  function Seen(bcd: nat, place: word, n: nat): nat
    decreases n
  {
    if n == 0 then 0 else bcd % 0x10 * Lo(place) + Seen(bcd / 0x10, place * 10 % 0x1_0000, n - 1)
  }

  lemma DigitProduct(digit: word, place: word)
    requires digit < 0x10
    ensures ShiftAdd(digit, place) == digit * Lo(place) <= 15 * 0xFF
  {
    SmallLosesNothing(digit, Lo(place), 8);
    ByteSum(digit, Lo(place));
    hide PartialSum, Lost;
    MulMonotone(digit, 15, Lo(place));
  }

  method Bcd16ToBin(bcd5: dword) returns (bin: word)
    ensures bin == BcdSeen(bcd5)
  {
    SeenIs(bcd5);
    var sum: dword, rest: dword, place: word := 0, bcd5, 1;
    hide *;
    for i := 0 to 5
      invariant sum + Seen(rest, place, 5 - i) == BcdSeen(bcd5) < 0x1_0000
    {
      SeenNext(rest, place, 5 - i);
      DigitProduct(rest % 0x10, place);
      var product := MulU16(rest % 0x10, place);
      sum := sum + product;
      rest := rest / 0x10;
      place := place * 10 % 0x1_0000;
    }
    bin := sum;
  }

  lemma SeenNext(bcd: nat, place: word, n: nat)
    ensures n == 0 ==> Seen(bcd, place, n) == 0
    ensures 0 < n ==>
      Seen(bcd, place, n) == bcd % 0x10 * Lo(place) + Seen(bcd / 0x10, place * 10 % 0x1_0000, n - 1)
  {
  }

  lemma DigitNext(bcd: nat, i: nat)
    ensures Digit(bcd, 0) == bcd % 0x10 && Digit(bcd, i + 1) == Digit(bcd / 0x10, i)
  {
  }

  lemma PlaceBytes()
    ensures Lo(1) == 1 && Lo(10) == 10 && Lo(100) == 100 && Lo(1000) == 232 && Lo(10000) == 16
  {
  }

  lemma SeenFrom(bcd: nat, place: word, n: nat, next: word, rest: nat)
    requires 0 < n && next == place * 10 % 0x1_0000 && Seen(bcd / 0x10, next, n - 1) == rest
    ensures Seen(bcd, place, n) == Digit(bcd, 0) * Lo(place) + rest
  {
    SeenNext(bcd, place, n);
  }

  lemma SeenIs(bcd: nat)
    ensures Seen(bcd, 1, 5) == BcdSeen(bcd) < 0x1_0000
  {
    var b1 := bcd / 0x10;
    var b2 := b1 / 0x10;
    var b3 := b2 / 0x10;
    var b4 := b3 / 0x10;
    PlaceBytes();
    hide Digit, Seen, Lo;
    DigitNext(bcd, 0);
    DigitNext(bcd, 1);
    DigitNext(bcd, 2);
    DigitNext(bcd, 3);
    DigitNext(b1, 0);
    DigitNext(b1, 1);
    DigitNext(b1, 2);
    DigitNext(b2, 0);
    DigitNext(b2, 1);
    DigitNext(b3, 0);
    SeenNothing(b4 / 0x10, 34464);
    SeenFrom(b4, 10000, 1, 34464, 0);
    SeenFrom(b3, 1000, 2, 10000, 16 * Digit(b4, 0));
    SeenFrom(b2, 100, 3, 1000, 232 * Digit(b3, 0) + 16 * Digit(b4, 0));
    SeenFrom(b1, 10, 4, 100, 100 * Digit(b2, 0) + 232 * Digit(b3, 0) + 16 * Digit(b4, 0));
    SeenFrom(bcd, 1, 5, 10, 10 * Digit(b1, 0) + 100 * Digit(b2, 0) + 232 * Digit(b3, 0) + 16 * Digit(b4, 0));
  }

  lemma SeenNothing(bcd: nat, place: word)
    ensures Seen(bcd, place, 0) == 0
  {
  }

  /** The conversion agrees with the value of the digits, modulo 2^16, exactly when the number has at
      most three of them. */
  lemma BcdIff(bcd: nat)
    ensures BcdSeen(bcd) == BcdValue(bcd) % 0x1_0000 <==> Digit(bcd, 3) == 0 && Digit(bcd, 4) == 0
  {
    hide Digit;
    var d3, d4 := Digit(bcd, 3), Digit(bcd, 4);
    assert BcdValue(bcd) - BcdSeen(bcd) == 256 * (3 * d3 + 39 * d4);
    if BcdSeen(bcd) == BcdValue(bcd) % 0x1_0000 {
      var q := BcdValue(bcd) / 0x1_0000;
      assert 256 * (3 * d3 + 39 * d4) == 0x1_0000 * q;
      assert 3 * (d3 + 13 * d4) == 256 * q;
      assert q <= 2;
    }
  }
}
