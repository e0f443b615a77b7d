/** Which CRCs these are: the register is the remainder of the message, as a polynomial over the two
    element field, divided by the generator that the standards name. */
module CrcPoly {
  import opened Bytes
  import opened Crc16
  import opened Xor16

  /** A polynomial's coefficients, the highest power first. */
  type Coeffs = seq<bool>

  function Zeroes(n: nat): (z: Coeffs)
    ensures |z| == n && forall i {:trigger z[i]} :: 0 <= i < n ==> !z[i]
  {
    seq(n, _ => false)
  }

  function Sum(a: Coeffs, b: Coeffs): (r: Coeffs)
    requires |a| == |b|
    ensures |r| == |a| && forall i {:trigger r[i]} :: 0 <= i < |a| ==> r[i] == (a[i] != b[i])
  {
    seq(|a|, i requires 0 <= i < |a| => a[i] != b[i])
  }

  /** Modbus: x^16 + x^15 + x^2 + 1; CCITT: x^16 + x^12 + x^5 + 1. */
  function Generator(v: Variant): (g: Coeffs)
    ensures |g| == 17
  {
    seq(17, i => match v case Modbus => i in {0, 1, 14, 16} case Ccitt => i in {0, 4, 11, 16})
  }

  /** The product with the generator, by Horner's rule. */
  function Multiple(v: Variant, q: Coeffs): (r: Coeffs)
    ensures |r| == |q| + 16
  {
    if q == [] then Zeroes(16)
    else
      var n := |q| - 1;
      Sum(Multiple(v, q[..n]) + [false], Zeroes(n) + if q[n] then Generator(v) else Zeroes(17))
  }

  /** The bits of a byte string in the order they are sent: Modbus from the least significant bit of
      each byte on, CCITT from the most significant one. */
  predicate SentBit(v: Variant, s: seq<byte>, j: nat)
    requires j < 8 * |s|
  {
    match v
    case Modbus => (s[j / 8] >> (j % 8)) & 1 == 1
    case Ccitt => (s[j / 8] >> (7 - j % 8)) & 1 == 1
  }

  function Message(v: Variant, s: seq<byte>, n: nat): (m: Coeffs)
    requires n <= 8 * |s|
    ensures |m| == n && forall i {:trigger m[i]} :: 0 <= i < n ==> m[i] == SentBit(v, s, i)
  {
    seq(n, i requires 0 <= i < n => SentBit(v, s, i))
  }

  /** The first `n` bits of the message times x^16, the leading sixteen coefficients inverted. */
  function Dividend(v: Variant, s: seq<byte>, n: nat): (a: Coeffs)
    requires n <= 8 * |s|
    ensures |a| == n + 16
  {
    Sum(Message(v, s, n) + Zeroes(16), Ones() + Zeroes(n))
  }

  function Ones(): (z: Coeffs)
    ensures |z| == 16 && forall i {:trigger z[i]} :: 0 <= i < 16 ==> z[i]
  {
    seq(16, _ => true)
  }

  /** The coefficient of x^(15 - i) in a register; the reflected variant keeps x^15 in bit 0. */
  predicate Coef(v: Variant, c: bv16, i: nat)
    requires i < 16
  {
    match v
    case Modbus => (c >> i) & 1 == 1
    case Ccitt => (c >> (15 - i)) & 1 == 1
  }

  function Register(v: Variant, c: bv16): (r: Coeffs)
    ensures |r| == 16 && forall i {:trigger r[i]} :: 0 <= i < 16 ==> r[i] == Coef(v, c, i)
  {
    seq(16, i requires 0 <= i < 16 => Coef(v, c, i))
  }

  // ---------- the register's steps on coefficients ----------

  lemma CoefXor(v: Variant, a: bv16, b: bv16, i: nat)
    requires i < 16
    ensures Coef(v, Xor(a, b), i) == (Coef(v, a, i) != Coef(v, b, i))
  {
    hide *;
    CoefIsOut(v, a, i);
    CoefIsOut(v, b, i);
    CoefIsOut(v, Xor(a, b), i);
    MovedXor(v, a, b, i);
    OutLinear(v, Moved(v, a, i), Moved(v, b, i));
  }

  /** The register after `k` shifts. */
  function Moved(v: Variant, c: bv16, k: nat): bv16 {
    if k == 0 then c else Shift(v, Moved(v, c, k - 1))
  }

  lemma {:induction false} MovedXor(v: Variant, a: bv16, b: bv16, k: nat)
    ensures Moved(v, Xor(a, b), k) == Xor(Moved(v, a, k), Moved(v, b, k))
  {
    hide Xor, Shift;
    if k > 0 {
      MovedXor(v, a, b, k - 1);
      ShiftLinear(v, Moved(v, a, k - 1), Moved(v, b, k - 1));
    }
  }

  /** A coefficient is what that many shifts bring out. */
  lemma {:induction false} CoefIsOut(v: Variant, c: bv16, i: nat)
    requires i < 16
    ensures Coef(v, c, i) == Out(v, Moved(v, c, i))
    decreases i
  {
    hide Coef, Shift, Out;
    if i == 0 {
      CoefOut(v, c);
    } else {
      CoefIsOut(v, Shift(v, c), i - 1);
      CoefShift(v, c, i - 1);
      MovedFirst(v, c, i);
    }
  }

  lemma {:induction false} MovedFirst(v: Variant, c: bv16, k: nat)
    requires 0 < k
    ensures Moved(v, c, k) == Moved(v, Shift(v, c), k - 1)
  {
    hide Shift;
    if k > 1 {
      MovedFirst(v, c, k - 1);
    }
  }

  lemma CoefShift(v: Variant, c: bv16, i: nat)
    requires i < 16
    ensures Coef(v, Shift(v, c), i) == (i < 15 && Coef(v, c, i + 1))
  {
    match v {
      case Modbus => CoefRight(c, i);
      case Ccitt => CoefLeft(c, i);
    }
  }

  lemma CoefRight(c: bv16, i: nat)
    requires i < 16
    ensures Coef(Modbus, c >> 1, i) == (i < 15 && Coef(Modbus, c, i + 1))
  {
    if i == 0 {} else if i == 1 {} else if i == 2 {} else if i == 3 {}
    else if i == 4 {} else if i == 5 {} else if i == 6 {} else if i == 7 {}
    else if i == 8 {} else if i == 9 {} else if i == 10 {} else if i == 11 {}
    else if i == 12 {} else if i == 13 {} else if i == 14 {} else {}
  }

  lemma CoefLeft(c: bv16, i: nat)
    requires i < 16
    ensures Coef(Ccitt, c << 1, i) == (i < 15 && Coef(Ccitt, c, i + 1))
  {
    if i == 0 {} else if i == 1 {} else if i == 2 {} else if i == 3 {}
    else if i == 4 {} else if i == 5 {} else if i == 6 {} else if i == 7 {}
    else if i == 8 {} else if i == 9 {} else if i == 10 {} else if i == 11 {}
    else if i == 12 {} else if i == 13 {} else if i == 14 {} else {}
  }

  lemma CoefOut(v: Variant, c: bv16)
    ensures Out(v, c) == Coef(v, c, 0)
  {
  }

  lemma CoefConstants(v: Variant, bit: bool, i: nat)
    requires i < 16
    ensures Coef(v, In(v, bit), i) == (i == 0 && bit)
    ensures Coef(v, Poly(v), i) == Generator(v)[i + 1]
    ensures Coef(v, 0xFFFF, i) && !Coef(v, 0, i)
  {
    if i == 0 {} else if i == 1 {} else if i == 2 {} else if i == 3 {}
    else if i == 4 {} else if i == 5 {} else if i == 6 {} else if i == 7 {}
    else if i == 8 {} else if i == 9 {} else if i == 10 {} else if i == 11 {}
    else if i == 12 {} else if i == 13 {} else if i == 14 {} else {}
  }

  /** One step: x times the register plus the bit at x^16, reduced by the generator. */
  lemma CoefStep(v: Variant, c: bv16, bit: bool, i: nat)
    requires i < 16
    ensures var top := Coef(v, c, 0) != bit;
            Coef(v, CrcBit(v, Xor(c, In(v, bit))), i)
            == ((i < 15 && Coef(v, c, i + 1)) != (top && Generator(v)[i + 1]))
  {
    hide Coef, Xor, In, Shift, Out, Poly, CrcBit, Generator;
    var d := Xor(c, In(v, bit));
    CrcBitIs(v, d);
    CoefOut(v, d);
    CoefXor(v, c, In(v, bit), 0);
    CoefConstants(v, bit, 0);
    CoefConstants(v, bit, i);
    CoefShift(v, d, i);
    CoefXor(v, Shift(v, d), Poly(v), i);
    if i < 15 {
      CoefXor(v, c, In(v, bit), i + 1);
      CoefConstants(v, bit, i + 1);
    }
  }

  lemma SentBitIs(v: Variant, s: seq<byte>, j: nat)
    requires j < 8 * |s|
    ensures SentBit(v, s, j) == BitAt(v, s, j)
  {
    AfterIs(v, s[j / 8], j % 8);
  }

  lemma AfterIs(v: Variant, b: byte, k: nat)
    requires k < 8
    ensures NextBit(v, After(v, b, k)) == match v case Modbus => (b >> k) & 1 == 1 case Ccitt => (b >> (7 - k)) & 1 == 1
  {
    match v {
      case Modbus => AfterIsRight(b, k);
      case Ccitt => AfterIsLeft(b, k);
    }
  }

  lemma AfterIsRight(b: byte, k: nat)
    requires k < 8
    ensures After(Modbus, b, k) == b >> k
  {
    EightLater(Modbus, b);
    hide After;
    if k == 0 {} else if k == 1 {} else if k == 2 {} else if k == 3 {}
    else if k == 4 {} else if k == 5 {} else if k == 6 {} else {}
  }

  lemma AfterIsLeft(b: byte, k: nat)
    requires k < 8
    ensures After(Ccitt, b, k) & 0x80 != 0 <==> (b >> (7 - k)) & 1 == 1
  {
    EightLater(Ccitt, b);
    hide After;
    if k == 0 {} else if k == 1 {} else if k == 2 {} else if k == 3 {}
    else if k == 4 {} else if k == 5 {} else if k == 6 {} else {}
  }

  lemma EightLater(v: Variant, b: byte)
    ensures After(v, b, 1) == Later(v, b) && After(v, b, 2) == Later(v, Later(v, b))
    ensures After(v, b, 3) == Later(v, After(v, b, 2)) && After(v, b, 4) == Later(v, After(v, b, 3))
    ensures After(v, b, 5) == Later(v, After(v, b, 4)) && After(v, b, 6) == Later(v, After(v, b, 5))
    ensures After(v, b, 7) == Later(v, After(v, b, 6)) && After(v, b, 0) == b
  {
  }

  // ---------- the division ----------

  /** The register is the remainder after `n` bits, and `q` the quotient. */
  ghost predicate Divides(v: Variant, s: seq<byte>, n: nat, q: Coeffs)
    requires n <= 8 * |s|
  {
    |q| == n && Sum(Dividend(v, s, n), Zeroes(n) + Register(v, Serial(v, s, n))) == Multiple(v, q)
  }

  lemma NothingDivided(v: Variant, s: seq<byte>)
    ensures Divides(v, s, 0, [])
  {
    var a, r := Dividend(v, s, 0), Zeroes(0) + Register(v, Serial(v, s, 0));
    forall i | 0 <= i < 16
      ensures Sum(a, r)[i] == Zeroes(16)[i]
    {
      CoefConstants(v, false, i);
    }
    assert Sum(a, r) == Zeroes(16);
  }

  /** The next quotient bit. */
  function Next(v: Variant, s: seq<byte>, n: nat): bool
    requires n < 8 * |s|
  {
    Register(v, Serial(v, s, n))[0] != SentBit(v, s, n)
  }

  /** `t` is `r` times x, less x^16, plus the generator's lower part if `top` says so. */
  ghost predicate Reduces(v: Variant, r: Coeffs, t: Coeffs, top: bool) {
    && |r| == |t| == 16
    && forall k {:trigger t[k]} :: 0 <= k < 16 ==> t[k] == ((k < 15 && r[k + 1]) != (top && Generator(v)[k + 1]))
  }

  lemma RegisterStep(v: Variant, s: seq<byte>, n: nat)
    requires n < 8 * |s|
    ensures Reduces(v, Register(v, Serial(v, s, n)), Register(v, Serial(v, s, n + 1)), Next(v, s, n))
  {
    SentBitIs(v, s, n);
    BitTaken(v, s, n);
    hide Serial, SentBit, BitAt, Coef, CrcBit, Xor, In, Generator;
    var r, r' := Register(v, Serial(v, s, n)), Register(v, Serial(v, s, n + 1));
    forall k | 0 <= k < 16
      ensures r'[k] == ((k < 15 && r[k + 1]) != ((r[0] != SentBit(v, s, n)) && Generator(v)[k + 1]))
    {
      CoefStep(v, Serial(v, s, n), SentBit(v, s, n), k);
    }
  }

  lemma OneMoreBit(v: Variant, s: seq<byte>, n: nat, q: Coeffs)
    requires n < 8 * |s| && Divides(v, s, n, q)
    ensures Divides(v, s, n + 1, q + [Next(v, s, n)])
  {
    RegisterStep(v, s, n);
    NextDividend(v, s, n);
    TopOfGenerator(v);
    hide Serial, SentBit, Generator, Multiple, Dividend, Register, Zeroes, Sum, Reduces;
    OneMoreRow(v, Dividend(v, s, n), Dividend(v, s, n + 1), Register(v, Serial(v, s, n)),
               Register(v, Serial(v, s, n + 1)), SentBit(v, s, n), Next(v, s, n), q);
  }

  lemma NextDividend(v: Variant, s: seq<byte>, n: nat)
    requires n < 8 * |s|
    ensures Dividend(v, s, n + 1)
            == Sum(Dividend(v, s, n) + [false], Zeroes(n) + [SentBit(v, s, n)] + Zeroes(16))
  {
    hide SentBit;
  }

  lemma TopOfGenerator(v: Variant)
    ensures Generator(v)[0]
  {
  }

  /** One row of the long division. */
  lemma OneMoreRow(v: Variant, a: Coeffs, a': Coeffs, r: Coeffs, r': Coeffs, bit: bool, top: bool, q: Coeffs)
    requires |a| == |q| + 16 && Reduces(v, r, r', top) && top == (r[0] != bit) && Generator(v)[0]
    requires Sum(a, Zeroes(|q|) + r) == Multiple(v, q)
    requires a' == Sum(a + [false], Zeroes(|q|) + [bit] + Zeroes(16))
    ensures Sum(a', Zeroes(|q| + 1) + r') == Multiple(v, q + [top])
  {
    var n := |q|;
    var g := if top then Generator(v) else Zeroes(17);
    assert (q + [top])[..n] == q;
    var m, high := Multiple(v, q), Zeroes(n) + g;
    assert Multiple(v, q + [top]) == Sum(m + [false], high);
    hide Generator, Multiple;
    var left, right := Sum(a', Zeroes(n + 1) + r'), Sum(m + [false], high);
    forall i | 0 <= i < n + 17
      ensures left[i] == right[i]
    {
      RowEntry(a, a', r, r', bit, g, m, i);
    }
  }

  lemma RowEntry(a: Coeffs, a': Coeffs, r: Coeffs, r': Coeffs, bit: bool, g: Coeffs, m: Coeffs, i: nat)
    requires 16 <= |a| && |r| == |r'| == 16 && |g| == 17 && i <= |a| && |m| == |a|
    requires m == Sum(a, Zeroes(|a| - 16) + r) && a' == Sum(a + [false], Zeroes(|a| - 16) + [bit] + Zeroes(16))
    requires g[0] == (r[0] != bit)
    requires forall k {:trigger r'[k]} :: 0 <= k < 16 ==> r'[k] == ((k < 15 && r[k + 1]) != g[k + 1])
    ensures Sum(a', Zeroes(|a| - 15) + r')[i] == Sum(m + [false], Zeroes(|a| - 16) + g)[i]
  {
    var n := |a| - 16;
    if n < i {
      assert (Zeroes(n + 1) + r')[i] == r'[i - n - 1];
      assert (Zeroes(n) + g)[i] == g[i - n];
    }
  }

  lemma BitTaken(v: Variant, s: seq<byte>, n: nat)
    requires n < 8 * |s|
    ensures Serial(v, s, n + 1) == CrcBit(v, Xor(Serial(v, s, n), In(v, BitAt(v, s, n))))
  {
  }

  lemma {:induction false} SerialDivides(v: Variant, s: seq<byte>, n: nat) returns (q: Coeffs)
    requires n <= 8 * |s|
    ensures Divides(v, s, n, q)
  {
    hide Divides, Next;
    if n == 0 {
      q := [];
      NothingDivided(v, s);
    } else {
      q := SerialDivides(v, s, n - 1);
      OneMoreBit(v, s, n - 1, q);
      q := q + [Next(v, s, n - 1)];
    }
  }

  /** The CRC is the remainder of the message, shifted up by sixteen and with its first sixteen
      coefficients inverted, divided by the generator: they differ by a multiple of it, and the CRC has
      fewer coefficients. */
  lemma CrcIsRemainder(v: Variant, s: seq<byte>) returns (q: Coeffs)
    ensures |q| == 8 * |s|
    ensures Sum(Dividend(v, s, 8 * |s|), Zeroes(8 * |s|) + Register(v, Crc(v, s))) == Multiple(v, q)
  {
    q := SerialDivides(v, s, 8 * |s|);
    SerialIsCrc(v, s, |s|);
    assert s[..|s|] == s;
  }

  // ---------- no other remainder ----------

  lemma {:induction false} QuotientIsUnique(v: Variant, p: Coeffs, q: Coeffs)
    requires |p| == |q| && Multiple(v, p)[..|p|] == Multiple(v, q)[..|q|]
    ensures p == q
  {
    if p != [] {
      var n := |p| - 1;
      TopOfGenerator(v);
      hide Generator;
      var x, y := Multiple(v, p), Multiple(v, q);
      forall i | 0 <= i < n
        ensures Multiple(v, p[..n])[i] == Multiple(v, q[..n])[i]
      {
        assert x[..n + 1][i] == y[..n + 1][i];
      }
      assert Multiple(v, p[..n])[..n] == Multiple(v, q[..n])[..n];
      QuotientIsUnique(v, p[..n], q[..n]);
      assert x[..n + 1][n] == y[..n + 1][n];
      assert p == p[..n] + [p[n]] && q == q[..n] + [q[n]];
    }
  }

  lemma SameRegister(v: Variant, c: bv16, d: bv16)
    requires Register(v, c) == Register(v, d)
    ensures c == d
  {
    hide Register, Xor, Coef;
    forall i: nat | i < 16
      ensures !Coef(v, Xor(c, d), i)
    {
      assert Register(v, c)[i] == Register(v, d)[i];
      CoefXor(v, c, d, i);
    }
    NoCoefs(v, Xor(c, d));
    XorZero(c, d);
  }

  lemma NoCoefs(v: Variant, c: bv16)
    requires forall i: nat {:trigger Coef(v, c, i)} | i < 16 :: !Coef(v, c, i)
    ensures c == 0
  {
    assert !Coef(v, c, 0) && !Coef(v, c, 1) && !Coef(v, c, 2) && !Coef(v, c, 3);
    assert !Coef(v, c, 4) && !Coef(v, c, 5) && !Coef(v, c, 6) && !Coef(v, c, 7);
    assert !Coef(v, c, 8) && !Coef(v, c, 9) && !Coef(v, c, 10) && !Coef(v, c, 11);
    assert !Coef(v, c, 12) && !Coef(v, c, 13) && !Coef(v, c, 14) && !Coef(v, c, 15);
  }

  lemma RemainderIsUnique(v: Variant, a: Coeffs, p: Coeffs, q: Coeffs, r: Coeffs, t: Coeffs)
    requires |a| == |p| + 16 && |p| == |q| && |r| == |t| == 16
    requires Sum(a, Zeroes(|p|) + r) == Multiple(v, p) && Sum(a, Zeroes(|q|) + t) == Multiple(v, q)
    ensures r == t
  {
    var n := |p|;
    hide Multiple;
    var x, y := Multiple(v, p), Multiple(v, q);
    assert forall i {:trigger a[i]} :: 0 <= i < n ==> x[i] == a[i] == y[i];
    assert x[..n] == y[..n];
    QuotientIsUnique(v, p, q);
    forall i | 0 <= i < 16
      ensures r[i] == t[i]
    {
      assert x[n + i] == (a[n + i] != r[i]) && y[n + i] == (a[n + i] != t[i]);
    }
  }

  /** The CRC is the remainder, and nothing else is: the message shifted up by sixteen, its first sixteen
      coefficients inverted, differs from it by a multiple of the generator. */
  lemma CrcIff(v: Variant, s: seq<byte>, c: bv16)
    ensures c == Crc(v, s)
            <==> exists q: Coeffs :: |q| == 8 * |s|
                   && Sum(Dividend(v, s, 8 * |s|), Zeroes(8 * |s|) + Register(v, c)) == Multiple(v, q)
  {
    var n := 8 * |s|;
    var q := CrcIsRemainder(v, s);
    hide Dividend, Multiple, Register, Crc, Zeroes, Sum;
    if p: Coeffs :| |p| == n && Sum(Dividend(v, s, n), Zeroes(n) + Register(v, c)) == Multiple(v, p) {
      RemainderIsUnique(v, Dividend(v, s, n), p, q, Register(v, c), Register(v, Crc(v, s)));
      SameRegister(v, c, Crc(v, s));
    }
  }
}
