/** The division kernels of the PIC16 and PIC18 backends on their byte cells, one statement per
    instruction group, and the signed wrapper that both share. The cells are static in the
    firmware only because inline assembly cannot name locals; each is written before it is read. */
module PicKernels {
  import opened Arith
  import opened PicAsm
  import opened PicDivide
  import opened Words

  /** bsf f,0 */
  function Bsf0(f: octet): octet {
    f - f % 2 + 1
  }

  lemma Rotate16(n0: octet, n1: octet, r0: octet, r1: octet)
    ensures var a0 := Rlf(n0, false);
            var a1 := Rlf(n1, a0.c);
            var a2 := Rlf(r0, a1.c);
            var a3 := Rlf(r1, a2.c);
            var (num, ext) := Shift(16, Regs(Word(n0, n1), Word(r0, r1)));
            Word(a0.r, a1.r) == num && Word(a2.r, a3.r) == Low16(ext) && a0.r % 2 == 0
  {
  }

  lemma Rotate32(n0: octet, n1: octet, n2: octet, n3: octet, r0: octet, r1: octet)
    ensures var a0 := Rlf(n0, false);
            var a1 := Rlf(n1, a0.c);
            var a2 := Rlf(n2, a1.c);
            var a3 := Rlf(n3, a2.c);
            var a4 := Rlf(r0, a3.c);
            var a5 := Rlf(r1, a4.c);
            var (num, ext) := Shift(32, Regs(Dword(n0, n1, n2, n3), Word(r0, r1)));
            && Dword(a0.r, a1.r, a2.r, a3.r) == num && Word(a4.r, a5.r) == Low16(ext)
            && a0.r % 2 == 0 && (a5.c <==> 0x1_0000 <= ext)
  {
    assert n3 >= 0x80 <==> Dword(n0, n1, n2, n3) >= Top(32);
  }

  lemma DwordBytes(x: dword)
    ensures Dword(Lo(x), Hi(x), Lo(x / 0x1_0000), Hi(x / 0x1_0000)) == x && x < 2 * Top(32)
  {
    var lo: word, hi: word := x % 0x1_0000, x / 0x1_0000;
    Bytes(lo);
    Bytes(hi);
    DivModUnique(x, 0x100, 0x100 * hi + Hi(lo), Lo(lo));
    DivModUnique(0x100 * hi + Hi(lo), 0x100, hi, Hi(lo));
  }

  /** The subtraction both instruction sets use: the borrow goes through W. */
  method Subtract(r0: octet, r1: octet, d0: octet, d1: octet) returns (s0: octet, s1: octet, c: bool)
    ensures (Word(s0, s1), c) == SubDen(Word(r0, r1), Word(d0, d1))
    ensures var r, d := Word(r0, r1), Word(d0, d1);
            d <= 0xFF00 ==> Word(s0, s1) == (if d <= r then r - d else r - d + 0x1_0000) && c == (d <= r)
  {
    WordBytes(r0, r1);
    WordBytes(d0, d1);
    if Word(d0, d1) <= 0xFF00 {
      SubDenExact(Word(r0, r1), Word(d0, d1));
    }
    var w := d0;
    var a := Subwf(r0, w);
    s0 := a.r;
    w := d1;
    if !a.c {
      w := Incf(d1);
    }
    a := Subwf(r1, w);
    s1, c := a.r, a.c;
  }

  /** Adding back what a borrowing subtraction took. */
  lemma Restores(b: Backend, r: word, d: word)
    ensures 0x1_0000 - d <= r && d <= 0xFF00 ==> AddDen(b, r, d) == r + d - 0x1_0000
  {
    if 0x1_0000 - d <= r && d <= 0xFF00 {
      AddDenExact(b, r + d - 0x1_0000, d);
    }
  }

  method RestorePic16(r0: octet, r1: octet, d0: octet, d1: octet) returns (s0: octet, s1: octet)
    ensures Word(s0, s1) == AddDen(Pic16, Word(r0, r1), Word(d0, d1))
    ensures var r, d := Word(r0, r1), Word(d0, d1);
            0x1_0000 - d <= r && d <= 0xFF00 ==> Word(s0, s1) == r + d - 0x1_0000
  {
    WordBytes(r0, r1);
    WordBytes(d0, d1);
    Restores(Pic16, Word(r0, r1), Word(d0, d1));
    var w := d0;
    var a := Addwf(r0, w);
    s0 := a.r;
    w := d1;
    if a.c {
      w := Incf(d1);
    }
    a := Addwf(r1, w);
    s1 := a.r;
  }

  method RestorePic18(r0: octet, r1: octet, d0: octet, d1: octet) returns (s0: octet, s1: octet)
    ensures Word(s0, s1) == AddDen(Pic18, Word(r0, r1), Word(d0, d1))
    ensures var r, d := Word(r0, r1), Word(d0, d1);
            0x1_0000 - d <= r && d <= 0xFF00 ==> Word(s0, s1) == r + d - 0x1_0000
  {
    WordBytes(r0, r1);
    WordBytes(d0, d1);
    Restores(Pic18, Word(r0, r1), Word(d0, d1));
    var a := Addwf(r0, d0);
    s0 := a.r;
    a := Addwfc(r1, d1, a.c);
    s1 := a.r;
  }

  method Restore(b: Backend, r0: octet, r1: octet, d0: octet, d1: octet) returns (s0: octet, s1: octet)
    ensures Word(s0, s1) == AddDen(b, Word(r0, r1), Word(d0, d1))
  {
    match b
    case Pic16 => s0, s1 := RestorePic16(r0, r1, d0, d1);
    case Pic18 => s0, s1 := RestorePic18(r0, r1, d0, d1);
  }

  /** The body of the 16/16 loop. */
  method Step16(b: Backend, n0: octet, n1: octet, r0: octet, r1: octet, d0: octet, d1: octet)
    returns (m0: octet, m1: octet, s0: octet, s1: octet)
    ensures Regs(Word(m0, m1), Word(s0, s1)) == DivStep(b, 16, Regs(Word(n0, n1), Word(r0, r1)), Word(d0, d1))
  {
    Rotate16(n0, n1, r0, r1);
    var a := Rlf(n0, false);
    m0 := a.r;
    a := Rlf(n1, a.c);
    m1 := a.r;
    a := Rlf(r0, a.c);
    s0 := a.r;
    a := Rlf(r1, a.c);
    s1 := a.r;
    hide Rlf, Shift, Low16, SubDen, AddDen, Top;
    var c;
    s0, s1, c := Subtract(s0, s1, d0, d1);
    if c {
      m0 := Bsf0(m0);
    } else {
      s0, s1 := Restore(b, s0, s1, d0, d1);
    }
  }

  /** The body of the 32/16 loop: a bit carried out of the remainder forces the subtraction. */
  method Step32(b: Backend, n0: octet, n1: octet, n2: octet, n3: octet, r0: octet, r1: octet, d0: octet, d1: octet)
    returns (m0: octet, m1: octet, m2: octet, m3: octet, s0: octet, s1: octet)
    ensures Regs(Dword(m0, m1, m2, m3), Word(s0, s1))
            == DivStep(b, 32, Regs(Dword(n0, n1, n2, n3), Word(r0, r1)), Word(d0, d1))
  {
    hide Rlf, Shift, Low16, SubDen, AddDen, Top;
    Rotate32(n0, n1, n2, n3, r0, r1);
    var a := Rlf(n0, false);
    m0 := a.r;
    a := Rlf(n1, a.c);
    m1 := a.r;
    a := Rlf(n2, a.c);
    m2 := a.r;
    a := Rlf(n3, a.c);
    m3 := a.r;
    a := Rlf(r0, a.c);
    s0 := a.r;
    a := Rlf(r1, a.c);
    s1 := a.r;
    var forced := a.c;
    var c;
    s0, s1, c := Subtract(s0, s1, d0, d1);
    if forced || c {
      m0 := Bsf0(m0);
    } else {
      s0, s1 := Restore(b, s0, s1, d0, d1);
    }
  }

  lemma DivideEnd(b: Backend, width: nat, num: dword, den: word, s: Regs)
    requires (width == 16 || width == 32) && num < 2 * Top(width)
    requires den == 0 || s == Iterate(b, width, num, den, width)
    ensures Divide(b, width, num, den)
            == if den == 0 then Division(0, 0, false) else Division(s.num % 0x1_0000, s.rem, true)
    ensures den <= 0xFF00 ==> Divide(b, width, num, den) == HostDivide(num, den)
  {
    if 0 < den <= 0xFF00 {
      DivideExact(b, width, num, den);
    }
  }

  lemma WordOf(x: word)
    ensures Word(Lo(x), Hi(x)) == x && x % 0x1_0000 == x && x < 2 * Top(16) && Word(0, 0) == 0
  {
  }

  method DivmodU16(b: Backend, num: word, den: word) returns (res: Division)
    ensures res == Divide(b, 16, num, den)
    ensures den <= 0xFF00 ==> res == HostDivide(num, den)
    ensures den == 0 ==> !res.ok && res.quotient == 0 && res.remainder == 0
  {
    WordOf(num);
    WordOf(den);
    hide *;
    if den == 0 {
      DivideEnd(b, 16, num, den, Regs(0, 0));
      return Division(0, 0, false);
    }
    var n0, n1, d0, d1 := Lo(num), Hi(num), Lo(den), Hi(den);
    var r0: octet, r1: octet := 0, 0;
    var cnt := 16;
    IterateStart(b, 16, num, den);
    while cnt != 0
      invariant 0 <= cnt <= 16
      invariant Regs(Word(n0, n1), Word(r0, r1)) == Iterate(b, 16, num, den, 16 - cnt)
    {
      IterateNext(b, 16, num, den, 16 - cnt);
      n0, n1, r0, r1 := Step16(b, n0, n1, r0, r1, d0, d1);
      cnt := cnt - 1;
    }
    res := Division(Word(n0, n1), Word(r0, r1), true);
    WordOf(Word(n0, n1));
    DivideEnd(b, 16, num, den, Regs(Word(n0, n1), Word(r0, r1)));
  }

  method DivmodU32(b: Backend, num: dword, den: word) returns (res: Division)
    ensures res == Divide(b, 32, num, den)
    ensures den <= 0xFF00 ==> res == HostDivide(num, den)
    ensures den == 0 ==> !res.ok && res.quotient == 0 && res.remainder == 0
  {
    DwordBytes(num);
    WordOf(den);
    hide *;
    if den == 0 {
      DivideEnd(b, 32, num, den, Regs(0, 0));
      return Division(0, 0, false);
    }
    var n0, n1, n2, n3 := Lo(num), Hi(num), Lo(num / 0x1_0000), Hi(num / 0x1_0000);
    var d0, d1 := Lo(den), Hi(den);
    var r0: octet, r1: octet := 0, 0;
    var cnt := 32;
    IterateStart(b, 32, num, den);
    while cnt != 0
      invariant 0 <= cnt <= 32
      invariant Regs(Dword(n0, n1, n2, n3), Word(r0, r1)) == Iterate(b, 32, num, den, 32 - cnt)
    {
      IterateNext(b, 32, num, den, 32 - cnt);
      n0, n1, n2, n3, r0, r1 := Step32(b, n0, n1, n2, n3, r0, r1, d0, d1);
      cnt := cnt - 1;
    }
    res := Division(Word(n0, n1), Word(r0, r1), true);
    LowWord(n0, n1, n2, n3);
    DivideEnd(b, 32, num, den, Regs(Dword(n0, n1, n2, n3), Word(r0, r1)));
  }

  lemma LowWord(b0: octet, b1: octet, b2: octet, b3: octet)
    ensures Dword(b0, b1, b2, b3) % 0x1_0000 == Word(b0, b1)
  {
  }

  // ---------- signed division ----------

  type sword = x: int | -0x8000 <= x < 0x8000

  datatype SDivision = SDivision(quotient: sword, remainder: sword, ok: bool)

  function Abs(x: int): nat {
    if x < 0 then -x else x
  }

  /** Two's-complement reading of a 16-bit pattern. */
  function AsSigned(x: word): sword {
    if x < 0x8000 then x else x - 0x1_0000
  }

  /** 0u - x in 16 bits. */
  function Negate(x: word): word {
    if x == 0 then 0 else 0x1_0000 - x
  }

  /** The bit pattern of a signed value. */
  function Pattern(x: sword): word {
    if x < 0 then x + 0x1_0000 else x
  }

  /** Division truncated toward zero, as C defines it. */
  function TruncDiv(a: int, b: int): int
    requires b != 0
  {
    var q := Abs(a) / Abs(b);
    if (a < 0) == (b < 0) then q else -q
  }

  function TruncMod(a: int, b: int): int
    requires b != 0
  {
    a - TruncDiv(a, b) * b
  }

  /** A 32-bit result cast back to int16. */
  function Cast16(x: int): sword {
    AsSigned(x % 0x1_0000)
  }

  function HostDivideSigned(num: sword, den: sword): SDivision {
    if den == 0 then SDivision(0, 0, false)
    else SDivision(Cast16(TruncDiv(num, den)), Cast16(TruncMod(num, den)), true)
  }

  /** The signs put back on an unsigned result. */
  function WithSigns(num: sword, den: sword, u: Division): SDivision {
    SDivision(AsSigned(if (num < 0) != (den < 0) then Negate(u.quotient) else u.quotient),
              AsSigned(if num < 0 then Negate(u.remainder) else u.remainder), true)
  }

  lemma WithSignsIsHost(num: sword, den: sword)
    requires den != 0
    ensures WithSigns(num, den, HostDivide(Abs(num), Abs(den))) == HostDivideSigned(num, den)
  {
    SignedFromMagnitudes(num, den);
  }

  lemma Magnitude(x: sword)
    ensures (if x < 0 then Negate(Pattern(x)) else Pattern(x)) == Abs(x) <= 0x8000
  {
  }

  lemma SignedFromMagnitudes(num: sword, den: sword)
    requires den != 0
    ensures var q, r := Abs(num) / Abs(den), Abs(num) % Abs(den);
            && 0 <= q <= 0x8000 && 0 <= r < 0x8000
            && TruncDiv(num, den) == (if (num < 0) != (den < 0) then -q else q)
            && TruncMod(num, den) == if num < 0 then -r else r
  {
    var n, d := Abs(num), Abs(den);
    var q, r := n / d, n % d;
    DivShrinks(n, d);
    assert n == q * d + r;
    if num < 0 {
      if den < 0 {
        assert q * den == -(q * d);
      } else {
        assert (-q) * den == -(q * d);
      }
    } else if den < 0 {
      assert (-q) * den == q * d;
    }
  }

  /** Both backends divide the magnitudes and reapply the signs; this agrees with the host for every
      pair, INT16_MIN / -1 included, because a magnitude never exceeds 0x8000. */
  method DivmodS16(b: Backend, num: sword, den: sword) returns (res: SDivision)
    ensures res == HostDivideSigned(num, den)
    ensures den == 0 ==> !res.ok && res.quotient == 0 && res.remainder == 0
  {
    if den == 0 {
      return SDivision(0, 0, false);
    }
    Magnitude(num);
    Magnitude(den);
    WithSignsIsHost(num, den);
    hide Divide, HostDivide, HostDivideSigned;
    var negQ := (num < 0) != (den < 0);
    var unum := if num < 0 then Negate(Pattern(num)) else Pattern(num);
    var uden := if den < 0 then Negate(Pattern(den)) else Pattern(den);
    var u := DivmodU16(b, unum, uden);
    res := SDivision(AsSigned(if negQ then Negate(u.quotient) else u.quotient),
                     AsSigned(if num < 0 then Negate(u.remainder) else u.remainder), true);
  }

  // ---------- square root ----------

  /** The width of `unsigned int`: 16 bits under XC8, 32 on the host. */
  datatype UInt = UInt16 | UInt32

  function UIntWrap(u: UInt): nat {
    if u == UInt16 then 0x1_0000 else 0x1_0000_0000
  }

  /** (uint16_t)(sum / 2u) in the arithmetic of `unsigned int`. */
  function Halve(u: UInt, sum: nat): word {
    sum % UIntWrap(u) / 2 % 0x1_0000
  }

  /** What holds of the estimate and its successor: both are at or above the root, and a successor
      that does not decrease shows the root; in the wrapping case both collapse to 0. */
  ghost predicate Estimates(u: UInt, value: nat, x: nat, y: nat) {
    if u == UInt16 && value == 65535 then y == 0 && (x == value || x == 0)
    else Above(value, x, y)
  }

  lemma NextEstimate(u: UInt, value: word, x: word)
    requires 2 <= value && x <= 0x8000
    requires if u == UInt16 && value == 65535 then x == 0 else 1 <= x && value < (x + 1) * (x + 1)
    ensures x <= 0xFF00 && Estimates(u, value, x, Halve(u, x + HostDivide(value, x).quotient))
  {
    if x == 0 {
      assert HostDivide(value, x) == Division(0, 0, false);
      assert Halve(u, 0) == 0;
    } else {
      NextAbove(u, value, x);
    }
  }

  lemma NextAbove(u: UInt, value: word, x: word)
    requires 2 <= value && 1 <= x <= 0x8000 && value < (x + 1) * (x + 1)
    ensures Above(value, x, Halve(u, x + HostDivide(value, x).quotient))
  {
    hide HostDivide, Halve;
    var q := value / x;
    NewtonStep(value, x);
    DivShrinks(value, x);
    HalveSmall(u, x + q);
    SmallQuotient(value, x, q);
  }

  lemma SmallQuotient(value: word, x: word, q: word)
    requires x != 0 && q == value / x
    ensures HostDivide(value, x).quotient == q
  {
  }

  lemma HalveSmall(u: UInt, sum: nat)
    requires sum < 0x1_0000
    ensures Halve(u, sum) == sum / 2
  {
  }

  lemma LastEstimate(u: UInt, value: nat, x: nat, y: nat)
    requires Estimates(u, value, x, y) && y >= x
    ensures !(u == UInt16 && value == 65535) ==> x * x <= value < (x + 1) * (x + 1)
    ensures u == UInt16 && value == 65535 ==> x == 0
  {
  }

  /** Both estimates are at or above the root, and one that does not decrease is the root. */
  ghost predicate Above(value: nat, x: nat, y: nat) {
    1 <= y <= 0x8000 && value < (x + 1) * (x + 1) && value < (y + 1) * (y + 1) && (y >= x ==> x * x <= value)
  }

  lemma FirstEstimate(u: UInt, value: word)
    requires 2 <= value
    ensures Estimates(u, value, value, Halve(u, value + 1))
  {
    FirstAbove(value);
    if u == UInt32 || value < 65535 {
      HalveFirst(u, value);
    }
    hide Above;
  }

  lemma HalveFirst(u: UInt, value: word)
    requires u == UInt32 || value < 65535
    ensures Halve(u, value + 1) == (value + 1) / 2
  {
  }

  lemma FirstAbove(value: nat)
    requires 2 <= value <= 65535
    ensures Above(value, value, (value + 1) / 2)
  {
    var y := (value + 1) / 2;
    assert (y + 1) * (y + 1) == y * y + 2 * y + 1;
    assert (value + 1) * (value + 1) == value * value + 2 * value + 1;
    MulAtLeast(value, value);
    assert y < value;
  }

  /** From an estimate at or above the root, the next is at or above the root, and if it does not
      decrease the estimate was the root. */
  lemma NewtonStep(value: nat, x: nat)
    requires 1 <= x <= 0x8000 && value < (x + 1) * (x + 1) && 1 <= value <= 65535
    ensures var q := value / x;
            var y := (x + q) / 2;
            x + q < 0x1_0000 && 1 <= y <= 0x8000 && value < (y + 1) * (y + 1) && (y >= x ==> x * x <= value)
  {
    var q := value / x;
    var y := (x + q) / 2;
    assert value == q * x + value % x;
    QuotientBound(value, x, q);
    AtLeastRoot(value, x, q, y);
    if y >= x {
      assert q >= x;
      assert q * x >= x * x by { MulMonotone(x, q, x); }
    }
  }

  lemma QuotientBound(value: nat, x: nat, q: nat)
    requires 1 <= x && q == value / x && value < (x + 1) * (x + 1)
    ensures q <= x + 2
  {
    assert value == q * x + value % x;
    assert (x + 3) * x == x * x + 3 * x;
    assert (x + 1) * (x + 1) == x * x + 2 * x + 1;
    if q >= x + 3 {
      MulMonotone(x + 3, q, x);
      assert false;
    }
  }

  /** value < (q + 1) * x <= (y + 1)^2, because q + 1 + x <= 2 * (y + 1). */
  lemma AtLeastRoot(value: nat, x: nat, q: nat, y: nat)
    requires 1 <= x && q == value / x && y == (x + q) / 2
    ensures value < (y + 1) * (y + 1)
  {
    var s: int, d: int := y + 1, y + 1 - x;
    assert value == q * x + value % x;
    assert value < (q + 1) * x by {
      assert (q + 1) * x == q * x + x;
    }
    assert q + 1 <= s + d;
    Squares(s, d);
    if q + 1 <= s + d {
      MulMonotone(q + 1, s + d, x);
    }
  }

  lemma Squares(s: int, d: int)
    ensures (s + d) * (s - d) <= s * s
  {
    assert (s + d) * (s - d) == s * s - d * d;
    assert d * d >= 0;
  }

  lemma NextFromLast(u: UInt, value: word, x: word, y: word)
    requires 2 <= value && Estimates(u, value, x, y) && y < x <= value
    ensures y <= 0xFF00 && Estimates(u, value, y, Halve(u, y + HostDivide(value, y).quotient))
  {
    NextEstimate(u, value, y);
  }

  /** Newton's iteration from above. It returns the floor of the square root of every value, except
      that with a 16-bit `unsigned int` the initial `x + 1` wraps for 65535 and the result is 0. */
  method SqrtU16(b: Backend, u: UInt, value: word) returns (x: word)
    ensures !(u == UInt16 && value == 65535) ==> x * x <= value < (x + 1) * (x + 1)
    ensures u == UInt16 && value == 65535 ==> x == 0
  {
    if value < 2 {
      return value;
    }
    hide *;
    x := value;
    var y: word := Halve(u, x + 1);
    FirstEstimate(u, value);
    while y < x
      invariant x <= value && Estimates(u, value, x, y)
      decreases x
    {
      NextFromLast(u, value, x, y);
      x := y;
      var d := DivmodU16(b, value, x);
      y := Halve(u, x + d.quotient);
    }
    LastEstimate(u, value, x, y);
  }
}
