/** The restoring-division kernels of the two assembly backends, instruction by instruction, against
    the host backend's `/` and `%`. */
module PicDivide {
  import opened Arith
  import opened PicAsm
  import opened Words

  /** The two instruction sets differ in how the restore step carries into the high byte. */
  datatype Backend = Pic16 | Pic18

  datatype Division = Division(quotient: word, remainder: word, ok: bool)

  // ---------- the host oracle ----------

  function HostDivide(num: dword, den: word): Division {
    if den == 0 then Division(0, 0, false) else Division(num / den % 0x1_0000, num % den, true)
  }

  // ---------- the kernels as functions ----------

  /** Subtract `den` from `rem` bytewise. A borrow out of the low byte is added to the subtrahend's
      high byte, which wraps when that byte is 0xFF. Carry set means no borrow. */
  function SubDen(rem: word, den: word): (word, bool) {
    var lo := Subwf(Lo(rem), Lo(den));
    var hi := Subwf(Hi(rem), if lo.c then Hi(den) else Incf(Hi(den)));
    (Word(lo.r, hi.r), hi.c)
  }

  /** Undo a subtraction that borrowed. */
  function AddDen(b: Backend, rem: word, den: word): word {
    var lo := Addwf(Lo(rem), Lo(den));
    var hi := match b
      case Pic16 => Addwf(Hi(rem), if lo.c then Incf(Hi(den)) else Hi(den))
      case Pic18 => Addwfc(Hi(rem), Hi(den), lo.c);
    Word(lo.r, hi.r)
  }

  /** The dividend, which turns into the quotient, and the partial remainder. */
  datatype Regs = Regs(num: dword, rem: word)

  /** The weight of the top bit of a dividend register. */
  function Top(width: nat): nat {
    if width == 16 then 0x8000 else 0x8000_0000
  }

  /** The dividend register and the extended remainder after the rotation. */
  function Shift(width: nat, s: Regs): (dword, nat)
    requires s.num < 2 * Top(width)
  {
    if s.num >= Top(width) then (2 * (s.num - Top(width)), 2 * s.rem + 1) else (2 * s.num, 2 * s.rem)
  }

  /** The low 16 bits of the extended remainder. */
  function Low16(ext: nat): word
    requires ext < 0x2_0000
  {
    if ext < 0x1_0000 then ext else ext - 0x1_0000
  }

  /** One iteration for a `width`-bit dividend. Only the 32-bit kernel looks at the bit rotated out
      of the remainder. */
  function DivStep(b: Backend, width: nat, s: Regs, den: word): (s': Regs)
    requires s.num < 2 * Top(width)
    ensures s'.num < 2 * Top(width)
  {
    var (num, ext) := Shift(width, s);
    var (rem, c) := SubDen(Low16(ext), den);
    if (width == 32 && 0x1_0000 <= ext) || c then Regs(num + 1, rem) else Regs(num, AddDen(b, rem, den))
  }

  function Iterate(b: Backend, width: nat, num: dword, den: word, k: nat): (s: Regs)
    requires num < 2 * Top(width)
    ensures s.num < 2 * Top(width)
  {
    if k == 0 then Regs(num, 0) else DivStep(b, width, Iterate(b, width, num, den, k - 1), den)
  }

  /** What a kernel returns: the low word of the quotient register, and the remainder. */
  function Divide(b: Backend, width: nat, num: dword, den: word): Division
    requires num < 2 * Top(width)
  {
    if den == 0 then Division(0, 0, false) else
    var s := Iterate(b, width, num, den, width);
    Division(s.num % 0x1_0000, s.rem, true)
  }

  // ---------- exactness ----------

  lemma Bytes(x: word)
    ensures x == Lo(x) + 0x100 * Hi(x) && Hi(x) == x / 0x100
  {
  }

  lemma WordBytes(lo: octet, hi: octet)
    ensures Lo(Word(lo, hi)) == lo && Hi(Word(lo, hi)) == hi
  {
  }

  lemma SubDenExact(rem: word, den: word)
    requires den <= 0xFF00
    ensures SubDen(rem, den) == (if den <= rem then rem - den else rem - den + 0x1_0000, den <= rem)
  {
    Bytes(rem);
    Bytes(den);
    assert Hi(den) == 0xFF ==> Lo(den) == 0;
  }

  lemma AddDenExact(b: Backend, rem: word, den: word)
    requires rem < den <= 0xFF00
    ensures AddDen(b, rem - den + 0x1_0000, den) == rem
  {
    var diff: word := rem - den + 0x1_0000;
    Bytes(rem);
    Bytes(den);
    Bytes(diff);
    hide Lo, Hi, Addwf, Addwfc;
    var lo := Addwf(Lo(diff), Lo(den));
    assert lo.r == Lo(rem);
    assert Hi(den) == 0xFF ==> !lo.c;
  }

  /** One iteration below the wrap: the extended remainder is reduced by `den` when it fits. */
  lemma DivStepExact(b: Backend, width: nat, s: Regs, den: word)
    requires s.num < 2 * Top(width) && 1 <= den <= 0xFF00 && s.rem < den
    requires Shift(width, s).1 < 0x1_0000 || width == 32
    ensures var (num, ext) := Shift(width, s);
            DivStep(b, width, s, den) == if den <= ext then Regs(num + 1, ext - den) else Regs(num, ext)
  {
    var (num, ext) := Shift(width, s);
    SubDenExact(Low16(ext), den);
    if ext < den {
      AddDenExact(b, ext, den);
    }
  }

  // Division by a variable is kept behind names, so that the loop step below does not unfold it.

  function Div(x: nat, d: nat): nat
    requires 0 < d
  {
    x / d
  }

  function Mod(x: nat, d: nat): nat
    requires 0 < d
  {
    x % d
  }

  /** The registers hold the bits `rest` still to come, of weight `p`, over the quotient `q`, and the
      remainder `r`. */
  ghost predicate Holds(s: Regs, rest: nat, p: nat, q: nat, r: nat) {
    s.num == rest * p + q && s.rem == r
  }

  /** The registers after `k` iterations: the `k` high bits of the dividend have been divided; their
      quotient stands in the low bits of the dividend register, below the bits still to come. */
  ghost predicate Reduced(width: nat, num: nat, den: nat, k: nat, s: Regs)
    requires k <= width && 0 < den
  {
    var hi, rest := Div(num, Pow2(width - k)), Mod(num, Pow2(width - k));
    Holds(s, rest, Pow2(k), Div(hi, den), Mod(hi, den))
  }

  lemma PowProduct(a: nat, b: nat)
    ensures Pow2(a) * Pow2(b) == Pow2(a + b)
  {
    if a > 0 {
      PowProduct(a - 1, b);
      assert Pow2(a) * Pow2(b) == 2 * (Pow2(a - 1) * Pow2(b));
    }
  }

  /** Splitting off the next dividend bit. */
  lemma NextBit(num: nat, h: nat) returns (bit: nat)
    requires 0 < h
    ensures bit <= 1
    ensures num / h == 2 * (num / (2 * h)) + bit
    ensures num % (2 * h) == bit * h + num % h
  {
    var hi, lo := num / (2 * h), num % (2 * h);
    bit := if lo < h then 0 else 1;
    var lo' := lo - bit * h;
    assert num == hi * (2 * h) + lo;
    assert num == (2 * hi + bit) * h + lo' by {
      assert hi * (2 * h) == (2 * hi) * h;
      assert (2 * hi + bit) * h == (2 * hi) * h + bit * h;
    }
    DivModUnique(num, h, 2 * hi + bit, lo');
  }

  /** The shift of the dividend register `full * p + q`, where `h` is the weight of the bit shifted
      out and `p` that of the next quotient bit. */
  lemma ShiftNum(half: nat, h: nat, p: nat, full: nat, bit: nat, lo: nat, q: nat)
    requires half == h * p && bit <= 1 && full == bit * h + lo && lo < h && q < p
    ensures var num := full * p + q;
            && (bit == 1 ==> num >= half && 2 * (num - half) == lo * (2 * p) + 2 * q)
            && (bit == 0 ==> num < half && 2 * num == lo * (2 * p) + 2 * q)
  {
    assert lo * p + q < half by {
      MulAtLeast(h - lo, p);
      assert (h - lo) * p + lo * p == h * p;
    }
    assert lo * (2 * p) == 2 * (lo * p);
    if bit == 1 {
      assert (h + lo) * p == h * p + lo * p;
    }
  }

  lemma NextQuotient(hi: nat, bit: nat, den: nat)
    requires 0 < den && bit <= 1
    ensures var ext := 2 * (hi % den) + bit;
            && ext < 2 * den
            && (2 * hi + bit) / den == 2 * (hi / den) + (if den <= ext then 1 else 0)
            && (2 * hi + bit) % den == if den <= ext then ext - den else ext
  {
    var q, r := hi / den, hi % den;
    var ext := 2 * r + bit;
    assert hi == q * den + r;
    assert 2 * hi + bit == (2 * q) * den + ext by {
      assert (2 * q) * den == 2 * (q * den);
    }
    if den <= ext {
      assert (2 * q + 1) * den == (2 * q) * den + den;
      DivModUnique(2 * hi + bit, den, 2 * q + 1, ext - den);
    } else {
      DivModUnique(2 * hi + bit, den, 2 * q, ext);
    }
  }

  lemma DivLess(x: nat, h: nat, p: nat)
    requires 0 < h && x < h * p
    ensures x / h < p
  {
  }

  lemma DivShrinks(x: nat, d: nat)
    requires 0 < d
    ensures x / d <= x && x % d <= x
  {
    var q := x / d;
    assert x == q * d + x % d;
    MulMonotone(1, d, q);
  }

  /** The next dividend bit `bit`, of weight `h`, is shifted into the extended remainder. */
  ghost predicate TakesBit(width: nat, s: Regs, rest: nat, p: nat, q: nat, r: nat, bit: nat)
    requires s.num < 2 * Top(width)
  {
    Shift(width, s) == (rest * p + 2 * q, 2 * r + bit) && bit <= 1 && (width == 32 || 2 * r + bit < 0x1_0000)
  }

  /** The rotation splits off the next dividend bit. */
  lemma ShiftReduced(width: nat, num: nat, den: word, k: nat, s: Regs)
    returns (h: nat, hi: nat, bit: nat)
    requires width == 16 || width == 32
    requires num < 2 * Top(width) && s.num < 2 * Top(width)
    requires 1 <= den && k < width && Reduced(width, num, den, k, s)
    ensures h == Pow2(width - (k + 1)) && Div(num, h) == 2 * hi + bit
    ensures s.rem == Mod(hi, den)
    ensures TakesBit(width, s, Mod(num, h), Pow2(k + 1), Div(hi, den), Mod(hi, den), bit)
  {
    h := Pow2(width - k - 1);
    var p := Pow2(k);
    hi := num / (2 * h);
    bit := NextBit(num, h);
    var full, lo := num % (2 * h), num % h;
    Weights(width, k);
    DivLess(num, 2 * h, p);
    DivShrinks(hi, den);
    assert Pow2(width - k) == 2 * h && Pow2(k + 1) == 2 * p;
    assert s.num == full * p + hi / den && s.rem == hi % den;
    hide Reduced, Pow2;
    ShiftNum(Top(width), h, p, full, bit, lo, hi / den);
    NoCarryFor16(width, num, h, hi, bit, den);
  }

  /** One iteration divides by `den` what has been shifted in so far. */
  lemma StepDivides(b: Backend, width: nat, s: Regs, den: word, rest: nat, p: nat, hi: nat, bit: nat)
    requires s.num < 2 * Top(width) && 1 <= den <= 0xFF00 && s.rem == Mod(hi, den)
    requires TakesBit(width, s, rest, p, Div(hi, den), Mod(hi, den), bit)
    ensures Holds(DivStep(b, width, s, den), rest, p, Div(2 * hi + bit, den), Mod(2 * hi + bit, den))
  {
    hide DivStep, Shift, Top;
    NextQuotient(hi, bit, den);
    DivStepExact(b, width, s, den);
  }

  lemma ReducedStep(b: Backend, width: nat, num: nat, den: word, k: nat, s: Regs)
    requires width == 16 || width == 32
    requires num < 2 * Top(width) && s.num < 2 * Top(width)
    requires 1 <= den <= 0xFF00 && k < width && Reduced(width, num, den, k, s)
    ensures Reduced(width, num, den, k + 1, DivStep(b, width, s, den))
  {
    hide *;
    var h, hi, bit := ShiftReduced(width, num, den, k, s);
    StepDivides(b, width, s, den, Mod(num, h), Pow2(k + 1), hi, bit);
    ReducedIs(width, num, den, k + 1, DivStep(b, width, s, den), h, 2 * hi + bit);
  }

  lemma ReducedIs(width: nat, num: nat, den: nat, k: nat, s: Regs, h: nat, hi: nat)
    requires k <= width && 0 < den && h == Pow2(width - k) && hi == Div(num, h)
    requires Holds(s, Mod(num, h), Pow2(k), Div(hi, den), Mod(hi, den))
    ensures Reduced(width, num, den, k, s)
  {
    hide Div, Mod, Holds, Pow2;
  }

  /** With a 16-bit dividend the partial remainder never carries out of 16 bits. */
  lemma NoCarryFor16(width: nat, num: nat, h: nat, hi: nat, bit: nat, den: nat)
    requires num < 2 * Top(width) && 0 < h && 0 < den && num / h == 2 * hi + bit
    ensures width == 16 ==> 2 * (hi % den) + bit < 0x1_0000
  {
    DivShrinks(num, h);
    DivShrinks(hi, den);
  }

  lemma Weights(width: nat, k: nat)
    requires (width == 16 || width == 32) && k < width
    ensures Pow2(width - k - 1) * Pow2(k) == Top(width)
    ensures 2 * Pow2(width - k - 1) * Pow2(k) == 2 * Top(width)
  {
    TopIsPow(width);
    PowProduct(width - k - 1, k);
    Double(Pow2(width - k - 1), Pow2(k));
  }

  lemma TopIsPow(width: nat)
    requires width == 16 || width == 32
    ensures Pow2(width - 1) == Top(width) && Pow2(width) == 2 * Top(width)
  {
    PowValues();
  }

  lemma Double(a: nat, b: nat)
    ensures 2 * a * b == 2 * (a * b)
  {
  }

  lemma ReducedStart(width: nat, num: dword, den: word)
    requires (width == 16 || width == 32) && num < 2 * Top(width) && 1 <= den
    ensures Reduced(width, num, den, 0, Regs(num, 0))
  {
    TopIsPow(width);
    DivModUnique(num, Pow2(width), 0, num);
    DivModUnique(0, den, 0, 0);
  }

  lemma IterateStart(b: Backend, width: nat, num: dword, den: word)
    requires num < 2 * Top(width)
    ensures Iterate(b, width, num, den, 0) == Regs(num, 0)
  {
  }

  lemma IterateNext(b: Backend, width: nat, num: dword, den: word, k: nat)
    requires num < 2 * Top(width)
    ensures Iterate(b, width, num, den, k + 1) == DivStep(b, width, Iterate(b, width, num, den, k), den)
  {
    hide DivStep;
  }

  lemma {:induction false} IterateReduced(b: Backend, width: nat, num: dword, den: word, k: nat)
    requires width == 16 || width == 32
    requires num < 2 * Top(width) && 1 <= den <= 0xFF00 && k <= width
    ensures Reduced(width, num, den, k, Iterate(b, width, num, den, k))
  {
    hide *;
    if k == 0 {
      IterateStart(b, width, num, den);
      ReducedStart(width, num, den);
    } else {
      IterateReduced(b, width, num, den, k - 1);
      ReducedStep(b, width, num, den, k - 1, Iterate(b, width, num, den, k - 1));
      IterateNext(b, width, num, den, k - 1);
    }
  }

  /** Above the wrap a subtraction that does not borrow can only be restored to a nonzero value. */
  lemma WrapRestoresNonzero(b: Backend, rem: word, den: word)
    requires 0xFF00 < den && !SubDen(rem, den).1
    ensures AddDen(b, SubDen(rem, den).0, den) != 0
  {
    Bytes(den);
    var lo := Subwf(Lo(rem), Lo(den));
    var w := if lo.c then Hi(den) else Incf(Hi(den));
    var hi := Subwf(Hi(rem), w);
    assert lo.c;
    WordBytes(lo.r, hi.r);
    hide Lo, Hi;
    assert Addwf(lo.r, Lo(den)).r == Lo(rem) > 0;
  }

  /** Above the wrap an iteration leaves a set quotient bit or a nonzero remainder, whatever it
      started from. */
  lemma WrapLeavesTrace(b: Backend, width: nat, s: Regs, den: word)
    requires s.num < 2 * Top(width) && 0xFF00 < den
    ensures var s' := DivStep(b, width, s, den);
            s'.num % 2 == 1 || s'.rem != 0
  {
    hide SubDen, AddDen, Top;
    var (num, ext) := Shift(width, s);
    var rem := Low16(ext);
    ShiftIsEven(width, s);
    if !SubDen(rem, den).1 {
      WrapRestoresNonzero(b, rem, den);
    }
    hide Shift, Low16;
    assert (num + 1) % 2 == 1;
  }

  lemma ShiftIsEven(width: nat, s: Regs)
    requires s.num < 2 * Top(width)
    ensures Shift(width, s).0 % 2 == 0
  {
  }

  lemma DivideExact(b: Backend, width: nat, num: dword, den: word)
    requires width == 16 || width == 32
    requires num < 2 * Top(width) && 1 <= den <= 0xFF00
    ensures Divide(b, width, num, den) == HostDivide(num, den)
  {
    IterateReduced(b, width, num, den, width);
    DivModUnique(num, 1, num, 0);
  }

  /** Above the wrap no kernel ever reports quotient 0 with remainder 0. */
  lemma WrapSpoilsZero(b: Backend, width: nat, num: dword, den: word)
    requires num < 2 * Top(width) && 0 < width && 0xFF00 < den
    ensures var d := Divide(b, width, num, den);
            d.quotient % 2 == 1 || d.remainder != 0
  {
    var before := Iterate(b, width, num, den, width - 1);
    WrapLeavesTrace(b, width, before, den);
    LowKeepsParity(DivStep(b, width, before, den).num);
  }

  lemma LowKeepsParity(n: nat)
    ensures n % 0x1_0000 % 2 == n % 2
  {
  }

  lemma PowValues()
    ensures Pow2(15) == 0x8000 && Pow2(16) == 0x1_0000
    ensures Pow2(31) == 0x8000_0000 && Pow2(32) == 0x1_0000_0000
  {
    assert Pow2(4) == 16;
    PowProduct(4, 4);
    PowProduct(8, 8);
    PowProduct(16, 16);
  }

  /** Each kernel agrees with the host on every numerator exactly when the denominator is at most
      0xFF00 (zero included: both report it). */
  lemma DivideExactIff(b: Backend, width: nat, den: word)
    requires width == 16 || width == 32
    ensures den <= 0xFF00 <==>
            forall num: dword :: num < 2 * Top(width) ==> Divide(b, width, num, den) == HostDivide(num, den)
  {
    if den <= 0xFF00 {
      forall num: dword | num < 2 * Top(width)
        ensures Divide(b, width, num, den) == HostDivide(num, den)
      {
        if 0 < den {
          DivideExact(b, width, num, den);
        }
      }
    } else {
      WrapSpoilsZero(b, width, 0, den);
      DivModUnique(0, den, 0, 0);
      assert HostDivide(0, den) == Division(0, 0, true);
    }
  }
}
