/** The PIC18 16x16 multiply from four hardware 8x8 products, its signed form over the negation
    cascade, and the flags of the PIC16 add and subtract. */
module PicMultiply {
  import opened Arith
  import opened PicAsm
  import opened PicDivide
  import opened PicKernels
  import opened Words

  /** mulwf: PRODL and PRODH. */
  function Mulwf(f: octet, w: octet): (p: (octet, octet))
    ensures Word(p.0, p.1) == f * w
  {
    ProductFits(f, w);
    (f * w % 0x100, f * w / 0x100)
  }

  lemma ProductFits(f: octet, w: octet)
    ensures 0 <= f * w <= 0xFE01
  {
  }

  /** Adds the product `p` at byte offset 0 of a three-byte window, rippling the carry; `lost` is
      the carry out of the window. */
  method AddProduct(x0: octet, x1: octet, x2: octet, p: (octet, octet))
    returns (y0: octet, y1: octet, y2: octet, lost: bool)
    ensures y0 + 0x100 * y1 + 0x1_0000 * y2 + 0x100_0000 * Carry(lost)
            == x0 + 0x100 * x1 + 0x1_0000 * x2 + Word(p.0, p.1)
  {
    var a := Addwf(x0, p.0);
    y0 := a.r;
    a := Addwfc(x1, p.1, a.c);
    y1 := a.r;
    a := Addwfc(x2, 0, a.c);
    y2, lost := a.r, a.c;
  }

  /** Four partial products summed at their byte offsets. No carry ever leaves byte 3, so the result
      is the exact product. */
  method MulU16(a: word, b: word) returns (r: dword)
    ensures r == a * b
  {
    var aL, aH, bL, bH := Lo(a), Hi(a), Lo(b), Hi(b);
    var r0: octet, r1: octet, r2: octet, r3: octet := 0, 0, 0, 0;
    var lost;
    var ll, lh, hl, hh := Mulwf(bL, aL), Mulwf(bH, aL), Mulwf(bL, aH), Mulwf(bH, aH);
    ProductFits(aL, bL);
    ProductFits(aL, bH);
    ProductFits(aH, bL);
    ProductFits(aH, bH);
    SchoolProduct(a, b);
    r0, r1, r2, lost := AddProduct(r0, r1, r2, ll);
    r1, r2, r3, lost := AddProduct(r1, r2, r3, lh);
    r1, r2, r3, lost := AddProduct(r1, r2, r3, hl);
    assert !lost;
    var s := Addwf(r2, hh.0);
    r2 := s.r;
    s := Addwfc(r3, hh.1, s.c);
    r3 := s.r;
    assert !s.c;
    r := Dword(r0, r1, r2, r3);
  }

  lemma SchoolProduct(a: word, b: word)
    ensures a * b == Lo(a) * Lo(b) + 0x100 * (Lo(a) * Hi(b)) + 0x100 * (Hi(a) * Lo(b)) + 0x1_0000 * (Hi(a) * Hi(b))
    ensures a * b <= 0xFFFE_0001
  {
    Bytes(a);
    Bytes(b);
    Distribute(Lo(a), Hi(a), Lo(b), Hi(b));
    MulMonotone(a, 0xFFFF, b);
  }

  lemma Distribute(aL: int, aH: int, bL: int, bH: int)
    ensures (aL + 0x100 * aH) * (bL + 0x100 * bH)
            == aL * bL + 0x100 * (aL * bH) + 0x100 * (aH * bL) + 0x1_0000 * (aH * bH)
  {
    var b := bL + 0x100 * bH;
    assert (aL + 0x100 * aH) * b == aL * b + 0x100 * (aH * b);
    assert aL * b == aL * bL + 0x100 * (aL * bH);
    assert aH * b == aH * bL + 0x100 * (aH * bH);
  }

  // ---------- negation ----------

  type sdword = x: int | -0x8000_0000 <= x < 0x8000_0000

  /** Complement, then increment bytewise while the byte below wrapped to zero. A skipped increment
      leaves Z clear from the one before it. */
  method NegateBytes(v0: octet, v1: octet, v2: octet, v3: octet) returns (r0: octet, r1: octet, r2: octet, r3: octet)
    ensures Dword(r0, r1, r2, r3) + Dword(v0, v1, v2, v3)
            == if Dword(v0, v1, v2, v3) == 0 then 0 else 0x1_0000_0000
  {
    hide Incf;
    r0, r1, r2, r3 := Comf(v0), Comf(v1), Comf(v2), Comf(v3);
    r0 := Incf(r0);
    var z := r0 == 0;
    if z {
      r1 := Incf(r1);
      z := r1 == 0;
    }
    if z {
      r2 := Incf(r2);
      z := r2 == 0;
    }
    if z {
      r3 := Incf(r3);
    }
  }

  method NegateS32(v: dword) returns (r: dword)
    ensures r == if v == 0 then 0 else 0x1_0000_0000 - v
  {
    DwordBytes(v);
    var r0, r1, r2, r3 := NegateBytes(Lo(v), Hi(v), Lo(v / 0x1_0000), Hi(v / 0x1_0000));
    r := Dword(r0, r1, r2, r3);
  }

  function AsSigned32(x: dword): sdword {
    if x < 0x8000_0000 then x else x - 0x1_0000_0000
  }

  method MulS16(a: sword, b: sword) returns (r: sdword)
    ensures r == a * b
  {
    var neg := (a < 0) != (b < 0);
    Magnitude(a);
    Magnitude(b);
    SignedProduct(a, b);
    var ua := if a < 0 then Negate(Pattern(a)) else Pattern(a);
    var ub := if b < 0 then Negate(Pattern(b)) else Pattern(b);
    var ur := MulU16(ua, ub);
    if neg {
      ur := NegateS32(ur);
    }
    r := AsSigned32(ur);
  }

  lemma SignedProduct(a: int, b: int)
    requires -0x8000 <= a < 0x8000 && -0x8000 <= b < 0x8000
    ensures Abs(a) * Abs(b) <= 0x4000_0000
    ensures a * b == if (a < 0) != (b < 0) then -(Abs(a) * Abs(b)) else Abs(a) * Abs(b)
  {
    var m: int, n: int := Abs(a), Abs(b);
    MulMonotone(m, 0x8000, n);
    if a < 0 {
      assert a * b == -(m * b);
      if b < 0 {
        assert m * b == -(m * n);
      }
    } else if b < 0 {
      assert a * b == -(a * n);
    }
  }

  // ---------- PIC16 add and subtract ----------

  /** The carry idiom without addwfc: the low carry is folded into the addend's high byte. */
  method AddU16Pic16(a: word, b: word) returns (sum: word, carry: bool)
    ensures sum == (a + b) % 0x1_0000
    ensures carry == (a + b >= 0x1_0000) <==> !(Hi(b) == 0xFF && Lo(a) + Lo(b) >= 0x100)
  {
    var lo := Addwf(Lo(a), Lo(b));
    var w := Hi(b);
    if lo.c {
      w := Incf(Hi(b));
    }
    var hi := Addwf(Hi(a), w);
    Bytes(a);
    Bytes(b);
    hide Lo, Hi;
    sum, carry := Word(lo.r, hi.r), hi.c;
    ghost var wraps := lo.c && Hi(b) == 0xFF;
    DivModUnique(a + b, 0x1_0000, if wraps then 1 else Carry(hi.c), sum);
  }

  method SubU16Pic16(a: word, b: word) returns (diff: word, borrow: bool)
    ensures diff == (a - b) % 0x1_0000
    ensures borrow == (a < b) <==> !(Hi(b) == 0xFF && Lo(a) < Lo(b))
  {
    var lo := Subwf(Lo(a), Lo(b));
    var w := Hi(b);
    if !lo.c {
      w := Incf(Hi(b));
    }
    var hi := Subwf(Hi(a), w);
    Bytes(a);
    Bytes(b);
    hide Lo, Hi;
    diff, borrow := Word(lo.r, hi.r), !hi.c;
    ghost var wraps := !lo.c && Hi(b) == 0xFF;
    DivModUnique(a - b, 0x1_0000, if wraps then -1 else Carry(hi.c) - 1, diff);
  }
}
