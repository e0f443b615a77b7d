/** The mid-range instructions the arithmetic kernels are made of, on byte cells with an explicit
    carry. */
module PicAsm {
  import opened Words

  /** A byte result and the carry it leaves. */
  datatype Alu = Alu(r: octet, c: bool)

  function Carry(c: bool): nat {
    if c then 1 else 0
  }

  /** rlf / rlcf: rotate left through carry. */
  function Rlf(f: octet, c: bool): (a: Alu)
    ensures a.r + 0x100 * Carry(a.c) == 2 * f + Carry(c)
  {
    Alu((2 * f + Carry(c)) % 0x100, 0x80 <= f)
  }

  /** rrf: rotate right through carry. */
  function Rrf(f: octet, c: bool): (a: Alu)
    ensures 2 * a.r + Carry(a.c) == f + 0x100 * Carry(c)
  {
    Alu((f + 0x100 * Carry(c)) / 2, f % 2 == 1)
  }

  /** subwf: f - W, with carry set when there is no borrow. */
  function Subwf(f: octet, w: octet): (a: Alu)
    ensures a.r == f - w + 0x100 * (1 - Carry(a.c))
  {
    Alu((f - w) % 0x100, w <= f)
  }

  /** addwf. */
  function Addwf(f: octet, w: octet): (a: Alu)
    ensures a.r + 0x100 * Carry(a.c) == f + w
  {
    Alu((f + w) % 0x100, 0x100 <= f + w)
  }

  /** addwfc: addwf with carry in. */
  function Addwfc(f: octet, w: octet, c: bool): (a: Alu)
    ensures a.r + 0x100 * Carry(a.c) == f + w + Carry(c)
  {
    Alu((f + w + Carry(c)) % 0x100, 0x100 <= f + w + Carry(c))
  }

  /** incf, and addlw 1: both wrap at 0xFF. */
  function Incf(f: octet): (r: octet)
    ensures r == if f == 0xFF then 0 else f + 1
  {
    (f + 1) % 0x100
  }

  /** comf. */
  function Comf(f: octet): octet {
    0xFF - f
  }

  function Lo(x: nat): octet {
    x % 0x100
  }

  /** Byte 1 of a value. */
  function Hi(x: nat): octet {
    x / 0x100 % 0x100
  }

  function Word(lo: octet, hi: octet): word {
    lo + 0x100 * hi
  }

  function Dword(b0: octet, b1: octet, b2: octet, b3: octet): dword {
    b0 + 0x100 * b1 + 0x1_0000 * b2 + 0x100_0000 * b3
  }

  function Pow2(k: nat): (p: nat)
    ensures 0 < p
  {
    if k == 0 then 1 else 2 * Pow2(k - 1)
  }
}
