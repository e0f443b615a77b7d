/** Single bits of a byte. */
module Bits {
  import opened Bytes

  function Mask(k: nat): byte
    requires k < 8
  {
    if k == 0 then 1 else if k == 1 then 2 else if k == 2 then 4 else if k == 3 then 8
    else if k == 4 then 16 else if k == 5 then 32 else if k == 6 then 64 else 128
  }

  predicate Get(b: byte, k: nat)
    requires k < 8
  {
    b & Mask(k) != 0
  }

  function Put(b: byte, k: nat, v: bool): byte
    requires k < 8
  {
    if v then b | Mask(k) else b & !Mask(k)
  }

  /** Bits count from the least significant one. */
  lemma GetIsShift(b: byte, k: nat)
    requires k < 8
    ensures Get(b, k) <==> (b >> k) & 1 == 1
  {
    if k == 0 {} else if k == 1 {} else if k == 2 {} else if k == 3 {}
    else if k == 4 {} else if k == 5 {} else if k == 6 {} else {}
  }

  lemma GetPut(b: byte, k: nat, v: bool, j: nat)
    requires k < 8 && j < 8
    ensures Get(Put(b, k, v), j) == if j == k then v else Get(b, j)
  {
  }

  lemma GetZero(k: nat)
    requires k < 8
    ensures !Get(0, k)
  {
  }

  /** A byte is determined by its bits. */
  lemma SameBits(a: byte, b: byte)
    requires forall k: nat {:trigger Get(a, k)} | k < 8 :: Get(a, k) == Get(b, k)
    ensures a == b
  {
    assert Get(a, 0) == Get(b, 0) && Get(a, 1) == Get(b, 1) && Get(a, 2) == Get(b, 2) && Get(a, 3) == Get(b, 3);
    assert Get(a, 4) == Get(b, 4) && Get(a, 5) == Get(b, 5) && Get(a, 6) == Get(b, 6) && Get(a, 7) == Get(b, 7);
  }

  /** Bit `i` of a byte array read as a bit table, least significant bit first. */
  predicate At(s: seq<byte>, i: nat)
    requires i / 8 < |s|
  {
    Get(s[i / 8], i % 8)
  }

  /** The first `n` bits of a packed table. */
  function Unpack(s: seq<byte>, n: nat): (bits: seq<bool>)
    requires n <= 8 * |s|
    ensures |bits| == n && forall i {:trigger bits[i]} :: 0 <= i < n ==> bits[i] == At(s, i)
  {
    seq(n, i requires 0 <= i < n => At(s, i))
  }

  /** `s` packs `bits`, with zeroes in the unused bits of the last byte. */
  ghost predicate Packs(s: seq<byte>, bits: seq<bool>) {
    && |s| == (|bits| + 7) / 8
    && forall i: nat {:trigger At(s, i)} :: i < 8 * |s| ==> At(s, i) == (i < |bits| && bits[i])
  }

  function PackByte(bits: seq<bool>, at: nat, k: nat): byte
    requires k <= 8
  {
    if k == 0 then 0 else Put(PackByte(bits, at, k - 1), k - 1, at + k - 1 < |bits| && bits[at + k - 1])
  }

  function Pack(bits: seq<bool>): (s: seq<byte>)
    ensures |s| == (|bits| + 7) / 8
  {
    seq((|bits| + 7) / 8, j requires 0 <= j => PackByte(bits, 8 * j, 8))
  }

  lemma {:induction false} PackByteBits(bits: seq<bool>, at: nat, n: nat, k: nat)
    requires n <= 8 && k < 8
    ensures Get(PackByte(bits, at, n), k) == (k < n && at + k < |bits| && bits[at + k])
  {
    if n == 0 {
      GetZero(k);
    } else {
      PackByteBits(bits, at, n - 1, k);
      GetPut(PackByte(bits, at, n - 1), n - 1, at + n - 1 < |bits| && bits[at + n - 1], k);
    }
  }

  lemma PackPacks(bits: seq<bool>)
    ensures Packs(Pack(bits), bits)
  {
    var s := Pack(bits);
    forall i: nat | i < 8 * |s|
      ensures At(s, i) == (i < |bits| && bits[i])
    {
      PackByteBits(bits, 8 * (i / 8), 8, i % 8);
    }
  }

  lemma PacksUnique(s: seq<byte>, t: seq<byte>, bits: seq<bool>)
    requires Packs(s, bits) && Packs(t, bits)
    ensures s == t
  {
    forall j | 0 <= j < |s|
      ensures s[j] == t[j]
    {
      forall k: nat | k < 8
        ensures Get(s[j], k) == Get(t[j], k)
      {
        assert At(s, 8 * j + k) == At(t, 8 * j + k);
      }
      SameBits(s[j], t[j]);
    }
  }

  /** Packing loses nothing. */
  lemma UnpackPack(bits: seq<bool>)
    ensures Unpack(Pack(bits), |bits|) == bits
  {
    PackPacks(bits);
    assert forall i: nat :: i < |bits| ==> At(Pack(bits), i) == bits[i];
  }

  /** Setting one bit in the packed table sets that entry of the table. */
  lemma PutSetsEntry(s: seq<byte>, n: nat, i: nat, v: bool)
    requires i < n <= 8 * |s|
    ensures Unpack(s[i / 8 := Put(s[i / 8], i % 8, v)], n) == Unpack(s, n)[i := v]
  {
    var s' := s[i / 8 := Put(s[i / 8], i % 8, v)];
    forall j | 0 <= j < n
      ensures At(s', j) == if j == i then v else At(s, j)
    {
      if j / 8 == i / 8 {
        GetPut(s[i / 8], i % 8, v, j % 8);
      }
    }
  }

  /** The first `k` of `bits` are packed into `s`, the rest of `s` is zero. */
  ghost predicate PacksUpTo(s: seq<byte>, bits: seq<bool>, k: nat) {
    forall i: nat {:trigger At(s, i)} :: i < 8 * |s| ==> At(s, i) == (i < k && i < |bits| && bits[i])
  }

  lemma ZeroesPackNothing(s: seq<byte>, bits: seq<bool>)
    requires forall j {:trigger s[j]} :: 0 <= j < |s| ==> s[j] == 0
    ensures PacksUpTo(s, bits, 0)
  {
  }

  lemma PackNext(s: seq<byte>, bits: seq<bool>, k: nat)
    requires k < |bits| <= 8 * |s| && PacksUpTo(s, bits, k)
    ensures PacksUpTo(if bits[k] then s[k / 8 := Put(s[k / 8], k % 8, true)] else s, bits, k + 1)
  {
    var s' := if bits[k] then s[k / 8 := Put(s[k / 8], k % 8, true)] else s;
    forall i: nat | i < 8 * |s'|
      ensures At(s', i) == (i < k + 1 && i < |bits| && bits[i])
    {
      assert At(s, i) == (i < k && i < |bits| && bits[i]);
      if bits[k] && i / 8 == k / 8 {
        GetPut(s[k / 8], k % 8, true, i % 8);
      }
    }
  }

  lemma PackedAll(s: seq<byte>, bits: seq<bool>)
    requires |s| == (|bits| + 7) / 8 && PacksUpTo(s, bits, |bits|)
    ensures s == Pack(bits)
  {
    PackPacks(bits);
    PacksUnique(s, Pack(bits), bits);
  }
}
