/** EEPROM-backed settings blobs: a blob and its CRC stored from an 8-bit address on, wrapping at the
    end of the EEPROM. */
module Settings {
  import opened Arith
  import opened Bytes
  import opened Crc16

  const ROM_SIZE: nat := 256

  function Cell(start: nat, i: nat): nat {
    (start + i) % ROM_SIZE
  }

  /** The EEPROM after writing `data` byte by byte from `start` on. */
  function Stored(rom: seq<byte>, start: nat, data: seq<byte>): (r: seq<byte>)
    requires |rom| == ROM_SIZE
    ensures |r| == ROM_SIZE
  {
    if data == [] then rom
    else Stored(rom, start, data[..|data| - 1])[Cell(start, |data| - 1) := data[|data| - 1]]
  }

  /** The bytes read back from `start` on. */
  function Region(rom: seq<byte>, start: nat, size: nat): (r: seq<byte>)
    requires |rom| == ROM_SIZE
    ensures |r| == size
  {
    if size == 0 then [] else Region(rom, start, size - 1) + [rom[Cell(start, size - 1)]]
  }

  function Save(rom: seq<byte>, addr: nat, data: seq<byte>): (r: seq<byte>)
    requires |rom| == ROM_SIZE
    ensures |r| == ROM_SIZE
  {
    Stored(rom, addr, Sealed(Ccitt, data))
  }

  datatype Loaded = Blob(data: seq<byte>) | Invalid

  function Load(rom: seq<byte>, addr: nat, size: nat): Loaded
    requires |rom| == ROM_SIZE
  {
    if CrcOk(Ccitt, Region(rom, addr, size + 2)) then Blob(Region(rom, addr, size)) else Invalid
  }

  /** The cells of a region, `size` data bytes and two of CRC. */
  ghost predicate Disjoint(a: nat, m: nat, b: nat, n: nat) {
    forall i: nat, j: nat {:trigger Cell(a, i), Cell(b, j)} :: i < m + 2 && j < n + 2 ==> Cell(a, i) != Cell(b, j)
  }

  // ---------- cells ----------

  lemma CellsDistinct(start: nat, i: nat, j: nat)
    requires i < j < i + ROM_SIZE
    ensures Cell(start, i) != Cell(start, j)
  {
  }

  lemma {:induction false} RegionAt(rom: seq<byte>, start: nat, size: nat, i: nat)
    requires |rom| == ROM_SIZE && i < size
    ensures Region(rom, start, size)[i] == rom[Cell(start, i)]
  {
    hide Cell;
    if i < size - 1 {
      RegionAt(rom, start, size - 1, i);
    }
  }

  lemma {:induction false} RegionPrefix(rom: seq<byte>, start: nat, size: nat, n: nat)
    requires |rom| == ROM_SIZE && n <= size
    ensures Region(rom, start, size)[..n] == Region(rom, start, n)
  {
    hide Cell;
    if n < size {
      RegionPrefix(rom, start, size - 1, n);
      assert Region(rom, start, size)[..n] == Region(rom, start, size - 1)[..n];
    }
  }

  /** A write changes no cell outside its range. */
  lemma {:induction false} StoredElsewhere(rom: seq<byte>, start: nat, data: seq<byte>, c: nat)
    requires |rom| == ROM_SIZE && c < ROM_SIZE
    requires forall i: nat {:trigger Cell(start, i)} :: i < |data| ==> Cell(start, i) != c
    ensures Stored(rom, start, data)[c] == rom[c]
    decreases |data|
  {
    hide Cell;
    if data != [] {
      StoredElsewhere(rom, start, data[..|data| - 1], c);
    }
  }

  /** Within one turn of the EEPROM every written byte stays where it was put. */
  lemma {:induction false} StoredAt(rom: seq<byte>, start: nat, data: seq<byte>, i: nat)
    requires |rom| == ROM_SIZE && i < |data| <= ROM_SIZE
    ensures Stored(rom, start, data)[Cell(start, i)] == data[i]
    decreases |data|
  {
    if i < |data| - 1 {
      StoredAt(rom, start, data[..|data| - 1], i);
      CellsDistinct(start, i, |data| - 1);
    }
  }

  lemma StoredRegion(rom: seq<byte>, start: nat, data: seq<byte>)
    requires |rom| == ROM_SIZE && |data| <= ROM_SIZE
    ensures Region(Stored(rom, start, data), start, |data|) == data
  {
    var rom' := Stored(rom, start, data);
    forall i | 0 <= i < |data|
      ensures Region(rom', start, |data|)[i] == data[i]
    {
      RegionAt(rom', start, |data|, i);
      StoredAt(rom, start, data, i);
    }
  }

  /** Two consecutive writes are one write of both. */
  lemma {:induction false} StoredTwice(rom: seq<byte>, start: nat, a: seq<byte>, b: seq<byte>)
    requires |rom| == ROM_SIZE
    ensures Stored(Stored(rom, start, a), start + |a|, b) == Stored(rom, start, a + b)
    decreases |b|
  {
    if b == [] {
      assert a + b == a;
    } else {
      StoredTwice(rom, start, a, b[..|b| - 1]);
      assert (a + b)[..|a + b| - 1] == a + b[..|b| - 1];
      assert Cell(start + |a|, |b| - 1) == Cell(start, |a + b| - 1);
    }
  }

  // ---------- round trips ----------

  lemma LoadAfterSave(rom: seq<byte>, addr: nat, data: seq<byte>)
    requires |rom| == ROM_SIZE && |data| <= 254
    ensures Load(Save(rom, addr, data), addr, |data|) == Blob(data)
  {
    hide Stored, Region, CrcOk;
    var blob := Sealed(Ccitt, data);
    StoredRegion(rom, addr, blob);
    RegionPrefix(Save(rom, addr, data), addr, |data| + 2, |data|);
    SealedIsOk(Ccitt, data);
  }

  /** Where a blob of up to 254 bytes lands: its bytes from the address on, then the CRC, the high byte
      first, wrapping at the end of the EEPROM; nothing else is written. */
  lemma SaveLayout(rom: seq<byte>, addr: nat, data: seq<byte>, c: nat)
    requires |rom| == ROM_SIZE && |data| <= 254 && c < 256
    ensures var n, crc := |data|, Crc(Ccitt, data);
            var k := (c - addr) % 256;
            Save(rom, addr, data)[c]
            == if k < n then data[k] else if k == n then (crc >> 8) as byte
               else if k == n + 1 then (crc & 0xFF) as byte else rom[c]
  {
    hide Stored, Crc;
    var blob, k := Sealed(Ccitt, data), (c - addr) % 256;
    CellOf(addr, c);
    if k < |blob| {
      StoredAt(rom, addr, blob, k);
    } else {
      forall i: nat | i < |blob|
        ensures Cell(addr, i) != c
      {
        CellsDistinct(addr, i, k);
      }
      StoredElsewhere(rom, addr, blob, c);
    }
  }

  lemma CellOf(addr: nat, c: nat)
    requires c < 256
    ensures Cell(addr, (c - addr) % 256) == c
  {
  }

  /** With 255 bytes the last CRC byte lands on the first data byte. The round trip then still works
      exactly when the two happen to be equal. */
  lemma RoundTripIff(rom: seq<byte>, addr: nat, data: seq<byte>)
    requires |rom| == ROM_SIZE && |data| <= 255
    ensures Load(Save(rom, addr, data), addr, |data|) == Blob(data)
            <==> |data| <= 254 || data[0] == Low(Crc(Ccitt, data))
  {
    if |data| <= 254 {
      LoadAfterSave(rom, addr, data);
    } else {
      FullEeprom(rom, addr, data);
    }
  }

  lemma FullEeprom(rom: seq<byte>, addr: nat, data: seq<byte>)
    requires |rom| == ROM_SIZE && |data| == 255
    ensures Load(Save(rom, addr, data), addr, 255) == if data[0] == Low(Crc(Ccitt, data)) then Blob(data) else Invalid
  {
    hide Crc, CrcOk, Low, High;
    var blob := Sealed(Ccitt, data);
    var lo := Low(Crc(Ccitt, data));
    var rom' := Save(rom, addr, data);
    var read := Region(rom', addr, 257);
    OverlapRegion(rom, addr, blob, rom', read);
    assert AgreeOutside(blob, read, 0);
    SealedIsOk(Ccitt, data);
    RegionPrefix(rom', addr, 257, 255);
    if data[0] == lo {
      assert read == blob;
      assert read[..255] == data;
    } else {
      assert read[0] != blob[0];
      TwoByteErrorDetected(Ccitt, blob, read, 0);
    }
  }

  /** Of all blobs that share the first 254 of 255 bytes at most one loads back. */
  lemma OneOfManyLoads(rom: seq<byte>, addr: nat, data: seq<byte>, last: byte)
    requires |rom| == ROM_SIZE && |data| == 255 && last != data[254]
    requires Load(Save(rom, addr, data), addr, 255) == Blob(data)
    ensures Load(Save(rom, addr, data[254 := last]), addr, 255) == Invalid
  {
    var other := data[254 := last];
    FullEeprom(rom, addr, data);
    FullEeprom(rom, addr, other);
    assert other[..254] == data[..254];
    hide CrcByte;
    SecondDiffers(Ccitt, Crc(Ccitt, data[..254]), data[254], last);
  }

  /** Writing 257 bytes: the last one replaces the first. */
  lemma OverlapRegion(rom: seq<byte>, addr: nat, bytes: seq<byte>, rom': seq<byte>, read: seq<byte>)
    requires |rom| == ROM_SIZE && |bytes| == 257 && rom' == Stored(rom, addr, bytes) && read == Region(rom', addr, 257)
    ensures |read| == 257 && read[0] == bytes[256]
    ensures forall i {:trigger read[i]} :: 0 < i < 257 ==> read[i] == bytes[i]
  {
    var init := bytes[..256];
    assert Cell(addr, 256) == Cell(addr, 0);
    RegionAt(rom', addr, 257, 0);
    forall i | 0 < i < 257
      ensures read[i] == bytes[i]
    {
      RegionAt(rom', addr, 257, i);
      if i < 256 {
        StoredAt(rom, addr, init, i);
        CellsDistinct(addr, i, 256);
      }
    }
  }

  /** A write to a disjoint region does not disturb a load. */
  lemma {:induction false} DisjointKeepsRegion(rom: seq<byte>, addr: nat, size: nat, other: nat,
                                               data: seq<byte>, n: nat)
    requires |rom| == ROM_SIZE && Disjoint(addr, size, other, |data|) && n <= size + 2
    ensures Region(Save(rom, other, data), addr, n) == Region(rom, addr, n)
    decreases n
  {
    hide Cell, Crc, Low, High;
    if n > 0 {
      DisjointKeepsRegion(rom, addr, size, other, data, n - 1);
      CellInRom(addr, n - 1);
      StoredElsewhere(rom, other, Sealed(Ccitt, data), Cell(addr, n - 1));
    }
  }

  lemma CellInRom(start: nat, i: nat)
    ensures Cell(start, i) < ROM_SIZE
  {
  }

  datatype Saving = Saving(addr: nat, data: seq<byte>)

  function SaveAll(rom: seq<byte>, saves: seq<Saving>): (r: seq<byte>)
    requires |rom| == ROM_SIZE
    ensures |r| == ROM_SIZE
  {
    if saves == [] then rom
    else var last := saves[|saves| - 1]; Save(SaveAll(rom, saves[..|saves| - 1]), last.addr, last.data)
  }

  /** After any sequence of saves, a blob that later saves do not overlap loads back as saved. */
  lemma {:induction false} LastSaveIsLoaded(rom: seq<byte>, saves: seq<Saving>, k: nat)
    requires |rom| == ROM_SIZE && k < |saves| && |saves[k].data| <= 254
    requires forall j {:trigger saves[j]} :: k < j < |saves| ==>
               Disjoint(saves[k].addr, |saves[k].data|, saves[j].addr, |saves[j].data|)
    ensures Load(SaveAll(rom, saves), saves[k].addr, |saves[k].data|) == Blob(saves[k].data)
    decreases |saves|
  {
    hide Save, CrcOk, Region;
    var init, last := saves[..|saves| - 1], saves[|saves| - 1];
    if k == |saves| - 1 {
      LoadAfterSave(SaveAll(rom, init), last.addr, last.data);
    } else {
      LastSaveIsLoaded(rom, init, k);
      var addr, size := saves[k].addr, |saves[k].data|;
      DisjointKeepsRegion(SaveAll(rom, init), addr, size, last.addr, last.data, size);
      DisjointKeepsRegion(SaveAll(rom, init), addr, size, last.addr, last.data, size + 2);
    }
  }

  /** Damage to a stored blob that stays within two adjacent cells of its region, CRC included, makes
      the load fail. */
  lemma CorruptionIsDetected(rom: seq<byte>, rom': seq<byte>, addr: nat, size: nat, i: nat)
    requires |rom| == ROM_SIZE && |rom'| == ROM_SIZE && Load(rom, addr, size).Blob?
    requires forall j: nat {:trigger Cell(addr, j)} :: j < size + 2 && j != i && j != i + 1 ==>
               rom[Cell(addr, j)] == rom'[Cell(addr, j)]
    requires Region(rom, addr, size + 2) != Region(rom', addr, size + 2)
    ensures Load(rom', addr, size) == Invalid
  {
    hide CrcOk;
    var f, g := Region(rom, addr, size + 2), Region(rom', addr, size + 2);
    forall j | 0 <= j < |f| && j != i && j != i + 1
      ensures f[j] == g[j]
    {
      RegionAt(rom, addr, size + 2, j);
      RegionAt(rom', addr, size + 2, j);
      assert Cell(addr, j) < ROM_SIZE;
    }
    TwoByteErrorDetected(Ccitt, f, g, i);
  }

  /** So does any burst of at most 16 bits, counted from the top bit of each byte. */
  lemma BurstCorruptionIsDetected(rom: seq<byte>, rom': seq<byte>, addr: nat, size: nat, i: nat)
    requires |rom| == ROM_SIZE && |rom'| == ROM_SIZE && Load(rom, addr, size).Blob?
    requires WithinBurst(Ccitt, Region(rom, addr, size + 2), Region(rom', addr, size + 2), i)
    requires Region(rom, addr, size + 2) != Region(rom', addr, size + 2)
    ensures Load(rom', addr, size) == Invalid
  {
    hide CrcOk, Region, WithinBurst;
    BurstDetected(Ccitt, Region(rom, addr, size + 2), Region(rom', addr, size + 2), i);
  }

  /** What the load compares. */
  lemma LoadCheck(rom: seq<byte>, addr: nat, size: nat)
    requires |rom| == ROM_SIZE
    ensures Cell(addr, size) < ROM_SIZE && Cell(addr, size + 1) < ROM_SIZE
    ensures var crc := Crc(Ccitt, Region(rom, addr, size));
            Load(rom, addr, size)
            == if rom[Cell(addr, size)] == High(crc) && rom[Cell(addr, size + 1)] == Low(crc)
               then Blob(Region(rom, addr, size)) else Invalid
  {
    RegionPrefix(rom, addr, size + 2, size);
    RegionAt(rom, addr, size + 2, size);
    RegionAt(rom, addr, size + 2, size + 1);
    hide Region, Crc, High, Low;
  }

  // ---------- the store ----------

  class Store {
    const rom: array<byte>
    /** How many more byte writes the EEPROM will accept before one fails. */
    var writesLeft: nat

    ghost predicate Valid()
      reads this
    {
      rom.Length == ROM_SIZE
    }

    function Accepted(n: nat): nat
      reads this
    {
      if n <= writesLeft then n else writesLeft
    }

    method WriteBytes(start: nat, buf: seq<byte>) returns (ok: bool)
      requires Valid()
      modifies this`writesLeft, rom
      ensures Valid()
      ensures ok == (|buf| <= old(writesLeft))
      ensures rom[..] == Stored(old(rom[..]), start, buf[..old(Accepted(|buf|))])
      ensures ok ==> writesLeft == old(writesLeft) - |buf|
      ensures !ok ==> writesLeft == 0
    {
      var i := 0;
      assert buf[..0] == [];
      while i < |buf|
        invariant 0 <= i <= |buf| && i <= old(writesLeft) && writesLeft == old(writesLeft) - i
        invariant rom[..] == Stored(old(rom[..]), start, buf[..i])
      {
        if writesLeft == 0 {
          return false;
        }
        writesLeft := writesLeft - 1;
        ghost var before := rom[..];
        var cell := (start + i) % ROM_SIZE;
        rom[cell] := buf[i];
        assert rom[..] == before[cell := buf[i]];
        assert buf[..i + 1][..i] == buf[..i];
        i := i + 1;
      }
      ok := true;
    }

    method CrcOf(data: seq<byte>) returns (crc: bv16)
      ensures crc == Crc(Ccitt, data)
    {
      hide CrcByte;
      crc := 0xFFFF;
      var i := 0;
      while i < |data|
        invariant 0 <= i <= |data| && crc == Crc(Ccitt, data[..i])
      {
        crc := Update(Ccitt, crc, data[i]);
        assert data[..i + 1][..i] == data[..i];
        i := i + 1;
      }
      assert data[..|data|] == data;
    }

    /** Stores the blob and its CRC; a failing byte write leaves what was written before it. */
    method SaveBlob(addr: nat, data: seq<byte>) returns (ok: bool)
      requires Valid()
      modifies this`writesLeft, rom
      ensures Valid() && ok == (|data| + 2 <= old(writesLeft))
      ensures rom[..] == Stored(old(rom[..]), addr, Sealed(Ccitt, data)[..old(Accepted(|data| + 2))])
      ensures ok ==> rom[..] == Save(old(rom[..]), addr, data)
    {
      hide Stored, Crc, Low, High;
      var crc := CrcOf(data);
      ghost var bytes := Sealed(Ccitt, data);
      ok := WriteBytes(addr, data);
      if !ok {
        assert bytes[..old(Accepted(|data| + 2))] == data[..old(Accepted(|data|))];
        return;
      }
      assert data[..|data|] == data;
      ghost var n := Accepted(2);
      var trailer := [High(crc), Low(crc)];
      StoredTwice(old(rom[..]), addr, data, trailer[..n]);
      ok := WriteBytes(addr + |data|, trailer);
      assert bytes == data + trailer;
      assert bytes[..|data| + n] == data + trailer[..n];
      assert ok ==> bytes[..|bytes|] == bytes;
    }

    /** The CRC of a region as the load loop accumulates it. */
    method CrcOfRegion(addr: nat, size: nat) returns (crc: bv16)
      requires Valid()
      ensures crc == Crc(Ccitt, Region(rom[..], addr, size))
    {
      hide CrcByte;
      crc := 0xFFFF;
      var i := 0;
      while i < size
        invariant 0 <= i <= size && crc == Crc(Ccitt, Region(rom[..], addr, i))
      {
        crc := Update(Ccitt, crc, rom[Cell(addr, i)]);
        RegionPrefix(rom[..], addr, i + 1, i);
        i := i + 1;
      }
    }

    /** A blob whose CRC fails leaves the caller's buffer untouched. */
    method LoadBlob(addr: nat, size: nat, out: array<byte>) returns (ok: bool)
      requires Valid() && size <= out.Length && out != rom
      modifies out
      ensures ok == old(Load(rom[..], addr, size)).Blob?
      ensures ok ==> out[..size] == old(Load(rom[..], addr, size)).data && out[size..] == old(out[size..])
      ensures !ok ==> out[..] == old(out[..])
    {
      LoadCheck(rom[..], addr, size);
      hide Load, Region, Crc, High, Low, Cell;
      var crc := CrcOfRegion(addr, size);
      var stored := Join(rom[Cell(addr, size)], rom[Cell(addr, size + 1)]);
      JoinIff(rom[Cell(addr, size)], rom[Cell(addr, size + 1)], crc);
      if stored != crc {
        return false;
      }
      CopyRegion(addr, size, out);
      ok := true;
    }

    method CopyRegion(addr: nat, size: nat, out: array<byte>)
      requires Valid() && size <= out.Length && out != rom
      modifies out
      ensures out[..size] == Region(rom[..], addr, size) && out[size..] == old(out[size..])
    {
      var i := 0;
      while i < size
        invariant 0 <= i <= size
        invariant out[..i] == Region(rom[..], addr, i) && out[size..] == old(out[size..])
      {
        out[i] := rom[Cell(addr, i)];
        assert out[..i + 1] == out[..i] + [out[i]];
        i := i + 1;
      }
    }

    /** Falls back to the defaults, and stores them, when the blob is invalid. Afterwards the buffer
        holds what the next load returns, as long as the EEPROM takes the writes. */
    method LoadOrDefault(addr: nat, size: nat, out: array<byte>, defaults: seq<byte>) returns (ok: bool)
      requires Valid() && size == |defaults| == out.Length && out != rom
      modifies out, this`writesLeft, rom
      ensures Valid()
      ensures ok == old(Load(rom[..], addr, size)).Blob?
      ensures ok ==> rom[..] == old(rom[..]) && out[..] == old(Load(rom[..], addr, size)).data
      ensures !ok ==> out[..] == defaults
      ensures !ok && size + 2 <= old(writesLeft) ==> rom[..] == Save(old(rom[..]), addr, defaults)
      ensures size <= 254 && size + 2 <= old(writesLeft) ==> Load(rom[..], addr, size) == Blob(out[..])
    {
      hide Region, CrcOk, Save;
      ok := LoadBlob(addr, size, out);
      if ok {
        assert out[..size] == out[..];
        return;
      }
      var i := 0;
      while i < size
        invariant 0 <= i <= size && out[..i] == defaults[..i]
        invariant rom[..] == old(rom[..]) && writesLeft == old(writesLeft)
      {
        out[i] := defaults[i];
        i := i + 1;
      }
      assert out[..] == out[..size] == defaults;
      if size <= 254 {
        LoadAfterSave(rom[..], addr, defaults);
      }
      var _ := SaveBlob(addr, defaults);
    }
  }

  /** The stored CRC put together from its two bytes. */
  function Join(hi: byte, lo: byte): bv16 {
    ((hi as bv16) << 8) | (lo as bv16)
  }

  lemma JoinIff(hi: byte, lo: byte, crc: bv16)
    ensures Join(hi, lo) == crc <==> hi == High(crc) && lo == Low(crc)
  {
    JoinParts(hi, lo);
    JoinOfParts(crc);
    hide Join, High, Low;
  }

  lemma JoinParts(hi: byte, lo: byte)
    ensures High(Join(hi, lo)) == hi && Low(Join(hi, lo)) == lo
  {
  }

  lemma JoinOfParts(crc: bv16)
    ensures Join(High(crc), Low(crc)) == crc
  {
  }
}
