/** The decrypted logical volume as one function of the image, and the window computation of
    `DecryptedVolume::read_at` (core/src/volume.rs) with its 64-bit arithmetic. */
module Plaintext {
  import opened Bytes
  import opened Crypto
  import opened Xts

  const SECTOR: nat := 512

  datatype VolumeKeys = VolumeKeys(vmk: Block, tweakKey: Block)

  /** Everything a decrypted volume is, apart from its reader and its position: how a sector is
      decrypted under its number, where the volume starts and how long it is. */
  datatype Layout = Layout(unit: UnitMap, base: u64, size: u64)

  /** The stored image, zero-extended past its end. */
  function Stored(data: seq<byte>, i: nat): byte {
    if i < |data| then data[i] else 0
  }

  function StoredSector(data: seq<byte>, pos: nat): (s: seq<byte>)
    ensures |s| == 512
    ensures forall j :: 0 <= j < 512 ==> s[j] == Stored(data, pos + j)
  {
    seq<byte>(512, j requires 0 <= j < 512 => Stored(data, pos + j))
  }

  /** The specification: byte `i` of the infinite plaintext, in the sector stored at its place and
      decrypted under its logical sector number. */
  function PlainByte(data: seq<byte>, v: Layout, i: nat): byte {
    v.unit(i / 512, StoredSector(data, v.base + i / 512 * 512))[i % 512]
  }

  function Plain(data: seq<byte>, v: Layout, lo: nat, hi: nat): (s: seq<byte>)
    requires lo <= hi
    ensures |s| == hi - lo
    ensures forall i :: 0 <= i < hi - lo ==> s[i] == PlainByte(data, v, lo + i)
  {
    seq<byte>(hi - lo, i requires 0 <= i < hi - lo => PlainByte(data, v, lo + i))
  }

  /** How many bytes a read of `len` at `offset` returns. */
  function Count(size: nat, offset: nat, len: nat): (n: nat)
    ensures n <= len && (n > 0 ==> offset + n <= size)
    ensures n == 0 <==> size <= offset || len == 0
    ensures n < len ==> size <= offset + n
  {
    if size <= offset then 0 else Min(len, size - offset)
  }

  /** `physical_base + first_sector * 512` on u64, which wraps in an optimised build. */
  function Physical(base: u64, sector: nat): u64 {
    (base + 512 * sector) % TWO_64
  }

  /** Bytes fetched: the enclosing whole sectors. */
  function RegionLength(offset: nat, want: nat): (n: nat)
    requires want > 0
    ensures n % 512 == 0
    ensures offset % 512 + want <= n <= want + 1022
  {
    512 * ((offset + want - 1) / 512 - offset / 512 + 1)
  }

  /** Byte `k` of a region fetched at `pos` whose first sector is `first`. */
  function RegionByte(data: seq<byte>, v: Layout, pos: nat, first: nat, k: nat): byte {
    v.unit(first + k / 512, StoredSector(data, pos + k / 512 * 512))[k % 512]
  }

  /** What `read_at` computes: fetch the enclosing sectors, decrypt, cut the window. */
  function ReadBytes(data: seq<byte>, v: Layout, offset: nat, len: nat): (r: seq<byte>)
    ensures |r| == Count(v.size, offset, len)
    ensures forall i :: 0 <= i < |r| ==>
      r[i] == RegionByte(data, v, Physical(v.base, offset / 512), offset / 512, offset % 512 + i)
  {
    var first := offset / 512;
    seq<byte>(Count(v.size, offset, len), i requires 0 <= i =>
      RegionByte(data, v, Physical(v.base, first), first, offset % 512 + i))
  }

  /** The address of the first sector fits 64 bits. */
  predicate NoWrap(v: Layout, offset: nat) {
    v.base + 512 * (offset / 512) < TWO_64
  }

  /** Fetch-decrypt-cut refines the plaintext function, for every image, layout, offset and length. */
  lemma ReadRefinesPlain(data: seq<byte>, v: Layout, offset: nat, len: nat)
    requires NoWrap(v, offset)
    ensures ReadBytes(data, v, offset, len) == Plain(data, v, offset, offset + Count(v.size, offset, len))
  {
    hide RegionByte, PlainByte, Physical;
    forall i | 0 <= i < Count(v.size, offset, len)
      ensures ReadBytes(data, v, offset, len)[i] == PlainByte(data, v, offset + i)
    {
      RegionIsPlain(data, v, offset, i);
    }
  }

  lemma RegionIsPlain(data: seq<byte>, v: Layout, offset: nat, i: nat)
    requires NoWrap(v, offset)
    ensures RegionByte(data, v, Physical(v.base, offset / 512), offset / 512, offset % 512 + i) == PlainByte(data, v, offset + i)
  {
    var first, k := offset / 512, offset % 512 + i;
    SameSector(first, k);
    assert offset + i == 512 * first + k;
    assert Physical(v.base, first) + k / 512 * 512 == v.base + (offset + i) / 512 * 512;
  }

  lemma SameSector(first: nat, k: nat)
    ensures (512 * first + k) / 512 == first + k / 512 && (512 * first + k) % 512 == k % 512
  {
  }

  /** Two reads concatenate to the single read. */
  predicate Joins(data: seq<byte>, v: Layout, offset: nat, a: nat, b: nat) {
    ReadBytes(data, v, offset, a + b) == ReadBytes(data, v, offset, a) + ReadBytes(data, v, offset + a, b)
  }

  /** A read split at any point concatenates to the single read, clamped at the end of the volume or not, as long as the
      sector address does not wrap between the two starts. */
  lemma SplitReads(data: seq<byte>, v: Layout, offset: nat, a: nat, b: nat)
    requires offset + a < v.size && NoWrap(v, offset) ==> NoWrap(v, offset + a)
    ensures Joins(data, v, offset, a, b)
  {
    hide RegionByte, ReadBytes, Physical;
    var first, second := offset / 512, (offset + a) / 512;
    var whole, left, right := ReadBytes(data, v, offset, a + b), ReadBytes(data, v, offset, a), ReadBytes(data, v, offset + a, b);
    forall i | 0 <= i < |right| ensures whole[a + i] == right[i] {
      SameByte(data, v, offset, a, i);
    }
  }

  lemma SameByte(data: seq<byte>, v: Layout, offset: nat, a: nat, i: nat)
    requires offset + a < v.size && (NoWrap(v, offset) ==> NoWrap(v, offset + a))
    ensures RegionByte(data, v, Physical(v.base, offset / 512), offset / 512, offset % 512 + (a + i))
         == RegionByte(data, v, Physical(v.base, (offset + a) / 512), (offset + a) / 512, (offset + a) % 512 + i)
  {
    var first, second := offset / 512, (offset + a) / 512;
    var j, k := offset % 512 + (a + i), (offset + a) % 512 + i;
    assert 512 * first + j == 512 * second + k;
    SameSector(first, j);
    SameSector(second, k);
    assert first <= second;
    SameShift(v.base, first, second);
  }

  /** Two addresses on the same side of the wrap are as far apart as their sectors. */
  lemma SameShift(base: u64, first: nat, second: nat)
    requires first <= second && 512 * second < TWO_64
    requires base + 512 * first < TWO_64 ==> base + 512 * second < TWO_64
    ensures Physical(base, second) - Physical(base, first) == 512 * (second - first)
  {
  }

  lemma PlainConcat(data: seq<byte>, v: Layout, lo: nat, mid: nat, hi: nat)
    requires lo <= mid <= hi
    ensures Plain(data, v, lo, hi) == Plain(data, v, lo, mid) + Plain(data, v, mid, hi)
  {
  }

  /** The answer depends only on the image bytes of the enclosing sectors. */
  lemma EnclosingSectors(d1: seq<byte>, d2: seq<byte>, v: Layout, offset: nat, len: nat)
    requires Count(v.size, offset, len) > 0
    requires var p, n := Physical(v.base, offset / 512), RegionLength(offset, Count(v.size, offset, len));
             forall j :: p <= j < p + n ==> Stored(d1, j) == Stored(d2, j)
    ensures ReadBytes(d1, v, offset, len) == ReadBytes(d2, v, offset, len)
  {
    var p, n := Physical(v.base, offset / 512), RegionLength(offset, Count(v.size, offset, len));
    forall i | 0 <= i < Count(v.size, offset, len)
      ensures ReadBytes(d1, v, offset, len)[i] == ReadBytes(d2, v, offset, len)[i]
    {
      var lo := p + (offset % 512 + i) / 512 * 512;
      assert p <= lo && lo + 512 <= p + n;
      assert StoredSector(d1, lo) == StoredSector(d2, lo);
    }
  }

  /** The layout of a volume under a cipher and a pair of keys. */
  function Encrypted(c: Cipher, k1: Block, k2: Block, base: u64, size: u64): Layout {
    Layout(Decryptor(c, k1, k2, SECTOR), base, size)
  }

  /** The plaintext of a sector, from the bytes stored at its place: block by block, under masks that start from its
      logical number. */
  lemma PlainSector(c: Cipher, k1: Block, k2: Block, data: seq<byte>, base: u64, size: u64, q: nat) returns (a: seq<Block>)
    requires q < TWO_128
    ensures Masks(c, k2, q, a)
    ensures var v := Encrypted(c, k1, k2, base, size);
            DecryptedBy(c, k1, a, StoredSector(data, base + 512 * q), Plain(data, v, 512 * q, 512 * q + 512))
  {
    hide DecryptUnit, Masks, DecryptedBy;
    var v, stored := Encrypted(c, k1, k2, base, size), StoredSector(data, base + 512 * q);
    a := DecryptUnitBlocks(c, k1, k2, q, stored);
    forall i | 0 <= i < 512 ensures PlainByte(data, v, 512 * q + i) == DecryptUnit(c, k1, k2, q, stored)[i] {
      SameSector(q, i);
    }
    assert Plain(data, v, 512 * q, 512 * q + 512) == DecryptUnit(c, k1, k2, q, stored);
  }

  lemma StoredAt(pre: nat, s: seq<byte>)
    requires |s| == 512
    ensures StoredSector(Zeros(pre) + s, pre) == s
  {
  }

  lemma StoredBeyond(data: seq<byte>, pos: nat)
    requires |data| <= pos
    ensures StoredSector(data, pos) == Zeros(512)
  {
  }

  /** The wrapped address reads the wrong place: for every cipher, all keys and every wrapping address, an image on
      which the read differs from the plaintext. It stores, where the wrapped address points, the encryption of a sector
      that differs from what zeros decrypt to. */
  lemma WrapCounterexample(c: Cipher, k1: Block, k2: Block, base: u64, size: u64, offset: nat) returns (data: seq<byte>)
    requires offset < size && TWO_64 <= base + 512 * (offset / 512)
    ensures |data| <= TWO_64
    ensures var v := Encrypted(c, k1, k2, base, size);
            ReadBytes(data, v, offset, 1) != Plain(data, v, offset, offset + 1)
  {
    hide DecryptUnit, EncryptUnit;
    var v, first, r := Encrypted(c, k1, k2, base, size), offset / 512, offset % 512;
    var p := Physical(base, first);
    assert p == base + 512 * first - TWO_64;
    var zeros := v.unit(first, Zeros(512));
    var other := zeros[r := if zeros[r] == 0 then 1 else 0];
    var stored := EncryptUnit(c, k1, k2, first, other);
    UnitRoundTrip(c, k1, k2, first, other);
    data := Zeros(p) + stored;
    StoredAt(p, stored);
    StoredBeyond(data, base + first * 512);
    assert r / 512 == 0 && r % 512 == r;
    assert ReadBytes(data, v, offset, 1)[0] == v.unit(first, stored)[r];
    assert Plain(data, v, offset, offset + 1)[0] == zeros[r];
  }

  /** Reads at `offset` of a volume under the given cipher and keys equal the plaintext on every image. */
  ghost predicate ReadsRight(c: Cipher, k1: Block, k2: Block, base: u64, size: u64, offset: nat) {
    var v := Encrypted(c, k1, k2, base, size);
    forall data: seq<byte>, len: nat ::
      ReadBytes(data, v, offset, len) == Plain(data, v, offset, offset + Count(size, offset, len))
  }

  /** Under every cipher and all keys, reads at `offset` agree with the plaintext on every image exactly when the sector
      address does not wrap 64 bits (or there is nothing to read). */
  lemma ReadsRightIff(c: Cipher, k1: Block, k2: Block, base: u64, size: u64, offset: nat)
    ensures ReadsRight(c, k1, k2, base, size, offset) <==> size <= offset || base + 512 * (offset / 512) < TWO_64
  {
    hide ReadBytes, Plain;
    var v := Encrypted(c, k1, k2, base, size);
    if size <= offset || base + 512 * (offset / 512) < TWO_64 {
      forall data: seq<byte>, len: nat
        ensures ReadBytes(data, v, offset, len) == Plain(data, v, offset, offset + Count(size, offset, len))
      {
        if offset < size { ReadRefinesPlain(data, v, offset, len); }
      }
    } else {
      var data := WrapCounterexample(c, k1, k2, base, size, offset);
      assert ReadBytes(data, v, offset, 1) != Plain(data, v, offset, offset + Count(size, offset, 1));
    }
  }

  /** Reads from `offset` split after `a` bytes concatenate on every image, whatever the second length. */
  ghost predicate SplitsRight(c: Cipher, k1: Block, k2: Block, base: u64, size: u64, offset: nat, a: nat) {
    var v := Encrypted(c, k1, k2, base, size);
    forall data: seq<byte>, b: nat :: Joins(data, v, offset, a, b)
  }

  /** Under every cipher and all keys, split reads concatenate on every image exactly when the sector address does not
      wrap between the two starts (or the second read is past the end). */
  lemma SplitsRightIff(c: Cipher, k1: Block, k2: Block, base: u64, size: u64, offset: nat, a: nat)
    ensures SplitsRight(c, k1, k2, base, size, offset, a) <==>
              (offset + a < size && base + 512 * (offset / 512) < TWO_64 ==> base + 512 * ((offset + a) / 512) < TWO_64)
  {
    hide ReadBytes, Plain, Decryptor;
    var v := Encrypted(c, k1, k2, base, size);
    if offset + a < size && NoWrap(v, offset) && !NoWrap(v, offset + a) {
      var data := WrapCounterexample(c, k1, k2, base, size, offset + a);
      ReadRefinesPlain(data, v, offset, a + 1);
      PlainConcat(data, v, offset, offset + a, offset + a + 1);
      LastByte(data, v, offset, a);
    } else {
      forall data: seq<byte>, b: nat ensures Joins(data, v, offset, a, b) {
        SplitReads(data, v, offset, a, b);
      }
    }
  }

  /** A read whose last byte is not the one a read of its own delivers is not split right. */
  lemma LastByte(data: seq<byte>, v: Layout, offset: nat, a: nat)
    requires offset + a < v.size
    requires ReadBytes(data, v, offset, a + 1) == Plain(data, v, offset, offset + a) + Plain(data, v, offset + a, offset + a + 1)
    requires ReadBytes(data, v, offset + a, 1) != Plain(data, v, offset + a, offset + a + 1)
    ensures !Joins(data, v, offset, a, 1)
  {
    hide ReadBytes, Plain;
    var whole, left, right := ReadBytes(data, v, offset, a + 1), ReadBytes(data, v, offset, a), ReadBytes(data, v, offset + a, 1);
    assert |whole| == a + 1 && |left| == a && |right| == 1;
    assert whole[a..] == Plain(data, v, offset + a, offset + a + 1);
    assert (left + right)[a..] == right;
  }

  /** A volume that lies inside the 64-bit address space never wraps. */
  lemma FittingVolumeNeverWraps(v: Layout, offset: nat)
    requires v.base + v.size <= TWO_64 && offset < v.size
    ensures NoWrap(v, offset)
  {
  }

  /** The region buffer after the fetch and its in-place decryption, byte by byte. */
  lemma DecryptedRegion(v: Layout, data: seq<byte>, pos: nat, first: nat, region: seq<byte>, k: nat)
    requires |region| % 512 == 0 && k < |region|
    requires forall j :: 0 <= j < |region| ==> region[j] == Stored(data, pos + j)
    ensures Units(v.unit, 512, first, region)[k] == RegionByte(data, v, pos, first, k)
  {
    var q, r := k / 512, k % 512;
    SectorBounds(k, |region|);
    RegionSector(data, pos, region, 512 * q);
    UnitByte(v.unit, first, region, q, 512 * q, r);
    ByQuotient(data, v, pos, first, Units(v.unit, 512, first, region), k, q, r);
  }

  lemma ByQuotient(data: seq<byte>, v: Layout, pos: nat, first: nat, plain: seq<byte>, k: nat, q: nat, r: nat)
    requires q == k / 512 && r == k % 512 && k < |plain|
    requires plain[512 * q + r] == v.unit(first + q, StoredSector(data, pos + 512 * q))[r]
    ensures plain[k] == RegionByte(data, v, pos, first, k)
  {
  }

  lemma SectorBounds(k: nat, n: nat)
    requires n % 512 == 0 && k < n
    ensures k / 512 * 512 + 512 <= n && k / 512 * 512 + k % 512 == k
  {
  }

  lemma RegionSector(data: seq<byte>, pos: nat, region: seq<byte>, lo: nat)
    requires lo + 512 <= |region|
    requires forall j :: 0 <= j < |region| ==> region[j] == Stored(data, pos + j)
    ensures region[lo..lo + 512] == StoredSector(data, pos + lo)
  {
  }
}
