/** The physical volume header (core/src/volume_header.rs). */
module Header {
  import opened Wrappers
  import opened Bytes

  const HEADER_LENGTH: nat := 512
  const SIGNATURE: nat := 0x5343
  const AES_XTS_128: nat := 2

  datatype VolumeHeader = VolumeHeader(
    blockSize: u32,
    bytesPerSector: u32,
    physicalVolumeSize: u64,
    metadataBlockNumbers: seq<u64>,
    keyData: Block,
    physicalVolumeIdentifier: Block)

  function BlockNumbers(data: seq<byte>): (s: seq<u64>)
    ensures |s| == 4
  {
    [LeU64(data, 104), LeU64(data, 112), LeU64(data, 120), LeU64(data, 128)]
  }

  function HeaderOf(data: seq<byte>): Result<VolumeHeader, Error> {
    if LeU16(data, 88) != SIGNATURE then Err(NotCoreStorage(LeU16(data, 88)))
    else if LeU32(data, 172) != AES_XTS_128 then Err(UnsupportedEncryptionMethod(LeU32(data, 172)))
    else Ok(VolumeHeader(LeU32(data, 96), LeU32(data, 48), LeU64(data, 64), BlockNumbers(data),
                         Bytes16(data, 176), Bytes16(data, 304)))
  }

  /** Every field of `h` stands at its offset, between the signature and the encryption method; a key past the end of
      the bytes is zero. */
  predicate Describes(data: seq<byte>, h: VolumeHeader) {
    && 176 <= |data| && |h.metadataBlockNumbers| == 4
    && data[88..90] == [67, 83] && data[172..176] == [2, 0, 0, 0]
    && data[48..52] == LeBytes(h.bytesPerSector, 4) && data[64..72] == LeBytes(h.physicalVolumeSize, 8)
    && data[96..100] == LeBytes(h.blockSize, 4)
    && (forall i :: 0 <= i < 4 ==> data[104 + 8 * i..112 + 8 * i] == LeBytes(h.metadataBlockNumbers[i], 8))
    && h.keyData == (if 192 <= |data| then data[176..192] else Zeros(16))
    && h.physicalVolumeIdentifier == (if 320 <= |data| then data[304..320] else Zeros(16))
  }

  lemma Field(data: seq<byte>, off: nat, v: nat, n: nat)
    requires off + n <= |data| && v < Pow256(n) && data[off..off + n] == LeBytes(v, n)
    ensures LeAt(data, off, n) == v
  {
    LeRoundTrip(v, n);
  }

  lemma Stored(data: seq<byte>, off: nat, n: nat)
    requires off + n <= |data|
    ensures data[off..off + n] == LeBytes(LeAt(data, off, n), n)
  {
    LeInverse(data[off..off + n]);
  }

  /** The number at `off` on two bytes, 0 when the data end before it. */
  function Short(data: seq<byte>, off: nat): int {
    if off + 2 <= |data| then Little(data[off], data[off + 1], 0, 0) else 0
  }

  /** The number at `off` on four bytes, 0 when the data end before it. */
  function Long(data: seq<byte>, off: nat): int {
    if off + 4 <= |data| then Little(data[off], data[off + 1], data[off + 2], data[off + 3]) else 0
  }

  /** The answers on arbitrary bytes: a header exactly from `CS` at 88 and the number 2 at 172; otherwise the number
      found at the first of the two places that is wrong. */
  ghost predicate Judged(data: seq<byte>, r: Result<VolumeHeader, Error>) {
    && (r.Ok? <==> 176 <= |data| && data[88..90] == [67, 83] && data[172..176] == [2, 0, 0, 0])
    && (r.Ok? ==> Describes(data, r.value))
    && (forall v :: r == Err(NotCoreStorage(v)) <==> v == Short(data, 88) && v != 0x5343)
    && (forall v :: r == Err(UnsupportedEncryptionMethod(v)) <==> Short(data, 88) == 0x5343 && v == Long(data, 172) && v != 2)
  }

  /** The two places that mark a header. */
  lemma Marks(data: seq<byte>)
    ensures LeU16(data, 88) == Short(data, 88) && LeU32(data, 172) == Long(data, 172)
    ensures Short(data, 88) == 0x5343 <==> 90 <= |data| && data[88..90] == [67, 83]
    ensures Long(data, 172) == 2 <==> 176 <= |data| && data[172..176] == [2, 0, 0, 0]
  {
    hide LeU16, LeU32, Little;
    ReadersByByte(data, 88);
    ReadersByByte(data, 172);
    if 90 <= |data| {
      assert data[88..90] == [data[88], data[89]];
      TwoBytes(data[88], data[89]);
    }
    if 176 <= |data| {
      assert data[172..176] == [data[172], data[173], data[174], data[175]];
      FourBytes(data[172], data[173], data[174], data[175]);
    }
  }

  lemma TwoBytes(a: byte, b: byte)
    ensures Little(a, b, 0, 0) == 0x5343 <==> [a, b] == [67, 83]
  {
  }

  lemma FourBytes(a: byte, b: byte, c: byte, d: byte)
    ensures Little(a, b, c, d) == 2 <==> [a, b, c, d] == [2, 0, 0, 0]
  {
  }

  lemma HeaderExact(data: seq<byte>)
    ensures Judged(data, HeaderOf(data))
  {
    hide LeU16, LeU32, LeU64, Bytes16, Describes, Short, Long;
    Marks(data);
    if HeaderOf(data).Ok? { HeaderFields(data); }
  }

  lemma HeaderFields(data: seq<byte>)
    requires HeaderOf(data).Ok?
    ensures Describes(data, HeaderOf(data).value)
  {
    hide LeAt, LeBytes, Short, Long;
    Marks(data);
    Stored(data, 48, 4);
    Stored(data, 64, 8);
    Stored(data, 96, 4);
    var h := HeaderOf(data).value;
    forall i | 0 <= i < 4 ensures data[104 + 8 * i..112 + 8 * i] == LeBytes(h.metadataBlockNumbers[i], 8) {
      Stored(data, 104 + 8 * i, 8);
    }
  }

  lemma Constants()
    ensures [67, 83] == LeBytes(SIGNATURE, 2) && [2, 0, 0, 0] == LeBytes(AES_XTS_128, 4)
  {
    assert LeBytes(SIGNATURE, 2) == [67] + LeBytes(83, 1);
    assert LeBytes(83, 1) == [83] + LeBytes(0, 0);
    assert LeBytes(AES_XTS_128, 4) == [2] + LeBytes(0, 3);
    assert LeBytes(0, 3) == [0] + LeBytes(0, 2);
    assert LeBytes(0, 2) == [0] + LeBytes(0, 1);
    assert LeBytes(0, 1) == [0] + LeBytes(0, 0);
  }

  /** A written header is read back whole, all four block numbers included, whatever the other bytes hold. */
  lemma HeaderRoundTrip(data: seq<byte>, h: VolumeHeader)
    requires Describes(data, h)
    ensures HeaderOf(data) == Ok(h)
  {
    hide LeAt, LeBytes;
    Widths();
    Constants();
    Field(data, 88, SIGNATURE, 2);
    Field(data, 172, AES_XTS_128, 4);
    Field(data, 48, h.bytesPerSector, 4);
    Field(data, 64, h.physicalVolumeSize, 8);
    Field(data, 96, h.blockSize, 4);
    forall i | 0 <= i < 4 ensures BlockNumbers(data)[i] == h.metadataBlockNumbers[i] {
      Field(data, 104 + 8 * i, h.metadataBlockNumbers[i], 8);
    }
    assert BlockNumbers(data) == h.metadataBlockNumbers;
  }

  /** `VolumeHeader::parse`, with its loop over the block-number slots. */
  method Parse(data: seq<byte>) returns (r: Result<VolumeHeader, Error>)
    ensures r == HeaderOf(data) && Judged(data, r)
  {
    hide LeU16, LeU32, LeU64, Bytes16, Judged;
    HeaderExact(data);
    if LeU16(data, 88) != SIGNATURE {
      return Err(NotCoreStorage(LeU16(data, 88)));
    }
    if LeU32(data, 172) != AES_XTS_128 {
      return Err(UnsupportedEncryptionMethod(LeU32(data, 172)));
    }
    var slots: seq<u64> := [0, 0, 0, 0];
    for i := 0 to 4
      invariant |slots| == 4 && forall j :: 0 <= j < i ==> slots[j] == LeU64(data, 104 + 8 * j)
    {
      slots := slots[i := LeU64(data, 104 + 8 * i)];
    }
    assert slots == BlockNumbers(data) by {
      assert slots[0] == LeU64(data, 104 + 8 * 0) && slots[1] == LeU64(data, 104 + 8 * 1);
      assert slots[2] == LeU64(data, 104 + 8 * 2) && slots[3] == LeU64(data, 104 + 8 * 3);
    }
    r := Ok(VolumeHeader(LeU32(data, 96), LeU32(data, 48), LeU64(data, 64), slots,
                         Bytes16(data, 176), Bytes16(data, 304)));
  }
}

/** Location of the encrypted metadata, and the segment map (core/src/metadata.rs). */
module Metadata {
  import opened Wrappers
  import opened Bytes
  import opened Header

  const POINTER_BLOCK: nat := 0x0011
  const SEGMENT_BLOCK: nat := 0x0305
  const MAX_BLOCKS: nat := 0x10_0000
  const MAX_SEGMENTS: nat := 0x1_0000
  const UNIT: nat := 8192

  function SaturatingMul(a: u64, b: u64): (r: u64)
    ensures r == Min(a * b, 0xffff_ffff_ffff_ffff)
  {
    if a * b < TWO_64 then a * b else TWO_64 - 1
  }

  /** Byte offset of the plaintext metadata region. */
  function RegionOffset(h: VolumeHeader): u64 {
    SaturatingMul(if h.metadataBlockNumbers == [] then 0 else h.metadataBlockNumbers[0], h.blockSize)
  }

  /** `plaintext_metadata_size`: the stored size, accepted exactly from a pointer block with a sane size. */
  function PlaintextMetadataSize(h: VolumeHeader, first: seq<byte>): (r: Result<u64, Error>)
    ensures r.Ok? <==> LeU16(first, 10) == 0x0011 && 0 < h.blockSize && 0 < LeU32(first, 64) < 0x10_0001 * h.blockSize
    ensures r.Ok? ==> r.value == LeU32(first, 64)
    ensures r.Err? ==> if LeU16(first, 10) != 0x0011 then r.error.MetadataStructureMissing? else r.error.OutOfRange?
  {
    hide LeU16, LeU32;
    if LeU16(first, 10) != POINTER_BLOCK then
      Err(MetadataStructureMissing("0x0011 encrypted-metadata pointer block"))
    else if h.blockSize == 0 then Err(OutOfRange("block size is zero"))
    else CheckedSize(LeU32(first, 64), h.blockSize)
  }

  lemma QuotientBound(a: nat, b: nat, most: nat)
    requires 0 < b
    ensures a / b > most <==> a >= (most + 1) * b
  {
    var q, r := a / b, a % b;
    assert a == q * b + r && 0 <= r < b;
    if q > most {
      Multiples(most + 1, q, b);
    } else {
      Multiples(q + 1, most + 1, b);
      NextMultiple(q, b);
    }
  }

  function CheckedSize(size: u64, blockSize: u32): (r: Result<u64, Error>)
    requires blockSize > 0
    ensures r.Ok? <==> 0 < size < 0x10_0001 * blockSize
    ensures r.Ok? ==> r.value == size
    ensures r.Err? ==> r.error.OutOfRange?
  {
    QuotientBound(size, blockSize, MAX_BLOCKS);
    if size == 0 || size / blockSize > MAX_BLOCKS then Err(OutOfRange("plaintext metadata region size"))
    else Ok(size)
  }

  datatype Location = Location(primaryOffset: u64, blockCount: u64, length: u64)

  function Checked(v: nat, what: string): Result<u64, Error> {
    if v < TWO_64 then Ok(v) else Err(OutOfRange(what))
  }

  function LocateEncryptedMetadata(h: VolumeHeader, region: seq<byte>): Result<Location, Error> {
    var descriptor := LeU32(region, 220);
    var count := LeU64(region, descriptor + 8);
    var primary := Mask48(LeU64(region, descriptor + 32));
    if LeU16(region, 10) != POINTER_BLOCK then
      Err(MetadataStructureMissing("0x0011 encrypted-metadata pointer block"))
    else if |region| < descriptor + 40 then
      Err(MetadataStructureMissing("volume-groups descriptor (offset out of region)"))
    else if count == 0 || count > MAX_BLOCKS then Err(OutOfRange("encrypted-metadata block count"))
    else
      var offset :- Checked(primary * h.blockSize, "encrypted-metadata primary offset");
      var length :- Checked(count * h.blockSize, "encrypted-metadata length");
      Ok(Location(offset, count, length))
  }

  lemma ProductBelow(a: nat, b: nat, x: nat, y: nat)
    requires a <= x && b < y
    ensures a * b <= x * b <= x * y
  {
  }

  /** The exact condition of success and of each error. A located region has from 1 to 2^20 blocks; its offset is the
      6-byte block number times the block size, and the only way to fail on it is that the product leaves 64 bits; its
      length is below 2^52, so the overflow arm of the length is never taken. */
  lemma LocationExact(h: VolumeHeader, region: seq<byte>)
    ensures var r, d := LocateEncryptedMetadata(h, region), LeU32(region, 220);
            var count, offset := LeU64(region, d + 8), LeU48(region, d + 32) * h.blockSize;
            var whole, sane := d + 40 <= |region|, 1 <= count <= 0x10_0000;
            if LeU16(region, 10) != 0x0011 then
              r == Err(MetadataStructureMissing("0x0011 encrypted-metadata pointer block"))
            else if !whole then r == Err(MetadataStructureMissing("volume-groups descriptor (offset out of region)"))
            else if !sane then r == Err(OutOfRange("encrypted-metadata block count"))
            else if 0x1_0000_0000_0000_0000 <= offset then r == Err(OutOfRange("encrypted-metadata primary offset"))
            else r.Ok? && r.value.primaryOffset == offset && r.value.blockCount == count
                 && r.value.length == count * h.blockSize < 0x10_0000_0000_0000
  {
    hide LeU16, LeU32, LeU64, LeU48;
    var d := LeU32(region, 220);
    var count := LeU64(region, d + 8);
    if d + 40 <= |region| {
      MaskedIsLeU48(region, d + 32);
    }
    if count <= MAX_BLOCKS {
      ProductBelow(count, h.blockSize, MAX_BLOCKS, 0x1_0000_0000);
    }
  }

  /** The first block of a type at or after block `k`, `off` being its byte offset. */
  function FirstBlock(m: seq<byte>, size: nat, kind: nat, off: nat): (r: Option<nat>)
    requires 0 < size
    ensures r.Some? ==> off <= r.value && r.value + size <= |m| && LeU16(m, r.value + 10) == kind
    decreases |m| - off
  {
    if |m| < off + size then None
    else if LeU16(m, off + 10) == kind then Some(off)
    else FirstBlock(m, size, kind, off + size)
  }

  /** The whole block number `n` is present and has the type. */
  predicate HasType(m: seq<byte>, size: nat, kind: nat, n: nat) {
    n * size + size <= |m| && LeU16(m, n * size + 10) == kind
  }

  /** The block found is block `n`, it has the type, and no block before it does; none found means none there. */
  lemma {:induction false} FirstBlockIsFirst(m: seq<byte>, size: nat, kind: nat, k: nat, off: nat) returns (n: nat)
    requires 0 < size && off == k * size
    ensures var r := FirstBlock(m, size, kind, off);
            && (r.Some? ==> k <= n && r.value == n * size && HasType(m, size, kind, n))
            && (forall j :: k <= j && (r.Some? ==> j < n) ==> !HasType(m, size, kind, j))
    decreases |m| - off
  {
    hide LeU16;
    n := k;
    if |m| < off + size {
      forall j | k <= j ensures !HasType(m, size, kind, j) { Multiples(k, j, size); }
    } else if LeU16(m, off + 10) != kind {
      NextMultiple(k, size);
      n := FirstBlockIsFirst(m, size, kind, k + 1, off + size);
    }
  }

  lemma NextMultiple(k: nat, size: nat)
    ensures (k + 1) * size == k * size + size
  {
  }

  lemma Multiples(k: nat, n: nat, size: nat)
    requires k <= n
    ensures k * size <= n * size
  {
  }

  /** `find_block_of_type`. */
  method FindBlockOfType(m: seq<byte>, size: nat, kind: nat) returns (r: Option<nat>)
    ensures r == if size == 0 then None else FirstBlock(m, size, kind, 0)
  {
    hide LeU16;
    if size == 0 {
      return None;
    }
    var offset := 0;
    while offset + size <= |m|
      invariant FirstBlock(m, size, kind, offset) == FirstBlock(m, size, kind, 0)
      decreases |m| - offset
    {
      if LeU16(m, offset + 10) == kind {
        return Some(offset);
      }
      offset := offset + size;
    }
    r := None;
  }

  datatype Segment = Segment(logicalBlock: u64, physicalBlock: u64, numberOfBlocks: u32)

  function SegmentAt(m: seq<byte>, entry: nat): Segment {
    Segment(LeU64(m, entry + 8), Mask48(LeU64(m, entry + 32)), LeU32(m, entry + 16))
  }

  /** How many entries a block of `size` bytes that claims `stored` of them yields. */
  function SegmentCount(stored: nat, size: nat): nat {
    if size < 72 then 0 else Min(Min(stored, MAX_SEGMENTS), (size - 72) / 40)
  }

  function BlockSegments(m: seq<byte>, block: nat, n: nat): seq<Segment> {
    seq(n, i requires 0 <= i < n => SegmentAt(m, block + 72 + 40 * i))
  }

  /** The segment map: the entries of the first block of type 0x0305. */
  function Segments(m: seq<byte>, size: nat): seq<Segment> {
    if size == 0 then [] else
    var block := FirstBlock(m, size, SEGMENT_BLOCK, 0);
    if block.None? then [] else BlockSegments(m, block.value, SegmentCount(LeU32(m, block.value + 64), size))
  }

  /** `parse_segments`: the count-limited loop that stops at the end of the block. */
  method ParseSegments(m: seq<byte>, size: nat) returns (out: seq<Segment>)
    ensures out == Segments(m, size)
  {
    hide LeU16, LeU32, LeU64, Mask48, SegmentAt, FirstBlock;
    var found := FindBlockOfType(m, size, SEGMENT_BLOCK);
    if found.None? {
      return [];
    }
    var block := found.value;
    var payload := block + 64;
    var count := Min(LeU32(m, payload), MAX_SEGMENTS);
    ghost var n := SegmentCount(LeU32(m, payload), size);
    out := [];
    for i := 0 to count
      invariant i <= n && out == BlockSegments(m, block, i)
    {
      var entry := payload + 8 + i * 40;
      if block + size < entry + 40 {
        break;
      }
      out := out + [SegmentAt(m, entry)];
    }
  }

  lemma SliceOfSlice(m: seq<byte>, b: nat, size: nat, x: nat, y: nat)
    requires b + size <= |m| && x <= y <= size
    ensures m[b..b + size][x..y] == m[b + x..b + y]
  {
    var outer, inner := m[b..b + size], m[b + x..b + y];
    forall i | 0 <= i < y - x ensures outer[x..y][i] == inner[i] {
      assert outer[x + i] == m[b + (x + i)];
    }
  }

  lemma LeAtSlice(m: seq<byte>, b: nat, size: nat, off: nat, n: nat)
    requires b + size <= |m| && off + n <= size
    ensures LeAt(m[b..b + size], off, n) == LeAt(m, b + off, n)
  {
    SliceOfSlice(m, b, size, off, off + n);
  }

  lemma SegmentFields(m: seq<byte>, entry: nat)
    requires entry + 40 <= |m|
    ensures SegmentAt(m, entry) == Segment(LeU64(m, entry + 8), LeU48(m, entry + 32), LeU32(m, entry + 16))
  {
    hide LeU64, LeU48, LeU32;
    MaskedIsLeU48(m, entry + 32);
  }

  lemma SegmentOfSlice(m: seq<byte>, b: nat, size: nat, entry: nat)
    requires b + size <= |m| && entry + 40 <= size
    ensures SegmentAt(m, b + entry) == SegmentAt(m[b..b + size], entry)
  {
    hide LeAt;
    LeAtSlice(m, b, size, entry + 8, 8);
    LeAtSlice(m, b, size, entry + 16, 4);
    LeAtSlice(m, b, size, entry + 32, 8);
  }

  /** No block of type 0x0305, no segments. Otherwise as many as the first one claims, up to 65536 and to the whole
      entries of 40 bytes that follow its first 72; each field is decoded from its own bytes inside the block, and the
      answer is that of the block alone. */
  lemma SegmentsInsideBlock(m: seq<byte>, size: nat)
    ensures size == 0 || FirstBlock(m, size, 0x0305, 0).None? ==> Segments(m, size) == []
    ensures size > 0 && FirstBlock(m, size, 0x0305, 0).Some? ==>
              var b, ss := FirstBlock(m, size, 0x0305, 0).value, Segments(m, size);
              && |ss| == (if size < 72 then 0 else Min(Min(LeU32(m, b + 64), 65536), (size - 72) / 40))
              && (forall i :: 0 <= i < |ss| ==>
                    && 72 + 40 * i + 40 <= size
                    && ss[i] == Segment(LeU64(m, b + 72 + 40 * i + 8), LeU48(m, b + 72 + 40 * i + 32), LeU32(m, b + 72 + 40 * i + 16)))
              && ss == BlockSegments(m[b..b + size], 0, |ss|)
  {
    if size > 0 && FirstBlock(m, size, SEGMENT_BLOCK, 0).Some? { FirstBlockSegments(m, size); }
  }

  lemma FirstBlockSegments(m: seq<byte>, size: nat)
    requires size > 0 && FirstBlock(m, size, SEGMENT_BLOCK, 0).Some?
    ensures var b, ss := FirstBlock(m, size, SEGMENT_BLOCK, 0).value, Segments(m, size);
            && |ss| == (if size < 72 then 0 else Min(Min(LeU32(m, b + 64), 65536), (size - 72) / 40))
            && (forall i :: 0 <= i < |ss| ==>
                  && 72 + 40 * i + 40 <= size
                  && ss[i] == Segment(LeU64(m, b + 72 + 40 * i + 8), LeU48(m, b + 72 + 40 * i + 32), LeU32(m, b + 72 + 40 * i + 16)))
            && ss == BlockSegments(m[b..b + size], 0, |ss|)
  {
    hide FirstBlock, SegmentAt, LeAt;
    var b := FirstBlock(m, size, SEGMENT_BLOCK, 0).value;
    var block := m[b..b + size];
    if size >= 72 {
      LeAtSlice(m, b, size, 64, 4);
      forall i | 0 <= i < |Segments(m, size)|
        ensures 72 + 40 * i + 40 <= size && SegmentAt(m, b + 72 + 40 * i) == SegmentAt(block, 72 + 40 * i)
      {
        SegmentOfSlice(m, b, size, 72 + 40 * i);
      }
      forall i | 0 <= i < |Segments(m, size)|
        ensures SegmentAt(m, b + 72 + 40 * i)
             == Segment(LeU64(m, b + 72 + 40 * i + 8), LeU48(m, b + 72 + 40 * i + 32), LeU32(m, b + 72 + 40 * i + 16))
      {
        SegmentFields(m, b + 72 + 40 * i);
      }
    }
  }

  /** A stored entry: the segment, the volume index in the top 16 bits of its block number, and the bytes
      the reader ignores. */
  datatype StoredEntry = StoredEntry(segment: Segment, index: u16, head: seq<byte>, middle: seq<byte>)

  predicate StoredOk(s: StoredEntry) {
    |s.head| == 8 && |s.middle| == 12 && s.segment.physicalBlock < TWO_48
  }

  function EntryBytes(s: StoredEntry): seq<byte> {
    s.head + LeBytes(s.segment.logicalBlock, 8) + LeBytes(s.segment.numberOfBlocks, 4) + s.middle
    + LeBytes(s.segment.physicalBlock + TWO_48 * s.index, 8)
  }

  lemma EntryRead(s: StoredEntry)
    requires StoredOk(s)
    ensures |EntryBytes(s)| == 40 && SegmentAt(EntryBytes(s), 0) == s.segment
  {
    var e, p := EntryBytes(s), s.segment.physicalBlock + TWO_48 * s.index;
    assert e[8..16] == LeBytes(s.segment.logicalBlock, 8);
    assert e[16..20] == LeBytes(s.segment.numberOfBlocks, 4);
    assert e[32..40] == LeBytes(p, 8);
    Widths();
    LeRoundTrip(s.segment.logicalBlock, 8);
    LeRoundTrip(s.segment.numberOfBlocks, 4);
    LeRoundTrip(p, 8);
  }

  function AllEntries(ss: seq<StoredEntry>): seq<byte> {
    if ss == [] then [] else EntryBytes(ss[0]) + AllEntries(ss[1..])
  }

  lemma {:induction false} EntryAt(ss: seq<StoredEntry>, rest: seq<byte>, i: nat)
    requires i < |ss| && forall j :: 0 <= j < |ss| ==> StoredOk(ss[j])
    ensures |AllEntries(ss)| == 40 * |ss|
    ensures (AllEntries(ss) + rest)[40 * i..40 * i + 40] == EntryBytes(ss[i])
    decreases |ss|
  {
    hide EntryBytes;
    EntryRead(ss[0]);
    var e, tail := EntryBytes(ss[0]), AllEntries(ss[1..]) + rest;
    assert AllEntries(ss) + rest == e + tail;
    if |ss| > 1 { EntryAt(ss[1..], rest, if i == 0 then 0 else i - 1); }
    if i > 0 {
      assert (e + tail)[40 * i..40 * i + 40] == tail[40 * (i - 1)..40 * (i - 1) + 40];
    }
  }

  /** A segment block: its header, the entry count, four unread bytes, the entries and the rest. */
  function SegmentBlock(head: seq<byte>, gap: seq<byte>, ss: seq<StoredEntry>, rest: seq<byte>): seq<byte> {
    head + LeBytes(|ss|, 4) + gap + (AllEntries(ss) + rest)
  }

  /** Whole blocks, none of the given type. */
  predicate OtherBlocks(m: seq<byte>, size: nat, kind: nat)
    requires 0 < size
  {
    m == [] || (size <= |m| && LeU16(m, 10) != kind && OtherBlocks(m[size..], size, kind))
  }

  lemma LeAtShift(a: seq<byte>, m: seq<byte>, off: nat, n: nat)
    ensures LeAt(a + m, |a| + off, n) == LeAt(m, off, n)
  {
    if off + n <= |m| { assert (a + m)[|a| + off..|a| + off + n] == m[off..off + n]; }
  }

  lemma LeAtPrefix(a: seq<byte>, m: seq<byte>, off: nat, n: nat)
    requires off + n <= |a|
    ensures LeAt(a + m, off, n) == LeAt(a, off, n)
  {
    assert (a + m)[off..off + n] == a[off..off + n];
  }

  lemma {:induction false} SkipOtherBlocks(before: seq<byte>, pre: seq<byte>, m: seq<byte>, size: nat, kind: nat)
    requires 12 <= size <= |m| && OtherBlocks(pre, size, kind) && LeU16(m, 10) == kind
    ensures FirstBlock(before + pre + m, size, kind, |before|) == Some(|before| + |pre|)
    decreases |pre|
  {
    hide LeAt;
    if pre == [] {
      assert before + pre + m == before + m;
      LeAtShift(before, m, 10, 2);
    } else {
      var all := before + pre + m;
      assert all == before + (pre + m);
      LeAtShift(before, pre + m, 10, 2);
      LeAtPrefix(pre, m, 10, 2);
      assert all == (before + pre[..size]) + pre[size..] + m;
      SkipOtherBlocks(before + pre[..size], pre[size..], m, size, kind);
    }
  }

  /** Segment map round trip: written after any whole blocks of other types, and before anything, the list
      that fits its block is read back exactly, whatever the top 16 bits of the block numbers hold. */
  lemma SegmentsRoundTrip(pre: seq<byte>, head: seq<byte>, gap: seq<byte>, ss: seq<StoredEntry>, rest: seq<byte>,
                          post: seq<byte>, size: nat)
    requires |head| == 64 && LeU16(head, 10) == 0x0305 && |gap| == 4
    requires |SegmentBlock(head, gap, ss, rest)| == size
    requires |ss| <= 65536 && forall i :: 0 <= i < |ss| ==> StoredOk(ss[i])
    requires OtherBlocks(pre, size, 0x0305)
    ensures Segments(pre + (SegmentBlock(head, gap, ss, rest) + post), size)
         == seq(|ss|, i requires 0 <= i < |ss| => ss[i].segment)
  {
    hide FirstBlock, SegmentAt, LeAt, AllEntries, EntryBytes, LeBytes;
    var block := SegmentBlock(head, gap, ss, rest);
    var m := pre + (block + post);
    if ss != [] { EntryAt(ss, rest, 0); }
    BlockHead(head, gap, ss, rest, post);
    assert [] + pre + (block + post) == m;
    SkipOtherBlocks([], pre, block + post, size, SEGMENT_BLOCK);
    LeAtShift(pre, block + post, 64, 4);
    forall i | 0 <= i < |ss| ensures SegmentAt(m, |pre| + 72 + 40 * i) == ss[i].segment {
      StoredSegment(pre, head, gap, ss, rest, post, i);
    }
  }

  lemma BlockHead(head: seq<byte>, gap: seq<byte>, ss: seq<StoredEntry>, rest: seq<byte>, post: seq<byte>)
    requires |head| == 64 && |gap| == 4 && |ss| <= MAX_SEGMENTS
    ensures var m := SegmentBlock(head, gap, ss, rest) + post;
            LeU16(m, 10) == LeU16(head, 10) && LeU32(m, 64) == |ss|
  {
    var body := LeBytes(|ss|, 4) + gap + (AllEntries(ss) + rest) + post;
    assert SegmentBlock(head, gap, ss, rest) + post == head + body;
    LeAtPrefix(head, body, 10, 2);
    LeAtShift(head, body, 0, 4);
    assert body[0..4] == LeBytes(|ss|, 4);
    Widths();
    LeRoundTrip(|ss|, 4);
  }

  lemma StoredSegment(pre: seq<byte>, head: seq<byte>, gap: seq<byte>, ss: seq<StoredEntry>, rest: seq<byte>,
                      post: seq<byte>, i: nat)
    requires |head| == 64 && |gap| == 4 && i < |ss| && forall j :: 0 <= j < |ss| ==> StoredOk(ss[j])
    ensures SegmentAt(pre + (SegmentBlock(head, gap, ss, rest) + post), |pre| + 72 + 40 * i) == ss[i].segment
  {
    hide EntryBytes, AllEntries, LeBytes;
    var a := pre + (head + LeBytes(|ss|, 4) + gap);
    var entries := AllEntries(ss) + rest;
    var m := pre + (SegmentBlock(head, gap, ss, rest) + post);
    assert m == a + (entries + post);
    EntryAt(ss, rest, i);
    assert m[|a| + 40 * i..|a| + 40 * i + 40] == entries[40 * i..40 * i + 40];
    SegmentOfSlice(m, |a| + 40 * i, 40, 0);
    EntryRead(ss[i]);
  }
}
