/** The whole pipeline undoes the image builder. */
module EndToEnd {
  import opened Wrappers
  import opened Bytes
  import opened Crypto
  import opened Xts
  import opened Device
  import opened Plaintext
  import opened Scan
  import opened Plist
  import opened Items
  import opened KeyWrap
  import opened Unlock
  import opened Context
  import opened Header
  import opened Metadata
  import opened Pipeline
  import opened Plan
  import opened ReadBack
  import opened Image
  import opened Spelling
  import Uuid

  // The metadata, seen by the scanner.

  function Gap(c: Cipher, p: Plan): seq<byte>
    requires PlanOk(c, p)
  {
    Zeros(p.blockSize - 64 - |ContextText(c, p)|) + TypedHead(LV_BLOCK)
  }

  function Padding(p: Plan): nat
    requires 3 <= p.metadataBlocks
  {
    ThreeBlocks(p);
    At(p, p.metadataBlocks) - 3 * p.blockSize
  }

  function Tail(c: Cipher, p: Plan): seq<byte>
    requires PlanOk(c, p)
  {
    Zeros(p.blockSize - 64 - |LvText(p)|) + Typed(SEGMENT_BLOCK, SegmentBody(p), p.blockSize) + Zeros(Padding(p))
  }

  lemma MetadataPrinted(c: Cipher, p: Plan)
    requires PlanOk(c, p)
    ensures PlanMetadata(c, p)
         == TypedHead(CONTEXT_BLOCK) + (ContextLetters(c, p) + Gap(c, p) + (LvLetters(p) + Tail(c, p)))
  {
    hide ContextText, LvText, TypedHead, SegmentBody, ContextLetters, LvLetters;
    Letters(c, p);
  }

  /** The texts of an image, letter by letter. */
  lemma Letters(c: Cipher, p: Plan)
    ensures ContextText(c, p) == ContextLetters(c, p) && LvText(p) == LvLetters(p)
  {
    hide ContextItems, LvItems, ContextLetters, LvLetters, Print;
    ContextSpelled(c, p, []);
    LvSpelled(p);
  }

  lemma HeadPlain(kind: u16)
    requires kind % 256 != LT && kind / 256 != LT
    ensures LT !in TypedHead(kind)
  {
    assert LeBytes(kind, 2) == [kind % 256] + LeBytes(kind / 256, 1);
    assert LeBytes(kind / 256, 1) == [kind / 256 % 256] + [];
  }

  lemma HeadsArePlain(c: Cipher, p: Plan)
    requires PlanOk(c, p)
    ensures LT !in TypedHead(CONTEXT_BLOCK) && LT !in Gap(c, p)
  {
    hide TypedHead, ContextText, LvText, At, TextsOk, VolumeSize, StoredOk;
    HeadPlain(CONTEXT_BLOCK);
    HeadPlain(LV_BLOCK);
  }

  lemma SegmentZeros(p: Plan)
    requires 112 <= p.blockSize && StoredOk(PlanSegment(p))
    ensures var b := Typed(SEGMENT_BLOCK, SegmentBody(p), p.blockSize);
            forall i :: (0 <= i < 10 || 12 <= i < 64 || 68 <= i < 80 || 92 <= i < 104 || 112 <= i < p.blockSize) ==> b[i] == 0
  {
    hide LeBytes;
  }

  lemma TailZeros(c: Cipher, p: Plan, q: nat)
    requires PlanOk(c, p) && q + 13 <= |Tail(c, p)|
    ensures ZeroNear(Tail(c, p), q)
  {
    hide ContextText, LvText, SegmentBody, Typed;
    SegmentZeros(p);
    var tail, k := Tail(c, p), p.blockSize - 64 - |LvText(p)|;
    var i := q - k;
    var j := if i < 0 then q else if i == 10 then q + 2 else if i == 11 then q + 1
             else if 64 <= i < 68 then k + 68 else if 80 <= i < 92 then k + 92
             else if 104 <= i < 112 then k + 112 else q;
    assert tail[j] == 0;
  }

  /** The segment block and the padding cannot spell a UserType key. */
  lemma TailHasNoUsers(c: Cipher, p: Plan)
    requires PlanOk(c, p)
    ensures FindSub(Tail(c, p), Ascii("<key>UserType</key>")) == None
  {
    hide Tail, ZeroNear, KeyTag, PlanOk, Ascii;
    UserTypeKey();
    UserTypeKeyShape();
    forall q: nat | q + 13 <= |Tail(c, p)| ensures ZeroNear(Tail(c, p), q) { TailZeros(c, p, q); }
    NotAmongZeros(Tail(c, p), KeyTag(USER_TYPE));
  }

  lemma MetadataRead(c: Cipher, p: Plan)
    requires PlanOk(c, p)
    ensures ContextOf(PlanMetadata(c, p)) == Ok(EncryptionContext(PlannedKeys(c, p), [Classify(p.userType)], Some(p.status)))
    ensures LvInfoOf(PlanMetadata(c, p)) == Ok(LvInfo(p.size, Uuid.Format(p.family), Some(p.identifier), Some(p.name)))
  {
    hide PlanMetadata, Gap, Tail, ContextOf, LvInfoOf, TypedHead, TextsOk, Classify, PlannedKeys, FindSub, Ascii,
      ContextLetters, LvLetters;
    MetadataPrinted(c, p);
    HeadsArePlain(c, p);
    TailHasNoUsers(c, p);
    ContextRead(c, p, TypedHead(CONTEXT_BLOCK), Gap(c, p), Tail(c, p));
    LvRead(c, p, TypedHead(CONTEXT_BLOCK), Gap(c, p), Tail(c, p));
  }

  // The metadata, seen block by block.

  lemma HeadKind(kind: u16)
    ensures LeU16(TypedHead(kind), 10) == kind
  {
    hide LeBytes;
    assert TypedHead(kind)[10..12] == LeBytes(kind, 2);
    Widths();
    LeRoundTrip(kind, 2);
  }

  lemma TypedKind(kind: u16, body: seq<byte>, size: nat, after: seq<byte>)
    requires 64 + |body| <= size
    ensures LeU16(Typed(kind, body, size) + after, 10) == kind
  {
    hide TypedHead, LeAt;
    HeadKind(kind);
    var rest := body + Zeros(size - 64 - |body|) + after;
    assert Typed(kind, body, size) + after == TypedHead(kind) + rest;
    LeAtPrefix(TypedHead(kind), rest, 10, 2);
  }

  lemma PlistBlocks(c: Cipher, p: Plan)
    requires PlanOk(c, p)
    ensures OtherBlocks(Typed(CONTEXT_BLOCK, ContextText(c, p), p.blockSize) + Typed(LV_BLOCK, LvText(p), p.blockSize),
                        p.blockSize, SEGMENT_BLOCK)
  {
    hide ContextText, LvText, Typed, LeU16;
    var a, b := Typed(CONTEXT_BLOCK, ContextText(c, p), p.blockSize), Typed(LV_BLOCK, LvText(p), p.blockSize);
    TypedKind(CONTEXT_BLOCK, ContextText(c, p), p.blockSize, b);
    TypedKind(LV_BLOCK, LvText(p), p.blockSize, []);
    assert b + [] == b && (a + b)[p.blockSize..] == b && b[p.blockSize..] == [];
    assert OtherBlocks([], p.blockSize, SEGMENT_BLOCK);
    assert OtherBlocks(b, p.blockSize, SEGMENT_BLOCK);
  }

  lemma SegmentBlockTyped(p: Plan)
    requires 112 <= p.blockSize && StoredOk(PlanSegment(p))
    ensures SegmentBlock(TypedHead(SEGMENT_BLOCK), Zeros(4), [PlanSegment(p)], Zeros(p.blockSize - 112))
         == Typed(SEGMENT_BLOCK, SegmentBody(p), p.blockSize)
  {
    hide TypedHead, LeBytes, EntryBytes;
    var s := PlanSegment(p);
    EntryRead(s);
    assert [s][1..] == [] && AllEntries([s]) == EntryBytes(s) + AllEntries([]);
  }

  lemma SegmentsRead(c: Cipher, p: Plan)
    requires PlanOk(c, p)
    ensures Segments(PlanMetadata(c, p), p.blockSize) == [p.segment]
  {
    hide ContextText, LvText, Typed, TypedHead, SegmentBody, Segments, SegmentBlock, StoredOk, OtherBlocks, LeU16;
    var ss := [PlanSegment(p)];
    var pre := Typed(CONTEXT_BLOCK, ContextText(c, p), p.blockSize) + Typed(LV_BLOCK, LvText(p), p.blockSize);
    PlistBlocks(c, p);
    SegmentBlockTyped(p);
    HeadKind(SEGMENT_BLOCK);
    SegmentsRoundTrip(pre, TypedHead(SEGMENT_BLOCK), Zeros(4), ss, Zeros(p.blockSize - 112), Zeros(Padding(p)), p.blockSize);
    var block := Typed(SEGMENT_BLOCK, SegmentBody(p), p.blockSize);
    assert PlanMetadata(c, p) == pre + (block + Zeros(Padding(p)));
    assert seq(|ss|, i requires 0 <= i < |ss| => ss[i].segment) == [p.segment];
  }

  // The image.

  lemma FieldRead(image: seq<byte>, base: nat, size: nat, off: nat, v: nat, n: nat)
    requires base + size <= |image| && off + n <= size && v < Pow256(n) && Has(image, base + off, LeBytes(v, n))
    ensures LeAt(image[base..base + size], off, n) == v
  {
    hide LeBytes;
    SliceOfSlice(image, base, size, off, off + n);
    LeRoundTrip(v, n);
  }

  lemma KeyRead(image: seq<byte>, off: nat, key: Block)
    requires 512 <= |image| && off + 16 <= 512 && Has(image, off, key)
    ensures Bytes16(image[0..512], off) == key
  {
    SliceOfSlice(image, 0, 512, off, off + 16);
  }

  lemma Signature()
    ensures Ascii("CS") == LeBytes(SIGNATURE, 2)
  {
    assert Ascii("CS") == [67, 83];
    assert LeBytes(SIGNATURE, 2) == [67] + LeBytes(0x53, 1);
    assert LeBytes(0x53, 1) == [83] + LeBytes(0, 0);
  }

  /** The header is read back; of its block numbers only the first is planned. */
  lemma HeaderRead(image: seq<byte>, p: Plan)
    requires HasHeader(image, p) && |image| < TWO_64
    ensures ImageHeader(image).Ok?
    ensures var h := ImageHeader(image).value;
            && h.blockSize == p.blockSize && h.bytesPerSector == 512 && h.physicalVolumeSize == |image|
            && h.metadataBlockNumbers != [] && h.metadataBlockNumbers[0] == p.regionBlock
            && h.keyData == p.metadataKey && h.physicalVolumeIdentifier == p.pvId
  {
    hide LeAt, LeBytes, Has, Bytes16, Ascii;
    Widths();
    Signature();
    FieldRead(image, 0, 512, 88, SIGNATURE, 2);
    FieldRead(image, 0, 512, 48, 512, 4);
    FieldRead(image, 0, 512, 96, p.blockSize, 4);
    FieldRead(image, 0, 512, 64, |image|, 8);
    FieldRead(image, 0, 512, 172, AES_XTS_128, 4);
    FieldRead(image, 0, 512, 104, p.regionBlock, 8);
    KeyRead(image, 176, p.metadataKey);
    KeyRead(image, 304, p.pvId);
  }

  /** The fields of the plaintext region. */
  lemma RegionRead(image: seq<byte>, p: Plan, off: nat)
    requires HasRegion(image, p, off) && 240 <= p.blockSize && p.metadataBlock < TWO_48 && p.metadataBlocks <= MAX_BLOCKS
    ensures var region := image[off..off + p.blockSize];
            && LeU16(region, 10) == POINTER_BLOCK && LeU32(region, 64) == p.blockSize && LeU32(region, 220) == DESCRIPTOR
            && LeU64(region, DESCRIPTOR + 8) == p.metadataBlocks && LeU64(region, DESCRIPTOR + 32) == p.metadataBlock
  {
    hide LeAt, LeBytes, Has;
    Widths();
    FieldRead(image, off, p.blockSize, 10, POINTER_BLOCK, 2);
    FieldRead(image, off, p.blockSize, 64, p.blockSize, 4);
    FieldRead(image, off, p.blockSize, 220, DESCRIPTOR, 4);
    FieldRead(image, off, p.blockSize, DESCRIPTOR + 8, p.metadataBlocks, 8);
    FieldRead(image, off, p.blockSize, DESCRIPTOR + 32, p.metadataBlock, 8);
  }

  lemma LocationRead(image: seq<byte>, p: Plan, h: VolumeHeader)
    requires h.blockSize == p.blockSize && h.metadataBlockNumbers != [] && h.metadataBlockNumbers[0] == p.regionBlock
    requires |image| < TWO_64 && HasRegion(image, p, At(p, p.regionBlock))
    requires 240 <= p.blockSize && p.metadataBlock < TWO_48 && 3 <= p.metadataBlocks <= MAX_BLOCKS
    requires At(p, p.metadataBlock) < TWO_64 && At(p, p.metadataBlocks) < TWO_64
    ensures ImageLocation(image, h) == Ok(Location(At(p, p.metadataBlock), p.metadataBlocks, At(p, p.metadataBlocks)))
  {
    hide LeU16, LeU32, LeU64, HasRegion, LocateEncryptedMetadata, PlaintextMetadataSize;
    var off := At(p, p.regionBlock);
    RegionExtent(image, p, off);
    assert RegionOffset(h) == off;
    RegionRead(image, p, off);
    var region := image[off..off + p.blockSize];
    assert PlaintextMetadataSize(h, region) == Ok(p.blockSize) by { OneBlock(h, region); }
    LocatedAt(p, h, region);
  }

  lemma OneBlock(h: VolumeHeader, region: seq<byte>)
    requires 0 < h.blockSize == LeU32(region, 64) && LeU16(region, 10) == POINTER_BLOCK
    ensures PlaintextMetadataSize(h, region) == Ok(h.blockSize)
  {
    hide LeU16, LeU32;
    assert h.blockSize / h.blockSize == 1;
  }

  lemma LocatedAt(p: Plan, h: VolumeHeader, region: seq<byte>)
    requires h.blockSize == p.blockSize && 240 <= |region|
    requires p.metadataBlock < TWO_48 && 3 <= p.metadataBlocks <= MAX_BLOCKS
    requires At(p, p.metadataBlock) < TWO_64 && At(p, p.metadataBlocks) < TWO_64
    requires LeU16(region, 10) == POINTER_BLOCK && LeU32(region, 220) == DESCRIPTOR
    requires LeU64(region, DESCRIPTOR + 8) == p.metadataBlocks && LeU64(region, DESCRIPTOR + 32) == p.metadataBlock
    ensures LocateEncryptedMetadata(h, region) == Ok(Location(At(p, p.metadataBlock), p.metadataBlocks, At(p, p.metadataBlocks)))
  {
    hide LeU16, LeU32, LeU64;
  }

  lemma RegionExtent(image: seq<byte>, p: Plan, off: nat)
    requires HasRegion(image, p, off)
    ensures off + p.blockSize <= |image|
  {
  }

  lemma DecryptsMetadata(c: Cipher, p: Plan)
    requires PlanOk(c, p)
    ensures Units(Decryptor(c, p.metadataKey, p.pvId, UNIT), UNIT, 0, EncryptedMetadata(c, p)) == PlanMetadata(c, p)
  {
    hide PlanMetadata, Units, Whole, Decryptor, Encryptor, At, ContextText, LvText, TextsOk, StoredOk, VolumeSize;
    WholeMetadataUnits(At(p, p.metadataBlocks));
    UnitsRoundTrip(c, p.metadataKey, p.pvId, UNIT, 0, PlanMetadata(c, p));
  }

  lemma LaidOutParts(c: Cipher, p: Plan, image: seq<byte>)
    requires PlanOk(c, p) && LaidOut(c, p, image)
    ensures |image| < TWO_64 && HasHeader(image, p) && HasRegion(image, p, At(p, p.regionBlock))
    ensures var off, n := At(p, p.metadataBlock), At(p, p.metadataBlocks);
            off + n <= |image| && Exact(image, off, n) == Ok(EncryptedMetadata(c, p))
    ensures 240 <= p.blockSize && p.metadataBlock < TWO_48 && 3 <= p.metadataBlocks <= MAX_BLOCKS
  {
    hide HasHeader, HasRegion, EncryptedMetadata, EncryptedVolume, At, ContextText, LvText, TextsOk, StoredOk, VolumeSize;
  }

  /** The locked path reaches the planned metadata. */
  lemma MetadataReached(c: Cipher, p: Plan, image: seq<byte>)
    requires PlanOk(c, p) && LaidOut(c, p, image)
    ensures ImageHeader(image).Ok?
    ensures var h := ImageHeader(image).value;
            && h.blockSize == p.blockSize && h.physicalVolumeIdentifier == p.pvId
            && ImageMetadata(c, image, h) == Ok(PlanMetadata(c, p))
  {
    hide HasHeader, HasRegion, ImageHeader, ImageLocation, EncryptedMetadata, PlanMetadata, Units, Decryptor, LaidOut, PlanOk,
      Exact, At;
    LaidOutParts(c, p, image);
    HeaderRead(image, p);
    LocationRead(image, p, ImageHeader(image).value);
    DecryptsMetadata(c, p);
  }

  // The whole pipeline.

  predicate SizesFit(p: Plan) {
    VolumeSize(p) < TWO_64 && At(p, p.segment.physicalBlock) < TWO_64
  }

  /** What a planned volume says of itself. */
  function PlannedInfo(p: Plan): Info
    requires SizesFit(p)
  {
    Info(Uuid.Format(p.pvId), p.iterations, p.salt, Uuid.Format(p.family), Some(p.identifier), Some(p.name),
         VolumeSize(p), "AES-XTS-128", Some(p.status), [Classify(p.userType)])
  }

  function Planned(c: Cipher, p: Plan): Unlocked
    requires SizesFit(p)
  {
    Unlocked(PlannedInfo(p), VolumeKeys(p.vmk, c.sha256(p.vmk + p.family)[..16]), At(p, p.segment.physicalBlock), VolumeSize(p))
  }

  lemma LaidOutSizes(c: Cipher, p: Plan, image: seq<byte>)
    requires PlanOk(c, p) && LaidOut(c, p, image)
    ensures SizesFit(p) && At(p, p.segment.physicalBlock) + VolumeSize(p) <= |image| < TWO_64
    ensures Has(image, At(p, p.segment.physicalBlock), EncryptedVolume(c, p))
  {
    hide EncryptedMetadata, EncryptedVolume, HasHeader, HasRegion, At, VolumeSize;
  }

  lemma ExtentPlanned(p: Plan)
    requires SizesFit(p)
    ensures Extent([p.segment], p.blockSize, p.size) == (At(p, p.segment.physicalBlock), VolumeSize(p))
  {
  }

  lemma KeysDerived(c: Cipher, p: Plan)
    requires PlanOk(c, p)
    ensures DeriveVolumeKeys(c, p.password, PlannedKeys(c, p), p.family)
         == Ok(VolumeKeys(p.vmk, c.sha256(p.vmk + p.family)[..16]))
  {
    hide Wrap, DeriveVolumeKeys;
    HierarchyRoundTrip(c, p.password, PlannedKeys(c, p), p.family, p.kek, p.vmk);
  }

  /** Both paths read back the plan: the info without the password, the keys and the place of the volume with it. */
  lemma PipelineUndoesBuilder(c: Cipher, p: Plan, image: seq<byte>)
    requires PlanOk(c, p) && LaidOut(c, p, image)
    ensures SizesFit(p)
    ensures InfoOf(c, image) == Ok(PlannedInfo(p))
    ensures UnlockedOf(c, image, p.password) == Ok(Planned(c, p))
  {
    hide LaidOut, ImageHeader, ImageMetadata, ContextOf, LvInfoOf, Segments, Extent, DeriveVolumeKeys, Uuid.Parse,
      Uuid.Format, PlanMetadata, Classify, SizesFit, PlanOk, VolumeSize, At, Wrap;
    LaidOutSizes(c, p, image);
    MetadataReached(c, p, image);
    MetadataRead(c, p);
    SegmentsRead(c, p);
    ExtentPlanned(p);
    Uuid.RoundTrip(p.family);
    KeysDerived(c, p);
  }

  lemma PlannedIntegrity(c: Cipher, p: Plan, q: seq<byte>)
    requires PlanOk(c, p)
    ensures DeriveVolumeKeys(c, q, PlannedKeys(c, p), p.family) == Err(KeyUnwrap("KEK")) <==>
              forall kek: Block :: Wrap(c, c.kdf(p.password, p.salt, p.iterations), p.kek) != Wrap(c, c.kdf(q, p.salt, p.iterations), kek)
  {
    hide Wrap, DeriveVolumeKeys;
    IntegrityFailure(c, q, PlannedKeys(c, p), p.family);
  }

  /** Any password but the planned one is refused as long as its key does not unwrap the planned KEK. */
  lemma OtherPasswords(c: Cipher, p: Plan, image: seq<byte>, q: seq<byte>)
    requires PlanOk(c, p) && LaidOut(c, p, image)
    ensures UnlockedOf(c, image, q) == Err(KeyUnwrap("KEK")) <==>
              forall kek: Block :: Wrap(c, c.kdf(p.password, p.salt, p.iterations), p.kek) != Wrap(c, c.kdf(q, p.salt, p.iterations), kek)
  {
    hide LaidOut, ImageHeader, ImageMetadata, ContextOf, LvInfoOf, Segments, Extent, DeriveVolumeKeys, Uuid.Parse,
      Uuid.Format, PlanMetadata, PlannedKeys, Classify, SizesFit, Wrap, PlanOk;
    MetadataReached(c, p, image);
    MetadataRead(c, p);
    Uuid.RoundTrip(p.family);
    PlannedIntegrity(c, p, q);
  }

  lemma SectorOf(image: seq<byte>, base: nat, s: seq<byte>, lo: nat)
    requires Has(image, base, s) && lo + 512 <= |s|
    ensures StoredSector(image, base + lo) == s[lo..lo + 512]
  {
    var stored, sector := StoredSector(image, base + lo), s[lo..lo + 512];
    forall j | 0 <= j < 512 ensures stored[j] == sector[j] {
      assert image[base..base + |s|][lo + j] == image[base + lo + j];
    }
  }

  /** A volume stored encrypted decrypts to its plaintext, byte by byte. */
  lemma StoredPlaintext(c: Cipher, k1: Block, k2: Block, image: seq<byte>, v: Layout, plain: seq<byte>, i: nat)
    requires |plain| % 512 == 0 && i < |plain| && v.unit == Decryptor(c, k1, k2, 512)
    requires Has(image, v.base, Units(Encryptor(c, k1, k2, 512), 512, 0, plain))
    ensures PlainByte(image, v, i) == plain[i]
  {
    hide Units, Decryptor, Encryptor, Has, Whole;
    var stored, q := Units(Encryptor(c, k1, k2, 512), 512, 0, plain), i / 512;
    SectorBounds(i, |plain|);
    WholeSectors(|plain|);
    UnitsRoundTrip(c, k1, k2, 512, 0, plain);
    SectorOf(image, v.base, stored, q * 512);
    UnitByte(v.unit, 0, stored, q, q * 512, i % 512);
  }

  /** End-to-end round trip: for every plan and every image that lays it out, unlocking with the password
      succeeds, and every read window of the unlocked volume is that window of the original plaintext. */
  lemma EndToEndRoundTrip(c: Cipher, p: Plan, image: seq<byte>, offset: nat, len: nat)
    requires PlanOk(c, p) && LaidOut(c, p, image)
    ensures UnlockedOf(c, image, p.password).Ok? && VolumeSize(p) <= |p.plaintext|
    ensures ReadBytes(image, LayoutOf(c, UnlockedOf(c, image, p.password).value), offset, len)
         == Window(p.plaintext[..VolumeSize(p)], offset, len)
  {
    hide LaidOut, UnlockedOf, InfoOf, PlainByte, RegionByte, Has, VolumeSize, At, Units;
    PipelineUndoesBuilder(c, p, image);
    LaidOutSizes(c, p, image);
    var v := LayoutOf(c, Planned(c, p));
    if offset < v.size {
      FittingVolumeNeverWraps(v, offset);
      ReadRefinesPlain(image, v, offset, len);
      forall i | offset <= i < v.size ensures PlainByte(image, v, i) == p.plaintext[i] {
        StoredPlaintext(c, p.vmk, c.sha256(p.vmk + p.family)[..16], image, v, p.plaintext, i);
      }
    }
    WindowLength(p.plaintext[..VolumeSize(p)], offset, len);
  }
}
