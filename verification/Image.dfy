/** The image of a planned volume: its metadata blocks and where everything lies (core/src/test_support.rs). */
module Image {
  import opened Bytes
  import opened Crypto
  import opened Xts
  import opened Items
  import opened Unlock
  import opened Header
  import opened Metadata
  import opened Plan

  const CONTEXT_BLOCK: nat := 0x0013
  const LV_BLOCK: nat := 0x001a

  /** The byte offset of a block. */
  function At(p: Plan, block: nat): nat { block * p.blockSize }

  /** A block header: zeros apart from the type at offset 10. */
  function TypedHead(kind: u16): (h: seq<byte>)
    ensures |h| == 64
  {
    Zeros(10) + LeBytes(kind, 2) + Zeros(52)
  }

  /** A block of `size` bytes: its header, its body, zeros. */
  function Typed(kind: u16, body: seq<byte>, size: nat): (b: seq<byte>)
    requires 64 + |body| <= size
    ensures |b| == size
  {
    TypedHead(kind) + body + Zeros(size - 64 - |body|)
  }

  function ContextText(c: Cipher, p: Plan): seq<byte> { Print(ContextItems(c, p, [])) }
  function LvText(p: Plan): seq<byte> { Print(LvItems(p)) }

  function PlanSegment(p: Plan): StoredEntry {
    StoredEntry(p.segment, p.volumeIndex, Zeros(8), Zeros(12))
  }

  /** The entry count, a gap, and the one segment. */
  function SegmentBody(p: Plan): (b: seq<byte>)
    ensures |b| == 48
  {
    LeBytes(1, 4) + Zeros(4) + EntryBytes(PlanSegment(p))
  }

  /** The logical volume's size: the printed one, or the segment's when that is 0. */
  function VolumeSize(p: Plan): nat {
    if p.size != 0 then p.size else At(p, p.segment.numberOfBlocks)
  }

  /** The plan can be laid out: texts are texts, each block holds its body, the metadata is whole units, the
      plaintext is whole sectors and covers the volume. */
  predicate PlanOk(c: Cipher, p: Plan) {
    && 1 <= p.iterations && TextsOk(p) && StoredOk(PlanSegment(p))
    && 240 <= p.blockSize && 64 + |ContextText(c, p)| <= p.blockSize && 64 + |LvText(p)| <= p.blockSize
    && p.metadataBlock < TWO_48 && 3 <= p.metadataBlocks <= MAX_BLOCKS && At(p, p.metadataBlocks) % UNIT == 0
    && |p.plaintext| % 512 == 0 && VolumeSize(p) <= |p.plaintext|
  }

  lemma ThreeBlocks(p: Plan)
    requires 3 <= p.metadataBlocks
    ensures 3 * p.blockSize <= At(p, p.metadataBlocks)
  {
  }

  /** The decrypted metadata: three blocks and zero padding to whole units. */
  function PlanMetadata(c: Cipher, p: Plan): (m: seq<byte>)
    requires PlanOk(c, p)
    ensures |m| == At(p, p.metadataBlocks)
  {
    ThreeBlocks(p);
    Typed(CONTEXT_BLOCK, ContextText(c, p), p.blockSize) + Typed(LV_BLOCK, LvText(p), p.blockSize)
    + Typed(SEGMENT_BLOCK, SegmentBody(p), p.blockSize) + Zeros(At(p, p.metadataBlocks) - 3 * p.blockSize)
  }

  /** `s` lies at `off` in the image. */
  predicate Has(image: seq<byte>, off: nat, s: seq<byte>) {
    off + |s| <= |image| && image[off..off + |s|] == s
  }

  const DESCRIPTOR: u32 := 200

  predicate HasHeader(image: seq<byte>, p: Plan) {
    && 512 <= |image|
    && Has(image, 88, Ascii("CS")) && Has(image, 48, LeBytes(512, 4)) && Has(image, 96, LeBytes(p.blockSize, 4))
    && Has(image, 64, LeBytes(|image|, 8)) && Has(image, 172, LeBytes(AES_XTS_128, 4))
    && Has(image, 104, LeBytes(p.regionBlock, 8))
    && Has(image, 176, p.metadataKey) && Has(image, 304, p.pvId)
  }

  /** The one-block plaintext region, starting at `off`. */
  predicate HasRegion(image: seq<byte>, p: Plan, off: nat) {
    && off + p.blockSize <= |image|
    && Has(image, off + 10, LeBytes(POINTER_BLOCK, 2)) && Has(image, off + 64, LeBytes(p.blockSize, 4))
    && Has(image, off + 220, LeBytes(DESCRIPTOR, 4)) && Has(image, off + DESCRIPTOR + 8, LeBytes(p.metadataBlocks, 8))
    && Has(image, off + DESCRIPTOR + 32, LeBytes(p.metadataBlock, 8))
  }

  function EncryptedMetadata(c: Cipher, p: Plan): (m: seq<byte>)
    requires PlanOk(c, p)
    ensures |m| == At(p, p.metadataBlocks)
  {
    Units(Encryptor(c, p.metadataKey, p.pvId, UNIT), UNIT, 0, PlanMetadata(c, p))
  }

  function EncryptedVolume(c: Cipher, p: Plan): (v: seq<byte>)
    ensures |v| == |p.plaintext|
  {
    Units(Encryptor(c, p.vmk, c.sha256(p.vmk + p.family)[..16], 512), 512, 0, p.plaintext)
  }

  /** The image holds the header, the region, the encrypted metadata and the encrypted volume in their places. */
  predicate LaidOut(c: Cipher, p: Plan, image: seq<byte>)
    requires PlanOk(c, p)
  {
    hide PlanOk, HasHeader, HasRegion, Has;
    && |image| < TWO_64
    && HasHeader(image, p)
    && HasRegion(image, p, At(p, p.regionBlock))
    && Has(image, At(p, p.metadataBlock), EncryptedMetadata(c, p))
    && Has(image, At(p, p.segment.physicalBlock), EncryptedVolume(c, p))
  }
}
