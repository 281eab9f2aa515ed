/** The two entry points of core/src/lib.rs, the locked path and the unlocked path. */
module Pipeline {
  import opened Wrappers
  import opened Bytes
  import opened Crypto
  import opened Xts
  import opened Device
  import opened Plaintext
  import opened Volume
  import opened Unlock
  import opened Context
  import opened Header
  import opened Metadata
  import Uuid

  /** Everything that is known without the password. */
  datatype Info = Info(
    physicalVolumeIdentifier: seq<byte>,
    iterations: u32,
    salt: Block,
    familyUuid: seq<byte>,
    lvIdentifier: Option<seq<byte>>,
    lvName: Option<seq<byte>>,
    lvSize: u64,
    encryptionMethod: string,
    conversionStatus: Option<seq<byte>>,
    protectors: seq<Protector>)

  const NO_UUID: Error := MetadataStructureMissing("parseable family UUID")

  function ImageHeader(image: seq<byte>): Result<VolumeHeader, Error> {
    var bytes :- Exact(image, 0, HEADER_LENGTH);
    HeaderOf(bytes)
  }

  /** Where the encrypted metadata lies: the first block gives the size of the plaintext region, the region
      gives the location. */
  function ImageLocation(image: seq<byte>, h: VolumeHeader): Result<Location, Error> {
    if h.blockSize == 0 then Err(OutOfRange("block size is zero")) else
    var first :- Exact(image, RegionOffset(h), h.blockSize);
    var size :- PlaintextMetadataSize(h, first);
    var region :- Exact(image, RegionOffset(h), size);
    LocateEncryptedMetadata(h, region)
  }

  /** The decrypted metadata. */
  function ImageMetadata(c: Cipher, image: seq<byte>, h: VolumeHeader): Result<seq<byte>, Error> {
    var loc :- ImageLocation(image, h);
    var ciphertext :- Exact(image, loc.primaryOffset, loc.length);
    Ok(Units(Decryptor(c, h.keyData, h.physicalVolumeIdentifier, UNIT), UNIT, 0, ciphertext))
  }

  /** The decrypted metadata, from the bytes of the image: unit `q` of 8192 bytes is decrypted block by block under the
      header's key, with masks that start from `q` under the volume identifier. */
  lemma MetadataBlocks(c: Cipher, image: seq<byte>, h: VolumeHeader, q: nat, lo: nat) returns (a: seq<Block>)
    requires ImageMetadata(c, image, h).Ok? && lo == q * 8192 && lo + 8192 <= ImageLocation(image, h).value.length
    requires q < TWO_128
    ensures var m, at := ImageMetadata(c, image, h).value, ImageLocation(image, h).value.primaryOffset;
            && at + lo + 8192 <= |image| && lo + 8192 <= |m| == ImageLocation(image, h).value.length
            && Masks(c, h.physicalVolumeIdentifier, q, a)
            && DecryptedBy(c, h.keyData, a, image[at + lo..at + lo + 8192], m[lo..lo + 8192])
  {
    hide ImageLocation, Units, Decryptor, Masks, DecryptedBy;
    var loc := ImageLocation(image, h).value;
    var stored := Exact(image, loc.primaryOffset, loc.length).value;
    a := DecryptUnitsBlocks(c, h.keyData, h.physicalVolumeIdentifier, 8192, 0, stored, q, lo);
    SliceOfSlice(image, loc.primaryOffset, loc.length, lo, lo + 8192);
  }

  /** `resolve_lv_extent`: base and size of the logical volume. */
  function Extent(segments: seq<Segment>, blockSize: u32, lvSize: u64): (u64, u64) {
    if segments == [] then (0, lvSize)
    else (SaturatingMul(segments[0].physicalBlock, blockSize),
          if lvSize != 0 then lvSize else SaturatingMul(segments[0].numberOfBlocks, blockSize))
  }

  lemma ProductFits(a: u32, b: u32)
    ensures a * b < TWO_64
  {
    Multiples(a, 0x1_0000_0000, b);
  }

  /** The extent on arbitrary bytes. The first segment-descriptor block decides: when it holds an entry, the base is the
      6-byte physical block of its first entry times the block size, cut at the largest 64-bit number, and a record
      without a size takes the entry's blocks, a product that always fits; otherwise the base is 0. */
  lemma ExtentFromBytes(m: seq<byte>, blockSize: u32, lvSize: u64)
    ensures var extent := Extent(Segments(m, blockSize), blockSize, lvSize);
            var b := if blockSize == 0 then None else FirstBlock(m, blockSize, SEGMENT_BLOCK, 0);
            if b.Some? && 112 <= blockSize && 0 < LeU32(m, b.value + 64) then
              && extent.0 == Min(LeU48(m, b.value + 104) * blockSize, TWO_64 - 1)
              && extent.1 == if lvSize != 0 then lvSize else LeU32(m, b.value + 88) * blockSize
            else extent == (0, lvSize)
  {
    hide LeU32, LeU48, LeU64, FirstBlock, Mask48;
    if blockSize > 0 {
      var b := FirstBlock(m, blockSize, SEGMENT_BLOCK, 0);
      if b.Some? && 112 <= blockSize && 0 < LeU32(m, b.value + 64) {
        BlockFits(m, blockSize);
        MaskedIsLeU48(m, b.value + 104);
        ProductFits(LeU32(m, b.value + 88), blockSize);
        assert Segments(m, blockSize)[0] == SegmentAt(m, b.value + 72);
      }
    }
  }

  lemma BlockFits(m: seq<byte>, size: nat)
    requires size > 0 && FirstBlock(m, size, SEGMENT_BLOCK, 0).Some?
    ensures FirstBlock(m, size, SEGMENT_BLOCK, 0).value + size <= |m|
  {
    hide LeU16;
  }

  /** `build_info`. */
  function BuildInfo(h: VolumeHeader, context: EncryptionContext, lv: LvInfo, size: u64): Info {
    Info(Uuid.Format(h.physicalVolumeIdentifier), context.keys.iterations, context.keys.salt, lv.familyUuid,
         lv.lvIdentifier, lv.name, size, "AES-XTS-128", context.conversionStatus, context.protectors)
  }

  /** What the locked path answers on an image. */
  function InfoOf(c: Cipher, image: seq<byte>): Result<Info, Error> {
    var h :- ImageHeader(image);
    var m :- ImageMetadata(c, image, h);
    var context :- ContextOf(m);
    var lv :- LvInfoOf(m);
    Ok(BuildInfo(h, context, lv, Extent(Segments(m, h.blockSize), h.blockSize, lv.size).1))
  }

  datatype Unlocked = Unlocked(info: Info, keys: VolumeKeys, base: u64, size: u64)

  /** What the unlocked path answers on an image and a password. */
  function UnlockedOf(c: Cipher, image: seq<byte>, password: seq<byte>): Result<Unlocked, Error> {
    var h :- ImageHeader(image);
    var m :- ImageMetadata(c, image, h);
    var context :- ContextOf(m);
    var lv :- LvInfoOf(m);
    var family :- OkOr(Uuid.Parse(lv.familyUuid), NO_UUID);
    var keys :- DeriveVolumeKeys(c, password, context.keys, family);
    var extent := Extent(Segments(m, h.blockSize), h.blockSize, lv.size);
    Ok(Unlocked(BuildInfo(h, context, lv, extent.1), keys, extent.0, extent.1))
  }

  /** The layout an unlocked image presents. */
  function LayoutOf(c: Cipher, u: Unlocked): Layout {
    Encrypted(c, u.keys.vmk, u.keys.tweakKey, u.base, u.size)
  }

  /** An answer over a reader: the specified one, or the fault of a faulty reader. */
  ghost predicate Answers<T>(r: Result<T, Error>, spec: Result<T, Error>, faultless: bool) {
    r == spec || (r == Err(Io(Fault)) && !faultless)
  }

  /** `read_exact_or_err` after a seek, and the parse of the header. */
  method ReadHeader(reader: Reader) returns (r: Result<VolumeHeader, Error>)
    modifies reader
    ensures Answers(r, ImageHeader(reader.data), old(reader.Faultless()))
    ensures old(reader.Faultless()) ==> reader.Faultless()
  {
    hide HeaderOf;
    var bytes :- ReadExactAt(reader, 0, HEADER_LENGTH);
    r := Parse(bytes[..]);
  }

  method ReadLocation(reader: Reader, h: VolumeHeader) returns (r: Result<Location, Error>)
    modifies reader
    ensures Answers(r, ImageLocation(reader.data, h), old(reader.Faultless()))
    ensures old(reader.Faultless()) ==> reader.Faultless()
  {
    hide PlaintextMetadataSize, LocateEncryptedMetadata, RegionOffset, Exact;
    var offset := RegionOffset(h);
    if h.blockSize == 0 {
      return Err(OutOfRange("block size is zero"));
    }
    var first :- ReadExactAt(reader, offset, h.blockSize);
    var size :- PlaintextMetadataSize(h, first[..]);
    var region :- ReadExactAt(reader, offset, size);
    r := LocateEncryptedMetadata(h, region[..]);
  }

  /** `decrypt_metadata_region`: read the region, then decrypt it in place. */
  method DecryptMetadataRegion(reader: Reader, c: Cipher, h: VolumeHeader) returns (r: Result<seq<byte>, Error>)
    modifies reader
    ensures Answers(r, ImageMetadata(c, reader.data, h), old(reader.Faultless()))
    ensures old(reader.Faultless()) ==> reader.Faultless()
  {
    hide ImageLocation, Exact, Units;
    var loc :- ReadLocation(reader, h);
    var ciphertext :- ReadExactAt(reader, loc.primaryOffset, loc.length);
    DecryptUnits(ciphertext, c, h.keyData, h.physicalVolumeIdentifier, UNIT, 0);
    r := Ok(ciphertext[..]);
  }

  method ResolveLvExtent(m: seq<byte>, h: VolumeHeader, lv: LvInfo) returns (base: u64, size: u64)
    ensures (base, size) == Extent(Segments(m, h.blockSize), h.blockSize, lv.size)
  {
    hide Segments;
    var segments := ParseSegments(m, h.blockSize);
    if segments == [] {
      return 0, lv.size;
    }
    base := SaturatingMul(segments[0].physicalBlock, h.blockSize);
    size := if lv.size != 0 then lv.size else SaturatingMul(segments[0].numberOfBlocks, h.blockSize);
  }

  /** `parse_info`. */
  method ParseInfo(reader: Reader, c: Cipher) returns (r: Result<Info, Error>)
    modifies reader
    ensures Answers(r, InfoOf(c, reader.data), old(reader.Faultless()))
  {
    hide ImageHeader, ImageMetadata, ContextOf, LvInfoOf, Segments, Extent;
    var h :- ReadHeader(reader);
    var m :- DecryptMetadataRegion(reader, c, h);
    var context :- ExtractContext(m);
    var lv :- LvInfoOf(m);
    var _, size := ResolveLvExtent(m, h, lv);
    r := Ok(BuildInfo(h, context, lv, size));
  }

  /** An unlocked volume. */
  class FileVaultVolume {
    const decrypted: DecryptedVolume
    const info: Info

    constructor (decrypted: DecryptedVolume, info: Info)
      ensures this.decrypted == decrypted && this.info == info
    {
      this.decrypted, this.info := decrypted, info;
    }
  }

  /** The volume object that an unlocked image becomes, over its reader and at position 0. */
  ghost predicate Presents(vol: FileVaultVolume, c: Cipher, u: Unlocked, reader: Reader)
    reads vol.decrypted
  {
    && vol.info == u.info && vol.decrypted.reader == reader && vol.decrypted.position == 0
    && vol.decrypted.View() == LayoutOf(c, u)
  }

  /** `unlock_with_password`. */
  method UnlockWithPassword(reader: Reader, c: Cipher, password: seq<byte>) returns (r: Result<FileVaultVolume, Error>)
    modifies reader
    ensures r.Ok? ==> fresh(r.value) && fresh(r.value.decrypted)
    ensures r.Ok? ==> UnlockedOf(c, reader.data, password).Ok?
                      && Presents(r.value, c, UnlockedOf(c, reader.data, password).value, reader)
    ensures r.Err? ==> Answers(Err(r.error), UnlockedOf(c, reader.data, password), old(reader.Faultless()))
    ensures old(reader.Faultless()) ==> reader.Faultless()
  {
    hide ImageHeader, ImageMetadata, ContextOf, LvInfoOf, Segments, Extent, DeriveVolumeKeys, Uuid.Parse, Decryptor;
    var h :- ReadHeader(reader);
    var m :- DecryptMetadataRegion(reader, c, h);
    var context :- ExtractContext(m);
    var lv :- LvInfoOf(m);
    var family :- OkOr(Uuid.Parse(lv.familyUuid), NO_UUID);
    var keys :- DeriveVolumeKeys(c, password, context.keys, family);
    var base, size := ResolveLvExtent(m, h, lv);
    var decrypted := new DecryptedVolume(reader, c, keys, base, size);
    var vol := new FileVaultVolume(decrypted, BuildInfo(h, context, lv, size));
    r := Ok(vol);
  }
}
