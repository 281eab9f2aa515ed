/** What holds between the locked and the unlocked path, on every image. */
module Agreement {
  import opened Wrappers
  import opened Bytes
  import opened Crypto
  import opened Device
  import opened KeyWrap
  import opened Unlock
  import opened Context
  import opened Header
  import opened Metadata
  import opened Pipeline
  import Uuid

  lemma DerivationErrors(c: Cipher, password: seq<byte>, m: KeyMaterial, family: Block)
    ensures var r := DeriveVolumeKeys(c, password, m, family);
            r.Err? ==> r.error == KeyUnwrap("KEK") || r.error == KeyUnwrap("VMK")
  {
    hide Unwrap;
  }

  /** Whatever fails the locked path fails the unlocked path with the same error. Otherwise the unlocked path
      yields the same info, an unparseable-UUID error that the info alone decides, or a key-unwrap error. */
  lemma PathsAgree(c: Cipher, image: seq<byte>, password: seq<byte>)
    ensures var locked, unlocked := InfoOf(c, image), UnlockedOf(c, image, password);
            && (locked.Err? ==> unlocked == Err(locked.error))
            && (locked.Ok? && Uuid.Parse(locked.value.familyUuid).None? ==> unlocked == Err(NO_UUID))
            && (locked.Ok? && Uuid.Parse(locked.value.familyUuid).Some? ==>
                  || unlocked == Err(KeyUnwrap("KEK")) || unlocked == Err(KeyUnwrap("VMK"))
                  || (unlocked.Ok? && unlocked.value.info == locked.value && unlocked.value.size == locked.value.lvSize))
  {
    hide ImageHeader, ImageMetadata, ContextOf, LvInfoOf, Segments, Extent, DeriveVolumeKeys, Uuid.Parse;
    var h := ImageHeader(image);
    if h.Ok? {
      var m := ImageMetadata(c, image, h.value);
      if m.Ok? && ContextOf(m.value).Ok? && LvInfoOf(m.value).Ok? {
        var lv := LvInfoOf(m.value).value;
        var family := Uuid.Parse(lv.familyUuid);
        if family.Some? {
          DerivationErrors(c, password, ContextOf(m.value).value.keys, family.value);
        }
      }
    }
  }

  /** The info, the base and the size never depend on the password. */
  lemma PasswordIndependence(c: Cipher, image: seq<byte>, p: seq<byte>, q: seq<byte>)
    requires UnlockedOf(c, image, p).Ok? && UnlockedOf(c, image, q).Ok?
    ensures var a, b := UnlockedOf(c, image, p).value, UnlockedOf(c, image, q).value;
            a.info == b.info && a.base == b.base && a.size == b.size
  {
    hide ImageHeader, ImageMetadata, ContextOf, LvInfoOf, Segments, Extent, DeriveVolumeKeys, Uuid.Parse;
  }

  /** The image stores `kek` wrapped under the key of `password`, and `vmk` wrapped under `kek`. */
  ghost predicate Holds(c: Cipher, image: seq<byte>, password: seq<byte>, kek: Block, vmk: Block) {
    && ImageHeader(image).Ok?
    && var m := ImageMetadata(c, image, ImageHeader(image).value);
       && m.Ok? && ContextOf(m.value).Ok?
       && var keys := ContextOf(m.value).value.keys;
          && keys.wrappedKek == Wrap(c, c.kdf(password, keys.salt, if keys.iterations == 0 then 1 else keys.iterations), kek)
          && keys.wrappedVmk == Wrap(c, kek, vmk)
  }

  /** An image whose locked path works and whose family UUID parses is unlocked by exactly the passwords
      under whose key its KEK was wrapped, and the volume key is then the wrapped one. */
  lemma UnlocksExactly(c: Cipher, image: seq<byte>, password: seq<byte>)
    requires InfoOf(c, image).Ok? && Uuid.Parse(InfoOf(c, image).value.familyUuid).Some?
    ensures UnlockedOf(c, image, password).Ok? <==> exists kek: Block, vmk: Block :: Holds(c, image, password, kek, vmk)
    ensures forall kek: Block, vmk: Block :: Holds(c, image, password, kek, vmk) ==>
              UnlockedOf(c, image, password).Ok? && UnlockedOf(c, image, password).value.keys.vmk == vmk
  {
    hide ImageHeader, ImageMetadata, ContextOf, LvInfoOf, Segments, Extent, DeriveVolumeKeys, Uuid.Parse, Wrap;
    var m := ImageMetadata(c, image, ImageHeader(image).value).value;
    var keys, family := ContextOf(m).value.keys, Uuid.Parse(LvInfoOf(m).value.familyUuid).value;
    var r := UnlockedOf(c, image, password);
    forall kek: Block, vmk: Block | Holds(c, image, password, kek, vmk) ensures r.Ok? && r.value.keys.vmk == vmk {
      HierarchyRoundTrip(c, password, keys, family, kek, vmk);
    }
    if r.Ok? {
      var kek := DerivedKeysWereWrapped(c, password, keys, family);
      assert Holds(c, image, password, kek, r.value.keys.vmk);
    }
  }

  /** The size the first metadata block claims for the plaintext region. */
  function RegionSize(image: seq<byte>, h: VolumeHeader): u32 {
    LeU32(Window(image, RegionOffset(h), h.blockSize), 64)
  }

  /** Fail-loud extents: the locked path succeeds only when the header, the first metadata block, the whole
      plaintext region and the whole encrypted region lie inside the image. */
  lemma FailLoudExtents(c: Cipher, image: seq<byte>)
    requires InfoOf(c, image).Ok?
    ensures HEADER_LENGTH <= |image| && ImageHeader(image).Ok?
    ensures var h := ImageHeader(image).value;
            && 0 < h.blockSize && RegionOffset(h) + h.blockSize <= |image|
            && 0 < RegionSize(image, h) && RegionOffset(h) + RegionSize(image, h) <= |image|
            && ImageLocation(image, h).Ok?
            && var loc := ImageLocation(image, h).value;
               0 < loc.length && loc.primaryOffset + loc.length <= |image|
  {
    hide HeaderOf, ContextOf, LvInfoOf, Segments, Extent, LeU32, LeU16, LocateEncryptedMetadata;
    var h := ImageHeader(image).value;
    LocatedLength(image, h);
  }

  lemma LocatedLength(image: seq<byte>, h: VolumeHeader)
    requires ImageLocation(image, h).Ok?
    ensures ImageLocation(image, h).value.length > 0
  {
    hide PlaintextMetadataSize, LocateEncryptedMetadata;
    var region := Exact(image, RegionOffset(h), PlaintextMetadataSize(h, Exact(image, RegionOffset(h), h.blockSize).value).value).value;
    LocationExact(h, region);
    Positive(LocateEncryptedMetadata(h, region).value.blockCount, h.blockSize);
  }

  lemma Positive(a: nat, b: nat)
    requires 0 < a && 0 < b
    ensures 0 < a * b
  {
  }

  predicate SameAt(a: seq<byte>, b: seq<byte>, off: nat, len: nat) {
    Exact(a, off, len) == Exact(b, off, len)
  }

  /** Two images that agree on the four extents. */
  predicate SameMetadata(a: seq<byte>, b: seq<byte>, h: VolumeHeader, loc: Location) {
    && SameAt(a, b, 0, HEADER_LENGTH) && SameAt(a, b, RegionOffset(h), h.blockSize)
    && SameAt(a, b, RegionOffset(h), RegionSize(a, h)) && SameAt(a, b, loc.primaryOffset, loc.length)
  }

  lemma SameLocation(a: seq<byte>, b: seq<byte>, h: VolumeHeader)
    requires SameAt(a, b, RegionOffset(h), h.blockSize) && SameAt(a, b, RegionOffset(h), RegionSize(a, h))
    requires ImageLocation(a, h).Ok?
    ensures ImageLocation(b, h) == ImageLocation(a, h)
  {
    hide LeU32, LeU16, LocateEncryptedMetadata;
  }

  /** Nothing outside the four extents, the encrypted volume included, influences either path. */
  lemma Locality(c: Cipher, a: seq<byte>, b: seq<byte>, password: seq<byte>)
    requires ImageHeader(a).Ok? && ImageLocation(a, ImageHeader(a).value).Ok?
    requires SameMetadata(a, b, ImageHeader(a).value, ImageLocation(a, ImageHeader(a).value).value)
    ensures InfoOf(c, b) == InfoOf(c, a) && UnlockedOf(c, b, password) == UnlockedOf(c, a, password)
  {
    hide HeaderOf, ContextOf, LvInfoOf, Segments, Extent, DeriveVolumeKeys, Uuid.Parse, ImageLocation;
    SameLocation(a, b, ImageHeader(a).value);
  }

  lemma SameAfterAppend(image: seq<byte>, extra: seq<byte>, off: nat, len: nat)
    requires off + len <= |image|
    ensures SameAt(image, image + extra, off, len)
  {
    assert image[off..off + len] == (image + extra)[off..off + len];
  }

  /** Appending bytes to an image that parses changes neither answer. */
  lemma AppendingChangesNothing(c: Cipher, image: seq<byte>, extra: seq<byte>, password: seq<byte>)
    requires InfoOf(c, image).Ok?
    ensures InfoOf(c, image + extra) == InfoOf(c, image)
    ensures UnlockedOf(c, image + extra, password) == UnlockedOf(c, image, password)
  {
    hide HeaderOf, ContextOf, LvInfoOf, Segments, Extent, ImageLocation, RegionSize, Exact, ImageHeader, InfoOf, UnlockedOf;
    FailLoudExtents(c, image);
    var h := ImageHeader(image).value;
    var loc := ImageLocation(image, h).value;
    SameAfterAppend(image, extra, 0, HEADER_LENGTH);
    SameAfterAppend(image, extra, RegionOffset(h), h.blockSize);
    SameAfterAppend(image, extra, RegionOffset(h), RegionSize(image, h));
    SameAfterAppend(image, extra, loc.primaryOffset, loc.length);
    Locality(c, image, image + extra, password);
  }

  /** The errors that the stages after the header can produce without the password. */
  predicate MetadataError(e: Error) {
    e == Io(UnexpectedEof) || e.MetadataStructureMissing? || e.OutOfRange?
  }

  predicate HeaderError(e: Error) {
    e == Io(UnexpectedEof) || e.NotCoreStorage? || e.UnsupportedEncryptionMethod?
  }

  lemma ContextErrors(m: seq<byte>)
    ensures ContextOf(m).Err? ==> MetadataError(ContextOf(m).error)
    ensures LvInfoOf(m).Err? ==> MetadataError(LvInfoOf(m).error)
  {
    hide ExtractData, ExtractString, KekWrapped, Protectors, LvSizeOf;
  }

  lemma LocationErrors(image: seq<byte>, h: VolumeHeader)
    ensures ImageLocation(image, h).Err? ==> MetadataError(ImageLocation(image, h).error)
  {
    hide LeU16, LeU32, LeU64;
  }

  /** The errors of the two paths: a bad base64 blob is reported as a missing structure, never as `Base64`,
      and only the unlocked path reports key-unwrap failures. */
  lemma ErrorKinds(c: Cipher, image: seq<byte>, password: seq<byte>)
    ensures var r := InfoOf(c, image);
            r.Err? ==> if ImageHeader(image).Err? then HeaderError(r.error) else MetadataError(r.error)
    ensures var u := UnlockedOf(c, image, password);
            u.Err? ==> if ImageHeader(image).Err? then HeaderError(u.error) else MetadataError(u.error) || u.error.KeyUnwrap?
  {
    hide HeaderOf, ContextOf, LvInfoOf, Segments, Extent, DeriveVolumeKeys, Uuid.Parse, ImageLocation;
    PathsAgree(c, image, password);
    if ImageHeader(image).Ok? {
      var h := ImageHeader(image).value;
      LocationErrors(image, h);
      var m := ImageMetadata(c, image, h);
      if m.Ok? { ContextErrors(m.value); }
    } else {
      HeaderErrors(image);
    }
  }

  lemma HeaderErrors(image: seq<byte>)
    requires ImageHeader(image).Err?
    ensures HeaderError(ImageHeader(image).error)
  {
  }

  /** An answer reports a bad header: end of file exactly below 512 bytes, or the number found where `CS` or the
      encryption method 2 should stand. */
  ghost predicate RejectsHeader<T>(image: seq<byte>, r: Result<T, Error>) {
    if |image| < 512 then r == Err(Io(UnexpectedEof))
    else
      && (forall v :: r == Err(NotCoreStorage(v)) <==> v == Short(image, 88) && v != 0x5343)
      && (forall v :: r == Err(UnsupportedEncryptionMethod(v)) <==> Short(image, 88) == 0x5343 && v == Long(image, 172) && v != 2)
  }

  /** Both paths reject the header of an image exactly as its bytes demand. */
  lemma HeaderRejections(c: Cipher, image: seq<byte>, password: seq<byte>)
    ensures RejectsHeader(image, InfoOf(c, image)) && RejectsHeader(image, UnlockedOf(c, image, password))
  {
    hide HeaderOf, ImageMetadata, ContextOf, LvInfoOf, Segments, Extent, DeriveVolumeKeys, Uuid.Parse, Short, Long;
    ErrorKinds(c, image, password);
    if 512 <= |image| {
      HeaderExact(image[0..512]);
      FirstNumbers(image);
    }
  }

  lemma FirstNumbers(image: seq<byte>)
    requires 512 <= |image|
    ensures Short(image[0..512], 88) == Short(image, 88) && Long(image[0..512], 172) == Long(image, 172)
  {
  }
}
