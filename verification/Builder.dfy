/** The image builder of core/src/test_support.rs: buffers filled by slice writes. */
module Builder {
  import opened Bytes
  import opened Crypto
  import opened Xts
  import opened Header
  import opened Metadata
  import opened Unlock
  import opened Volume
  import opened Plan
  import opened Image
  import Items

  /** `a[at..at + s.len()].copy_from_slice(s)`. */
  method Put(a: array<byte>, at: nat, s: seq<byte>)
    requires at + |s| <= a.Length
    modifies a
    ensures Has(a[..], at, s)
    ensures forall i :: 0 <= i < a.Length && !(at <= i < at + |s|) ==> a[i] == old(a[i])
    ensures forall off: nat, x: seq<byte> ::
      Has(old(a[..]), off, x) && (off + |x| <= at || at + |s| <= off) ==> Has(a[..], off, x)
  {
    forall j | 0 <= j < |s| {
      a[at + j] := s[j];
    }
    ghost var was, now := old(a[..]), a[..];
    forall off: nat, x: seq<byte> | Has(was, off, x) && (off + |x| <= at || at + |s| <= off) ensures Has(now, off, x) {
      assert was[off..off + |x|] == now[off..off + |x|];
    }
  }

  lemma TypedBytes(b: seq<byte>, kind: u16, body: seq<byte>, size: nat)
    requires 64 + |body| <= size == |b| && Has(b, 10, LeBytes(kind, 2)) && Has(b, 64, body)
    requires forall i :: 0 <= i < 10 || 12 <= i < 64 || 64 + |body| <= i < size ==> b[i] == 0
    ensures b == Typed(kind, body, size)
  {
    hide LeBytes;
    var n := 64 + |body|;
    assert b[0..10] == Zeros(10) && b[12..64] == Zeros(52) && b[n..size] == Zeros(size - n);
    assert b == b[0..10] + b[10..12] + b[12..64] + b[64..n] + b[n..size];
  }

  /** A block's type and body, written into zeros. */
  method PutBlock(a: array<byte>, at: nat, kind: u16, body: seq<byte>, size: nat)
    requires at + size <= a.Length && 64 + |body| <= size
    requires forall i :: at <= i < at + size ==> a[i] == 0
    modifies a
    ensures a[at..at + size] == Typed(kind, body, size)
    ensures forall i :: 0 <= i < a.Length && !(at <= i < at + size) ==> a[i] == old(a[i])
  {
    hide LeBytes, Typed, Has;
    Put(a, at + 10, LeBytes(kind, 2));
    Put(a, at + 64, body);
    ghost var b := a[at..at + size];
    Within(a[..], at, size, 10, LeBytes(kind, 2));
    Within(a[..], at, size, 64, body);
    assert a[..][at..at + size] == b;
    TypedBytes(b, kind, body, size);
  }

  lemma Within(m: seq<byte>, at: nat, size: nat, off: nat, s: seq<byte>)
    requires at + size <= |m| && off + |s| <= size && Has(m, at + off, s)
    ensures Has(m[at..at + size], off, s)
  {
    SliceOfSlice(m, at, size, off, off + |s|);
  }

  lemma MetadataPieces(c: Cipher, p: Plan, m: seq<byte>)
    requires PlanOk(c, p) && |m| == At(p, p.metadataBlocks) && 3 * p.blockSize <= |m|
    requires var n: nat := p.blockSize;
             && m[0..n] == Typed(CONTEXT_BLOCK, ContextText(c, p), n) && m[n..n + n] == Typed(LV_BLOCK, LvText(p), n)
             && m[2 * n..2 * n + n] == Typed(SEGMENT_BLOCK, SegmentBody(p), n)
             && forall i :: 3 * n <= i < |m| ==> m[i] == 0
    ensures m == PlanMetadata(c, p)
  {
    hide Typed, ContextText, LvText, SegmentBody, PlanOk, At;
    var n: nat := p.blockSize;
    assert m[3 * n..] == Zeros(|m| - 3 * n);
    assert m == m[0..n] + m[n..n + n] + m[2 * n..2 * n + n] + m[3 * n..];
  }

  lemma PlanFits(c: Cipher, p: Plan)
    requires PlanOk(c, p)
    ensures 64 + |ContextText(c, p)| <= p.blockSize && 64 + |LvText(p)| <= p.blockSize && 112 <= p.blockSize
    ensures 3 * p.blockSize <= At(p, p.metadataBlocks)
  {
    hide ContextText, LvText, TextsOk, StoredOk, VolumeSize;
    ThreeBlocks(p);
  }

  /** `build_decrypted_metadata`: the three blocks, then zero padding. */
  method BuildMetadata(c: Cipher, p: Plan) returns (a: array<byte>)
    requires PlanOk(c, p)
    ensures fresh(a) && a[..] == PlanMetadata(c, p)
  {
    hide Typed, ContextText, LvText, SegmentBody, PlanOk, At, PlanMetadata;
    PlanFits(c, p);
    var n: nat := p.blockSize;
    a := new byte[At(p, p.metadataBlocks)](i => 0);
    PutBlock(a, 0, CONTEXT_BLOCK, ContextText(c, p), n);
    ghost var first := a[0..n];
    PutBlock(a, n, LV_BLOCK, LvText(p), n);
    ghost var second := a[n..n + n];
    PutBlock(a, 2 * n, SEGMENT_BLOCK, SegmentBody(p), n);
    ghost var m := a[..];
    assert m[0..n] == first;
    assert m[n..n + n] == second;
    assert m[2 * n..2 * n + n] == a[2 * n..2 * n + n];
    MetadataPieces(c, p, m);
  }

  /** The regions lie in the image, after the header, and do not overlap. */
  predicate Placed(p: Plan, total: nat) {
    var region, meta, volume := At(p, p.regionBlock), At(p, p.metadataBlock), At(p, p.segment.physicalBlock);
    var metaLength, volumeLength := At(p, p.metadataBlocks), |p.plaintext|;
    && 512 <= total < TWO_64
    && 512 <= region && region + p.blockSize <= total
    && 512 <= meta && meta + metaLength <= total
    && 512 <= volume && volume + volumeLength <= total
    && (region + p.blockSize <= meta || meta + metaLength <= region)
    && (region + p.blockSize <= volume || volume + volumeLength <= region)
    && (meta + metaLength <= volume || volume + volumeLength <= meta)
  }

  method PutHeader(image: array<byte>, p: Plan)
    requires 512 <= image.Length
    modifies image
    ensures HasHeader(image[..], p)
  {
    hide Has, LeBytes, Ascii;
    Put(image, 88, Ascii("CS"));
    Put(image, 48, LeBytes(512, 4));
    Put(image, 96, LeBytes(p.blockSize, 4));
    Put(image, 64, LeBytes(image.Length, 8));
    Put(image, 172, LeBytes(AES_XTS_128, 4));
    Put(image, 104, LeBytes(p.regionBlock, 8));
    Put(image, 176, p.metadataKey);
    Put(image, 304, p.pvId);
  }

  /** The plaintext region: type, size, and the descriptor that locates the encrypted metadata. */
  method BuildRegion(p: Plan) returns (a: array<byte>)
    requires 240 <= p.blockSize
    ensures fresh(a) && a.Length == p.blockSize && HasRegion(a[..], p, 0)
  {
    hide Has, LeBytes;
    a := new byte[p.blockSize](i => 0);
    Put(a, 10, LeBytes(POINTER_BLOCK, 2));
    Put(a, 64, LeBytes(p.blockSize, 4));
    Put(a, 220, LeBytes(DESCRIPTOR, 4));
    Put(a, DESCRIPTOR + 8, LeBytes(p.metadataBlocks, 8));
    Put(a, DESCRIPTOR + 32, LeBytes(p.metadataBlock, 8));
  }

  lemma Nested(image: seq<byte>, at: nat, s: seq<byte>, off: nat, x: seq<byte>)
    requires Has(image, at, s) && Has(s, off, x)
    ensures Has(image, at + off, x)
  {
    SliceOfSlice(image, at, |s|, off, off + |x|);
  }

  lemma RegionPlaced(image: seq<byte>, p: Plan, off: nat, region: seq<byte>)
    requires |region| == p.blockSize && HasRegion(region, p, 0) && Has(image, off, region)
    ensures HasRegion(image, p, off)
  {
    hide LeBytes, Has;
    HasFits(image, off, region);
    Nested(image, off, region, 10, LeBytes(POINTER_BLOCK, 2));
    Nested(image, off, region, 64, LeBytes(p.blockSize, 4));
    Nested(image, off, region, 220, LeBytes(DESCRIPTOR, 4));
    Nested(image, off, region, DESCRIPTOR + 8, LeBytes(p.metadataBlocks, 8));
    Nested(image, off, region, DESCRIPTOR + 32, LeBytes(p.metadataBlock, 8));
  }

  lemma HasFits(image: seq<byte>, off: nat, s: seq<byte>)
    requires Has(image, off, s)
    ensures off + |s| <= |image|
  {
  }

  lemma HeaderKept(was: seq<byte>, now: seq<byte>, p: Plan)
    requires HasHeader(was, p) && |was| == |now| && was[..512] == now[..512]
    ensures HasHeader(now, p)
  {
    hide LeBytes, Has, Ascii;
    FieldKept(was, now, 88, Ascii("CS"));
    FieldKept(was, now, 48, LeBytes(512, 4));
    FieldKept(was, now, 96, LeBytes(p.blockSize, 4));
    FieldKept(was, now, 64, LeBytes(|was|, 8));
    FieldKept(was, now, 172, LeBytes(AES_XTS_128, 4));
    FieldKept(was, now, 104, LeBytes(p.regionBlock, 8));
    FieldKept(was, now, 176, p.metadataKey);
    FieldKept(was, now, 304, p.pvId);
  }

  lemma FieldKept(was: seq<byte>, now: seq<byte>, off: nat, s: seq<byte>)
    requires 512 <= |was| == |now| && was[..512] == now[..512] && off + |s| <= 512 && Has(was, off, s)
    ensures Has(now, off, s)
  {
    assert was[off..off + |s|] == was[..512][off..off + |s|];
    assert now[off..off + |s|] == now[..512][off..off + |s|];
  }

  method BuildEncryptedMetadata(c: Cipher, p: Plan) returns (a: array<byte>)
    requires PlanOk(c, p)
    ensures fresh(a) && a[..] == EncryptedMetadata(c, p)
  {
    hide PlanMetadata, Units, Whole, Encryptor, At, ContextText, LvText, TextsOk, StoredOk, VolumeSize;
    a := BuildMetadata(c, p);
    assert a.Length == |a[..]|;
    WholeMetadataUnits(a.Length);
    EncryptUnits(a, c, p.metadataKey, p.pvId, UNIT, 0);
  }

  method BuildEncryptedVolume(c: Cipher, p: Plan) returns (a: array<byte>)
    requires |p.plaintext| % 512 == 0
    ensures fresh(a) && a[..] == EncryptedVolume(c, p)
  {
    hide Units, Whole, Encryptor;
    a := new byte[|p.plaintext|](i requires 0 <= i < |p.plaintext| => p.plaintext[i]);
    assert a[..] == p.plaintext;
    WholeSectors(a.Length);
    EncryptUnits(a, c, p.vmk, c.sha256(p.vmk + p.family)[..16], 512, 0);
  }

  /** `build_image`: every plan whose regions do not overlap gets an image that lays it out. */
  method BuildImage(c: Cipher, p: Plan, total: nat) returns (image: array<byte>)
    requires PlanOk(c, p) && Placed(p, total)
    ensures fresh(image) && image.Length == total && LaidOut(c, p, image[..])
  {
    hide Has, HasHeader, HasRegion, EncryptedMetadata, EncryptedVolume, At, ContextText, LvText, TextsOk, StoredOk, VolumeSize;
    var metadata := BuildEncryptedMetadata(c, p);
    var region := BuildRegion(p);
    var volume := BuildEncryptedVolume(c, p);
    image := new byte[total](i => 0);
    PutHeader(image, p);
    ghost var headed := image[..];
    Put(image, At(p, p.regionBlock), region[..]);
    Put(image, At(p, p.metadataBlock), metadata[..]);
    Put(image, At(p, p.segment.physicalBlock), volume[..]);
    assert headed[..512] == image[..][..512];
    HeaderKept(headed, image[..], p);
    RegionPlaced(image[..], p, At(p, p.regionBlock), region[..]);
  }

  /** The plan with other places for the same contents: the region at block 1, 8192 blocks of metadata at block 2, the
      volume behind them. A record without a size gets as many blocks as the plaintext fills. */
  function Replaced(p: Plan, blockSize: u32): Plan
    requires 0 < blockSize
  {
    var blocks: u32 := if p.size != 0 then p.segment.numberOfBlocks else Min(|p.plaintext| / blockSize, 0xffff_ffff);
    p.(blockSize := blockSize, regionBlock := 1, metadataBlock := 2, metadataBlocks := UNIT,
       segment := p.segment.(physicalBlock := UNIT + 2, numberOfBlocks := blocks))
  }

  lemma SameTexts(c: Cipher, p: Plan, blockSize: u32)
    requires 0 < blockSize
    ensures ContextText(c, Replaced(p, blockSize)) == ContextText(c, p) && LvText(Replaced(p, blockSize)) == LvText(p)
  {
    hide Items.Print;
    var q := Replaced(p, blockSize);
    assert PassphraseBlob(c, q) == PassphraseBlob(c, p) && KeyBlob(c, q) == KeyBlob(c, p);
  }

  /** Every choice of password, keys, texts, size and plaintext can be planned and placed, a record without a size
      included, as long as each property list fits a block; no plan holds a longer one, since a block size has 32 bits. */
  lemma EveryVolumeCanBePlanned(c: Cipher, p: Plan) returns (q: Plan, total: nat)
    requires 1 <= p.iterations && TextsOk(p) && |p.plaintext| % 512 == 0
    requires p.size <= |p.plaintext| <= MAX_SLICE
    requires 64 + |ContextText(c, p)| < 0x1_0000_0000 && 64 + |LvText(p)| < 0x1_0000_0000
    ensures 0 < q.blockSize && q == Replaced(p, q.blockSize) && PlanOk(c, q) && Placed(q, total)
  {
    hide ContextText, LvText, TextsOk;
    var longer := if |ContextText(c, p)| < |LvText(p)| then |LvText(p)| else |ContextText(c, p)|;
    var size: u32 := if longer < 448 then 512 else 64 + longer;
    q, total := Replaced(p, size), (UNIT + 2) * size + |p.plaintext|;
    SameTexts(c, p, size);
    SameTextsOk(p, size);
    WholeUnits(size);
    if p.size == 0 { BlocksFit(|p.plaintext|, size); }
  }

  lemma BlocksFit(n: nat, size: nat)
    requires 0 < size
    ensures Min(n / size, 0xffff_ffff) * size <= n
  {
    Multiples(Min(n / size, 0xffff_ffff), n / size, size);
    assert n / size * size + n % size == n;
  }

  lemma SameTextsOk(p: Plan, size: u32)
    requires TextsOk(p) && 0 < size
    ensures TextsOk(Replaced(p, size))
  {
  }

  lemma WholeUnits(size: nat)
    ensures UNIT * size % UNIT == 0
  {
  }
}
