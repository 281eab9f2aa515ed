/** The foreign primitives the repository calls, as parameters, with the only laws the proofs use. */
module Crypto {
  import opened Bytes

  type Digest = d: seq<byte> | |d| == 32 witness Zeros(32)

  /** AES-128 on one block, PBKDF2-HMAC-SHA256 cut to 16 bytes, SHA-256, and whatever the XTS crate
      does to a unit shorter than the unit size (keys, index, bytes). */
  datatype Primitives = Primitives(
    enc: (Block, Block) -> Block,
    dec: (Block, Block) -> Block,
    kdf: (seq<byte>, Block, nat) -> Block,
    sha256: seq<byte> -> Digest,
    tail: (Block, Block, nat, seq<byte>) -> seq<byte>)
  {
    /** A block cipher is a permutation per key; the map of short units keeps the length. */
    ghost predicate Lawful() {
      && (forall k: Block, b: Block :: dec(k, enc(k, b)) == b)
      && (forall k: Block, b: Block :: enc(k, dec(k, b)) == b)
      && (forall k1: Block, k2: Block, n: nat, s: seq<byte> :: |tail(k1, k2, n, s)| == |s|)
    }
  }

  /** The identity permutation: the simplest lawful instance. */
  function Identity(): (p: Primitives)
    ensures p.Lawful()
  {
    Primitives((k, b) => b, (k, b) => b, (p, s, n) => s, m => Zeros(32), (k1, k2, n, s) => s)
  }

  type Cipher = p: Primitives | p.Lawful() ghost witness Identity()
}

/** AES-XTS over whole units (core/src/xts.rs), after sections 5.3 and 5.4 of IEEE Std 1619-2007. */
module Xts {
  import opened Bytes
  import opened Crypto

  const TWO_127: nat := 0x8000_0000_0000_0000_0000_0000_0000_0000

  /** Multiplication of a little-endian tweak block by the primitive element of GF(2^128). */
  function Double(t: Block): Block {
    var s := LeBytes(2 * LeValue(t), 16);
    if LeValue(t) >= TWO_127 then [XorByte(s[0], 0x87)] + s[1..] else s
  }

  /** Doubling a little-endian number moves the top bit of each byte into the next one. */
  lemma {:induction false} DoubledByte(t: seq<byte>, carry: nat, i: nat)
    requires carry < 2 && i < |t|
    ensures LeBytes(2 * LeValue(t) + carry, |t|)[i] == 2 * (t[i] % 128) + if i == 0 then carry else t[i - 1] / 128
  {
    var v, rest := 2 * LeValue(t) + carry, LeValue(t[1..]);
    DoubledSplit(t[0], rest, carry);
    assert LeBytes(v, |t|)[1..] == LeBytes(v / 256, |t| - 1);
    if i > 0 { DoubledByte(t[1..], t[0] / 128, i - 1); }
  }

  lemma DoubledSplit(low: byte, high: nat, carry: nat)
    requires carry < 2
    ensures var v := 2 * (low + 256 * high) + carry;
            v % 256 == 2 * (low % 128) + carry && v / 256 == 2 * high + low / 128
  {
    var q, r := low / 128, low % 128;
    ByteSplit(2 * high + q, 2 * r + carry);
    assert 2 * (low + 256 * high) + carry == 256 * (2 * high + q) + (2 * r + carry);
  }

  lemma ByteSplit(q: nat, r: nat)
    requires r < 256
    ensures (256 * q + r) / 256 == q && (256 * q + r) % 256 == r
  {
  }

  lemma Pow256Fifteen()
    ensures 128 * Pow256(15) == TWO_127
  {
    Widths();
    assert Pow256(9) == 256 * Pow256(8);
    assert Pow256(10) == 256 * Pow256(9);
    assert Pow256(11) == 256 * Pow256(10);
    assert Pow256(12) == 256 * Pow256(11);
    assert Pow256(13) == 256 * Pow256(12);
    assert Pow256(14) == 256 * Pow256(13);
    assert Pow256(15) == 256 * Pow256(14);
  }

  /** The number has its top bit set exactly when its last byte has. */
  lemma TopBit(t: Block)
    ensures LeValue(t) >= TWO_127 <==> t[15] >= 128
  {
    var low, high := t[..15], t[15..];
    assert t == low + high && high == [t[15]] && high[1..] == [];
    LeValueConcat(low, high);
    LeValueBound(low);
    Pow256Fifteen();
  }

  lemma {:induction false} XorBitsZero(a: nat, n: nat)
    requires a < Pow2(n)
    ensures XorBits(a, 0, n) == a
  {
    if n > 0 { XorBitsZero(a / 2, n - 1); }
  }

  /** `Double` is the byte-wise multiplication by alpha of section 5.2 of IEEE Std 1619-2007. */
  lemma DoubleByteWise(t: Block)
    ensures Double(t)[0] == XorByte(2 * (t[0] % 128), 135 * (t[15] / 128))
    ensures forall i :: 1 <= i < 16 ==> Double(t)[i] == 2 * (t[i] % 128) + t[i - 1] / 128
  {
    hide LeValue, LeBytes, XorBits;
    TopBit(t);
    Pow2Eight();
    var s, low: byte := LeBytes(2 * LeValue(t), 16), 2 * (t[0] % 128);
    forall i | 1 <= i < 16 ensures s[i] == 2 * (t[i] % 128) + t[i - 1] / 128 {
      DoubledByte(t, 0, i);
    }
    DoubledByte(t, 0, 0);
    assert s[0] == low;
    XorBitsZero(low, 8);
    if t[15] >= 128 {
      assert 135 * (t[15] / 128) == 0x87;
    } else {
      assert 135 * (t[15] / 128) == 0 && XorByte(low, 0) == low;
    }
  }

  /** The tweak of block `j` of a unit. */
  function TweakAt(t: Block, j: nat): Block {
    if j == 0 then t else Double(TweakAt(t, j - 1))
  }

  /** The tweak of a unit: its index, little-endian on 16 bytes, encrypted under the second key. */
  function Tweak(c: Cipher, k2: Block, index: nat): Block {
    c.enc(k2, LeBytes(index, 16))
  }

  function BlockAt(s: seq<byte>, j: nat): Block
    requires 16 * j + 16 <= |s|
  {
    s[16 * j..16 * j + 16]
  }

  function DecryptBlock(c: Cipher, k1: Block, t: Block, b: Block): Block {
    Xor(c.dec(k1, Xor(b, t)), t)
  }

  function EncryptBlock(c: Cipher, k1: Block, t: Block, b: Block): Block {
    Xor(c.enc(k1, Xor(b, t)), t)
  }

  lemma BlockRoundTrip(c: Cipher, k1: Block, t: Block, b: Block)
    ensures DecryptBlock(c, k1, t, EncryptBlock(c, k1, t, b)) == b
  {
    XorTwice(c.enc(k1, Xor(b, t)), t);
    XorTwice(b, t);
  }

  function DecryptUnit(c: Cipher, k1: Block, k2: Block, index: nat, unit: seq<byte>): (r: seq<byte>)
    requires |unit| % 16 == 0
    ensures |r| == |unit|
  {
    seq<byte>(|unit|, i requires 0 <= i < |unit| =>
      DecryptBlock(c, k1, TweakAt(Tweak(c, k2, index), i / 16), BlockAt(unit, i / 16))[i % 16])
  }

  function EncryptUnit(c: Cipher, k1: Block, k2: Block, index: nat, unit: seq<byte>): (r: seq<byte>)
    requires |unit| % 16 == 0
    ensures |r| == |unit|
  {
    seq<byte>(|unit|, i requires 0 <= i < |unit| =>
      EncryptBlock(c, k1, TweakAt(Tweak(c, k2, index), i / 16), BlockAt(unit, i / 16))[i % 16])
  }

  lemma EncryptedBlock(c: Cipher, k1: Block, k2: Block, index: nat, unit: seq<byte>, j: nat)
    requires |unit| % 16 == 0 && 16 * j + 16 <= |unit|
    ensures BlockAt(EncryptUnit(c, k1, k2, index, unit), j)
         == EncryptBlock(c, k1, TweakAt(Tweak(c, k2, index), j), BlockAt(unit, j))
  {
    forall r | 0 <= r < 16
      ensures BlockAt(EncryptUnit(c, k1, k2, index, unit), j)[r]
           == EncryptBlock(c, k1, TweakAt(Tweak(c, k2, index), j), BlockAt(unit, j))[r]
    {
      assert (16 * j + r) / 16 == j && (16 * j + r) % 16 == r;
    }
  }

  lemma UnitRoundTrip(c: Cipher, k1: Block, k2: Block, index: nat, unit: seq<byte>)
    requires |unit| % 16 == 0
    ensures DecryptUnit(c, k1, k2, index, EncryptUnit(c, k1, k2, index, unit)) == unit
  {
    var e := EncryptUnit(c, k1, k2, index, unit);
    forall i | 0 <= i < |unit| ensures DecryptUnit(c, k1, k2, index, e)[i] == unit[i] {
      EncryptedBlock(c, k1, k2, index, unit, i / 16);
      BlockRoundTrip(c, k1, TweakAt(Tweak(c, k2, index), i / 16), BlockAt(unit, i / 16));
    }
  }

  /** A map of one unit under its index. */
  type UnitMap = f: (nat, seq<byte>) -> seq<byte> | KeepsLength(f) ghost witness (i: nat, s: seq<byte>) => s

  ghost predicate KeepsLength(f: (nat, seq<byte>) -> seq<byte>) {
    forall i: nat, s: seq<byte> :: |f(i, s)| == |s|
  }

  /** Decryption of units of `size` bytes; what happens to a shorter one is the crate's affair. */
  function Decryptor(c: Cipher, k1: Block, k2: Block, size: nat): UnitMap {
    (i: nat, s: seq<byte>) => if |s| == size && size % 16 == 0 then DecryptUnit(c, k1, k2, i, s) else c.tail(k1, k2, i, s)
  }

  /** Encryption of whole units, the only ones a fixture encrypts. */
  function Encryptor(c: Cipher, k1: Block, k2: Block, size: nat): UnitMap {
    (i: nat, s: seq<byte>) => if |s| == size && size % 16 == 0 then EncryptUnit(c, k1, k2, i, s) else s
  }

  /** A run of units, each mapped under the next index; the last one may be shorter. */
  function Units(f: UnitMap, size: nat, index: nat, s: seq<byte>): (r: seq<byte>)
    requires 0 < size
    ensures |r| == |s|
    decreases |s|
  {
    if |s| <= size then f(index, s) else f(index, s[..size]) + Units(f, size, index + 1, s[size..])
  }

  /** `n` is a whole number of units. */
  predicate Whole(n: nat, size: nat)
    requires 0 < size
  {
    n == 0 || (size <= n && Whole(n - size, size))
  }

  lemma {:induction false} WholeSectors(n: nat)
    requires n % 512 == 0
    ensures Whole(n, 512)
  {
    if n > 0 { WholeSectors(n - 512); }
  }

  lemma {:induction false} WholeMetadataUnits(n: nat)
    requires n % 8192 == 0
    ensures Whole(n, 8192)
  {
    if n > 0 { WholeMetadataUnits(n - 8192); }
  }

  ghost predicate Inverts(f: UnitMap, g: UnitMap, size: nat) {
    forall i: nat, s: seq<byte> :: |s| == 0 || |s| == size ==> f(i, g(i, s)) == s
  }

  lemma {:induction false} InverseRuns(f: UnitMap, g: UnitMap, size: nat, index: nat, s: seq<byte>)
    requires 0 < size && Inverts(f, g, size) && Whole(|s|, size)
    ensures Units(f, size, index, Units(g, size, index, s)) == s
    decreases |s|
  {
    if size < |s| {
      InverseRuns(f, g, size, index + 1, s[size..]);
      var head, rest := g(index, s[..size]), Units(g, size, index + 1, s[size..]);
      assert (head + rest)[..size] == head && (head + rest)[size..] == rest;
      assert s == s[..size] + s[size..];
    }
  }

  /** `decrypt_units` inverts `encrypt_units` on every whole-unit buffer, unit size and first index. */
  lemma UnitsRoundTrip(c: Cipher, k1: Block, k2: Block, size: nat, index: nat, s: seq<byte>)
    requires 0 < size && size % 16 == 0 && Whole(|s|, size)
    ensures Units(Decryptor(c, k1, k2, size), size, index, Units(Encryptor(c, k1, k2, size), size, index, s)) == s
  {
    var f, g := Decryptor(c, k1, k2, size), Encryptor(c, k1, k2, size);
    forall i: nat, u: seq<byte> | |u| == 0 || |u| == size ensures f(i, g(i, u)) == u {
      UnitRoundTrip(c, k1, k2, i, u);
    }
    InverseRuns(f, g, size, index, s);
  }

  /** A mapped unit depends on its own bytes and its own index, and on nothing else. */
  lemma {:induction false} UnitAt(f: UnitMap, size: nat, index: nat, s: seq<byte>, q: nat, lo: nat)
    requires 0 < size && lo == q * size && lo + size <= |s|
    ensures Units(f, size, index, s)[lo..lo + size] == f(index + q, s[lo..lo + size])
    decreases q
  {
    if q == 0 {
      assert s[0..size] == s[..size];
      if |s| == size { assert s[..size] == s; }
    } else {
      var before := (q - 1) * size;
      assert lo == before + size;
      UnitAt(f, size, index + 1, s[size..], q - 1, before);
      assert s[size..][before..lo] == s[lo..lo + size];
      var head, rest := f(index, s[..size]), Units(f, size, index + 1, s[size..]);
      assert (head + rest)[lo..lo + size] == rest[before..lo];
    }
  }

  /** A byte of a sector. */
  lemma UnitByte(f: UnitMap, index: nat, s: seq<byte>, q: nat, lo: nat, r: nat)
    requires lo == 512 * q && lo + 512 <= |s| && r < 512
    ensures Units(f, 512, index, s)[lo + r] == f(index + q, s[lo..lo + 512])[r]
  {
    hide Units;
    UnitAt(f, 512, index, s, q, lo);
    assert Units(f, 512, index, s)[lo + r] == Units(f, 512, index, s)[lo..lo + 512][r];
  }

  const TWO_128: nat := 0x1_0000_0000_0000_0000_0000_0000_0000_0000

  /** `b` is `a` times alpha: every byte moves up by one bit, its top bit into the next byte, and the top bit of the
      last byte comes back as 135 in the first (section 5.2 of IEEE Std 1619-2007). */
  predicate TimesAlpha(a: Block, b: Block) {
    && b[0] == XorByte(2 * (a[0] % 128), 135 * (a[15] / 128))
    && forall i :: 1 <= i < 16 ==> b[i] == 2 * (a[i] % 128) + a[i - 1] / 128
  }

  /** The masks of a unit: the first decrypts under the second key to the unit's number, each next one is the one
      before times alpha. */
  predicate Masks(c: Cipher, k2: Block, number: nat, a: seq<Block>) {
    && (a != [] ==> LeValue(c.dec(k2, a[0])) == number)
    && forall j :: 1 <= j < |a| ==> TimesAlpha(a[j - 1], a[j])
  }

  /** Block by block, `plain` is `stored` masked, decrypted under the first key and masked again. */
  predicate DecryptedBy(c: Cipher, k1: Block, a: seq<Block>, stored: seq<byte>, plain: seq<byte>) {
    && |stored| == |plain| == 16 * |a|
    && forall j :: 0 <= j < |a| ==>
         plain[16 * j..16 * j + 16] == Xor(c.dec(k1, Xor(stored[16 * j..16 * j + 16], a[j])), a[j])
  }

  lemma Pow256Sixteen()
    ensures Pow256(16) == TWO_128
  {
    Pow256Fifteen();
    assert Pow256(16) == 256 * Pow256(15);
  }

  lemma FirstMask(c: Cipher, k2: Block, index: nat)
    requires index < TWO_128
    ensures LeValue(c.dec(k2, Tweak(c, k2, index))) == index
  {
    Pow256Sixteen();
    LeRoundTrip(index, 16);
  }

  /** What the decryption of a whole unit computes, block by block, for every number of 128 bits. */
  lemma DecryptUnitBlocks(c: Cipher, k1: Block, k2: Block, index: nat, unit: seq<byte>) returns (a: seq<Block>)
    requires |unit| % 16 == 0 && index < TWO_128
    ensures Masks(c, k2, index, a) && DecryptedBy(c, k1, a, unit, DecryptUnit(c, k1, k2, index, unit))
  {
    hide Double, LeValue, Xor, Tweak;
    var t := Tweak(c, k2, index);
    a := seq(|unit| / 16, j requires 0 <= j < |unit| / 16 => TweakAt(t, j));
    FirstMask(c, k2, index);
    forall j | 1 <= j < |a| ensures TimesAlpha(a[j - 1], a[j]) {
      DoubleByteWise(a[j - 1]);
    }
    var plain := DecryptUnit(c, k1, k2, index, unit);
    forall j | 0 <= j < |a|
      ensures plain[16 * j..16 * j + 16] == Xor(c.dec(k1, Xor(unit[16 * j..16 * j + 16], a[j])), a[j])
    {
      DecryptedBlock(c, k1, k2, index, unit, j);
    }
  }

  lemma DecryptedBlock(c: Cipher, k1: Block, k2: Block, index: nat, unit: seq<byte>, j: nat)
    requires |unit| % 16 == 0 && 16 * j + 16 <= |unit|
    ensures DecryptUnit(c, k1, k2, index, unit)[16 * j..16 * j + 16]
         == DecryptBlock(c, k1, TweakAt(Tweak(c, k2, index), j), BlockAt(unit, j))
  {
    hide DecryptBlock, TweakAt, Tweak;
    var plain, b := DecryptUnit(c, k1, k2, index, unit), DecryptBlock(c, k1, TweakAt(Tweak(c, k2, index), j), BlockAt(unit, j));
    forall r | 0 <= r < 16 ensures plain[16 * j + r] == b[r] {
      assert (16 * j + r) / 16 == j && (16 * j + r) % 16 == r;
    }
  }

  /** What `decrypt_units` computes: unit `q` of a run is decrypted block by block under the number `first + q`. */
  lemma DecryptUnitsBlocks(c: Cipher, k1: Block, k2: Block, size: nat, first: nat, s: seq<byte>, q: nat, lo: nat)
    returns (a: seq<Block>)
    requires 0 < size && size % 16 == 0 && lo == q * size && lo + size <= |s| && first + q < TWO_128
    ensures Masks(c, k2, first + q, a)
    ensures var plain := Units(Decryptor(c, k1, k2, size), size, first, s);
            DecryptedBy(c, k1, a, s[lo..lo + size], plain[lo..lo + size])
  {
    hide Units, DecryptUnit, Masks, DecryptedBy;
    UnitAt(Decryptor(c, k1, k2, size), size, first, s, q, lo);
    a := DecryptUnitBlocks(c, k1, k2, first + q, s[lo..lo + size]);
  }

  /** In-place decryption, unit by unit, with an incrementing tweak. */
  method DecryptUnits(buffer: array<byte>, c: Cipher, k1: Block, k2: Block, size: nat, first: nat)
    requires 0 < size
    modifies buffer
    ensures buffer[..] == Units(Decryptor(c, k1, k2, size), size, first, old(buffer[..]))
  {
    MapInPlace(buffer, Decryptor(c, k1, k2, size), size, first);
  }

  /** The inverse, for the whole-unit buffers the image builder encrypts. */
  method EncryptUnits(buffer: array<byte>, c: Cipher, k1: Block, k2: Block, size: nat, first: nat)
    requires 0 < size && size % 16 == 0 && Whole(buffer.Length, size)
    modifies buffer
    ensures buffer[..] == Units(Encryptor(c, k1, k2, size), size, first, old(buffer[..]))
  {
    MapInPlace(buffer, Encryptor(c, k1, k2, size), size, first);
  }

  /** One unit off the front of a longer run, behind what is already done. */
  lemma UnitsStep(f: UnitMap, size: nat, index: nat, done: seq<byte>, rest: seq<byte>)
    requires 0 < size < |rest|
    ensures (done + f(index, rest[..size])) + Units(f, size, index + 1, rest[size..]) == done + Units(f, size, index, rest)
  {
  }

  lemma UnitsLast(f: UnitMap, size: nat, index: nat, rest: seq<byte>)
    requires 0 < size && |rest| <= size
    ensures Units(f, size, index, rest) == f(index, rest)
  {
  }

  method MapInPlace(buffer: array<byte>, f: UnitMap, size: nat, first: nat)
    requires 0 < size
    modifies buffer
    ensures buffer[..] == Units(f, size, first, old(buffer[..]))
  {
    hide Units;
    var i, index := 0, first;
    ghost var done, rest := [], buffer[..];
    while i + size < buffer.Length
      invariant |done| == i && buffer[..] == done + rest
      invariant done + Units(f, size, index, rest) == Units(f, size, first, old(buffer[..]))
    {
      assert buffer[i..i + size] == rest[..size];
      UnitsStep(f, size, index, done, rest);
      done, rest := Overwrite(buffer, i, f(index, buffer[i..i + size]), done, rest);
      i, index := i + size, index + 1;
    }
    assert buffer[i..] == rest;
    UnitsLast(f, size, index, rest);
    done, rest := Overwrite(buffer, i, f(index, buffer[i..]), done, rest);
  }

  /** `buffer[at..at + s.len()].copy_from_slice(s)`, with the split of the buffer at the write head. */
  method Overwrite(buffer: array<byte>, at: nat, s: seq<byte>, ghost done: seq<byte>, ghost rest: seq<byte>)
    returns (ghost done': seq<byte>, ghost rest': seq<byte>)
    requires |done| == at && |s| <= |rest| && buffer[..] == done + rest
    modifies buffer
    ensures done' == done + s && rest' == rest[|s|..]
    ensures buffer[..] == done' + rest'
  {
    assert forall j :: 0 <= j < |rest| ==> buffer[..][at + j] == rest[j];
    done', rest' := done + s, rest[|s|..];
    forall j | 0 <= j < |s| {
      buffer[at + j] := s[j];
    }
  }
}
