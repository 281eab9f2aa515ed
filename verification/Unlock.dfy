/** RFC 3394 key wrap of a 128-bit key (sections 2.2.1 to 2.2.3), over the abstract block cipher. */
module KeyWrap {
  import opened Wrappers
  import opened Bytes
  import opened Crypto
  import Xts

  type Half = h: seq<byte> | |h| == 8 witness [0, 0, 0, 0, 0, 0, 0, 0]
  type Wrapped = w: seq<byte> | |w| == 24 witness Zeros(24)

  const IV: Half := [0xA6, 0xA6, 0xA6, 0xA6, 0xA6, 0xA6, 0xA6, 0xA6]

  /** The integrity register and the two key registers. */
  datatype Registers = Registers(a: Half, r1: Half, r2: Half)

  /** Exclusive or of a 64-bit big-endian register with a step number below 256. */
  function Mix(a: Half, t: byte): Half {
    a[..7] + [XorByte(a[7], t)]
  }

  lemma MixTwice(a: Half, t: byte)
    ensures Mix(Mix(a, t), t) == a
  {
    XorTwice([a[7]], [t]);
    assert Xor(Xor([a[7]], [t]), [t])[0] == a[7];
  }

  function Join(x: Half, y: Half): Block { x + y }

  /** Step `t` = 2j + i works on register i. */
  function WrapStep(c: Cipher, k: Block, t: byte, s: Registers): Registers {
    var b := c.enc(k, Join(s.a, if t % 2 == 1 then s.r1 else s.r2));
    if t % 2 == 1 then Registers(Mix(b[..8], t), b[8..], s.r2) else Registers(Mix(b[..8], t), s.r1, b[8..])
  }

  function UnwrapStep(c: Cipher, k: Block, t: byte, s: Registers): Registers {
    var b := c.dec(k, Join(Mix(s.a, t), if t % 2 == 1 then s.r1 else s.r2));
    if t % 2 == 1 then Registers(b[..8], b[8..], s.r2) else Registers(b[..8], s.r1, b[8..])
  }

  lemma StepRoundTrip(c: Cipher, k: Block, t: byte, s: Registers)
    ensures UnwrapStep(c, k, t, WrapStep(c, k, t, s)) == s
  {
    var r := if t % 2 == 1 then s.r1 else s.r2;
    var b := c.enc(k, Join(s.a, r));
    MixTwice(b[..8], t);
    assert Join(b[..8], b[8..]) == b;
    assert Join(s.a, r)[..8] == s.a && Join(s.a, r)[8..] == r;
  }

  lemma StepInverse(c: Cipher, k: Block, t: byte, s: Registers)
    ensures WrapStep(c, k, t, UnwrapStep(c, k, t, s)) == s
  {
    var r := if t % 2 == 1 then s.r1 else s.r2;
    var m := Join(Mix(s.a, t), r);
    var b := c.dec(k, m);
    MixTwice(s.a, t);
    assert Join(b[..8], b[8..]) == b;
    assert m[..8] == Mix(s.a, t) && m[8..] == r;
  }

  function WrapSteps(c: Cipher, k: Block, t: byte, s: Registers): Registers {
    if t == 0 then s else WrapStep(c, k, t, WrapSteps(c, k, t - 1, s))
  }

  function UnwrapSteps(c: Cipher, k: Block, t: byte, s: Registers): Registers
    decreases t
  {
    if t == 0 then s else UnwrapSteps(c, k, t - 1, UnwrapStep(c, k, t, s))
  }

  lemma {:induction false} StepsRoundTrip(c: Cipher, k: Block, t: byte, s: Registers)
    ensures UnwrapSteps(c, k, t, WrapSteps(c, k, t, s)) == s
  {
    if t > 0 {
      StepRoundTrip(c, k, t, WrapSteps(c, k, t - 1, s));
      StepsRoundTrip(c, k, t - 1, s);
    }
  }

  lemma {:induction false} StepsInverse(c: Cipher, k: Block, t: byte, s: Registers)
    ensures WrapSteps(c, k, t, UnwrapSteps(c, k, t, s)) == s
    decreases t
  {
    if t > 0 {
      StepsInverse(c, k, t - 1, UnwrapStep(c, k, t, s));
      StepInverse(c, k, t, s);
    }
  }

  function Wrap(c: Cipher, kek: Block, key: Block): Wrapped {
    var s := WrapSteps(c, kek, 12, Registers(IV, key[..8], key[8..]));
    s.a + s.r1 + s.r2
  }

  /** The key, or nothing when the integrity register is not the initial value. */
  function Unwrap(c: Cipher, kek: Block, w: Wrapped): Option<Block> {
    var s := UnwrapSteps(c, kek, 12, Registers(w[..8], w[8..16], w[16..24]));
    if s.a == IV then Some(Join(s.r1, s.r2)) else None
  }

  /** One round of section 2.2.1 of RFC 3394: register 1 in the odd rounds and register 2 in the even ones is encrypted
      behind the integrity register; the round number goes into the high half, as a big-endian 64-bit number. */
  predicate Round(c: Cipher, k: Block, t: byte, s: Registers, s': Registers) {
    var b := c.enc(k, s.a + if t % 2 == 1 then s.r1 else s.r2);
    && s'.a == Xor(b[..8], [0, 0, 0, 0, 0, 0, 0, t])
    && s'.r1 == (if t % 2 == 1 then b[8..] else s.r1)
    && s'.r2 == (if t % 2 == 1 then s.r2 else b[8..])
  }

  lemma MixIsXor(a: Half, t: byte)
    ensures Mix(a, t) == Xor(a, [0, 0, 0, 0, 0, 0, 0, t])
  {
    Pow2Eight();
    var m: seq<byte> := [0, 0, 0, 0, 0, 0, 0, t];
    forall i | 0 <= i < 8 ensures Mix(a, t)[i] == Xor(a, m)[i] {
      Xts.XorBitsZero(a[i], 8);
    }
  }

  /** Wrapping is twelve rounds from the initial value 0xA6A6A6A6A6A6A6A6 and the two halves of the key. */
  lemma WrapRounds(c: Cipher, kek: Block, key: Block) returns (s: seq<Registers>)
    ensures |s| == 13
    ensures s[0] == Registers([0xA6, 0xA6, 0xA6, 0xA6, 0xA6, 0xA6, 0xA6, 0xA6], key[..8], key[8..])
    ensures forall t :: 1 <= t <= 12 ==> Round(c, kek, t, s[t - 1], s[t])
    ensures Wrap(c, kek, key) == s[12].a + s[12].r1 + s[12].r2
  {
    hide Mix, Xor;
    s := seq(13, t requires 0 <= t < 13 => WrapSteps(c, kek, t, Registers(IV, key[..8], key[8..])));
    forall t | 1 <= t <= 12 ensures Round(c, kek, t, s[t - 1], s[t]) {
      var b := c.enc(kek, s[t - 1].a + if t % 2 == 1 then s[t - 1].r1 else s[t - 1].r2);
      MixIsXor(b[..8], t);
    }
  }

  lemma Reassemble(s: Registers, w: Wrapped)
    ensures w == s.a + s.r1 + s.r2 <==> s == Registers(w[..8], w[8..16], w[16..24])
  {
    assert w == w[..8] + w[8..16] + w[16..24];
  }

  /** Unwrapping succeeds exactly on the wrappings, and returns the key that was wrapped. */
  lemma UnwrapIffWrapped(c: Cipher, kek: Block, w: Wrapped, key: Block)
    ensures Unwrap(c, kek, w) == Some(key) <==> w == Wrap(c, kek, key)
  {
    var start := Registers(IV, key[..8], key[8..]);
    var regs := Registers(w[..8], w[8..16], w[16..24]);
    var s := UnwrapSteps(c, kek, 12, regs);
    StepsInverse(c, kek, 12, regs);
    StepsRoundTrip(c, kek, 12, start);
    Reassemble(WrapSteps(c, kek, 12, start), w);
    assert Join(s.r1, s.r2)[..8] == s.r1 && Join(s.r1, s.r2)[8..] == s.r2;
    assert Join(key[..8], key[8..]) == key;
  }
}

/** The key hierarchy of core/src/unlock.rs. */
module Unlock {
  import opened Wrappers
  import opened Bytes
  import opened Crypto
  import opened KeyWrap
  import opened Plaintext

  /** The part of the encryption context that the key hierarchy reads. */
  datatype KeyMaterial = KeyMaterial(salt: Block, iterations: u32, wrappedKek: Wrapped, wrappedVmk: Wrapped)

  /** PBKDF2 with at least one round. */
  function PassphraseKey(c: Cipher, password: seq<byte>, salt: Block, iterations: u32): Block {
    c.kdf(password, salt, if iterations == 0 then 1 else iterations)
  }

  function UnwrapOrFail(c: Cipher, kek: Block, w: Wrapped, what: string): (r: Result<Block, Error>)
    ensures r.Err? ==> r.error == KeyUnwrap(what)
  {
    OkOr(Unwrap(c, kek, w), KeyUnwrap(what))
  }

  function TweakKey(c: Cipher, vmk: Block, family: Block): Block {
    c.sha256(vmk + family)[..16]
  }

  function DeriveVolumeKeys(c: Cipher, password: seq<byte>, m: KeyMaterial, family: Block): Result<VolumeKeys, Error> {
    var pk := PassphraseKey(c, password, m.salt, m.iterations);
    var kek :- UnwrapOrFail(c, pk, m.wrappedKek, "KEK");
    var vmk :- UnwrapOrFail(c, kek, m.wrappedVmk, "VMK");
    Ok(VolumeKeys(vmk, TweakKey(c, vmk, family)))
  }

  /** Wrapping the VMK under the KEK and the KEK under the password's key, then deriving, returns the VMK, and as the
      tweak key the first half of the digest of the VMK followed by the family UUID. */
  lemma HierarchyRoundTrip(c: Cipher, password: seq<byte>, m: KeyMaterial, family: Block, kek: Block, vmk: Block)
    requires m.wrappedKek == Wrap(c, c.kdf(password, m.salt, if m.iterations == 0 then 1 else m.iterations), kek)
    requires m.wrappedVmk == Wrap(c, kek, vmk)
    ensures DeriveVolumeKeys(c, password, m, family) == Ok(VolumeKeys(vmk, c.sha256(vmk + family)[..16]))
  {
    UnwrapIffWrapped(c, PassphraseKey(c, password, m.salt, m.iterations), m.wrappedKek, kek);
    UnwrapIffWrapped(c, kek, m.wrappedVmk, vmk);
  }

  /** Conversely, derived keys are always the wrapped ones. */
  lemma DerivedKeysWereWrapped(c: Cipher, password: seq<byte>, m: KeyMaterial, family: Block) returns (kek: Block)
    requires DeriveVolumeKeys(c, password, m, family).Ok?
    ensures var keys := DeriveVolumeKeys(c, password, m, family).value;
            && m.wrappedKek == Wrap(c, c.kdf(password, m.salt, if m.iterations == 0 then 1 else m.iterations), kek)
            && m.wrappedVmk == Wrap(c, kek, keys.vmk)
            && keys.tweakKey == c.sha256(keys.vmk + family)[..16]
  {
    var pk := PassphraseKey(c, password, m.salt, m.iterations);
    kek := Unwrap(c, pk, m.wrappedKek).value;
    UnwrapIffWrapped(c, pk, m.wrappedKek, kek);
    UnwrapIffWrapped(c, kek, m.wrappedVmk, Unwrap(c, kek, m.wrappedVmk).value);
  }

  /** An integrity failure at either level is a KeyUnwrap error that names the level, and no keys. */
  lemma IntegrityFailure(c: Cipher, password: seq<byte>, m: KeyMaterial, family: Block)
    ensures var r := DeriveVolumeKeys(c, password, m, family);
            var pk := c.kdf(password, m.salt, if m.iterations == 0 then 1 else m.iterations);
            && (r == Err(KeyUnwrap("KEK")) <==> forall kek: Block :: m.wrappedKek != Wrap(c, pk, kek))
            && (r == Err(KeyUnwrap("VMK")) <==>
                  exists kek: Block :: m.wrappedKek == Wrap(c, pk, kek)
                                       && forall vmk: Block :: m.wrappedVmk != Wrap(c, kek, vmk))
            && (r.Err? ==> r.error == KeyUnwrap("KEK") || r.error == KeyUnwrap("VMK"))
  {
    hide Unwrap, Wrap, TweakKey;
    var pk := PassphraseKey(c, password, m.salt, m.iterations);
    forall kek: Block
      ensures Unwrap(c, pk, m.wrappedKek) == Some(kek) <==> m.wrappedKek == Wrap(c, pk, kek)
    {
      UnwrapIffWrapped(c, pk, m.wrappedKek, kek);
    }
    forall kek: Block, vmk: Block
      ensures Unwrap(c, kek, m.wrappedVmk) == Some(vmk) <==> m.wrappedVmk == Wrap(c, kek, vmk)
    {
      UnwrapIffWrapped(c, kek, m.wrappedVmk, vmk);
    }
    var first := Unwrap(c, pk, m.wrappedKek);
    if first.Some? {
      assert m.wrappedKek == Wrap(c, pk, first.value);
      var second := Unwrap(c, first.value, m.wrappedVmk);
      if second.Some? { assert m.wrappedVmk == Wrap(c, first.value, second.value); }
    }
    assert "KEK"[0] != "VMK"[0];
  }
}
