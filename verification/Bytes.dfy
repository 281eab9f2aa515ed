/** Byte sequences, fixed-width integers and the bounds-checked little-endian readers of core/src/read.rs. */
module Bytes {
  import opened Wrappers

  type byte = x: int | 0 <= x < 256
  type u16 = x: int | 0 <= x < 0x1_0000
  type u32 = x: int | 0 <= x < 0x1_0000_0000
  type u64 = x: int | 0 <= x < 0x1_0000_0000_0000_0000

  const TWO_48: nat := 0x1_0000_0000_0000
  const TWO_64: nat := 0x1_0000_0000_0000_0000

  /** A key, an AES block or a UUID. */
  type Block = b: seq<byte> | |b| == 16 witness [0, 0, 0, 0, 0, 0, 0, 0, 0, 0, 0, 0, 0, 0, 0, 0]

  function Min(a: int, b: int): int { if a <= b then a else b }

  lemma Assoc<T>(x: seq<T>, y: seq<T>, z: seq<T>)
    ensures x + (y + z) == (x + y) + z
  {
  }

  function Zeros(n: nat): (z: seq<byte>)
    ensures |z| == n
    ensures forall i :: 0 <= i < n ==> z[i] == 0
  {
    seq(n, i => 0)
  }

  /** The bytes of an ASCII literal. */
  function Ascii(s: string): (b: seq<byte>)
    ensures |b| == |s|
    ensures forall i :: 0 <= i < |s| && s[i] as int < 256 ==> b[i] == s[i] as int
  {
    seq(|s|, i requires 0 <= i < |s| => if s[i] as int < 256 then s[i] as int else 0)
  }

  /** `data.get(off..off + len)`. */
  function Get(data: seq<byte>, off: nat, len: nat): (r: Option<seq<byte>>)
    ensures r.Some? <==> off + len <= |data|
    ensures r.Some? ==> |r.value| == len
  {
    if off + len <= |data| then Some(data[off..off + len]) else None
  }

  function Pow256(n: nat): (p: nat)
    ensures p > 0
  {
    if n == 0 then 1 else 256 * Pow256(n - 1)
  }

  /** The little-endian value of a byte string. */
  function LeValue(s: seq<byte>): nat {
    if s == [] then 0 else s[0] + 256 * LeValue(s[1..])
  }

  /** The low `n` bytes of `v`, least significant first. */
  function LeBytes(v: nat, n: nat): (s: seq<byte>)
    ensures |s| == n
  {
    if n == 0 then [] else [v % 256] + LeBytes(v / 256, n - 1)
  }

  lemma {:induction false} LeValueBound(s: seq<byte>)
    ensures LeValue(s) < Pow256(|s|)
  {
    if s != [] {
      LeValueBound(s[1..]);
    }
  }

  /** Reading back a written integer that fits its width returns it. */
  lemma {:induction false} LeRoundTrip(v: nat, n: nat)
    requires v < Pow256(n)
    ensures LeValue(LeBytes(v, n)) == v
  {
    if n > 0 {
      LeRoundTrip(v / 256, n - 1);
      assert LeBytes(v, n)[1..] == LeBytes(v / 256, n - 1);
    }
  }

  /** Conversely, writing a byte string's value on as many bytes gives the string back. */
  lemma {:induction false} LeInverse(s: seq<byte>)
    ensures LeBytes(LeValue(s), |s|) == s
  {
    if s != [] {
      LeInverse(s[1..]);
      LowByte(s[0], LeValue(s[1..]));
      assert s == [s[0]] + s[1..];
    }
  }

  lemma LowByte(low: byte, high: nat)
    ensures (low + 256 * high) % 256 == low && (low + 256 * high) / 256 == high
  {
  }

  lemma {:induction false} LeValueConcat(a: seq<byte>, b: seq<byte>)
    ensures LeValue(a + b) == LeValue(a) + Pow256(|a|) * LeValue(b)
  {
    if a == [] {
      assert a + b == b;
    } else {
      assert (a + b)[1..] == a[1..] + b;
      LeValueConcat(a[1..], b);
      ScaleSum(LeValue(a[1..]), Pow256(|a| - 1), LeValue(b));
      assert LeValue(a + b) == a[0] + 256 * LeValue(a[1..] + b);
      assert Pow256(|a|) == 256 * Pow256(|a| - 1);
    }
  }

  lemma ScaleSum(z: nat, x: nat, y: nat)
    ensures 256 * (z + x * y) == 256 * z + (256 * x) * y
  {
  }

  lemma Widths()
    ensures Pow256(2) == 0x1_0000 && Pow256(4) == 0x1_0000_0000
    ensures Pow256(6) == TWO_48 && Pow256(8) == TWO_64
  {
    assert Pow256(1) == 256;
    assert Pow256(2) == 256 * Pow256(1);
    assert Pow256(3) == 256 * Pow256(2);
    assert Pow256(4) == 256 * Pow256(3);
    assert Pow256(5) == 256 * Pow256(4);
    assert Pow256(6) == 256 * Pow256(5);
    assert Pow256(7) == 256 * Pow256(6);
    assert Pow256(8) == 256 * Pow256(7);
  }

  /** The common shape of the readers: the value of the `n` bytes at `off`, or 0 when they are out of range. */
  function LeAt(data: seq<byte>, off: nat, n: nat): (v: nat)
    ensures v < Pow256(n)
  {
    if off + n <= |data| then
      LeValueBound(data[off..off + n]);
      LeValue(data[off..off + n])
    else 0
  }

  function LeU16(data: seq<byte>, off: nat): u16 { Widths(); LeAt(data, off, 2) }
  function LeU32(data: seq<byte>, off: nat): u32 { Widths(); LeAt(data, off, 4) }
  function LeU64(data: seq<byte>, off: nat): u64 { Widths(); LeAt(data, off, 8) }
  function LeU48(data: seq<byte>, off: nat): (v: u64)
    ensures v < TWO_48
  {
    Widths(); LeAt(data, off, 6)
  }

  /** The little-endian number of four bytes. */
  function Little(a: int, b: int, c: int, d: int): int {
    a + 0x100 * b + 0x1_0000 * c + 0x100_0000 * d
  }

  lemma LeValueUnfold(s: seq<byte>)
    requires s != []
    ensures LeValue(s) == s[0] + 256 * LeValue(s[1..])
  {
  }

  lemma LeValueNone()
    ensures LeValue([]) == 0
  {
  }

  lemma LeValueTwo(s: seq<byte>)
    requires |s| == 2
    ensures LeValue(s) == Little(s[0], s[1], 0, 0)
  {
    hide LeValue;
    LeValueUnfold(s);
    LeValueUnfold(s[1..]);
    LeValueNone();
    assert s[1..][1..] == [];
  }

  lemma LeValueFour(s: seq<byte>)
    requires |s| == 4
    ensures LeValue(s) == Little(s[0], s[1], s[2], s[3])
  {
    hide LeValue;
    LeValueUnfold(s);
    LeValueUnfold(s[1..]);
    LeValueTwo(s[2..]);
    assert s[1..][1..] == s[2..];
  }

  lemma LeValueHalves(s: seq<byte>)
    requires 4 <= |s|
    ensures LeValue(s) == LeValue(s[..4]) + 0x1_0000_0000 * LeValue(s[4..])
  {
    hide LeValue, Pow256;
    assert s == s[..4] + s[4..];
    LeValueConcat(s[..4], s[4..]);
    Widths();
  }

  /** The readers, byte by byte: least significant first, and 0 when any byte is out of range. */
  lemma ReadersByByte(data: seq<byte>, off: nat)
    ensures LeU16(data, off) == if off + 2 <= |data| then Little(data[off], data[off + 1], 0, 0) else 0
    ensures LeU32(data, off) == if off + 4 <= |data| then
              Little(data[off], data[off + 1], data[off + 2], data[off + 3]) else 0
    ensures LeU48(data, off) == if off + 6 <= |data| then
              LeU32(data, off) + 0x1_0000_0000 * Little(data[off + 4], data[off + 5], 0, 0) else 0
    ensures LeU64(data, off) == if off + 8 <= |data| then
              LeU32(data, off) + 0x1_0000_0000 * LeU32(data, off + 4) else 0
  {
    hide LeValue, Pow256;
    if off + 2 <= |data| { LeValueTwo(data[off..off + 2]); }
    if off + 4 <= |data| { LeValueFour(data[off..off + 4]); }
    if off + 6 <= |data| {
      var s := data[off..off + 6];
      LeValueHalves(s);
      LeValueTwo(s[4..]);
      assert s[..4] == data[off..off + 4];
    }
    if off + 8 <= |data| {
      var s := data[off..off + 8];
      LeValueHalves(s);
      assert s[..4] == data[off..off + 4] && s[4..] == data[off + 4..off + 8];
    }
  }

  /** 16 bytes at `off`, zero-filled when out of range. */
  function Bytes16(data: seq<byte>, off: nat): Block {
    if off + 16 <= |data| then data[off..off + 16] else Zeros(16)
  }

  /** `v & 0x0000_ffff_ffff_ffff`. */
  function Mask48(v: u64): (m: u64)
    ensures m < TWO_48
  {
    v % TWO_48
  }

  /** Masking the 8-byte field equals the 6-byte reader at the same place, exactly unless the bytes end between
      its 6th and its 8th byte and the number there is not 0. */
  lemma MaskedIsLeU48(data: seq<byte>, off: nat)
    ensures Mask48(LeU64(data, off)) == LeU48(data, off) <==>
              off + 8 <= |data| || |data| < off + 6 || LeU48(data, off) == 0
  {
    hide LeValue, Pow256;
    if off + 8 <= |data| {
      var low, high := data[off..off + 6], data[off + 6..off + 8];
      assert data[off..off + 8] == low + high;
      Widths();
      LeValueConcat(low, high);
      LeValueBound(low);
      DropHigh(LeValue(low), LeValue(high));
    }
  }

  lemma DropHigh(low: nat, high: nat)
    requires low < TWO_48
    ensures (low + TWO_48 * high) % TWO_48 == low
  {
  }

  /** Bit-wise exclusive or of the low `n` bits. */
  function XorBits(a: nat, b: nat, n: nat): nat {
    if n == 0 then 0 else (if a % 2 == b % 2 then 0 else 1) + 2 * XorBits(a / 2, b / 2, n - 1)
  }

  function Pow2(n: nat): (p: nat)
    ensures p > 0
  {
    if n == 0 then 1 else 2 * Pow2(n - 1)
  }

  lemma {:induction false} XorBitsBound(a: nat, b: nat, n: nat)
    ensures XorBits(a, b, n) < Pow2(n)
  {
    if n > 0 {
      XorBitsBound(a / 2, b / 2, n - 1);
    }
  }

  lemma BitSplit(low: nat, high: nat)
    requires low < 2
    ensures (low + 2 * high) / 2 == high && (low + 2 * high) % 2 == low
  {
  }

  lemma {:induction false} XorBitsTwice(a: nat, b: nat, n: nat)
    requires a < Pow2(n)
    ensures XorBits(XorBits(a, b, n), b, n) == a
  {
    if n > 0 {
      XorBitsTwice(a / 2, b / 2, n - 1);
      BitSplit(if a % 2 == b % 2 then 0 else 1, XorBits(a / 2, b / 2, n - 1));
    }
  }

  lemma Pow2Eight()
    ensures Pow2(8) == 256
  {
    assert Pow2(4) == 16;
    assert Pow2(6) == 64;
  }

  function XorByte(a: byte, b: byte): byte {
    XorBitsBound(a, b, 8);
    Pow2Eight();
    XorBits(a, b, 8)
  }

  function Xor(a: seq<byte>, b: seq<byte>): (r: seq<byte>)
    requires |a| == |b|
    ensures |r| == |a|
  {
    seq(|a|, i requires 0 <= i < |a| => XorByte(a[i], b[i]))
  }

  /** Bit `k` of a number. */
  function Bit(v: nat, k: nat): nat {
    if k == 0 then v % 2 else Bit(v / 2, k - 1)
  }

  lemma {:induction false} XorBitAt(a: nat, b: nat, n: nat, k: nat)
    requires k < n
    ensures Bit(XorBits(a, b, n), k) == (Bit(a, k) + Bit(b, k)) % 2
  {
    BitSplit(if a % 2 == b % 2 then 0 else 1, XorBits(a / 2, b / 2, n - 1));
    if k > 0 { XorBitAt(a / 2, b / 2, n - 1, k - 1); }
  }

  /** Exclusive or adds each of the eight bits of each byte modulo 2. */
  lemma XorBitwise(a: seq<byte>, b: seq<byte>, i: nat, k: nat)
    requires |a| == |b| && i < |a| && k < 8
    ensures Bit(Xor(a, b)[i], k) == (Bit(a[i], k) + Bit(b[i], k)) % 2
  {
    XorBitAt(a[i], b[i], 8, k);
  }

  /** Exclusive or with the same mask twice is the identity. */
  lemma XorTwice(a: seq<byte>, b: seq<byte>)
    requires |a| == |b|
    ensures Xor(Xor(a, b), b) == a
  {
    Pow2Eight();
    forall i | 0 <= i < |a|
      ensures Xor(Xor(a, b), b)[i] == a[i]
    {
      XorBitsTwice(a[i], b[i], 8);
    }
  }
}
