/** Standard-alphabet base64 with required canonical padding (section 4 of RFC 4648). */
module Base64 {
  import opened Wrappers
  import opened Bytes

  const PAD: byte := 61

  /** The alphabet: upper case, lower case, digits, `+` and `/`. */
  function Symbol(v: nat): (b: byte)
    requires v < 64
    ensures b == if v < 26 then 'A' as int + v else if v < 52 then 'a' as int + (v - 26)
                 else if v < 62 then '0' as int + (v - 52) else if v == 62 then '+' as int else '/' as int
  {
    if v < 26 then 65 + v else if v < 52 then 71 + v else if v < 62 then v - 4 else if v == 62 then 43 else 47
  }

  function Value(b: byte): (v: Option<nat>)
    ensures v.Some? ==> v.value < 64
  {
    if 65 <= b <= 90 then Some(b - 65)
    else if 97 <= b <= 122 then Some(b - 71)
    else if 48 <= b <= 57 then Some(b + 4)
    else if b == 43 then Some(62)
    else if b == 47 then Some(63)
    else None
  }

  lemma SymbolValue(v: nat)
    requires v < 64
    ensures Value(Symbol(v)) == Some(v)
  {
  }

  lemma ValueSymbol(b: byte)
    ensures Value(b).Some? ==> Symbol(Value(b).value) == b
  {
  }

  /** Three bytes as four symbols. */
  function Quad(b0: byte, b1: byte, b2: byte): seq<byte> {
    [Symbol(b0 / 4), Symbol(b0 % 4 * 16 + b1 / 16), Symbol(b1 % 16 * 4 + b2 / 64), Symbol(b2 % 64)]
  }

  function Encode(b: seq<byte>): seq<byte> {
    if b == [] then []
    else if |b| == 1 then Quad(b[0], 0, 0)[..2] + [PAD, PAD]
    else if |b| == 2 then Quad(b[0], b[1], 0)[..3] + [PAD]
    else Quad(b[0], b[1], b[2]) + Encode(b[3..])
  }

  /** One group of four symbols with its padding; a short group must carry zero trailing bits. */
  function DecodeGroup(s: seq<byte>, last: bool): Option<seq<byte>>
    requires |s| == 4
  {
    var v0 :- Value(s[0]);
    var v1 :- Value(s[1]);
    if last && s[2] == PAD && s[3] == PAD then
      if v1 % 16 == 0 then Some([v0 * 4 + v1 / 16]) else None
    else
      var v2 :- Value(s[2]);
      if last && s[3] == PAD then
        if v2 % 4 == 0 then Some([v0 * 4 + v1 / 16, v1 % 16 * 16 + v2 / 4]) else None
      else
        var v3 :- Value(s[3]);
        Some([v0 * 4 + v1 / 16, v1 % 16 * 16 + v2 / 4, v2 % 4 * 64 + v3])
  }

  function Decode(s: seq<byte>): Option<seq<byte>> {
    if s == [] then Some([])
    else if |s| < 4 then None
    else
      var head :- DecodeGroup(s[..4], |s| == 4);
      var rest :- Decode(s[4..]);
      Some(head + rest)
  }

  lemma Sextets(hi: byte, lo: byte)
    ensures (hi % 4 * 16 + lo / 16) / 16 == hi % 4 && (hi % 4 * 16 + lo / 16) % 16 == lo / 16
    ensures (hi % 16 * 4 + lo / 64) / 4 == hi % 16 && (hi % 16 * 4 + lo / 64) % 4 == lo / 64
    ensures hi / 4 * 4 + hi % 4 == hi && lo / 16 * 16 + lo % 16 == lo && lo / 64 * 64 + lo % 64 == lo
  {
  }

  lemma NotPad(v: nat)
    requires v < 64
    ensures Symbol(v) != PAD
  {
  }

  lemma FullGroup(b0: byte, b1: byte, b2: byte, last: bool)
    ensures DecodeGroup(Quad(b0, b1, b2), last) == Some([b0, b1, b2])
  {
    hide Symbol, Value;
    SymbolValue(b0 / 4);
    SymbolValue(b0 % 4 * 16 + b1 / 16);
    SymbolValue(b1 % 16 * 4 + b2 / 64);
    SymbolValue(b2 % 64);
    NotPad(b1 % 16 * 4 + b2 / 64);
    NotPad(b2 % 64);
    Sextets(b0, b1);
    Sextets(b1, b2);
  }

  lemma OneByteGroup(b0: byte)
    ensures DecodeGroup(Quad(b0, 0, 0)[..2] + [PAD, PAD], true) == Some([b0])
  {
    hide Symbol, Value;
    SymbolValue(b0 / 4);
    SymbolValue(b0 % 4 * 16);
    Sextets(b0, 0);
  }

  lemma TwoByteGroup(b0: byte, b1: byte)
    ensures DecodeGroup(Quad(b0, b1, 0)[..3] + [PAD], true) == Some([b0, b1])
  {
    hide Symbol, Value;
    NotPad(b1 % 16 * 4);
    SymbolValue(b0 / 4);
    SymbolValue(b0 % 4 * 16 + b1 / 16);
    SymbolValue(b1 % 16 * 4);
    Sextets(b0, b1);
    Sextets(b1, 0);
  }

  lemma DecodeCons(group: seq<byte>, rest: seq<byte>, head: seq<byte>, tail: seq<byte>)
    requires |group| == 4 && DecodeGroup(group, rest == []) == Some(head) && Decode(rest) == Some(tail)
    ensures Decode(group + rest) == Some(head + tail)
  {
    assert (group + rest)[..4] == group && (group + rest)[4..] == rest;
  }

  lemma {:induction false} RoundTrip(b: seq<byte>)
    ensures Decode(Encode(b)) == Some(b)
    decreases |b|
  {
    if |b| == 1 {
      OneByteGroup(b[0]);
      DecodeCons(Encode(b), [], [b[0]], []);
      assert Encode(b) + [] == Encode(b) && b == [b[0]] + [];
    } else if |b| == 2 {
      TwoByteGroup(b[0], b[1]);
      DecodeCons(Encode(b), [], [b[0], b[1]], []);
      assert Encode(b) + [] == Encode(b) && b == [b[0], b[1]] + [];
    } else if |b| >= 3 {
      RoundTrip(b[3..]);
      FullGroup(b[0], b[1], b[2], Encode(b[3..]) == []);
      DecodeCons(Quad(b[0], b[1], b[2]), Encode(b[3..]), [b[0], b[1], b[2]], b[3..]);
      assert b == [b[0], b[1], b[2]] + b[3..];
    }
  }

  /** The four symbols of three bytes are the base-64 digits of their 24-bit number, most significant first. */
  lemma QuadDigits(b0: byte, b1: byte, b2: byte, v0: nat, v1: nat, v2: nat, v3: nat)
    requires v0 < 64 && v1 < 64 && v2 < 64 && v3 < 64
    requires 0x4_0000 * v0 + 0x1000 * v1 + 0x40 * v2 + v3 == Little(b2, b1, b0, 0)
    ensures Quad(b0, b1, b2) == [Symbol(v0), Symbol(v1), Symbol(v2), Symbol(v3)]
  {
    hide Symbol;
    var h0, l0, h1, l1, h2, l2 := b0 / 4, b0 % 4, b1 / 16, b1 % 16, b2 / 64, b2 % 64;
    SameDigits(v0, v1, v2, v3, h0, l0 * 16 + h1, l1 * 4 + h2, l2);
  }

  /** Base-64 digits are unique. */
  lemma SameDigits(v0: nat, v1: nat, v2: nat, v3: nat, w0: nat, w1: nat, w2: nat, w3: nat)
    requires v0 < 64 && v1 < 64 && v2 < 64 && v3 < 64 && w0 < 64 && w1 < 64 && w2 < 64 && w3 < 64
    requires 0x4_0000 * v0 + 0x1000 * v1 + 0x40 * v2 + v3 == 0x4_0000 * w0 + 0x1000 * w1 + 0x40 * w2 + w3
    ensures v0 == w0 && v1 == w1 && v2 == w2 && v3 == w3
  {
  }

  /** A decoded group is the encoding of what it decodes to. */
  lemma GroupEncodes(s: seq<byte>, last: bool)
    requires |s| == 4 && DecodeGroup(s, last).Some?
    ensures var b := DecodeGroup(s, last).value;
            1 <= |b| <= 3 && (|b| < 3 ==> last) && Encode(b) == s
  {
    hide Symbol, Value, Quad, Encode;
    ValueSymbol(s[0]);
    ValueSymbol(s[1]);
    ValueSymbol(s[2]);
    ValueSymbol(s[3]);
    var b, v0, v1 := DecodeGroup(s, last).value, Value(s[0]).value, Value(s[1]).value;
    ShortEncode(b);
    assert s == [s[0], s[1], s[2], s[3]];
    if |b| == 1 {
      Regroup(v0, v1, 0, 0);
    } else if |b| == 2 {
      Regroup(v0, v1, Value(s[2]).value, 0);
    } else {
      Regroup(v0, v1, Value(s[2]).value, Value(s[3]).value);
    }
  }

  lemma ShortEncode(b: seq<byte>)
    requires 1 <= |b| <= 3
    ensures Encode(b) == if |b| == 1 then Quad(b[0], 0, 0)[..2] + [PAD, PAD]
                         else if |b| == 2 then Quad(b[0], b[1], 0)[..3] + [PAD] else Quad(b[0], b[1], b[2])
  {
    hide Quad;
    assert |b| == 3 ==> b[3..] == [] && Encode([]) == [];
  }

  lemma Regroup(v0: nat, v1: nat, v2: nat, v3: nat)
    requires v0 < 64 && v1 < 64 && v2 < 64 && v3 < 64
    ensures Quad(v0 * 4 + v1 / 16, v1 % 16 * 16 + v2 / 4, v2 % 4 * 64 + v3) == [Symbol(v0), Symbol(v1), Symbol(v2), Symbol(v3)]
  {
    hide Symbol, Quad;
    QuadDigits(v0 * 4 + v1 / 16, v1 % 16 * 16 + v2 / 4, v2 % 4 * 64 + v3, v0, v1, v2, v3);
  }

  /** Decoding accepts exactly the encodings: canonical padding, zero trailing bits, nothing else. */
  lemma {:induction false} DecodeExact(s: seq<byte>, b: seq<byte>)
    ensures Decode(s) == Some(b) <==> s == Encode(b)
    decreases |s|
  {
    RoundTrip(b);
    if s != [] && Decode(s) == Some(b) {
      var head, rest := DecodeGroup(s[..4], |s| == 4).value, Decode(s[4..]).value;
      GroupEncodes(s[..4], |s| == 4);
      DecodeExact(s[4..], rest);
      assert s == s[..4] + s[4..];
      EncodeJoin(head, rest);
    }
  }

  lemma EncodeJoin(head: seq<byte>, rest: seq<byte>)
    requires 1 <= |head| <= 3 && (|head| < 3 ==> rest == [])
    ensures Encode(head + rest) == Encode(head) + Encode(rest)
  {
    if |head| < 3 {
      assert head + rest == head;
    } else {
      assert (head + rest)[3..] == rest && head[3..] == [];
    }
  }

  predicate Printable(s: seq<byte>) {
    forall i :: 0 <= i < |s| ==> Value(s[i]).Some? || s[i] == PAD
  }

  /** Encoded text is made of symbols and padding, four for every three bytes begun. */
  lemma {:induction false} EncodedShape(b: seq<byte>)
    ensures Printable(Encode(b)) && |Encode(b)| == (|b| + 2) / 3 * 4
    decreases |b|
  {
    hide Value, Quad;
    if b != [] { PrintableQuad(b[0], if |b| == 1 then 0 else b[1], if |b| < 3 then 0 else b[2]); }
    if |b| >= 3 {
      EncodedShape(b[3..]);
      assert (|b| - 3 + 2) / 3 == (|b| + 2) / 3 - 1;
    }
  }

  lemma PrintableQuad(b0: byte, b1: byte, b2: byte)
    ensures |Quad(b0, b1, b2)| == 4 && Printable(Quad(b0, b1, b2))
  {
    hide Symbol, Value;
    SymbolValue(b0 / 4);
    SymbolValue(b0 % 4 * 16 + b1 / 16);
    SymbolValue(b1 % 16 * 4 + b2 / 64);
    SymbolValue(b2 % 64);
  }
}

/** UTF-8 validity, Unicode white-space trimming and integer parsing as the standard library does them. */
module Numbers {
  import opened Wrappers
  import opened Bytes

  predicate Cont(s: seq<byte>, i: nat, lo: byte, hi: byte) {
    i < |s| && lo <= s[i] <= hi
  }

  /** The length of the well-formed UTF-8 character at the front, or 0. */
  function CharLength(s: seq<byte>): (n: nat)
    ensures n <= |s|
  {
    if s == [] then 0
    else if s[0] < 0x80 then 1
    else if 0xC2 <= s[0] <= 0xDF && Cont(s, 1, 0x80, 0xBF) then 2
    else if Cont(s, 2, 0x80, 0xBF) &&
      (|| (s[0] == 0xE0 && Cont(s, 1, 0xA0, 0xBF))
       || ((0xE1 <= s[0] <= 0xEC || 0xEE <= s[0] <= 0xEF) && Cont(s, 1, 0x80, 0xBF))
       || (s[0] == 0xED && Cont(s, 1, 0x80, 0x9F))) then 3
    else if Cont(s, 2, 0x80, 0xBF) && Cont(s, 3, 0x80, 0xBF) &&
      (|| (s[0] == 0xF0 && Cont(s, 1, 0x90, 0xBF))
       || (0xF1 <= s[0] <= 0xF3 && Cont(s, 1, 0x80, 0xBF))
       || (s[0] == 0xF4 && Cont(s, 1, 0x80, 0x8F))) then 4
    else 0
  }

  predicate Utf8(s: seq<byte>) {
    s == [] || (CharLength(s) > 0 && Utf8(s[CharLength(s)..]))
  }

  lemma {:induction false} AsciiIsUtf8(s: seq<byte>)
    requires forall i :: 0 <= i < |s| ==> s[i] < 0x80
    ensures Utf8(s)
  {
    if s != [] { AsciiIsUtf8(s[1..]); }
  }

  /** The Unicode scalar values: all code points but the surrogates. */
  predicate Scalar(v: nat) { v < 0xD800 || 0xE000 <= v < 0x11_0000 }

  /** The UTF-8 encoding of a scalar value (section 3 of RFC 3629). */
  function EncodeScalar(v: nat): (s: seq<byte>)
    requires Scalar(v)
    ensures s != []
  {
    if v < 0x80 then [v]
    else if v < 0x800 then [0xC0 + v / 64, 0x80 + v % 64]
    else if v < 0x1_0000 then [0xE0 + v / 4096, 0x80 + v / 64 % 64, 0x80 + v % 64]
    else [0xF0 + v / 262144, 0x80 + v / 4096 % 64, 0x80 + v / 64 % 64, 0x80 + v % 64]
  }

  lemma ScalarAccepted(v: nat, rest: seq<byte>)
    requires Scalar(v)
    ensures CharLength(EncodeScalar(v) + rest) == |EncodeScalar(v)|
  {
  }

  lemma Sixes(a: nat, b: nat, c: nat, d: nat)
    requires b < 64 && c < 64 && d < 64
    ensures (64 * c + d) / 64 == c && (64 * c + d) % 64 == d
    ensures var v := 4096 * b + 64 * c + d; v / 4096 == b && v / 64 % 64 == c && v % 64 == d
    ensures var v := 262144 * a + 4096 * b + 64 * c + d; v / 262144 == a && v / 4096 % 64 == b && v / 64 % 64 == c && v % 64 == d
  {
    var low := 64 * c + d;
    var v := 262144 * a + 4096 * b + low;
    assert v / 4096 == 64 * a + b;
    assert v / 64 == 4096 * a + 64 * b + c;
  }

  /** A well-formed character is the encoding of a scalar value. */
  lemma ScalarAt(s: seq<byte>) returns (v: nat)
    requires CharLength(s) > 0
    ensures Scalar(v) && s[..CharLength(s)] == EncodeScalar(v)
  {
    var n := CharLength(s);
    var a: int := s[0];
    var b: int := if n >= 2 then s[1] - 0x80 else 0;
    var c: int := if n >= 3 then s[2] - 0x80 else 0;
    var d: int := if n == 4 then s[3] - 0x80 else 0;
    if n == 1 {
      v := a;
    } else if n == 2 {
      v := 64 * (a - 0xC0) + b;
    } else if n == 3 {
      v := 4096 * (a - 0xE0) + 64 * b + c;
      Sixes(0, a - 0xE0, b, c);
    } else {
      v := 262144 * (a - 0xF0) + 4096 * b + 64 * c + d;
      Sixes(a - 0xF0, b, c, d);
    }
  }

  predicate Scalars(vs: seq<nat>) { forall i :: 0 <= i < |vs| ==> Scalar(vs[i]) }

  function EncodeAll(vs: seq<nat>): seq<byte>
    requires Scalars(vs)
  {
    if vs == [] then [] else EncodeScalar(vs[0]) + EncodeAll(vs[1..])
  }

  lemma {:induction false} AllAccepted(vs: seq<nat>)
    requires Scalars(vs)
    ensures Utf8(EncodeAll(vs))
  {
    hide CharLength, EncodeScalar;
    if vs != [] {
      AllAccepted(vs[1..]);
      ScalarAccepted(vs[0], EncodeAll(vs[1..]));
      assert EncodeAll(vs)[|EncodeScalar(vs[0])|..] == EncodeAll(vs[1..]);
    }
  }

  lemma {:induction false} AllScalars(s: seq<byte>) returns (vs: seq<nat>)
    requires Utf8(s)
    ensures Scalars(vs) && s == EncodeAll(vs)
  {
    hide CharLength, EncodeScalar;
    vs := [];
    if s != [] {
      var n := CharLength(s);
      var v := ScalarAt(s);
      var rest := AllScalars(s[n..]);
      vs := [v] + rest;
      assert vs[1..] == rest && s == s[..n] + s[n..];
    }
  }

  /** Valid are exactly the encodings of sequences of scalar values. */
  lemma Utf8Exact(s: seq<byte>)
    ensures Utf8(s) <==> exists vs: seq<nat> :: Scalars(vs) && s == EncodeAll(vs)
  {
    hide Utf8, EncodeAll;
    if Utf8(s) {
      var vs := AllScalars(s);
    }
    forall vs: seq<nat> | Scalars(vs) && s == EncodeAll(vs) ensures Utf8(s) {
      AllAccepted(vs);
    }
  }

  /** The code points with the property White_Space. */
  predicate WhiteSpace(v: nat) {
    || 9 <= v <= 13 || v == 0x20 || v == 0x85 || v == 0xA0 || v == 0x1680 || 0x2000 <= v <= 0x200A
    || v == 0x2028 || v == 0x2029 || v == 0x202F || v == 0x205F || v == 0x3000
  }

  /** Of the scalar values exactly the white-space ones are trimmed, each as a whole. */
  lemma WhiteExact(v: nat, rest: seq<byte>)
    requires Scalar(v)
    ensures WhiteLength(EncodeScalar(v) + rest) == if WhiteSpace(v) then |EncodeScalar(v)| else 0
  {
  }

  /** The length of the white-space character at the front, or 0. */
  function WhiteLength(s: seq<byte>): (n: nat)
    ensures n <= |s|
  {
    if s == [] then 0
    else if 9 <= s[0] <= 13 || s[0] == 32 then 1
    else if |s| >= 2 && s[0] == 0xC2 && (s[1] == 0x85 || s[1] == 0xA0) then 2
    else if |s| >= 3 &&
      (|| (s[0] == 0xE1 && s[1] == 0x9A && s[2] == 0x80)
       || (s[0] == 0xE2 && s[1] == 0x80 && (0x80 <= s[2] <= 0x8A || s[2] == 0xA8 || s[2] == 0xA9 || s[2] == 0xAF))
       || (s[0] == 0xE2 && s[1] == 0x81 && s[2] == 0x9F)
       || (s[0] == 0xE3 && s[1] == 0x80 && s[2] == 0x80)) then 3
    else 0
  }

  function TrimStart(s: seq<byte>): seq<byte> {
    if WhiteLength(s) == 0 then s else TrimStart(s[WhiteLength(s)..])
  }

  function TrimEnd(s: seq<byte>): seq<byte> {
    if |s| >= 1 && WhiteLength(s[|s| - 1..]) == 1 then TrimEnd(s[..|s| - 1])
    else if |s| >= 2 && WhiteLength(s[|s| - 2..]) == 2 then TrimEnd(s[..|s| - 2])
    else if |s| >= 3 && WhiteLength(s[|s| - 3..]) == 3 then TrimEnd(s[..|s| - 3])
    else s
  }

  function Trim(s: seq<byte>): seq<byte> { TrimEnd(TrimStart(s)) }

  function Digit(b: byte, radix: nat): (d: Option<nat>)
    ensures d.Some? ==> d.value < radix
  {
    var v := if 48 <= b <= 57 then b - 48 else if 97 <= b <= 122 then b - 87 else if 65 <= b <= 90 then b - 55 else 99;
    if v < radix && v < 36 then Some(v) else None
  }

  /** Positional value with an overflow check after every digit. */
  function Accumulate(s: seq<byte>, radix: nat, bound: nat, acc: nat): (r: Option<nat>)
    ensures r.Some? && acc < bound ==> r.value < bound
    decreases |s|
  {
    if s == [] then Some(acc)
    else
      var d :- Digit(s[0], radix);
      if acc * radix + d < bound then Accumulate(s[1..], radix, bound, acc * radix + d) else None
  }

  /** `from_str_radix` of an unsigned type: an optional `+`, at least one digit, no overflow. */
  function ParseRadix(s: seq<byte>, radix: nat, bound: nat): (r: Option<nat>)
    ensures r.Some? && 0 < bound ==> r.value < bound
  {
    var digits := if |s| > 1 && s[0] == 43 then s[1..] else s;
    if digits == [] then None else Accumulate(digits, radix, bound, 0)
  }

  /** The text of a plist integer: hexadecimal after `0x`, decimal otherwise. */
  function ParseInteger(value: seq<byte>, bound: nat): (r: Option<nat>)
    ensures r.Some? && 0 < bound ==> r.value < bound
  {
    if !Utf8(value) then None
    else
      var text := Trim(value);
      if |text| >= 2 && text[0] == 48 && text[1] == 120 then ParseRadix(text[2..], 16, bound)
      else ParseRadix(text, 10, bound)
  }

  function DigitChar(d: nat): (b: byte)
    requires d < 16
    ensures b == if d < 10 then '0' as int + d else 'a' as int + (d - 10)
  {
    if d < 10 then 48 + d else 87 + d
  }

  /** The digits of `v`, most significant first, lower case. */
  function Digits(v: nat, radix: nat): (s: seq<byte>)
    requires 2 <= radix <= 16
    ensures s != []
  {
    if v < radix then [DigitChar(v)] else Digits(v / radix, radix) + [DigitChar(v % radix)]
  }

  predicate Alphanumeric(s: seq<byte>) {
    forall i :: 0 <= i < |s| ==> 48 <= s[i] <= 57 || 97 <= s[i] <= 102 || s[i] == 120
  }

  lemma {:induction false} DigitsShape(v: nat, radix: nat)
    requires 2 <= radix <= 16
    ensures forall i :: 0 <= i < |Digits(v, radix)| ==> Digit(Digits(v, radix)[i], radix).Some?
    ensures Alphanumeric(Digits(v, radix)) && 120 !in Digits(v, radix)
  {
    hide Digit, DigitChar;
    if v < radix {
      DigitCharShape(v, radix);
    } else {
      DivMod(v, radix);
      DigitsShape(v / radix, radix);
      DigitCharShape(v % radix, radix);
    }
  }

  lemma DigitCharShape(d: nat, radix: nat)
    requires d < radix <= 16
    ensures Digit(DigitChar(d), radix).Some? && (48 <= DigitChar(d) <= 57 || 97 <= DigitChar(d) <= 102)
  {
  }

  lemma {:induction false} AccumulateAppend(s: seq<byte>, b: byte, radix: nat, bound: nat, acc: nat)
    ensures Accumulate(s + [b], radix, bound, acc)
         == var r := Accumulate(s, radix, bound, acc);
            if r.Some? then Accumulate([b], radix, bound, r.value) else None
    decreases |s|
  {
    if s == [] {
      assert s + [b] == [b];
    } else {
      assert (s + [b])[1..] == s[1..] + [b];
      var d := Digit(s[0], radix);
      if d.Some? && acc * radix + d.value < bound {
        AccumulateAppend(s[1..], b, radix, bound, acc * radix + d.value);
      }
    }
  }

  lemma DigitValue(d: nat, radix: nat)
    requires d < radix <= 16
    ensures Digit(DigitChar(d), radix) == Some(d)
  {
  }

  lemma DivMod(v: nat, radix: nat)
    requires 2 <= radix <= v
    ensures 0 <= v / radix < v && v % radix < radix && v / radix * radix + v % radix == v
  {
  }

  lemma LastDigit(acc: nat, d: nat, radix: nat, bound: nat)
    requires d < radix <= 16 && acc * radix + d < bound
    ensures Accumulate([DigitChar(d)], radix, bound, acc) == Some(acc * radix + d)
  {
    DigitValue(d, radix);
    assert [DigitChar(d)][1..] == [];
  }

  lemma {:induction false} DigitsRoundTrip(v: nat, radix: nat, bound: nat)
    requires 2 <= radix <= 16 && v < bound
    ensures Accumulate(Digits(v, radix), radix, bound, 0) == Some(v)
    decreases v
  {
    if v < radix {
      LastDigit(0, v, radix, bound);
    } else {
      DivMod(v, radix);
      DigitsRoundTrip(v / radix, radix, bound);
      AccumulateAppend(Digits(v / radix, radix), DigitChar(v % radix), radix, bound, 0);
      LastDigit(v / radix, v % radix, radix, bound);
    }
  }

  predicate AllDigits(s: seq<byte>, radix: nat) {
    forall i :: 0 <= i < |s| ==> Digit(s[i], radix).Some?
  }

  /** The number that digits denote, most significant first. */
  function Number(s: seq<byte>, radix: nat): nat
    requires AllDigits(s, radix)
  {
    if s == [] then 0 else Number(s[..|s| - 1], radix) * radix + Digit(s[|s| - 1], radix).value
  }

  /** A digit below ten is `0` to `9`, the others are letters of either case. */
  lemma DigitExact(b: byte, radix: nat, v: nat)
    ensures Digit(b, radix) == Some(v) <==>
              v < radix && if v < 10 then b == '0' as int + v else v < 36 && (b == 'a' as int + (v - 10) || b == 'A' as int + (v - 10))
  {
  }

  lemma Grows(a: nat, radix: nat, d: nat)
    requires radix > 0
    ensures a <= a * radix + d
  {
  }

  lemma {:induction false} AccumulateExact(s: seq<byte>, radix: nat, bound: nat)
    requires s != [] && radix > 0
    ensures Accumulate(s, radix, bound, 0)
         == if AllDigits(s, radix) && Number(s, radix) < bound then Some(Number(s, radix)) else None
    decreases |s|
  {
    hide Digit;
    var n := |s| - 1;
    var init, last := s[..n], s[n];
    assert s == init + [last] && [last][1..] == [];
    if init == [] {
      assert s == [last];
    } else {
      AccumulateExact(init, radix, bound);
      AccumulateAppend(init, last, radix, bound, 0);
    }
    if AllDigits(s, radix) {
      Grows(Number(init, radix), radix, Digit(last, radix).value);
    }
  }

  /** An unsigned number is read exactly from an optional `+` and digits whose number fits; the check at every digit
      refuses no number that fits. */
  lemma ParseRadixExact(s: seq<byte>, radix: nat, bound: nat)
    requires radix > 0
    ensures var digits := if |s| > 1 && s[0] == '+' as int then s[1..] else s;
            ParseRadix(s, radix, bound)
            == if digits != [] && AllDigits(digits, radix) && Number(digits, radix) < bound then Some(Number(digits, radix)) else None
  {
    hide Accumulate, Number, Digit;
    var digits := if |s| > 1 && s[0] == 43 then s[1..] else s;
    if digits != [] { AccumulateExact(digits, radix, bound); }
  }

  lemma NotWhite(s: seq<byte>)
    requires s != [] && 48 <= s[0] <= 122
    ensures WhiteLength(s) == 0
  {
  }

  lemma TrimIdentity(s: seq<byte>)
    requires s != [] && Alphanumeric(s)
    ensures Trim(s) == s
  {
    hide WhiteLength, TrimStart, TrimEnd, Alphanumeric;
    AlphanumericNotWhite(s, 0);
    AlphanumericNotWhite(s, |s| - 1);
    if |s| >= 2 { AlphanumericNotWhite(s, |s| - 2); }
    if |s| >= 3 { AlphanumericNotWhite(s, |s| - 3); }
    assert s[0..] == s;
    TrimStartNone(s);
    TrimEndNone(s);
  }

  lemma AlphanumericNotWhite(s: seq<byte>, i: nat)
    requires Alphanumeric(s) && i < |s|
    ensures WhiteLength(s[i..]) == 0
  {
    NotWhite(s[i..]);
  }

  lemma TrimEndNone(s: seq<byte>)
    requires |s| >= 1 ==> WhiteLength(s[|s| - 1..]) == 0
    requires |s| >= 2 ==> WhiteLength(s[|s| - 2..]) == 0
    requires |s| >= 3 ==> WhiteLength(s[|s| - 3..]) == 0
    ensures TrimEnd(s) == s
  {
    hide WhiteLength;
  }

  const HEX_PREFIX: seq<byte> := [48, 120]

  /** A number printed in hexadecimal or in decimal parses back, whenever it fits. */
  lemma IntegerRoundTrip(v: nat, bound: nat)
    requires v < bound
    ensures ParseInteger(HEX_PREFIX + Digits(v, 16), bound) == Some(v)
    ensures ParseInteger(Digits(v, 10), bound) == Some(v)
  {
    HexRoundTrip(v, bound);
    DecimalRoundTrip(v, bound);
  }

  lemma HexRoundTrip(v: nat, bound: nat)
    requires v < bound
    ensures ParseInteger(HEX_PREFIX + Digits(v, 16), bound) == Some(v)
  {
    hide Digits, Accumulate, Trim, Utf8, Digit;
    DigitsShape(v, 16);
    DigitsRoundTrip(v, 16, bound);
    var hex := HEX_PREFIX + Digits(v, 16);
    assert hex[2..] == Digits(v, 16);
    TrimIdentity(hex);
    AsciiIsUtf8(hex);
  }

  lemma DecimalRoundTrip(v: nat, bound: nat)
    requires v < bound
    ensures ParseInteger(Digits(v, 10), bound) == Some(v)
  {
    hide Digits, Accumulate, Trim, Utf8, Digit;
    DigitsShape(v, 10);
    DigitsRoundTrip(v, 10, bound);
    TrimIdentity(Digits(v, 10));
    AsciiIsUtf8(Digits(v, 10));
  }

  // White space around a number.

  /** White-space characters. */
  predicate WhiteChars(ws: seq<seq<byte>>) {
    forall i :: 0 <= i < |ws| ==> ws[i] != [] && WhiteLength(ws[i]) == |ws[i]|
  }

  function Flatten(ws: seq<seq<byte>>): seq<byte> {
    if ws == [] then [] else ws[0] + Flatten(ws[1..])
  }

  lemma WhiteFront(w: seq<byte>, s: seq<byte>)
    requires w != [] && WhiteLength(w) == |w|
    ensures WhiteLength(w + s) == |w| && CharLength(w + s) == |w| && (w + s)[|w|..] == s
  {
  }

  lemma TrimWhite(w: seq<byte>, s: seq<byte>)
    requires w != [] && WhiteLength(w) == |w|
    ensures TrimStart(w + s) == TrimStart(s)
  {
    hide WhiteLength;
    WhiteFront(w, s);
  }

  lemma {:induction false} TrimStartPadded(ws: seq<seq<byte>>, s: seq<byte>)
    requires WhiteChars(ws) && WhiteLength(s) == 0
    ensures TrimStart(Flatten(ws) + s) == s
  {
    hide WhiteLength, TrimStart;
    if ws == [] {
      assert Flatten(ws) + s == s;
      TrimStartNone(s);
    } else {
      TrimWhite(ws[0], Flatten(ws[1..]) + s);
      TrimStartPadded(ws[1..], s);
      assert Flatten(ws) + s == ws[0] + (Flatten(ws[1..]) + s);
    }
  }

  /** The end of a white-space character is none itself. */
  lemma WhiteSuffixes(w: seq<byte>)
    requires w != [] && WhiteLength(w) == |w|
    ensures |w| <= 3
    ensures |w| >= 2 ==> WhiteLength(w[|w| - 1..]) == 0
    ensures |w| == 3 ==> WhiteLength(w[1..]) == 0
  {
  }

  lemma WhiteBack(s: seq<byte>, w: seq<byte>)
    requires w != [] && WhiteLength(w) == |w|
    ensures TrimEnd(s + w) == TrimEnd(s)
  {
    hide WhiteLength;
    WhiteSuffixes(w);
    var x := s + w;
    assert x[|x| - |w|..] == w && x[..|x| - |w|] == s;
    assert x[|x| - 1..] == w[|w| - 1..];
    if |w| == 3 {
      assert x[|x| - 2..] == w[1..];
    }
  }

  lemma {:induction false} TrimEndPadded(s: seq<byte>, ws: seq<seq<byte>>)
    requires WhiteChars(ws)
    ensures TrimEnd(s + Flatten(ws)) == TrimEnd(s)
    decreases |ws|
  {
    hide WhiteLength, TrimEnd;
    if ws == [] {
      assert s + Flatten(ws) == s;
    } else {
      TrimEndPadded(s + ws[0], ws[1..]);
      WhiteBack(s, ws[0]);
      assert s + Flatten(ws) == (s + ws[0]) + Flatten(ws[1..]);
    }
  }

  lemma {:induction false} Utf8Padded(ws: seq<seq<byte>>, s: seq<byte>)
    requires WhiteChars(ws) && Utf8(s)
    ensures Utf8(Flatten(ws) + s)
  {
    hide WhiteLength, CharLength;
    if ws == [] {
      assert Flatten(ws) + s == s;
    } else {
      WhiteFront(ws[0], Flatten(ws[1..]) + s);
      Utf8Padded(ws[1..], s);
      assert Flatten(ws) + s == ws[0] + (Flatten(ws[1..]) + s);
    }
  }

  lemma {:induction false} Utf8AsciiFirst(a: seq<byte>, s: seq<byte>)
    requires Utf8(s) && forall i :: 0 <= i < |a| ==> a[i] < 0x80
    ensures Utf8(a + s)
  {
    if a == [] {
      assert a + s == s;
    } else {
      Utf8AsciiFirst(a[1..], s);
      assert (a + s)[1..] == a[1..] + s;
    }
  }

  /** White space around a number is trimmed, and is valid UTF-8 around it. */
  lemma TrimPadded(before: seq<seq<byte>>, s: seq<byte>, after: seq<seq<byte>>)
    requires WhiteChars(before) && WhiteChars(after) && s != [] && Alphanumeric(s)
    ensures Trim(Flatten(before) + (s + Flatten(after))) == s && Utf8(Flatten(before) + (s + Flatten(after)))
  {
    hide WhiteLength, TrimStart, TrimEnd, Utf8;
    NotWhite(s + Flatten(after));
    TrimStartPadded(before, s + Flatten(after));
    TrimEndPadded(s, after);
    TrimIdentity(s);
    NotWhite(s);
    TrimStartNone(s);
    NoChars();
    Utf8Padded(after, []);
    assert Flatten(after) + [] == Flatten(after);
    Utf8AsciiFirst(s, Flatten(after));
    Utf8Padded(before, s + Flatten(after));
  }

  lemma TrimStartNone(s: seq<byte>)
    requires WhiteLength(s) == 0
    ensures TrimStart(s) == s
  {
  }

  lemma NoChars()
    ensures Utf8([])
  {
  }

  /** A number in hexadecimal or decimal parses back whatever white space surrounds it. */
  lemma PaddedRoundTrip(before: seq<seq<byte>>, v: nat, after: seq<seq<byte>>, bound: nat)
    requires WhiteChars(before) && WhiteChars(after) && v < bound
    ensures ParseInteger(Flatten(before) + (HEX_PREFIX + Digits(v, 16) + Flatten(after)), bound) == Some(v)
    ensures ParseInteger(Flatten(before) + (Digits(v, 10) + Flatten(after)), bound) == Some(v)
  {
    hide Digits, ParseRadix, Trim, Utf8, Digit, Flatten;
    IntegerRoundTrip(v, bound);
    DigitsShape(v, 16);
    DigitsShape(v, 10);
    TrimmedParse(before, HEX_PREFIX + Digits(v, 16), after, bound);
    TrimmedParse(before, Digits(v, 10), after, bound);
  }

  lemma TrimmedParse(before: seq<seq<byte>>, s: seq<byte>, after: seq<seq<byte>>, bound: nat)
    requires WhiteChars(before) && WhiteChars(after) && s != [] && Alphanumeric(s)
    ensures ParseInteger(Flatten(before) + (s + Flatten(after)), bound) == ParseInteger(s, bound)
  {
    hide ParseRadix, Trim, Utf8, Flatten;
    TrimPadded(before, s, after);
    TrimIdentity(s);
    AsciiIsUtf8(s);
  }
}

/** The textual forms of a UUID (section 4 of RFC 9562) that the uuid crate reads and writes. */
module Uuid {
  import opened Wrappers
  import opened Bytes
  import opened Numbers

  const HYPHEN: byte := 45

  function HexOf(b: seq<byte>): (s: seq<byte>)
    ensures |s| == 2 * |b|
  {
    if b == [] then [] else [DigitChar(b[0] / 16), DigitChar(b[0] % 16)] + HexOf(b[1..])
  }

  function FromHex(s: seq<byte>): (r: Option<seq<byte>>)
    ensures r.Some? ==> |s| == 2 * |r.value|
  {
    if s == [] then Some([])
    else if |s| < 2 then None
    else
      var hi :- Digit(s[0], 16);
      var lo :- Digit(s[1], 16);
      var rest :- FromHex(s[2..]);
      Some([16 * hi + lo] + rest)
  }

  lemma {:induction false} PairsRoundTrip(b: seq<byte>)
    ensures FromHex(HexOf(b)) == Some(b)
  {
    if b != [] {
      PairsRoundTrip(b[1..]);
      DigitValue(b[0] / 16, 16);
      DigitValue(b[0] % 16, 16);
      assert HexOf(b)[2..] == HexOf(b[1..]);
      assert b == [b[0]] + b[1..];
    }
  }

  lemma {:induction false} HexOfConcat(a: seq<byte>, b: seq<byte>)
    ensures HexOf(a + b) == HexOf(a) + HexOf(b)
  {
    if a == [] {
      assert a + b == b;
    } else {
      HexOfConcat(a[1..], b);
      assert (a + b)[1..] == a[1..] + b;
    }
  }

  lemma {:induction false} HexShape(b: seq<byte>)
    ensures forall i :: 0 <= i < |HexOf(b)| ==> 48 <= HexOf(b)[i] <= 57 || 97 <= HexOf(b)[i] <= 102
  {
    if b != [] { HexShape(b[1..]); }
  }

  /** `8-4-4-4-12`, lower case. */
  function Format(b: Block): (s: seq<byte>)
    ensures |s| == 36
  {
    HexOf(b[..4]) + [HYPHEN] + HexOf(b[4..6]) + [HYPHEN] + HexOf(b[6..8]) + [HYPHEN]
    + HexOf(b[8..10]) + [HYPHEN] + HexOf(b[10..16])
  }

  function ParseHyphenated(s: seq<byte>): (r: Option<Block>)
    requires |s| == 36
  {
    if s[8] == HYPHEN && s[13] == HYPHEN && s[18] == HYPHEN && s[23] == HYPHEN
    then FromHex(s[..8] + s[9..13] + s[14..18] + s[19..23] + s[24..36])
    else None
  }

  /** Simple, hyphenated, braced and URN forms. */
  function Parse(s: seq<byte>): Option<Block> {
    if |s| == 32 then FromHex(s)
    else if |s| == 36 then ParseHyphenated(s)
    else if |s| == 38 && s[0] == 123 && s[37] == 125 then ParseHyphenated(s[1..37])
    else if |s| == 45 && s[..9] == Ascii("urn:uuid:") then ParseHyphenated(s[9..])
    else None
  }

  lemma RoundTrip(b: Block)
    ensures Parse(Format(b)) == Some(b)
  {
    hide HexOf;
    FormatPieces(b);
    PairsRoundTrip(b);
  }

  lemma {:induction false} HexAt(b: seq<byte>, i: nat)
    requires i < |b|
    ensures HexOf(b)[2 * i] == DigitChar(b[i] / 16) && HexOf(b)[2 * i + 1] == DigitChar(b[i] % 16)
  {
    if i > 0 { HexAt(b[1..], i - 1); }
  }

  /** Where the two digits of byte `i` stand in the hyphenated form. */
  function Place(i: nat): nat {
    2 * i + if i < 4 then 0 else if i < 6 then 1 else if i < 8 then 2 else if i < 10 then 3 else 4
  }

  /** The hyphenated form: the high digit of each byte before the low one, hyphens after 4, 6, 8 and 10 bytes. */
  lemma FormatDigits(b: Block, i: nat)
    requires i < 16
    ensures Format(b)[Place(i)] == DigitChar(b[i] / 16) && Format(b)[Place(i) + 1] == DigitChar(b[i] % 16)
    ensures Format(b)[8] == Format(b)[13] == Format(b)[18] == Format(b)[23] == '-' as int
  {
    hide HexOf;
    var lo := if i < 4 then 0 else if i < 6 then 4 else if i < 8 then 6 else if i < 10 then 8 else 10;
    var hi := if i < 4 then 4 else if i < 6 then 6 else if i < 8 then 8 else if i < 10 then 10 else 16;
    HexAt(b[lo..hi], i - lo);
    assert b[..4] == b[0..4];
  }

  /** `x` is `y`, or the upper case of the letter `a` to `f` that `y` is. */
  predicate SameLetter(x: byte, y: byte) { x == y || (97 <= y <= 102 && x == y - 32) }

  /** `s` is `t` up to the case of its hexadecimal letters. */
  predicate AnyCase(s: seq<byte>, t: seq<byte>) {
    |s| == |t| && forall i :: 0 <= i < |s| ==> SameLetter(s[i], t[i])
  }

  lemma HexDigit(x: byte, v: nat)
    ensures Digit(x, 16) == Some(v) <==> v < 16 && SameLetter(x, DigitChar(v))
  {
  }

  lemma FromHexCons(s: seq<byte>, b: seq<byte>)
    requires |s| >= 2 && b != []
    ensures FromHex(s) == Some(b) <==>
              Digit(s[0], 16) == Some(b[0] / 16) && Digit(s[1], 16) == Some(b[0] % 16) && FromHex(s[2..]) == Some(b[1..])
  {
    hide Digit;
    var hi, lo, rest := Digit(s[0], 16), Digit(s[1], 16), FromHex(s[2..]);
    assert b == [b[0]] + b[1..];
    if hi.Some? && lo.Some? && rest.Some? {
      assert ([16 * hi.value + lo.value] + rest.value)[1..] == rest.value;
    }
  }

  lemma AnyCaseCons(s: seq<byte>, t: seq<byte>)
    requires |s| >= 2 && |t| >= 2
    ensures AnyCase(s, t) <==> SameLetter(s[0], t[0]) && SameLetter(s[1], t[1]) && AnyCase(s[2..], t[2..])
  {
    hide SameLetter;
    var x, y := s[2..], t[2..];
    if |s| == |t| && SameLetter(s[0], t[0]) && SameLetter(s[1], t[1]) && AnyCase(x, y) {
      forall i | 0 <= i < |s| ensures SameLetter(s[i], t[i]) {
        if i >= 2 { assert SameLetter(x[i - 2], y[i - 2]); }
      }
    }
  }

  lemma HexCons(b: seq<byte>)
    requires b != []
    ensures |HexOf(b)| >= 2 && HexOf(b)[0] == DigitChar(b[0] / 16) && HexOf(b)[1] == DigitChar(b[0] % 16)
    ensures HexOf(b)[2..] == HexOf(b[1..])
  {
    hide DigitChar;
  }

  lemma {:induction false} FromHexExact(s: seq<byte>, b: seq<byte>)
    ensures FromHex(s) == Some(b) <==> AnyCase(s, HexOf(b))
    decreases |s|
  {
    hide Digit, DigitChar, AnyCase;
    if |s| >= 2 && b != [] {
      FromHexExact(s[2..], b[1..]);
      FirstPair(s, b);
    } else {
      SameLength(s, HexOf(b));
      SameNothing();
    }
  }

  lemma SameNothing()
    ensures AnyCase([], [])
  {
  }

  lemma SameLength(s: seq<byte>, t: seq<byte>)
    ensures AnyCase(s, t) ==> |s| == |t|
  {
  }

  lemma FirstPair(s: seq<byte>, b: seq<byte>)
    requires |s| >= 2 && b != []
    requires FromHex(s[2..]) == Some(b[1..]) <==> AnyCase(s[2..], HexOf(b[1..]))
    ensures FromHex(s) == Some(b) <==> AnyCase(s, HexOf(b))
  {
    hide Digit, DigitChar, AnyCase, FromHex, HexOf, SameLetter;
    FromHexCons(s, b);
    HexDigit(s[0], b[0] / 16);
    HexDigit(s[1], b[0] % 16);
    HexCons(b);
    AnyCaseCons(s, HexOf(b));
  }

  /** The digits of the hyphenated form without its hyphens. */
  lemma FormatPieces(b: Block)
    ensures var f := Format(b);
            && f[..8] + f[9..13] + f[14..18] + f[19..23] + f[24..36] == HexOf(b)
            && f[8] == f[13] == f[18] == f[23] == HYPHEN
  {
    hide HexOf;
    var s := Format(b);
    assert s[..8] == HexOf(b[..4]) && s[9..13] == HexOf(b[4..6]) && s[14..18] == HexOf(b[6..8])
        && s[19..23] == HexOf(b[8..10]) && s[24..36] == HexOf(b[10..16]);
    HexOfConcat(b[..4], b[4..6]);
    HexOfConcat(b[..4] + b[4..6], b[6..8]);
    HexOfConcat(b[..4] + b[4..6] + b[6..8], b[8..10]);
    HexOfConcat(b[..4] + b[4..6] + b[6..8] + b[8..10], b[10..16]);
    assert b == b[..4] + b[4..6] + b[6..8] + b[8..10] + b[10..16];
  }

  function Pieces(s: seq<byte>): seq<byte>
    requires |s| == 36
  {
    s[..8] + s[9..13] + s[14..18] + s[19..23] + s[24..36]
  }

  lemma AnyCasePieces(s: seq<byte>, f: seq<byte>)
    requires |s| == |f| == 36 && f[8] == f[13] == f[18] == f[23] == HYPHEN
    ensures AnyCase(s, f) <==>
              AnyCase(Pieces(s), Pieces(f)) && s[8] == HYPHEN && s[13] == HYPHEN && s[18] == HYPHEN && s[23] == HYPHEN
  {
    var x, y := Pieces(s), Pieces(f);
    if AnyCase(x, y) && s[8] == HYPHEN && s[13] == HYPHEN && s[18] == HYPHEN && s[23] == HYPHEN {
      forall i | 0 <= i < 36 ensures SameLetter(s[i], f[i]) {
        var k := if i < 8 then i else if i < 13 then i - 1 else if i < 18 then i - 2 else if i < 23 then i - 3 else i - 4;
        if i !in {8, 13, 18, 23} { assert x[k] == s[i] && y[k] == f[i]; }
      }
    }
  }

  lemma HyphenatedExact(s: seq<byte>, b: Block)
    requires |s| == 36
    ensures ParseHyphenated(s) == Some(b) <==> AnyCase(s, Format(b))
  {
    hide Format, HexOf, FromHex, AnyCase;
    FormatPieces(b);
    AnyCasePieces(s, Format(b));
    FromHexExact(Pieces(s), b);
  }

  /** Parsed are exactly the four forms, in either case: bare digits, hyphenated, hyphenated in braces, and
      hyphenated after `urn:uuid:`. */
  lemma ParseExact(s: seq<byte>, b: Block)
    ensures Parse(s) == Some(b) <==>
              || AnyCase(s, HexOf(b))
              || AnyCase(s, Format(b))
              || (|s| == 38 && s[0] == '{' as int && s[37] == '}' as int && AnyCase(s[1..37], Format(b)))
              || (|s| == 45 && s[..9] == Ascii("urn:uuid:") && AnyCase(s[9..], Format(b)))
  {
    hide Format, HexOf, FromHex, ParseHyphenated, AnyCase, Ascii;
    SameLength(s, HexOf(b));
    SameLength(s, Format(b));
    if |s| == 32 { FromHexExact(s, b); }
    if |s| == 36 { HyphenatedExact(s, b); }
    if |s| == 38 { HyphenatedExact(s[1..37], b); }
    if |s| == 45 { HyphenatedExact(s[9..], b); }
  }

  lemma FormatShape(b: Block)
    ensures forall i :: 0 <= i < 36 ==> 45 <= Format(b)[i] <= 57 || 97 <= Format(b)[i] <= 102
  {
    HexShape(b[..4]);
    HexShape(b[4..6]);
    HexShape(b[6..8]);
    HexShape(b[8..10]);
    HexShape(b[10..16]);
  }
}
