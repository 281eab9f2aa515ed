/** What the context loops return on rendered documents. */
module Rendered {
  import opened Wrappers
  import opened Bytes
  import opened Scan
  import opened Plist
  import opened Entries
  import opened Extraction
  import opened Items
  import opened Unlock
  import opened Numbers
  import opened Context
  import Base64

  lemma PlainName(s: string)
    requires forall i :: 0 <= i < |s| ==> s[i] != '<' && s[i] as int < 256
    ensures LT !in Ascii(s)
  {
    assert forall i :: 0 <= i < |Ascii(s)| ==> Ascii(s)[i] != LT;
  }

  lemma ContextNames()
    ensures LT !in PASSPHRASE_STRUCT && LT !in KEK_STRUCT && LT !in BLOCK_ALGORITHM
    ensures LT !in USER_TYPE && LT !in CONVERSION_STATUS
  {
    hide Ascii;
    PlainName("PassphraseWrappedKEKStruct");
    PlainName("KEKWrappedVolumeKeyStruct");
    PlainName("BlockAlgorithm");
    PlainName("UserType");
    PlainName("ConversionStatus");
  }

  lemma LvNames()
    ensures LT !in FAMILY_UUID && LT !in LV_SIZE && LT !in LV_UUID && LT !in LV_NAME
  {
    hide Ascii;
    FamilyAndSizeNames();
    PlainName("com.apple.corestorage.lv.uuid");
    PlainName("com.apple.corestorage.lv.name");
  }

  lemma FamilyAndSizeNames()
    ensures LT !in FAMILY_UUID && LT !in LV_SIZE
  {
    hide Ascii;
    PlainName("com.apple.corestorage.lv.familyUUID");
    PlainName("com.apple.corestorage.lv.size");
  }

  /** Base64 text carries no markup and no white space, and decodes to its bytes. */
  lemma BlobRoundTrip(blob: seq<byte>)
    requires (|blob| + 2) / 3 * 4 <= 4096
    ensures LT !in Base64.Encode(blob) && DecodeBlob(Base64.Encode(blob)) == Some(blob)
  {
    hide Base64.Encode, Base64.Decode;
    Base64.EncodedShape(blob);
    NothingToStrip(Base64.Encode(blob));
    Base64.RoundTrip(blob);
  }

  lemma {:induction false} NothingToStrip(s: seq<byte>)
    requires Base64.Printable(s)
    ensures Stripped(s) == s && LT !in s
  {
    if s != [] {
      assert Base64.Value(s[0]).Some? || s[0] == Base64.PAD;
      NothingToStrip(s[1..]);
      assert s == [s[0]] + s[1..];
    }
  }

  /** `s` with white space before each of its bytes and after the last, as a wrapped blob is printed. */
  function Spread(s: seq<byte>, gaps: seq<seq<byte>>): seq<byte>
    requires |gaps| == |s| + 1
  {
    if s == [] then gaps[0] else gaps[0] + ([s[0]] + Spread(s[1..], gaps[1..]))
  }

  predicate Blank(s: seq<byte>) {
    forall i :: 0 <= i < |s| ==> s[i] in {9, 10, 12, 13, 32}
  }

  lemma {:induction false} StripBlank(gap: seq<byte>, s: seq<byte>)
    requires Blank(gap)
    ensures Stripped(gap + s) == Stripped(s) && LT !in gap
  {
    if gap == [] {
      assert gap + s == s;
    } else {
      StripBlank(gap[1..], s);
      assert (gap + s)[1..] == gap[1..] + s;
    }
  }

  lemma {:induction false} StripSpread(s: seq<byte>, gaps: seq<seq<byte>>)
    requires Base64.Printable(s) && |gaps| == |s| + 1 && forall i :: 0 <= i < |gaps| ==> Blank(gaps[i])
    ensures Stripped(Spread(s, gaps)) == s && LT !in Spread(s, gaps)
  {
    if s == [] {
      StripBlank(gaps[0], []);
      assert gaps[0] + [] == gaps[0];
    } else {
      assert Base64.Value(s[0]).Some? || s[0] == Base64.PAD;
      StripSpread(s[1..], gaps[1..]);
      var rest := Spread(s[1..], gaps[1..]);
      StripBlank(gaps[0], [s[0]] + rest);
      assert ([s[0]] + rest)[1..] == rest;
    }
  }

  /** An encoded blob decodes to its bytes however white space wraps it, and carries no markup. */
  lemma WrappedBlobRoundTrip(blob: seq<byte>, gaps: seq<seq<byte>>)
    requires (|blob| + 2) / 3 * 4 <= 4096
    requires |gaps| == |Base64.Encode(blob)| + 1 && forall i :: 0 <= i < |gaps| ==> Blank(gaps[i])
    ensures var text := Spread(Base64.Encode(blob), gaps); LT !in text && DecodeBlob(text) == Some(blob)
  {
    hide Base64.Encode, Base64.Decode, Blank;
    Base64.EncodedShape(blob);
    StripSpread(Base64.Encode(blob), gaps);
    Base64.RoundTrip(blob);
  }

  /** Stripping keeps every byte but the five white-space ones, in order. */
  lemma {:induction false} StrippedAppend(s: seq<byte>, b: byte)
    ensures Stripped([]) == []
    ensures Stripped(s + [b]) == Stripped(s) + if b in {9, 10, 12, 13, 32} then [] else [b]
  {
    if s == [] {
      assert s + [b] == [b] && [b][1..] == [];
    } else {
      StrippedAppend(s[1..], b);
      assert (s + [b])[1..] == s[1..] + [b];
    }
  }

  /** A blob is decoded exactly when its text without white space is the encoding of the bytes and at most 4096 long;
      a longer one is refused. */
  lemma BlobExact(text: seq<byte>, blob: seq<byte>)
    ensures DecodeBlob(text) == Some(blob) <==> Stripped(text) == Base64.Encode(blob) && |Stripped(text)| <= 4096
  {
    hide Base64.Encode, Base64.Decode, Stripped;
    Base64.DecodeExact(Stripped(text), blob);
  }

  /** The values of a run of matches are those that parse below 2^32, up to the first that does not. */
  lemma {:induction false} ValuesPrefix(ms: seq<Match>)
    ensures var vs := Values(ms);
            && |vs| <= |ms|
            && (forall i :: 0 <= i < |vs| ==> ParseInteger(ms[i].text, 0x1_0000_0000) == Some(vs[i]))
            && (|vs| < |ms| ==> ParseInteger(ms[|vs|].text, 0x1_0000_0000) == None)
  {
    hide ParseInteger;
    if ms != [] { ValuesPrefix(ms[1..]); }
  }

  /** The algorithm chosen is the first that is exactly `AES-XTS`. */
  lemma {:induction false} FirstXtsExact(ms: seq<Match>) returns (i: nat)
    ensures i <= |ms| && forall j :: 0 <= j < i ==> ms[j].text != Ascii("AES-XTS")
    ensures FirstXts(ms) == if i == |ms| then None else Some(ms[i])
    ensures i < |ms| ==> ms[i].text == Ascii("AES-XTS")
  {
    i := 0;
    if ms != [] && ms[0].text != AES_XTS {
      i := FirstXtsExact(ms[1..]);
      i := i + 1;
    }
  }

  /** The text is `v` in hexadecimal or decimal, with any white space around it. */
  ghost predicate Prints(text: seq<byte>, v: nat) {
    exists before, after | WhiteChars(before) && WhiteChars(after) ::
      || text == Flatten(before) + (HEX_PREFIX + Digits(v, 16) + Flatten(after))
      || text == Flatten(before) + (Digits(v, 10) + Flatten(after))
  }

  lemma PrintsParse(text: seq<byte>, v: nat)
    requires Prints(text, v) && v < 0x1_0000_0000
    ensures ParseInteger(text, 0x1_0000_0000) == Some(v)
  {
    hide ParseInteger, Digits, Flatten, WhiteChars;
    var before, after :| WhiteChars(before) && WhiteChars(after) &&
      (|| text == Flatten(before) + (HEX_PREFIX + Digits(v, 16) + Flatten(after))
       || text == Flatten(before) + (Digits(v, 10) + Flatten(after)));
    PaddedRoundTrip(before, v, after, 0x1_0000_0000);
  }

  lemma {:induction false} ValuesOf(ms: seq<Match>, vs: seq<nat>)
    requires |ms| == |vs| && forall i :: 0 <= i < |ms| ==> vs[i] < 0x1_0000_0000 && Prints(ms[i].text, vs[i])
    ensures Values(ms) == vs
  {
    hide ParseInteger, Prints;
    if ms != [] {
      PrintsParse(ms[0].text, vs[0]);
      ValuesOf(ms[1..], vs[1..]);
      assert vs == [vs[0]] + vs[1..];
    }
  }

  /** On arbitrary bytes: each protector consumes at least 38 bytes and each algorithm 46, so both loops end
      and their matches are disjoint and bounded in number. */
  lemma LoopBounds(m: seq<byte>)
    ensures |UserTypeMatches(m, 0)| * 38 <= |m| && Advancing(UserTypeMatches(m, 0), 38, 0, |m|)
    ensures |AlgorithmMatches(m, 0)| * 46 <= |m| && Advancing(AlgorithmMatches(m, 0), 46, 0, |m|)
  {
    hide Matches, Advancing;
    KindTags(Integer);
    KindTags(Text);
    assert |Integer.Open()| == 8 && |Integer.Close()| == 10 && |USER_TYPE| == 8;
    assert |Text.Open()| == 11 && |Text.Close()| == 9 && |BLOCK_ALGORITHM| == 14;
    MatchesAdvance(m, USER_TYPE, Integer.Open(), Integer.Close(), 0);
    MatchesAdvance(m, BLOCK_ALGORITHM, Text.Open(), Text.Close(), 0);
  }

  // Any markup.

  /** The data blob the node scan finds for a name. */
  function DataNode(ns: seq<Node>, name: seq<byte>): Option<seq<byte>> {
    var f :- ScanNodes(ns, name, Data.Opening(), Data.Closing());
    DecodeBlob(f.text)
  }

  /** The wrapped key that markup selects. */
  function SelectNode(ns: seq<Node>): Option<seq<byte>>
    decreases |ns|
  {
    var f :- ScanNodes(ns, BLOCK_ALGORITHM, Text.Opening(), Text.Closing());
    if f.text == AES_XTS then DataNode(ns[f.close + 1..], KEK_STRUCT) else SelectNode(ns[f.close + 1..])
  }

  lemma SelectNodeUnfold(ns: seq<Node>)
    ensures var f := ScanNodes(ns, BLOCK_ALGORITHM, Text.Opening(), Text.Closing());
            SelectNode(ns) == if f.None? then None
                              else if f.value.text == AES_XTS then DataNode(ns[f.value.close + 1..], KEK_STRUCT)
                              else SelectNode(ns[f.value.close + 1..])
  {
    hide ScanNodes, DataNode, Kind.Opening, Kind.Closing;
  }

  lemma DataMarkup(t: seq<byte>, ns: seq<Node>, name: seq<byte>)
    requires LT !in t && LT !in name && NodesOk(ns)
    ensures ExtractData(t + Render(ns), name) == DataNode(ns, name)
  {
    hide ExtractTaggedFrom, Render, ScanNodes, DecodeBlob, Offset, NodeOk, Kind.Opening, Kind.Closing;
    KindTags(Data);
    ExtractMarkup(t, ns, 0, name, Data.Opening(), Data.Closing());
    assert ns[0..] == ns;
  }

  /** What the first AES-XTS answer of markup leads to. */
  lemma {:induction false} NodeChainSelects(before: seq<byte>, t: seq<byte>, ns: seq<Node>)
    requires LT !in t && NodesOk(ns)
    ensures var m := before + (t + Render(ns));
            var hit := FirstXts(NodeChain(ns, BLOCK_ALGORITHM, Text.Opening(), Text.Closing(), |before| + |t|));
            if hit.None? then SelectNode(ns) == None
            else hit.value.end <= |m| && ExtractData(m[hit.value.end..], KEK_STRUCT) == SelectNode(ns)
    decreases |ns|
  {
    hide ExtractData, Render, DataNode, ScanNodes, NodeChain, SelectNode, FirstXts, Offset, Tag, Kind.Opening, Kind.Closing;
    ContextNames();
    NoXts();
    var x, c := Text.Opening(), Text.Closing();
    var m, f := before + (t + Render(ns)), ScanNodes(ns, BLOCK_ALGORITHM, x, c);
    SelectNodeUnfold(ns);
    NodeChainUnfold(ns, BLOCK_ALGORITHM, x, c, |before| + |t|);
    if f.Some? {
      var k := f.value.close;
      ClosedBy(ns, BLOCK_ALGORITHM, x, c);
      var head := BehindClose(before, t, ns, k);
      var rest, text := ns[k + 1..], ns[k].text;
      var at := |before| + |t| + Offset(ns, k + 1);
      FirstXtsOf(Match(f.value.text, |head|), NodeChain(rest, BLOCK_ALGORITHM, x, c, at));
      if f.value.text == AES_XTS {
        assert m[|head|..] == text + Render(rest);
        DataMarkup(text, rest, KEK_STRUCT);
      } else {
        NodeChainSelects(head, text, rest);
      }
    }
  }

  /** Key selection on every markup: the byte loop is the node loop. */
  lemma KeyMarkup(t: seq<byte>, ns: seq<Node>)
    requires LT !in t && NodesOk(ns)
    ensures KekWrapped(t + Render(ns)) == SelectNode(ns)
  {
    hide ExtractData, Render, NodeChain, SelectNode, NodeOk, Matches, FirstXts, Kind.Opening, Kind.Closing;
    ContextNames();
    KindTags(Text);
    MatchesMarkup([], t, ns, BLOCK_ALGORITHM, Text.Opening(), Text.Closing());
    assert [] + (t + Render(ns)) == t + Render(ns);
    NodeChainSelects([], t, ns);
  }

  /** Protector enumeration on every markup. */
  lemma ProtectorsMarkup(t: seq<byte>, ns: seq<Node>)
    requires LT !in t && NodesOk(ns)
    ensures var vs := Values(NodeChain(ns, USER_TYPE, Integer.Opening(), Integer.Closing(), |t|));
            Protectors(t + Render(ns)) == Classified(vs[..Min(64, |vs|)])
  {
    hide Render, NodeChain, NodeOk, Matches, Values, Kind.Opening, Kind.Closing;
    ContextNames();
    KindTags(Integer);
    MatchesMarkup([], t, ns, USER_TYPE, Integer.Opening(), Integer.Closing());
    assert [] + (t + Render(ns)) == t + Render(ns);
  }

  // Documents of items.

  /** The data blob that answers for a name. */
  function DataOf(items: seq<Item>, name: seq<byte>): Option<seq<byte>> {
    var j := Answering(items, name, Data);
    if j == |items| then None else DecodeBlob(items[j].entry.text)
  }

  /** The wrapped key a document selects: the one that answers after the first algorithm that is exactly AES-XTS. */
  function SelectKey(items: seq<Item>): Option<seq<byte>>
    decreases |items|
  {
    var j := Answering(items, BLOCK_ALGORITHM, Text);
    if j == |items| then None
    else if items[j].entry.text == AES_XTS then DataOf(items[j + 1..], KEK_STRUCT)
    else SelectKey(items[j + 1..])
  }

  lemma SelectUnfold(items: seq<Item>)
    ensures var j := Answering(items, BLOCK_ALGORITHM, Text);
            SelectKey(items) == if j == |items| then None
                                else if items[j].entry.text == AES_XTS then DataOf(items[j + 1..], KEK_STRUCT)
                                else SelectKey(items[j + 1..])
  {
    hide Answering, DataOf;
  }

  lemma DataExact(t: seq<byte>, items: seq<Item>, name: seq<byte>)
    requires LT !in t && LT !in name && ItemsOk(items) && Quiet(items, name, Data)
    ensures ExtractData(t + Print(items), name) == DataOf(items, name)
  {
    hide ExtractTaggedFrom, Print, DecodeBlob, Answering, ItemOk, Quiet;
    ExtractFirst(t, items, name, Data);
  }

  /** The loose tags of a document disturb neither search of the key selection. */
  predicate KeyQuiet(items: seq<Item>) {
    Quiet(items, BLOCK_ALGORITHM, Text) && Quiet(items, KEK_STRUCT, Data)
  }

  lemma FirstXtsOf(hit: Match, later: seq<Match>)
    ensures FirstXts([hit] + later) == if hit.text == AES_XTS then Some(hit) else FirstXts(later)
  {
    assert ([hit] + later)[1..] == later;
  }

  lemma NoXts()
    ensures FirstXts([]) == None
  {
  }

  /** What the first AES-XTS answer of a document leads to. */
  lemma {:induction false} ChainSelects(before: seq<byte>, t: seq<byte>, items: seq<Item>)
    requires LT !in t && ItemsOk(items) && KeyQuiet(items)
    ensures var m, hit := before + (t + Print(items)), FirstXts(Chain(items, BLOCK_ALGORITHM, Text, |before| + |t|));
            if hit.None? then SelectKey(items) == None
            else hit.value.end <= |m| && ExtractData(m[hit.value.end..], KEK_STRUCT) == SelectKey(items)
    decreases |items|
  {
    hide ExtractData, Print, DataOf, Answering, ItemsOk, Quiet, Chain, SelectKey, FirstXts;
    ContextNames();
    NoXts();
    var m, j := before + (t + Print(items)), Answering(items, BLOCK_ALGORITHM, Text);
    SelectUnfold(items);
    ChainUnfold(items, BLOCK_ALGORITHM, Text, |before| + |t|);
    if j < |items| {
      var shown, rest := Print(items[..j + 1]), items[j + 1..];
      PrintAt(items, j + 1);
      LaterOk(items, j + 1, BLOCK_ALGORITHM, Text);
      LaterOk(items, j + 1, KEK_STRUCT, Data);
      Regroup(before, t, shown, Print(rest));
      var end := |before| + |t| + |shown|;
      FirstXtsOf(Match(items[j].entry.text, end), Chain(rest, BLOCK_ALGORITHM, Text, end));
      if items[j].entry.text == AES_XTS {
        assert m[end..] == [] + Print(rest);
        DataExact([], rest, KEK_STRUCT);
      } else {
        ChainSelects(before + t + shown, [], rest);
      }
    }
  }

  /** Key selection on a document, whatever its entries, their types and their attributes: the byte loop is the entry
      loop. */
  lemma KeyExact(t: seq<byte>, items: seq<Item>)
    requires LT !in t && ItemsOk(items) && KeyQuiet(items)
    ensures KekWrapped(t + Print(items)) == SelectKey(items)
  {
    hide ExtractData, Print, Chain, SelectKey, ItemOk, Quiet, Matches, FirstXts, Kind.Open, Kind.Close;
    ContextNames();
    MatchesExact([], t, items, BLOCK_ALGORITHM, Text);
    assert [] + (t + Print(items)) == t + Print(items);
    ChainSelects([], t, items);
  }

  /** Protector enumeration on a document, whatever its entries. */
  lemma ProtectorsExact(t: seq<byte>, items: seq<Item>)
    requires LT !in t && ItemsOk(items) && Quiet(items, USER_TYPE, Integer)
    ensures var vs := Values(Chain(items, USER_TYPE, Integer, |t|));
            Protectors(t + Print(items)) == Classified(vs[..Min(64, |vs|)])
  {
    hide Print, Chain, ItemOk, Quiet, Matches, Values, Kind.Open, Kind.Close;
    ContextNames();
    MatchesExact([], t, items, USER_TYPE, Integer);
    assert [] + (t + Print(items)) == t + Print(items);
  }

  /** Protector enumeration on a rendered document: exactly the UserType values in order, hexadecimal or
      decimal with any white space around them, cut at the cap, whatever other items stand between them. */
  lemma ProtectorsRoundTrip(t: seq<byte>, items: seq<Item>, vs: seq<nat>)
    requires LT !in t && ItemsOk(items) && Quiet(items, USER_TYPE, Integer)
    requires forall i :: 0 <= i < |items| && items[i].Value? && items[i].entry.name == USER_TYPE ==> items[i].entry.kind == Integer
    requires var us := Named(items, USER_TYPE);
             |us| == |vs| && forall i :: 0 <= i < |us| ==> vs[i] < 0x1_0000_0000 && Prints(us[i].text, vs[i])
    ensures Protectors(t + Print(items)) == Classified(vs[..Min(64, |vs|)])
  {
    hide Print, Chain, Values, Protectors, Named, Prints, EntryOk, Quiet, Opens;
    ProtectorsExact(t, items);
    forall i | 0 <= i < |items| && items[i].Value? && items[i].entry.name == USER_TYPE ensures Opens(items[i].entry, Integer) {
      EachOk(items, i);
      OpeningsDiffer(items[i].entry, Integer);
    }
    ChainNamed(items, USER_TYPE, Integer, |t|);
    ValuesOf(Chain(items, USER_TYPE, Integer, |t|), vs);
  }

  /** The string that answers for a name. */
  function StringOf(items: seq<Item>, name: seq<byte>): Option<seq<byte>> {
    var j := Answering(items, name, Text);
    if j < |items| && Utf8(items[j].entry.text) then Some(items[j].entry.text) else None
  }

  lemma StringExact(t: seq<byte>, items: seq<Item>, name: seq<byte>)
    requires LT !in t && LT !in name && ItemsOk(items) && Quiet(items, name, Text)
    ensures ExtractString(t + Print(items), name) == StringOf(items, name)
  {
    hide ExtractTaggedFrom, Print, Utf8, Answering, ItemOk, Quiet;
    ExtractFirst(t, items, name, Text);
  }

  /** The loose tags of a document disturb no search of the context extraction. */
  predicate ContextQuiet(items: seq<Item>) {
    && KeyQuiet(items) && Quiet(items, PASSPHRASE_STRUCT, Data) && Quiet(items, USER_TYPE, Integer)
    && Quiet(items, CONVERSION_STATUS, Text)
  }

  /** What the two structs decide of the context. */
  ghost predicate ContextIs(r: Result<EncryptionContext, Error>, pw: Option<seq<byte>>, blob: Option<seq<byte>>) {
    && (r.Ok? <==> pw.Some? && 172 <= |pw.value| && blob.Some? && 32 <= |blob.value|)
    && (r.Err? ==> r.error.MetadataStructureMissing? || r.error.OutOfRange?)
    && (r.Err? ==> (r.error.MetadataStructureMissing? <==> pw.None? || (172 <= |pw.value| && blob.None?)))
    && (r.Ok? ==> r.value.keys == KeyMaterial(pw.value[8..24], LeU32(pw.value, 168), pw.value[32..56], blob.value[8..32]))
  }

  lemma ContextParts(m: seq<byte>)
    ensures ContextIs(ContextOf(m), ExtractData(m, PASSPHRASE_STRUCT), KekWrapped(m))
    ensures ContextOf(m).Ok? ==>
      ContextOf(m).value.protectors == Protectors(m) && ContextOf(m).value.conversionStatus == ExtractString(m, CONVERSION_STATUS)
  {
    hide ExtractData, KekWrapped, Protectors, ExtractString, PassphraseFields, VmkField, LeU32, Ascii;
    var pw, blob := ExtractData(m, PASSPHRASE_STRUCT), KekWrapped(m);
    if pw.Some? { FieldsExact(pw.value); }
    if blob.Some? { VmkExact(blob.value); }
  }

  /** The context of a document is extracted if and only if a passphrase struct of at least 172 bytes and, after the
      first AES-XTS algorithm, a volume-key struct of at least 32 bytes answer; it then holds the salt at 8, the wrapped
      KEK at 32 and the iterations at 168 of the one, the wrapped volume key at 8 of the other, the protectors and the
      conversion status. An absent struct and a short one are told apart. */
  lemma ContextExact(t: seq<byte>, items: seq<Item>)
    requires LT !in t && ItemsOk(items) && ContextQuiet(items)
    ensures var r := ContextOf(t + Print(items));
            && ContextIs(r, DataOf(items, PASSPHRASE_STRUCT), SelectKey(items))
            && (r.Ok? ==>
                  var vs := Values(Chain(items, USER_TYPE, Integer, |t|));
                  && r.value.protectors == Classified(vs[..Min(64, |vs|)])
                  && r.value.conversionStatus == StringOf(items, CONVERSION_STATUS))
  {
    hide ExtractData, KekWrapped, Protectors, ExtractString, ContextOf, ContextIs, Print, DataOf, SelectKey, StringOf,
      ItemsOk, Quiet, Ascii, Values, Chain;
    ContextNames();
    ContextParts(t + Print(items));
    DataExact(t, items, PASSPHRASE_STRUCT);
    KeyExact(t, items);
    ProtectorsExact(t, items);
    StringExact(t, items, CONVERSION_STATUS);
  }

  /** The integer that answers for the size, or 0 when none does or it does not parse below 2^64. */
  function SizeOf(items: seq<Item>): nat {
    var j := Answering(items, LV_SIZE, Integer);
    if j < |items| && ParseInteger(items[j].entry.text, 0x1_0000_0000_0000_0000).Some?
    then ParseInteger(items[j].entry.text, 0x1_0000_0000_0000_0000).value else 0
  }

  /** The loose tags of a document disturb no search of the record extraction. */
  predicate LvQuiet(items: seq<Item>) {
    && Quiet(items, FAMILY_UUID, Text) && Quiet(items, LV_UUID, Text) && Quiet(items, LV_NAME, Text)
    && Quiet(items, LV_SIZE, Integer)
  }

  lemma SizeExact(t: seq<byte>, items: seq<Item>)
    requires LT !in t && ItemsOk(items) && Quiet(items, LV_SIZE, Integer)
    ensures LvSizeOf(t + Print(items)) == SizeOf(items)
  {
    hide ExtractTaggedFrom, Print, ParseInteger, Answering, ItemOk, Quiet, Ascii;
    LvNames();
    ExtractFirst(t, items, LV_SIZE, Integer);
  }

  /** The record of a document is extracted if and only if a family UUID answers; a size that is missing or does not
      parse is 0, and a missing identifier or name is none. */
  lemma LvExact(t: seq<byte>, items: seq<Item>)
    requires LT !in t && ItemsOk(items) && LvQuiet(items)
    ensures var r, family := LvInfoOf(t + Print(items)), StringOf(items, FAMILY_UUID);
            && (r.Ok? <==> family.Some?)
            && (r.Err? ==> r.error.MetadataStructureMissing?)
            && (r.Ok? ==> r.value.size == SizeOf(items) && r.value.familyUuid == family.value
                          && r.value.lvIdentifier == StringOf(items, LV_UUID) && r.value.name == StringOf(items, LV_NAME))
  {
    hide ExtractString, LvSizeOf, Print, StringOf, SizeOf, ItemsOk, Quiet, Ascii;
    LvNames();
    StringExact(t, items, FAMILY_UUID);
    StringExact(t, items, LV_UUID);
    StringExact(t, items, LV_NAME);
    SizeExact(t, items);
  }

  lemma FieldsExact(pw: seq<byte>)
    ensures var r := PassphraseFields(pw);
            && (r.Ok? <==> 172 <= |pw|) && (r.Err? ==> r.error.OutOfRange?)
            && (r.Ok? ==> r.value == (pw[8..24], pw[32..56], LeU32(pw, 168)))
  {
    hide LeValue, Pow256;
    if 172 <= |pw| { assert pw[168..172][0..4] == pw[168..172]; }
  }

  lemma VmkExact(blob: seq<byte>)
    ensures var r := VmkField(blob);
            (r.Ok? <==> 32 <= |blob|) && (r.Err? ==> r.error.OutOfRange?) && (r.Ok? ==> r.value == blob[8..32])
  {
  }

  // Pairs of an algorithm and its wrapped key.

  /** An algorithm and its wrapped key. */
  datatype Pair = Pair(algorithm: seq<byte>, algorithmTag: seq<byte>, blob: seq<byte>, blobTag: seq<byte>)

  function AlgorithmOf(p: Pair): Entry { Entry(BLOCK_ALGORITHM, Text, p.algorithmTag, p.algorithm) }
  function KeyOf(p: Pair): Entry { Entry(KEK_STRUCT, Data, p.blobTag, Base64.Encode(p.blob)) }

  function PairItems(ps: seq<Pair>): seq<Item> {
    if ps == [] then [] else [Value(AlgorithmOf(ps[0]))] + ([Value(KeyOf(ps[0]))] + PairItems(ps[1..]))
  }

  function FirstXtsPair(ps: seq<Pair>): (i: nat)
    ensures i <= |ps|
  {
    if ps == [] || ps[0].algorithm == AES_XTS then 0 else 1 + FirstXtsPair(ps[1..])
  }

  /** Tags of the two types with any attributes, an algorithm without markup, an encoded blob within the cap. */
  predicate PairOk(p: Pair) {
    && LT !in p.algorithm && (|p.blob| + 2) / 3 * 4 <= 4096
    && LT !in p.algorithmTag && GT !in p.algorithmTag && LT !in p.blobTag && GT !in p.blobTag
    && Text.Name() <= p.algorithmTag && Data.Name() <= p.blobTag
  }

  predicate PairOpens(p: Pair) { Text.Opening() <= p.algorithmTag && Data.Opening() <= p.blobTag }

  predicate PairsOk(ps: seq<Pair>) { forall k :: 0 <= k < |ps| ==> PairOk(ps[k]) }

  predicate PairsOpen(ps: seq<Pair>) { forall k :: 0 <= k < |ps| ==> PairOpens(ps[k]) }

  lemma DistinctNames()
    ensures KEK_STRUCT != BLOCK_ALGORITHM
  {
    assert |KEK_STRUCT| == 25 && |BLOCK_ALGORITHM| == 14;
  }

  /** A wrapped key in front changes nothing for the algorithms behind it. */
  lemma SkipBlob(e: Entry, items: seq<Item>)
    requires e.name == KEK_STRUCT
    ensures SelectKey([Value(e)] + items) == SelectKey(items)
  {
    hide DataOf, Answering, SelectKey;
    DistinctNames();
    AnsweringSkip(Value(e), items, BLOCK_ALGORITHM, Text);
    SelectUnfold([Value(e)] + items);
    SelectUnfold(items);
    var j := Answering(items, BLOCK_ALGORITHM, Text);
    assert j < |items| ==> ([Value(e)] + items)[j + 2..] == items[j + 1..] && ([Value(e)] + items)[j + 1] == items[j];
  }

  lemma FirstPairSelects(a: Entry, b: Entry, items: seq<Item>)
    requires a.name == BLOCK_ALGORITHM && Opens(a, Text) && b.name == KEK_STRUCT && Opens(b, Data)
    ensures SelectKey([Value(a)] + ([Value(b)] + items)) == if a.text == AES_XTS then DecodeBlob(b.text) else SelectKey(items)
  {
    hide DecodeBlob, Answering, SelectKey, Opens;
    var all := [Value(a)] + ([Value(b)] + items);
    AnsweringHead(all, BLOCK_ALGORITHM, Text);
    SelectUnfold(all);
    assert all[1..] == [Value(b)] + items;
    AnsweringHead([Value(b)] + items, KEK_STRUCT, Data);
    SkipBlob(b, items);
  }

  lemma PairEntriesOk(p: Pair)
    requires PairOk(p)
    ensures EntryOk(AlgorithmOf(p)) && EntryOk(KeyOf(p)) && DecodeBlob(KeyOf(p).text) == Some(p.blob)
  {
    hide Ascii, Base64.Encode, DecodeBlob;
    ContextNames();
    BlobRoundTrip(p.blob);
  }

  lemma {:induction false} PairItemsOk(ps: seq<Pair>)
    requires PairsOk(ps)
    ensures ItemsOk(PairItems(ps)) && KeyQuiet(PairItems(ps))
  {
    hide PairOk, AlgorithmOf, KeyOf, EntryOk;
    if ps != [] {
      PairEntriesOk(ps[0]);
      PairItemsOk(ps[1..]);
    }
  }

  lemma {:induction false} PairsSelect(ps: seq<Pair>)
    requires PairsOk(ps) && PairsOpen(ps)
    ensures var k := FirstXtsPair(ps); SelectKey(PairItems(ps)) == if k < |ps| then Some(ps[k].blob) else None
  {
    hide SelectKey, Base64.Encode, DecodeBlob, EntryOk;
    if ps == [] {
      SelectUnfold([]);
    } else {
      assert PairOk(ps[0]) && PairOpens(ps[0]);
      PairEntriesOk(ps[0]);
      FirstPairSelects(AlgorithmOf(ps[0]), KeyOf(ps[0]), PairItems(ps[1..]));
      PairsSelect(ps[1..]);
    }
  }

  /** The extraction from a list of pairs returns the blob of its first AES-XTS pair, or nothing without one. */
  predicate SelectsFirst(t: seq<byte>, ps: seq<Pair>) {
    var k := FirstXtsPair(ps);
    KekWrapped(t + Print(PairItems(ps))) == if k < |ps| then Some(ps[k].blob) else None
  }

  /** On a list of (algorithm, wrapped key) pairs whose tags open, exactly the blob of the first AES-XTS pair. */
  lemma PairSelection(t: seq<byte>, ps: seq<Pair>)
    requires LT !in t && PairsOk(ps) && PairsOpen(ps)
    ensures SelectsFirst(t, ps)
  {
    hide KekWrapped, Print, SelectKey, PairItems, ItemsOk, KeyQuiet, PairOk;
    PairsSelect(ps);
    PairItemsOk(ps);
    KeyExact(t, PairItems(ps));
  }

  predicate SameTags(ps: seq<Pair>, qs: seq<Pair>) {
    |ps| == |qs| &&
    forall k :: 0 <= k < |ps| ==> ps[k].algorithmTag == qs[k].algorithmTag && ps[k].blobTag == qs[k].blobTag
  }

  /** The same tags around empty contents, but for pair `k`. */
  function Filled(ps: seq<Pair>, k: nat): (qs: seq<Pair>)
    ensures SameTags(ps, qs)
    ensures forall i :: 0 <= i < |ps| ==>
      qs[i].algorithm == (if i == k then AES_XTS else []) && qs[i].blob == (if i == k then [1] else [])
  {
    seq(|ps|, i requires 0 <= i < |ps| =>
      Pair(if i == k then AES_XTS else [], ps[i].algorithmTag, if i == k then [1] else [], ps[i].blobTag))
  }

  /** No algorithm that opens is AES-XTS. */
  predicate NoXtsOpens(items: seq<Item>) {
    forall i :: 0 <= i < |items| && items[i].Value? && Opens(items[i].entry, Text) ==> items[i].entry.text != AES_XTS
  }

  lemma {:induction false} SelectNone(items: seq<Item>)
    requires NoXtsOpens(items)
    ensures SelectKey(items) == None
    decreases |items|
  {
    hide SelectKey, Answering, DataOf, Opens;
    var j := Answering(items, BLOCK_ALGORITHM, Text);
    SelectUnfold(items);
    AnsweringOpens(items, BLOCK_ALGORITHM, Text);
    if j < |items| { SelectNone(items[j + 1..]); }
  }

  /** Every blob that opens is empty. */
  predicate EmptyOpens(items: seq<Item>) {
    forall i :: 0 <= i < |items| && items[i].Value? && Opens(items[i].entry, Data) ==> items[i].entry.text == []
  }

  lemma NothingDecodes()
    ensures DecodeBlob([]) == Some([]) && Base64.Encode([]) == []
  {
  }

  lemma {:induction false} SelectEmpty(items: seq<Item>)
    requires EmptyOpens(items)
    ensures SelectKey(items) == None || SelectKey(items) == Some([])
    decreases |items|
  {
    hide SelectKey, Answering, Opens, DecodeBlob;
    NothingDecodes();
    var j := Answering(items, BLOCK_ALGORITHM, Text);
    SelectUnfold(items);
    if j < |items| {
      SelectEmpty(items[j + 1..]);
      AnsweringOpens(items[j + 1..], KEK_STRUCT, Data);
    }
  }

  lemma PairKinds(p: Pair)
    requires PairOk(p)
    ensures !Opens(AlgorithmOf(p), Data) && !Opens(KeyOf(p), Text)
  {
    PairEntriesOk(p);
    OpeningsDiffer(AlgorithmOf(p), Data);
    OpeningsDiffer(KeyOf(p), Text);
  }

  lemma {:induction false} PairsWithoutXts(ps: seq<Pair>)
    requires PairsOk(ps) && forall i :: 0 <= i < |ps| && ps[i].algorithm == AES_XTS ==> !Opens(AlgorithmOf(ps[i]), Text)
    ensures NoXtsOpens(PairItems(ps))
  {
    hide Opens, PairOk, Base64.Encode;
    if ps != [] {
      PairKinds(ps[0]);
      PairsWithoutXts(ps[1..]);
    }
  }

  lemma {:induction false} PairsWithoutBlobs(ps: seq<Pair>)
    requires PairsOk(ps) && forall i :: 0 <= i < |ps| && ps[i].blob != [] ==> !Opens(KeyOf(ps[i]), Data)
    ensures EmptyOpens(PairItems(ps))
  {
    hide Opens, PairOk, Base64.Encode;
    NothingDecodes();
    if ps != [] {
      PairKinds(ps[0]);
      PairsWithoutBlobs(ps[1..]);
    }
  }

  lemma {:induction false} FirstFilled(qs: seq<Pair>, k: nat)
    requires k < |qs| && forall i :: 0 <= i <= k ==> (qs[i].algorithm == AES_XTS <==> i == k)
    ensures FirstXtsPair(qs) == k
  {
    if k > 0 { FirstFilled(qs[1..], k - 1); }
  }

  lemma XtsName()
    ensures AES_XTS != [] && LT !in AES_XTS
  {
    assert AES_XTS == [65, 69, 83, 45, 88, 84, 83];
  }

  lemma FilledOk(ps: seq<Pair>, k: nat)
    requires PairsOk(ps) && k < |ps|
    ensures PairsOk(Filled(ps, k)) && FirstXtsPair(Filled(ps, k)) == k
  {
    hide Kind.Name, Filled;
    XtsName();
    var qs := Filled(ps, k);
    forall i | 0 <= i < |qs| ensures PairOk(qs[i]) {
      assert PairOk(ps[i]);
    }
    FirstFilled(qs, k);
  }

  /** A pair with a tag that does not open can be passed over. */
  lemma ClosedPair(t: seq<byte>, ps: seq<Pair>, k: nat)
    requires LT !in t && PairsOk(ps) && k < |ps| && !PairOpens(ps[k])
    ensures !SelectsFirst(t, Filled(ps, k))
  {
    hide KekWrapped, Print, SelectKey, PairItems, ItemsOk, KeyQuiet, PairOk, FirstXtsPair, Filled;
    XtsName();
    var qs := Filled(ps, k);
    FilledOk(ps, k);
    PairItemsOk(qs);
    KeyExact(t, PairItems(qs));
    if !Opens(AlgorithmOf(qs[k]), Text) {
      PairsWithoutXts(qs);
      SelectNone(PairItems(qs));
    } else {
      PairsWithoutBlobs(qs);
      SelectEmpty(PairItems(qs));
    }
  }

  /** For given tags, the first AES-XTS pair is selected whatever the algorithms and blobs, if and only if every tag
      opens. */
  lemma PairSelectionIff(t: seq<byte>, ps: seq<Pair>)
    requires LT !in t && PairsOk(ps)
    ensures (forall qs :: SameTags(ps, qs) && PairsOk(qs) ==> SelectsFirst(t, qs)) <==> PairsOpen(ps)
  {
    hide SelectsFirst, PairOk, Filled;
    if PairsOpen(ps) {
      forall qs | SameTags(ps, qs) && PairsOk(qs) ensures SelectsFirst(t, qs) {
        forall k | 0 <= k < |qs| ensures PairOpens(qs[k]) { assert PairOpens(ps[k]); }
        PairSelection(t, qs);
      }
    } else {
      var k :| 0 <= k < |ps| && !PairOpens(ps[k]);
      FilledOk(ps, k);
      ClosedPair(t, ps, k);
      assert SameTags(ps, Filled(ps, k)) && PairsOk(Filled(ps, k));
    }
  }
}
