/** What the extractors read back from the printed metadata of a planned volume, whatever bytes follow it. */
module ReadBack {
  import opened Wrappers
  import opened Bytes
  import opened Crypto
  import opened Scan
  import opened Plist
  import opened Entries
  import opened Items
  import opened Numbers
  import opened KeyWrap
  import opened Unlock
  import opened Context
  import opened Rendered
  import opened Plan
  import opened Spelling
  import Base64
  import Uuid

  /** Text free of markup, the two property lists with `gap` between them, and anything after. */
  function Printed(c: Cipher, p: Plan, t: seq<byte>, gap: seq<byte>, tail: seq<byte>): seq<byte> {
    t + (Print(AllItems(c, p, gap)) + tail)
  }

  /** The same bytes, letter by letter. */
  lemma PrintedLetters(c: Cipher, p: Plan, t: seq<byte>, gap: seq<byte>, tail: seq<byte>)
    ensures t + (ContextLetters(c, p) + gap + (LvLetters(p) + tail)) == Printed(c, p, t, gap, tail)
  {
    hide ContextItems, LvItems, ContextLetters, LvLetters, Print;
    ContextSpelled(c, p, gap);
    LvSpelled(p);
    PrintConcat(ContextItems(c, p, gap), LvItems(p));
    Assoc(ContextLetters(c, p) + gap, LvLetters(p), tail);
  }

  lemma ContextAt(c: Cipher, p: Plan, gap: seq<byte>)
    ensures var items := AllItems(c, p, gap);
            && |items| == 19
            && items[5] == Tagged(PASSPHRASE_STRUCT, Data, "\"4\"", Base64.Encode(PassphraseBlob(c, p)))
            && items[6] == Tagged(USER_TYPE, Integer, " size=\"32\" ID=\"5\"", HEX_PREFIX + Digits(p.userType, 16))
            && items[7] == Tagged(BLOCK_ALGORITHM, Text, "\"6\"", AES_XTS)
            && items[8] == Tagged(KEK_STRUCT, Data, "\"7\"", Base64.Encode(KeyBlob(c, p)))
            && items[11] == Tagged(CONVERSION_STATUS, Text, "\"8\"", p.status)
            && items[18] == Bare("/dict", [])
  {
    hide Base64.Encode, PassphraseBlob, KeyBlob, Tagged, Bare, Digits;
  }

  lemma LvAt(c: Cipher, p: Plan, gap: seq<byte>)
    ensures var items := AllItems(c, p, gap);
            && |items| == 19
            && items[14] == Tagged(FAMILY_UUID, Text, "\"1\"", Uuid.Format(p.family))
            && items[15] == Tagged(LV_NAME, Text, "\"2\"", p.name)
            && items[16] == Tagged(LV_UUID, Text, "\"3\"", p.identifier)
            && items[17] == Tagged(LV_SIZE, Integer, " size=\"64\" ID=\"4\"", HEX_PREFIX + Digits(p.size, 16))
  {
    hide Base64.Encode, PassphraseBlob, KeyBlob, Tagged, Bare, Digits;
  }

  /** The scan for the name of item `i` finds item `i`, and leaves the items after it. */
  lemma Spot(c: Cipher, p: Plan, t: seq<byte>, gap: seq<byte>, tail: seq<byte>, i: nat,
             name: seq<byte>, kind: Kind, attributes: string, text: seq<byte>)
    requires TextsOk(p) && LT !in t && LT !in gap
    requires var items := AllItems(c, p, gap);
             && i < |items| && items[i] == Tagged(name, kind, attributes, text)
             && forall j :: 0 <= j < i ==> !Carries(items[j], name)
    ensures var m, items := Printed(c, p, t, gap, tail), AllItems(c, p, gap);
            var end := |t| + |Print(items[..i + 1])|;
            && ExtractTaggedFrom(m, name, kind.Open(), kind.Close(), 0) == Some(Match(text, end))
            && end <= |m| && m[end..] == Print(items[i + 1..]) + tail
  {
    hide ExtractTaggedFrom, AllItems, Print, ItemsOk, Kind.Open, Kind.Close, TextsOk, Carries, Ascii, Kind.Opening;
    AllItemsOk(c, p, gap);
    FindItem(t, AllItems(c, p, gap), tail, i);
  }

  /** In the context list a key is identified by its length. */
  lemma SpotContext(c: Cipher, p: Plan, t: seq<byte>, gap: seq<byte>, tail: seq<byte>, i: nat,
                    name: seq<byte>, kind: Kind, attributes: string, text: seq<byte>)
    requires TextsOk(p) && LT !in t && LT !in gap && i in {5, 6, 7, 8, 11, 14, 15}
    requires var items := AllItems(c, p, gap);
             |items| == 19 && items[i] == Tagged(name, kind, attributes, text)
    ensures var m, items := Printed(c, p, t, gap, tail), AllItems(c, p, gap);
            var end := |t| + |Print(items[..i + 1])|;
            && ExtractTaggedFrom(m, name, kind.Open(), kind.Close(), 0) == Some(Match(text, end))
            && end <= |m| && m[end..] == Print(items[i + 1..]) + tail
  {
    hide ExtractTaggedFrom, AllItems, Print, Printed, Kind.Open, Kind.Close, TextsOk, Carries, Ascii;
    AllKeys(c, p, gap);
    DistinctLengths(i);
    Uncarried(AllItems(c, p, gap), name, i);
    Spot(c, p, t, gap, tail, i, name, kind, attributes, text);
  }

  lemma DistinctLengths(i: nat)
    requires i in {5, 6, 7, 8, 11, 14, 15}
    ensures var ks := CONTEXT_KEYS + LV_KEYS; |ks| == 19 && forall j :: 0 <= j < i ==> ks[j] != ks[i]
  {
  }

  lemma PassphraseRead(c: Cipher, p: Plan, t: seq<byte>, gap: seq<byte>, tail: seq<byte>)
    requires TextsOk(p) && LT !in t && LT !in gap
    ensures ExtractData(Printed(c, p, t, gap, tail), PASSPHRASE_STRUCT) == Some(PassphraseBlob(c, p))
  {
    hide ExtractTaggedFrom, AllItems, Printed, DecodeBlob, Base64.Encode, PassphraseBlob, TextsOk, Ascii;
    ContextAt(c, p, gap);
    SpotContext(c, p, t, gap, tail, 5, PASSPHRASE_STRUCT, Data, "\"4\"", Base64.Encode(PassphraseBlob(c, p)));
    BlobTexts(c, p);
  }

  lemma StatusRead(c: Cipher, p: Plan, t: seq<byte>, gap: seq<byte>, tail: seq<byte>)
    requires TextsOk(p) && LT !in t && LT !in gap
    ensures ExtractString(Printed(c, p, t, gap, tail), CONVERSION_STATUS) == Some(p.status)
  {
    hide ExtractTaggedFrom, AllItems, Printed, Ascii;
    ContextAt(c, p, gap);
    SpotContext(c, p, t, gap, tail, 11, CONVERSION_STATUS, Text, "\"8\"", p.status);
  }

  lemma FamilyRead(c: Cipher, p: Plan, t: seq<byte>, gap: seq<byte>, tail: seq<byte>)
    requires TextsOk(p) && LT !in t && LT !in gap
    ensures ExtractString(Printed(c, p, t, gap, tail), FAMILY_UUID) == Some(Uuid.Format(p.family))
  {
    hide ExtractTaggedFrom, AllItems, Printed, Ascii, Uuid.Format, Utf8;
    LvAt(c, p, gap);
    SpotContext(c, p, t, gap, tail, 14, FAMILY_UUID, Text, "\"1\"", Uuid.Format(p.family));
    Uuid.FormatShape(p.family);
    AsciiIsUtf8(Uuid.Format(p.family));
  }

  lemma NameRead(c: Cipher, p: Plan, t: seq<byte>, gap: seq<byte>, tail: seq<byte>)
    requires TextsOk(p) && LT !in t && LT !in gap
    ensures ExtractString(Printed(c, p, t, gap, tail), LV_NAME) == Some(p.name)
  {
    hide ExtractTaggedFrom, AllItems, Printed, Ascii;
    LvAt(c, p, gap);
    SpotContext(c, p, t, gap, tail, 15, LV_NAME, Text, "\"2\"", p.name);
  }

  /** The keys of the logical-volume list that share their length are told apart by their text. */
  lemma EarlierKeys(c: Cipher, p: Plan, gap: seq<byte>)
    ensures var items := AllItems(c, p, gap);
            && |items| == 19
            && (forall j :: 0 <= j < 16 ==> !Carries(items[j], LV_UUID))
            && (forall j :: 0 <= j < 17 ==> !Carries(items[j], LV_SIZE))
  {
    hide AllItems, Ascii, Carries, Kind.Opening;
    AllKeys(c, p, gap);
    LvKeys(p);
    DistinctLengths(15);
    LvAt(c, p, gap);
    var items := AllItems(c, p, gap);
    assert |LV_UUID| == 29 && |LV_SIZE| == 29 && (CONTEXT_KEYS + LV_KEYS)[15] == 29;
    Uncarried(items, LV_UUID, 15);
    Uncarried(items, LV_SIZE, 15);
    OtherName(items[15], LV_UUID);
    OtherName(items[15], LV_SIZE);
    OtherName(items[16], LV_SIZE);
  }

  lemma OtherName(i: Item, name: seq<byte>)
    requires i.Value? && i.entry.name != name
    ensures !Carries(i, name)
  {
  }

  lemma IdentifierRead(c: Cipher, p: Plan, t: seq<byte>, gap: seq<byte>, tail: seq<byte>)
    requires TextsOk(p) && LT !in t && LT !in gap
    ensures ExtractString(Printed(c, p, t, gap, tail), LV_UUID) == Some(p.identifier)
  {
    hide ExtractTaggedFrom, AllItems, Printed, Ascii, Carries;
    LvAt(c, p, gap);
    EarlierKeys(c, p, gap);
    Spot(c, p, t, gap, tail, 16, LV_UUID, Text, "\"3\"", p.identifier);
  }

  lemma SizeRead(c: Cipher, p: Plan, t: seq<byte>, gap: seq<byte>, tail: seq<byte>)
    requires TextsOk(p) && LT !in t && LT !in gap
    ensures LvSizeOf(Printed(c, p, t, gap, tail)) == p.size
  {
    hide ExtractTaggedFrom, AllItems, Printed, Ascii, Carries, ParseInteger, Digits, TextsOk;
    LvAt(c, p, gap);
    EarlierKeys(c, p, gap);
    Spot(c, p, t, gap, tail, 17, LV_SIZE, Integer, " size=\"64\" ID=\"4\"", HEX_PREFIX + Digits(p.size, 16));
    IntegerRoundTrip(p.size, TWO_64);
  }

  /** The logical-volume record is read back field by field from the letters of the two property lists. */
  lemma LvRead(c: Cipher, p: Plan, t: seq<byte>, gap: seq<byte>, tail: seq<byte>)
    requires TextsOk(p) && LT !in t && LT !in gap
    ensures LvInfoOf(t + (ContextLetters(c, p) + gap + (LvLetters(p) + tail)))
         == Ok(LvInfo(p.size, Uuid.Format(p.family), Some(p.identifier), Some(p.name)))
  {
    hide ExtractString, LvSizeOf, Printed, TextsOk, Uuid.Format, Ascii, ContextLetters, LvLetters;
    PrintedLetters(c, p, t, gap, tail);
    FamilyRead(c, p, t, gap, tail);
    SizeRead(c, p, t, gap, tail);
    IdentifierRead(c, p, t, gap, tail);
    NameRead(c, p, t, gap, tail);
  }

  lemma FirstIsXts(ms: seq<Match>)
    requires ms != [] && ms[0].text == AES_XTS
    ensures FirstXts(ms) == Some(ms[0])
  {
  }

  lemma VolumeKeyRead(c: Cipher, p: Plan, t: seq<byte>, gap: seq<byte>, tail: seq<byte>)
    requires TextsOk(p) && LT !in t && LT !in gap
    ensures KekWrapped(Printed(c, p, t, gap, tail)) == Some(KeyBlob(c, p))
  {
    hide ExtractTaggedFrom, AllItems, Printed, DecodeBlob, Base64.Encode, KeyBlob, TextsOk, Ascii, FirstXts, Print, ItemsOk, Carries;
    var m, items := Printed(c, p, t, gap, tail), AllItems(c, p, gap);
    ContextAt(c, p, gap);
    SpotContext(c, p, t, gap, tail, 7, BLOCK_ALGORITHM, Text, "\"6\"", AES_XTS);
    MatchesUnfold(m, BLOCK_ALGORITHM, Text, 0);
    FirstIsXts(AlgorithmMatches(m, 0));
    AllItemsOk(c, p, gap);
    DroppedOk(items, 8);
    FindItem([], items[8..], tail, 0);
    assert [] + (Print(items[8..]) + tail) == Print(items[8..]) + tail;
    BlobTexts(c, p);
  }

  lemma DroppedOk(items: seq<Item>, k: nat)
    requires ItemsOk(items) && k <= |items|
    ensures ItemsOk(items[k..])
  {
  }

  lemma LastNode(items: seq<Item>, tail: seq<byte>)
    requires items != [] && items[|items| - 1].Loose? && items[|items| - 1].node.tag != KEY
    ensures Sealed(AllNodes(items), tail)
  {
    var n := |items| - 1;
    assert items == items[..n] + [items[n]];
    AllNodesConcat(items[..n], [items[n]]);
    assert AllNodes([items[n]]) == [items[n].node] + AllNodes([]);
  }

  lemma NoMoreUsers(c: Cipher, p: Plan, gap: seq<byte>, tail: seq<byte>)
    requires TextsOk(p) && LT !in gap && FindSub(tail, KeyTag(USER_TYPE)) == None
    ensures |AllItems(c, p, gap)| == 19
    ensures ExtractTaggedFrom(Print(AllItems(c, p, gap)[7..]) + tail, USER_TYPE, Integer.Open(), Integer.Close(), 0) == None
  {
    hide ExtractTaggedFrom, AllItems, TextsOk, Ascii, Print, ItemsOk, Carries, FindSub, Sealed;
    var items := AllItems(c, p, gap);
    ContextAt(c, p, gap);
    AllKeys(c, p, gap);
    AllItemsOk(c, p, gap);
    DroppedOk(items, 7);
    assert |USER_TYPE| == 8;
    LaterLengths();
    Uncarried(items[7..], USER_TYPE, 12);
    ContextNames();
    assert |KEY| == 3;
    LastNode(items[7..], tail);
    FindNoItem([], items[7..], tail, USER_TYPE, Integer);
    assert [] + (Print(items[7..]) + tail) == Print(items[7..]) + tail;
  }

  lemma LaterLengths()
    ensures var ks := CONTEXT_KEYS + LV_KEYS; |ks| == 19 && forall j :: 7 <= j < 19 ==> ks[j] != 8
  {
  }

  lemma OneUser(m: seq<byte>, text: seq<byte>, end: nat, v: nat)
    requires ExtractTaggedFrom(m, USER_TYPE, Integer.Open(), Integer.Close(), 0) == Some(Match(text, end))
    requires ParseInteger(text, TWO_32) == Some(v)
    requires ExtractTaggedFrom(m, USER_TYPE, Integer.Open(), Integer.Close(), end) == None
    ensures Protectors(m) == [Classify(v)]
  {
    hide ExtractTaggedFrom, ParseInteger, UserTypeMatches, Classify, Values;
    ValuesStep(m, end);
    ValuesStep(m, 0);
    assert Values(UserTypeMatches(m, 0)) == [v];
  }

  /** The one UserType entry is found, and no other after it. */
  lemma UserSpot(c: Cipher, p: Plan, t: seq<byte>, gap: seq<byte>, tail: seq<byte>) returns (end: nat)
    requires TextsOk(p) && LT !in t && LT !in gap && FindSub(tail, KeyTag(USER_TYPE)) == None
    ensures var m := Printed(c, p, t, gap, tail);
            && ExtractTaggedFrom(m, USER_TYPE, Integer.Open(), Integer.Close(), 0)
               == Some(Match(HEX_PREFIX + Digits(p.userType, 16), end))
            && ExtractTaggedFrom(m, USER_TYPE, Integer.Open(), Integer.Close(), end) == None
  {
    hide ExtractTaggedFrom, AllItems, Printed, TextsOk, Ascii, Print, FindSub, Digits, Kind.Open, Kind.Close, Tagged, KeyTag;
    var m := Printed(c, p, t, gap, tail);
    ContextAt(c, p, gap);
    SpotContext(c, p, t, gap, tail, 6, USER_TYPE, Integer, " size=\"32\" ID=\"5\"", HEX_PREFIX + Digits(p.userType, 16));
    NoMoreUsers(c, p, gap, tail);
    end := |t| + |Print(AllItems(c, p, gap)[..7])|;
    ExtractShift(m, USER_TYPE, Integer.Open(), Integer.Close(), end);
  }

  lemma UsersRead(c: Cipher, p: Plan, t: seq<byte>, gap: seq<byte>, tail: seq<byte>)
    requires TextsOk(p) && LT !in t && LT !in gap && FindSub(tail, KeyTag(USER_TYPE)) == None
    ensures Protectors(Printed(c, p, t, gap, tail)) == [Classify(p.userType)]
  {
    hide ExtractTaggedFrom, Printed, TextsOk, Ascii, FindSub, ParseInteger, Digits, Protectors, Kind.Open, Kind.Close, KeyTag;
    IntegerRoundTrip(p.userType, TWO_32);
    var end := UserSpot(c, p, t, gap, tail);
    OneUser(Printed(c, p, t, gap, tail), HEX_PREFIX + Digits(p.userType, 16), end, p.userType);
  }

  lemma PassphraseBlobFields(c: Cipher, p: Plan)
    ensures PassphraseFields(PassphraseBlob(c, p))
         == Ok((p.salt, Wrap(c, c.kdf(p.password, p.salt, p.iterations), p.kek), p.iterations))
  {
    hide Wrap, LeBytes;
    var b := PassphraseBlob(c, p);
    assert b[8..24] == p.salt;
    assert b[32..56] == Wrap(c, c.kdf(p.password, p.salt, p.iterations), p.kek);
    assert b[168..172] == LeBytes(p.iterations, 4);
    FieldRoundTrip(p.iterations);
  }

  lemma FieldRoundTrip(v: u32)
    ensures LeU32(LeBytes(v, 4), 0) == v
  {
    Widths();
    LeRoundTrip(v, 4);
    assert LeBytes(v, 4)[0..4] == LeBytes(v, 4);
  }

  lemma KeyBlobField(c: Cipher, p: Plan)
    ensures VmkField(KeyBlob(c, p)) == Ok(Wrap(c, p.kek, p.vmk))
  {
    hide Wrap;
    assert KeyBlob(c, p)[8..32] == Wrap(c, p.kek, p.vmk);
  }

  lemma UserTypeKey()
    ensures KeyTag(USER_TYPE) == Ascii("<key>UserType</key>")
  {
    hide Ascii;
    KeyMarks();
    AsciiConcat("<key>", "UserType");
    AsciiConcat("<key>" + "UserType", "</key>");
    assert "<key>" + "UserType" + "</key>" == "<key>UserType</key>";
  }

  lemma UserTypeKeyShape()
    ensures |KeyTag(USER_TYPE)| == 19 && 0 !in KeyTag(USER_TYPE)
  {
    assert USER_TYPE == [85, 115, 101, 114, 84, 121, 112, 101];
    assert KEY == [107, 101, 121] && END_KEY == [47, 107, 101, 121];
  }

  function PlannedKeys(c: Cipher, p: Plan): KeyMaterial {
    KeyMaterial(p.salt, p.iterations, Wrap(c, c.kdf(p.password, p.salt, p.iterations), p.kek), Wrap(c, p.kek, p.vmk))
  }

  /** The encryption context is read back from the letters of the two property lists: key material, protectors and
      conversion status. */
  lemma ContextRead(c: Cipher, p: Plan, t: seq<byte>, gap: seq<byte>, tail: seq<byte>)
    requires TextsOk(p) && LT !in t && LT !in gap && FindSub(tail, Ascii("<key>UserType</key>")) == None
    ensures ContextOf(t + (ContextLetters(c, p) + gap + (LvLetters(p) + tail)))
         == Ok(EncryptionContext(PlannedKeys(c, p), [Classify(p.userType)], Some(p.status)))
  {
    hide ExtractData, ExtractString, KekWrapped, Protectors, Printed, PassphraseFields, VmkField, Wrap, Ascii, TextsOk,
      PassphraseBlob, KeyBlob, Classify, ContextLetters, LvLetters;
    PrintedLetters(c, p, t, gap, tail);
    PassphraseRead(c, p, t, gap, tail);
    PassphraseBlobFields(c, p);
    VolumeKeyRead(c, p, t, gap, tail);
    KeyBlobField(c, p);
    UserTypeKey();
    UsersRead(c, p, t, gap, tail);
    StatusRead(c, p, t, gap, tail);
  }
}
