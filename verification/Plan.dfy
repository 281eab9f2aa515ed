/** A synthetic volume, after core/src/test_support.rs with its constants turned into parameters: the
    property lists it prints and what the extractors read back from them. */
module Plan {
  import opened Wrappers
  import opened Bytes
  import opened Crypto
  import opened Scan
  import opened Plist
  import opened Entries
  import opened Items
  import opened Numbers
  import opened KeyWrap
  import opened Context
  import opened Rendered
  import opened Metadata
  import Uuid
  import Base64

  datatype Plan = Plan(
    password: seq<byte>, salt: Block, iterations: u32, kek: Block, vmk: Block,
    metadataKey: Block, pvId: Block, family: Block,
    userType: u32, status: seq<byte>, name: seq<byte>, identifier: seq<byte>, size: u64,
    segment: Segment, volumeIndex: u16,
    blockSize: u32, regionBlock: u64, metadataBlock: nat, metadataBlocks: nat,
    plaintext: seq<byte>)

  /** Salt at 8, wrapped KEK at 32, iterations at 168; 284 bytes. */
  function PassphraseBlob(c: Cipher, p: Plan): (b: seq<byte>)
    ensures |b| == 284
  {
    Zeros(8) + p.salt + Zeros(8) + Wrap(c, c.kdf(p.password, p.salt, p.iterations), p.kek)
    + Zeros(112) + LeBytes(p.iterations, 4) + Zeros(112)
  }

  /** Wrapped volume key at 8; 256 bytes. */
  function KeyBlob(c: Cipher, p: Plan): (b: seq<byte>)
    ensures |b| == 256
  {
    Zeros(8) + Wrap(c, p.kek, p.vmk) + Zeros(224)
  }

  /** An entry whose opening tag carries the given attributes. */
  function Tagged(name: seq<byte>, kind: Kind, attributes: string, text: seq<byte>): Item {
    Value(Entry(name, kind, kind.Opening() + Ascii(attributes), text))
  }

  function Bare(tag: string, text: seq<byte>): Item { Loose(Node(Ascii(tag), text)) }

  const CRYPTO_USERS: seq<byte> := Ascii("CryptoUsers")

  /** The encryption-context property list; `gap` is what stands between it and the next markup. */
  function ContextItems(c: Cipher, p: Plan, gap: seq<byte>): seq<Item> {
    [Bare("dict ID=\"0\"", []), Loose(Node(KEY, CRYPTO_USERS)), Loose(Node(END_KEY, [])),
     Bare("array ID=\"2\"", []), Bare("dict ID=\"3\"", []),
     Tagged(PASSPHRASE_STRUCT, Data, "\"4\"", Base64.Encode(PassphraseBlob(c, p))),
     Tagged(USER_TYPE, Integer, " size=\"32\" ID=\"5\"", HEX_PREFIX + Digits(p.userType, 16)),
     Tagged(BLOCK_ALGORITHM, Text, "\"6\"", AES_XTS),
     Tagged(KEK_STRUCT, Data, "\"7\"", Base64.Encode(KeyBlob(c, p))),
     Bare("/dict", []), Bare("/array", []),
     Tagged(CONVERSION_STATUS, Text, "\"8\"", p.status),
     Bare("/dict", gap)]
  }

  /** The logical-volume property list. */
  function LvItems(p: Plan): seq<Item> {
    [Bare("dict ID=\"0\"", []),
     Tagged(FAMILY_UUID, Text, "\"1\"", Uuid.Format(p.family)),
     Tagged(LV_NAME, Text, "\"2\"", p.name),
     Tagged(LV_UUID, Text, "\"3\"", p.identifier),
     Tagged(LV_SIZE, Integer, " size=\"64\" ID=\"4\"", HEX_PREFIX + Digits(p.size, 16)),
     Bare("/dict", [])]
  }

  /** Text that a string entry can hold. */
  predicate TextOk(s: seq<byte>) { LT !in s && Utf8(s) }

  predicate TextsOk(p: Plan) { TextOk(p.status) && TextOk(p.name) && TextOk(p.identifier) }

  predicate PlainText(s: string) {
    forall i :: 0 <= i < |s| ==> s[i] != '<' && s[i] != '>' && s[i] as int < 256
  }

  lemma PlainAscii(s: string)
    requires PlainText(s)
    ensures LT !in Ascii(s) && GT !in Ascii(s)
  {
    assert forall i :: 0 <= i < |Ascii(s)| ==> Ascii(s)[i] != LT && Ascii(s)[i] != GT;
  }

  lemma TaggedOk(name: seq<byte>, kind: Kind, attributes: string, text: seq<byte>)
    requires PlainText(attributes) && LT !in name && LT !in text
    ensures ItemOk(Tagged(name, kind, attributes, text)) && Opens(Tagged(name, kind, attributes, text).entry, kind)
  {
    KindTags(kind);
    NameOpens(kind);
    PlainAscii(attributes);
  }

  lemma BareOk(tag: string, text: seq<byte>)
    requires PlainText(tag) && LT !in text
    ensures ItemOk(Bare(tag, text))
  {
    PlainAscii(tag);
  }

  lemma HexText(v: nat)
    ensures LT !in HEX_PREFIX + Digits(v, 16)
  {
    DigitsShape(v, 16);
    assert HEX_PREFIX == [48, 120];
  }

  lemma BlobTexts(c: Cipher, p: Plan)
    ensures LT !in Base64.Encode(PassphraseBlob(c, p)) && DecodeBlob(Base64.Encode(PassphraseBlob(c, p))) == Some(PassphraseBlob(c, p))
    ensures LT !in Base64.Encode(KeyBlob(c, p)) && DecodeBlob(Base64.Encode(KeyBlob(c, p))) == Some(KeyBlob(c, p))
  {
    hide DecodeBlob, Base64.Encode, PassphraseBlob, KeyBlob;
    BlobRoundTrip(PassphraseBlob(c, p));
    BlobRoundTrip(KeyBlob(c, p));
  }

  lemma PlainKeys()
    ensures LT !in AES_XTS && LT !in CRYPTO_USERS
    ensures NodeOk(Node(KEY, CRYPTO_USERS)) && NodeOk(Node(END_KEY, []))
  {
    KindTags(Data);
    PlainAscii("AES-XTS");
    PlainAscii("CryptoUsers");
  }

  lemma Literals()
    ensures PlainText("dict ID=\"0\"") && PlainText("array ID=\"2\"") && PlainText("dict ID=\"3\"")
    ensures PlainText("/dict") && PlainText("/array")
  {
  }

  lemma IntegerAttributes()
    ensures PlainText(" size=\"32\" ID=\"5\"") && PlainText(" size=\"64\" ID=\"4\"")
  {
  }

  lemma Identifiers()
    ensures PlainText("\"1\"") && PlainText("\"2\"") && PlainText("\"3\"") && PlainText("\"4\"")
    ensures PlainText("\"6\"") && PlainText("\"7\"") && PlainText("\"8\"")
  {
  }

  lemma ContextItemsOk(c: Cipher, p: Plan, gap: seq<byte>)
    requires TextsOk(p) && LT !in gap
    ensures ItemsOk(ContextItems(c, p, gap))
  {
    hide ItemOk, Ascii, Base64.Encode, PassphraseBlob, KeyBlob, NodeOk, Digits, Utf8, PlainText, Tagged, Bare;
    Literals();
    IntegerAttributes();
    Identifiers();
    ContextNames();
    PlainKeys();
    BlobTexts(c, p);
    HexText(p.userType);
    BareOk("dict ID=\"0\"", []);
    BareOk("array ID=\"2\"", []);
    BareOk("dict ID=\"3\"", []);
    TaggedOk(PASSPHRASE_STRUCT, Data, "\"4\"", Base64.Encode(PassphraseBlob(c, p)));
    TaggedOk(USER_TYPE, Integer, " size=\"32\" ID=\"5\"", HEX_PREFIX + Digits(p.userType, 16));
    TaggedOk(BLOCK_ALGORITHM, Text, "\"6\"", AES_XTS);
    TaggedOk(KEK_STRUCT, Data, "\"7\"", Base64.Encode(KeyBlob(c, p)));
    BareOk("/dict", []);
    BareOk("/array", []);
    TaggedOk(CONVERSION_STATUS, Text, "\"8\"", p.status);
    BareOk("/dict", gap);
    LooseOk();
  }

  lemma LooseOk()
    ensures ItemOk(Loose(Node(KEY, CRYPTO_USERS))) && ItemOk(Loose(Node(END_KEY, [])))
  {
    PlainKeys();
  }

  lemma LvItemsOk(p: Plan)
    requires TextsOk(p)
    ensures ItemsOk(LvItems(p))
  {
    hide ItemOk, Ascii, Digits, Utf8, Uuid.Format, PlainText, Tagged, Bare;
    Literals();
    IntegerAttributes();
    Identifiers();
    LvNames();
    HexText(p.size);
    Uuid.FormatShape(p.family);
    BareOk("dict ID=\"0\"", []);
    TaggedOk(FAMILY_UUID, Text, "\"1\"", Uuid.Format(p.family));
    TaggedOk(LV_NAME, Text, "\"2\"", p.name);
    TaggedOk(LV_UUID, Text, "\"3\"", p.identifier);
    TaggedOk(LV_SIZE, Integer, " size=\"64\" ID=\"4\"", HEX_PREFIX + Digits(p.size, 16));
    BareOk("/dict", []);
  }

  /** The length of the key an item carries. */
  function KeyLength(i: Item): int {
    if i.Value? then |i.entry.name| else if i.node.tag == KEY then |i.node.text| else -1
  }

  predicate KeyLengths(items: seq<Item>, lengths: seq<int>) {
    |items| == |lengths| && forall i :: 0 <= i < |items| ==> KeyLength(items[i]) == lengths[i]
  }

  const CONTEXT_KEYS: seq<int> := [-1, 11, -1, -1, -1, 26, 8, 14, 25, -1, -1, 16, -1]
  const LV_KEYS: seq<int> := [-1, 35, 29, 29, 29, -1]

  lemma NoKey(tag: string, text: seq<byte>)
    requires |tag| != 3
    ensures KeyLength(Bare(tag, text)) == -1
  {
    assert |KEY| == 3;
  }

  lemma ContextKeys(c: Cipher, p: Plan, gap: seq<byte>)
    ensures KeyLengths(ContextItems(c, p, gap), CONTEXT_KEYS)
  {
    hide Base64.Encode, PassphraseBlob, KeyBlob, Bare, Digits, Kind.Opening;
    NoKey("dict ID=\"0\"", []);
    NoKey("array ID=\"2\"", []);
    NoKey("dict ID=\"3\"", []);
    NoKey("/dict", []);
    NoKey("/array", []);
    NoKey("/dict", gap);
    assert |KEY| == 3 && |END_KEY| == 4;
  }

  lemma LvKeys(p: Plan)
    ensures KeyLengths(LvItems(p), LV_KEYS)
    ensures LV_NAME != LV_UUID && LV_NAME != LV_SIZE && LV_UUID != LV_SIZE
  {
    hide Uuid.Format, Bare, Digits, Kind.Opening;
    NoKey("dict ID=\"0\"", []);
    NoKey("/dict", []);
    assert LV_NAME[25] == 110 && LV_UUID[25] == 117 && LV_SIZE[25] == 115;
  }

  /** Both property lists, one after the other. */
  function AllItems(c: Cipher, p: Plan, gap: seq<byte>): seq<Item> {
    ContextItems(c, p, gap) + LvItems(p)
  }

  lemma AllKeys(c: Cipher, p: Plan, gap: seq<byte>)
    ensures KeyLengths(AllItems(c, p, gap), CONTEXT_KEYS + LV_KEYS)
  {
    hide ContextItems, LvItems;
    ContextKeys(c, p, gap);
    LvKeys(p);
  }

  lemma AllItemsOk(c: Cipher, p: Plan, gap: seq<byte>)
    requires TextsOk(p) && LT !in gap
    ensures ItemsOk(AllItems(c, p, gap))
  {
    hide ContextItems, LvItems, ItemOk;
    ContextItemsOk(c, p, gap);
    LvItemsOk(p);
  }

  lemma Uncarried(items: seq<Item>, name: seq<byte>, i: nat)
    requires i <= |items| && forall j :: 0 <= j < i ==> KeyLength(items[j]) != |name|
    ensures forall j :: 0 <= j < i ==> !Carries(items[j], name)
  {
  }
}
