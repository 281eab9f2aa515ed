/** The two property lists of core/src/test_support.rs, letter by letter, and the proof that the items of a plan print
    exactly them. */
module Spelling {
  import opened Bytes
  import opened Crypto
  import opened Scan
  import opened Plist
  import opened Entries
  import opened Items
  import opened Numbers
  import opened Context
  import opened Plan
  import Base64
  import Uuid

  /** The encryption-context property list up to the end of its one crypto user's entries. */
  function UserLetters(c: Cipher, p: Plan): seq<byte> {
    Ascii("<dict ID=\"0\">") + Ascii("<key>CryptoUsers</key>") + Ascii("<array ID=\"2\">") + Ascii("<dict ID=\"3\">")
    + (Ascii("<key>") + Ascii("PassphraseWrappedKEKStruct") + Ascii("</key><data ID=\"4\">")
       + Base64.Encode(PassphraseBlob(c, p)) + Ascii("</data>"))
    + (Ascii("<key>") + Ascii("UserType") + Ascii("</key><integer size=\"32\" ID=\"5\">")
       + (Ascii("0x") + Digits(p.userType, 16)) + Ascii("</integer>"))
    + (Ascii("<key>") + Ascii("BlockAlgorithm") + Ascii("</key><string ID=\"6\">") + Ascii("AES-XTS") + Ascii("</string>"))
    + (Ascii("<key>") + Ascii("KEKWrappedVolumeKeyStruct") + Ascii("</key><data ID=\"7\">")
       + Base64.Encode(KeyBlob(c, p)) + Ascii("</data>"))
  }

  /** The encryption-context property list. */
  function ContextLetters(c: Cipher, p: Plan): seq<byte> {
    UserLetters(c, p) + Ascii("</dict>") + Ascii("</array>")
    + (Ascii("<key>") + Ascii("ConversionStatus") + Ascii("</key><string ID=\"8\">") + p.status + Ascii("</string>"))
    + Ascii("</dict>")
  }

  /** The logical-volume property list. */
  function LvLetters(p: Plan): seq<byte> {
    Ascii("<dict ID=\"0\">")
    + (Ascii("<key>") + Ascii("com.apple.corestorage.lv.familyUUID") + Ascii("</key><string ID=\"1\">")
       + Uuid.Format(p.family) + Ascii("</string>"))
    + (Ascii("<key>") + Ascii("com.apple.corestorage.lv.name") + Ascii("</key><string ID=\"2\">") + p.name + Ascii("</string>"))
    + (Ascii("<key>") + Ascii("com.apple.corestorage.lv.uuid") + Ascii("</key><string ID=\"3\">") + p.identifier + Ascii("</string>"))
    + (Ascii("<key>") + Ascii("com.apple.corestorage.lv.size") + Ascii("</key><integer size=\"64\" ID=\"4\">")
       + (Ascii("0x") + Digits(p.size, 16)) + Ascii("</integer>"))
    + Ascii("</dict>")
  }

  lemma AsciiConcat(a: string, b: string)
    ensures Ascii(a + b) == Ascii(a) + Ascii(b)
  {
  }

  lemma KeyMarks()
    ensures Tag(KEY) == Ascii("<key>") && Tag(END_KEY) == Ascii("</key>")
    ensures [LT] == Ascii("<") && [GT] == Ascii(">")
  {
  }

  lemma TagText(a: seq<byte>, s: string)
    requires a == Ascii(s)
    ensures Tag(a) == Ascii("<" + s + ">")
  {
    KeyMarks();
    AsciiConcat("<", s);
    AsciiConcat("<" + s, ">");
  }

  /** The tag of an entry, in letters. */
  lemma EntryTag(kind: Kind, opening: string, attributes: string, tag: string)
    requires kind.Opening() == Ascii(opening) && tag == "</key>" + ("<" + (opening + attributes) + ">")
    ensures Tag(END_KEY) + Tag(kind.Opening() + Ascii(attributes)) == Ascii(tag)
  {
    hide Tag, Kind.Opening, Ascii;
    KeyMarks();
    AsciiConcat(opening, attributes);
    TagText(Ascii(opening + attributes), opening + attributes);
    AsciiConcat("</key>", "<" + (opening + attributes) + ">");
  }

  /** An entry prints as its key, its tag, its text and its end, in letters. */
  lemma Spelled(items: seq<Item>, k: nat, name: string, kind: Kind, opening: string, attributes: string, text: seq<byte>,
                tag: string, end: string)
    requires k < |items| && items[k] == Tagged(Ascii(name), kind, attributes, text)
    requires kind.Opening() == Ascii(opening) && kind.Close() == Ascii(end)
    requires tag == "</key>" + ("<" + (opening + attributes) + ">")
    ensures Print(items[..k + 1])
         == Print(items[..k]) + (Ascii("<key>") + Ascii(name) + Ascii(tag) + text + Ascii(end))
  {
    hide Kind.Opening, Kind.Close, Ascii, Shown, Print;
    PrintOne(items, k);
    EntrySpelled(items[k].entry, name, tag, end) by { EntryTag(kind, opening, attributes, tag); }
  }

  lemma EntrySpelled(e: Entry, name: string, tag: string, end: string)
    requires e.name == Ascii(name) && Tag(END_KEY) + Tag(e.tag) == Ascii(tag) && e.kind.Close() == Ascii(end)
    ensures Shown(e) == Ascii("<key>") + Ascii(name) + Ascii(tag) + e.text + Ascii(end)
  {
    hide Tag, Kind.Close, Ascii, Shown;
    ShownText(e);
    KeyMarks();
    Assoc(Ascii("<key>") + Ascii(name), Tag(END_KEY), Tag(e.tag));
  }

  lemma DataTags()
    ensures Data.Opening() == Ascii("data ID=") && Data.Close() == Ascii("</data>")
  {
    CloseText(Data, "data");
  }

  lemma TextTags()
    ensures Text.Opening() == Ascii("string ID=") && Text.Close() == Ascii("</string>")
  {
    CloseText(Text, "string");
  }

  lemma IntegerTags()
    ensures Integer.Opening() == Ascii("integer") && Integer.Close() == Ascii("</integer>")
  {
    CloseText(Integer, "integer");
  }

  lemma HexMark()
    ensures HEX_PREFIX == Ascii("0x")
  {
  }

  lemma CloseText(kind: Kind, name: string)
    requires kind.Name() == Ascii(name)
    ensures kind.Close() == Ascii("</" + name + ">")
  {
    hide Kind.Name;
    AsciiConcat("/", name);
    assert kind.Closing() == Ascii("/" + name);
    TagText(kind.Closing(), "/" + name);
    assert "<" + ("/" + name) + ">" == "</" + name + ">";
  }

  lemma PassphraseTag()
    ensures "</key><data ID=\"4\">" == "</key>" + ("<" + ("data ID=" + "\"4\"") + ">")
  {
  }

  lemma PassphraseSpelled(items: seq<Item>, k: nat, text: seq<byte>)
    requires k < |items| && items[k] == Tagged(PASSPHRASE_STRUCT, Data, "\"4\"", text)
    ensures Print(items[..k + 1]) == Print(items[..k])
         + (Ascii("<key>") + Ascii("PassphraseWrappedKEKStruct") + Ascii("</key><data ID=\"4\">") + text + Ascii("</data>"))
  {
    hide Print, Ascii, Tagged, Kind.Opening, Kind.Close;
    DataTags();
    PassphraseTag();
    Spelled(items, k, "PassphraseWrappedKEKStruct", Data, "data ID=", "\"4\"", text, "</key><data ID=\"4\">", "</data>");
  }

  lemma UserTypeTag()
    ensures "</key><integer size=\"32\" ID=\"5\">" == "</key>" + ("<" + ("integer" + " size=\"32\" ID=\"5\"") + ">")
  {
  }

  lemma UserTypeSpelled(items: seq<Item>, k: nat, text: seq<byte>)
    requires k < |items| && items[k] == Tagged(USER_TYPE, Integer, " size=\"32\" ID=\"5\"", text)
    ensures Print(items[..k + 1]) == Print(items[..k])
         + (Ascii("<key>") + Ascii("UserType") + Ascii("</key><integer size=\"32\" ID=\"5\">") + text + Ascii("</integer>"))
  {
    hide Print, Ascii, Tagged, Kind.Opening, Kind.Close;
    IntegerTags();
    UserTypeTag();
    Spelled(items, k, "UserType", Integer, "integer", " size=\"32\" ID=\"5\"", text, "</key><integer size=\"32\" ID=\"5\">", "</integer>");
  }

  lemma AlgorithmTag()
    ensures "</key><string ID=\"6\">" == "</key>" + ("<" + ("string ID=" + "\"6\"") + ">")
  {
  }

  lemma AlgorithmSpelled(items: seq<Item>, k: nat, text: seq<byte>)
    requires k < |items| && items[k] == Tagged(BLOCK_ALGORITHM, Text, "\"6\"", text)
    ensures Print(items[..k + 1]) == Print(items[..k])
         + (Ascii("<key>") + Ascii("BlockAlgorithm") + Ascii("</key><string ID=\"6\">") + text + Ascii("</string>"))
  {
    hide Print, Ascii, Tagged, Kind.Opening, Kind.Close;
    TextTags();
    AlgorithmTag();
    Spelled(items, k, "BlockAlgorithm", Text, "string ID=", "\"6\"", text, "</key><string ID=\"6\">", "</string>");
  }

  lemma VolumeKeyTag()
    ensures "</key><data ID=\"7\">" == "</key>" + ("<" + ("data ID=" + "\"7\"") + ">")
  {
  }

  lemma VolumeKeySpelled(items: seq<Item>, k: nat, text: seq<byte>)
    requires k < |items| && items[k] == Tagged(KEK_STRUCT, Data, "\"7\"", text)
    ensures Print(items[..k + 1]) == Print(items[..k])
         + (Ascii("<key>") + Ascii("KEKWrappedVolumeKeyStruct") + Ascii("</key><data ID=\"7\">") + text + Ascii("</data>"))
  {
    hide Print, Ascii, Tagged, Kind.Opening, Kind.Close;
    DataTags();
    VolumeKeyTag();
    Spelled(items, k, "KEKWrappedVolumeKeyStruct", Data, "data ID=", "\"7\"", text, "</key><data ID=\"7\">", "</data>");
  }

  lemma StatusTag()
    ensures "</key><string ID=\"8\">" == "</key>" + ("<" + ("string ID=" + "\"8\"") + ">")
  {
  }

  lemma StatusSpelled(items: seq<Item>, k: nat, text: seq<byte>)
    requires k < |items| && items[k] == Tagged(CONVERSION_STATUS, Text, "\"8\"", text)
    ensures Print(items[..k + 1]) == Print(items[..k])
         + (Ascii("<key>") + Ascii("ConversionStatus") + Ascii("</key><string ID=\"8\">") + text + Ascii("</string>"))
  {
    hide Print, Ascii, Tagged, Kind.Opening, Kind.Close;
    TextTags();
    StatusTag();
    Spelled(items, k, "ConversionStatus", Text, "string ID=", "\"8\"", text, "</key><string ID=\"8\">", "</string>");
  }

  lemma FamilyTag()
    ensures "</key><string ID=\"1\">" == "</key>" + ("<" + ("string ID=" + "\"1\"") + ">")
  {
  }

  lemma FamilySpelled(items: seq<Item>, k: nat, text: seq<byte>)
    requires k < |items| && items[k] == Tagged(FAMILY_UUID, Text, "\"1\"", text)
    ensures Print(items[..k + 1]) == Print(items[..k])
         + (Ascii("<key>") + Ascii("com.apple.corestorage.lv.familyUUID") + Ascii("</key><string ID=\"1\">") + text + Ascii("</string>"))
  {
    hide Print, Ascii, Tagged, Kind.Opening, Kind.Close;
    TextTags();
    FamilyTag();
    Spelled(items, k, "com.apple.corestorage.lv.familyUUID", Text, "string ID=", "\"1\"", text, "</key><string ID=\"1\">", "</string>");
  }

  lemma NameTag()
    ensures "</key><string ID=\"2\">" == "</key>" + ("<" + ("string ID=" + "\"2\"") + ">")
  {
  }

  lemma NameSpelled(items: seq<Item>, k: nat, text: seq<byte>)
    requires k < |items| && items[k] == Tagged(LV_NAME, Text, "\"2\"", text)
    ensures Print(items[..k + 1]) == Print(items[..k])
         + (Ascii("<key>") + Ascii("com.apple.corestorage.lv.name") + Ascii("</key><string ID=\"2\">") + text + Ascii("</string>"))
  {
    hide Print, Ascii, Tagged, Kind.Opening, Kind.Close;
    TextTags();
    NameTag();
    Spelled(items, k, "com.apple.corestorage.lv.name", Text, "string ID=", "\"2\"", text, "</key><string ID=\"2\">", "</string>");
  }

  lemma IdentifierTag()
    ensures "</key><string ID=\"3\">" == "</key>" + ("<" + ("string ID=" + "\"3\"") + ">")
  {
  }

  lemma IdentifierSpelled(items: seq<Item>, k: nat, text: seq<byte>)
    requires k < |items| && items[k] == Tagged(LV_UUID, Text, "\"3\"", text)
    ensures Print(items[..k + 1]) == Print(items[..k])
         + (Ascii("<key>") + Ascii("com.apple.corestorage.lv.uuid") + Ascii("</key><string ID=\"3\">") + text + Ascii("</string>"))
  {
    hide Print, Ascii, Tagged, Kind.Opening, Kind.Close;
    TextTags();
    IdentifierTag();
    Spelled(items, k, "com.apple.corestorage.lv.uuid", Text, "string ID=", "\"3\"", text, "</key><string ID=\"3\">", "</string>");
  }

  lemma SizeTag()
    ensures "</key><integer size=\"64\" ID=\"4\">" == "</key>" + ("<" + ("integer" + " size=\"64\" ID=\"4\"") + ">")
  {
  }

  lemma SizeSpelled(items: seq<Item>, k: nat, text: seq<byte>)
    requires k < |items| && items[k] == Tagged(LV_SIZE, Integer, " size=\"64\" ID=\"4\"", text)
    ensures Print(items[..k + 1]) == Print(items[..k])
         + (Ascii("<key>") + Ascii("com.apple.corestorage.lv.size") + Ascii("</key><integer size=\"64\" ID=\"4\">") + text + Ascii("</integer>"))
  {
    hide Print, Ascii, Tagged, Kind.Opening, Kind.Close;
    IntegerTags();
    SizeTag();
    Spelled(items, k, "com.apple.corestorage.lv.size", Integer, "integer", " size=\"64\" ID=\"4\"", text, "</key><integer size=\"64\" ID=\"4\">", "</integer>");
  }

  lemma PrintOne(items: seq<Item>, k: nat)
    requires k < |items|
    ensures Print(items[..k + 1]) == Print(items[..k]) + if items[k].Loose? then Source(items[k].node) else Shown(items[k].entry)
  {
    hide Render, Source;
    var i := items[k];
    assert items[..k + 1] == items[..k] + [i];
    PrintConcat(items[..k], [i]);
    AllNodesUnfold([i]);
    assert [i][1..] == [];
    NoItems();
    assert ItemNodes(i) + [] == ItemNodes(i);
    if i.Loose? { OneNode(i.node); }
  }

  lemma OneNode(n: Node)
    ensures Render([n]) == Source(n)
  {
    assert Render([n]) == Source(n) + Render([]);
  }

  lemma PrintBare(items: seq<Item>, k: nat, tag: string, text: seq<byte>, shown: string)
    requires k < |items| && items[k] == Bare(tag, text) && shown == "<" + tag + ">"
    ensures Print(items[..k + 1]) == Print(items[..k]) + Ascii(shown) + text
  {
    hide Print, Tag;
    PrintOne(items, k);
    TagText(Ascii(tag), tag);
    Assoc(Print(items[..k]), Ascii(shown), text);
  }

  lemma PrintMark(items: seq<Item>, k: nat, tag: string, shown: string)
    requires k < |items| && items[k] == Bare(tag, []) && shown == "<" + tag + ">"
    ensures Print(items[..k + 1]) == Print(items[..k]) + Ascii(shown)
  {
    hide Print, Ascii;
    PrintBare(items, k, tag, [], shown);
  }

  /** The first item starts the print. */
  lemma PrintFirst(items: seq<Item>, tag: string, shown: string)
    requires items != [] && items[0] == Bare(tag, []) && shown == "<" + tag + ">"
    ensures Print(items[..1]) == Ascii(shown)
  {
    hide Print, Ascii;
    assert items[..0] == [];
    NoItems();
    RenderNothing();
    PrintMark(items, 0, tag, shown);
    assert Print(items[..0]) == [] by { NothingPrinted(); }
  }

  lemma NothingPrinted()
    ensures Print([]) == []
  {
  }

  lemma BareTags()
    ensures "<dict ID=\"0\">" == "<" + "dict ID=\"0\"" + ">" && "<array ID=\"2\">" == "<" + "array ID=\"2\"" + ">"
    ensures "<dict ID=\"3\">" == "<" + "dict ID=\"3\"" + ">"
    ensures "</dict>" == "<" + "/dict" + ">" && "</array>" == "<" + "/array" + ">"
  {
  }

  /** The key that no scanner asks for. */
  lemma UsersSpelled(items: seq<Item>, k: nat)
    requires k + 2 <= |items| && items[k] == Loose(Node(KEY, CRYPTO_USERS)) && items[k + 1] == Loose(Node(END_KEY, []))
    ensures Print(items[..k + 2]) == Print(items[..k]) + Ascii("<key>CryptoUsers</key>")
  {
    hide Print, Tag, Ascii;
    PrintOne(items, k);
    PrintOne(items, k + 1);
    KeyMarks();
    AsciiConcat("<key>", "CryptoUsers");
    AsciiConcat("<key>" + "CryptoUsers", "</key>");
    UsersKey();
    var a, b, d := Ascii("<key>"), Ascii("CryptoUsers"), Ascii("</key>");
    assert Print(items[..k]) + (a + b) + (d + []) == Print(items[..k]) + (a + b + d);
  }

  lemma UsersKey()
    ensures "<key>CryptoUsers</key>" == "<key>" + "CryptoUsers" + "</key>"
  {
  }

  lemma HeadSpelled(c: Cipher, p: Plan, gap: seq<byte>)
    ensures |ContextItems(c, p, gap)| == 13
    ensures Print(ContextItems(c, p, gap)[..5])
         == Ascii("<dict ID=\"0\">") + Ascii("<key>CryptoUsers</key>") + Ascii("<array ID=\"2\">") + Ascii("<dict ID=\"3\">")
  {
    hide Print, Ascii, Tagged, Bare, PassphraseBlob, KeyBlob;
    var s := ContextItems(c, p, gap);
    BareTags();
    PrintFirst(s, "dict ID=\"0\"", "<dict ID=\"0\">");
    UsersSpelled(s, 1);
    PrintMark(s, 3, "array ID=\"2\"", "<array ID=\"2\">");
    PrintMark(s, 4, "dict ID=\"3\"", "<dict ID=\"3\">");
  }

  lemma UserSpelled(c: Cipher, p: Plan, gap: seq<byte>)
    ensures |ContextItems(c, p, gap)| == 13
    ensures Print(ContextItems(c, p, gap)[..9]) == UserLetters(c, p)
  {
    hide Print, Ascii, Tagged, Bare, Base64.Encode, PassphraseBlob, KeyBlob, Digits, Shown;
    var s := ContextItems(c, p, gap);
    HexMark();
    HeadSpelled(c, p, gap);
    PassphraseSpelled(s, 5, Base64.Encode(PassphraseBlob(c, p)));
    UserTypeSpelled(s, 6, HEX_PREFIX + Digits(p.userType, 16));
    AlgorithmSpelled(s, 7, AES_XTS);
    VolumeKeySpelled(s, 8, Base64.Encode(KeyBlob(c, p)));
  }

  /** The items of the context list print its text, with whatever follows its last tag. */
  lemma ContextSpelled(c: Cipher, p: Plan, gap: seq<byte>)
    ensures Print(ContextItems(c, p, gap)) == ContextLetters(c, p) + gap
  {
    hide Print, Ascii, Tagged, Bare, PassphraseBlob, KeyBlob, UserLetters;
    var s := ContextItems(c, p, gap);
    UserSpelled(c, p, gap);
    BareTags();
    PrintMark(s, 9, "/dict", "</dict>");
    PrintMark(s, 10, "/array", "</array>");
    StatusSpelled(s, 11, p.status);
    PrintBare(s, 12, "/dict", gap, "</dict>");
    assert s[..13] == s;
  }

  /** The items of the logical-volume list print its text. */
  lemma LvSpelled(p: Plan)
    ensures Print(LvItems(p)) == LvLetters(p)
  {
    hide Print, Ascii, Tagged, Bare, Digits, Uuid.Format, Shown;
    var s := LvItems(p);
    BareTags();
    HexMark();
    PrintFirst(s, "dict ID=\"0\"", "<dict ID=\"0\">");
    FamilySpelled(s, 1, Uuid.Format(p.family));
    NameSpelled(s, 2, p.name);
    IdentifierSpelled(s, 3, p.identifier);
    SizeSpelled(s, 4, HEX_PREFIX + Digits(p.size, 16));
    PrintMark(s, 5, "/dict", "</dict>");
    assert s[..6] == s;
  }
}
