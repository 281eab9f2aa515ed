/** Entries `<key>N</key><type attrs>text</type>` of a property list, and how the scanner finds one among other markup. */
module Entries {
  import opened Wrappers
  import opened Bytes
  import opened Scan
  import opened Plist

  datatype Kind = Data | Text | Integer {
    function Name(): seq<byte> {
      match this
      case Data => Ascii("data")
      case Text => Ascii("string")
      case Integer => Ascii("integer")
    }
    /** What the scanner looks for after `<`. */
    function Opening(): seq<byte> {
      match this
      case Data => Ascii("data ID=")
      case Text => Ascii("string ID=")
      case Integer => Ascii("integer")
    }
    function Open(): seq<byte> { [LT] + Opening() }
    function Closing(): seq<byte> { [47] + Name() }
    function Close(): seq<byte> { Tag(Closing()) }
  }

  lemma KeyTags()
    ensures KEY[0] == 107 && |KEY| == 3 && LT !in KEY && GT !in KEY && LT !in END_KEY && GT !in END_KEY
  {
    assert KEY == [107, 101, 121] && END_KEY == [47, 107, 101, 121];
  }

  lemma OpeningTags(k: Kind)
    ensures LT !in k.Opening() && GT !in k.Opening() && k.Opening() != [] && k.Opening()[0] in {100, 115, 105}
  {
    var o := k.Opening();
    match k
    case Data => assert o == [100, 97, 116, 97, 32, 73, 68, 61];
    case Text => assert o == [115, 116, 114, 105, 110, 103, 32, 73, 68, 61];
    case Integer => assert o == [105, 110, 116, 101, 103, 101, 114];
  }

  /** The names and the openings of the three types start with three different letters. */
  lemma FirstLetters(k: Kind)
    ensures k.Name() != [] && k.Opening() != [] && k.Name()[0] == k.Opening()[0]
    ensures k.Name()[0] == match k case Data => 100 case Text => 115 case Integer => 105
  {
  }

  lemma NameOpens(k: Kind)
    ensures k.Name() <= k.Opening()
  {
    var n, o := k.Name(), k.Opening();
    match k
    case Data => assert n == [100, 97, 116, 97] && o == [100, 97, 116, 97, 32, 73, 68, 61];
    case Text => assert n == [115, 116, 114, 105, 110, 103] && o == [115, 116, 114, 105, 110, 103, 32, 73, 68, 61];
    case Integer =>
  }

  lemma ClosingTags(k: Kind)
    ensures LT !in k.Closing() && GT !in k.Closing() && |k.Closing()| >= 2 && k.Closing()[0] == 47
  {
    var c := k.Closing();
    match k
    case Data => assert c == [47, 100, 97, 116, 97];
    case Text => assert c == [47, 115, 116, 114, 105, 110, 103];
    case Integer => assert c == [47, 105, 110, 116, 101, 103, 101, 114];
  }

  lemma KindTags(k: Kind)
    ensures LT !in k.Opening() && GT !in k.Opening() && LT !in k.Closing() && GT !in k.Closing()
    ensures k.Opening() != [] && k.Opening()[0] != KEY[0]
    ensures k.Closing() != KEY && k.Closing()[0] == 47 && |k.Closing()| >= 2
    ensures KEY[0] != 47 && |KEY| == 3 && LT !in KEY && GT !in KEY && LT !in END_KEY && GT !in END_KEY
  {
    hide Ascii, Kind.Opening, Kind.Closing;
    KeyTags();
    OpeningTags(k);
    ClosingTags(k);
  }

  /** `tag` is the whole opening tag, type name and attributes. */
  datatype Entry = Entry(name: seq<byte>, kind: Kind, tag: seq<byte>, text: seq<byte>)

  /** The tag is the type's name with any attributes after it. */
  predicate EntryOk(e: Entry) {
    && LT !in e.name && LT !in e.text
    && e.kind.Name() <= e.tag && LT !in e.tag && GT !in e.tag
  }

  /** The scanner for a type takes the entry's tag for an opening: a data or string tag must have `ID` as its first
      attribute, an integer tag opens as it is. */
  predicate Opens(e: Entry, kind: Kind) {
    kind.Opening() <= e.tag
  }

  /** Only the scanner for its own type takes an entry's tag for an opening; no key and no closing tag is one. */
  lemma OpeningsDiffer(e: Entry, kind: Kind)
    requires EntryOk(e)
    ensures Opens(e, kind) ==> kind == e.kind
    ensures e.kind == Integer && kind == Integer ==> Opens(e, kind)
    ensures e.tag != KEY
    ensures !(kind.Opening() <= KEY) && !(kind.Opening() <= END_KEY) && !(kind.Opening() <= e.kind.Closing())
  {
    hide Ascii;
    FirstLetters(kind);
    FirstLetters(e.kind);
    KindTags(kind);
    KindTags(e.kind);
    SlashFirst();
  }

  lemma SlashFirst()
    ensures END_KEY != [] && END_KEY[0] == 47
  {
    assert END_KEY == [47, 107, 101, 121];
  }

  function NodesOf(e: Entry): seq<Node> {
    [Node(KEY, e.name), Node(END_KEY, []), Node(e.tag, e.text), Node(e.kind.Closing(), [])]
  }

  lemma {:induction false} KeyIndexAt(pre: seq<Node>, ns: seq<Node>, name: seq<byte>)
    requires Node(KEY, name) !in pre && IsKey(ns, name)
    ensures KeyIndex(pre + ns, name) == |pre|
  {
    if pre == [] {
      assert pre + ns == ns;
    } else {
      assert (pre + ns)[0] == pre[0] && (pre + ns)[1..] == pre[1..] + ns;
      KeyIndexAt(pre[1..], ns, name);
    }
  }

  lemma {:induction false} KeyIndexNone(ns: seq<Node>, name: seq<byte>)
    requires Node(KEY, name) !in ns
    ensures KeyIndex(ns, name) == |ns|
  {
    if ns != [] { KeyIndexNone(ns[1..], name); }
  }

  /** The node scan finds the first entry with the name. */
  lemma ScanEntry(pre: seq<Node>, e: Entry, post: seq<Node>)
    requires EntryOk(e) && Opens(e, e.kind) && Node(KEY, e.name) !in pre
    ensures ScanNodes(pre + (NodesOf(e) + post), e.name, e.kind.Opening(), e.kind.Closing())
         == Some(Found(e.text, |pre| + 3))
  {
    var ns := pre + (NodesOf(e) + post);
    KeyIndexAt(pre, NodesOf(e) + post, e.name);
    var rest := ns[|pre| + 2..];
    assert rest == [Node(e.tag, e.text), Node(e.kind.Closing(), [])] + post;
    assert rest[1..][0].tag == e.kind.Closing();
    assert rest[1..][..0] == [];
    assert e.text + Render([]) == e.text;
  }

  lemma EntryNodesOk(e: Entry)
    requires EntryOk(e)
    ensures NodesOk(NodesOf(e))
  {
    KindTags(e.kind);
  }

  lemma RenderUnfold(ns: seq<Node>)
    requires ns != []
    ensures Render(ns) == Source(ns[0]) + Render(ns[1..])
  {
    hide Source;
  }

  lemma RenderNothing()
    ensures Render([]) == []
  {
  }

  lemma {:induction false} RenderConcat(a: seq<Node>, b: seq<Node>)
    ensures Render(a + b) == Render(a) + Render(b)
  {
    hide Source, Render;
    if a == [] {
      assert a + b == b && [] + Render(b) == Render(b);
      RenderNothing();
    } else {
      var rest := a[1..];
      RenderConcat(rest, b);
      assert (a + b)[0] == a[0] && (a + b)[1..] == rest + b;
      RenderUnfold(a + b);
      RenderUnfold(a);
      Assoc(Source(a[0]), Render(rest), Render(b));
    }
  }

  /** The rendering of one entry. */
  function Shown(e: Entry): seq<byte> { Render(NodesOf(e)) }

  lemma FourNodes(n: seq<Node>)
    requires |n| == 4
    ensures Render(n) == Source(n[0]) + (Source(n[1]) + (Source(n[2]) + Source(n[3])))
  {
    hide Source, Render;
    assert n[1..][1..] == n[2..] && n[2..][1..] == n[3..] && n[3..][1..] == [];
    RenderUnfold(n);
    RenderUnfold(n[1..]);
    RenderUnfold(n[2..]);
    RenderUnfold(n[3..]);
    RenderNothing();
  }

  lemma ShownText(e: Entry)
    ensures Shown(e) == KeyTag(e.name) + Tag(e.tag) + e.text + e.kind.Close()
  {
    hide Render, Tag, Kind.Closing;
    FourNodes(NodesOf(e));
    var key, end, tag, close := Tag(KEY), Tag(END_KEY), Tag(e.tag), e.kind.Close();
    assert key + e.name + (end + [] + (tag + e.text + (close + []))) == (key + e.name + end) + tag + e.text + close;
  }

  /** The offset of the closing node, and its tag, end at the end of the entry. */
  lemma EntryEnd(pre: seq<Node>, e: Entry, post: seq<Node>)
    ensures Offset(pre + (NodesOf(e) + post), |pre| + 3) + |e.kind.Close()| == |Render(pre)| + |Shown(e)|
  {
    var ns, n := pre + (NodesOf(e) + post), NodesOf(e);
    OffsetAdd(ns, |pre|, 3);
    assert ns[|pre|..] == n + post;
    DropNodes(ns, [], |pre|);
    assert ns[..|pre|] == pre;
    assert Render(ns) + [] == Render(ns);
    assert |Render(ns)[..Offset(ns, |pre|)]| == Offset(ns, |pre|);
    EntryOffset(e, post);
    ShownText(e);
  }

  lemma EntryOffset(e: Entry, post: seq<Node>)
    ensures Offset(NodesOf(e) + post, 3) == |KeyTag(e.name)| + |Tag(e.tag)| + |e.text|
  {
    var n := NodesOf(e) + post;
    assert n[1..][1..] == n[2..] && n[2..][1..] == n[3..];
    assert Offset(n[2..], 1) == |Source(n[2])| + Offset(n[3..], 0);
    assert Offset(n[1..], 2) == |Source(n[1])| + Offset(n[2..], 1);
  }

  /** The scanner, on any markup whose first key of that name belongs to the entry `e`, returns the text of
      `e` and the index just past it, whatever bytes follow. */
  lemma FindEntry(t: seq<byte>, pre: seq<Node>, e: Entry, post: seq<Node>, tail: seq<byte>)
    requires LT !in t && NodesOk(pre) && NodesOk(post) && EntryOk(e) && Opens(e, e.kind) && Node(KEY, e.name) !in pre
    ensures ExtractTaggedFrom(t + (Render(pre + (NodesOf(e) + post)) + tail), e.name, e.kind.Open(), e.kind.Close(), 0)
         == Some(Match(e.text, |t| + |Render(pre)| + |Shown(e)|))
  {
    hide ExtractTaggedFrom, Render, Offset, ScanNodes;
    KindTags(e.kind);
    EntryNodesOk(e);
    var ns := pre + (NodesOf(e) + post);
    ScanEntry(pre, e, post);
    ScanRefines(t, ns, tail, e.name, e.kind.Opening(), e.kind.Closing());
    EntryEnd(pre, e, post);
  }

  lemma Regroup(a: seq<byte>, b: seq<byte>, x: seq<byte>, y: seq<byte>)
    ensures a + (b + (x + y)) == (a + b + x) + ([] + y)
  {
  }

  lemma MatchesUnfold(m: seq<byte>, name: seq<byte>, kind: Kind, from: nat)
    ensures var r := ExtractTaggedFrom(m, name, kind.Open(), kind.Close(), from);
            Matches(m, name, kind.Open(), kind.Close(), from)
            == if r.None? then [] else [r.value] + Matches(m, name, kind.Open(), kind.Close(), r.value.end)
  {
    hide ExtractTaggedFrom;
  }
}
