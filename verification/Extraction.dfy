/** The exact answer of the scanner, from any byte index: first on any markup, then on documents of items. */
module Extraction {
  import opened Wrappers
  import opened Bytes
  import opened Scan
  import opened Plist
  import opened Entries
  import opened Items

  // Any markup.

  /** The first node that starts at or after byte `from` of the rendering. */
  function NodeAfter(ns: seq<Node>, from: int): (k: nat)
    ensures k <= |ns|
  {
    if from <= 0 || ns == [] then 0 else 1 + NodeAfter(ns[1..], from - |Source(ns[0])|)
  }

  /** A rendering cut at any byte: text free of `<`, then the nodes that start at or after the cut. */
  lemma {:induction false} CutNodes(ns: seq<Node>, from: nat) returns (t: seq<byte>)
    requires NodesOk(ns) && from <= |Render(ns)|
    ensures LT !in t && Render(ns)[from..] == t + Render(ns[NodeAfter(ns, from)..])
  {
    hide Source;
    if from == 0 {
      t := [];
      assert ns[0..] == ns;
    } else {
      var head, rest := Source(ns[0]), Render(ns[1..]);
      assert Render(ns) == head + rest;
      if from <= |head| {
        t := head[from..];
        PlainInside(ns[0], from);
        assert NodeAfter(ns, from) == 1;
        assert (head + rest)[from..] == head[from..] + rest;
      } else {
        t := CutNodes(ns[1..], from - |head|);
        assert (head + rest)[from..] == rest[from - |head|..];
        var k := NodeAfter(ns[1..], from - |head|);
        assert ns[1..][k..] == ns[k + 1..];
      }
    }
  }

  lemma PlainInside(n: Node, from: nat)
    requires NodeOk(n) && 0 < from <= |Source(n)|
    ensures LT !in Source(n)[from..]
  {
    assert Source(n)[from..] == (n.tag + [GT] + n.text)[from - 1..];
  }

  /** The rest of the bytes from `from` on. */
  lemma CutText(t: seq<byte>, ns: seq<Node>, from: nat) returns (p: seq<byte>)
    requires LT !in t && NodesOk(ns) && from <= |t + Render(ns)|
    ensures LT !in p && (t + Render(ns))[from..] == p + Render(ns[NodeAfter(ns, from - |t|)..])
  {
    hide Render;
    if from <= |t| {
      p := t[from..];
      assert ns[0..] == ns;
      assert (t + Render(ns))[from..] == t[from..] + Render(ns);
    } else {
      p := CutNodes(ns, from - |t|);
      assert (t + Render(ns))[from..] == Render(ns)[from - |t|..];
    }
  }

  lemma {:induction false} AfterAll(ns: seq<Node>, from: int)
    requires |Render(ns)| < from
    ensures NodeAfter(ns, from) == |ns|
  {
    if ns != [] { AfterAll(ns[1..], from - |Source(ns[0])|); }
  }

  lemma PastTheEnd(m: seq<byte>, name: seq<byte>, open: seq<byte>, close: seq<byte>, from: nat)
    requires |m| < from
    ensures ExtractTaggedFrom(m, name, open, close, from) == None
  {
  }

  lemma NoNodes(name: seq<byte>, x: seq<byte>, c: seq<byte>)
    ensures ScanNodes([], name, x, c) == None
  {
  }

  /** An offset measured from a cut and from the start. */
  lemma MeasureOffset(t: seq<byte>, ns: seq<Node>, from: nat, p: seq<byte>, k: nat, i: nat)
    requires k + i <= |ns| && from <= |t + Render(ns)| && (t + Render(ns))[from..] == p + Render(ns[k..])
    ensures from + |p| + Offset(ns[k..], i) == |t| + Offset(ns, k + i)
  {
    hide Render, Offset;
    OffsetAdd(ns, k, i);
    DropNodes(ns, [], k);
    assert Render(ns) + [] == Render(ns) && Render(ns[k..]) + [] == Render(ns[k..]);
    assert |(t + Render(ns))[from..]| == |t| + |Render(ns)| - from;
  }

  /** The exact answer of the scanner on every markup, from every byte index, for every key and pair of tags: the
      node scan of the nodes that start at or after the index. */
  lemma ExtractMarkup(t: seq<byte>, ns: seq<Node>, from: nat, name: seq<byte>, x: seq<byte>, c: seq<byte>)
    requires LT !in t && NodesOk(ns) && LT !in name && GT !in x && GT !in c
    ensures var k := NodeAfter(ns, from - |t|);
            var f := ScanNodes(ns[k..], name, x, c);
            ExtractTaggedFrom(t + Render(ns), name, [LT] + x, Tag(c), from)
            == if f.None? then None else Some(Match(f.value.text, |t| + Offset(ns, k + f.value.close) + |Tag(c)|))
  {
    hide ExtractTaggedFrom, Render, Offset, ScanNodes, NodeAfter, NodeOk;
    var m, k := t + Render(ns), NodeAfter(ns, from - |t|);
    if |m| < from {
      PastTheEnd(m, name, [LT] + x, Tag(c), from);
      AfterAll(ns, from - |t|);
      assert ns[k..] == [];
      NoNodes(name, x, c);
    } else {
      var p := CutText(t, ns, from);
      ExtractShift(m, name, [LT] + x, Tag(c), from);
      assert p + (Render(ns[k..]) + []) == p + Render(ns[k..]);
      ScanRefines(p, ns[k..], [], name, x, c);
      var f := ScanNodes(ns[k..], name, x, c);
      if f.Some? { MeasureOffset(t, ns, from, p, k, f.value.close); }
    }
  }

  /** The answers of repeated extraction on markup, each search starting behind the tag that closed the last one. */
  function NodeChain(ns: seq<Node>, name: seq<byte>, x: seq<byte>, c: seq<byte>, at: nat): seq<Match>
    decreases |ns|
  {
    var f := ScanNodes(ns, name, x, c);
    if f.None? then []
    else
      [Match(f.value.text, at + Offset(ns, f.value.close) + |Tag(c)|)]
      + NodeChain(ns[f.value.close + 1..], name, x, c, at + Offset(ns, f.value.close + 1))
  }

  lemma NodeChainUnfold(ns: seq<Node>, name: seq<byte>, x: seq<byte>, c: seq<byte>, at: nat)
    ensures var f := ScanNodes(ns, name, x, c);
            NodeChain(ns, name, x, c, at)
            == if f.None? then []
               else [Match(f.value.text, at + Offset(ns, f.value.close) + |Tag(c)|)]
                    + NodeChain(ns[f.value.close + 1..], name, x, c, at + Offset(ns, f.value.close + 1))
  {
    hide ScanNodes, Offset;
  }

  lemma {:induction false} TagIndexTag(ns: seq<Node>, c: seq<byte>)
    requires TagIndex(ns, c) < |ns|
    ensures ns[TagIndex(ns, c)].tag == c
  {
    if ns[0].tag != c { TagIndexTag(ns[1..], c); }
  }

  lemma ClosedBy(ns: seq<Node>, name: seq<byte>, x: seq<byte>, c: seq<byte>)
    ensures var f := ScanNodes(ns, name, x, c); f.Some? ==> ns[f.value.close].tag == c
  {
    hide KeyIndex, OpenIndex, TagIndex, Render;
    var j := KeyIndex(ns, name);
    if j < |ns| {
      var rest := ns[j + 2..];
      var k := OpenIndex(rest, x);
      if k < |rest| {
        var inner := rest[k + 1..];
        if TagIndex(inner, c) < |inner| { TagIndexTag(inner, c); }
      }
    }
  }

  lemma MatchesStep(m: seq<byte>, name: seq<byte>, open: seq<byte>, close: seq<byte>, from: nat)
    ensures var r := ExtractTaggedFrom(m, name, open, close, from);
            Matches(m, name, open, close, from)
            == if r.None? then [] else [r.value] + Matches(m, name, open, close, r.value.end)
  {
    hide ExtractTaggedFrom;
  }

  /** A rendering is what stands before a node, its tag, its text, and the later nodes. */
  lemma AroundTag(ns: seq<Node>, k: nat)
    requires k < |ns|
    ensures |Render(ns[..k])| == Offset(ns, k)
    ensures Render(ns) == Render(ns[..k]) + (Tag(ns[k].tag) + (ns[k].text + Render(ns[k + 1..])))
  {
    hide Render, Offset, Tag;
    DropNodes(ns, [], k);
    assert Render(ns) + [] == Render(ns);
    assert ns[k..][0] == ns[k] && ns[k..][1..] == ns[k + 1..];
    RenderUnfold(ns[k..]);
    assert ns == ns[..k] + ns[k..];
    RenderConcat(ns[..k], ns[k..]);
    Assoc(Tag(ns[k].tag), ns[k].text, Render(ns[k + 1..]));
  }

  /** What follows the closing tag of a match is the text of its node and the later nodes. */
  lemma BehindClose(before: seq<byte>, t: seq<byte>, ns: seq<Node>, k: nat) returns (head: seq<byte>)
    requires k < |ns|
    ensures |head| == |before| + |t| + Offset(ns, k) + |Tag(ns[k].tag)|
    ensures before + (t + Render(ns)) == head + (ns[k].text + Render(ns[k + 1..]))
    ensures Offset(ns, k + 1) == Offset(ns, k) + |Tag(ns[k].tag)| + |ns[k].text|
  {
    hide Render, Offset, Tag;
    AroundTag(ns, k);
    OneNode(ns, k);
    var pre, tag, rest := Render(ns[..k]), Tag(ns[k].tag), ns[k].text + Render(ns[k + 1..]);
    head := before + (t + (pre + tag));
    Assoc(pre, tag, rest);
    Assoc(t, pre + tag, rest);
    Assoc(before, t + (pre + tag), rest);
  }

  lemma OneNode(ns: seq<Node>, k: nat)
    requires k < |ns|
    ensures Offset(ns, k + 1) == Offset(ns, k) + |Source(ns[k])|
  {
    OffsetAdd(ns, k, 1);
  }

  /** Repeated extraction on any markup: the byte cursor moves exactly from answer to answer. */
  lemma {:induction false} MatchesMarkup(before: seq<byte>, t: seq<byte>, ns: seq<Node>, name: seq<byte>, x: seq<byte>, c: seq<byte>)
    requires LT !in t && NodesOk(ns) && LT !in name && GT !in x && GT !in c
    ensures Matches(before + (t + Render(ns)), name, [LT] + x, Tag(c), |before|) == NodeChain(ns, name, x, c, |before| + |t|)
    decreases |ns|
  {
    hide ExtractTaggedFrom, Render, Offset, ScanNodes, Matches, Tag;
    var m, f := before + (t + Render(ns)), ScanNodes(ns, name, x, c);
    assert m[|before|..] == t + Render(ns) && t + (Render(ns) + []) == t + Render(ns);
    ExtractShift(m, name, [LT] + x, Tag(c), |before|);
    ScanRefines(t, ns, [], name, x, c);
    MatchesStep(m, name, [LT] + x, Tag(c), |before|);
    if f.Some? {
      var k := f.value.close;
      ClosedBy(ns, name, x, c);
      var head := BehindClose(before, t, ns, k);
      MatchesMarkup(head, ns[k].text, ns[k + 1..], name, x, c);
    }
  }

  // Documents of items.

  /** The tags that belong to no entry neither name the key nor open a value of the type. */
  predicate Quiet(items: seq<Item>, name: seq<byte>, kind: Kind) {
    forall i :: 0 <= i < |items| && items[i].Loose? ==>
      items[i].node != Node(KEY, name) && !(kind.Opening() <= items[i].node.tag)
  }

  predicate Keyless(ns: seq<Node>) {
    forall i :: 0 <= i < |ns| ==> ns[i].tag != KEY
  }

  /** The first item that starts at or after byte `from` of the rendering. */
  function ItemAfter(items: seq<Item>, from: int): (i: nat)
    ensures i <= |items|
  {
    if from <= 0 || items == [] then 0 else 1 + ItemAfter(items[1..], from - |Render(ItemNodes(items[0]))|)
  }

  lemma FirstPart(items: seq<Item>, i: nat)
    requires 0 < i <= |items|
    ensures AllNodes(items[..i]) == ItemNodes(items[0]) + AllNodes(items[1..][..i - 1])
    ensures Print(items[..i]) == Render(ItemNodes(items[0])) + Print(items[1..][..i - 1])
  {
    hide ItemNodes;
    assert items[..i][1..] == items[1..][..i - 1];
    RenderConcat(ItemNodes(items[0]), AllNodes(items[1..][..i - 1]));
  }

  lemma PrintNothing()
    ensures Print([]) == []
  {
  }

  /** A scan from byte `from` sees the items that start there or later. */
  lemma {:induction false} ItemAfterStart(items: seq<Item>, from: nat)
    requires from <= |Print(items)|
    ensures var i := ItemAfter(items, from);
            from <= |Print(items[..i])| && (i > 0 ==> |Print(items[..i - 1])| < from)
  {
    hide Print, ItemNodes, Render;
    PrintNothing();
    if from > 0 {
      assert items != [];
      var first := |Render(ItemNodes(items[0]))|;
      FirstPart(items, |items|);
      assert items[..|items|] == items && items[1..][..|items| - 1] == items[1..];
      if from <= first {
        assert ItemAfter(items, from) == 1;
        FirstPart(items, 1);
        assert items[..0] == [];
      } else {
        ItemAfterStart(items[1..], from - first);
        var i := ItemAfter(items, from);
        FirstPart(items, i);
        assert i > 1;
        FirstPart(items, i - 1);
      }
    }
  }

  lemma {:induction false} NodeAfterConcat(a: seq<Node>, b: seq<Node>, from: int)
    ensures NodeAfter(a + b, from)
         == if from <= |Render(a)| then NodeAfter(a, from) else |a| + NodeAfter(b, from - |Render(a)|)
  {
    hide Source;
    if a == [] {
      assert a + b == b;
    } else if from > 0 {
      NodeAfterConcat(a[1..], b, from - |Source(a[0])|);
      assert (a + b)[0] == a[0] && (a + b)[1..] == a[1..] + b;
    }
  }

  /** What is left of an item cut past its first byte holds no key. */
  lemma ItemLeft(i: Item, from: nat)
    requires ItemOk(i) && 0 < from
    ensures NodeAfter(ItemNodes(i), from) > 0 && Keyless(ItemNodes(i)[NodeAfter(ItemNodes(i), from)..])
  {
    hide Kind.Closing, Kind.Opening, Kind.Name, Source;
    var ns, k := ItemNodes(i), NodeAfter(ItemNodes(i), from);
    assert ns != [] && k > 0;
    if i.Value? {
      OpeningsDiffer(i.entry, Data);
      KindTags(i.entry.kind);
      SlashFirst();
    }
    forall j | 0 <= j < |ns[k..]| ensures ns[k..][j].tag != KEY {
      assert ns[k..][j] == ns[k + j];
    }
  }

  /** The nodes that start at or after byte `from` are `ns`, then the nodes of whole items. */
  predicate Leaves(items: seq<Item>, from: int, ns: seq<Node>) {
    var all, k, i := AllNodes(items), NodeAfter(AllNodes(items), from), ItemAfter(items, from);
    all[k..] == ns + AllNodes(items[i..]) && k + |ns| == |AllNodes(items[..i])|
  }

  lemma LeavesInside(items: seq<Item>, from: int)
    requires items != [] && 0 < from <= |Render(ItemNodes(items[0]))|
    ensures Leaves(items, from, ItemNodes(items[0])[NodeAfter(ItemNodes(items[0]), from)..])
  {
    hide ItemNodes, Render, NodeAfter;
    var head, rest := ItemNodes(items[0]), AllNodes(items[1..]);
    NodeAfterConcat(head, rest, from);
    FirstPart(items, 1);
    NoneBefore(items[1..]);
    var k := NodeAfter(head, from);
    assert ItemAfter(items, from) == 1;
    assert (head + rest)[k..] == head[k..] + rest;
  }

  lemma LeavesLater(items: seq<Item>, from: int, ns: seq<Node>)
    requires items != [] && |Render(ItemNodes(items[0]))| < from
    requires Leaves(items[1..], from - |Render(ItemNodes(items[0]))|, ns)
    ensures Leaves(items, from, ns)
  {
    hide ItemNodes, Render, NodeAfter, AllNodes, ItemAfter;
    var head, rest := ItemNodes(items[0]), AllNodes(items[1..]);
    var later := from - |Render(head)|;
    AllNodesUnfold(items);
    NodeAfterConcat(head, rest, from);
    ItemAfterNext(items, from);
    var k, i := NodeAfter(rest, later), ItemAfter(items[1..], later);
    assert (head + rest)[|head| + k..] == rest[k..];
    assert items[i + 1..] == items[1..][i..];
    FirstPart(items, i + 1);
  }

  lemma ItemAfterNext(items: seq<Item>, from: int)
    requires items != [] && 0 < from
    ensures ItemAfter(items, from) == 1 + ItemAfter(items[1..], from - |Render(ItemNodes(items[0]))|)
  {
    hide Render, ItemNodes;
  }

  /** The nodes a scan from byte `from` sees: leftovers that are no keys, then whole items. */
  lemma {:induction false} ItemsLeft(items: seq<Item>, from: int) returns (ns: seq<Node>)
    requires ItemsOk(items)
    ensures Leaves(items, from, ns) && Keyless(ns)
  {
    hide ItemNodes, ItemOk, Render, NodeAfter, AllNodes, Keyless, Leaves;
    if from <= 0 || items == [] {
      ns := [];
      LeavesAll(items, from);
    } else if from <= |Render(ItemNodes(items[0]))| {
      ItemLeft(items[0], from);
      LeavesInside(items, from);
      ns := ItemNodes(items[0])[NodeAfter(ItemNodes(items[0]), from)..];
    } else {
      ns := ItemsLeft(items[1..], from - |Render(ItemNodes(items[0]))|);
      LeavesLater(items, from, ns);
    }
  }

  lemma LeavesAll(items: seq<Item>, from: int)
    requires from <= 0 || items == []
    ensures Leaves(items, from, []) && Keyless([])
  {
    hide ItemNodes;
    AfterNothing(AllNodes(items), from);
    assert items[0..] == items;
    NoneBefore(items);
    assert AllNodes(items)[0..] == [] + AllNodes(items);
  }

  lemma AfterNothing(ns: seq<Node>, from: int)
    ensures from <= 0 || ns == [] ==> NodeAfter(ns, from) == 0
  {
  }

  /** The first entry named `name`, or the number of items. */
  function FirstNamed(items: seq<Item>, name: seq<byte>): (i: nat)
    ensures i <= |items| && (i < |items| ==> items[i].Value? && items[i].entry.name == name)
    ensures forall j :: 0 <= j < i && items[j].Value? ==> items[j].entry.name != name
  {
    if items == [] || (items[0].Value? && items[0].entry.name == name) then 0 else 1 + FirstNamed(items[1..], name)
  }

  /** The first entry whose tag the scanner for the type takes for an opening, or the number of items. */
  function FirstOpening(items: seq<Item>, kind: Kind): (j: nat)
    ensures j <= |items| && (j < |items| ==> items[j].Value? && Opens(items[j].entry, kind))
    ensures forall i :: 0 <= i < j && items[i].Value? ==> !Opens(items[i].entry, kind)
  {
    if items == [] || (items[0].Value? && Opens(items[0].entry, kind)) then 0 else 1 + FirstOpening(items[1..], kind)
  }

  /** The item the scan answers with: the first that opens, from the first of the name on. */
  function Answering(items: seq<Item>, name: seq<byte>, kind: Kind): (j: nat)
    ensures j <= |items| && (j < |items| ==> items[j].Value?)
  {
    var n := FirstNamed(items, name);
    n + FirstOpening(items[n..], kind)
  }

  lemma ValueNodes(items: seq<Item>, j: nat)
    requires j < |items| && items[j].Value?
    ensures var all, k, e := AllNodes(items), |AllNodes(items[..j])|, items[j].entry;
            && k + 4 <= |all| && all[k] == Node(KEY, e.name) && all[k + 1].tag == END_KEY
            && all[k + 2] == Node(e.tag, e.text) && all[k + 3].tag == e.kind.Closing()
            && all[k..] == AllNodes(items[j..])
  {
    hide Print;
    AroundItem(items, j);
    var pre, n := AllNodes(items[..j]), NodesOf(items[j].entry);
    assert items[j..][1..] == items[j + 1..];
    assert AllNodes(items[j..]) == n + AllNodes(items[j + 1..]);
  }

  lemma KeyAmong(ns: seq<Node>, items: seq<Item>, name: seq<byte>, kind: Kind)
    requires Keyless(ns) && ItemsOk(items) && Quiet(items, name, kind)
    ensures var n, k := FirstNamed(items, name), KeyIndex(ns + AllNodes(items), name);
            k == |ns| + |AllNodes(items[..n])| && (n == |items| <==> k == |ns + AllNodes(items)|)
  {
    hide AllNodes, ItemOk, KeyIndex, FirstNamed, Kind.Opening;
    var n := FirstNamed(items, name);
    AllNodesOk(items[..n], name);
    if n == |items| {
      assert items[..n] == items;
      KeyIndexNone(ns + AllNodes(items), name);
    } else {
      ValueNodes(items, n);
      var k, all := |AllNodes(items[..n])|, AllNodes(items);
      AllNodesAt(items, n);
      assert ns + all == (ns + AllNodes(items[..n])) + all[k..];
      KeyIndexAt(ns + AllNodes(items[..n]), all[k..], name);
    }
  }

  lemma AllNodesAt(items: seq<Item>, k: nat)
    requires k <= |items|
    ensures AllNodes(items) == AllNodes(items[..k]) + AllNodes(items[k..])
  {
    assert items == items[..k] + items[k..];
    AllNodesConcat(items[..k], items[k..]);
  }

  /** None of the nodes opens. */
  predicate Shut(ns: seq<Node>, x: seq<byte>) {
    forall i :: 0 <= i < |ns| ==> !(x <= ns[i].tag)
  }

  lemma {:induction false} OpenPast(a: seq<Node>, b: seq<Node>, x: seq<byte>)
    requires Shut(a, x)
    ensures OpenIndex(a + b, x) == |a| + OpenIndex(b, x)
  {
    if a == [] {
      assert a + b == b;
    } else {
      assert (a + b)[0] == a[0] && (a + b)[1..] == a[1..] + b;
      OpenPast(a[1..], b, x);
    }
  }

  lemma ItemShut(i: Item, kind: Kind)
    requires ItemOk(i) && (if i.Value? then !Opens(i.entry, kind) else !(kind.Opening() <= i.node.tag))
    ensures Shut(ItemNodes(i), kind.Opening())
  {
    hide Kind.Opening, Kind.Closing;
    if i.Value? { OpeningsDiffer(i.entry, kind); }
  }

  /** The value scan of items stops at the first one that opens. */
  lemma {:induction false} OpenIndexItems(items: seq<Item>, name: seq<byte>, kind: Kind)
    requires ItemsOk(items) && Quiet(items, name, kind)
    ensures var j := FirstOpening(items, kind);
            OpenIndex(AllNodes(items), kind.Opening())
            == if j == |items| then |AllNodes(items)| else |AllNodes(items[..j])| + 2
  {
    hide Kind.Opening, Kind.Closing, ItemNodes, OpenIndex, ItemOk, Opens;
    var x := kind.Opening();
    if items == [] {
      OpenNothing(x);
    } else {
      var head, rest := ItemNodes(items[0]), AllNodes(items[1..]);
      var j := FirstOpening(items, kind);
      if j == 0 {
        assert items[..0] == [];
        HeadOk(items);
        EntryOpens(items[0].entry, rest, kind);
        assert head == NodesOf(items[0].entry) by { ValueItem(items[0]); }
      } else {
        ItemShut(items[0], kind);
        OpenPast(head, rest, x);
        OpenIndexItems(items[1..], name, kind);
        FirstPart(items, j);
        assert items[1..][..|items| - 1] == items[1..] && items[..|items|] == items;
      }
    }
  }

  lemma ValueItem(i: Item)
    requires i.Value?
    ensures ItemNodes(i) == NodesOf(i.entry)
  {
  }

  lemma OpenNothing(x: seq<byte>)
    ensures OpenIndex([], x) == 0
  {
  }

  lemma EntryOpens(e: Entry, rest: seq<Node>, kind: Kind)
    requires EntryOk(e) && Opens(e, kind)
    ensures OpenIndex(NodesOf(e) + rest, kind.Opening()) == 2
  {
    hide Kind.Opening, Kind.Closing;
    OpeningsDiffer(e, kind);
    var n := NodesOf(e);
    OpenPast(n[..2], n[2..] + rest, kind.Opening());
    assert n + rest == n[..2] + (n[2..] + rest);
  }

  lemma OpenPastKey(ns: seq<Node>, x: seq<byte>)
    requires |ns| >= 2 && ns[0].tag == KEY && ns[1].tag == END_KEY && !(x <= KEY) && !(x <= END_KEY)
    ensures OpenIndex(ns, x) == 2 + OpenIndex(ns[2..], x)
  {
    OpenPast(ns[..2], ns[2..], x);
    assert ns == ns[..2] + ns[2..];
  }

  /** An opening node right before its closing node is a value of its own. */
  lemma AdjacentValue(ns: seq<Node>, x: seq<byte>, c: seq<byte>, k: nat)
    requires k + 1 < |ns| && OpenIndex(ns, x) == k && ns[k + 1].tag == c
    ensures ScanValue(ns, x, c) == Some(Found(ns[k].text, k + 1))
  {
    hide OpenIndex;
    var inner := ns[k + 1..];
    assert inner[0] == ns[k + 1] && inner[..0] == [];
    assert TagIndex(inner, c) == 0;
    assert ns[k].text + Render([]) == ns[k].text;
  }

  lemma NoValue(ns: seq<Node>, x: seq<byte>, c: seq<byte>)
    requires OpenIndex(ns, x) == |ns|
    ensures ScanValue(ns, x, c) == None
  {
  }

  /** The value scan behind the key of entry 0, on nodes from that entry on. */
  lemma ValueAmong(items: seq<Item>, name: seq<byte>, kind: Kind)
    requires ItemsOk(items) && Quiet(items, name, kind) && items != [] && items[0].Value?
    ensures |AllNodes(items)| >= 2
    ensures var j := FirstOpening(items, kind);
            ScanValue(AllNodes(items)[2..], kind.Opening(), kind.Closing())
            == if j == |items| then None else Some(Found(items[j].entry.text, |AllNodes(items[..j])| + 1))
  {
    hide AllNodes, FirstOpening, OpenIndex, ScanValue, Kind.Opening, Kind.Closing, ItemOk, EntryOk;
    var j, ns, x := FirstOpening(items, kind), AllNodes(items), kind.Opening();
    OpenIndexItems(items, name, kind);
    HeadOk(items);
    OpeningsDiffer(items[0].entry, kind);
    ValueNodes(items, 0);
    NoneBefore(items);
    OpenPastKey(ns, x);
    if j < |items| {
      ValueNodes(items, j);
      EachOk(items, j);
      OpeningsDiffer(items[j].entry, kind);
      AdjacentValue(ns[2..], x, kind.Closing(), |AllNodes(items[..j])|);
    } else {
      NoValue(ns[2..], x, kind.Closing());
    }
  }

  lemma NoneBefore(items: seq<Item>)
    ensures AllNodes(items[..0]) == []
  {
    assert items[..0] == [];
  }

  lemma HeadOk(items: seq<Item>)
    requires ItemsOk(items) && items != [] && items[0].Value?
    ensures EntryOk(items[0].entry)
  {
    assert ItemOk(items[0]);
  }

  lemma EachOk(items: seq<Item>, j: nat)
    requires ItemsOk(items) && j < |items| && items[j].Value?
    ensures EntryOk(items[j].entry)
  {
    assert ItemOk(items[j]);
  }

  lemma ScanAfterKey(ns: seq<Node>, name: seq<byte>, x: seq<byte>, c: seq<byte>, k: nat)
    requires KeyIndex(ns, name) == k
    ensures k == |ns| ==> ScanNodes(ns, name, x, c) == None
    ensures k < |ns| ==>
      k + 2 <= |ns| &&
      ScanNodes(ns, name, x, c)
      == var f := ScanValue(ns[k + 2..], x, c); if f.None? then None else Some(Found(f.value.text, k + 2 + f.value.close))
  {
    hide ScanValue, KeyIndex;
  }

  lemma AnsweringNamed(items: seq<Item>, name: seq<byte>, kind: Kind)
    ensures var n := FirstNamed(items, name);
            && (n == |items| ==> Answering(items, name, kind) == |items|)
            && (n < |items| ==> var j := FirstOpening(items[n..], kind);
                                Answering(items, name, kind) == n + j && (n + j < |items| ==> items[n..][j] == items[n + j]))
  {
    hide FirstNamed, FirstOpening;
  }

  lemma LaterOk(items: seq<Item>, k: nat, name: seq<byte>, kind: Kind)
    requires ItemsOk(items) && Quiet(items, name, kind) && k <= |items|
    ensures ItemsOk(items[k..]) && Quiet(items[k..], name, kind)
  {
  }

  lemma NodeCounts(items: seq<Item>, n: nat, j: nat)
    requires n + j <= |items|
    ensures |AllNodes(items[..n])| + |AllNodes(items[n..][..j])| == |AllNodes(items[..n + j])|
  {
    assert items[..n + j][..n] == items[..n] && items[..n + j][n..] == items[n..][..j];
    AllNodesAt(items[..n + j], n);
  }

  lemma ScanItems(ns: seq<Node>, items: seq<Item>, name: seq<byte>, kind: Kind)
    requires Keyless(ns) && ItemsOk(items) && Quiet(items, name, kind)
    ensures var j := Answering(items, name, kind);
            ScanNodes(ns + AllNodes(items), name, kind.Opening(), kind.Closing())
            == if j == |items| then None else Some(Found(items[j].entry.text, |ns| + |AllNodes(items[..j])| + 3))
  {
    hide AllNodes, ItemsOk, KeyIndex, FirstNamed, FirstOpening, ScanValue, ScanNodes, Answering, Keyless, Quiet,
      Kind.Opening, Kind.Closing;
    var n, all, k := FirstNamed(items, name), ns + AllNodes(items), KeyIndex(ns + AllNodes(items), name);
    KeyAmong(ns, items, name, kind);
    ScanAfterKey(all, name, kind.Opening(), kind.Closing(), k);
    AnsweringNamed(items, name, kind);
    if n < |items| {
      LaterOk(items, n, name, kind);
      ValueAmong(items[n..], name, kind);
      ValueNodes(items, n);
      assert all[k + 2..] == AllNodes(items)[k - |ns|..][2..];
      var j := FirstOpening(items[n..], kind);
      NodeCounts(items, n, j);
    }
  }

  lemma AnswerEnd(items: seq<Item>, j: nat)
    requires j < |items| && items[j].Value?
    ensures |AllNodes(items)| > |AllNodes(items[..j])| + 3
    ensures Offset(AllNodes(items), |AllNodes(items[..j])| + 3) + |items[j].entry.kind.Close()| == |Print(items[..j + 1])|
  {
    hide Render, Offset, NodesOf, Shown, Kind.Close, Print;
    ValueNodes(items, j);
    AroundItem(items, j);
    EntryEnd(AllNodes(items[..j]), items[j].entry, AllNodes(items[j + 1..]));
    PrintIsRender(items[..j]);
  }

  lemma PrintIsRender(items: seq<Item>)
    ensures Print(items) == Render(AllNodes(items))
  {
  }

  lemma AnsweringOpens(items: seq<Item>, name: seq<byte>, kind: Kind)
    ensures var j, n := Answering(items, name, kind), FirstNamed(items, name);
            && n <= j && (j < |items| ==> Opens(items[j].entry, kind))
            && (j == n <==> n == |items| || Opens(items[n].entry, kind))
  {
    hide FirstNamed, FirstOpening, Opens;
    var n := FirstNamed(items, name);
    var j := FirstOpening(items[n..], kind);
    if n + j < |items| { assert items[n..][j] == items[n + j]; }
    if n < |items| { assert items[n..][0] == items[n]; }
  }

  /** Where the scan from byte `from` of `t` and the items answers: the items that start at or after `from` count,
      and the answer is the first that opens from the first of the name on. */
  function AnswerFrom(t: seq<byte>, items: seq<Item>, from: nat, name: seq<byte>, kind: Kind): (j: nat)
    ensures j <= |items| && (j < |items| ==> items[j].Value?)
  {
    hide Answering, ItemAfter;
    var i := ItemAfter(items, from - |t|);
    i + Answering(items[i..], name, kind)
  }

  /** The node scan of the nodes that start at or after byte `from`. */
  lemma ScanFrom(items: seq<Item>, from: int, name: seq<byte>, kind: Kind)
    requires ItemsOk(items) && Quiet(items, name, kind)
    ensures var all, k, i := AllNodes(items), NodeAfter(AllNodes(items), from), ItemAfter(items, from);
            var j, f := i + Answering(items[i..], name, kind), ScanNodes(all[k..], name, kind.Opening(), kind.Closing());
            && (f.None? <==> j == |items|)
            && (f.Some? ==> items[j].Value? && f.value.text == items[j].entry.text
                            && k + f.value.close == |AllNodes(items[..j])| + 3)
  {
    hide ScanNodes, AllNodes, ItemsOk, Quiet, Answering, NodeAfter, ItemAfter, Keyless, Kind.Opening, Kind.Closing;
    var ns := ItemsLeft(items, from);
    var i := ItemAfter(items, from);
    LaterOk(items, i, name, kind);
    ScanItems(ns, items[i..], name, kind);
    var j := Answering(items[i..], name, kind);
    if i + j < |items| {
      assert items[i..][j] == items[i + j];
      NodeCounts(items, i, j);
    }
  }

  /** The answer opens for the type, so its own closing tag is the type's. */
  lemma AnswerEnds(items: seq<Item>, i: nat, name: seq<byte>, kind: Kind)
    requires ItemsOk(items) && i <= |items|
    ensures var j := i + Answering(items[i..], name, kind);
            j < |items| ==>
              && items[j].Value? && |AllNodes(items[..j])| + 3 < |AllNodes(items)|
              && Offset(AllNodes(items), |AllNodes(items[..j])| + 3) + |kind.Close()| == |Print(items[..j + 1])|
  {
    hide AllNodes, ItemsOk, Answering, Opens, Offset, Print, EntryOk, Kind.Close;
    var j := Answering(items[i..], name, kind);
    if i + j < |items| {
      assert items[i..][j] == items[i + j];
      AnsweringOpens(items[i..], name, kind);
      EachOk(items, i + j);
      OpeningsDiffer(items[i + j].entry, kind);
      AnswerEnd(items, i + j);
    }
  }

  /** The exact answer of the scanner on documents: entries of any type, with any attributes or none, among any
      markup that neither names the key nor opens a value, from every byte index. No match arises inside or across
      items, wherever the scan starts. */
  lemma ExtractExact(t: seq<byte>, items: seq<Item>, from: nat, name: seq<byte>, kind: Kind)
    requires LT !in t && LT !in name && ItemsOk(items) && Quiet(items, name, kind)
    ensures var j := AnswerFrom(t, items, from, name, kind);
            ExtractTaggedFrom(t + Print(items), name, kind.Open(), kind.Close(), from)
            == if j == |items| then None else Some(Match(items[j].entry.text, |t| + |Print(items[..j + 1])|))
  {
    hide ExtractTaggedFrom, Render, Offset, ScanNodes, AllNodes, ItemsOk, Quiet, Answering, NodeAfter, ItemAfter, Print, Tag,
      Kind.Opening, Kind.Closing;
    KindTags(kind);
    AllNodesOk(items, name);
    PrintIsRender(items);
    ExtractMarkup(t, AllNodes(items), from, name, kind.Opening(), kind.Closing());
    ScanFrom(items, from - |t|, name, kind);
    AnswerEnds(items, ItemAfter(items, from - |t|), name, kind);
  }

  /** The exact answer of the scan from the start. */
  lemma ExtractFirst(t: seq<byte>, items: seq<Item>, name: seq<byte>, kind: Kind)
    requires LT !in t && LT !in name && ItemsOk(items) && Quiet(items, name, kind)
    ensures var j := Answering(items, name, kind);
            ExtractTaggedFrom(t + Print(items), name, kind.Open(), kind.Close(), 0)
            == if j == |items| then None else Some(Match(items[j].entry.text, |t| + |Print(items[..j + 1])|))
  {
    hide ExtractTaggedFrom, Print, Answering, ItemOk, Quiet, Kind.Open, Kind.Close;
    ExtractExact(t, items, 0, name, kind);
    assert items[0..] == items;
  }

  lemma AnsweringHead(items: seq<Item>, name: seq<byte>, kind: Kind)
    requires items != [] && items[0].Value? && items[0].entry.name == name && Opens(items[0].entry, kind)
    ensures Answering(items, name, kind) == 0
  {
    hide Opens;
    assert items[0..] == items;
  }

  /** An item of another name in front does not matter. */
  lemma AnsweringSkip(item: Item, items: seq<Item>, name: seq<byte>, kind: Kind)
    requires item.Value? ==> item.entry.name != name
    ensures Answering([item] + items, name, kind) == 1 + Answering(items, name, kind)
  {
    hide Opens;
    var all, n := [item] + items, FirstNamed(items, name);
    assert all[1..] == items && FirstNamed(all, name) == 1 + n;
    assert all[1 + n..] == items[n..];
  }

  // Repeated extraction.

  /** The answers of repeated extraction, each search starting after the entry that answered the last one. */
  function Chain(items: seq<Item>, name: seq<byte>, kind: Kind, at: nat): seq<Match>
    decreases |items|
  {
    var j := Answering(items, name, kind);
    if j == |items| then []
    else
      var end := at + |Print(items[..j + 1])|;
      [Match(items[j].entry.text, end)] + Chain(items[j + 1..], name, kind, end)
  }

  lemma ChainUnfold(items: seq<Item>, name: seq<byte>, kind: Kind, at: nat)
    ensures var j := Answering(items, name, kind);
            Chain(items, name, kind, at)
            == if j == |items| then []
               else var end := at + |Print(items[..j + 1])|;
                    [Match(items[j].entry.text, end)] + Chain(items[j + 1..], name, kind, end)
  {
    hide Answering, Print;
  }

  /** Repeated extraction on a document: the byte cursor moves exactly from answer to answer. */
  lemma {:induction false} MatchesExact(before: seq<byte>, t: seq<byte>, items: seq<Item>, name: seq<byte>, kind: Kind)
    requires LT !in t && LT !in name && ItemsOk(items) && Quiet(items, name, kind)
    ensures Matches(before + (t + Print(items)), name, kind.Open(), kind.Close(), |before|)
         == Chain(items, name, kind, |before| + |t|)
    decreases |items|
  {
    hide ExtractTaggedFrom, Print, Matches, Chain, Answering, ItemsOk, Quiet, Kind.Open, Kind.Close;
    var m, j := before + (t + Print(items)), Answering(items, name, kind);
    assert m[|before|..] == t + Print(items);
    ExtractShift(m, name, kind.Open(), kind.Close(), |before|);
    ExtractFirst(t, items, name, kind);
    MatchesUnfold(m, name, kind, |before|);
    ChainUnfold(items, name, kind, |before| + |t|);
    if j < |items| {
      var shown := Print(items[..j + 1]);
      PrintAt(items, j + 1);
      LaterOk(items, j + 1, name, kind);
      Regroup(before, t, shown, Print(items[j + 1..]));
      MatchesExact(before + t + shown, [], items[j + 1..], name, kind);
    }
  }

  /** The entries with a name, in order. */
  function Named(items: seq<Item>, name: seq<byte>): seq<Entry> {
    if items == [] then []
    else (if items[0].Value? && items[0].entry.name == name then [items[0].entry] else []) + Named(items[1..], name)
  }

  lemma {:induction false} NamedSkip(items: seq<Item>, name: seq<byte>)
    ensures var n := FirstNamed(items, name);
            Named(items, name) == if n == |items| then [] else [items[n].entry] + Named(items[n + 1..], name)
  {
    if items != [] && !(items[0].Value? && items[0].entry.name == name) {
      NamedSkip(items[1..], name);
      var n := FirstNamed(items[1..], name);
      assert n < |items[1..]| ==> items[1..][n + 1..] == items[n + 2..];
    }
  }

  /** Where every entry of the name opens, repeated extraction enumerates exactly those entries, in order: nothing is
      skipped, repeated or invented. */
  lemma {:induction false} ChainNamed(items: seq<Item>, name: seq<byte>, kind: Kind, at: nat)
    requires forall i :: 0 <= i < |items| && items[i].Value? && items[i].entry.name == name ==> Opens(items[i].entry, kind)
    ensures var ms, us := Chain(items, name, kind, at), Named(items, name);
            |ms| == |us| && forall i :: 0 <= i < |us| ==> ms[i].text == us[i].text
    decreases |items|
  {
    hide Print, Named, Answering, Chain, FirstNamed, Opens;
    var n := FirstNamed(items, name);
    AnsweringOpens(items, name, kind);
    NamedSkip(items, name);
    ChainUnfold(items, name, kind, at);
    if n < |items| {
      ChainNamed(items[n + 1..], name, kind, at + |Print(items[..n + 1])|);
    }
  }

  // When the answer is the entry that was asked for.

  /** Extraction inverts rendering: from any byte on, the scanner returns exactly the text and the end of the first
      entry with the name that starts there or later, when its tag opens, and nothing when no such entry has the name. */
  lemma EntryRoundTrip(t: seq<byte>, items: seq<Item>, from: nat, name: seq<byte>, kind: Kind)
    requires LT !in t && LT !in name && ItemsOk(items) && Quiet(items, name, kind)
    ensures var i := ItemAfter(items, from - |t|);
            var n := i + FirstNamed(items[i..], name);
            var r := ExtractTaggedFrom(t + Print(items), name, kind.Open(), kind.Close(), from);
            && (n == |items| ==> r == None)
            && (n < |items| && Opens(items[n].entry, kind) ==>
                  r == Some(Match(items[n].entry.text, |t| + |Print(items[..n + 1])|)))
  {
    hide ExtractTaggedFrom, Print, Answering, ItemOk, Quiet, FirstNamed, ItemAfter, Opens, Kind.Open, Kind.Close;
    ExtractExact(t, items, from, name, kind);
    AnsweringOpens(items[ItemAfter(items, from - |t|)..], name, kind);
  }

  lemma ItemsGrow(items: seq<Item>, a: nat, b: nat)
    requires a < b <= |items|
    ensures |Print(items[..a])| < |Print(items[..b])|
  {
    hide Print, Render;
    assert items[..b][..a] == items[..a] && items[..b][a..] == items[a..b];
    PrintAt(items[..b], a);
    FirstPart(items[a..b], b - a);
    assert items[a..b][..b - a] == items[a..b];
    ItemPrints(items[a]);
  }

  lemma ItemPrints(i: Item)
    ensures |Render(ItemNodes(i))| > 0
  {
    var ns := ItemNodes(i);
    assert Render(ns) == Source(ns[0]) + Render(ns[1..]);
  }

  /** The scanner does not check that the value it finds belongs to the key it found. From any byte on, it answers with
      the entry asked for if and only if that entry's tag opens for the requested type: the type is the entry's own and,
      for data and strings, `ID` is its first attribute. */
  lemma OwnValueIff(t: seq<byte>, items: seq<Item>, from: nat, name: seq<byte>, kind: Kind)
    requires LT !in t && LT !in name && ItemsOk(items) && Quiet(items, name, kind)
    ensures var i := ItemAfter(items, from - |t|);
            var n := i + FirstNamed(items[i..], name);
            n < |items| ==>
              (ExtractTaggedFrom(t + Print(items), name, kind.Open(), kind.Close(), from)
                 == Some(Match(items[n].entry.text, |t| + |Print(items[..n + 1])|))
               <==> Opens(items[n].entry, kind))
  {
    hide ExtractTaggedFrom, Print, Answering, ItemOk, Quiet, FirstNamed, ItemAfter, Opens, Kind.Open, Kind.Close;
    var i := ItemAfter(items, from - |t|);
    var n, j := i + FirstNamed(items[i..], name), AnswerFrom(t, items, from, name, kind);
    ExtractExact(t, items, from, name, kind);
    AnsweringOpens(items[i..], name, kind);
    if n < j < |items| { ItemsGrow(items, n + 1, j + 1); }
  }

  /** Where the first of two entries does not open and the second does, the scan for the first returns the value of
      the second. */
  lemma NextValue(a: Entry, b: Entry, kind: Kind)
    requires EntryOk(a) && EntryOk(b) && a.name != b.name && !Opens(a, kind) && Opens(b, kind)
    ensures ExtractTaggedFrom(Print([Value(a), Value(b)]), a.name, kind.Open(), kind.Close(), 0)
         == Some(Match(b.text, |Print([Value(a), Value(b)])|))
  {
    hide ExtractTaggedFrom, Print, Kind.Open, Kind.Close, Opens;
    var items := [Value(a), Value(b)];
    ExtractFirst([], items, a.name, kind);
    assert items[0..] == items && items[1..] == [Value(b)] && items[..2] == items;
    assert FirstNamed(items, a.name) == 0;
    assert FirstOpening(items, kind) == 1 + FirstOpening([Value(b)], kind);
    assert [] + Print(items) == Print(items);
  }

  /** The value of another key is returned for an entry of another type. */
  lemma ForeignValue()
    ensures var a, b := Entry([65], Text, Text.Opening(), [120]), Entry([66], Data, Data.Opening(), [121]);
            && EntryOk(a) && EntryOk(b)
            && ExtractTaggedFrom(Print([Value(a), Value(b)]), a.name, Data.Open(), Data.Close(), 0)
               == Some(Match(b.text, |Print([Value(a), Value(b)])|))
  {
    hide ExtractTaggedFrom, Print, Kind.Open, Kind.Close;
    var a, b := Entry([65], Text, Text.Opening(), [120]), Entry([66], Data, Data.Opening(), [121]);
    KindTags(Text);
    KindTags(Data);
    NameOpens(Text);
    NameOpens(Data);
    OpeningsDiffer(a, Data);
    NextValue(a, b, Data);
  }

  /** It is returned for an entry of the requested type, too, when its tag carries no `ID`: on
      `<key>A</key><string>x</string><key>B</key><string ID=>y</string>` the string of A is `y`. */
  lemma ForeignValueSameType()
    ensures var a, b := Entry([65], Text, Text.Name(), [120]), Entry([66], Text, Text.Opening(), [121]);
            && EntryOk(a) && EntryOk(b)
            && ExtractTaggedFrom(Print([Value(a), Value(b)]), a.name, Text.Open(), Text.Close(), 0)
               == Some(Match(b.text, |Print([Value(a), Value(b)])|))
  {
    hide ExtractTaggedFrom, Print, Kind.Open, Kind.Close;
    var a, b := Entry([65], Text, Text.Name(), [120]), Entry([66], Text, Text.Opening(), [121]);
    KindTags(Text);
    NameOpens(Text);
    assert Text.Name() == [115, 116, 114, 105, 110, 103] && |Text.Opening()| == 10;
    NextValue(a, b, Text);
  }
}
