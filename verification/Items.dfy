/** Entries among other markup, as in a real property list: what the scanner finds there, whatever bytes follow. */
module Items {
  import opened Wrappers
  import opened Bytes
  import opened Scan
  import opened Plist
  import opened Entries

  /** An entry, or a tag that belongs to none (`<dict>`, `</array>`, a key without a scanned value). */
  datatype Item = Loose(node: Node) | Value(entry: Entry)

  predicate ItemOk(i: Item) {
    if i.Loose? then NodeOk(i.node) else EntryOk(i.entry)
  }

  predicate ItemsOk(items: seq<Item>) {
    forall i :: 0 <= i < |items| ==> ItemOk(items[i])
  }

  /** The item carries the key `name`. */
  predicate Carries(i: Item, name: seq<byte>) {
    if i.Loose? then i.node == Node(KEY, name) else i.entry.name == name
  }

  function ItemNodes(i: Item): seq<Node> {
    if i.Loose? then [i.node] else NodesOf(i.entry)
  }

  function AllNodes(items: seq<Item>): seq<Node> {
    if items == [] then [] else ItemNodes(items[0]) + AllNodes(items[1..])
  }

  function Print(items: seq<Item>): seq<byte> { Render(AllNodes(items)) }

  lemma AllNodesUnfold(items: seq<Item>)
    requires items != []
    ensures AllNodes(items) == ItemNodes(items[0]) + AllNodes(items[1..])
  {
    hide ItemNodes;
  }

  lemma NoItems()
    ensures AllNodes([]) == []
  {
  }

  lemma {:induction false} AllNodesConcat(a: seq<Item>, b: seq<Item>)
    ensures AllNodes(a + b) == AllNodes(a) + AllNodes(b)
  {
    hide ItemNodes, AllNodes;
    if a == [] {
      assert a + b == b && [] + AllNodes(b) == AllNodes(b);
      NoItems();
    } else {
      var rest := a[1..];
      AllNodesConcat(rest, b);
      assert (a + b)[0] == a[0] && (a + b)[1..] == rest + b;
      AllNodesUnfold(a + b);
      AllNodesUnfold(a);
      Assoc(ItemNodes(a[0]), AllNodes(rest), AllNodes(b));
    }
  }

  lemma PrintConcat(a: seq<Item>, b: seq<Item>)
    ensures Print(a + b) == Print(a) + Print(b)
  {
    AllNodesConcat(a, b);
    RenderConcat(AllNodes(a), AllNodes(b));
  }

  lemma {:induction false} AllNodesOk(items: seq<Item>, name: seq<byte>)
    requires ItemsOk(items)
    ensures NodesOk(AllNodes(items))
    ensures (forall i :: 0 <= i < |items| ==> !Carries(items[i], name)) ==> Node(KEY, name) !in AllNodes(items)
  {
    if items != [] {
      AllNodesOk(items[1..], name);
      if items[0].Value? {
        EntryNodesOk(items[0].entry);
        OpeningsDiffer(items[0].entry, Data);
        KindTags(items[0].entry.kind);
      }
    }
  }

  lemma PrintAt(items: seq<Item>, k: nat)
    requires k <= |items|
    ensures Print(items) == Print(items[..k]) + Print(items[k..])
  {
    assert items[..k] + items[k..] == items;
    PrintConcat(items[..k], items[k..]);
  }

  lemma AroundItem(items: seq<Item>, i: nat)
    requires i < |items| && items[i].Value?
    ensures AllNodes(items) == AllNodes(items[..i]) + (NodesOf(items[i].entry) + AllNodes(items[i + 1..]))
    ensures Print(items) == Print(items[..i + 1]) + Print(items[i + 1..])
    ensures |Print(items[..i + 1])| == |Print(items[..i])| + |Shown(items[i].entry)|
  {
    assert items == items[..i] + items[i..] && items[i..][1..] == items[i + 1..];
    AllNodesConcat(items[..i], items[i..]);
    assert items == items[..i + 1] + items[i + 1..];
    PrintConcat(items[..i + 1], items[i + 1..]);
    assert items[..i + 1] == items[..i] + [items[i]];
    PrintConcat(items[..i], [items[i]]);
    assert AllNodes([items[i]]) == NodesOf(items[i].entry) + AllNodes([]);
    assert NodesOf(items[i].entry) + [] == NodesOf(items[i].entry);
  }

  /** The first item that carries the name of an entry is that entry: it is found, whatever bytes follow the
      items, and the scan stops just past it. */
  lemma FindItem(t: seq<byte>, items: seq<Item>, tail: seq<byte>, i: nat)
    requires LT !in t && ItemsOk(items) && i < |items| && items[i].Value? && Opens(items[i].entry, items[i].entry.kind)
    requires forall j :: 0 <= j < i ==> !Carries(items[j], items[i].entry.name)
    ensures var e, end := items[i].entry, |t| + |Print(items[..i + 1])|;
            && ExtractTaggedFrom(t + (Print(items) + tail), e.name, e.kind.Open(), e.kind.Close(), 0)
               == Some(Match(e.text, end))
            && end <= |t + (Print(items) + tail)|
            && (t + (Print(items) + tail))[end..] == Print(items[i + 1..]) + tail
  {
    hide ExtractTaggedFrom, Render, AllNodes, NodesOf, Shown, Kind.Open, Kind.Close;
    var e := items[i].entry;
    AllNodesOk(items[..i], e.name);
    AllNodesOk(items[i + 1..], e.name);
    AroundItem(items, i);
    FindEntry(t, AllNodes(items[..i]), e, AllNodes(items[i + 1..]), tail);
    var head := t + Print(items[..i + 1]);
    assert t + (Print(items) + tail) == head + (Print(items[i + 1..]) + tail);
  }

  /** A name that no item carries is not found, unless the bytes after the items spell its key. */
  lemma FindNoItem(t: seq<byte>, items: seq<Item>, tail: seq<byte>, name: seq<byte>, kind: Kind)
    requires LT !in t && LT !in name && ItemsOk(items)
    requires forall i :: 0 <= i < |items| ==> !Carries(items[i], name)
    requires FindSub(tail, KeyTag(name)) == None && Sealed(AllNodes(items), tail)
    ensures ExtractTaggedFrom(t + (Print(items) + tail), name, kind.Open(), kind.Close(), 0) == None
  {
    hide FindSub, Render, AllNodes, KeyIndex, Kind.Open, Kind.Close, Sealed;
    var ns, m := AllNodes(items), t + (Print(items) + tail);
    AllNodesOk(items, name);
    KeyIndexNone(ns, name);
    SearchKey(ns, tail, name);
    SkipText(t, Print(items) + tail, KeyTag(name));
    assert m[0..] == m;
  }

  predicate ZeroNear(h: seq<byte>, p: nat) {
    exists j :: p <= j < p + 13 && j < |h| && h[j] == 0
  }

  lemma NotAtZero(h: seq<byte>, n: seq<byte>, p: nat)
    requires |n| >= 13 && 0 !in n && (p + 13 <= |h| ==> ZeroNear(h, p))
    ensures !OccursAt(h, n, p)
  {
    if OccursAt(h, n, p) { NotInside(h, n, p, 0); }
  }

  /** A long needle without zero bytes does not occur where any 13 successive bytes have a zero among them. */
  lemma NotAmongZeros(h: seq<byte>, n: seq<byte>)
    requires |n| >= 13 && 0 !in n
    requires forall p: nat :: p + 13 <= |h| ==> ZeroNear(h, p)
    ensures FindSub(h, n) == None
  {
    hide OccursAt, ZeroNear;
    FirstOccurrence(h, n);
    forall p: nat ensures !OccursAt(h, n, p) { NotAtZero(h, n, p); }
  }
}
