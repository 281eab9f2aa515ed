/** Markup as a list of nodes `<tag>text`, and the proof that the byte scanner sees exactly those nodes. */
module Plist {
  import opened Wrappers
  import opened Bytes
  import opened Scan

  /** A tag and the text up to the next tag. */
  datatype Node = Node(tag: seq<byte>, text: seq<byte>)

  predicate NodeOk(n: Node) {
    LT !in n.tag && GT !in n.tag && LT !in n.text
  }

  predicate NodesOk(ns: seq<Node>) {
    forall i :: 0 <= i < |ns| ==> NodeOk(ns[i])
  }

  function Source(n: Node): seq<byte> { Tag(n.tag) + n.text }

  function Render(ns: seq<Node>): seq<byte> {
    if ns == [] then [] else Source(ns[0]) + Render(ns[1..])
  }

  /** Where node `k` starts. */
  function Offset(ns: seq<Node>, k: nat): nat
    requires k <= |ns|
  {
    if k == 0 then 0 else |Source(ns[0])| + Offset(ns[1..], k - 1)
  }

  lemma RenderCons(ns: seq<Node>, tail: seq<byte>)
    requires ns != []
    ensures Render(ns) + tail == Source(ns[0]) + (Render(ns[1..]) + tail)
  {
  }

  /** A needle that opens with `<` occurs at the start of a node or not inside it at all. */
  lemma SearchNode(n: Node, rest: seq<byte>, needle: seq<byte>)
    requires NodeOk(n) && needle != [] && needle[0] == LT
    ensures FindSub(Source(n) + rest, needle)
         == if OccursAt(Source(n) + rest, needle, 0) then Some(0) else Shift(|Source(n)|, FindSub(rest, needle))
  {
    var h := Source(n) + rest;
    if OccursAt(h, needle, 0) {
      FoundAt(h, needle, 0);
    } else {
      forall q | 0 <= q < |Source(n)| ensures !OccursAt(h, needle, q) {
        if q > 0 {
          assert h[q] == (n.tag + [GT] + n.text)[q - 1];
          OpensWith(h, needle, q);
        }
      }
      Skip(Source(n), rest, needle);
    }
  }

  /** Two strings cut at the same delimiter, one opening the other, agree up to it. */
  lemma Delimited(a: seq<byte>, d: byte, x: seq<byte>, b: seq<byte>, y: seq<byte>)
    requires d !in a && d !in b
    ensures b + [d] + y <= a + [d] + x <==> a == b && y <= x
  {
    var long, short := a + [d] + x, b + [d] + y;
    assert long[|a|] == d && short[|b|] == d;
    assert a == long[..|a|] && b == short[..|b|];
    assert x == long[|a| + 1..] && y == short[|b| + 1..];
    assert a == b && y <= x ==> long == short + x[|y|..];
    assert short <= long ==> long[|b|] == d;
  }

  lemma OccursIsPrefix(h: seq<byte>, n: seq<byte>)
    ensures OccursAt(h, n, 0) <==> n <= h
  {
    if |n| <= |h| { assert h[0..|n|] == h[..|n|]; }
  }

  /** `<x` opens a node exactly when `x` opens its tag. */
  lemma OpenAtNode(n: Node, rest: seq<byte>, x: seq<byte>)
    requires NodeOk(n) && GT !in x
    ensures OccursAt(Source(n) + rest, [LT] + x, 0) <==> x <= n.tag
  {
    var h, body := Source(n) + rest, n.tag + [GT] + (n.text + rest);
    OccursIsPrefix(h, [LT] + x);
    assert h == [LT] + body;
    assert [LT] + x <= [LT] + body <==> x <= body by {
      if |x| <= |body| { assert ([LT] + body)[1..|x| + 1] == body[..|x|]; }
      if [LT] + x <= [LT] + body { assert ([LT] + x)[1..] == x; }
    }
    assert body[|n.tag|] == GT;
    assert n.tag == body[..|n.tag|];
  }

  /** `<c>` opens a node exactly when the tag is `c`. */
  lemma TagAtNode(n: Node, rest: seq<byte>, c: seq<byte>)
    requires NodeOk(n) && GT !in c
    ensures OccursAt(Source(n) + rest, Tag(c), 0) <==> n.tag == c
  {
    OccursIsPrefix(Source(n) + rest, Tag(c));
    Delimited(n.tag, GT, n.text + rest, c, []);
    var body, needle := n.tag + [GT] + (n.text + rest), c + [GT] + [];
    assert Source(n) + rest == [LT] + body && Tag(c) == [LT] + needle;
    ConsPrefix(LT, needle, body);
  }

  lemma ConsPrefix(d: byte, x: seq<byte>, y: seq<byte>)
    ensures [d] + x <= [d] + y <==> x <= y
  {
    if x <= y { assert ([d] + y)[..|x| + 1] == [d] + y[..|x|]; }
    if [d] + x <= [d] + y { assert ([d] + x)[1..] == x && ([d] + y)[1..|x| + 1] == y[..|x|]; }
  }

  /** `<key>NAME</key>` opens a node exactly when the node is that key and the next one closes it. */
  lemma KeyAtNode(n: Node, next: Node, rest: seq<byte>, name: seq<byte>)
    requires NodeOk(n) && NodeOk(next) && LT !in name
    ensures OccursAt(Source(n) + (Source(next) + rest), KeyTag(name), 0) <==> n == Node(KEY, name) && next.tag == END_KEY
  {
    var h := Source(n) + (Source(next) + rest);
    var h2 := next.tag + [GT] + (next.text + rest);
    var h1 := n.text + [LT] + h2;
    var n2 := END_KEY + [GT] + [];
    var n1 := name + [LT] + n2;
    OccursIsPrefix(h, KeyTag(name));
    assert h == [LT] + (n.tag + [GT] + h1);
    assert KeyTag(name) == [LT] + (KEY + [GT] + n1);
    ConsPrefix(LT, KEY + [GT] + n1, n.tag + [GT] + h1);
    Delimited(n.tag, GT, h1, KEY, n1);
    Delimited(n.text, LT, h2, name, n2);
    Delimited(next.tag, GT, next.text + rest, END_KEY, []);
  }

  /** The last node can carry no key match: either nothing follows it, or it is no key. */
  lemma KeyAtLastNode(n: Node, tail: seq<byte>, name: seq<byte>)
    requires NodeOk(n) && (tail == [] || n.tag != KEY)
    ensures !OccursAt(Source(n) + tail, KeyTag(name), 0)
  {
    var h, h1, n1 := Source(n) + tail, n.text + tail, name + [LT] + (END_KEY + [GT] + []);
    OccursIsPrefix(h, KeyTag(name));
    assert h == [LT] + (n.tag + [GT] + h1);
    assert KeyTag(name) == [LT] + (KEY + [GT] + n1);
    ConsPrefix(LT, KEY + [GT] + n1, n.tag + [GT] + h1);
    Delimited(n.tag, GT, h1, KEY, n1);
    assert n1[|name|] == LT;
  }

  predicate IsKey(ns: seq<Node>, name: seq<byte>) {
    |ns| >= 2 && ns[0] == Node(KEY, name) && ns[1].tag == END_KEY
  }

  /** The first node that is `<key>NAME` followed by `</key>`, or the number of nodes. */
  function KeyIndex(ns: seq<Node>, name: seq<byte>): (k: nat)
    ensures k <= |ns| && (k < |ns| ==> k + 2 <= |ns|)
  {
    if ns == [] then 0 else if IsKey(ns, name) then 0 else 1 + KeyIndex(ns[1..], name)
  }

  function OpenIndex(ns: seq<Node>, x: seq<byte>): (k: nat)
    ensures k <= |ns|
  {
    if ns == [] then 0 else if x <= ns[0].tag then 0 else 1 + OpenIndex(ns[1..], x)
  }

  function TagIndex(ns: seq<Node>, c: seq<byte>): (k: nat)
    ensures k <= |ns|
  {
    if ns == [] then 0 else if ns[0].tag == c then 0 else 1 + TagIndex(ns[1..], c)
  }

  /** What a search that stops at node `k` of the rendering answers; past the nodes it goes on in `tail`. */
  function Stops(ns: seq<Node>, k: nat, tail: seq<byte>, needle: seq<byte>): Option<nat>
    requires k <= |ns|
  {
    if k < |ns| then Some(Offset(ns, k)) else Shift(Offset(ns, k), FindSub(tail, needle))
  }

  lemma {:induction false} SearchOpen(ns: seq<Node>, tail: seq<byte>, x: seq<byte>)
    requires NodesOk(ns) && GT !in x
    ensures FindSub(Render(ns) + tail, [LT] + x) == Stops(ns, OpenIndex(ns, x), tail, [LT] + x)
  {
    hide FindSub, Source, OccursAt;
    if ns == [] {
      assert Render(ns) + tail == tail;
    } else {
      RenderCons(ns, tail);
      SearchNode(ns[0], Render(ns[1..]) + tail, [LT] + x);
      OpenAtNode(ns[0], Render(ns[1..]) + tail, x);
      SearchOpen(ns[1..], tail, x);
    }
  }

  lemma {:induction false} SearchTag(ns: seq<Node>, tail: seq<byte>, c: seq<byte>)
    requires NodesOk(ns) && GT !in c
    ensures FindSub(Render(ns) + tail, Tag(c)) == Stops(ns, TagIndex(ns, c), tail, Tag(c))
  {
    hide FindSub, Source, OccursAt;
    if ns == [] {
      assert Render(ns) + tail == tail;
    } else {
      RenderCons(ns, tail);
      SearchNode(ns[0], Render(ns[1..]) + tail, Tag(c));
      TagAtNode(ns[0], Render(ns[1..]) + tail, c);
      SearchTag(ns[1..], tail, c);
    }
  }

  /** No key match can straddle the end of the nodes. */
  predicate Sealed(ns: seq<Node>, tail: seq<byte>) {
    tail == [] || (ns != [] ==> ns[|ns| - 1].tag != KEY)
  }

  lemma KeyStep(ns: seq<Node>, tail: seq<byte>, name: seq<byte>)
    requires NodesOk(ns) && LT !in name && ns != [] && (|ns| >= 2 || Sealed(ns, tail))
    ensures FindSub(Render(ns) + tail, KeyTag(name))
         == if IsKey(ns, name) then Some(0) else Shift(|Source(ns[0])|, FindSub(Render(ns[1..]) + tail, KeyTag(name)))
  {
    RenderCons(ns, tail);
    SearchNode(ns[0], Render(ns[1..]) + tail, KeyTag(name));
    if |ns| >= 2 {
      RenderCons(ns[1..], tail);
      KeyAtNode(ns[0], ns[1], Render(ns[1..][1..]) + tail, name);
    } else {
      KeyAtLastNode(ns[0], tail, name);
      assert Render(ns[1..]) + tail == tail;
    }
  }

  lemma {:induction false} SearchKey(ns: seq<Node>, tail: seq<byte>, name: seq<byte>)
    requires NodesOk(ns) && LT !in name
    requires KeyIndex(ns, name) < |ns| || Sealed(ns, tail)
    ensures FindSub(Render(ns) + tail, KeyTag(name)) == Stops(ns, KeyIndex(ns, name), tail, KeyTag(name))
  {
    hide FindSub, Source, KeyTag;
    if ns == [] {
      assert Render(ns) + tail == tail;
    } else {
      KeyStep(ns, tail, name);
      if !IsKey(ns, name) { SearchKey(ns[1..], tail, name); }
    }
  }

  lemma {:induction false} DropNodes(ns: seq<Node>, tail: seq<byte>, k: nat)
    requires k <= |ns|
    ensures Offset(ns, k) <= |Render(ns)|
    ensures (Render(ns) + tail)[Offset(ns, k)..] == Render(ns[k..]) + tail
    ensures (Render(ns) + tail)[..Offset(ns, k)] == Render(ns[..k])
    decreases k
  {
    if k == 0 {
      assert ns[0..] == ns;
    } else {
      DropNodes(ns[1..], tail, k - 1);
      RenderCons(ns, tail);
      assert ns[1..][k - 1..] == ns[k..];
      assert ns[..k][1..] == ns[1..][..k - 1];
      PastPrefix(Source(ns[0]), Render(ns[1..]) + tail, Offset(ns[1..], k - 1));
    }
  }

  lemma PastPrefix(a: seq<byte>, b: seq<byte>, k: nat)
    requires k <= |b|
    ensures (a + b)[|a| + k..] == b[k..] && (a + b)[..|a| + k] == a + b[..k]
  {
  }

  lemma {:induction false} OffsetAdd(ns: seq<Node>, a: nat, b: nat)
    requires a + b <= |ns|
    ensures Offset(ns, a + b) == Offset(ns, a) + Offset(ns[a..], b)
    decreases a
  {
    if a == 0 {
      assert ns[0..] == ns;
    } else {
      OffsetAdd(ns[1..], a - 1, b);
      assert ns[1..][a - 1..] == ns[a..];
    }
  }

  /** The text of a value and the node that closes it. */
  datatype Found = Found(text: seq<byte>, close: nat)

  /** The value scan over nodes: the first opening tag, then everything up to the first closing tag. */
  function ScanValue(ns: seq<Node>, x: seq<byte>, c: seq<byte>): (r: Option<Found>)
    ensures r.Some? ==> r.value.close < |ns|
  {
    var k := OpenIndex(ns, x);
    if k == |ns| then None else
    var inner := ns[k + 1..];
    var m := TagIndex(inner, c);
    if m == |inner| then None else Some(Found(ns[k].text + Render(inner[..m]), k + 1 + m))
  }

  /** The whole scan over nodes. */
  function ScanNodes(ns: seq<Node>, name: seq<byte>, x: seq<byte>, c: seq<byte>): (r: Option<Found>)
    ensures r.Some? ==> r.value.close < |ns|
  {
    var j := KeyIndex(ns, name);
    if j == |ns| then None else
    var found :- ScanValue(ns[j + 2..], x, c);
    Some(Found(found.text, j + 2 + found.close))
  }

  /** Inside an opening node: its tag ends at the first `>`, and its text follows. */
  lemma PastTag(n: Node, rest: seq<byte>)
    requires NodeOk(n)
    ensures FindSub(Source(n) + rest, [GT]) == Some(|n.tag| + 1)
    ensures (Source(n) + rest)[|n.tag| + 2..] == n.text + rest
  {
    var h := Source(n) + rest;
    assert h[|n.tag| + 1..|n.tag| + 2] == [GT];
    forall q | 0 <= q < |n.tag| + 1 ensures !OccursAt(h, [GT], q) {
      assert h[q] == ([LT] + n.tag)[q];
      OpensWith(h, [GT], q);
    }
    FoundAt(h, [GT], |n.tag| + 1);
  }

  /** The value scan, given where its three searches stop. */
  lemma ValueAt(h: seq<byte>, open: seq<byte>, close: seq<byte>, o: nat, n: Node, rest: seq<byte>)
    requires NodeOk(n) && o <= |h| && FindSub(h, open) == Some(o) && h[o..] == Source(n) + rest
    ensures ExtractValue(h, open, close, 0)
         == var w := FindSub(n.text + rest, close);
            if w.None? then None
            else Some(Match((n.text + rest)[..w.value], o + |n.tag| + 2 + w.value + |close|))
  {
    assert h[0..] == h;
    PastTag(n, rest);
    var i := |n.tag| + 2;
    DropDrop(h, o, i);
    var w := FindSub(n.text + rest, close);
    assert w.Some? ==> h[o + i..o + i + w.value] == h[o + i..][..w.value];
  }

  lemma ValueMissing(h: seq<byte>, open: seq<byte>, close: seq<byte>)
    requires FindSub(h, open) == None
    ensures ExtractValue(h, open, close, 0) == None
  {
    assert h[0..] == h;
  }

  lemma FindAfterText(text: seq<byte>, ns: seq<Node>, tail: seq<byte>, c: seq<byte>)
    requires LT !in text && NodesOk(ns) && GT !in c
    ensures var w, m := FindSub(text + (Render(ns) + tail), Tag(c)), TagIndex(ns, c);
            w == Shift(|text|, Stops(ns, m, tail, Tag(c)))
  {
    SkipText(text, Render(ns) + tail, Tag(c));
    SearchTag(ns, tail, c);
  }

  lemma TextUpTo(text: seq<byte>, ns: seq<Node>, tail: seq<byte>, m: nat)
    requires m <= |ns|
    ensures Offset(ns, m) <= |Render(ns) + tail|
    ensures (text + (Render(ns) + tail))[..|text| + Offset(ns, m)] == text + Render(ns[..m])
    ensures (text + (Render(ns) + tail))[|text| + Offset(ns, m)..] == Render(ns[m..]) + tail
  {
    DropNodes(ns, tail, m);
    PastPrefix(text, Render(ns) + tail, Offset(ns, m));
  }

  lemma FindNothing(needle: seq<byte>)
    ensures FindSub([], needle) == None
  {
  }

  lemma OffsetNext(ns: seq<Node>, k: nat, m: nat)
    requires k + 1 + m <= |ns|
    ensures Offset(ns, k + 1 + m) == Offset(ns, k) + |Source(ns[k])| + Offset(ns[k + 1..], m)
  {
    OffsetAdd(ns, k, 1 + m);
    assert ns[k..][1..] == ns[k + 1..];
  }

  lemma RenderFrom(ns: seq<Node>, tail: seq<byte>, k: nat)
    requires k < |ns|
    ensures Render(ns[k..]) + tail == Source(ns[k]) + (Render(ns[k + 1..]) + tail)
  {
    RenderCons(ns[k..], tail);
    assert ns[k..][1..] == ns[k + 1..];
  }

  /** The value scan of the bytes is the value scan of the nodes. */
  lemma ValueRefines(t: seq<byte>, ns: seq<Node>, tail: seq<byte>, x: seq<byte>, c: seq<byte>)
    requires LT !in t && NodesOk(ns) && GT !in x && GT !in c
    ensures Agrees(ExtractValue(t + (Render(ns) + tail), [LT] + x, Tag(c), 0), ScanValue(ns, x, c), |t|, ns, c, tail)
  {
    hide FindSub, ExtractValue, Render, Offset, OpenIndex, TagIndex;
    var h, k := t + (Render(ns) + tail), OpenIndex(ns, x);
    SkipText(t, Render(ns) + tail, [LT] + x);
    SearchOpen(ns, tail, x);
    if k < |ns| {
      var rest, m := ns[k + 1..], TagIndex(ns[k + 1..], c);
      TextUpTo(t, ns, tail, k);
      RenderFrom(ns, tail, k);
      ValueAt(h, [LT] + x, Tag(c), |t| + Offset(ns, k), ns[k], Render(rest) + tail);
      FindAfterText(ns[k].text, rest, tail, c);
      TextUpTo(ns[k].text, rest, tail, m);
      OffsetNext(ns, k, m);
      FindNothing(Tag(c));
    } else if tail == [] {
      FindNothing([LT] + x);
      ValueMissing(h, [LT] + x, Tag(c));
    }
  }

  /** A byte result and a node result that say the same thing, the text starting `t` bytes before the nodes. */
  predicate Agrees(r: Option<Match>, s: Option<Found>, t: nat, ns: seq<Node>, c: seq<byte>, tail: seq<byte>)
    requires s.Some? ==> s.value.close <= |ns|
  {
    if s.Some? then r == Some(Match(s.value.text, t + Offset(ns, s.value.close) + |Tag(c)|))
    else tail == [] ==> r == None
  }

  /** The byte scanner is the node scanner: for every prefix free of `<`, every list of nodes and, when the
      node scan succeeds, every bytes after them, it finds the same text and stops just past the same
      closing tag; and it fails where the node scan fails. */
  lemma ScanRefines(t: seq<byte>, ns: seq<Node>, tail: seq<byte>, name: seq<byte>, x: seq<byte>, c: seq<byte>)
    requires LT !in t && NodesOk(ns) && LT !in name && GT !in x && GT !in c
    ensures Agrees(ExtractTaggedFrom(t + (Render(ns) + tail), name, [LT] + x, Tag(c), 0),
                   ScanNodes(ns, name, x, c), |t|, ns, c, tail)
  {
    hide FindSub, ExtractValue, Render, Offset, KeyIndex, ScanValue;
    var h, j := t + (Render(ns) + tail), KeyIndex(ns, name);
    SkipText(t, Render(ns) + tail, KeyTag(name));
    if j < |ns| {
      SearchKey(ns, tail, name);
      KeyFound(t, ns, tail, name);
      var a, rest := |t| + Offset(ns, j) + |KeyTag(name)|, ns[j + 2..];
      ExtractAfterKey(h, name, [LT] + x, Tag(c), |t| + Offset(ns, j));
      ValueRefines(ns[j + 1].text, rest, tail, x, c);
      AfterKeyOffset(ns, j, name, ScanValue(rest, x, c));
    } else if tail == [] {
      SearchKey(ns, tail, name);
      FindNothing(KeyTag(name));
      assert h[0..] == h;
    }
  }

  /** Once the key is found, the scan is the value scan of what follows it. */
  lemma ExtractAfterKey(h: seq<byte>, name: seq<byte>, open: seq<byte>, close: seq<byte>, p: nat)
    requires FindSub(h, KeyTag(name)) == Some(p)
    ensures p + |KeyTag(name)| <= |h|
    ensures ExtractTaggedFrom(h, name, open, close, 0)
         == Moved(ExtractValue(h[p + |KeyTag(name)|..], open, close, 0), p + |KeyTag(name)|)
  {
    hide FindSub, ExtractValue;
    assert h[0..] == h;
    ValueShift(h, open, close, p + |KeyTag(name)|, 0);
  }

  lemma AfterKeyOffset(ns: seq<Node>, j: nat, name: seq<byte>, s: Option<Found>)
    requires j + 2 <= |ns| && ns[j] == Node(KEY, name) && ns[j + 1].tag == END_KEY
    requires s.Some? ==> j + 2 + s.value.close <= |ns|
    ensures s.Some? ==>
      Offset(ns, j + 2 + s.value.close)
      == Offset(ns, j) + |KeyTag(name)| + |ns[j + 1].text| + Offset(ns[j + 2..], s.value.close)
  {
    if s.Some? {
      OffsetAdd(ns, j + 2, s.value.close);
      OffsetTwo(ns, j);
    }
  }

  lemma {:induction false} KeyIndexIsKey(ns: seq<Node>, name: seq<byte>)
    requires KeyIndex(ns, name) < |ns|
    ensures IsKey(ns[KeyIndex(ns, name)..], name)
  {
    if !IsKey(ns, name) {
      KeyIndexIsKey(ns[1..], name);
      assert ns[1..][KeyIndex(ns[1..], name)..] == ns[KeyIndex(ns, name)..];
    }
  }

  lemma OffsetTwo(ns: seq<Node>, j: nat)
    requires j + 2 <= |ns|
    ensures Offset(ns, j + 2) == Offset(ns, j) + |Source(ns[j])| + |Source(ns[j + 1])|
  {
    OffsetAdd(ns, j, 2);
    assert Offset(ns[j..], 2) == |Source(ns[j])| + Offset(ns[j..][1..], 1);
    assert Offset(ns[j..][1..], 1) == |Source(ns[j + 1])| + Offset(ns[j..][1..][1..], 0);
  }

  /** What is left after a key: the text of its closing node, then the later nodes. */
  lemma KeyFound(t: seq<byte>, ns: seq<Node>, tail: seq<byte>, name: seq<byte>)
    requires NodesOk(ns) && KeyIndex(ns, name) < |ns|
    ensures var j := KeyIndex(ns, name);
            var a := |t| + Offset(ns, j) + |KeyTag(name)|;
            && ns[j] == Node(KEY, name) && ns[j + 1].tag == END_KEY
            && a <= |t + (Render(ns) + tail)|
            && (t + (Render(ns) + tail))[a..] == ns[j + 1].text + (Render(ns[j + 2..]) + tail)
  {
    hide Render, Offset, KeyIndex, Source, KeyTag;
    var h, j := t + (Render(ns) + tail), KeyIndex(ns, name);
    KeyIndexIsKey(ns, name);
    TextUpTo(t, ns, tail, j);
    RenderFrom(ns, tail, j);
    RenderFrom(ns, tail, j + 1);
    KeySource(ns[j], ns[j + 1], Render(ns[j + 2..]) + tail, name);
    DropDrop(h, |t| + Offset(ns, j), |KeyTag(name)|);
  }

  lemma KeySource(n: Node, next: Node, rest: seq<byte>, name: seq<byte>)
    requires n == Node(KEY, name) && next.tag == END_KEY
    ensures |KeyTag(name)| <= |Source(n) + (Source(next) + rest)|
    ensures (Source(n) + (Source(next) + rest))[|KeyTag(name)|..] == next.text + rest
  {
    assert Source(n) + (Source(next) + rest) == KeyTag(name) + (next.text + rest);
  }
}
