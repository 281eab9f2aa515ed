/** The substring machine of core/src/context.rs: first-occurrence search and the tag scanner on top of it. */
module Scan {
  import opened Wrappers
  import opened Bytes

  const LT: byte := 60
  const GT: byte := 62

  predicate OccursAt(h: seq<byte>, n: seq<byte>, p: nat) {
    p + |n| <= |h| && h[p..p + |n|] == n
  }

  function FindFrom(h: seq<byte>, n: seq<byte>, p: nat): (r: Option<nat>)
    ensures r.Some? ==> p <= r.value && r.value + |n| <= |h|
    decreases |h| - p
  {
    if |h| < p + |n| then None
    else if OccursAt(h, n, p) then Some(p)
    else FindFrom(h, n, p + 1)
  }

  /** `find_sub`: the position of the first window equal to a non-empty needle. */
  function FindSub(h: seq<byte>, n: seq<byte>): (r: Option<nat>)
    ensures r.Some? ==> n != [] && r.value + |n| <= |h|
  {
    if n == [] || |h| < |n| then None else FindFrom(h, n, 0)
  }

  lemma {:induction false} FoundFrom(h: seq<byte>, n: seq<byte>, p: nat)
    ensures var r := FindFrom(h, n, p);
            && (r.Some? ==> OccursAt(h, n, r.value) && forall q :: p <= q < r.value ==> !OccursAt(h, n, q))
            && (r.None? ==> forall q :: p <= q ==> !OccursAt(h, n, q))
    decreases |h| - p
  {
    if p + |n| <= |h| && !OccursAt(h, n, p) {
      FoundFrom(h, n, p + 1);
    }
  }

  /** The search answers with an occurrence that no other precedes, and fails only where there is none. */
  lemma FirstOccurrence(h: seq<byte>, n: seq<byte>)
    requires n != []
    ensures var r := FindSub(h, n);
            && (r.Some? ==> OccursAt(h, n, r.value) && forall q :: 0 <= q < r.value ==> !OccursAt(h, n, q))
            && (r.None? ==> forall q :: 0 <= q ==> !OccursAt(h, n, q))
  {
    FoundFrom(h, n, 0);
  }

  /** A first occurrence is found where it is. */
  lemma FoundAt(h: seq<byte>, n: seq<byte>, p: nat)
    requires n != [] && OccursAt(h, n, p) && forall q :: 0 <= q < p ==> !OccursAt(h, n, q)
    ensures FindSub(h, n) == Some(p)
  {
    FirstOccurrence(h, n);
  }

  function Shift(k: nat, r: Option<nat>): Option<nat> {
    if r.Some? then Some(k + r.value) else None
  }

  lemma OccursShift(a: seq<byte>, h: seq<byte>, n: seq<byte>, q: nat)
    ensures OccursAt(a + h, n, |a| + q) <==> OccursAt(h, n, q)
  {
    if q + |n| <= |h| {
      assert (a + h)[|a| + q..|a| + q + |n|] == h[q..q + |n|];
    }
  }

  /** Bytes in which no occurrence starts can be skipped. */
  lemma Skip(a: seq<byte>, h: seq<byte>, n: seq<byte>)
    requires n != [] && forall q :: 0 <= q < |a| ==> !OccursAt(a + h, n, q)
    ensures FindSub(a + h, n) == Shift(|a|, FindSub(h, n))
  {
    FirstOccurrence(h, n);
    FirstOccurrence(a + h, n);
    var r := FindSub(h, n);
    forall q: nat | r.Some? ==> q < |a| + r.value ensures !OccursAt(a + h, n, q) {
      if |a| <= q { OccursShift(a, h, n, q - |a|); }
    }
    if r.Some? {
      OccursShift(a, h, n, r.value);
      FoundAt(a + h, n, |a| + r.value);
    }
  }

  /** A needle that opens with `<` cannot start in bytes free of `<`. */
  lemma SkipText(a: seq<byte>, h: seq<byte>, n: seq<byte>)
    requires n != [] && n[0] == LT && LT !in a
    ensures FindSub(a + h, n) == Shift(|a|, FindSub(h, n))
  {
    forall q | 0 <= q < |a| ensures !OccursAt(a + h, n, q) {
      assert (a + h)[q] == a[q];
      OpensWith(a + h, n, q);
    }
    Skip(a, h, n);
  }

  lemma OpensWith(h: seq<byte>, n: seq<byte>, q: nat)
    requires n != [] && q < |h|
    ensures OccursAt(h, n, q) ==> h[q] == n[0]
  {
    if OccursAt(h, n, q) {
      assert h[q..q + |n|][0] == h[q];
    }
  }

  datatype Match = Match(text: seq<byte>, end: nat)

  const KEY: seq<byte> := Ascii("key")
  const END_KEY: seq<byte> := Ascii("/key")

  /** `<tag>`. */
  function Tag(tag: seq<byte>): seq<byte> { [LT] + tag + [GT] }

  /** `<key>NAME</key>`. */
  function KeyTag(name: seq<byte>): seq<byte> { Tag(KEY) + name + Tag(END_KEY) }

  /** `extract_tagged_from`: the key, then the opening tag, then its `>`, then the closing tag. */
  function ExtractTaggedFrom(m: seq<byte>, name: seq<byte>, open: seq<byte>, close: seq<byte>, from: nat): (r: Option<Match>)
    ensures r.Some? ==> from + |name| + 12 + |close| + |r.value.text| <= r.value.end <= |m|
  {
    if |m| < from then None else
    var start :- FindSub(m[from..], KeyTag(name));
    ExtractValue(m, open, close, from + start + |KeyTag(name)|)
  }

  /** The part of the scan after the key. */
  function ExtractValue(m: seq<byte>, open: seq<byte>, close: seq<byte>, afterKey: nat): (r: Option<Match>)
    requires afterKey <= |m|
    ensures r.Some? ==> afterKey + 1 + |close| + |r.value.text| <= r.value.end <= |m|
  {
    var openRel :- FindSub(m[afterKey..], open);
    var openAbs := afterKey + openRel;
    var gt :- FindSub(m[openAbs..], [GT]);
    var innerStart := openAbs + gt + 1;
    var closeRel :- FindSub(m[innerStart..], close);
    Some(Match(m[innerStart..innerStart + closeRel], innerStart + closeRel + |close|))
  }

  /** `p` is the first place at or after `from` where `n` occurs. */
  predicate FirstAt(m: seq<byte>, n: seq<byte>, from: nat, p: nat) {
    from <= p && OccursAt(m, n, p) && forall q :: from <= q < p ==> !OccursAt(m, n, q)
  }

  predicate Absent(m: seq<byte>, n: seq<byte>, from: nat) {
    forall q :: from <= q <= |m| ==> !OccursAt(m, n, q)
  }

  lemma FindRest(m: seq<byte>, n: seq<byte>, from: nat)
    requires n != [] && from <= |m|
    ensures var r := FindSub(m[from..], n);
            if r.Some? then FirstAt(m, n, from, from + r.value) else Absent(m, n, from)
  {
    hide OccursAt;
    var h := m[from..];
    assert m == m[..from] + h;
    FirstOccurrence(h, n);
    forall q: nat ensures OccursAt(m, n, from + q) <==> OccursAt(h, n, q) {
      OccursShift(m[..from], h, n, q);
    }
    forall q | from <= q ensures OccursAt(m, n, q) <==> OccursAt(h, n, q - from) {
      assert q == from + (q - from);
    }
  }

  /** The scan on arbitrary bytes, in places of the whole: the first key from `from` on, after it the first opening, from
      there the first `>`, after it the first closing tag; the text lies between the last two, and nothing is found
      exactly when one of the four is absent. */
  lemma ExtractChain(m: seq<byte>, name: seq<byte>, open: seq<byte>, close: seq<byte>, from: nat)
    returns (k: nat, o: nat, g: nat, c: nat)
    requires open != [] && close != []
    ensures var r, key := ExtractTaggedFrom(m, name, open, close, from), Ascii("<key>") + name + Ascii("</key>");
            if Absent(m, key, from) then r == None else
            FirstAt(m, key, from, k) &&
            if Absent(m, open, k + |key|) then r == None else
            FirstAt(m, open, k + |key|, o) &&
            if Absent(m, [62], o) then r == None else
            FirstAt(m, [62], o, g) &&
            if Absent(m, close, g + 1) then r == None else
            FirstAt(m, close, g + 1, c) && r == Some(Match(m[g + 1..c], c + |close|))
  {
    hide FindSub, OccursAt, Ascii;
    KeyLetters(name);
    var key := KeyTag(name);
    k, o, g, c := from, 0, 0, 0;
    if from <= |m| {
      FindRest(m, key, from);
      var start := FindSub(m[from..], key);
      if start.Some? {
        k := from + start.value;
        o, g, c := ValueChain(m, open, close, k + |key|);
      }
    }
    AtMost(m, key, from);
  }

  lemma AtMost(m: seq<byte>, n: seq<byte>, from: nat)
    requires n != []
    ensures |m| < from ==> Absent(m, n, from)
    ensures forall p: nat :: FirstAt(m, n, from, p) ==> p <= |m| && !Absent(m, n, from)
  {
    hide OccursAt;
    forall p: nat | OccursAt(m, n, p) ensures p <= |m| { Inside(m, n, p); }
  }

  lemma Inside(m: seq<byte>, n: seq<byte>, p: nat)
    requires OccursAt(m, n, p)
    ensures p + |n| <= |m|
  {
  }

  lemma KeyLetters(name: seq<byte>)
    ensures KeyTag(name) == Ascii("<key>") + name + Ascii("</key>") && KeyTag(name) != []
  {
    assert Tag(KEY) == Ascii("<key>") && Tag(END_KEY) == Ascii("</key>");
  }

  lemma ValueChain(m: seq<byte>, open: seq<byte>, close: seq<byte>, after: nat) returns (o: nat, g: nat, c: nat)
    requires after <= |m| && open != [] && close != []
    ensures var r := ExtractValue(m, open, close, after);
            if Absent(m, open, after) then r == None else
            FirstAt(m, open, after, o) &&
            if Absent(m, [62], o) then r == None else
            FirstAt(m, [62], o, g) &&
            if Absent(m, close, g + 1) then r == None else
            FirstAt(m, close, g + 1, c) && r == Some(Match(m[g + 1..c], c + |close|))
  {
    hide FindSub, OccursAt;
    o, g, c := 0, 0, 0;
    FindRest(m, open, after);
    AtMost(m, open, after);
    var openRel := FindSub(m[after..], open);
    if openRel.Some? {
      o := after + openRel.value;
      FindRest(m, [62], o);
      AtMost(m, [62], o);
      var gt := FindSub(m[o..], [62]);
      if gt.Some? {
        g := o + gt.value;
        FindRest(m, close, g + 1);
        AtMost(m, close, g + 1);
        var closeRel := FindSub(m[g + 1..], close);
        if closeRel.Some? { c := g + 1 + closeRel.value; }
      }
    }
  }

  lemma NotInside(h: seq<byte>, n: seq<byte>, p: nat, b: byte)
    requires OccursAt(h, n, p) && b !in n
    ensures forall j :: p <= j < p + |n| ==> h[j] != b
  {
    forall j | p <= j < p + |n| ensures h[j] != b {
      assert h[j] == h[p..p + |n|][j - p];
    }
  }

  /** An opening tag without `>` is consumed whole before its `>` is found. */
  lemma ValueWidth(m: seq<byte>, open: seq<byte>, close: seq<byte>, afterKey: nat)
    requires afterKey <= |m| && open != [] && GT !in open
    ensures var r := ExtractValue(m, open, close, afterKey);
            r.Some? ==> afterKey + |open| + 1 + |close| + |r.value.text| <= r.value.end
  {
    var openRel := FindSub(m[afterKey..], open);
    if openRel.Some? {
      var openAbs := afterKey + openRel.value;
      FirstOccurrence(m[afterKey..], open);
      NotInside(m[afterKey..], open, openRel.value, GT);
      FirstOccurrence(m[openAbs..], [GT]);
      var gt := FindSub(m[openAbs..], [GT]);
      if gt.Some? {
        OpensWith(m[openAbs..], [GT], gt.value);
        assert m[afterKey..][openRel.value + gt.value] == GT;
      }
    }
  }

  function Moved(r: Option<Match>, k: nat): Option<Match> {
    if r.Some? then Some(Match(r.value.text, k + r.value.end)) else None
  }

  lemma DropDrop(m: seq<byte>, a: nat, b: nat)
    requires a + b <= |m|
    ensures m[a..][b..] == m[a + b..]
  {
  }

  lemma InnerShift(m: seq<byte>, close: seq<byte>, from: nat, i: nat)
    requires from + i <= |m|
    ensures FindSub(m[from..][i..], close) == FindSub(m[from + i..], close)
    ensures var c := FindSub(m[from + i..], close);
            c.Some? ==> m[from..][i..i + c.value] == m[from + i..from + i + c.value]
  {
    DropDrop(m, from, i);
  }

  lemma ValueShift(m: seq<byte>, open: seq<byte>, close: seq<byte>, from: nat, k: nat)
    requires from + k <= |m|
    ensures ExtractValue(m, open, close, from + k) == Moved(ExtractValue(m[from..], open, close, k), from)
  {
    hide FindSub;
    var h := m[from..];
    DropDrop(m, from, k);
    var openRel := FindSub(h[k..], open);
    if openRel.Some? {
      var o := k + openRel.value;
      DropDrop(m, from, o);
      var gt := FindSub(h[o..], [GT]);
      if gt.Some? {
        var i := o + gt.value + 1;
        InnerShift(m, close, from, i);
      }
    }
  }

  /** Scanning from `from` is scanning the rest of the bytes from their start. */
  lemma ExtractShift(m: seq<byte>, name: seq<byte>, open: seq<byte>, close: seq<byte>, from: nat)
    requires from <= |m|
    ensures ExtractTaggedFrom(m, name, open, close, from) == Moved(ExtractTaggedFrom(m[from..], name, open, close, 0), from)
  {
    hide FindSub, ExtractValue;
    var h := m[from..];
    assert h[0..] == h;
    var start := FindSub(h, KeyTag(name));
    if start.Some? {
      ValueShift(m, open, close, from, start.value + |KeyTag(name)|);
    }
  }

  /** The successive matches from `from` on, each search starting where the previous match ended. */
  function Matches(m: seq<byte>, name: seq<byte>, open: seq<byte>, close: seq<byte>, from: nat): (ms: seq<Match>)
    decreases |m| - from
  {
    var r := ExtractTaggedFrom(m, name, open, close, from);
    if r.None? then [] else [r.value] + Matches(m, name, open, close, r.value.end)
  }

  /** What one match consumes at least: the key, the opening tag, its `>` and the closing tag. */
  function Width(name: seq<byte>, open: seq<byte>, close: seq<byte>): nat {
    |name| + 12 + |open| + |close|
  }

  lemma ExtractWidth(m: seq<byte>, name: seq<byte>, open: seq<byte>, close: seq<byte>, from: nat)
    requires open != [] && GT !in open && from <= |m|
    ensures var r := ExtractTaggedFrom(m, name, open, close, from);
            r.Some? ==> from + Width(name, open, close) + |r.value.text| <= r.value.end <= |m|
  {
    var start := FindSub(m[from..], KeyTag(name));
    if start.Some? {
      ValueWidth(m, open, close, from + start.value + |KeyTag(name)|);
    }
  }

  /** Each match lies after the previous one and inside the first `limit` bytes, and is `w` wide besides its text. */
  predicate Advancing(ms: seq<Match>, w: nat, from: nat, limit: nat) {
    ms == [] ||
      (from + w + |ms[0].text| <= ms[0].end <= limit && Advancing(ms[1..], w, ms[0].end, limit))
  }

  lemma {:induction false} AdvancingCount(ms: seq<Match>, w: nat, from: nat, limit: nat)
    requires from <= limit && Advancing(ms, w, from, limit)
    ensures |ms| * w <= limit - from
  {
    if ms != [] {
      AdvancingCount(ms[1..], w, ms[0].end, limit);
      Distribute(|ms| - 1, w);
    }
  }

  lemma Distribute(k: nat, w: nat)
    ensures (1 + k) * w == w + k * w
  {
  }

  /** On arbitrary bytes the matches are disjoint, strictly increasing and inside the bytes, and there are
      at most `len / Width` of them. */
  lemma {:induction false} MatchesAdvance(m: seq<byte>, name: seq<byte>, open: seq<byte>, close: seq<byte>, from: nat)
    requires open != [] && GT !in open && from <= |m|
    ensures Advancing(Matches(m, name, open, close, from), Width(name, open, close), from, |m|)
    ensures |Matches(m, name, open, close, from)| * Width(name, open, close) <= |m| - from
    decreases |m| - from
  {
    var r := ExtractTaggedFrom(m, name, open, close, from);
    if r.Some? {
      ExtractWidth(m, name, open, close, from);
      MatchesAdvance(m, name, open, close, r.value.end);
      assert Matches(m, name, open, close, from)[1..] == Matches(m, name, open, close, r.value.end);
    }
    AdvancingCount(Matches(m, name, open, close, from), Width(name, open, close), from, |m|);
  }
}
