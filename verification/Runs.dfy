/** Whole runs of reads and seeks on a decrypted volume, against a cursor over the plaintext. */
module Runs {
  import opened Bytes
  import opened Plaintext
  import opened Volume

  datatype Op = Read(len: nat) | Seek(to: SeekFrom)
  datatype Outcome = Delivered(bytes: seq<byte>) | At(position: u64) | Refused | Faulted

  /** The place a seek asks for, which need not be one. */
  function Target(size: u64, position: u64, to: SeekFrom): int {
    match to
    case Start(at) => at
    case End(delta) => size + delta
    case Current(delta) => position + delta
  }

  /** The cursor after one operation: a seek outside 64 unsigned bits leaves it. */
  function Move(v: Layout, position: u64, op: Op): u64 {
    match op
    case Read(len) => position + Count(v.size, position, len)
    case Seek(to) => var t := Target(v.size, position, to); if 0 <= t < TWO_64 then t else position
  }

  /** What a cursor over the plaintext answers. */
  function Answer(data: seq<byte>, v: Layout, position: u64, op: Op): Outcome {
    match op
    case Read(len) => Delivered(Plain(data, v, position, position + Count(v.size, position, len)))
    case Seek(to) => var t := Target(v.size, position, to); if 0 <= t < TWO_64 then At(t) else Refused
  }

  function Moves(v: Layout, position: u64, ops: seq<Op>): u64
    decreases |ops|
  {
    if ops == [] then position else Moves(v, Move(v, position, ops[0]), ops[1..])
  }

  function Answers(data: seq<byte>, v: Layout, position: u64, ops: seq<Op>): seq<Outcome>
    decreases |ops|
  {
    if ops == [] then []
    else [Answer(data, v, position, ops[0])] + Answers(data, v, Move(v, position, ops[0]), ops[1..])
  }

  /** The cursor after an operation with the given outcome: a faulted read leaves it. */
  function After(v: Layout, position: u64, op: Op, o: Outcome): u64 {
    if o.Faulted? then position else Move(v, position, op)
  }

  /** One operation of the object: the bytes that `read_at` computes, or a fault; the exact seek target, or a refusal. */
  predicate StepOk(data: seq<byte>, v: Layout, position: u64, op: Op, o: Outcome) {
    match op
    case Read(len) => o == Faulted || o == Delivered(ReadBytes(data, v, position, len))
    case Seek(to) => o == Answer(data, v, position, op)
  }

  /** The outcomes of a run from `start`, and where it leaves the cursor. */
  ghost predicate Follows(data: seq<byte>, v: Layout, start: u64, ops: seq<Op>, out: seq<Outcome>, end: u64)
    requires |out| == |ops|
    decreases |ops|
  {
    if ops == [] then start == end
    else
      var n := |ops| - 1;
      exists at: u64 :: Follows(data, v, start, ops[..n], out[..n], at)
                        && StepOk(data, v, at, ops[n], out[n]) && end == After(v, at, ops[n], out[n])
  }

  lemma FollowsAppend(data: seq<byte>, v: Layout, start: u64, ops: seq<Op>, out: seq<Outcome>, at: u64, op: Op, o: Outcome)
    requires |out| == |ops| && Follows(data, v, start, ops, out, at) && StepOk(data, v, at, op, o)
    ensures Follows(data, v, start, ops + [op], out + [o], After(v, at, op, o))
  {
    hide StepOk, After;
    var n, allOps, allOut := |ops|, ops + [op], out + [o];
    assert allOps[..n] == ops && allOut[..n] == out && allOps[n] == op && allOut[n] == o;
    assert Follows(data, v, start, allOps[..n], allOut[..n], at);
  }

  /** Every run of the object, over every reader: each read delivers what `read_at` computes at the position the
      earlier operations left, or faults and leaves it; each seek is exact. Without faults and inside the 64-bit
      address space the whole run answers as a cursor over the plaintext. */
  method Run(vol: DecryptedVolume, ops: seq<Op>) returns (out: seq<Outcome>)
    requires forall op :: op in ops && op.Read? ==> op.len <= MAX_SLICE
    modifies vol, vol.reader
    ensures |out| == |ops| && Follows(vol.reader.data, vol.View(), old(vol.position), ops, out, vol.position)
    ensures old(vol.reader.Faultless()) ==> Faulted !in out
    ensures Faulted !in out && vol.physicalBase + vol.size <= TWO_64 ==>
      && out == Answers(vol.reader.data, vol.View(), old(vol.position), ops)
      && vol.position == Moves(vol.View(), old(vol.position), ops)
  {
    hide Answers, Moves, Follows, ReadBytes;
    out := [];
    ghost var data, v, start := vol.reader.data, vol.View(), vol.position;
    NoRun(data, v, start);
    for i := 0 to |ops|
      invariant old(vol.reader.Faultless()) ==> vol.reader.Faultless() && Faulted !in out
      invariant |out| == i && Follows(data, v, start, ops[..i], out, vol.position)
    {
      ghost var at := vol.position;
      assert ops[..i + 1] == ops[..i] + [ops[i]];
      var o := Step(vol, ops[i]);
      FollowsAppend(data, v, start, ops[..i], out, at, ops[i], o);
      out := out + [o];
    }
    assert ops[..|ops|] == ops;
    if Faulted !in out && vol.physicalBase + vol.size <= TWO_64 {
      FollowsAnswers(data, v, start, ops, out, vol.position);
    }
  }

  lemma NoRun(data: seq<byte>, v: Layout, start: u64)
    ensures Follows(data, v, start, [], [], start)
  {
  }

  method Step(vol: DecryptedVolume, op: Op) returns (o: Outcome)
    requires op.Read? ==> op.len <= MAX_SLICE
    modifies vol, vol.reader
    ensures StepOk(vol.reader.data, vol.View(), old(vol.position), op, o)
    ensures vol.position == After(vol.View(), old(vol.position), op, o)
    ensures old(vol.reader.Faultless()) ==> vol.reader.Faultless() && !o.Faulted?
  {
    match op {
      case Read(len) =>
        var buf := new byte[len](j => 0);
        var n := vol.Read(buf, len);
        o := if n.Ok? then Delivered(buf[..n.value]) else Faulted;
      case Seek(to) =>
        var r := vol.Seek(to);
        o := if r.Ok? then At(r.value) else Refused;
    }
  }

  lemma {:induction false} AnswersAppend(data: seq<byte>, v: Layout, position: u64, ops: seq<Op>, op: Op)
    ensures Moves(v, position, ops + [op]) == Move(v, Moves(v, position, ops), op)
    ensures Answers(data, v, position, ops + [op])
         == Answers(data, v, position, ops) + [Answer(data, v, Moves(v, position, ops), op)]
    decreases |ops|
  {
    if ops == [] {
      assert [op][1..] == [];
    } else {
      AnswersAppend(data, v, Move(v, position, ops[0]), ops[1..], op);
      assert (ops + [op])[1..] == ops[1..] + [op];
    }
  }

  /** A run without faults, inside the 64-bit address space, answers as a cursor over the plaintext. */
  lemma {:induction false} FollowsAnswers(data: seq<byte>, v: Layout, start: u64, ops: seq<Op>, out: seq<Outcome>, end: u64)
    requires |out| == |ops| && Follows(data, v, start, ops, out, end) && Faulted !in out && v.base + v.size <= TWO_64
    ensures out == Answers(data, v, start, ops) && end == Moves(v, start, ops)
    decreases |ops|
  {
    hide Answers, Moves, StepOk, After, Answer, Move;
    if ops == [] {
      NoAnswers(data, v, start);
    } else {
      var n := |ops| - 1;
      var at: u64 :| Follows(data, v, start, ops[..n], out[..n], at)
                     && StepOk(data, v, at, ops[n], out[n]) && end == After(v, at, ops[n], out[n]);
      FollowsAnswers(data, v, start, ops[..n], out[..n], at);
      AnswersAppend(data, v, start, ops[..n], ops[n]);
      assert ops == ops[..n] + [ops[n]] && out == out[..n] + [out[n]];
      assert out[n] in out;
      StepAnswers(data, v, at, ops[n], out[n]);
    }
  }

  lemma StepAnswers(data: seq<byte>, v: Layout, at: u64, op: Op, o: Outcome)
    requires StepOk(data, v, at, op, o) && !o.Faulted? && v.base + v.size <= TWO_64
    ensures o == Answer(data, v, at, op) && After(v, at, op, o) == Move(v, at, op)
  {
    hide ReadBytes, Plain;
    if op.Read? { ReadIsPlain(data, v, at, op.len); }
  }

  lemma NoAnswers(data: seq<byte>, v: Layout, start: u64)
    ensures Answers(data, v, start, []) == [] && Moves(v, start, []) == start
  {
  }

  lemma ReadIsPlain(data: seq<byte>, v: Layout, at: u64, len: nat)
    requires v.base + v.size <= TWO_64
    ensures ReadBytes(data, v, at, len) == Plain(data, v, at, at + Count(v.size, at, len))
  {
    if at < v.size { ReadRefinesPlain(data, v, at, len); }
  }

  function Sum(lens: seq<nat>): nat {
    if lens == [] then 0 else lens[0] + Sum(lens[1..])
  }

  function Reads(lens: seq<nat>): seq<Op> {
    seq(|lens|, i requires 0 <= i < |lens| => Read(lens[i]))
  }

  function Joined(out: seq<Outcome>): seq<byte> {
    if out == [] then []
    else (if out[0].Delivered? then out[0].bytes else []) + Joined(out[1..])
  }

  /** Consecutive reads concatenate to consecutive plaintext, cut at the end of the volume; past the end
      they deliver nothing. */
  lemma {:induction false} ConsecutiveReads(data: seq<byte>, v: Layout, position: u64, lens: seq<nat>)
    ensures var n := Count(v.size, position, Sum(lens));
            && Joined(Answers(data, v, position, Reads(lens))) == Plain(data, v, position, position + n)
            && Moves(v, position, Reads(lens)) == position + n
    decreases |lens|
  {
    hide Plain, Answers, Moves, Joined, Sum, Answer, Move;
    if lens == [] {
      NoReads(data, v, position);
    } else {
      var next := Move(v, position, Read(lens[0]));
      ConsecutiveReads(data, v, next, lens[1..]);
      FirstRead(data, v, position, lens);
      var n := Count(v.size, position, Sum(lens));
      PlainConcat(data, v, position, next, position + n);
    }
  }

  lemma NoReads(data: seq<byte>, v: Layout, position: u64)
    ensures Sum([]) == 0 && Joined(Answers(data, v, position, Reads([]))) == [] == Plain(data, v, position, position)
    ensures Moves(v, position, Reads([])) == position
  {
  }

  lemma FirstRead(data: seq<byte>, v: Layout, position: u64, lens: seq<nat>)
    requires lens != []
    ensures var next := Move(v, position, Read(lens[0]));
            && next == position + Count(v.size, position, lens[0])
            && Sum(lens) == lens[0] + Sum(lens[1..])
            && Moves(v, position, Reads(lens)) == Moves(v, next, Reads(lens[1..]))
            && Joined(Answers(data, v, position, Reads(lens)))
               == Plain(data, v, position, next) + Joined(Answers(data, v, next, Reads(lens[1..])))
  {
    hide Plain;
    assert Reads(lens)[1..] == Reads(lens[1..]) && Reads(lens)[0] == Read(lens[0]);
    var a := Answer(data, v, position, Read(lens[0]));
    var rest := Answers(data, v, Move(v, position, Read(lens[0])), Reads(lens[1..]));
    assert ([a] + rest)[1..] == rest;
  }
}
