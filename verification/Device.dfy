/** A `Read + Seek` source over a byte image: short reads, interrupts and faults come from a schedule,
    so that a statement over every schedule is a statement over every reader that keeps the contract. */
module Device {
  import opened Wrappers
  import opened Bytes

  /** What one `read` call may do before it transfers bytes. */
  datatype Event = Chunk(most: nat) | Interrupt | Fail

  /** The bytes stored at `pos..pos + len`, cut at the end of the image. */
  function Window(data: seq<byte>, pos: nat, len: nat): (w: seq<byte>)
    ensures |w| <= len
    ensures pos + len <= |data| ==> w == data[pos..pos + len]
  {
    if |data| <= pos then [] else data[pos..Min(pos + len, |data|)]
  }

  lemma WindowLength(data: seq<byte>, pos: nat, len: nat)
    ensures |Window(data, pos, len)| == if |data| <= pos then 0 else Min(len, |data| - pos)
  {
  }

  lemma WindowSplit(data: seq<byte>, pos: nat, len: nat, n: nat)
    requires n <= |Window(data, pos, len)|
    ensures Window(data, pos, n) == Window(data, pos, len)[..n]
    ensures Window(data, pos + n, len - n) == Window(data, pos, len)[n..]
  {
  }

  class Reader {
    const data: seq<byte>
    var cursor: nat
    var schedule: seq<Event>

    constructor (data: seq<byte>, cursor: nat, schedule: seq<Event>)
      ensures this.data == data && this.cursor == cursor && this.schedule == schedule
    {
      this.data, this.cursor, this.schedule := data, cursor, schedule;
    }

    ghost predicate Faultless()
      reads this
    {
      Fail !in schedule
    }

    method Seek(pos: nat)
      modifies this
      ensures cursor == pos && schedule == old(schedule)
    {
      cursor := pos;
    }

    /** `read(&mut buf[at..])`: at least one byte unless there is nothing to read or nowhere to put it. */
    method Read(buf: array<byte>, at: nat) returns (r: Result<nat, IoError>)
      requires at <= buf.Length
      modifies this, buf
      ensures |schedule| <= |old(schedule)| && (old(Faultless()) ==> Faultless())
      ensures r.Err? ==> cursor == old(cursor) && |schedule| < |old(schedule)|
      ensures r.Err? ==> r.error.Interrupted? || (r.error.Fault? && !old(Faultless()))
      ensures r.Ok? ==> at + r.value <= buf.Length && cursor == old(cursor) + r.value
      ensures r.Ok? ==> (r.value == 0 <==> at == buf.Length || |data| <= old(cursor))
      ensures r.Ok? && r.value > 0 ==> cursor <= |data|
      ensures var n := if r.Ok? then r.value else 0;
              && (forall i :: 0 <= i < buf.Length && !(at <= i < at + n) ==> buf[i] == old(buf[i]))
              && (forall i :: at <= i < at + n ==> buf[i] == data[old(cursor) + (i - at)])
    {
      var most := buf.Length;
      if schedule != [] {
        var event := schedule[0];
        schedule := schedule[1..];
        match event {
          case Interrupt => return Err(Interrupted);
          case Fail => return Err(Fault);
          case Chunk(n) => most := if n == 0 then 1 else n;
        }
      }
      var w := Window(data, cursor, Min(most, buf.Length - at));
      assert forall j :: 0 <= j < |w| ==> w[j] == data[cursor + j];
      forall i | at <= i < at + |w| {
        buf[i] := w[i - at];
      }
      cursor := cursor + |w|;
      r := Ok(|w|);
    }
  }

  /** The read loop: fills `buf` with the stored bytes up to the end of the image, whatever the
      schedule of short reads and interrupts; what lies past the end keeps its old contents. */
  method ReadFullOrEof(reader: Reader, buf: array<byte>) returns (r: Result<(), IoError>)
    modifies reader, buf
    ensures |reader.schedule| <= |old(reader.schedule)| && (old(reader.Faultless()) ==> reader.Faultless())
    ensures r.Err? ==> r.error.Fault? && !old(reader.Faultless())
    ensures reader.cursor >= old(reader.cursor)
    ensures var w, f := Window(reader.data, old(reader.cursor), buf.Length), reader.cursor - old(reader.cursor);
            f <= |w| && (r.Ok? ==> f == |w|) && buf[..] == w[..f] + old(buf[..])[f..]
  {
    var filled := 0;
    ghost var start, before := reader.cursor, buf[..];
    while filled < buf.Length
      invariant filled <= buf.Length && reader.cursor == start + filled
      invariant filled > 0 ==> reader.cursor <= |reader.data|
      invariant forall i :: 0 <= i < filled ==> buf[i] == reader.data[start + i]
      invariant forall i :: filled <= i < buf.Length ==> buf[i] == before[i]
      invariant |reader.schedule| <= |old(reader.schedule)| && (old(reader.Faultless()) ==> reader.Faultless())
      decreases |reader.schedule|, buf.Length - filled
    {
      var got := reader.Read(buf, filled);
      match got {
        case Ok(n) =>
          if n == 0 { break; }
          filled := filled + n;
        case Err(e) =>
          if !e.Interrupted? { return Err(e); }
      }
    }
    r := Ok(());
  }

  /** What `read_exact` returns over an image, whatever the schedule. */
  function Exact(data: seq<byte>, pos: nat, len: nat): (r: Result<seq<byte>, Error>)
    ensures r.Ok? <==> len == 0 || pos + len <= |data|
    ensures r.Ok? ==> |r.value| == len
  {
    if len == 0 || pos + len <= |data| then Ok(Window(data, pos, len)) else Err(Io(UnexpectedEof))
  }

  /** `seek` then `read_exact` into a fresh buffer: a short image is an error, never a short result. */
  method ReadExactAt(reader: Reader, pos: nat, len: nat) returns (r: Result<array<byte>, Error>)
    modifies reader
    ensures old(reader.Faultless()) ==> reader.Faultless()
    ensures r.Ok? ==> fresh(r.value) && Exact(reader.data, pos, len) == Ok(r.value[..])
    ensures r.Err? ==> r.error == Io(Fault) || Exact(reader.data, pos, len) == Err(r.error)
    ensures old(reader.Faultless()) ==> r != Err(Io(Fault))
  {
    reader.Seek(pos);
    var buf := new byte[len](i => 0);
    WindowLength(reader.data, pos, len);
    var filled := ReadFullOrEof(reader, buf);
    if filled.Err? {
      return Err(Io(filled.error));
    }
    if reader.cursor < pos + len {
      return Err(Io(UnexpectedEof));
    }
    assert buf[..] == Window(reader.data, pos, len);
    r := Ok(buf);
  }
}
