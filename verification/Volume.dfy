/** The stateful decrypted-volume reader of core/src/volume.rs. */
module Volume {
  import opened Wrappers
  import opened Bytes
  import opened Crypto
  import opened Xts
  import opened Device
  import opened Plaintext

  /** The largest slice length of the source language. */
  const MAX_SLICE: nat := 0x7fff_ffff_ffff_ffff

  type i64 = x: int | -0x8000_0000_0000_0000 <= x < 0x8000_0000_0000_0000

  datatype SeekFrom = Start(at: u64) | End(delta: i64) | Current(delta: i64)

  /** `add_signed`: the exact integer sum, or an error when it leaves 64 unsigned bits. */
  function AddSigned(base: u64, offset: i64): (r: Result<u64, IoError>)
    ensures r.Ok? <==> 0 <= base + offset < TWO_64
    ensures r.Ok? ==> r.value == base + offset
    ensures r.Err? ==> r.error == InvalidInput
  {
    if 0 <= offset then
      (if base + offset < TWO_64 then Ok(base + offset) else Err(InvalidInput))
    else
      var magnitude := 0 - offset as int;
      if magnitude <= base then Ok(base - magnitude) else Err(InvalidInput)
  }

  class DecryptedVolume {
    const reader: Reader
    const cipher: Cipher
    const keys: VolumeKeys
    const physicalBase: u64
    const size: u64
    var position: u64

    constructor (reader: Reader, cipher: Cipher, keys: VolumeKeys, physicalBase: u64, size: u64)
      ensures this.reader == reader && position == 0
      ensures View() == Encrypted(cipher, keys.vmk, keys.tweakKey, physicalBase, size)
    {
      this.reader, this.cipher, this.keys := reader, cipher, keys;
      this.physicalBase, this.size, this.position := physicalBase, size, 0;
    }

    /** What the volume is, apart from its reader and its position. */
    ghost function View(): Layout {
      Encrypted(cipher, keys.vmk, keys.tweakKey, physicalBase, size)
    }

    /** Reads into `buf[..len]`. The count and the bytes are those of `ReadBytes`, whatever the reader's
        cursor and schedule were; bytes past the count are untouched; a fault is the only error. */
    method ReadAt(offset: u64, buf: array<byte>, len: nat) returns (r: Result<nat, Error>)
      requires len <= buf.Length && len <= MAX_SLICE
      modifies reader, buf
      ensures r.Ok? ==> r.value == Count(size, offset, len)
      ensures r.Ok? ==> buf[..r.value] == ReadBytes(reader.data, View(), offset, len)
      ensures r.Ok? ==> buf[r.value..] == old(buf[r.value..])
      ensures r.Err? ==> r.error == Io(Fault) && !old(reader.Faultless()) && buf[..] == old(buf[..])
      ensures old(reader.Faultless()) ==> reader.Faultless()
    {
      if size <= offset || len == 0 {
        return Ok(0);
      }
      var available: u64 := size - offset;
      var want := Min(len, available);

      var firstSector: u64 := offset / 512;
      var end: u64 := offset + want;
      var lastSector: u64 := (end - 1) / 512;
      var sectorCount: u64 := lastSector - firstSector + 1;
      var regionLen := sectorCount * 512;
      if TWO_64 <= regionLen {
        return Err(OutOfRange("read region length"));
      }
      assert regionLen == RegionLength(offset, want);

      var physical := Physical(physicalBase, firstSector);
      reader.Seek(physical);
      var region := FetchDecrypted(firstSector, regionLen);
      if region.Err? {
        return Err(Io(region.error));
      }

      var inner: u64 := offset - firstSector * 512;
      if region.value.Length < inner + want {
        return Err(OutOfRange("decrypted window"));
      }
      if buf.Length < want {
        return Err(OutOfRange("output buffer window"));
      }
      forall i | 0 <= i < want {
        buf[i] := region.value[inner + i];
      }
      r := Ok(want);
    }

    /** Fetch a region of whole sectors at the reader's cursor and decrypt it in place. */
    method FetchDecrypted(first: nat, len: nat) returns (r: Result<array<byte>, IoError>)
      requires len % 512 == 0
      modifies reader
      ensures r.Ok? ==> fresh(r.value) && r.value.Length == len
      ensures r.Ok? ==> forall k :: 0 <= k < len ==>
        r.value[k] == RegionByte(reader.data, View(), old(reader.cursor), first, k)
      ensures r.Err? ==> r.error == Fault && !old(reader.Faultless())
      ensures old(reader.Faultless()) ==> reader.Faultless()
    {
      ghost var pos := reader.cursor;
      r := Fetch(reader, len);
      if r.Ok? {
        DecryptSectors(r.value, cipher, keys, first, reader.data, pos, View());
      }
    }

    /** `Read::read`: a cursor over the plaintext. The position moves past the bytes delivered and
        never overflows; a failed read leaves it where it was. */
    method Read(buf: array<byte>, len: nat) returns (r: Result<nat, Error>)
      requires len <= buf.Length && len <= MAX_SLICE
      modifies this, reader, buf
      ensures r.Ok? ==> r.value == Count(size, old(position), len)
      ensures r.Ok? ==> buf[..r.value] == ReadBytes(reader.data, View(), old(position), len)
      ensures r.Ok? ==> buf[r.value..] == old(buf[r.value..])
      ensures position == old(position) + if r.Ok? then r.value else 0
      ensures r.Err? ==> !old(reader.Faultless()) && buf[..] == old(buf[..])
      ensures old(reader.Faultless()) ==> reader.Faultless()
    {
      r := ReadAt(position, buf, len);
      if r.Ok? {
        position := position + r.value;
      }
    }

    /** `Seek::seek`: the offset from the start, or the exact integer sum from the end or from the current position when
        it fits 64 bits; otherwise an error that leaves the position where it was. */
    method Seek(to: SeekFrom) returns (r: Result<u64, IoError>)
      modifies this
      ensures to.Start? ==> r == Ok(to.at)
      ensures to.End? ==> (r.Ok? <==> 0 <= size + to.delta < TWO_64) && (r.Ok? ==> r.value == size + to.delta)
      ensures to.Current? ==>
        (r.Ok? <==> 0 <= old(position) + to.delta < TWO_64) && (r.Ok? ==> r.value == old(position) + to.delta)
      ensures r.Err? ==> r.error == InvalidInput
      ensures position == if r.Ok? then r.value else old(position)
    {
      var target: u64;
      match to {
        case Start(o) => target := o;
        case End(o) => target :- AddSigned(size, o);
        case Current(o) => target :- AddSigned(position, o);
      }
      position := target;
      r := Ok(target);
    }
  }

  /** A zeroed region filled from the image: the tail past the end of the image stays zero. */
  method Fetch(reader: Reader, len: nat) returns (r: Result<array<byte>, IoError>)
    modifies reader
    ensures r.Ok? ==> fresh(r.value) && r.value.Length == len
    ensures r.Ok? ==> forall j :: 0 <= j < len ==> r.value[j] == Stored(reader.data, old(reader.cursor) + j)
    ensures r.Err? ==> r.error == Fault && !old(reader.Faultless())
    ensures old(reader.Faultless()) ==> reader.Faultless()
  {
    var region := new byte[len](i => 0);
    ghost var pos := reader.cursor;
    WindowLength(reader.data, pos, len);
    var filled := ReadFullOrEof(reader, region);
    if filled.Err? {
      return Err(filled.error);
    }
    forall j | 0 <= j < len ensures region[j] == Stored(reader.data, pos + j) {
      assert region[..][j] == region[j];
      assert j < |Window(reader.data, pos, len)| ==> Window(reader.data, pos, len)[j] == reader.data[pos + j];
    }
    r := Ok(region);
  }

  /** In-place decryption of a fetched region, sector by sector. */
  method DecryptSectors(region: array<byte>, c: Cipher, keys: VolumeKeys, first: nat,
                        ghost data: seq<byte>, ghost pos: nat, ghost v: Layout)
    requires region.Length % 512 == 0
    requires forall j :: 0 <= j < region.Length ==> region[j] == Stored(data, pos + j)
    requires v.unit == Decryptor(c, keys.vmk, keys.tweakKey, SECTOR)
    modifies region
    ensures forall k :: 0 <= k < region.Length ==> region[k] == RegionByte(data, v, pos, first, k)
  {
    ghost var before := region[..];
    DecryptUnits(region, c, keys.vmk, keys.tweakKey, 512, first);
    forall k | 0 <= k < region.Length ensures region[k] == RegionByte(data, v, pos, first, k) {
      DecryptedRegion(v, data, pos, first, before, k);
    }
  }
}
