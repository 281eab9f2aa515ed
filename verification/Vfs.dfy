/** The encryption-layer adapter of core/src/vfs.rs: the credential search and the shared decrypted source.
    Its locking under threads is the state machine of module Concurrency. */
module Vfs {
  import opened Wrappers
  import opened Bytes
  import opened Crypto
  import opened Device
  import opened Plaintext
  import opened Volume
  import opened Pipeline
  import Xts

  /** Only a password is wired; every other credential is skipped. */
  datatype Credential = Password(text: seq<byte>) | Other

  /** `Decode` carries the error whose text the source formats. */
  datatype VfsError = NeedCredentials | Decode(detail: Error)

  /** The credential unlocks the image. */
  predicate Works(c: Cipher, data: seq<byte>, cred: Credential) {
    cred.Password? && UnlockedOf(c, data, cred.text).Ok?
  }

  /** Credential `k` is the last password among the first `n`. */
  predicate LastPassword(creds: seq<Credential>, n: nat, k: int) {
    0 <= k < n <= |creds| && creds[k].Password? && forall j :: k < j < n ==> creds[j].Other?
  }

  predicate NoPassword(creds: seq<Credential>, n: nat) {
    n <= |creds| && forall j :: 0 <= j < n ==> creds[j].Other?
  }

  /** Every attempt gets a fresh reader; this one never fails a read. */
  ghost predicate NeverFails(schedules: seq<seq<Event>>) {
    forall i :: 0 <= i < |schedules| ==> Fail !in schedules[i]
  }

  /** `source` is the volume that `password` unlocks. */
  ghost predicate UnlockedBy(source: FileVaultSource, c: Cipher, data: seq<byte>, password: seq<byte>)
    reads source.inner.decrypted
  {
    && UnlockedOf(c, data, password).Ok?
    && var u := UnlockedOf(c, data, password).value;
       && source.inner.decrypted.reader.data == data && source.len == u.size
       && Presents(source.inner, c, u, source.inner.decrypted.reader)
  }

  /** `open`: the volume of the first password that works, whatever failed before it; otherwise the last
      password's error; a request for credentials exactly when no password was offered. */
  method Open(c: Cipher, data: seq<byte>, creds: seq<Credential>, schedules: seq<seq<Event>>)
    returns (r: Result<FileVaultSource, VfsError>)
    requires |schedules| == |creds|
    ensures r.Ok? ==> exists i :: 0 <= i < |creds| && Works(c, data, creds[i]) && UnlockedBy(r.value, c, data, creds[i].text)
    ensures r == Err(NeedCredentials) <==> NoPassword(creds, |creds|)
    ensures r.Err? && r.error.Decode? ==>
      exists k :: LastPassword(creds, |creds|, k)
                  && Answers(Err(r.error.detail), UnlockedOf(c, data, creds[k].text), Fail !in schedules[k])
    ensures NeverFails(schedules) ==>
      (r.Ok? <==> exists i :: 0 <= i < |creds| && Works(c, data, creds[i]))
    ensures NeverFails(schedules) && r.Ok? ==>
      exists i :: 0 <= i < |creds| && Works(c, data, creds[i]) && UnlockedBy(r.value, c, data, creds[i].text)
                  && forall j :: 0 <= j < i ==> !Works(c, data, creds[j])
    ensures NeverFails(schedules) && r.Err? && r.error.Decode? ==>
      exists k :: LastPassword(creds, |creds|, k) && UnlockedOf(c, data, creds[k].text) == Err(r.error.detail)
  {
    hide UnlockedOf, Xts.Decryptor;
    if creds == [] {
      return Err(NeedCredentials);
    }
    var lastErr: Option<Error> := None;
    ghost var last := -1;
    for k := 0 to |creds|
      invariant if lastErr.None? then NoPassword(creds, k) else LastPassword(creds, k, last)
      invariant NeverFails(schedules) ==> forall j :: 0 <= j < k ==> !Works(c, data, creds[j])
      invariant lastErr.Some? ==>
                  Answers(Err(lastErr.value), UnlockedOf(c, data, creds[last].text), Fail !in schedules[last])
    {
      if creds[k].Password? {
        var cursor := new Reader(data, 0, schedules[k]);
        var unlocked := UnlockWithPassword(cursor, c, creds[k].text);
        match unlocked {
          case Ok(vol) =>
            var source := new FileVaultSource(vol);
            assert Works(c, data, creds[k]) && UnlockedBy(source, c, data, creds[k].text);
            return Ok(source);
          case Err(e) =>
            lastErr := Some(e);
            last := k;
        }
      }
    }
    return if lastErr.Some? then Err(Decode(lastErr.value)) else Err(NeedCredentials);
  }

  /** A decrypted volume as a read-only source; the lock serialises the calls. */
  class FileVaultSource {
    const inner: FileVaultVolume
    const len: u64

    constructor (vol: FileVaultVolume)
      ensures inner == vol && len == vol.decrypted.size
    {
      inner, len := vol, vol.decrypted.size;
    }

    /** `read_at`: the count and the bytes of a solo read into the same buffer; the stream position of the
        volume is never touched. */
    method ReadAt(offset: u64, buf: array<byte>) returns (r: Result<nat, VfsError>)
      requires len == inner.decrypted.size && buf.Length <= MAX_SLICE
      modifies inner.decrypted.reader, buf
      ensures r.Ok? ==> r.value == Count(len, offset, buf.Length)
      ensures r.Ok? ==> buf[..r.value] == ReadBytes(inner.decrypted.reader.data, inner.decrypted.View(), offset, buf.Length)
      ensures r.Ok? ==> buf[r.value..] == old(buf[r.value..])
      ensures r.Err? ==> r.error == Decode(Io(Fault)) && !old(inner.decrypted.reader.Faultless()) && buf[..] == old(buf[..])
    {
      var avail := if len <= offset then 0 else len - offset;
      if avail == 0 {
        return Ok(0);
      }
      var want := Min(buf.Length, avail);
      SameWindow(inner.decrypted.reader.data, inner.decrypted.View(), offset, want, buf.Length);
      var got := inner.decrypted.ReadAt(offset, buf, want);
      match got {
        case Ok(n) => return Ok(n);
        case Err(e) => return Err(Decode(e));
      }
    }
  }

  /** Asking for no more than is left gives the same answer. */
  lemma SameWindow(data: seq<byte>, v: Layout, offset: nat, want: nat, len: nat)
    requires offset < v.size && want == Min(len, v.size - offset)
    ensures ReadBytes(data, v, offset, want) == ReadBytes(data, v, offset, len)
  {
  }
}
