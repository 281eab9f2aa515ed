/** The synthetic-volume test of core/src/lib.rs, for every plan, reader and window. */
module Synthetic {
  import opened Bytes
  import opened Crypto
  import opened Device
  import opened Plaintext
  import opened Volume
  import opened Pipeline
  import opened Plan
  import opened Image
  import opened EndToEnd
  import opened Builder

  /** Build the image, unlock it over any reader that does not fail, and read any window: the info is the
      planned one and the bytes are the plaintext's. */
  method BuildUnlockRead(c: Cipher, p: Plan, total: nat, cursor: nat, schedule: seq<Event>, offset: u64, len: nat)
    returns (info: Info, bytes: seq<byte>)
    requires PlanOk(c, p) && Placed(p, total) && Fail !in schedule && len <= MAX_SLICE
    ensures SizesFit(p) && info == PlannedInfo(p)
    ensures bytes == Window(p.plaintext[..VolumeSize(p)], offset, len)
  {
    hide LaidOut, Placed, UnlockedOf, InfoOf, LayoutOf, ReadBytes, PlannedInfo;
    var image := BuildImage(c, p, total);
    ghost var data := image[..];
    PipelineUndoesBuilder(c, p, data);
    EndToEndRoundTrip(c, p, data, offset, len);
    var reader := new Reader(image[..], cursor, schedule);
    var unlocked := UnlockWithPassword(reader, c, p.password);
    var vol := unlocked.value;
    var buf := new byte[len](i => 0);
    var got := vol.decrypted.ReadAt(offset, buf, len);
    info, bytes := vol.info, buf[..got.value];
  }
}
