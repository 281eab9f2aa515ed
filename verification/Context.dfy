/** Extraction of the encryption context and of the logical-volume record (core/src/context.rs). */
module Context {
  import opened Wrappers
  import opened Bytes
  import opened Scan
  import opened Entries
  import opened Numbers
  import opened KeyWrap
  import opened Unlock
  import Base64

  const PASSPHRASE_STRUCT: seq<byte> := Ascii("PassphraseWrappedKEKStruct")
  const KEK_STRUCT: seq<byte> := Ascii("KEKWrappedVolumeKeyStruct")
  const BLOCK_ALGORITHM: seq<byte> := Ascii("BlockAlgorithm")
  const USER_TYPE: seq<byte> := Ascii("UserType")
  const CONVERSION_STATUS: seq<byte> := Ascii("ConversionStatus")
  const FAMILY_UUID: seq<byte> := Ascii("com.apple.corestorage.lv.familyUUID")
  const LV_SIZE: seq<byte> := Ascii("com.apple.corestorage.lv.size")
  const LV_UUID: seq<byte> := Ascii("com.apple.corestorage.lv.uuid")
  const LV_NAME: seq<byte> := Ascii("com.apple.corestorage.lv.name")
  const AES_XTS: seq<byte> := Ascii("AES-XTS")

  /** Largest base64 text that is decoded. */
  const MAX_BASE64_BLOB: nat := 4096
  /** Most protectors that are listed. */
  const MAX_PROTECTORS: nat := 64
  const TWO_32: nat := 0x1_0000_0000

  predicate IsSpace(b: byte) {
    b == 9 || b == 10 || b == 12 || b == 13 || b == 32
  }

  /** The text without ASCII white space. */
  function Stripped(s: seq<byte>): seq<byte> {
    if s == [] then [] else (if IsSpace(s[0]) then [] else [s[0]]) + Stripped(s[1..])
  }

  function ExtractData(m: seq<byte>, name: seq<byte>): Option<seq<byte>> {
    var value :- ExtractTaggedFrom(m, name, Data.Open(), Data.Close(), 0);
    DecodeBlob(value.text)
  }

  function DecodeBlob(text: seq<byte>): Option<seq<byte>> {
    if |Stripped(text)| > MAX_BASE64_BLOB then None else Base64.Decode(Stripped(text))
  }

  function ExtractString(m: seq<byte>, name: seq<byte>): Option<seq<byte>> {
    var value :- ExtractTaggedFrom(m, name, Text.Open(), Text.Close(), 0);
    if Utf8(value.text) then Some(value.text) else None
  }

  /** A plist integer below `bound` and the index just past its closing tag. */
  function ExtractIntegerFrom(m: seq<byte>, name: seq<byte>, bound: nat, from: nat): (r: Option<(nat, nat)>)
    ensures r.Some? ==> from < r.value.1 <= |m|
    ensures r.Some? && 0 < bound ==> r.value.0 < bound
  {
    var value :- ExtractTaggedFrom(m, name, Integer.Open(), Integer.Close(), from);
    var parsed :- ParseInteger(value.text, bound);
    Some((parsed, value.end))
  }

  datatype ProtectorKind = Password | Recovery | Institutional | Unknown
  datatype Protector = Protector(userType: nat, kind: ProtectorKind)

  function Classify(userType: nat): (p: Protector)
    ensures p.userType == userType
    ensures p.kind.Password? <==> userType == 0x1000_0001
    ensures p.kind.Recovery? <==> userType == 0x1000_0009
    ensures p.kind.Institutional? <==> userType in {0x1000_0005, 0x1000_000f}
  {
    Protector(userType,
      if userType == 0x1000_0001 then Password
      else if userType == 0x1000_0009 then Recovery
      else if userType == 0x1000_0005 || userType == 0x1000_000f then Institutional
      else Unknown)
  }

  /** The decoded values of a run of matches, up to the first one that does not parse. */
  function Values(ms: seq<Match>): seq<nat> {
    if ms == [] then []
    else
      var v := ParseInteger(ms[0].text, TWO_32);
      if v.None? then [] else [v.value] + Values(ms[1..])
  }

  function UserTypeMatches(m: seq<byte>, from: nat): seq<Match> {
    Matches(m, USER_TYPE, Integer.Open(), Integer.Close(), from)
  }

  function Classified(vs: seq<nat>): seq<Protector> {
    seq(|vs|, i requires 0 <= i < |vs| => Classify(vs[i]))
  }

  /** The first `MAX_PROTECTORS` decoded values of the successive UserType matches. */
  function Protectors(m: seq<byte>): seq<Protector> {
    var vs := Values(UserTypeMatches(m, 0));
    Classified(vs[..Min(MAX_PROTECTORS, |vs|)])
  }

  lemma ValuesStep(m: seq<byte>, from: nat)
    ensures var r, vs := ExtractIntegerFrom(m, USER_TYPE, TWO_32, from), Values(UserTypeMatches(m, from));
            if r.None? then vs == [] else vs == [r.value.0] + Values(UserTypeMatches(m, r.value.1))
  {
    hide ExtractTaggedFrom, ParseInteger;
    MatchesUnfold(m, USER_TYPE, Integer, from);
  }

  /** `extract_protectors`: the cursor loop over UserType integers. */
  method ExtractProtectors(m: seq<byte>) returns (out: seq<Protector>)
    ensures out == Protectors(m)
  {
    hide Values, UserTypeMatches, ExtractTaggedFrom, ParseInteger;
    out := [];
    var cursor := 0;
    ghost var vs := Values(UserTypeMatches(m, 0));
    while true
      invariant |out| < MAX_PROTECTORS && |out| <= |vs|
      invariant out == Classified(vs[..|out|])
      invariant vs[|out|..] == Values(UserTypeMatches(m, cursor))
      invariant cursor <= |m|
      decreases |m| - cursor
    {
      ValuesStep(m, cursor);
      var r := ExtractIntegerFrom(m, USER_TYPE, TWO_32, cursor);
      if r.None? {
        break;
      }
      assert vs[|out|..][0] == vs[|out|] && vs[|out|..][1..] == vs[|out| + 1..];
      out := out + [Classify(r.value.0)];
      cursor := r.value.1;
      if |out| >= MAX_PROTECTORS {
        break;
      }
    }
  }

  function AlgorithmMatches(m: seq<byte>, from: nat): seq<Match> {
    Matches(m, BLOCK_ALGORITHM, Text.Open(), Text.Close(), from)
  }

  function FirstXts(ms: seq<Match>): Option<Match> {
    if ms == [] then None else if ms[0].text == AES_XTS then Some(ms[0]) else FirstXts(ms[1..])
  }

  /** The wrapped-key blob after the first algorithm that is exactly `AES-XTS`. */
  function KekWrapped(m: seq<byte>): Option<seq<byte>> {
    var hit :- FirstXts(AlgorithmMatches(m, 0));
    if hit.end <= |m| then ExtractData(m[hit.end..], KEK_STRUCT) else None
  }

  /** `extract_kek_wrapped_aes_xts`: the cursor loop over block algorithms. */
  method ExtractKekWrappedAesXts(m: seq<byte>) returns (r: Option<seq<byte>>)
    ensures r == KekWrapped(m)
  {
    hide ExtractTaggedFrom, ExtractData;
    var cursor := 0;
    while true
      invariant FirstXts(AlgorithmMatches(m, cursor)) == FirstXts(AlgorithmMatches(m, 0))
      invariant cursor <= |m|
      decreases |m| - cursor
    {
      MatchesUnfold(m, BLOCK_ALGORITHM, Text, cursor);
      var found := ExtractTaggedFrom(m, BLOCK_ALGORITHM, Text.Open(), Text.Close(), cursor);
      if found.None? {
        return None;
      }
      if found.value.text == AES_XTS {
        return ExtractData(m[found.value.end..], KEK_STRUCT);
      }
      cursor := found.value.end;
    }
  }

  datatype EncryptionContext = EncryptionContext(
    keys: KeyMaterial, protectors: seq<Protector>, conversionStatus: Option<seq<byte>>)

  function PassphraseFields(pw: seq<byte>): Result<(Block, Wrapped, u32), Error> {
    var salt :- OkOr(Get(pw, 8, 16), OutOfRange("PassphraseWrappedKEKStruct salt"));
    var kek :- OkOr(Get(pw, 32, 24), OutOfRange("PassphraseWrappedKEKStruct wrapped KEK"));
    var iterations :- OkOr(Get(pw, 168, 4), OutOfRange("PassphraseWrappedKEKStruct iterations"));
    Ok((salt, kek, LeU32(iterations, 0)))
  }

  function VmkField(blob: seq<byte>): Result<Wrapped, Error> {
    OkOr(Get(blob, 8, 24), OutOfRange("KEKWrappedVolumeKeyStruct wrapped VMK"))
  }

  /** `EncryptionContext::extract`. */
  function ContextOf(m: seq<byte>): Result<EncryptionContext, Error> {
    var pw :- OkOr(ExtractData(m, PASSPHRASE_STRUCT), MetadataStructureMissing("PassphraseWrappedKEKStruct"));
    var fields :- PassphraseFields(pw);
    var blob :- OkOr(KekWrapped(m), MetadataStructureMissing("AES-XTS KEKWrappedVolumeKeyStruct"));
    var vmk :- VmkField(blob);
    Ok(EncryptionContext(KeyMaterial(fields.0, fields.2, fields.1, vmk), Protectors(m), ExtractString(m, CONVERSION_STATUS)))
  }

  method ExtractContext(m: seq<byte>) returns (r: Result<EncryptionContext, Error>)
    ensures r == ContextOf(m)
  {
    hide ExtractData, KekWrapped, Protectors, ExtractString, PassphraseFields, VmkField;
    var pw :- OkOr(ExtractData(m, PASSPHRASE_STRUCT), MetadataStructureMissing("PassphraseWrappedKEKStruct"));
    var fields :- PassphraseFields(pw);
    var wrapped := ExtractKekWrappedAesXts(m);
    var blob :- OkOr(wrapped, MetadataStructureMissing("AES-XTS KEKWrappedVolumeKeyStruct"));
    var vmk :- VmkField(blob);
    var protectors := ExtractProtectors(m);
    r := Ok(EncryptionContext(KeyMaterial(fields.0, fields.2, fields.1, vmk), protectors, ExtractString(m, CONVERSION_STATUS)));
  }

  datatype LvInfo = LvInfo(size: u64, familyUuid: seq<byte>, lvIdentifier: Option<seq<byte>>, name: Option<seq<byte>>)

  /** `LogicalVolumeInfo::extract`: a missing or unreadable size is 0. */
  function LvInfoOf(m: seq<byte>): Result<LvInfo, Error> {
    var family :- OkOr(ExtractString(m, FAMILY_UUID), MetadataStructureMissing("com.apple.corestorage.lv.familyUUID"));
    Ok(LvInfo(LvSizeOf(m), family, ExtractString(m, LV_UUID), ExtractString(m, LV_NAME)))
  }

  function LvSizeOf(m: seq<byte>): u64 {
    var size := ExtractIntegerFrom(m, LV_SIZE, TWO_64, 0);
    if size.None? then 0 else size.value.0
  }
}
