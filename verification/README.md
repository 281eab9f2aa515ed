# Verified model of the FileVault 2 / CoreStorage decryption pipeline

This project models `filevault-core`, a reader and decryptor of CoreStorage (FileVault 2) volumes, and proves that
its pipeline locates the right bytes and sequences the primitives correctly, for every image, offset, password, reader
and run. `dafny verify dfyconfig.toml` checks the whole project.

The primitives (AES-128 on one block, PBKDF2-HMAC-SHA256, SHA-256) are parameters of type `Crypto.Cipher`. The only laws
assumed of them are that encryption and decryption of a block invert each other and that lengths are kept. AES-XTS
(sections 5.3 and 5.4 of IEEE Std 1619-2007) and AES key wrap (section 2.2 of RFC 3394) are written out over that
block cipher.

## What is proved

- **End to end.** `Builder.BuildImage` is the synthetic-image builder with its constants turned into parameters
  (`Plan.Plan`). For every plan, `EndToEnd.EndToEndRoundTrip` shows that unlocking the built image with the password
  succeeds and that every read window is that window of the original plaintext; `Synthetic.BuildUnlockRead` runs the same
  through the stateful objects, over a reader with any schedule of short reads and interrupts.
  `Builder.EveryVolumeCanBePlanned` shows that every choice of password, keys, texts, size and plaintext has a plan, as long
  as each property list fits a block of a 32-bit size, which every plan needs.
- **The volume is one function.** `Plaintext.PlainByte` is the specification: zero-extend the image, decrypt each
  512-byte sector under its logical number. The object with its cursor, position, partial reads, unaligned windows and clamping
  agrees with it on every read (`Volume.DecryptedVolume.ReadAt`, `Plaintext.ReadRefinesPlain`), every run
  (`Runs.Run`, faults included) and every interleaving of threads, panics and poisoned locks included
  (`Concurrency.CompletedReadsAreSolo`). No interleaving deadlocks: from every reachable state every pending read can still
  complete (`Concurrency.PendingReadsCanComplete`). What a sector decrypts to is stated block by block, from the bytes stored
  and the sector's number (`Plaintext.PlainSector`); the same for the metadata units (`Pipeline.MetadataBlocks`).
- **The scanner inverts the printer.** The substring machine over bytes is shown equal to a scan over markup nodes
  (`Plist.ScanRefines`). From it follow its exact answer and the exact chain of its repeated answers on every markup, from
  every byte index (`Extraction.ExtractMarkup`, `Extraction.MatchesMarkup`), with the loops on top of it
  (`Rendered.KeyMarkup`, `Rendered.ProtectorsMarkup`); on documents of entries among other tags, the
  entry that answers (`Extraction.ExtractExact`), the key that is selected, the protectors and the whole encryption context
  (`Rendered.KeyExact`, `Rendered.ProtectorsExact`, `Rendered.ContextExact`); and the round trips, which are stated on the
  property lists letter by letter (module `Spelling`). The texts below them are characterised from both sides: base64
  (`Base64.DecodeExact`), numbers (`Numbers.ParseRadixExact`), UTF-8 (`Numbers.Utf8Exact`), UUIDs (`Uuid.ParseExact`).
- **False properties and their exact conditions.** The sector address is a 64-bit sum that wraps in an optimised build.
  For every cipher and all keys, `Plaintext.WrapCounterexample` gives an image that is then read wrongly;
  `Plaintext.ReadsRightIff` shows that reads at an offset are right on every image if and only if the address of its sector
  fits 64 bits, and `Plaintext.SplitsRightIff` that split reads concatenate on every image if and only if the address does
  not wrap between them. The scanner does not check that a value belongs to its key: `Extraction.ForeignValue` and
  `Extraction.ForeignValueSameType` give documents on which the value of another key is returned, the second although the
  entry has the requested type; `Extraction.OwnValueIff` shows that the value is the key's own if and only if the entry's
  tag opens for the scanner: the type is the requested one and, for data and strings, `ID` is the first attribute.
- **Locked and unlocked agree.** Both paths fail alike, the info never depends on the password, success implies that every
  extent lies inside the image, and nothing outside those extents matters (module `Agreement`). A bad header is rejected
  exactly as its bytes demand (`Header.Parse`, `Agreement.HeaderRejections`), a bad location likewise
  (`Metadata.LocationExact`).

## Files

| file | content |
|---|---|
| Wrappers, Bytes, Text | results and errors; little-endian readers; base64, integers, UTF-8, UUID text |
| Crypto, Unlock | XTS units; key wrap and the key hierarchy |
| Device, Plaintext, Volume, Runs | the reader; the plaintext function; the decrypted volume and its runs |
| Concurrency, Vfs | the shared source under threads; the credential search |
| Scan, Plist, Entries, Items, Extraction, Context, Rendered | the substring machine, markup, documents, extraction |
| Metadata | volume header, metadata location, segment map |
| Pipeline, Agreement | the two entry points and what holds between them |
| Plan, Spelling, ReadBack, Image, Builder, EndToEnd, Synthetic | the synthetic volume, its property lists letter by letter, and the pipeline undoing it |

## Model

| member | source | states |
|---|---|---|
| EndToEnd.EndToEndRoundTrip | core/src/test_support.rs:46-177 | for every plan and every image that lays it out, unlocking with the password succeeds and every read window is that window of the plaintext |
| EndToEnd.PipelineUndoesBuilder | core/src/lib.rs:98-179 | on a laid-out image the locked path returns exactly the planned info, and the unlocked path the planned volume key, the first 16 bytes of the digest of that key followed by the family UUID, and the planned base and size |
| EndToEnd.OtherPasswords | core/src/lib.rs:98-119 | a laid-out image refuses a password with a KEK unwrap error exactly when no key wraps to the stored KEK under that password's key |
| EndToEnd.MetadataReached | core/src/lib.rs:181-210 | header, pointer block and location lead from a laid-out image to exactly the planned decrypted metadata |
| EndToEnd.MetadataRead | core/src/test_support.rs:46-107 | context and logical-volume record extracted from the built metadata are the planned ones, with the segment block and padding after them |
| EndToEnd.Letters | core/src/test_support.rs:64-91 | the texts in the built metadata are the two property lists letter by letter |
| EndToEnd.SegmentsRead | core/src/test_support.rs:95-105 | the segment map of the built metadata is exactly the planned segment |
| EndToEnd.StoredPlaintext | core/src/volume.rs:57-104 | a volume stored encrypted sector by sector decrypts, at every index, to its plaintext byte |
| Spelling.ContextSpelled | core/src/test_support.rs:64-74 | the items of a plan print exactly the letters of the context property list: every tag, attribute and key name spelled out around the parameters |
| Spelling.LvSpelled | core/src/test_support.rs:85-91 | the same for the logical-volume property list |
| Builder.BuildImage | core/src/test_support.rs:112-177 | slice writes produce an image that holds header, region, encrypted metadata and encrypted volume in their places |
| Builder.BuildMetadata | core/src/test_support.rs:46-107 | slice writes into zeros produce the three typed blocks followed by zero padding |
| Builder.PutBlock | core/src/test_support.rs:40-42 | type and body written into zeros give the typed block, and no byte outside it changes |
| Builder.EveryVolumeCanBePlanned | core/src/test_support.rs:19-31 | every password, key, text, size (0 included) and whole-sector plaintext has a block size and a placement that the builder accepts, when each property list fits a block of a 32-bit size |
| Synthetic.BuildUnlockRead | core/src/lib.rs:279-316 | build, unlock over any faultless schedule and read any window: planned info, plaintext bytes |
| Plaintext.ReadRefinesPlain | core/src/volume.rs:57-104 | fetch, decrypt and cut equals the slice of the sector-by-sector decryption of the zero-extended image |
| Plaintext.PlainSector | core/src/volume.rs:84-90 | the plaintext of sector q, from the bytes stored at its place: each 16-byte block is masked, decrypted under the first key and masked again, where the first mask decrypts under the second key to q and each next one is the one before times alpha |
| Plaintext.ReadsRightIff | core/src/volume.rs:77-78 | under every cipher and all keys, reads at an offset are right on every image if and only if the sector address does not wrap 64 bits, or there is nothing to read |
| Plaintext.WrapCounterexample | core/src/volume.rs:77-78 | for every cipher, all keys and every wrapping address, an image on which the decrypted read differs from the plaintext |
| Plaintext.FittingVolumeNeverWraps | core/src/volume.rs:77-78 | a volume whose base plus size is at most 2^64 never wraps |
| Plaintext.SplitReads | core/src/volume.rs:57-104 | a read split at any point, clamped at the end or not, concatenates to the single read unless the sector address wraps between the two starts |
| Plaintext.SplitsRightIff | core/src/volume.rs:77-78 | under every cipher and all keys, split reads concatenate on every image if and only if the address does not wrap between the starts, or the second is past the end |
| Plaintext.EnclosingSectors | core/src/volume.rs:48-53 | the answer depends only on the image bytes of the enclosing sectors |
| Plaintext.RegionLength | core/src/volume.rs:64-75 | whole sectors that cover the window, with at most 1022 surplus bytes |
| Plaintext.Count | core/src/volume.rs:58-62 | count is 0 exactly at or past the end or for an empty buffer, never passes the end, and falls short of the buffer only at the end |
| Volume.DecryptedVolume.ReadAt | core/src/volume.rs:57-104 | exact count and bytes whatever the cursor and schedule; later bytes untouched; a reader fault is the only error, so the three out-of-range arms are unreachable |
| Volume.DecryptedVolume.Read | core/src/volume.rs:122-128 | delivers the plaintext at the position and advances it by the count without overflow; a failed read leaves it |
| Volume.DecryptedVolume.Seek | core/src/volume.rs:130-140 | from the start the offset itself; from the end the size plus the offset, from the current place the position plus the offset, if and only if that sum fits 64 unsigned bits; otherwise InvalidInput and the position unchanged |
| Volume.AddSigned | core/src/volume.rs:143-150 | the exact integer sum if and only if it fits 64 unsigned bits |
| Volume.Fetch | core/src/volume.rs:75-82 | a zeroed region filled from the image is the zero-extended image |
| Runs.Run | core/src/volume.rs:122-150 | every run of reads and seeks, over every reader: each read delivers the specified bytes at the position the earlier operations left, or faults and leaves it; each seek is exact; without faults and inside 64 bits the run is that of a cursor over the plaintext |
| Runs.FollowsAnswers | core/src/volume.rs:122-150 | whatever such a run did, without faults and inside 64 bits its outcomes and its final position are those of a cursor over the plaintext |
| Runs.ConsecutiveReads | core/src/volume.rs:122-128 | consecutive reads of any lengths concatenate to consecutive plaintext, cut at the end |
| Device.ReadFullOrEof | core/src/volume.rs:109-120 | for every schedule, the image bytes up to the end, then the old contents; terminates by remaining events and bytes |
| Device.ReadExactAt | core/src/lib.rs:258-260 | exactly the requested bytes, or an end-of-file error on a short image, whatever the schedule |
| Concurrency.StepKeepsInv | core/src/vfs.rs:83-115 | every step of every thread keeps: the holder alone is inside the lock, and each thread's progress is that of a solo read |
| Concurrency.CompletedReadsAreSolo | core/src/vfs.rs:103-115 | for any number of threads and any interleaving, every completed read has the count and bytes of a solo read |
| Concurrency.AnswersLastRequest | core/src/vfs.rs:103-115 | the request a completed read answers is the last one its own thread made |
| Concurrency.PoisonedIff | core/src/vfs.rs:112-114 | over every run the lock is poisoned exactly when a thread has died inside it |
| Concurrency.MutualExclusion | core/src/vfs.rs:113-114 | two threads are never inside the lock together, poisoned or not |
| Concurrency.HolderCompletes | core/src/vfs.rs:112-114 | from every sound state the thread inside the lock can finish its own request, release the lock and disturb no other thread |
| Concurrency.PendingReadsCanComplete | core/src/vfs.rs:103-115 | no deadlock: from every reachable state, poisoned or not, every pending read has a continuation in which it completes with the bytes of a solo read |
| Vfs.Open | core/src/vfs.rs:39-68 | the volume of the first password that works; otherwise the unlock error of the last password offered, or the fault of its own reader; NeedCredentials exactly when no password was offered |
| Vfs.FileVaultSource.ReadAt | core/src/vfs.rs:103-115 | clamping first gives the count and bytes of an unclamped solo read; faults become decode errors |
| Xts.DecryptUnits | core/src/xts.rs:20-31 | in-place loop equals the unit-by-unit map under incrementing indices; a trailing unit shorter than the rest goes to an unspecified map that keeps its length |
| Xts.DecryptUnitsBlocks | core/src/xts.rs:20-31 | unit q of a run, block by block: masked, decrypted under the first key and masked again, with masks that start from the number first + q under the second key and step by alpha |
| Xts.DecryptUnitBlocks | core/src/xts.rs:27-30 | the same for one whole unit and every number of 128 bits |
| Xts.EncryptUnits | core/src/xts.rs:36-47 | the same for encryption of whole-unit buffers |
| Xts.UnitsRoundTrip | core/src/xts.rs:14-47 | decryption inverts encryption on every whole-unit buffer, unit size and first index |
| Xts.UnitRoundTrip | core/src/xts.rs:14-47 | the same inside one unit, block tweak by block tweak |
| Xts.UnitByte | core/src/xts.rs:14-19 | a decrypted byte depends on its own sector and that sector's number only |
| Xts.DoubleByteWise | core/src/xts.rs:27-30 | the tweak step is the byte-wise multiplication by alpha of section 5.2 of IEEE Std 1619-2007 |
| KeyWrap.UnwrapIffWrapped | core/src/unlock.rs:47-57 | unwrapping returns a key if and only if the input is that key's wrapping |
| KeyWrap.WrapRounds | core/src/unlock.rs:47-57 | a wrapping is twelve rounds of section 2.2.1 of RFC 3394 from the initial value 0xA6 repeated: the two registers in turn behind the integrity register, the big-endian round number into its high half |
| Unlock.HierarchyRoundTrip | core/src/unlock.rs:65-82 | wrapping VMK under KEK and KEK under the PBKDF2 key (a stored count of 0 meaning one round), then deriving, returns that VMK, and as tweak key the first 16 bytes of the digest of VMK followed by family UUID |
| Unlock.DerivedKeysWereWrapped | core/src/unlock.rs:65-82 | conversely, derived keys are always ones that were wrapped under this password, with that tweak key |
| Unlock.IntegrityFailure | core/src/unlock.rs:65-82 | each level's error arises exactly when nothing wraps to the stored bytes at that level; no other error |
| Scan.FirstOccurrence | core/src/context.rs:166-173 | the search answers with an occurrence that no other precedes, and fails only where there is none |
| Scan.ExtractChain | core/src/context.rs:140-163 | on arbitrary bytes, in places of the whole: the first key from the index on, the first opening after it, the first `>` from there, the first closing tag after that; the text lies between the last two, and nothing is found exactly when one of the four is absent |
| Scan.ExtractShift | core/src/context.rs:140-163 | scanning from an index equals scanning the rest from its start, moved |
| Scan.MatchesAdvance | core/src/context.rs:140-163 | on arbitrary bytes successive matches are disjoint, increasing, inside the bytes and bounded in number |
| Plist.ScanRefines | core/src/context.rs:140-163 | the byte scan equals the node scan on every list of nodes: same text, same end, same failure |
| Extraction.ExtractMarkup | core/src/context.rs:140-163 | the exact answer on every markup, from every byte index, for every key and pair of tags: the node scan of the nodes that start at or after the index |
| Extraction.MatchesMarkup | core/src/context.rs:140-163 | the exact chain of repeated extraction on every markup |
| Extraction.ExtractExact | core/src/context.rs:140-163 | on entries of any type and attributes, among tags that neither name the key nor open a value, from every byte index: the first entry that opens from the first of the name on, among those that start at or after the index; no match inside or across items |
| Extraction.EntryRoundTrip | core/src/context.rs:129-163 | from any byte on, exactly the text and end of the first entry with the name that starts there or later, when its tag opens; nothing when none has the name |
| Extraction.OwnValueIff | core/src/context.rs:152-157 | from any byte on, the value returned is the key's own if and only if its entry's tag opens for the requested type |
| Extraction.ForeignValue | core/src/context.rs:152-157 | a document on which the value of another key is returned for an entry of another type |
| Extraction.ForeignValueSameType | core/src/context.rs:110-113 | a document on which it is returned for an entry of the requested type, whose tag has no `ID` |
| Extraction.ItemAfterStart | core/src/context.rs:152 | which items a scan from a byte index can see: those that start at or after it |
| Extraction.MatchesExact | core/src/context.rs:140-163 | repeated extraction on a document moves exactly from answer to answer |
| Extraction.ChainNamed | core/src/context.rs:140-163 | where every entry of a name opens, repeated extraction enumerates exactly those entries, in order |
| Entries.FindEntry | core/src/context.rs:129-163 | on any markup whose first key of that name belongs to an entry that opens, its text and end, whatever bytes follow |
| Items.FindItem | core/src/context.rs:140-163 | the same among other markup and before arbitrary bytes; what remains after the match is exactly the later items |
| Items.FindNoItem | core/src/context.rs:140-163 | a name no item carries is not found unless the bytes after the items spell its key |
| Context.ExtractProtectors | core/src/context.rs:176-190 | the loop returns the first 64 decoded values of the successive matches, up to the first that fails to parse |
| Context.Classify | core/src/context.rs:63-70 | the kind is password, recovery or institutional exactly for the codes 0x10000001, 0x10000009, and 0x10000005 or 0x1000000f |
| Context.ExtractKekWrappedAesXts | core/src/context.rs:244-256 | the loop returns the blob after the first algorithm that is exactly AES-XTS, and terminates on every input |
| Rendered.ContextExact | core/src/context.rs:199-238 | on a document, the context is extracted if and only if a passphrase struct of at least 172 bytes and a selected key struct of at least 32 answer; then its fields are those slices, the protectors and the status; an absent struct and a short one are told apart |
| Rendered.LvExact | core/src/context.rs:276-292 | on a document, the record is extracted if and only if a family UUID answers; a size that is missing or does not parse is 0; a missing identifier or name is none |
| Rendered.ValuesPrefix | core/src/context.rs:176-190 | the values of a run of matches are those that parse below 2^32, up to the first that does not |
| Rendered.FirstXtsExact | core/src/context.rs:249-254 | of a run of matches, the one chosen is the first whose text is exactly `AES-XTS` |
| Rendered.KeyMarkup | core/src/context.rs:244-256 | on every markup, the byte loop selects exactly what the loop over nodes selects: the key found behind the first algorithm that is exactly AES-XTS |
| Rendered.ProtectorsMarkup | core/src/context.rs:176-190 | on every markup, the first 64 decoded values of the chain of node answers, up to the first that fails to parse |
| Rendered.KeyExact | core/src/context.rs:244-256 | on a document, whatever its entries, their types and attributes, the byte loop selects exactly what the entry loop selects: the key that answers after the first algorithm that is exactly AES-XTS |
| Rendered.ProtectorsExact | core/src/context.rs:176-190 | on a document, the first 64 decoded values of the chain of answers, up to the first that fails to parse |
| Rendered.PairSelection | core/src/context.rs:241-256 | on a list of (algorithm, key) pairs whose tags open, exactly the blob of the first AES-XTS pair |
| Rendered.PairSelectionIff | core/src/context.rs:241-256 | for given tags, that pair is selected whatever the algorithms and blobs if and only if every tag opens |
| Rendered.ProtectorsRoundTrip | core/src/context.rs:176-190 | on rendered documents, exactly the UserType values in order, hexadecimal or decimal with any white space around them, cut at 64 |
| Rendered.LoopBounds | core/src/context.rs:176-256 | on arbitrary bytes at most len/38 protectors and len/46 algorithms, disjoint and increasing |
| Rendered.BlobRoundTrip | core/src/context.rs:96-107 | an encoded blob of at most 4096 characters carries no markup and decodes to its bytes |
| Rendered.BlobExact | core/src/context.rs:96-107 | a blob decodes to given bytes if and only if its text without white space is their encoding and has at most 4096 characters |
| Rendered.StrippedAppend | core/src/context.rs:98-102 | stripping drops exactly the bytes 9, 10, 12, 13 and 32 and keeps the others in order |
| Rendered.WrappedBlobRoundTrip | core/src/context.rs:96-107 | the same however white space wraps the encoded text |
| ReadBack.ContextRead | core/src/context.rs:199-238 | from the letters of the two property lists, whatever bytes without markup stand before and between them and whatever follows, the context is read back: salt, iterations, both wrapped keys, protector, status |
| ReadBack.LvRead | core/src/context.rs:276-292 | from the same letters the record is read back: size, family UUID, identifier, name |
| ReadBack.PassphraseBlobFields | core/src/context.rs:85-92 | salt at 8, wrapped KEK at 32 and iterations at 168 are read back |
| Base64.RoundTrip | core/src/context.rs:96-107 | decoding inverts encoding |
| Base64.DecodeExact | core/src/context.rs:106 | decoding accepts exactly the encodings, canonical padding and zero trailing bits included, and returns what was encoded |
| Base64.QuadDigits | core/src/test_support.rs:72-73 | four symbols are the base-64 digits of the 24-bit number of three bytes |
| Numbers.IntegerRoundTrip | core/src/context.rs:117-127 | a number printed in hexadecimal or decimal parses back whenever it fits |
| Numbers.PaddedRoundTrip | core/src/context.rs:117-127 | the same whatever Unicode white space surrounds the number |
| Numbers.ParseRadixExact | core/src/context.rs:121-125 | an unsigned number is read if and only if the text is an optional `+` and digits whose positional number fits |
| Numbers.Utf8Exact | core/src/context.rs:112 | valid are exactly the encodings of sequences of Unicode scalar values |
| Numbers.WhiteExact | core/src/context.rs:120 | of the scalar values exactly those with the property White_Space are trimmed |
| Uuid.RoundTrip | core/src/lib.rs:263-270 | parsing inverts the hyphenated form |
| Uuid.ParseExact | core/src/lib.rs:268-270 | a text parses to a UUID if and only if it is, in either case, its bare digits, its hyphenated form, that form in braces or that form after `urn:uuid:` |
| Uuid.FormatDigits | core/src/lib.rs:263-265 | the high digit of each byte stands before the low one, at its place among the four hyphens |
| Header.Parse | core/src/volume_header.rs:45-72 | on arbitrary bytes: a header if and only if bytes 88 and 89 are `CS` and bytes 172 to 175 the number 2, with every field at its offset; NotCoreStorage with the number found at 88 if and only if that is not 0x5343; UnsupportedEncryptionMethod with the number found at 172 if and only if the signature stands and that is not 2 |
| Header.HeaderExact | core/src/volume_header.rs:45-72 | the same of the header function both paths use |
| Header.HeaderRoundTrip | core/src/volume_header.rs:45-72 | a written header is read back whole, all four block numbers included |
| Bytes.LeRoundTrip | core/src/read.rs:10-33 | reading back a written integer that fits its width returns it |
| Bytes.ReadersByByte | core/src/read.rs:10-51 | every reader is the little-endian number of its bytes, and 0 when any of them is out of range |
| Bytes.XorBitwise | core/src/xts.rs:27-30 | exclusive or adds each bit of each byte modulo 2 |
| Bytes.MaskedIsLeU48 | core/src/read.rs:28-51 | masking the 8-byte field to 48 bits equals the 6-byte reader, exactly unless the bytes end inside the field after a number that is not 0 |
| Metadata.LocationExact | core/src/metadata.rs:110-162 | the exact condition of success and of each error: no pointer block, a descriptor outside the region, a count outside 1..2^20, an offset (the 6-byte number times the block size) of 2^64 or more; on success count, offset and a length below 2^52, so the length overflow arm is unreachable |
| Metadata.PlaintextMetadataSize | core/src/metadata.rs:73-99 | the stored size, accepted if and only if the block is a pointer block and the size is positive and below 2^20 + 1 blocks |
| Metadata.FirstBlockIsFirst | core/src/metadata.rs:240-252 | the block found is aligned, has the type, and no aligned block before it does; none means none |
| Metadata.FindBlockOfType | core/src/metadata.rs:240-252 | the offset loop finds that block |
| Metadata.ParseSegments | core/src/metadata.rs:210-236 | the count-limited loop returns the closed form of the segment map |
| Metadata.SegmentsInsideBlock | core/src/metadata.rs:210-236 | none without a block of type 0x0305; otherwise exactly min(stored count, 65536, (block size - 72) / 40) entries, each field decoded from its own bytes inside the block |
| Metadata.SegmentsRoundTrip | core/src/metadata.rs:203-252 | a list that fits one block, written after any whole blocks of other types, is read back exactly whatever the top 16 bits hold |
| Pipeline.ParseInfo | core/src/lib.rs:166-177 | over any reader, the specified answer or the fault of a faulty reader |
| Pipeline.UnlockWithPassword | core/src/lib.rs:98-119 | over any reader, the volume object the specification describes, at position 0, or its error |
| Pipeline.DecryptMetadataRegion | core/src/lib.rs:181-210 | the reads and the in-place decryption give the specified metadata |
| Pipeline.MetadataBlocks | core/src/metadata.rs:167-175 | unit q of 8192 bytes of the metadata is, block by block, the image bytes decrypted under the key data of the header, with masks that start from q under the volume identifier |
| Pipeline.ExtentFromBytes | core/src/lib.rs:215-232 | on arbitrary bytes: the 6-byte block of the first entry of the first segment block times the block size, cut at 2^64 - 1; the record's size or the entry's blocks, a product that never overflows; base 0 without an entry |
| Agreement.PathsAgree | core/src/lib.rs:98-177 | a locked failure is the unlocked failure; otherwise the same info, a UUID error the info alone decides, or a key-unwrap error |
| Agreement.PasswordIndependence | core/src/lib.rs:53-58 | info, base and size are the same for every password that unlocks |
| Agreement.UnlocksExactly | core/src/lib.rs:98-119 | an image is unlocked by exactly the passwords whose key wraps its KEK, and yields the wrapped volume key |
| Agreement.FailLoudExtents | core/src/lib.rs:166-210 | success implies header, first block, plaintext region and encrypted region lie inside the image |
| Agreement.Locality | core/src/lib.rs:166-210 | nothing outside those extents influences either path |
| Agreement.AppendingChangesNothing | core/src/lib.rs:256-260 | appending bytes to an image that parses changes neither answer |
| Agreement.ErrorKinds | core/src/error.rs:6-60 | the errors each path can produce, before and after the header is accepted; a bad base64 blob is never reported as such |
| Agreement.HeaderRejections | core/src/lib.rs:98-177 | both paths answer end of file below 512 bytes; NotCoreStorage and UnsupportedEncryptionMethod exactly when the numbers at 88 and 172 of the image demand it, with the number found |

## Where code and documentation differ

The model follows the code.

- The documentation of `EncryptionContext::extract` names a base64 error for a bad blob; the code reports a missing
  structure, and the `Base64` variant is never produced (`Agreement.ErrorKinds`).
- docs/RESEARCH.md places the iteration count at offset 172; the code reads it at 168.
- The comments of core/src/xts.rs say that a trailing partial unit is left untouched; that rests on a foreign crate. What
  happens to a unit shorter than the unit size is a parameter of the model about which only its length is known.
- The comments of core/src/context.rs describe extraction of the value of a key; the code returns the next value whose tag
  opens, whoever it belongs to (`Extraction.OwnValueIff`).

## Left out

- AES, SHA-256, HMAC and PBKDF2 themselves: foreign code, passed as parameters.
- Trailing partial XTS units: round trips are stated for whole-unit buffers; the synthetic metadata is padded to whole 8192-byte units.
- Builds with overflow checks, in which the wrapping sector address panics instead of wrapping.
- Seek errors of the reader and allocation failure: a reader fails only in its reads.
- Multi-segment mapping: the code uses only the first segment and ignores its logical block, and so does the model.
- Fair scheduling: a pending read can always complete; that a scheduler lets it is not modelled.
- The text of error messages: a decode error carries the error itself.
- Pass-through methods of the unlocked volume (`read_at`, `read`, `seek`, accessors), protector labels and the forensic crate: forwarding and formatting of values that are specified here.
- File opening, command line, oracle and fuzz harnesses, packaging.
