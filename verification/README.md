# Verification of the mat controller core

`mat` is a Matter controller written from scratch. This project models the parts of its `mat-controller` crate whose
behaviour is decided by code alone: the BTP transport session, the TLV codec and the editors built on it, the group
table kept in a key-value store, the replay window, the send counters and message reliability, and the DER, calendar,
certificate and setup-code arithmetic. Each part is written in the form the crate gives it (objects that are updated
in place are classes, loops are loops), proved equal to a function, and the properties are proved about that function.

Verify with `dafny verify dfyconfig.toml` (Dafny 4.11).

## How the parts fit together

* **BTP (section 4.19 of the Matter Core Specification).** `BtpFraming` has the frames and the reassembler, `BtpSession`
  one endpoint as a step system (submit, send a segment, send an ack, receive) with its accounting, `BtpLink` two
  endpoints over FIFO links, `BtpActor` the session actor, whose every action is proved to be a step. `LinkIsSafe` is the
  end-to-end statement: no interleaving makes an honest frame fail a check, and what is delivered is a prefix of what was
  sent. `RunsKeepAccounts` is the one-sided statement against any peer at all. `BtpTurns` says where in a run of the actor
  an ack of its own stands; `BtpAssembly` which messages a peer's frames spell, which frame is refused, and what the own
  frames carry.
* **TLV (Appendix A of the same specification).** `TlvCodec` and `TlvStream` have elements, writer and reader; `TlvTrees` the
  recursive structure that copying and skipping both follow; `TlvFields` the struct walk. `Records`, `KeysetRecord` and
  `KeysetReader` are the stored records and the two keyset edits with their laws. `TlvExact`, `TreesExact` and `KeysetExact`
  say exactly which bytes are an element, a container, a record, and a keyset that yields a key.
* **Group table.** `Chains` is the count-driven linked list in a map; `GroupStore` the store of records under keys;
  `GroupView` the table as three sequences; `GroupEditor` the editing methods, each proved against an effect on these
  sequences; `GroupTables` and, row by row, `GroupMeaning` what provisioning and removal mean; `GroupSettings` the two commands on the file;
  `GroupCredentials` the reader; `IpkRotation` the rotation of the identity protection key over whole runs.
  Store keys are a datatype; `KeyNames` proves that their written names differ, and `KvsLines` and `KvsTransaction` that the
  text file refines the map the group table is proved on. `GroupFile` puts both together: the commands log their edits,
  and the text with these edits, written back and opened again, holds the new table. `KvsReaders` is the reading side of the
  file, `KvsTexts` has texts on which it does what one would not expect.
* **Counters and reliability.** `ReplayWindow`, `GroupCounter` (with crashes and writes that fail before or after the
  rename) and `Exchange` (two sides over a network that loses, repeats and reorders), with what the sides owe each other in
  `ExchangeLaws`.
* **Encodings.** `Calendar`, `CertTime`, `Der`, `Signatures`, `Cms`; `Certificate`, `CertStream`, `CertChain`, `CertMeaning`,
  `CertSigned`; `Base38`, `SetupPayload`, `Verhoeff`, `ManualCode`. The readers have a statement of exactly what they accept,
  written without them: `DerExact`, `CmsExact`, `CertTimeExact`, `CertExact`, `SetupExact`; `TbsExact` is that statement for
  the bytes a certificate is signed over.

## Where a promise holds only under a condition

The code is modelled as it is. Where something one would expect of it fails for some inputs, the exact condition is
proved, both ways, with an input that shows the failure:

* `segs_since_ack` does saturate against a peer that ignores the window: `FloodClampsSegments`, with the exact condition
  in `SegmentClampCondition`. It never does with an honest peer (`HonestPeerNeverClamps`). `unacked` never does at all.
* The replay window accepts one counter a second time: an advance of exactly 32 clears the bitmap without marking the
  former maximum, which is then exactly 32 below (`SecondTimeOnlyLost`, `LostCounterReturns`). `AcceptedIff` says when any
  counter is accepted.
* The MRP waits stay within `total_budget` for all random numbers exactly if the base interval is at most the initial
  interval (`BudgetCovers`, `BudgetExceeded`).
* A new key map row is appended, and the first row of a group is consulted, so provisioning takes effect on sending
  exactly if the group has no row for another keyset (`NewBindingConsulted`, `OlderBindingWins`).
* Removing a group undoes provisioning it exactly under `Undoable` (`RemoveUndoesProvision`, `RemoveTakesMore`).
* Counter windows move up exactly while they fit below 2^32 (`NextHeadroom`, `JumpHeadroom`, `LoadHeadroom`; `WindowsWrap`,
  `WrapGoesBack`).
* The writing and the reading side of the key-value file delimit the same section exactly if the bounds of the section
  have no blanks around them (`SameBounds`, `ReadersAgree`; `SectionOfOneSide`, `KeyOfOneSide`); removing a key that has a
  second line leaves that line's value (`RemoveLaw`, `SecondLineStays`); a last empty line in a file without a final newline
  becomes that newline (`ReadBack`, `EmptyLineBecomesNewline`).
* A certificate survives its TLV form exactly if that has at most 1024 bytes (`CertRoundTrip`, `LongCertIsRefused`), and what
  is signed determines everything but one bit of the tags of ids in names (`SignedDetermines`, `TagBitIsNotSigned`).
* A certification declaration is written exactly if its outermost item holds at most 65535 bytes (`CmsRoundTrip`, `CmsFits`,
  `LongContentIsRefused`).
* Passcode 0 can be encoded but is refused on reading (`QrRoundTrip`, `ManualRoundTrip`). A manual code may have a second
  text, and a QR text may have other spare bits and more bytes (`ManualIsExact`, `SecondText`, `QrIsExact`).
* A validity time may name the thirty-first of any month and a second 60 (`TimeIsExact`).
* An acknowledgement is sure to be taken only while neither side has used up its counters (`AckComesBack`).

In two places the code and its own comment disagree, and the model follows the code: the comment on `check_and_commit`
(crates/mat-controller/src/counter.rs:45-46) says that duplicates are refused, which the lost counter is not; the one on
`put_raw_element` (crates/mat-controller/src/tlv.rs:185-187) says that it panics unless the text is exactly one element, while
what follows the element is not looked at.

## Model

| member | source | states |
|---|---|---|
| `BtpFraming.EncodeDataPacket` | crates/mat-controller/src/btp.rs:94-127 | the bytes are the flags byte for position and ack, then ack number, sequence number, length and payload, each only where the flags say so |
| `BtpFraming.EncodeStandaloneAck` | crates/mat-controller/src/btp.rs:129-131 | an ack on its own is three bytes: the packet with only the ack flag and no payload |
| `BtpFraming.SegmentPayloadCapacity` | crates/mat-controller/src/btp.rs:133-136 | with a negotiated segment size (at least 20) a segment always has room for 15 bytes, and never for its own header as well |
| `BtpFraming.DecodePacket` | crates/mat-controller/src/btp.rs:149-184 | the cursor walk computes `Decode`, error cases included |
| `BtpFraming.DecodeIsExact` | crates/mat-controller/src/btp.rs:149-184 | a buffer decodes to a packet if and only if it is a flags byte without the handshake bit that announces exactly the parts present, followed by those parts |
| `BtpFraming.DecodeWire` | crates/mat-controller/src/btp.rs:94-184 | decoding undoes encoding for every packet with a length exactly on its beginning segment |
| `BtpFraming.Reassembler.PushPacket` | crates/mat-controller/src/btp.rs:199-227 | the in-place reassembler computes `Push` on its two fields: result, new buffer and new expected length in all error branches |
| `BtpAssembly.PushMeaning` | crates/mat-controller/src/btp.rs:199-227 | a frame is taken if and only if it continues what is open: an acknowledgement between messages, or a segment of a message that begins with its declared length, begins nowhere else, stays within that length and ends with exactly it; the message completed is the payloads put together |
| `BtpAssembly.RunsDeliver` | crates/mat-controller/src/btp.rs:199-343 | whatever a peer sends, an open session has handed over exactly the messages that the frames it received spell, and holds the frames of the one still open |
| `BtpAssembly.RefusedIff` | crates/mat-controller/src/btp.rs:149-343 | a frame closes the session if and only if it does not decode, acknowledges a frame not in flight, has not the next number, or does not continue the open message; the frames it acknowledges are no longer in flight |
| `BtpAssembly.SegmentSays` | crates/mat-controller/src/btp.rs:509-544 | the next segment as the peer decodes it: next number, the owed ack and the declared length on the first segment and nowhere else, the next bytes of the message, a full frame unless it is the last; the ack is owed no more |
| `BtpAssembly.AckSays` | crates/mat-controller/src/btp.rs:448-458 | an ack of its own as the peer decodes it: of the last frame received, and nothing is owed any more |
| `BtpActor.SessionState.constructor` | crates/mat-controller/src/btp.rs:284-303 | a session starts with nothing sent, 255 as the number acknowledged last, and the peer's frame 0 already consumed by the handshake |
| `BtpActor.SessionState.ProcessPacket` | crates/mat-controller/src/btp.rs:311-343 | ack check, sequence check, counting and reassembly of one frame, equal to `ProcessIncoming`, with the partial state after each error |
| `BtpSession.AckAccounting` | crates/mat-controller/src/btp.rs:312-326 | the wrapped u8 difference is the unbounded number of newly acknowledged frames, and an ack is refused if and only if no frame in flight bears that number |
| `BtpSession.CountersAddUp` | crates/mat-controller/src/btp.rs:272-303 | `tx_seq == peer_acked + 1 + unacked` modulo 256 follows from the accounting |
| `BtpSession.SendKeepsAccounts` | crates/mat-controller/src/btp.rs:448-528 | sending keeps the accounting, moves `unacked` up by exactly one (no clamp), and an ack leaves only when one is owed |
| `BtpSession.ReceiveKeepsAccounts` | crates/mat-controller/src/btp.rs:311-343 | any frame from any peer either closes the session or keeps the accounting |
| `BtpSession.RunsKeepAccounts` | crates/mat-controller/src/btp.rs:311-547 | every run against an arbitrary peer short of close: the u8 counters add up, `unacked` stays within the window, acks sent never exceed frames received |
| `BtpSession.FloodClampsSegments` | crates/mat-controller/src/btp.rs:340-341 | `segs_since_ack` does saturate: after k one-byte messages from a peer that ignores the window the true count is k and the counter 255 at most |
| `BtpSession.SegmentClampCondition` | crates/mat-controller/src/btp.rs:340-341 | a frame breaks an exact `segs_since_ack` if and only if it stands at 255 and the frame carries data; from then on it stays at 255 and short of the count until an ack leaves, which makes it exact again |
| `BtpSession.SegmentFits` | crates/mat-controller/src/btp.rs:509-536 | every segment fits the negotiated size, and one that does not end its message carries at least 15 bytes |
| `BtpSession.RunsFit` | crates/mat-controller/src/btp.rs:448-547 | in every run, every frame written fits the negotiated segment size |
| `BtpLink.StepKeepsSpelling` | crates/mat-controller/src/btp.rs:448-547 | frames written so far spell exactly the accepted messages, except for the one being cut, of which they hold the first `off` bytes; acks between segments change nothing |
| `BtpLink.RunsSpell` | crates/mat-controller/src/btp.rs:94-227 | whatever the peer answers, the frames of a run reassemble to exactly the messages accepted, each completed by its last segment and not before |
| `BtpLink.HonestFrameAccepted` | crates/mat-controller/src/btp.rs:311-343 | the next frame of an honest peer passes the ack check, the sequence check and the reassembler |
| `BtpLink.SideStepKeepsLink` | crates/mat-controller/src/btp.rs:311-547 | one step of either side keeps the invariant of the pair: each side has read a prefix of what the other wrote and holds what that prefix says |
| `BtpLink.LinkIsSafe` | crates/mat-controller/src/btp.rs:199-547 | two endpoints over FIFO links: in every interleaving of segments, receptions and acks no honest frame is refused, and each side has delivered a prefix of the messages the other accepted |
| `BtpLink.DrainedLinkDeliversAll` | crates/mat-controller/src/btp.rs:199-547 | when all messages are cut and all frames read, everything accepted has been delivered |
| `BtpLink.HonestPeerNeverClamps` | crates/mat-controller/src/btp.rs:340-341 | with an honest peer the clamp is never reached: the counter equals the true count in every run, even with a window of 255 |
| `BtpActor.SendStandalone` | crates/mat-controller/src/btp.rs:448-458 | sending an ack on its own is the `SendAck` step |
| `BtpActor.MaybeSendProactiveAck` | crates/mat-controller/src/btp.rs:349-359 | an early ack is written if and only if one is owed, half a window of data came in, and the own window has room |
| `BtpActor.WaitForWindow` | crates/mat-controller/src/btp.rs:476-508 | waiting for the window takes only steps of the step system and ends with room in the window |
| `BtpActor.WaitForAck` | crates/mat-controller/src/btp.rs:476-508 | one reception while the window is full: an ack of its own follows if and only if the frame completed a message and the window has room, or it did not and half a window of data came in; a completed message is set aside |
| `BtpActor.SendOneSegment` | crates/mat-controller/src/btp.rs:476-544 | waiting for the window and sending the next segment is a turn of the run |
| `BtpTurns.TurnIsOrderly` | crates/mat-controller/src/btp.rs:349-508 | one reception with the ack that follows it exactly when it should is an orderly run |
| `BtpTurns.OwnStepIsOrderly` | crates/mat-controller/src/btp.rs:448-547 | so is one step of the side itself |
| `BtpTurns.OrderlyAppend` | crates/mat-controller/src/btp.rs:361-446 | orderly runs one after the other, with the ticks added up, are one |
| `BtpActor.SegmentStep` | crates/mat-controller/src/btp.rs:509-544 | one turn of the sending loop is the `SendSegment` step and makes progress |
| `BtpActor.SendMessage` | crates/mat-controller/src/btp.rs:462-547 | the sending loop terminates, takes only steps, accepts the message if and only if it has at most 65535 bytes, and leaves nothing half sent on success |
| `BtpActor.OnIndication` | crates/mat-controller/src/btp.rs:374-406 | a frame from the link is one step; afterwards, and only on success, an ack of its own is written if and only if no message was completed by the frame, the own window has room, and at least one and at least half a window of data segments came since the last ack |
| `BtpActor.KeepAlive` | crates/mat-controller/src/btp.rs:415-443 | the tick gives up on a stale session and otherwise sends an ack exactly when one is owed and the window has room |
| `BtpActor.RunSession` | crates/mat-controller/src/btp.rs:361-446 | whatever wakes the actor in whatever order, the frames it writes and the messages it hands over are those of a run of the step system from the handshake on; while it lives it has taken every message in order, cut it completely, and handed over everything delivered; an ack of its own stands in the run only where a reception or a tick calls for it, as `Orderly` says |
| `TlvStream.Writer.ControlAndTag` | crates/mat-controller/src/tlv.rs:31-75 | control byte and tag bytes of all eight tag forms |
| `TlvStream.Writer.PutUint` | crates/mat-controller/src/tlv.rs:77-91 | an unsigned number is appended in its shortest width |
| `TlvStream.Writer.PutInt` | crates/mat-controller/src/tlv.rs:93-107 | a signed number is appended in its shortest two's complement width |
| `TlvStream.Writer.PutLenPrefixed` | crates/mat-controller/src/tlv.rs:123-139 | a length in its shortest width, then the data |
| `TlvStream.Writer.PutStr` | crates/mat-controller/src/tlv.rs:141-143 | a text element is appended |
| `TlvStream.Writer.PutBytes` | crates/mat-controller/src/tlv.rs:145-147 | a bytes element is appended |
| `TlvStream.Writer.PutFloat` | crates/mat-controller/src/tlv.rs:113-121 | a floating-point element is appended with its 4 or 8 byte pattern |
| `TlvStream.Writer.PutBare` | crates/mat-controller/src/tlv.rs:109-166 | null, booleans and container starts are a control byte and a tag |
| `TlvStream.Writer.Start` | crates/mat-controller/src/tlv.rs:153-166 | a container start is appended and the depth goes up |
| `TlvStream.Writer.EndContainer` | crates/mat-controller/src/tlv.rs:168-172 | an end marker is appended and the depth goes down |
| `TlvStream.WriteAll` | crates/mat-controller/src/tlv.rs:23-178 | a balanced sequence of writer calls writes the concatenated encodings and finishes at depth 0 |
| `TlvStream.Reader.ReadTag` | crates/mat-controller/src/tlv.rs:430-460 | a tag of each form is read, or the input is truncated |
| `TlvStream.Reader.TakePrefixed` | crates/mat-controller/src/tlv.rs:462-531 | a length prefix of each width and the data it announces, or the error of the first part that fails |
| `TlvStream.Reader.Next` | crates/mat-controller/src/tlv.rs:474-531 | the cursor computes `Read`: the element and the position after it, the end of the input, or the error |
| `TlvCodec.TagRoundTrip` | crates/mat-controller/src/tlv.rs:31-460 | all eight tag forms read back as the tag written |
| `TlvCodec.SignedRoundTrip` | crates/mat-controller/src/tlv.rs:93-531 | every 64-bit signed number survives its shortest two's complement form |
| `TlvCodec.ValueRoundTrip` | crates/mat-controller/src/tlv.rs:77-531 | every value kind reads back from its bytes, and the reader stops right behind |
| `TlvCodec.ReadEnc` | crates/mat-controller/src/tlv.rs:31-531 | reading at a written element, wherever it stands, gives the element and the position right after it |
| `TlvCodec.EncAllConcat` | crates/mat-controller/src/tlv.rs:18-178 | writing two sequences one after the other is writing their concatenation |
| `TlvCodec.StreamRoundTrip` | crates/mat-controller/src/tlv.rs:18-531 | what a writer wrote, a reader reads: exactly those elements, up to the end of the buffer |
| `TlvExact.ReadIsExact` | crates/mat-controller/src/tlv.rs:392-531 | an element is read at a position if and only if one of its forms stands there: any of the eight tags, any width that holds the number or the length, two's complement for signed numbers, UTF-8 for text; types above 0x18 are refused |
| `TlvExact.ValueIsExact` | crates/mat-controller/src/tlv.rs:462-531 | the same for values alone |
| `TlvExact.TagIsExact` | crates/mat-controller/src/tlv.rs:430-460 | the same for tags alone |
| `TlvTrees.SkipFollowsParse` | crates/mat-controller/src/tlv.rs:245-256 | on every input and at every depth, the depth counter stops exactly where the recursive structure ends, or fails with the same error |
| `TlvTrees.SkipContainer` | crates/mat-controller/src/tlv.rs:245-256 | skipping ends behind the container, or fails as reading it does |
| `TlvTrees.CopyValue` | crates/mat-controller/src/tlv.rs:204-229 | copying stops where reading the element stops or fails with its error, and appends exactly the canonical encoding of its tree under the new tag |
| `TlvTrees.CopyContainer` | crates/mat-controller/src/tlv.rs:231-240 | copying a container stops where `SkipContainer` stops or fails with the same error, and reproduces its contents |
| `TlvTrees.ParseForest` | crates/mat-controller/src/tlv.rs:245-531 | the written contents of a container read back as those trees |
| `TlvTrees.ParseOneTree` | crates/mat-controller/src/tlv.rs:204-531 | one written tree, wherever it stands, reads back as that tree |
| `TreesExact.ParseIsExact` | crates/mat-controller/src/tlv.rs:245-531 | a container is parsed as some trees if and only if reading it gives their elements in order and then an end marker, under whatever tag |
| `TlvFields.StructFields.Open` | crates/mat-controller/src/tlv.rs:286-291 | only a struct start opens the walk; anything else, the end of the input included, is refused with the sentinel type 0 |
| `TlvFields.StructFields.NextField` | crates/mat-controller/src/tlv.rs:325-331 | the next field, none at the end of the struct, and an input that ends before is truncated |
| `TlvFields.StructFields.NextScalar` | crates/mat-controller/src/tlv.rs:308-318 | the next field that is not a container; a container is skipped whole and never read as fields of the struct |
| `TlvFields.AllScalars` | crates/mat-controller/src/tlv.rs:258-332 | the walk of a struct gives exactly its fields that are not containers, in order, and stops behind it, or fails as reading the struct fails |
| `TlvFields.PutRawElement` | crates/mat-controller/src/tlv.rs:188-195 | splicing any text whose first element reads completely, in whatever widths and whatever follows, writes the tree of that element in shortest form under the new tag and nothing else |
| `TlvFields.SplicedTree` | crates/mat-controller/src/tlv.rs:188-195 | splicing a written tree gives that tree under the new tag |
| `Records.WalkFlatStruct` | crates/mat-controller/src/group_settings.rs:127-146 | the context-tagged leaves of a record, containers skipped; none if the record is malformed |
| `Records.FieldsOfStruct` | crates/mat-controller/src/group_settings.rs:127-146 | a written struct reads back as its elements |
| `Records.FabricRoundTrip` | crates/mat-controller/src/group_settings.rs:160-228 | a fabric record reads back as it was written |
| `Records.GroupRoundTrip` | crates/mat-controller/src/group_settings.rs:230-269 | a group record reads back as it was written |
| `Records.KeyMapRoundTrip` | crates/mat-controller/src/group_settings.rs:272-312 | a key map record reads back as it was written |
| `Records.FabricListRoundTrip` | crates/mat-controller/src/group_settings.rs:466-498 | the fabric list reads back as it was written |
| `TreesExact.FabricIsExact` | crates/mat-controller/src/group_settings.rs:160-228 | bytes are a fabric record if and only if they are a struct in which the last number under each of the seven tags is the field; nested and other elements do not matter, a missing or too large number spoils it |
| `TreesExact.GroupIsExact` | crates/mat-controller/src/group_settings.rs:230-269 | the same for group records, whose name is the last text under its tag |
| `TreesExact.KeyMapIsExact` | crates/mat-controller/src/group_settings.rs:272-312 | the same for key map records |
| `TreesExact.FabricListIsExact` | crates/mat-controller/src/group_settings.rs:466-498 | the same for the list of fabrics |
| `KeysetRecord.RelinkStream` | crates/mat-controller/src/group_settings.rs:362-390 | the streaming edit computes `KeysetWithNext`, and fails on the same records |
| `KeysetRecord.SlotStream` | crates/mat-controller/src/group_settings.rs:396-463 | the streaming edit computes `KeysetWithSlot0`, and fails on the same records |
| `KeysetRecord.LinkLaws` | crates/mat-controller/src/group_settings.rs:347-390 | the written link is read back, a second write replaces the first, and element by element the record is the old one with its outer link replaced, nested fields of that tag untouched |
| `KeysetRecord.SlotLaws` | crates/mat-controller/src/group_settings.rs:347-463 | editing the first slot keeps the link, the last edit wins, and the two edits commute |
| `KeysetRecord.SetSlot0Keeps` | crates/mat-controller/src/group_settings.rs:396-463 | all elements but the first key array stay as they are |
| `KeysetRecord.EditedSlotIsComplete` | crates/mat-controller/src/group_settings.rs:434-443 | an edited slot has all three fields even if some were missing |
| `GroupMeaning.EditSlotPuts` | crates/mat-controller/src/group_settings.rs:396-463 | an edited slot holds the written start time, hash and key wherever they stood, every other field in its place, and what was missing once at the end |
| `GroupMeaning.SetSlot0Puts` | crates/mat-controller/src/group_settings.rs:396-463 | a record can be edited if and only if its first key array starts with a struct; then only that struct differs |
| `KeysetRecord.SetSlot0Same` | crates/mat-controller/src/group_settings.rs:396-463 | editing the first slot changes nothing if and only if it is an untagged struct that has all three fields and holds what is written wherever they occur |
| `KeysetRecord.NextOfSetNext` | crates/mat-controller/src/group_settings.rs:347-390 | reading the link after writing it |
| `KeysetReader.ParseKeyStruct` | crates/mat-controller/src/kvs.rs:226-269 | key and hash of one slot; a key of another length than 16 or a hash above 16 bits fails the record |
| `KeysetReader.ParseKeysetFirstEntry` | crates/mat-controller/src/kvs.rs:277-324 | the first slot of the last key array, if the record counts at least one key |
| `KeysetReader.FirstEntryOfEdit` | crates/mat-controller/src/kvs.rs:277-324 | after an edit of slot 0, a record with one key array yields exactly the new key and hash, if and only if it counts at least one key |
| `KeysetExact.FirstEntryIsExact` | crates/mat-controller/src/kvs.rs:226-324 | a record yields a key and hash if and only if every key array starts with a readable slot, the last count is at least 1, and they are the last key and the last hash of the first slot of the last key array |
| `KeysetExact.SlotIsExact` | crates/mat-controller/src/kvs.rs:226-269 | a slot yields its last key and last hash if and only if every key has 16 bytes and every hash 16 bits |
| `KeysetReader.ScanAfterRelink` | crates/mat-controller/src/group_settings.rs:362-390 | relinking a record does not change the key it yields |
| `KeysetReader.Slot0Edited` | crates/mat-controller/src/group_settings.rs:396-463 | the first slot of an edited record is the one put there |
| `KeysetReader.Slot0Relinked` | crates/mat-controller/src/group_settings.rs:362-390 | the first slot of a relinked record is the old one |
| `Chains.WalkOfChain` | crates/mat-controller/src/group_settings.rs:607-666 | following links for as long as the count says meets exactly the entries of the list, without looking at the last link |
| `Chains.ChainUnique` | crates/mat-controller/src/group_settings.rs:607-666 | start and count determine the list |
| `Chains.ChainAppend` | crates/mat-controller/src/group_settings.rs:539-559 | adding at the end: redirecting the last record appends one entry |
| `Chains.ChainPrepend` | crates/mat-controller/src/group_settings.rs:593-600 | adding at the front: a record that links to the old start prepends one entry |
| `Chains.ChainUnlinkFirst` | crates/mat-controller/src/group_settings.rs:884-947 | taking out the first entry moves the start |
| `Chains.ChainUnlinkLater` | crates/mat-controller/src/group_settings.rs:884-947 | taking out a later entry redirects its predecessor and keeps the rest in order |
| `GroupStore.RelinkedNode` | crates/mat-controller/src/group_settings.rs:362-390 | relinking a stored keyset changes its link and nothing else |
| `GroupStore.EditedNode` | crates/mat-controller/src/group_settings.rs:396-463 | editing a stored keyset changes its contents and keeps its link |
| `GroupStore.NewKeysetNode` | crates/mat-controller/src/group_settings.rs:314-345 | a new keyset record reads back as its three slots and its link |
| `GroupView.RepresentsOne` | crates/mat-controller/src/group_settings.rs:607-666 | a store holds at most one group table for a fabric record |
| `GroupView.Cut` | crates/mat-controller/src/group_settings.rs:148-155 | a shortened name is a prefix within the budget |
| `GroupView.CutIsText` | crates/mat-controller/src/group_settings.rs:148-155 | it is still UTF-8 |
| `GroupView.CutIsLongest` | crates/mat-controller/src/group_settings.rs:148-155 | no further whole character would have fitted |
| `GroupView.GroupUnlinked` | crates/mat-controller/src/group_settings.rs:971-989 | the writes of unlinking a group hold exactly the table without it |
| `GroupView.KeysetUnlinked` | crates/mat-controller/src/group_settings.rs:916-947 | the writes of unlinking a keyset hold exactly the table without it |
| `GroupEditor.Editor.WriteGroup` | crates/mat-controller/src/group_settings.rs:513-560 | a known group is renamed in place, a new one goes to the end; only group records of this fabric are written |
| `GroupEditor.Editor.WriteKeyset` | crates/mat-controller/src/group_settings.rs:570-601 | a known keyset gets a new first slot in place, a new one goes to the head; an uneditable record is an error |
| `GroupEditor.Editor.ScanMap` | crates/mat-controller/src/group_settings.rs:607-625 | the bindings with their ids, in list order |
| `GroupEditor.Editor.ScanGroups` | crates/mat-controller/src/group_settings.rs:628-646 | the groups with their ids, in list order |
| `GroupEditor.Editor.ScanKeysets` | crates/mat-controller/src/group_settings.rs:649-666 | the keysets with their raw records, in list order |
| `GroupEditor.Editor.UnlinkKeymaps` | crates/mat-controller/src/group_settings.rs:884-912 | exactly the selected bindings go, from the store and from the scanned list, and are returned in order; the rest keeps its order |
| `GroupEditor.Editor.WriteKeymap` | crates/mat-controller/src/group_settings.rs:727-775 | the binding goes to the end under the id after the largest, the same binding dropped first when rebinding; a duplicate is refused otherwise |
| `GroupEditor.Editor.UnlinkKeyset` | crates/mat-controller/src/group_settings.rs:916-947 | exactly that keyset goes, keyset 0 never; tells whether it was there |
| `GroupEditor.Editor.UnlinkUnused` | crates/mat-controller/src/group_settings.rs:997-1008 | the keysets bound by the bindings taken out and by none of those left go |
| `GroupEditor.Editor.WriteFabricList` | crates/mat-controller/src/group_settings.rs:781-822 | the fabric is put at the head of the list of fabrics unless it is on it |
| `GroupTables.ProvisionKeepsWellFormed` | crates/mat-controller/src/group_settings.rs:832-879 | provisioning keeps ids distinct and leaves no binding without its group and keyset |
| `GroupTables.RemoveKeepsWellFormed` | crates/mat-controller/src/group_settings.rs:958-1013 | removal keeps ids distinct, leaves no dangling binding, and no binding of the group |
| `GroupTables.RemoveMeaning` | crates/mat-controller/src/group_settings.rs:884-1013 | a removal succeeds if and only if the group exists; then exactly that group, exactly its bindings, and exactly the nonzero keysets only they named are gone, the rest in order |
| `GroupMeaning.ProvisionMeaning` | crates/mat-controller/src/group_settings.rs:513-879 | row by row, for known and new ones: the group carries the longest whole-character prefix of the name within 16 bytes, keeps its endpoints or starts with 0xFFFF and 0 at the end; the binding is last under the id after the largest, exactly once, before it the old rows but the rebound ones in order; the keyset is new in front with two empty slots, or changed in its first slot alone; everything else stays. It is refused if and only if the keyset has no slot to edit, or the binding exists and may not be replaced |
| `GroupMeaning.RemovalKeeps` | crates/mat-controller/src/group_settings.rs:884-1013 | what a removal leaves are unchanged old rows in their order: the groups but this one, the bindings of others, and every keyset that another group is bound to, that this one was not bound to, or that is keyset 0 |
| `GroupMeaning.RegisteredOnce` | crates/mat-controller/src/group_settings.rs:781-822 | the list of fabrics keeps its order and holds the fabric once, a new one in front |
| `GroupTables.RemoveUndoesProvision` | crates/mat-controller/src/group_settings.rs:832-1013 | removing the group just provisioned gives the table back if and only if the group id was new and unmentioned, and the keyset was new and unbound, or was bound and its first slot held what is written already |
| `GroupTables.RemoveTakesMore` | crates/mat-controller/src/group_settings.rs:958-1013 | a well-formed table for which it does not: the group was there before and is gone afterwards |
| `GroupTables.ProvisionTwice` | crates/mat-controller/src/group_settings.rs:727-775 | provisioning the same again without rebinding is refused |
| `GroupTables.RunsKeepWellFormed` | crates/mat-controller/src/group_settings.rs:832-1013 | no run of provisioning and removal, failing calls included, ever produces a duplicate id or a binding that leads nowhere |
| `GroupSettings.WriteGroupProvision` | crates/mat-controller/src/group_settings.rs:832-879 | on a store that holds a table: the outcome and the new table are those of `Provision`, the fabric list is kept up, other fabrics and keyset 0 are untouched; the new store comes from the edits made, none of an empty value, and an error leaves the store as it was |
| `GroupSettings.RemoveGroup` | crates/mat-controller/src/group_settings.rs:958-1013 | on a store that holds a table: the outcome and the new table are those of `Remove`, other fabrics, the fabric list and keyset 0 are untouched; the new store comes from the edits made, and an error leaves the store as it was |
| `GroupSettings.OnDiskOne` | crates/mat-controller/src/group_settings.rs:607-666 | a store holds at most one table for a fabric |
| `GroupSettings.OtherFabricsKept` | crates/mat-controller/src/group_settings.rs:832-1013 | what is written for one fabric does not show in the tables of the others |
| `GroupCredentials.ReadGroupCredentials` | crates/mat-controller/src/kvs.rs:484-529 | on a store that holds a table: the key and hash of the keyset of the group's first binding, or the error for what is missing |
| `GroupCredentials.NewBindingConsulted` | crates/mat-controller/src/kvs.rs:484-529 | after provisioning the group sends with the new keyset if and only if it has no binding to another one |
| `GroupCredentials.OlderBindingWins` | crates/mat-controller/src/kvs.rs:484-529 | a well-formed table and a provisioning that goes through without taking effect on sending |
| `GroupCredentials.WrittenKeysetYields` | crates/mat-controller/src/group_settings.rs:570-601 | the keyset just written yields the slot it was given: always when new, otherwise exactly if its record counts a key |
| `GroupCredentials.ProvisionedCredentials` | crates/mat-controller/src/group_settings.rs:832-879 | after provisioning, reading the group's credentials gives the derived key and its hash |
| `IpkRotation.BeginIpkRotation` | crates/mat-controller/src/group_settings.rs:1018-1038 | succeeds exactly when nothing else is pending; the same key again changes nothing |
| `IpkRotation.CommitIpkRotation` | crates/mat-controller/src/group_settings.rs:1045-1084 | succeeds exactly when the pending key matches and keyset 0 can be edited; then slot 0 and the three epoch keys change in one write |
| `IpkRotation.AbortIpkRotation` | crates/mat-controller/src/group_settings.rs:1088-1097 | only the pending key goes; tells whether there was one |
| `IpkRotation.Perform` | crates/mat-controller/src/group_settings.rs:832-1097 | every command on a fabric is a step of the rotation system, made by edits of the store, and one that fails changes nothing |
| `IpkRotation.CommitKeepsInStep` | crates/mat-controller/src/group_settings.rs:1045-1084 | after a commit the pending epoch key is the current one, the key in use is derived from it, the former one is the previous, none is pending, and every other record is as it was |
| `IpkRotation.StepKeepsInStep` | crates/mat-controller/src/group_settings.rs:832-1097 | keyset 0 stays the key derived from the current epoch key; only a commit of the pending key changes it |
| `IpkRotation.RunsStayInStep` | crates/mat-controller/src/group_settings.rs:832-1097 | in every run of commands the key in use is derived from the current epoch key, which is that of the last commit |
| `IpkRotation.OtherFabricInStep` | crates/mat-controller/src/group_settings.rs:1018-1097 | commands on one fabric leave the key of another in step |
| `GroupFile.TextFollows` | crates/mat-controller/src/kvs.rs:580-704 | a file without double keys that holds a store, edited line by line as the store was, written back and opened again, holds the new store and has no double keys |
| `GroupFile.TableInOne` | crates/mat-controller/src/group_settings.rs:607-666 | a file holds at most one group table for a fabric |
| `GroupFile.ProvisionFile` | crates/mat-controller/src/group_settings.rs:832-879 | provisioning on the file: its text holds the provisioned table afterwards, and is unchanged after a failing call |
| `GroupFile.RemoveFromFile` | crates/mat-controller/src/group_settings.rs:958-1013 | removal on the file: its text holds the table without the group afterwards, and is unchanged after a failing call |
| `GroupFile.PerformOnFile` | crates/mat-controller/src/group_settings.rs:832-1097 | every command, rotation included: the text follows the store |
| `KeyNames.NamesInjective` | crates/mat-controller/src/kvs.rs:713-743 | different store keys have different names |
| `KeyNames.NameChars` | crates/mat-controller/src/kvs.rs:713-743 | names consist of lower-case letters, digits, dashes and slashes, so they can stand in a line |
| `TextLines.JoinSplit` | crates/mat-controller/src/kvs.rs:580-704 | joining the pieces of a text gives the text |
| `KvsLines.UneditedBody` | crates/mat-controller/src/kvs.rs:580-704 | an unedited file is written back byte for byte, carriage returns and a missing final newline included |
| `KvsLines.ReadBack` | crates/mat-controller/src/kvs.rs:580-704 | lines written and read again are the same, except that one empty last line of a file without final newline becomes that newline |
| `KvsTexts.EmptyLineBecomesNewline` | crates/mat-controller/src/kvs.rs:688-704 | a file that this happens to when a key is removed |
| `KvsLines.Reopened` | crates/mat-controller/src/kvs.rs:580-704 | writing a file and opening it again gives every key the same value |
| `KvsLines.SetLaw` | crates/mat-controller/src/kvs.rs:677-686 | setting a key gives it the value and leaves every other key, and every line outside the section, alone |
| `KvsLines.EditsTouchOneLine` | crates/mat-controller/src/kvs.rs:677-693 | an edit replaces, inserts or takes out one line, that of the key, and leaves every other line as it is and in its place |
| `KvsLines.RemoveLaw` | crates/mat-controller/src/kvs.rs:688-693 | removing a key leaves the others alone; the key is gone if and only if it had no second line |
| `KvsTexts.SecondLineStays` | crates/mat-controller/src/kvs.rs:688-693 | a file with a second line, whose key has its value after the removal |
| `KvsTransaction.Locate` | crates/mat-controller/src/kvs.rs:598-616 | start and end of the default section |
| `KvsTransaction.OpenTxn` | crates/mat-controller/src/kvs.rs:580-625 | an opened file has the lines, the section and the final newline of its text; without the section it is refused |
| `KvsTransaction.KvsTxn.Find` | crates/mat-controller/src/kvs.rs:648-654 | the first line of the section for a key |
| `KvsTransaction.KvsTxn.Get` | crates/mat-controller/src/kvs.rs:658-675 | the decoded value; an empty one counts as absent |
| `KvsTransaction.KvsTxn.Set` | crates/mat-controller/src/kvs.rs:677-686 | the line is replaced in place or inserted at the end of the section |
| `KvsTransaction.KvsTxn.Remove` | crates/mat-controller/src/kvs.rs:688-693 | the first line of the key is taken out |
| `KvsTransaction.KvsTxn.Commit` | crates/mat-controller/src/kvs.rs:698-704 | the text written back |
| `KvsTransaction.SetRefines` | crates/mat-controller/src/kvs.rs:677-686 | setting a store key in the file is updating the store, or removing the key when the value is empty |
| `KvsTransaction.RemoveRefines` | crates/mat-controller/src/kvs.rs:688-693 | removing a store key that has one line is removing it from the store |
| `KvsTransaction.ReopenRefines` | crates/mat-controller/src/kvs.rs:580-704 | a file written back and opened again holds the same store |
| `KvsReaders.DefaultSection` | crates/mat-controller/src/kvs.rs:100-121 | the text cut out gives every key the value it has in the reader's section |
| `KvsReaders.Lookup` | crates/mat-controller/src/kvs.rs:125-135 | the value of a key in a section, with and without carriage returns |
| `KvsReaders.SameBounds` | crates/mat-controller/src/kvs.rs:100-121 | readers and transaction delimit the same lines if and only if the header the transaction finds, and the line that ends its section, have no blanks around them; other lines do not matter |
| `KvsReaders.ReadersAgree` | crates/mat-controller/src/kvs.rs:100-135 | then both see the same values |
| `KvsReaders.ReaderHeadersAreHeaders` | crates/mat-controller/src/kvs.rs:100-121 | what readers take for a header is one for the transaction |
| `KvsReaders.IndentedHeader` | crates/mat-controller/src/kvs.rs:598-616 | not the other way round: an indented header is one for the transaction only |
| `KvsTexts.SectionOfOneSide` | crates/mat-controller/src/kvs.rs:100-121 | a file in which the transaction finds its section and the readers find none |
| `KvsTexts.KeyOfOneSide` | crates/mat-controller/src/kvs.rs:100-135 | a file in which the readers see a key that the transaction does not |
| `ReplayWindow.RxWindow.CheckAndCommit` | crates/mat-controller/src/counter.rs:47-77 | the in-place window computes `Check`: verdict, new maximum and new bitmap |
| `ReplayWindow.AcceptedIff` | crates/mat-controller/src/counter.rs:47-77 | a counter is accepted if and only if it is the first, above the maximum, or at most 32 below it and not accepted before, with the lost counter as the one exception |
| `ReplayWindow.StepRefines` | crates/mat-controller/src/counter.rs:47-77 | every look at a counter keeps the bitmap an exact account of the counters accepted, but for the lost one |
| `ReplayWindow.SecondTimeOnlyLost` | crates/mat-controller/src/counter.rs:47-77 | a counter accepted again is the former maximum after an advance of exactly 32, and that once |
| `ReplayWindow.HistoriesRefine` | crates/mat-controller/src/counter.rs:29-77 | in every history the window refines the multiset of accepted counters, and none is accepted more than twice |
| `ReplayWindow.LostCounterReturns` | crates/mat-controller/src/counter.rs:47-77 | the exception occurs: any counter, one exactly 32 above, then the first again is accepted, and then no more |
| `ReplayWindow.TxCounter.Next` | crates/mat-controller/src/counter.rs:12-26 | the send counter is handed out and wraps at 2^32 |
| `GroupCounter.PersistedGroupCounter.Persist` | crates/mat-controller/src/group.rs:108-112 | the ceiling follows the file only when the write is reported as done |
| `GroupCounter.PersistedGroupCounter.Next` | crates/mat-controller/src/group.rs:84-91 | at the ceiling the next window is written first; a failed write hands out nothing |
| `GroupCounter.PersistedGroupCounter.Jump` | crates/mat-controller/src/group.rs:98-104 | the counter goes one window above the ceiling, or stays as it is |
| `GroupCounter.Load` | crates/mat-controller/src/group.rs:52-79 | a start is one window above both sources, with the next window written before; a file that is locked or does not hold a number refuses it and stays as it is |
| `GroupCounter.NextHeadroom` | crates/mat-controller/src/group.rs:84-91 | going on to the next window raises the file if and only if one window fits below 2^32 |
| `GroupCounter.JumpHeadroom` | crates/mat-controller/src/group.rs:98-104 | a jump lands above the old ceiling and not above the new one if and only if two windows fit |
| `GroupCounter.LoadHeadroom` | crates/mat-controller/src/group.rs:52-79 | a start is above both sources and not above its ceiling if and only if two windows fit |
| `GroupCounter.WindowsWrap` | crates/mat-controller/src/group.rs:84-104 | without headroom the next window and a jump start again at 0 |
| `GroupCounter.WrapGoesBack` | crates/mat-controller/src/group.rs:52-112 | a run from one window below the end, with a crash, that hands out a smaller counter than before |
| `GroupCounter.DoKeepsAhead` | crates/mat-controller/src/group.rs:52-112 | with that headroom every operation, with a write that fails before or after the rename, keeps `next <= ceiling <= file` and the counters handed out below the file |
| `GroupCounter.RunsIncrease` | crates/mat-controller/src/group.rs:52-112 | over any mix of starts, sends, jumps and crashes the counters handed out strictly increase |
| `GroupCounter.CrashAnywhere` | crates/mat-controller/src/group.rs:52-79 | after a crash at any point the next start is more than a window above every counter ever handed out |
| `Exchange.TotalBudget` | crates/mat-controller/src/exchange.rs:80-88 | the budget is the sum of the longest waits from the initial interval |
| `Exchange.BudgetCovers` | crates/mat-controller/src/exchange.rs:66-88 | the waits from a base interval stay within the budget for all random numbers if and only if the base is at most the initial interval |
| `Exchange.BudgetExceeded` | crates/mat-controller/src/exchange.rs:66-88 | otherwise some random number below 1 makes the actual waits exceed it |
| `Exchange.WaitBound` | crates/mat-controller/src/exchange.rs:29-31 | one wait is between 0 and its interval with full jitter |
| `Exchange.ExchangeCore.Build` | crates/mat-controller/src/exchange.rs:323-364 | a packet takes the next counter and asks for an ack only over an unreliable transport |
| `Exchange.ExchangeCore.SendStandaloneAck` | crates/mat-controller/src/exchange.rs:366-376 | an ack on its own names the counter and is not repeated |
| `Exchange.ExchangeCore.Screen` | crates/mat-controller/src/exchange.rs:384-430 | foreign traffic is skipped without effect, duplicates are acknowledged again and dropped, fresh messages are returned and remembered |
| `Exchange.ExchangeCore.AwaitVerdict` | crates/mat-controller/src/exchange.rs:196-211 | one wait computes `Awaited`: the first message that meets the verdict ends it |
| `ExchangeLaws.AckedWhenAsked` | crates/mat-controller/src/exchange.rs:366-430 | over a transport without acknowledgements, a packet of the exchange from the other role that asks for it is acknowledged, fresh or duplicate, by exactly one packet that names its counter, with the own role and exchange number; nothing else is acknowledged. It is returned if and only if its counter is accepted, and a responder then remembers it |
| `ExchangeLaws.NextCarries` | crates/mat-controller/src/exchange.rs:303-364 | every message takes the next counter, the own exchange number, role and node id, and asks for an ack only over an unreliable transport; that of a responder acknowledges the latest message it took, that of an initiator none |
| `ExchangeLaws.AnswerAcknowledges` | crates/mat-controller/src/exchange.rs:303-538 | the next message of a responder that took a packet ends the wait for that packet's acknowledgement, and the wait for an answer unless it is a bare acknowledgement |
| `ExchangeLaws.AwaitedIff` | crates/mat-controller/src/exchange.rs:185-244 | a wait ends if and only if some message that arrives in it, screened after those before it, meets the verdict |
| `ExchangeLaws.AwaitedFirst` | crates/mat-controller/src/exchange.rs:185-244 | it ends with the first such message, and what arrives later is not looked at |
| `ExchangeLaws.SendingIff` | crates/mat-controller/src/exchange.rs:185-218 | sending ends with a result if and only if in one of the waits, after those before it went by, a message meets the verdict |
| `Exchange.ExchangeCore.MrpSendLoop` | crates/mat-controller/src/exchange.rs:66-218 | result and state are those of `Sending`; the very packet is sent at most `max_retries` + 1 times; the k-th wait is the base times the backoff k times, with jitter and the random number drawn, the base being the active interval if and only if the peer was heard within 4000 ms; the waits stay within the budget when the active interval is not above the initial one; giving up means all of them |
| `Exchange.ExchangeCore.SendReliable` | crates/mat-controller/src/exchange.rs:436-477 | result and state are those of `Sending`, over a reliable transport of one sending and a wait for an answer; all repeats are one packet; if the peer is an honest other side, a bare acknowledgement is returned only if that side has heard this very counter |
| `Exchange.ExchangeCore.SendFinal` | crates/mat-controller/src/exchange.rs:500-538 | result and state are those of `Sending`; over an unreliable transport and with an honest other side, success means that this side has heard this very counter; over a reliable one the message is sent once |
| `Exchange.DoFaithful` | crates/mat-controller/src/exchange.rs:384-538 | a step of either side or of the network keeps both sides honest: each acknowledges only what it heard, and heard only what was sent |
| `Exchange.RunsAreFaithful` | crates/mat-controller/src/exchange.rs:384-538 | over a network that loses, repeats and reorders, in every run |
| `Exchange.OpeningIsFaithful` | crates/mat-controller/src/exchange.rs:565-660 | an exchange as it is opened is in that state |
| `Exchange.AckedMeansReceived` | crates/mat-controller/src/exchange.rs:185-538 | in every run each side is such an honest side: a packet of the peer that ends a wait with an acknowledgement was written after its screening had received that very counter |
| `ExchangeLaws.DoPaired` | crates/mat-controller/src/exchange.rs:297-538 | short of the last counter, every step keeps the packets of each side its own and the replay window of each side below the next counter of the other |
| `ExchangeLaws.RunsArePaired` | crates/mat-controller/src/exchange.rs:297-538 | in every run |
| `ExchangeLaws.OpeningIsPaired` | crates/mat-controller/src/exchange.rs:565-660 | an exchange as it is opened is in that state |
| `ExchangeLaws.AckComesBack` | crates/mat-controller/src/exchange.rs:185-538 | in every run: a message that asks for it and gets through is acknowledged, even if it got through before, and the acknowledgement, if it gets through, is taken and ends the wait of the sender |
| `Calendar.DaysOfCivil` | crates/mat-controller/src/cert.rs:973-984 | for every integer, the date computed is a date of the calendar, and the other program's day computation gives the integer back |
| `Calendar.CivilOfDays` | crates/mat-controller/src/attestation.rs:356-364 | for every date of the calendar, computing its day and the date of that day gives the date back |
| `Calendar.DaysOfNext` | crates/mat-controller/src/attestation.rs:356-364 | the day after a date has the next number |
| `Calendar.CivilIsTheCalendar` | crates/mat-controller/src/cert.rs:973-984 | day 0 is 1970-01-01, and each number is the day after the one before |
| `CertTime.EpochYears` | crates/mat-controller/src/cert.rs:948-969 | Matter epochs fall in the years 2000 to 2136 |
| `CertTime.TextReads` | crates/mat-controller/src/attestation.rs:317-343 | the text of every valid time from 1950 to 9999 reads back as that time, in both forms |
| `CertTimeExact.TimeIsExact` | crates/mat-controller/src/attestation.rs:317-343 | a text is read as a time if and only if it is one of its two forms, with a month from 1 to 12, a day of at most 31 whatever the month, and at most 60 seconds |
| `CertTime.SecondsOfStamp` | crates/mat-controller/src/attestation.rs:348-353 | seconds since 1970 survive the split into date and time of day |
| `CertTime.EpochRoundTrip` | crates/mat-controller/src/cert.rs:948-969 | every Matter epoch but 0, written as a DER time and read back with the other program's parser, gives epoch + 946684800, with UTCTime up to 2049 and GeneralizedTime after |
| `Der.DerReader.Read` | crates/mat-controller/src/x509.rs:109-155 | the cursor computes `ReadItem`: tag, content, raw bytes and the position behind |
| `Der.DerReader.Expect` | crates/mat-controller/src/x509.rs:157-164 | an item under the expected tag |
| `Der.ReadTlv` | crates/mat-controller/src/asn1.rs:6-23 | every item of up to 65535 bytes, whatever follows it, reads back as itself, and reading stops right behind it |
| `Der.TlvIsPrefixFree` | crates/mat-controller/src/asn1.rs:6-23 | no item is the beginning of another |
| `DerExact.ItemIsExact` | crates/mat-controller/src/x509.rs:109-155 | an item is read at a position if and only if a tag, a length in one of its three forms, shortest or not, and that many bytes stand there |
| `DerExact.UnderIsExact` | crates/mat-controller/src/x509.rs:157-164 | the same for an item under an expected tag |
| `Signatures.UintInteger` | crates/mat-controller/src/asn1.rs:95-110 | leading zeros are dropped and one is put back before a high bit |
| `Signatures.IntegerRoundTrip` | crates/mat-controller/src/x509.rs:414-422 | 32 bytes written as an integer read back |
| `Signatures.ParseEcdsaDerSignature` | crates/mat-controller/src/x509.rs:401-411 | the parser computes `EcdsaParsed` |
| `Signatures.EcdsaRoundTrip` | crates/mat-controller/src/asn1.rs:112-114 | every signature of 64 bytes reads back from its DER form |
| `DerExact.EcdsaIsExact` | crates/mat-controller/src/x509.rs:401-422 | bytes are read as a signature if and only if they begin with a sequence that begins with two integers of 1 to 32 bytes, or of 33 the first of which is zero, that stand for its two halves |
| `Cms.ParseSignerInfo` | crates/mat-controller/src/attestation.rs:609-635 | the signed bytes and signature of a signer info; with signed attributes their digest must match |
| `Cms.VerifyMessageDigestAttr` | crates/mat-controller/src/attestation.rs:579-602 | the first message digest attribute decides |
| `Cms.ParseCmsSignedData` | crates/mat-controller/src/attestation.rs:513-573 | the parser computes `CmsParsed`, each missing part with its own error |
| `Cms.CmsRoundTrip` | crates/mat-controller/src/cd.rs:148-178 | the CMS writer succeeds if and only if the outermost item, whose length is given in those of content, key id and signature, holds at most 65535 bytes; then its output reads back as the content, signed as it stands, with the signature that was made |
| `Cms.CmsFits` | crates/mat-controller/src/cd.rs:148-178 | content and key id of up to 65361 bytes together always fit, and with 256 bytes each and the longest signatures no more do |
| `Cms.LongContentIsRefused` | crates/mat-controller/src/cd.rs:148-178 | a declaration with more than 65535 bytes of content is refused |
| `CmsExact.SignerIsExact` | crates/mat-controller/src/attestation.rs:579-635 | a signer info is read if and only if its items are there and, with signed attributes, the first message digest among them is the digest of the content; the bytes to check are then the attributes under the tag of a set, otherwise the content |
| `CmsExact.CmsIsExact` | crates/mat-controller/src/attestation.rs:513-635 | a message is read if and only if it is content in its wrappers, and its signer if and only if the first one behind optional certificates and revocation lists is one |
| `Certificate.CertRoundTrip` | crates/mat-controller/src/cert.rs:334-553 | every certificate reads back from its TLV as itself if and only if that has at most 1024 bytes; a longer one is refused |
| `Certificate.LongCertIsRefused` | crates/mat-controller/src/cert.rs:334-553 | a certificate that is refused |
| `Certificate.ExtsRoundTrip` | crates/mat-controller/src/cert.rs:731-792 | a list of extensions reads back |
| `Certificate.DnRoundTrip` | crates/mat-controller/src/cert.rs:698-728 | a name reads back |
| `CertExact.CertIsExact` | crates/mat-controller/src/cert.rs:334-423 | bytes are read as a certificate if and only if there are at most 1024 of them and they are a struct of nothing but well-formed fields, in which the last one under each tag is the certificate's, and all but the extensions are there |
| `CertExact.ExtsAreExact` | crates/mat-controller/src/cert.rs:731-792 | the same for a list of extensions |
| `CertExact.BasicIsExact` | crates/mat-controller/src/cert.rs:731-792 | the same for basic constraints: the last flag and the last path length count, and there must be a flag |
| `CertExact.DnIsExact` | crates/mat-controller/src/cert.rs:698-728 | a name is read exactly from its attributes |
| `CertStream.CertToTlv` | crates/mat-controller/src/cert.rs:533-553 | the writer calls write the certificate's TLV |
| `CertStream.WriteDn` | crates/mat-controller/src/cert.rs:556-565 | a name is written attribute by attribute |
| `CertStream.WriteExtension` | crates/mat-controller/src/cert.rs:567-588 | an extension of each kind is written |
| `CertStream.ParseDn` | crates/mat-controller/src/cert.rs:698-728 | the loop reads the name, or fails where reading the list fails |
| `CertStream.ParseExtensions` | crates/mat-controller/src/cert.rs:731-792 | the loop reads the extensions, or fails where reading the list fails |
| `CertStream.ParseCertificate` | crates/mat-controller/src/cert.rs:334-423 | the parsing loop computes `ParseCert` |
| `CertChain.NewCats` | crates/mat-controller/src/cert.rs:206-232 | tags are accepted if and only if there are at most three, with versions other than 0 and pairwise different identifiers |
| `CertChain.SignatureIsOutside` | crates/mat-controller/src/cert.rs:427-458 | the signature is not part of what is signed |
| `CertChain.IssuedVerifies` | crates/mat-controller/src/cert.rs:61-122 | a certificate issued with the issuer's key verifies if and only if the issuer is a root: self-signed, an authority, allowed to sign certificates; it carries the ids and tags it was issued for |
| `CertMeaning.IssuedSays` | crates/mat-controller/src/cert.rs:61-122 | an issued certificate carries the operational key, serial number, issuer's name, validity epochs 662688000 and 978048000, exactly node id, fabric id and tags in order, the leaf's extensions, the key id of the operational key and that of the issuer, and is signed by the issuer's key; none is issued if and only if a tag is bad, the issuer has no key id, or the certificate so described cannot be written |
| `CertChain.IssuedSurvivesTlv` | crates/mat-controller/src/cert.rs:61-122 | written to TLV and read back it is the same, with the same tags, and verifies the same |
| `CertChain.LeafCannotIssue` | crates/mat-controller/src/cert.rs:593-695 | a node certificate that verifies serves neither as root nor as intermediate certificate |
| `CertMeaning.VerifiesIff` | crates/mat-controller/src/cert.rs:593-695 | a chain verifies if and only if root, intermediate and node certificate are each signed by the key above and name the one above, both authorities have their flag and key usage bit 5, the intermediate limits its path to nodes and the root does not, the node is no authority, has bit 0 and neither 5 nor 6 and both purposes, and has a node id and the fabric of the intermediate; the first extension of each kind and the first id count |
| `CertMeaning.ForgedIsRefused` | crates/mat-controller/src/cert.rs:461-695 | one signature that does not verify under the key above is enough to refuse a chain |
| `CertMeaning.Resigned` | crates/mat-controller/src/cert.rs:461-695 | a chain that verifies, with another signature on the node certificate, still verifies if and only if that signature does |
| `TbsExact.TbsReads` | crates/mat-controller/src/cert.rs:427-458 | a DER reader finds in the signed bytes, in this order, version 3, serial number, algorithm, issuer, validity, subject, public key and extensions, each as the certificate says |
| `TbsExact.AttrReads` | crates/mat-controller/src/cert.rs:796-843 | an attribute of a name is its object identifier and a string: ids as 16 hexadecimal digits, tags as 8 |
| `TbsExact.ExtReads` | crates/mat-controller/src/cert.rs:847-938 | an extension is its object identifier, critical unless it is a key id, and its value |
| `TbsExact.UsageStands` | crates/mat-controller/src/cert.rs:908-925 | bit i of a key usage is the i-th bit of the string, the highest of a byte first |
| `CertSigned.SignedDetermines` | crates/mat-controller/src/cert.rs:427-458 | two certificates have the same signed bytes if and only if they agree in serial number, names, validity, key and extensions, but for the highest bit of the tags of ids in names |
| `CertSigned.TagBitIsNotSigned` | crates/mat-controller/src/cert.rs:796-833 | that bit is not written: an id under the tag with the bit set has the same signed bytes but is not found as node id |
| `CertSigned.NameSame` | crates/mat-controller/src/cert.rs:796-833 | two names are written the same if and only if their attributes are, one by one |
| `CertSigned.ExtSame` | crates/mat-controller/src/cert.rs:847-902 | different extensions are written differently |
| `CertSigned.UsageSame` | crates/mat-controller/src/cert.rs:908-925 | different key usages have different bit strings |
| `CertSigned.UnusedIsTrailing` | crates/mat-controller/src/cert.rs:908-925 | the unused bits announced are the trailing zeros of the last byte |
| `CertSigned.TimeSame` | crates/mat-controller/src/cert.rs:948-969 | different validity epochs, 0 for no expiration included, are written differently |
| `Base38.CharPosition` | crates/mat-controller/src/setup_code.rs:80-85 | the value of a character |
| `Base38.EncodeChunk` | crates/mat-controller/src/setup_code.rs:110-118 | the digits of a chunk, the lowest first |
| `Base38.EncodeBytes` | crates/mat-controller/src/setup_code.rs:89-108 | the loop over groups of three bytes computes `Encode` |
| `Base38.DecodeChunk` | crates/mat-controller/src/setup_code.rs:156-167 | a chunk with a bad character or a value too large for its bytes is refused |
| `Base38.DecodeText` | crates/mat-controller/src/setup_code.rs:122-154 | the loop over groups of five characters computes `Decode` |
| `Base38.Bijection` | crates/mat-controller/src/setup_code.rs:89-167 | a text decodes to some bytes if and only if it is their encoding: accepted texts and byte strings correspond one to one |
| `SetupPayload.PackPayload` | crates/mat-controller/src/setup_code.rs:176-217 | the fields are pushed one above the other into 88 bits, little-endian |
| `SetupPayload.PayloadRoundTrip` | crates/mat-controller/src/setup_code.rs:176-254 | every payload whose fields fit reads back from its bytes, whatever follows |
| `SetupPayload.QrRoundTrip` | crates/mat-controller/src/setup_code.rs:258-276 | every payload whose fields fit reads back from its QR text, but for passcode 0, which is refused |
| `SetupPayload.QrTextsDiffer` | crates/mat-controller/src/setup_code.rs:273-276 | different payloads have different QR texts |
| `SetupExact.QrIsExact` | crates/mat-controller/src/setup_code.rs:219-276 | a QR text is accepted for a payload if and only if it is the payload's text, up to the four bits above the fields and further bytes, and the passcode is not 0 |
| `Verhoeff.TableD` | crates/mat-controller/src/setup_code.rs:280-302 | the table is the multiplication of the dihedral group of order 10 |
| `Verhoeff.TableP` | crates/mat-controller/src/setup_code.rs:280-302 | the rows are the powers of one permutation, of period 8 |
| `Verhoeff.TimesAssociates` | crates/mat-controller/src/setup_code.rs:280-302 | that multiplication is associative |
| `Verhoeff.VerhoeffCheckDigit` | crates/mat-controller/src/setup_code.rs:305-311 | the loop over the tables computes the check digit of the group |
| `Verhoeff.ValidIff` | crates/mat-controller/src/setup_code.rs:305-311 | a number is valid if and only if the product of all its permuted digits is the unit |
| `Verhoeff.ChangeShows` | crates/mat-controller/src/setup_code.rs:305-311 | changing any one digit of a valid number of any length, check digit included, is noticed |
| `Verhoeff.SwapOfNeighboursShows` | crates/mat-controller/src/setup_code.rs:305-311 | so is swapping two different neighbours |
| `ManualCode.ParseCode` | crates/mat-controller/src/setup_code.rs:333-380 | the parser computes `ParseManualCode`, its tests in the source's order |
| `ManualCode.ManualRoundTrip` | crates/mat-controller/src/setup_code.rs:333-410 | every passcode up to 99999998 and short discriminator reads back from its code, but for passcode 0, which is refused |
| `ManualCode.WrongDigitRefused` | crates/mat-controller/src/setup_code.rs:333-380 | an accepted code with one wrong digit is refused because of its check digit |
| `ManualCode.SwappedDigitsRefused` | crates/mat-controller/src/setup_code.rs:333-380 | an accepted code with two different neighbours swapped is refused because of its check digit |
| `SetupExact.ManualIsExact` | crates/mat-controller/src/setup_code.rs:333-380 | a manual code is accepted for passcode and discriminator if and only if it spells them, with or without ten more digits, and ends in its check digit; the second group of five digits may be 65536 more than it needs to be |
| `SetupExact.SecondText` | crates/mat-controller/src/setup_code.rs:333-380 | where that still has five digits, a code has a second text that is accepted for it |

## Left out

What is not modelled:

- Tokio tasks, channels, sockets, BlueZ and GATT, timers and file locks: they are nondeterministic steps and parameters (what
  arrives, whether a write succeeds, whether a file opens). Nothing is said about timeouts, except the schedule of the MRP
  waits and their bound.
- ECDSA, HKDF, SHA-256, AES-CCM and PBKDF2: functions given as parameters. All that is asked of them is that a signature
  verifies under the public key of its private key, and only where a lemma says so.
- `atomic_replace`: it installs the new contents or leaves the old, and may report failure either way; for the group counter
  both are steps, for the key-value file a failed commit leaves the old contents.
- The handshake bytes of BTP; a session starts from what the handshake lets through (segment size at least 20, window at
  least 1).
- CASE, PASE and SPAKE2+ drivers, `transport.rs`, the group sender's egress and interface handling.
- `message.rs`: packets of an exchange are records, a datagram that does not decode is one without a packet.
- `race.rs`, `hex.rs`, `color.rs`, `acl.rs`, `alias.rs`, `body.rs`, `output.rs`: they would only add easy members.
- `read_groups`, which only lists what `ScanGroups`, `ScanMap` and `ScanKeysets` return; other readers of the key-value
  file; `create` and fabric bootstrap.
- X.509 parsing beyond the DER reader, times and signatures; attestation certificate chains; certificate signing requests.
- Reasons in error messages: a record, certificate or CMS part that does not parse is one error, except where a caller
  distinguishes them.
- The contents of floating-point values: they are the 4 or 8 bytes.
- Base64: any codec that gives back what it encodes, on one line, and writes only the empty value as nothing.

Where a contract says less than the source does:

- BtpActor.RunSession: reasons for ending a session that depend on the clock (keepalive, no ack progress) are
  nondeterministic, and `last_ack_progress` is not part of the state.
- BtpSession.Next: `SendAck` covers the keepalive, the proactive ack and the ack sent while waiting; when each happens is
  said of the actor (`BtpTurns`).
- TlvFields.PutRawElement: the panics on a text that does not read completely are its precondition.
- TlvStream.Reader.Next: buffers are shorter than 2^63 bytes, as any slice is.
- KeysetRecord.RelinkStream: the same bound on the length of a record; also `SlotStream`, `WalkFlatStruct` and
  `ParseKeysetFirstEntry`.
- GroupSettings.WriteGroupProvision: on a store that holds no well-formed lists for the fabric it says only that errors change
  nothing and that other fabrics and keyset 0 are untouched. Counts and ids that would leave 16 bits are excluded from the
  statement about the new table (`HasRoom`).
- GroupSettings.RemoveGroup: the same for stores without well-formed lists.
- GroupFile.TextFollows: the file has no key twice; what a removal does to a key with a second line is in `RemoveLaw`.
- GroupCredentials.ReadGroupCredentials: on a store without well-formed lists nothing is said about the result.
- GroupCredentials.ProvisionedCredentials: its conditions are sufficient; the exact ones are in `NewBindingConsulted` and
  `WrittenKeysetYields`. The conditions on a keyset that was there concern records with exactly one key array.
- Exchange.MrpSendLoop: intervals are real numbers; rounding of durations is not modelled.
- Exchange.AckedMeansReceived: it speaks of what the peer's screening took in; what the peer's application made of it is
  outside the exchange.
- Cms.CmsRoundTrip: content too long for a two-byte DER length makes the original panic; here the writer has no result.
- CertChain.IssuedVerifies: names and extensions that cannot be written have no signed bytes, the same for the panic on more
  than 65535 bytes.
