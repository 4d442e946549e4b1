# Ferrowl: a verified model

Ferrowl simulates and drives industrial devices. It keeps a register store, serves it over
Modbus, polls remote Modbus devices into it, converts register words to typed values, and speaks
OCPP-J to charging equipment. This project models the parts of it that carry state, arithmetic
or protocol logic, and proves what they keep.

Nothing here executes the original program. Each class or loop of the original is a Dafny class
or loop, tied by its contract to a specification function; the promises are then proved about the
specification, for every input, every run or every reachable state.

| file | what it holds |
|---|---|
| `Basics`, `Cells`, `Slices` | shared notions, cells, ranges, the interval map of one device and the flat address map it represents |
| `Declaration`, `Permissions` | declaring ranges: merging intervals, widening access, all or nothing, in any order; what declared access permits |
| `Walk` | the interval walk shared by every read and write path |
| `FlatStore`, `Memory`, `History`, `Journals` | the store against a flat map per key; what runs of writes leave behind; the write tap's journal of a run |
| `Server`, `ServerRuns`, `Requests` | the Modbus request handler, every sequence of requests, and each request spelled out |
| `Bits`, `Bytes`, `Codec`, `CodecLaws`, `Fields`, `HexText`, `TextLaws` | words to integers and back, bit fields, merging, integer text; the same in plain arithmetic |
| `Poll`, `PollLaws`, `Backoff`, `Reconnect`, `ClientWait`, `ClientRetry`, `ClientDriver` | the client: poll fairness, backoff, the command channel across reconnects, what its polls mean for its waits, and when it stops |
| `Correlation`, `Connection`, `Teardown`, `ConnectionRuns`, `Lifecycle`, `CallOutcomes` | the OCPP call table, and one connection as a machine over every interleaving: calls, writer, handlers, shutdown, what ends each part, and what each caller is told |
| `Ring`, `Markdown`, `MarkdownLaws` | the ring buffer against a bounded queue; the inline Markdown scanner, and what it must find |

## Where the code and its promises part

- **Unchecked writes tear.** `docs/specs/modbus/requirements.md` (MB-R-029, MB-R-034) and
  `docs/specs/modbus/data-contract.md` say a partly covered range fails as a whole. The code
  stores the words before the first gap, returns false and tells the tap nothing. `TornExample`
  is the smallest case. `StepReplay` shows a write's events describe it exactly when it does not
  tear, and `Journal` proves replay and undo for every run without a tear. For runs with tears,
  `ReplayExactly` and `UndoExactly` say which journals still tell the whole story. Checked writes
  never tear (`CheckedNeverTorn`).
- **A call can wait without a timeout.** A call is sent into a channel of 64 frames before its
  timeout starts, and the command loop waits with it. `StuckExactly`: an unresolved call has no step
  of its own if and only if it is being sent into a full channel whose writer has not exited.
  `BlockedExample` reaches that state, and `BlockedUntilWriter` shows that until the writer moves
  neither a timeout nor shutdown begins. When neither the call nor the writer can move, the call
  has been answered (`QuiescentResolved`).
- **Shutdown can wait for a write without a timeout.** Its last act awaits the writer. The drain is
  bounded and always has a next step (`ShutdownCompletes`, `DrainProceeds`), but the step may be the
  peer's to allow: `DrainHeldUp` shows that a writer in the middle of a write stays there, and
  shutdown with it, until that write returns.
- **An aborted handler can still answer.** `docs/specs/ocpp/requirements.md` (OC-R-121) and
  `docs/specs/ocpp/edge-cases.md` (OC-E-094) say it never sends its reply. An abort is a request: a
  handler being polled at that moment runs to its next await, and a send into a channel with room
  does not await. `AbortedAnswersExactly`: it can answer afterwards if and only if the abort caught
  it being polled and the channel is not shut for good. `LateAnswerExample` is an instance. What
  holds in every case is one answer at most (`AnswersOnceStep`) and a bounded drain
  (`ShutdownCompletes`).
- **Declarations are not repeatable.** A range that widened a cell to read/write is refused when
  declared again, and the same widening range listed twice in one call is refused. `Redeclare`
  gives the exact condition and `RedeclareExample` the least case of both. The outcome is still
  independent of the order (`OrderIrrelevant`).
- **Encoded words can leave the mask.** A big-endian signed byte whose placed field has its top
  bit set carries its sign into the neighbouring byte. `EncodedInsideMask` says this is the only
  case, `SpillExample` is an instance, and the merge strips the extra bits (`MergeOwnsItsBits`,
  `DecodeMerged`).
- **Read/Write Multiple Registers reads first.** Section 6.17 of the MODBUS Application Protocol
  Specification V1.1b3 performs the write first. `ReadFirstOrWriteFirst` says exactly when the two
  replies agree, and `ReadFirstExample` is a request where they differ.
- **An unordered backoff policy is not capped at first.** `CappedExactly`: every wait is the
  doubled initial wait capped at the maximum if and only if the initial wait is not above it.
- **Silence changes nothing.** The handler's comment speaks of a request for an unmapped unit as
  applied to the store; `RefusalKeepsStore` shows there is nothing it could change.

## Modelling decisions

- A `select!` is a choice made by the environment: an event script in `Reconnect`, an event
  sequence in `Connection`, a list of rounds in `Backoff`. Time is a number. Logging takes no time.
- The tap is the list of events it has been handed. A Modbus request arrives decoded.
- One-shot channels are slots: empty, filled, or gone when their sender is dropped.
- The writer's channel accepts a frame whenever it has room and a receiver; who among several
  waiting senders goes first is the environment's choice. A writer that has left its loop still
  holds the channel until its sink is closed.
- A handler is between polls or being polled. An abort marks it; one between polls is never polled
  again, one being polled goes on to its next await.
- Addresses, lengths and durations are unbounded; 16-bit words, the 16-bit quantity of a reply,
  and every cast and shift of the codec are modelled at their width.
- Integer literals follow the documented grammar of Rust's `from_str_radix`: an optional sign, a
  minus only for signed types, and at least one digit.
- `Slice` is a value inside the device's map, as it is owned by that map in the original; the
  store, the poller, the client task, the call table, the handler list and the ring are objects.

## Model

| member | source | states |
|---|---|---|
| Cells.Intersect | ferrowl-store/src/range.rs:72-81 | the intersection holds exactly the common addresses and is never empty; none is reported exactly when there is no common address |
| Slices.View | ferrowl-store/src/memory.rs:27-40 | the flat map of a device: its domain is the covered addresses and each interval's cells appear at their own addresses |
| Slices.Keys | ferrowl-store/src/memory.rs:364-369 | intervals are visited in ascending order, each once |
| Declaration.DeclaredSnoc | ferrowl-store/src/memory.rs:104-152 | one more range fits exactly when every existing cell tolerates one more covering range, and then acts per address as one more cover |
| Declaration.Targets | ferrowl-store/src/memory.rs:109-113 | the absorbed intervals are all and only those that intersect the range, in order |
| Declaration.Union | ferrowl-store/src/memory.rs:118-119 | the range and all it absorbs span one gap-free interval that no other interval touches |
| Declaration.Absorb | ferrowl-store/src/memory.rs:123-130 | the merged buffer holds every absorbed cell at its own address and zeroed cells elsewhere; the absorbed intervals leave the map |
| Declaration.WidenCells | ferrowl-store/src/memory.rs:134-148 | succeeds exactly when every cell has the type and a compatible access; then widens those cells and no other |
| Declaration.WidenTargets | ferrowl-store/src/memory.rs:132-150 | over all absorbed intervals, each overlapped cell is widened once; a refusal names an incompatible cell |
| Declaration.InstalledView | ferrowl-store/src/memory.rs:114-151 | putting the merged interval in place of the absorbed ones keeps intervals disjoint and refines the flat declaration |
| Declaration.DeclareRange | ferrowl-store/src/memory.rs:104-152 | one range is accepted exactly when every existing cell under it is compatible; then the flat map gains zeroed cells and widened access and nothing else |
| Declaration.CountPermutation | ferrowl-store/src/memory.rs:96 | how many ranges cover an address does not depend on their order |
| Declaration.OrderIrrelevant | ferrowl-store/src/memory.rs:96-157 | every permutation of the ranges has the same success and the same flat result |
| Declaration.Redeclare | ferrowl-store/src/memory.rs:134-148 | repeating an accepted declaration is accepted if and only if the first one widened no cell |
| Declaration.RedeclareExample | ferrowl-store/src/memory.rs:134-148 | a read range over a write-only cell is accepted once, and refused when repeated or listed twice |
| Declaration.SortByStart | ferrowl-store/src/memory.rs:96 | the ranges are processed sorted by start, as a permutation of the input |
| Declaration.DeclareRanges | ferrowl-store/src/memory.rs:95-159 | success if and only if every existing cell tolerates its number of covers; then each address is zeroed if new, widened if covered by the other direction, else untouched |
| Permissions.CellPermits | ferrowl-store/src/cell.rs:77-84 | a cell is readable unless write-only, writable unless read-only, and only as its own type |
| Permissions.FreshPermits | ferrowl-store/src/memory.rs:95-159 | a fresh declaration permits reading, or writing, exactly in the declared ranges, as the declared type, when the declared access is not the other direction |
| Permissions.DeclaredPermits | ferrowl-store/src/memory.rs:134-148 | after any accepted declaration an old cell permits what it did, and both directions if covered from the other one |
| Permissions.DeclareThenRead | ferrowl-store/src/memory.rs:95-159 | on a new key, declare then read or write: success exactly where the declaration permits it, and a read shows zeros |
| Memory.Memory.constructor | ferrowl-store/src/memory.rs:27-40 | a new store is empty and has no tap |
| Memory.Memory.AddRanges | ferrowl-store/src/memory.rs:95-159 | all or nothing on the flat store, for every key and list of ranges; on refusal the whole store is unchanged |
| Memory.Memory.Readable | ferrowl-store/src/memory.rs:340-351 | Ok exactly when every address is covered by a cell of the type that permits reading, else the error for a missing key or address |
| Memory.Memory.Writable | ferrowl-store/src/memory.rs:286-297 | the same for writing |
| Memory.Memory.Read | ferrowl-store/src/memory.rs:304-318 | the flat words in address order across any number of intervals, or the access error |
| Memory.Memory.ReadUnchecked | ferrowl-store/src/memory.rs:322-336 | the flat words whatever the access, exactly when the range is fully covered |
| Memory.Memory.Write | ferrowl-store/src/memory.rs:166-192 | on Ok exactly the range takes the new words; on Err, including a length mismatch, nothing changes |
| Memory.Memory.WriteUnchecked | ferrowl-store/src/memory.rs:266-282 | stores exactly the longest covered prefix, and returns true exactly when that prefix is the whole range |
| Memory.Memory.SetWriteTap | ferrowl-store/src/memory.rs:196-198 | a fresh tap has seen nothing |
| Memory.Memory.WriteFrom | ferrowl-store/src/memory.rs:201-234 | the checked write plus, exactly on success, one tap event with the words replaced |
| Memory.Memory.WriteUncheckedFrom | ferrowl-store/src/memory.rs:237-262 | the prefix-storing write plus, exactly on success, one tap event with the words replaced |
| Walk.CoveredEnd | ferrowl-store/src/memory.rs:364-383 | the end of the longest gap-free covered prefix of a range |
| Walk.CoveredEndUnique | ferrowl-store/src/memory.rs:364-383 | that end is the only one with this property, and is the range's end if and only if the range is covered |
| Walk.SliceAllows | ferrowl-store/src/slice.rs:91-96 | an interval admits a contained range exactly when every cell in it has the type and the access |
| Walk.SliceWrite | ferrowl-store/src/slice.rs:98-119 | the segment's cells take the values, all other cells stay; a read-only cell is skipped in checked mode only |
| Walk.SliceRead | ferrowl-store/src/slice.rs:121-138 | the segment's words in order, or none when a checked read meets a write-only cell |
| Walk.WalkAllows | ferrowl-store/src/memory.rs:364-383 | the walk that tests access stops at the first gap or refusal |
| Walk.WalkRead | ferrowl-store/src/memory.rs:364-383 | the walk that reads collects the covered prefix in address order |
| Walk.WalkWrite | ferrowl-store/src/memory.rs:386-405 | the walk that writes stores the covered prefix into each visited interval and leaves the rest |
| Walk.DeviceAllows | ferrowl-store/src/memory.rs:286-297 | over a whole device: true if and only if every address in range is covered and permits the access |
| Walk.DeviceRead | ferrowl-store/src/memory.rs:304-336 | over a whole device: covered exactly when the flat map covers the range, and then its flat words |
| Walk.DeviceWrite | ferrowl-store/src/memory.rs:386-405 | over a whole device: the flat map changes in the covered prefix only, the intervals stay disjoint and keep their keys |
| FlatStore.PutSame | ferrowl-store/src/memory.rs:266-282 | storing words changes nothing if and only if they are the words already in the covered prefix |
| FlatStore.PutBack | ferrowl-store/src/memory.rs:201-262 | storing a covered range's old words over its new ones restores the store |
| FlatStore.StepReplay | ferrowl-store/src/memory.rs:201-282 | a sourced write is what its tap event says if and only if it does not tear |
| FlatStore.TornExample | ferrowl-store/src/memory.rs:266-282 | a failing unchecked write that stores a word and reports nothing |
| FlatStore.Journal | ferrowl-store/src/memory.rs:201-262 | over any run without a tear, replaying the events gives the final store and undoing them in reverse gives the start back |
| Journals.WriteAll | ferrowl-store/src/memory.rs:201-262 | a store performing any list of checked and forced writes ends in the specified store with its tap's log extended by exactly the specified events; without a tear a tap installed at the start replays to the end and undoes to the start |
| Journals.FinalWord | ferrowl-store/src/memory.rs:166-282 | after any run each cell keeps its kind and holds the word the declarations and the list of writes determine |
| Journals.ReplayTold | ferrowl-store/src/memory.rs:201-262 | replaying a run's journal is performing the writes that succeed, from any store with the same declarations |
| Journals.ReplayExactly | ferrowl-store/src/memory.rs:237-282 | replay gives the final store if and only if at every address the last landing write and the last reported one leave the same word |
| Journals.UndoExactly | ferrowl-store/src/memory.rs:237-282 | undo gives the start back if and only if no address changed before the tap first heard of it |
| History.ShapeDecides | ferrowl-store/src/memory.rs:286-297 | whether a write succeeds depends only on declared regions, types and access |
| History.StepCell | ferrowl-store/src/memory.rs:166-192 | one write changes a cell exactly when it lands there, and then only its word |
| History.LastWriteWins | ferrowl-store/src/memory.rs:166-192 | after any run each cell keeps its kind and holds the word of the last write that landed on it, or its first word |
| History.FinalShape | ferrowl-store/src/memory.rs:201-282 | no run of writes moves a region or changes an access right |
| History.ReadOnlyFixed | ferrowl-store/src/memory.rs:166-192 | no run of checked writes changes a read-only cell |
| Server.AllKindsComplete | ferrowl-modbus/src/key.rs:77-87 | the enumeration of a unit's keys is exactly the keys of that unit |
| Server.HandleRead | ferrowl-modbus/src/server_core.rs:71-133 | the function code's table, read as flat words, or IllegalDataAddress |
| Server.HandleWriteMulti | ferrowl-modbus/src/server_core.rs:139-201 | the whole write and its tap event with the truncated count, or IllegalDataAddress and nothing |
| Server.HandleWriteSingle | ferrowl-modbus/src/server_core.rs:207-263 | the one-word write and its tap event, or IllegalDataAddress and nothing |
| Server.ReadThenWrite | ferrowl-modbus/src/server_core.rs:447-490 | all or nothing: either the words before the write and the whole write, or no change; the rejected outcome never happens |
| Server.AnswerRead | ferrowl-modbus/src/server_core.rs:297-364 | the four read requests answer by the one rule and change nothing |
| Server.AnswerWrite | ferrowl-modbus/src/server_core.rs:365-434 | the four write requests answer by the one rule, store exactly their words and report one event |
| Server.AnswerReadWrite | ferrowl-modbus/src/server_core.rs:435-522 | the combined request answers with the words before its write |
| Server.AnswerRequest | ferrowl-modbus/src/server_core.rs:285-540 | every request refines one rule on the flat store: admitted in full and answered, or an exception with no effect |
| Server.SlaveHasNoRegion | ferrowl-modbus/src/server_core.rs:270-278 | true if and only if no table of the unit has a region |
| Server.HandleRequest | ferrowl-modbus/src/server_core.rs:551-576 | the answer on the wire, the store after it and the tap's events, all as the flat specification says |
| ServerRuns.ServeAll | ferrowl-modbus/src/server_core.rs:551-576 | any sequence of requests leaves the specified store, gives at each point the specified answer, and extends the tap's log by exactly the events of the accepted writes; a tap installed at the start replays to the end and undoes to the start |
| ServerRuns.EventsSnoc | ferrowl-modbus/src/server_core.rs:551-576 | one more request adds to the journal exactly the events of its own write |
| ServerRuns.ShapeAdmits | ferrowl-modbus/src/server_core.rs:285-540 | admission depends on declared regions, never on stored words |
| ServerRuns.RunIsWrites | ferrowl-modbus/src/server_core.rs:285-576 | a run of requests is exactly its accepted writes in order, and moves no region |
| ServerRuns.CheckedNeverTorn | ferrowl-store/src/memory.rs:201-234 | checked writes never tear |
| ServerRuns.RunJournal | ferrowl-store/src/memory.rs:201-234 | over any run of requests the events of the accepted writes rebuild the store and take it back |
| ServerRuns.RunKeeps | ferrowl-modbus/src/server_core.rs:285-576 | no sequence of requests changes a read-only cell, a region or an access right |
| ServerRuns.ReadSeesLastWrite | ferrowl-modbus/src/server_core.rs:71-133 | each word an admitted read shows is the last accepted write's at that address, or the first word there |
| ServerRuns.RefusalKeepsStore | ferrowl-modbus/src/server_core.rs:551-576 | an exception or silence means no write and an unchanged store |
| ServerRuns.SilenceExactly | ferrowl-modbus/src/server_core.rs:563-575 | silence if and only if the link is serial, the unit has no region in any table and the function is supported |
| ServerRuns.ReadFirstOrWriteFirst | ferrowl-modbus/src/server_core.rs:450-490 | reading first and writing first agree if and only if every shared address is written with the word it holds |
| ServerRuns.ReadFirstExample | ferrowl-modbus/src/server_core.rs:450-490 | one register read and written in one request shows its old word |
| Requests.AnsweredExactly | ferrowl-modbus/src/server_core.rs:285-540 | each request, by its own table, type and addresses, is answered if and only if every cell it reads or writes permits it; the exception is IllegalFunction exactly for an unsupported function |
| Requests.ReplyExactly | ferrowl-modbus/src/server_core.rs:297-522 | each reply's kind, and that it shows the cells' words, or their being other than 0, or echoes the write |
| Requests.ServedCell | ferrowl-modbus/src/server_core.rs:365-522 | after a request each cell holds the word the request put there, 1 for a set coil and 0 for a cleared one, or what it held |
| Requests.RunCell | ferrowl-modbus/src/server_core.rs:551-576 | after any run each cell holds the word of the last admitted request that stored there, or its first word |
| Requests.CoilReads | ferrowl-modbus/src/server_core.rs:297-313 | over any run a coil reads as true exactly when the last admitted write to it set it |
| Bytes.Parse | ferrowl-codec/src/traits.rs:21-28 | the shift-and-add loop yields the big-endian number of the bytes, truncated to the width |
| Bytes.IntoVec | ferrowl-codec/src/traits.rs:46-64 | the packing loop pairs bytes high first, a lone last byte becoming a high byte |
| Bytes.FoldToBytes | ferrowl-codec/src/traits.rs:21-28 | folding a number's bytes gives the number back |
| Bytes.UnpackPack | ferrowl-codec/src/traits.rs:46-64 | flattening packed words gives the bytes back |
| Bytes.FoldBit | ferrowl-codec/src/traits.rs:21-28 | where each bit of the folded number comes from |
| Codec.Reinterpret | ferrowl-codec/src/codec.rs:31-50 | the value of a kind with a given bit pattern is in range and has that two's-complement pattern |
| Codec.MergeBit | ferrowl-codec/src/lib.rs:89-100 | a merged bit is the new one under the mask and the old one elsewhere |
| CodecLaws.NumberBit | ferrowl-codec/src/codec.rs:19-50 | each bit of the raw number is one bit of one word, at a place given by byte and register order |
| CodecLaws.NumberWords | ferrowl-codec/src/codec.rs:13-50 | laying a number out in words and reading it back gives the number, for both byte and both register orders |
| CodecLaws.SignedLayout | ferrowl-codec/src/codec.rs:229-234 | a signed byte keeps its sign extension big-endian and loses it to the shift little-endian |
| CodecLaws.EncodeIsLayout | ferrowl-codec/src/codec.rs:191-301 | an encoding is the layout of the placed field, sign-extended for a big-endian signed byte only |
| CodecLaws.MaskIsLayout | ferrowl-codec/src/codec.rs:307-342 | the mask words are the layout of the mask at the kind's width |
| CodecLaws.FieldBit | ferrowl-codec/src/format/bitfield.rs:7-12 | bit by bit what decoding extracts from a raw number |
| CodecLaws.PlaceBit | ferrowl-codec/src/format/bitfield.rs:7-12 | bit by bit where encoding places a value |
| CodecLaws.MaskInside | ferrowl-codec/src/format/bitfield.rs:42-53 | a fitting mask selects no bit beyond the kind's width |
| CodecLaws.DecodeEncode | ferrowl-codec/src/codec.rs:13-301 | decoding an encoded value yields its pattern under the shifted-down mask, reinterpreted, for every kind, order and fitting mask |
| CodecLaws.RoundTripExactly | ferrowl-codec/src/codec.rs:13-301 | the round trip is the identity if and only if the pattern has no bit outside the field |
| CodecLaws.FullMaskRoundTrip | ferrowl-codec/src/codec.rs:13-301 | with the default mask every value of every kind survives the round trip |
| CodecLaws.MergeOwnsItsBits | ferrowl-codec/src/lib.rs:79-100 | every bit outside the write mask keeps its old value, every bit inside takes the new one, missing old words read as 0 |
| CodecLaws.DecodeMerged | ferrowl-codec/src/lib.rs:89-100 | whatever was there before, the merged register decodes to the field's share of the value |
| CodecLaws.DecodeReadsMask | ferrowl-codec/src/codec.rs:13-70 | decoding depends only on the bits under the mask |
| CodecLaws.SiblingUndisturbed | ferrowl-codec/src/lib.rs:79-100 | a register of the same width with disjoint mask words decodes after the merge as before, whatever the words written |
| CodecLaws.EncodedInsideMask | ferrowl-codec/src/codec.rs:229-234 | encoded words lie inside the mask if and only if it is not a big-endian signed byte with the placed top bit set |
| CodecLaws.SpillExample | ferrowl-codec/src/codec.rs:229-234 | -1 in a big-endian signed byte spills |
| Fields.ShiftExactly | ferrowl-codec/src/format/bitfield.rs:26-32 | the field's offset is the lowest set bit of the mask, and 0 for a zero mask |
| Fields.DecodeField | ferrowl-codec/src/codec.rs:31-50 | for a mask of w ones from bit k, decoding yields the raw number divided by two to the k, modulo two to the w |
| Fields.EncodeField | ferrowl-codec/src/codec.rs:191-301 | for such a mask a value that fits the field is laid out times two to the k |
| Fields.FitsExactly | ferrowl-codec/src/format/bitfield.rs:43-53 | a mask fits if and only if it sets no bit at or above the kind's width or sets all 128 |
| Fields.KindRange | ferrowl-codec/src/format/int_kind.rs:22-36 | the values and the register width of each of the ten kinds |
| Fields.PatternIs | ferrowl-codec/src/codec.rs:205-214 | the bit pattern of a value is the value modulo the kind's range |
| Fields.SignExtendIs | ferrowl-codec/src/codec.rs:229-234 | a sign-extended byte is the same value modulo the word's range |
| Fields.DecodeFails | ferrowl-codec/src/codec.rs:13-55 | decoding fails exactly for too few words or a mask that does not fit, and with which error |
| Fields.EncodeFails | ferrowl-codec/src/codec.rs:191-301 | encoding fails exactly for a mask that does not fit or a value of another kind, and with which error |
| Fields.MergeBeyond | ferrowl-codec/src/lib.rs:89-100 | words past the register's own are taken over as they are |
| HexText.DigitsBack | ferrowl-codec/src/value.rs:74-95 | padded hexadecimal digits read back as the number |
| HexText.HexRoundTrip | ferrowl-codec/src/value.rs:74-95 | every value of every kind survives being printed as hexadecimal and parsed, negative ones included |
| HexText.EncodeHexText | ferrowl-codec/src/codec.rs:106-183 | encoding a value's hexadecimal text is encoding the value, errors included |
| HexText.NegatedHex | ferrowl-codec/src/codec.rs:120-131 | a negated hexadecimal literal on a signed kind is the wrapping negation of that bit pattern |
| TextLaws.DecimalExactly | ferrowl-codec/src/codec.rs:108-131 | the decimal text of any integer parses to it if and only if the kind has that value |
| TextLaws.PlusSign | ferrowl-codec/src/codec.rs:108-131 | a leading plus sign changes nothing |
| TextLaws.HexShape | ferrowl-codec/src/value.rs:74-95 | the printed form is the prefix and two upper-case digits per byte |
| TextLaws.HexCase | ferrowl-codec/src/codec.rs:108-131 | lower-case hexadecimal digits are read the same |
| TextLaws.DigitsExactly | ferrowl-codec/src/codec.rs:108-131 | reading digits from the left gives the sum of their place values, and fails exactly on a character that is no digit of the radix |
| TextLaws.HexExactly | ferrowl-codec/src/codec.rs:110-112 | of all texts after the prefix, exactly the hexadecimal literals below the kind's range parse, each to the value with that bit pattern |
| TextLaws.NegatedExactly | ferrowl-codec/src/codec.rs:120-124 | after a minus and the prefix, signed kinds negate what the prefix alone would give, and unsigned kinds refuse every text |
| TextLaws.DecimalLiteral | ferrowl-codec/src/codec.rs:113-127 | of all other texts, exactly the decimal literals of the kind's values parse, each to its value |
| TextLaws.NegatedPattern | ferrowl-codec/src/codec.rs:120-124 | wrapping negation is the kind's range minus the bit pattern |
| TextLaws.EncodeText | ferrowl-codec/src/codec.rs:181-183 | encoding text: which failure comes first, and otherwise the encoding of the parsed value |
| PollLaws.PollStores | ferrowl-modbus/src/client_core.rs:500-511 | what a poll read goes to the attempted operation's own table and range, and nowhere else |
| Poll.Attempted | ferrowl-modbus/src/client_core.rs:487-492 | the index used is always within a non-empty list |
| Poll.Advance | ferrowl-modbus/src/client_core.rs:533-561 | the retry counter stays below three |
| Poll.Poller.constructor | ferrowl-modbus/src/client_core.rs:599-601 | a connection starts polling at the first operation with no retries and no success |
| Poll.Poller.PollOnce | ferrowl-modbus/src/client_core.rs:473-565 | one poll on a list that may have changed: the cursor, the success flag, the store write and its tap event; only a timeout or transport error ends the run, and then nothing is stored |
| Poll.WindowCovers | ferrowl-modbus/src/client_core.rs:473-565 | any 3n-2 consecutive polls of an unchanged list of n attempt every operation, from any cursor and whatever the outcomes |
| Poll.WindowTight | ferrowl-modbus/src/client_core.rs:473-565 | 3n-3 polls can miss an operation, for every n and every operation |
| Backoff.RunWithBackoff | ferrowl-util/src/backoff.rs:52-88 | which attempt ends the driver and how; an error is only ever the last attempt's with reconnect off and no wait after it; each wait is fixed by the failures since the last reset |
| Backoff.WaitClosed | ferrowl-util/src/backoff.rs:64-86 | the k-th wait since a reset is the initial wait times two to the k, capped at the maximum |
| Backoff.CappedExactly | ferrowl-util/src/backoff.rs:64-86 | that holds for every k if and only if the initial wait is not above the maximum |
| Backoff.WaitBackoff | ferrowl-util/src/backoff.rs:106-128 | a wait ends at the first terminate, at the close, or at its original deadline, however many commands it drops on the way |
| Reconnect.OrderStep | ferrowl-modbus/src/client_core.rs:691-874 | a step keeps, cuts short or extends by the newest command the order of executed and held commands |
| Reconnect.StepConserves | ferrowl-modbus/src/client_core.rs:691-874 | no step loses or doubles a command |
| Reconnect.ExecutedInOrder | ferrowl-modbus/src/client_core.rs:572-874 | over every run the executed commands followed by those still held are in channel order, each at most once, none executed is a Terminate: nothing newer runs while an older one is parked |
| Reconnect.EveryCommandAccounted | ferrowl-modbus/src/client_core.rs:742-810 | over every run each command taken is in exactly one of: executed, logged as dropped, discarded with its queue, still held, the Terminate |
| Reconnect.NothingAfterTerminate | ferrowl-modbus/src/client_core.rs:616-622 | once a Terminate is taken the client has stopped, takes nothing more, and has executed only earlier commands |
| Reconnect.ClientTask.Recv | ferrowl-modbus/src/common.rs:80-89 | the channel hands out commands in order, or none once closed |
| Reconnect.ClientTask.RaceTerminate | ferrowl-modbus/src/common.rs:99-119 | every non-terminate command during a connect is parked in order; a Terminate or a close abandons the attempt |
| Reconnect.ClientTask.RunConnection | ferrowl-modbus/src/client_core.rs:572-678 | the connected loop refines the machine: parked first, then the channel |
| Reconnect.ClientTask.WaitOut | ferrowl-util/src/backoff.rs:106-128 | the wait refines the machine: commands are dropped with a log line until it elapses or a Terminate comes |
| Reconnect.ClientTask.Attempt | ferrowl-modbus/src/client_core.rs:720-835 | one attempt refines the machine; the connected flag is clear through the connect, set through the run, and clear again at its end |
| Reconnect.ClientTask.RunReconnectLoop | ferrowl-modbus/src/client_core.rs:691-874 | the whole loop refines the machine on every script of environment events; the connected flag is set exactly in a running connection |
| ClientDriver.StoppedExactly | ferrowl-modbus/src/client_core.rs:691-874 | over every script the client has stopped if and only if it took a Terminate, found the channel closed, or an attempt failed with reconnect off |
| ClientDriver.FailureRetries | ferrowl-modbus/src/client_core.rs:798-827 | after a failure with reconnect on the client waits, and when the wait runs out it connects afresh |
| ClientDriver.RoundsContinue | ferrowl-util/src/backoff.rs:64-87 | of a script's attempts, read as the driver's rounds, all but the last continue, and the last does not exactly when the client has stopped |
| ClientDriver.Drive | ferrowl-util/src/backoff.rs:52-88 | the retry driver fed those rounds is still running exactly while the client is, and fails exactly when an attempt failed with reconnect off |
| ClientRetry.RunPolls | ferrowl-modbus/src/client_core.rs:599-615 | one connection's polls, ended by the first that breaks it: the success flag is set if and only if one of them read a value, and the store and tap hold exactly the writes of those polls |
| ClientRetry.LaterWait | ferrowl-util/src/backoff.rs:64-86 | past the first, a wait equals the initial one if and only if the initial wait is zero or is the maximum |
| ClientRetry.Drive | ferrowl-modbus/src/client_core.rs:720-835 | over a whole client run each wait is fixed by the attempts since the last that read a value; it is the initial wait if and only if it follows the first attempt or one that read a value, or the policy cannot grow; and when the run ends, and whether with an error |
| ClientWait.Wait | ferrowl-util/src/backoff.rs:106-128 | the timed wait and the machine's wait take the same commands, drop the same ones with a log line and end the same way |
| Correlation.SettleValid | ferrowl-ocpp/src/correlation.rs:40-49 | settling an id keeps one open channel per table entry and removes the id |
| Correlation.PendingCalls.constructor | ferrowl-ocpp/src/correlation.rs:27-29 | a new table is empty |
| Correlation.PendingCalls.Register | ferrowl-ocpp/src/correlation.rs:32-36 | a fresh open channel under the id, any earlier sender under it dropped |
| Correlation.PendingCalls.Complete | ferrowl-ocpp/src/correlation.rs:40-44 | the id's waiter gets the outcome and the entry goes; an unknown id changes nothing |
| Correlation.PendingCalls.Remove | ferrowl-ocpp/src/correlation.rs:47-49 | the entry goes and its waiter sees a dropped sender |
| Correlation.PendingCalls.FailAll | ferrowl-ocpp/src/correlation.rs:52-57 | every open channel gets the rejection, settled ones keep theirs, and the table is empty |
| Connection.ChannelsStep | ferrowl-ocpp/src/conn.rs:68-116 | every step keeps the table and the calls in agreement |
| Connection.AnsweredStep | ferrowl-ocpp/src/conn.rs:68-116 | every step keeps: a call is resolved exactly when its reply sender was completed, once |
| Connection.FirstHeard | ferrowl-ocpp/src/conn.rs:308-324 | the first outcome heard under an id from a given point on, or none |
| Connection.OriginsStep | ferrowl-ocpp/src/conn.rs:308-324 | every step keeps: a delivered outcome is the peer's first under the call's id since the call was placed, or with none heard the shutdown rejection |
| Connection.KeepsChannelStep | ferrowl-ocpp/src/conn.rs:81-99 | with fresh ids no waiting call ever loses its channel |
| Teardown.PipeStep | ferrowl-ocpp/src/conn.rs:235-245 | every step keeps: the channel never overfills, and written, in-flight and queued frames are the accepted ones in order until a write fails |
| Teardown.SupervisedStep | ferrowl-ocpp/src/conn.rs:296-307 | every handler that has not been told to stop is tracked or being tracked, and there is none after the abort |
| Teardown.AnswersOnceStep | ferrowl-ocpp/src/conn.rs:302-305 | each handler answers at most once, under its own id, and only by finishing; a cancelled one has not answered |
| Teardown.HandlerTasks.Track | ferrowl-ocpp/src/conn.rs:130-134 | the list keeps every unfinished handler in order and gains the new one |
| Teardown.HandlerTasks.AbortAll | ferrowl-ocpp/src/conn.rs:137-141 | every tracked handler is told to stop, parked or in its poll, and the list is empty |
| Teardown.AbortBeforeJoinLeaks | ferrowl-ocpp/src/conn.rs:213-222 | aborting handlers before joining the reader can leave one running |
| Teardown.AbortedAnswersExactly | ferrowl-ocpp/src/conn.rs:218-222 | an aborted handler can still answer if and only if the abort caught it being polled and the channel is not shut |
| Teardown.LateAnswerExample | ferrowl-ocpp/src/conn.rs:218-222 | a run in which an aborted handler answers |
| Teardown.SendersAfterDrop | ferrowl-ocpp/src/conn.rs:226-230 | after the handle is dropped a sender is left if and only if an abort has yet to reach a handler |
| Teardown.DrainProceeds | ferrowl-ocpp/src/conn.rs:226-231 | the writer or a lingering handler has a step if and only if the writer has not exited or a sender is left |
| Teardown.DrainBounded | ferrowl-ocpp/src/conn.rs:226-231 | the drain's steps and the frames it writes are bounded, however the rest interleaves |
| ConnectionRuns.RunInv | ferrowl-ocpp/src/conn.rs:68-329 | all of the above in every state of every interleaving |
| ConnectionRuns.RepliesSound | ferrowl-ocpp/src/conn.rs:68-116 | in every interleaving each reply sender completes at most once, a peer outcome being the first under the call's id since it was placed, and with fresh ids never with a dropped channel |
| ConnectionRuns.WireInOrder | ferrowl-ocpp/src/conn.rs:235-245 | in every interleaving frames reach the wire in the order they were accepted, none twice |
| ConnectionRuns.TableEmptyAfterShutdown | ferrowl-ocpp/src/conn.rs:211-231 | once pending calls have been failed, and from then on, the table is empty, the reader has ended and every handler is over or told to stop |
| ConnectionRuns.OwnStepsBounded | ferrowl-ocpp/src/conn.rs:68-116 | a call takes at most three steps of its own, however the rest interleaves |
| ConnectionRuns.StuckExactly | ferrowl-ocpp/src/conn.rs:87-93 | an unresolved call has no step of its own if and only if it is being sent into a full channel whose writer has not exited |
| ConnectionRuns.BlockedUntilWriter | ferrowl-ocpp/src/cs/core.rs:74-89 | from such a state no run without a writer step starts the call's timeout or the shutdown |
| ConnectionRuns.BlockedExample | ferrowl-ocpp/src/conn.rs:31 | a run that reaches it: one call more than the channel's 64 frames, behind a frame being written |
| ConnectionRuns.QuiescentResolved | ferrowl-ocpp/src/conn.rs:68-116 | in every run, when neither a call nor the writer can move the call has been answered |
| ConnectionRuns.ShutdownReleases | ferrowl-ocpp/src/conn.rs:211-231 | after shutdown no waiter depends on its timer |
| ConnectionRuns.DrainHeldUp | ferrowl-ocpp/src/conn.rs:230-245 | after the handle is dropped a writer in the middle of a write is still there, and nothing more is written, in every run without a writer step |
| ConnectionRuns.ShutdownCompletes | ferrowl-ocpp/src/conn.rs:226-231 | from the drop of the handle, in every run: boundedly many steps, stopping only with the writer exited and no sender left, and no frame written beyond those queued, in flight or owed by a handler caught in its poll |
| Lifecycle.WriterExactly | ferrowl-ocpp/src/conn.rs:235-245 | over every run the writer has left its loop if and only if it was drained or a write failed, and has exited, its channel gone, if and only if its sink was closed |
| Lifecycle.ReaderExactly | ferrowl-ocpp/src/conn.rs:211-217 | over every run the reader has ended if and only if its stream ended or it was joined; the command loop ends only with shutdown |
| Lifecycle.WrittenExactly | ferrowl-ocpp/src/conn.rs:226-245 | a writer that has left its loop has written every accepted frame if and only if no write failed, and then nobody can send any more |
| Lifecycle.HandlerExactly | ferrowl-ocpp/src/conn.rs:302-307 | over every run a handler has an answer if and only if it sent one, is finished if and only if it did or gave up, and is struck only by an abort |
| Lifecycle.NoCallDropped | ferrowl-ocpp/src/conn.rs:302-307 | until the handlers are aborted or the writer exits, every inbound call is answered or still being handled, and not both |
| Lifecycle.ShutdownRuns | ferrowl-ocpp/src/conn.rs:211-231 | from every reachable state with no call being sent, shutdown can run to its end; it empties the table and leaves no live handler |
| Lifecycle.FailedWrite | ferrowl-ocpp/src/conn.rs:235-245 | a write may fail whenever one is under way; the queue is then lost and a call being sent is told of a closed connection |
| CallOutcomes.TimeoutExactly | ferrowl-ocpp/src/conn.rs:98-114 | over every run a call is expired, or its caller told of a timeout, if and only if its timeout fired |
| CallOutcomes.ExpiresUnanswered | ferrowl-ocpp/src/conn.rs:98-114 | a timeout fires only while nothing has been heard under the call's id since it was placed |
| CallOutcomes.ReplyExactly | ferrowl-ocpp/src/conn.rs:68-116 | over every run with fresh ids each resolved caller was told exactly: a closed connection if its frame was never accepted, a timeout if it fired, else the first answer since placement, or the shutdown rejection if none |
| CallOutcomes.AnswerReachesCaller | ferrowl-ocpp/src/conn.rs:98-103 | a sent call that heard an answer and did not time out ends with that answer |
| CallOutcomes.AnswerGetsThrough | ferrowl-ocpp/src/conn.rs:98-103 | in every reachable state in which the reader reads, the answer to a call that is waited for can reach its caller, and is what the caller is told |
| CallOutcomes.EntriesLive | ferrowl-ocpp/src/conn.rs:85-114 | over every run a table entry belongs to a call that is not yet resolved, so none outlives its call |
| Ring.LastPushed | ferrowl-ring/src/lib.rs:49-62 | pushing through a bounded queue keeps exactly the newest items of everything pushed |
| Ring.Ring.constructor | ferrowl-ring/src/lib.rs:22-28 | a new ring is empty at any capacity, zero included |
| Ring.Ring.Push | ferrowl-ring/src/lib.rs:49-62 | appends, dropping the oldest item when full and everything at capacity zero |
| Ring.Ring.Pop | ferrowl-ring/src/lib.rs:96-104 | removes and returns the oldest item, if any |
| Ring.Ring.PopN | ferrowl-ring/src/lib.rs:107-109 | removes and returns up to n items, oldest first |
| Ring.Ring.Clear | ferrowl-ring/src/lib.rs:112-118 | empties the ring |
| Ring.Ring.Iter | ferrowl-ring/src/lib.rs:75-80 | the stored items, oldest first, across the wrap |
| Ring.Ring.PeekN | ferrowl-ring/src/lib.rs:91-93 | up to n items, oldest first, without removing them |
| Ring.FromIter | ferrowl-ring/src/lib.rs:129-135 | collecting any number of items keeps exactly the last ones that fit |
| Ring.Perform | ferrowl-ring/src/lib.rs:49-118 | any sequence of operations leaves what a bounded queue would hold |
| Markdown.BackslashPositions | ferrowl-syntax/src/markdown.rs:134-146 | exactly the backslashes that escape a character, in order |
| Markdown.EscapedPositions | ferrowl-syntax/src/markdown.rs:148-153 | exactly the escaping backslashes and the characters they escape |
| Markdown.First | ferrowl-syntax/src/markdown.rs:155-173 | the result is an unescaped occurrence and no earlier one exists; none means there is none |
| Markdown.FindDelim | ferrowl-syntax/src/markdown.rs:155-173 | the search loop finds the first unescaped occurrence |
| Markdown.TryUnderscoreItalic | ferrowl-syntax/src/markdown.rs:199-220 | the loop finds the first closing underscore that no word character follows |
| Markdown.TryDelimSound | ferrowl-syntax/src/markdown.rs:175-194 | code, strike, bold and italic constructs tile their columns, are not empty, and have unescaped markers |
| Markdown.TryUnderscoreSound | ferrowl-syntax/src/markdown.rs:199-220 | so does an underscore italic |
| Markdown.TryTripleSound | ferrowl-syntax/src/markdown.rs:222-244 | a triple star gives a bold and an italic, each well formed, the italic filling the bold's content |
| Markdown.TryLinkSound | ferrowl-syntax/src/markdown.rs:246-281 | links and images tile their columns with four markers, the delimiters unescaped |
| Markdown.ConstructSound | ferrowl-syntax/src/markdown.rs:36-116 | whatever opens at an unescaped column is a well-formed construct starting there |
| Markdown.ScanWellFormed | ferrowl-syntax/src/markdown.rs:28-120 | on every line all constructs are well formed and any two are disjoint or a triple star's pair |
| Markdown.ScanComplete | ferrowl-syntax/src/markdown.rs:36-116 | at an unescaped column outside every construct, none opens |
| Markdown.SortedUnchanged | ferrowl-syntax/src/markdown.rs:119 | the final stable sort leaves constructs already in order as they are |
| Markdown.InlineSpans | ferrowl-syntax/src/markdown.rs:28-120 | the scanner terminates with exactly the left-to-right constructs, well formed, inside the line, in strictly increasing content order |
| MarkdownLaws.CodeOpens | ferrowl-syntax/src/markdown.rs:60-66 | a backtick opens a code span if and only if an unescaped one follows, not at once, and it closes at the first |
| MarkdownLaws.StrikeOpens | ferrowl-syntax/src/markdown.rs:68-76 | two tildes open a strike-through if and only if two more close it |
| MarkdownLaws.StarsOpen | ferrowl-syntax/src/markdown.rs:78-107 | three stars that close win, then two, then one, each with its columns |
| MarkdownLaws.UnderscoreOpens | ferrowl-syntax/src/markdown.rs:109-116 | an underscore after no word character opens an italic if and only if one before no word character closes it |
| MarkdownLaws.LinkOpens | ferrowl-syntax/src/markdown.rs:52-58 | a bracket opens a link if and only if its text and its target close |
| MarkdownLaws.ImageOpens | ferrowl-syntax/src/markdown.rs:42-50 | an exclamation mark opens an image if and only if a bracket follows whose text and target close |
| MarkdownLaws.NothingElseOpens | ferrowl-syntax/src/markdown.rs:36-116 | no other character opens anything |
| MarkdownLaws.CodeFound | ferrowl-syntax/src/markdown.rs:28-120 | every unescaped backtick that another closes lies inside a found construct |
| MarkdownLaws.FirstFound | ferrowl-syntax/src/markdown.rs:28-120 | the leftmost construct that opens is found as it stands |

## Left out

- Floating-point and ASCII formats, and display resolution: floats are bit patterns on the same paths; scaling needs IEEE arithmetic.
- Block structure of Markdown (headings, lists, fences): it would add case tables without a new law.
- The range constructor's overflow check and every other machine-word overflow of addresses, lengths and durations.
- Locks and async scheduling beyond the stated interleavings; the store's lock makes each store operation one step.
- In-place update of an interval's own buffer: an interval is a value in its device's map, so aliasing between intervals cannot arise.
- Sockets, serial lines, framing, CRC, TLS and authentication: a request arrives decoded.
- The client's own range check before a read and the wire format of its requests: a read's outcome is an input.
- Text, level and timing of log and status lines: only dropped commands are recorded.
- Decoding, validation and dispatch of inbound OCPP calls, fire-and-forget calls, the answer to a malformed frame, and an encode failure, which answers its caller before the call is registered.
- Uniqueness of generated call ids: only the claim that no reply channel is dropped assumes it.
- The Unicode alphanumeric test of the Markdown scanner: any predicate on characters.
- Lua scripting, the user interface and configuration files.
