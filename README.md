# pdelta, modelled in Dafny

pdelta computes and applies deltas between two serialised Protocol Buffers
messages. It works on the wire format directly, and uses a message
descriptor (and the registered extensions) only to find which fields hold
embedded messages. It has three layers:

- **Wire codec.** `parseMessage` turns a buffer into a map from field number
  to that number's occurrences, in encounter order. `marshalMessage` writes
  such a map back.
- **Delta computation.** `getDelta` compares the occurrences of every field
  number position by position. It records each difference as a `Field`
  entry (through `setOld`/`setNew`), recurses into embedded messages whose
  descriptor it can resolve (the message's own descriptor first, then the
  registered extensions), sorts the entries, and returns the field-level
  delta only when it is smaller than the two buffers verbatim.
- **Delta application.** `applySerialized` and `applyField` patch the
  parsed base buffer with the entries and re-serialise it.

The model has one module per part:

- `Wire` (wire.dfy): varints, tags, and little-endian fixed32/fixed64 as
  the Protocol Buffers encoding guide defines them.
- `Codec` (codec.dfy): the parse and marshal functions and the loops that
  compute them.
- `CodecProofs` (codec_proofs.dfy): the codec round trip and the inputs the
  parser refuses.
- `Delta` (delta.dfy): the delta entries, `setOld`/`setNew`, the
  `sortByNumberIndex` order, an insertion sort, the extension registry, and
  descriptor resolution.
- `Diffing` (diff.dfy): `getDelta`, as a specification function `Diff` and
  as methods with loops proved equal to it.
- `Patch` (patch.dfy): `applySerialized`/`applyField`, as a specification
  function `Apply` and as methods proved equal to it.
- `RoundTrip` (roundtrip.dfy): applying the delta of two buffers to the
  first rebuilds the second.
- `WireTypeFinding` (wire_type_finding.dfy): the parse loop as written,
  including the panic on wire-type codes 6 and 7.

Some parts of the system are given as parameters instead of code:

- Descriptors are a `Schema` function from a descriptor and a field number
  to the embedded message's descriptor, if any.
- The extension registry is a map value.
- `len(proto.Marshal(delta))` is the parameter `env.deltaSize`.
- The `alwaysMakeFieldLevelDeltas` hook is `env.alwaysFieldLevel`.

## Model

| member | source | states |
|---|---|---|
| Wire.TypeCode | pdelta.go:449-484 | the four supported wire types have codes below 8, and none of them is a group code (3 or 4) |
| Wire.EncodeVarint | pdelta.go:498 | a varint takes at least one byte, and exactly one when the value is below 0x80 |
| Wire.SizeVarintIsLength | pdelta.go:173-174 | the size computed group by group (one byte per started seven bits) is the number of bytes the varint encoding writes |
| Wire.ConsumeVarint | pdelta.go:440 | a successful read takes between 1 and 10 bytes, all within the buffer |
| Wire.VarintRoundTrip | pdelta.go:459-465 | reading a written uint64 varint, whatever follows it, gives the value and the encoding's length (at most 10) |
| Wire.UnterminatedVarint | pdelta.go:440-444 | bytes that all carry the continuation bit never complete a varint |
| Wire.LittleEndianRoundTrip | pdelta.go:466-479 | little-endian decoding inverts encoding for every value that fits the width |
| Wire.ConsumeFixed32 | pdelta.go:467-471 | a fixed32 read succeeds exactly when 4 bytes remain, and takes 4 |
| Wire.ConsumeFixed64 | pdelta.go:474-478 | a fixed64 read succeeds exactly when 8 bytes remain, and takes 8 |
| Wire.Fixed32RoundTrip | pdelta.go:500 | reading an appended fixed32 gives the value back |
| Wire.Fixed64RoundTrip | pdelta.go:502 | reading an appended fixed64 gives the value back |
| Wire.TagRoundTrip | pdelta.go:441-442 | the tag of a valid field number fits in 32 bits and decodes to that number and the type's code |
| Wire.MinOf | pdelta.go:102 | the number picked next from a non-empty set of numbers is in it and is its least element |
| Codec.FieldDataEqual | pdelta.go:255-261 | fieldDataEqual holds exactly when the two occurrences are the same value |
| Codec.ConsumeField | pdelta.go:440-484 | a parsed record takes at least one byte and no more than the buffer holds |
| Codec.ConsumePayload | pdelta.go:449-484 | a payload never takes more than the bytes that remain |
| Codec.GroupIsOccurrences | pdelta.go:447 | the parsed map holds a number exactly when the buffer has one of its records, and lists that number's occurrences in encounter order |
| Codec.ParsedWellFormed | pdelta.go:437-487 | a parsed map has only valid field numbers and non-empty lists of canonical occurrences, each shorter than the buffer |
| Codec.ConsumeFieldBadTag | pdelta.go:442-444 | a tag with field number 0 or below, or above 2^32-1, makes the record a parsing error |
| Codec.ConsumeOne | pdelta.go:440-484 | one pass of the parse loop computes ConsumeField |
| Codec.ReadField | pdelta.go:441-484 | the tag check and payload read compute FieldAfterTag |
| Codec.ReadPayload | pdelta.go:449-484 | the payload switch computes ConsumePayload |
| Codec.ParseMessage | pdelta.go:437-487 | the parse loop computes Parse: the grouped records of the whole buffer, or the first error |
| Codec.AppendOccurrence | pdelta.go:493-505 | one pass of the inner marshal loop appends the occurrence's tag and payload |
| Codec.AppendOccurrences | pdelta.go:492-506 | the inner marshal loop appends the encodings of all of a number's occurrences, in order |
| Codec.MarshalMessage | pdelta.go:489-509 | the marshal loops compute Marshal, taking numbers in ascending order |
| CodecProofs.PayloadRoundTrip | pdelta.go:494-505 | reading a written payload with its type's code gives the occurrence back (in canonical form) |
| CodecProofs.RecordRoundTrip | pdelta.go:493 | reading a written record gives the record back (in canonical form) |
| CodecProofs.ParseEncoded | pdelta.go:439-486 | parsing the concatenated records gives the records back (in canonical form) |
| CodecProofs.OccurrencesFlatten | pdelta.go:491-492 | in the records written for a map, each number's occurrences are exactly the map's list for it |
| CodecProofs.MarshalRoundTrip | pdelta.go:489-509 | parseMessage(marshalMessage(m)) is m, up to canonical form, with each number's order kept and numbers with empty lists dropped |
| CodecProofs.NormalizeWellFormed | pdelta.go:437-487 | a parsed map is already in canonical form and can be written |
| CodecProofs.ReparseRoundTrip | pdelta.go:437-509 | writing a parsed buffer and parsing it again gives the same map |
| CodecProofs.ParseFailsAfterRecords | pdelta.go:439-486 | a buffer that fails to parse fails with the same error after any records marshalMessage writes, since the loop reads those and goes on |
| CodecProofs.ParseRejectsNumberZero | pdelta.go:439-444 | a tag for field number 0, after any well-formed records, makes the buffer a parsing error |
| CodecProofs.ParseRejectsLargeTag | pdelta.go:439-444 | a tag above 2^32-1, after any well-formed records, makes the buffer a parsing error |
| CodecProofs.ParseRejectsTruncatedTag | pdelta.go:439-444 | a buffer that ends inside a tag, after any well-formed records, is a parsing error |
| CodecProofs.ParseRejectsGroups | pdelta.go:480-481 | a start-group or end-group record, after any well-formed records, fails with the groups-unsupported error |
| CodecProofs.ParseRejectsShortPayload | pdelta.go:451-455 | a bytes record whose length prefix exceeds the bytes after it, after any well-formed records, is a parsing error |
| CodecProofs.ParseRejectsTruncatedVarint | pdelta.go:460-463 | a varint payload that ends before its last byte, after any well-formed records, is a parsing error |
| CodecProofs.ParseRejectsTruncatedFixed | pdelta.go:466-478 | a fixed32 payload under 4 bytes, or a fixed64 payload under 8, after any well-formed records, is a parsing error |
| CodecProofs.ParseRejectsUnknownWireType | pdelta.go:482-483 | in the corrected parser, a record with wire-type code 6 or 7, after any well-formed records, is a parsing error |
| WireTypeFinding.ConsumeFieldAsWritten | pdelta.go:440-484 | the parse step as written returns what the corrected step returns whenever it does not panic |
| WireTypeFinding.AfterTagAsWritten | pdelta.go:449-484 | the parse step as written panics exactly on an accepted tag with wire-type code 6 or 7 |
| WireTypeFinding.ParseRecordsAsWritten | pdelta.go:439-486 | the parse loop as written returns what the corrected loop returns whenever it does not panic |
| WireTypeFinding.UnknownWireTypePanics | pdelta.go:482-483 | every buffer starting with an accepted tag of code 6 or 7 panics as written and is a parsing error once corrected |
| WireTypeFinding.PanicOnByte0E | pdelta.go:482-483 | the one-byte buffer 0x0E (field 1, code 6) panics as written |
| Delta.SetOld | pdelta.go:185-214 | setOld changes only the old side of an entry |
| Delta.SetNew | pdelta.go:216-245 | setNew changes only the new side of an entry |
| Delta.SetOldRecords | pdelta.go:186-198 | setOld records a bytes or varint occurrence by value, and flags it empty or default when it is zero, leaving the other old-side members unset |
| Delta.SetNewRecords | pdelta.go:218-229 | setNew records a bytes or varint occurrence by value, and flags it empty or default when it is zero |
| Delta.Fixed32ValueIsLost | pdelta.go:230-235 | setNew and setOld flag every fixed32 occurrence as default and drop its value |
| Delta.Fixed64ValueIsLost | pdelta.go:236-241 | setNew and setOld flag every fixed64 occurrence as default and drop its value |
| Delta.LessIsStrictOrder | pdelta.go:267-278 | sortByNumberIndex.Less is irreflexive, asymmetric and transitive, and two entries are unordered exactly when they agree on number, index, old index and new index |
| Delta.SortedPermutationUnique | pdelta.go:165 | a strictly sorted list is the only sorted permutation of itself, so sorting it changes nothing |
| Delta.SortByNumberIndex | pdelta.go:165 | the in-place sort leaves the entries sorted by Less and permuted |
| Delta.InsertLast | pdelta.go:165 | one insertion step extends the sorted prefix by one element, permutes the array and leaves the rest alone |
| Delta.RegisterExtension | pdelta.go:40-43 | registering appends the descriptor under its full name and leaves every other name alone |
| Delta.FirstExtension | pdelta.go:132-135 | the extension search finds nothing exactly when no extension knows the number |
| Delta.FirstExtensionIndex | pdelta.go:133-135 | the search's result comes from the first extension that knows the number |
| Delta.ResolveEmbedded | pdelta.go:131-135 | the resolution loop computes Resolve |
| Delta.ResolveOwnFirst | pdelta.go:131 | the message's own descriptor wins over every extension |
| Delta.ResolveThroughExtension | pdelta.go:132-135 | a newly registered extension decides a number that neither the message nor the earlier extensions know |
| Diffing.Fold | pdelta.go:149-152 | folding a nested delta into an entry keeps the entry's number, index and index remaps |
| Diffing.GetDelta | pdelta.go:65-183 | the method computes Diff |
| Diffing.CollectEntries | pdelta.go:93-161 | the loop over all field numbers computes NumbersEntries |
| Diffing.NumberEntries | pdelta.go:104-160 | the loop over one number's positions computes IndexEntries |
| Diffing.Position | pdelta.go:111-159 | one position's body computes PositionEntry |
| Diffing.SortEntries | pdelta.go:165 | sorting the collected entries gives back the same list |
| Diffing.PositionEntryShape | pdelta.go:111-159 | a position gives at most one entry, carrying that number and index |
| Diffing.IndexEntriesShape | pdelta.go:110-160 | a number's entries carry that number and strictly increasing indices from the start index |
| Diffing.EntriesStrictlySorted | pdelta.go:102-165 | the collected entries are strictly sorted by (number, index), and every number is one of the two maps' |
| Diffing.PositionEntryAligned | pdelta.go:115-159 | an entry only for differing positions, always one where no descriptor resolves, OLD_IS_NOT_SET past the old list and NEW_IS_NOT_SET past the new one |
| Diffing.IndexEntriesAligned | pdelta.go:110-160 | every entry is at a differing position, and each differing position of a non-message number has an entry |
| Diffing.EntriesAligned | pdelta.go:102-161 | over all numbers, only differing positions get entries, and every differing position of a non-message number gets one |
| Diffing.DiffTrivialCases | pdelta.go:69-83 | equal buffers give no delta; an empty new buffer gives NEW_IS_EMPTY_BYTES with the old bytes; an empty old buffer gives OLD_IS_EMPTY_BYTES with the new bytes |
| Diffing.SizeRule | pdelta.go:162-182 | both buffers parse and the entries are the ones collected over the field numbers of both sides, strictly sorted; no entries gives no delta; else the delta of exactly those entries is returned when its size is below the raw length or the hook is set, and both buffers verbatim otherwise |
| Patch.DeltaFieldMap | pdelta.go:307-319 | every filed entry is one of the delta's entries, filed under its own number and index |
| Patch.WithDeltaNumbers | pdelta.go:318 | the augmented base holds exactly the parsed numbers and every number with entries |
| Patch.WithDeltaNumbersLists | pdelta.go:318 | parsed numbers keep their occurrence lists unchanged and the numbers added for entries get empty ones |
| Patch.ApplySerialized | pdelta.go:296-355 | the method computes Apply |
| Patch.MarshalPatched | pdelta.go:354 | a patch error is returned as is, and a patched map is written with marshalMessage |
| Patch.PatchMessage | pdelta.go:307-351 | the two loops of applySerialized compute PatchMap |
| Patch.GroupEntries | pdelta.go:307-319 | the entry loop fails, with the unsupported-remap error, exactly when some entry's old and new index differ; otherwise it builds the filed entries and the augmented base |
| Patch.PatchAll | pdelta.go:320-351 | the loop over numbers computes PatchNumbers |
| Patch.PatchOccurrences | pdelta.go:326-350 | the index loop, deleting each consumed entry, computes PatchNumber |
| Patch.VisitIndex | pdelta.go:329-348 | one pass of the index loop fails exactly as the loop's specification does, or keeps what it specifies and consumes the entry at that index, and what is left to do shrinks |
| Patch.ApplyShortcuts | pdelta.go:297-302 | NEW_IS_EMPTY_BYTES gives the empty buffer and non-empty NewBytes gives NewBytes, whatever the base |
| Patch.ApplyErrors | pdelta.go:303-311 | a base that does not parse fails with its parse error, and an index remap fails as unsupported |
| Patch.DeltaFieldMapHas | pdelta.go:312-317 | every entry's number and index has an entry filed under it |
| Patch.PatchNumberNoEntries | pdelta.go:328-339 | with no entries, the index loop keeps the base occurrences |
| Patch.PatchNumberGap | pdelta.go:333-337 | entries that all lie past the base with a gap after it fail with "missing field delta" |
| Patch.PatchNumberMissing | pdelta.go:329-337 | whenever some entry lies past an index at or beyond the end of the base that has no entry, the index loop fails, whatever the entries inside the base are |
| Patch.PatchNumbersResult | pdelta.go:321-351 | the patched map holds every base number; numbers without entries are kept, and the others are the index loop's result |
| Patch.PatchNumbersAll | pdelta.go:321-351 | when every number's index loop gives a target list, the loop over the numbers gives the target map |
| Patch.PatchMapFrame | pdelta.go:321-325 | numbers without entries keep their base occurrences, and the patched numbers are the base's plus the entries' |
| Patch.ApplyFieldSetNew | pdelta.go:387-398 | applyField rebuilds, from any base, the bytes or varint occurrence that setNew recorded, whatever the old-side flag |
| Patch.ApplyFieldKeepsOrRemoves | pdelta.go:358-382 | UNCHANGED and NEW_IS_SET_ELSEWHERE keep the base occurrence and fail without one; NEW_IS_NOT_SET removes it |
| Patch.ApplyFieldDefaults | pdelta.go:370-384 | each empty or default flag yields the zero occurrence of its wire type; an unknown flag is an error |
| Patch.ApplyFieldValueOrder | pdelta.go:387-434 | without a new-side flag, the first non-zero new value wins, in the order bytes, varint, fixed32, fixed64; with none and no nested entries the field is invalid |
| Patch.ApplyFieldNested | pdelta.go:411-432 | for any entry that is not UNCHANGED and has no new-side flag or new value, nested entries refuse a non-bytes base, and otherwise patch the base bytes (or the empty buffer) as applySerialized does |
| RoundTrip.DiffApply | pdelta_test.go:42-79 | applying getDelta(old, new) to old gives new, or its parse written back; no delta means both parse alike |
| RoundTrip.DiffThenApply | pdelta_test.go:58-68 | the applied delta parses as new does, and is byte-equal to new when the codec writes new back unchanged |
| RoundTrip.ForcedFieldLevel | pdelta_test.go:69-79 | with field-level deltas forced, the delta carries no new bytes, and applying it gives a buffer that parses as new does |
| RoundTrip.FieldLevelReplays | pdelta.go:162-178 | the round trip for non-empty, differing buffers, whichever delta the size rule picks |
| RoundTrip.SameOccurrences | pdelta.go:162-164 | two parsed maps that agree on every number's list are equal, which is why an empty entry list means no delta |
| RoundTrip.NumbersReplay | pdelta.go:102-161 | the collected entries remap no index, only name numbers of the two maps, and per number patch the old list into the new one |
| RoundTrip.EntriesKeepIndex | pdelta.go:111-114 | getDelta's entries never ask applySerialized for an index remap |
| RoundTrip.DeltaFieldMapKeys | pdelta.go:312-317 | every number in the filed entries is the number of some entry |
| RoundTrip.NumberReplays | pdelta.go:104-160 | for one number, the index loop turns the old occurrences into the new ones, or there are no entries and the lists are equal |
| RoundTrip.PatchMapReplays | pdelta.go:320-354 | entries that replay every number patch the old map into one that is written as the new map is |
| RoundTrip.IndexEntriesReplay | pdelta.go:110-160 | a number's entries from position i on have increasing indices, each rebuilds its new occurrence, and positions without one are equal on both sides |
| RoundTrip.PatchFromReplay | pdelta.go:328-349 | given such entries, the index loop from i on yields the new occurrences from i on |
| RoundTrip.PositionReplays | pdelta.go:115-159 | at one position: no entry means equal occurrences; an entry applied to the old occurrence gives the new one (or removes it) |
| RoundTrip.EmbeddedReplays | pdelta.go:136-154 | a differing embedded message always gets a nested delta, and the folded entry rebuilds the new occurrence |
| RoundTrip.DiffShape | pdelta.go:69-182 | a delta getDelta returns is never UNCHANGED, and is either empty-new or carries new bytes or entries |
| RoundTrip.FoldApplies | pdelta.go:411-432 | a nested delta folded into an entry acts on a bytes occurrence as applySerialized acts on its bytes |
| RoundTrip.EntriesOfNumber | pdelta.go:102-161 | the entries collected for a number are exactly the collected entries with that number |
| RoundTrip.DeltaFieldMapMatches | pdelta.go:307-317 | the entries applySerialized files under a number are, by index, that number's collected entries |
| RoundTrip.FlattenExtraEmpty | pdelta.go:318 | numbers added with empty lists write nothing, so the patched map is written as the new map is |

## Left out

- The typed entry points `GetDelta`/`ApplyDelta` and `prefMessageDescriptor` (pdelta.go:22-59, 280-294) are left out. They rest on `proto.Marshal`/`proto.Unmarshal` and `protoreflect` type identity, which are outside the model. Only the byte-level functions they call are modelled.
- The size of the field-level delta, `len(proto.Marshal(messageWithFields))`, is an uninterpreted parameter `env.deltaSize`. The `pdeltapb` schema is generated and is not part of this model, and Marshal errors on it are not modelled.
- Go map iteration order is fixed to ascending field numbers. This affects marshalMessage's byte order, the order in which getDelta and applySerialized visit numbers, and so which error is reported first when several numbers fail. The codec round trip (`CodecProofs.MarshalRoundTrip`) is stated through parse, and parse groups occurrences by number, so it holds for any order. The delta round trip does depend on it; see the `RoundTrip` lines below.
- `extensionMap` is an immutable registry value passed as an argument. Its process-wide mutability and any concurrency around it are not modelled.
- `sort.Sort` is modelled by a verified insertion sort over an array (`Delta.SortByNumberIndex`), not by Go's algorithm. `Diffing.SortEntries` relies only on sortedness and permutation.
- `setOld`/`setNew` are value updates returning a new entry, where the source mutates through a pointer. No entry is aliased, so nothing else sees the change.
- The flag bit patterns of `pdeltapb` are not part of this model. The flags are a datatype with an unchanged marker, an old side and a new side. `NewUnknown` stands for every pattern the switch at pdelta.go:365 sends to its default branch.
- Indices are unbounded integers. The source's int32 casts of the position index (pdelta.go:113, 333) would only matter past 2^31 occurrences of one number.
- The applyField recursion calls `ApplyFields` directly, where the source calls applySerialized on a fresh message. That message carries no flags and no new bytes, so applySerialized's shortcuts cannot fire (`Patch.ApplyFieldNested` states the equivalence for every entry that is not UNCHANGED, has an unspecified new side and carries nested entries, whatever its old-side flag).
- Delta.Fixed32ValueIsLost: the round trip is proved only for buffers whose occurrences are bytes or varints. setOld/setNew test the Varint member of fixed32/fixed64 occurrences (pdelta.go:200, 206, 231, 237). That member is always zero for those types, so their values are lost. The model keeps this behaviour.
- RoundTrip.DiffApply: the round trip holds only with marshalMessage taking numbers in ascending order. A field-level patch of an embedded message is written back by marshalMessage (pdelta.go:430, 491), whose map range has no fixed order in Go. For example, with old `0A 04 08 01 10 01` and new `0A 04 08 02 10 01` (field 1 embedded, field-level deltas forced), the source may rebuild field 1 as `10 01 08 02`. The outer parse then differs from the new buffer's at field 1, where the model proves equality. A statement up to number order would need an equivalence of embedded bytes that follows the schema, which the model does not define.
- RoundTrip.DiffThenApply: the same ascending-order dependence as DiffApply, for its parse equality and its byte equality. It also rests on the same hypotheses (`Replayable`, and `CanonicalBuffer` for every differing embedded message).
- RoundTrip.ForcedFieldLevel: the same ascending-order dependence and the same `Replayable`/`CanonicalBuffer` hypotheses as DiffApply.
- RoundTrip.FieldLevelReplays: the same ascending-order dependence and the same `Replayable`/`CanonicalBuffer` hypotheses as DiffApply.
- RoundTrip.EmbeddedReplays: the byte equality of the rebuilt embedded occurrence holds only with ascending marshal order and for a `CanonicalBuffer` embedded message. The same holds for the lemmas that carry it to whole lists and maps at embedded positions: `RoundTrip.PositionReplays`, `RoundTrip.IndexEntriesReplay`, `RoundTrip.NumberReplays` and `RoundTrip.NumbersReplay`.
- RoundTrip.DiffApply: the round trip further assumes that every differing embedded message is written the way marshalMessage writes its parse (`CanonicalBuffer`). applySerialized re-serialises nested messages, so the patched bytes can differ from bytes in another canonical order. Under that assumption the result is byte-equal to the new buffer or to its re-serialisation.

## Findings

| source | as written | input that shows it | evidently intended | confidence | as-written member | corrected member |
|---|---|---|---|---|---|---|
| pdelta.go:482-483 | parseMessage reaches `panic("unreachable")` for wire-type codes 6 and 7. The tag check lets them through, and the switch has no case for them. | the one-byte buffer `0x0E` (field 1, wire-type code 6) | reject the buffer with the parsing error, like every other malformed input | not executed | WireTypeFinding.PanicOnByte0E | CodecProofs.ParseRejectsUnknownWireType |
