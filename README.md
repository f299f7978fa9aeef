# gocore topology decoder, modelled in Dafny

gocore is a small Windows command-line tool. It calls
`GetLogicalProcessorInformationEx` and walks the buffer the call fills. That
buffer is a run of variable-length `SYSTEM_LOGICAL_PROCESSOR_INFORMATION_EX`
records. The tool counts sockets, cores, logical processors and processor
groups, and prints what it finds. This project models the part of `main.go`
that has logic in it:

- **`Mask`** (`mask.dfy`): `PrintMask`, the loop that counts the set bits of
  a 64-bit affinity mask. It comes with the set of positions it reports and a
  round trip from positions back to the mask.
- **`Relation`** (`relation.dfy`): the `RelationType` constants and the
  mnemonic switch of the `info --relationship` command.
- **`Bytes`** (`bytes.dfy`): little-endian uint16/uint32/uint64 fields in the
  buffer, and their encoders.
- **`Layout`** (`layout.dfy`): the Go struct layouts on amd64. It has the
  decoding of one record (header, switch on `Relationship`, fixed fields,
  trailing array) and the record walk that advances by each header's `Size`.
  The two trailing-array loops are methods over arrays.
- **`Topology`** (`topology.dfy`): `processorInfo` as an imperative walk
  (`ProcessorInfo`, `ProcessRecord`). It is proved equal to a fold (`Tally`)
  over the decoded records. Lemmas say what each of the four counters means.
- **`Encoding`** (`encoding.dfy`): the inverse direction, writing records in
  the layout the decoder reads. Decoding a written record gives it back, and
  walking a written run of records gives the run back.
- **`Scenarios`** (`scenarios.dfy`): what the tool reports for any buffer
  written from well-formed records, and for a few concrete machines.

The buffer is the model's input, as a sequence of bytes. Go reads it through
`unsafe` pointer casts and never checks bounds, so the model reads every field
explicitly at its amd64 offset:
- header: `Relationship` at +0, `Size` at +4, payload at +8;
- `GroupCount` at payload +22, trailing array at +24;
- elements: `GROUP_AFFINITY` is 16 bytes and `PROCESSOR_GROUP_INFO` is 48.

A read that would fall outside the buffer reads memory the buffer does not own
in Go. Here it becomes an error result. A `Size` of 0 also becomes an error
result; on it, the Go loop would never advance.

Four behaviours of `main.go` are worth stating plainly, because a reader
might expect otherwise:
- The walk stops as soon as the offset reaches or passes the end of the
  buffer. It does not check that the records tile the buffer exactly. A last
  record whose `Size` runs past the end is accepted (`Scenarios.SizePastEnd`).
- A trailing array is bounded by the buffer, not by its record's `Size`. An
  array that runs into the next record reads that record's bytes, as the Go
  code does.
- Records of unrecognised kind are skipped without error, because the Go
  switch has no `default` arm.
- For a package record that spans several groups, the logical-processor
  count takes the popcount of the last group mask only. The Go loop assigns
  `processorCount` rather than adding to it (`Scenarios.LastGroupMaskWins`).

## Model

| member | source | states |
|---|---|---|
| Relation.FromMnemonic | main.go:115-132 | the result is either the wildcard 0xffff or a kind from 0 to 6 whose word is exactly the input; it is never ProcessorModule |
| Relation.MnemonicRoundTrip | main.go:16-23 | every kind from ProcessorCore (0) to NumaNodeEx (6) has a word, and the switch maps that word back to the kind |
| Relation.FromMnemonicSelects | main.go:115-132 | a string selects a specific kind if and only if it is one of the seven mnemonics |
| Relation.FallBackToAll | main.go:24-25 | "module", "all" and the empty string all fall back to RelationAll; ProcessorModule has no mnemonic |
| Mask.Bit | main.go:152 | the test `mask&(1<<i) != 0`; no contract of its own, its meaning is stated by BitIsDigit |
| Mask.BitIsDigit | main.go:152 | bit i is set exactly when the mask divided by 2^i is odd, i.e. `(mask >> i) & 1 == 1` |
| Mask.PopCount | main.go:149-158 | the number of set bits among positions 0..63 is at most 64 |
| Mask.PrintMask | main.go:149-158 | the loop's count equals the size of the set of positions 0..63 whose bit is set, equals PopCount, and is at most 64 |
| Mask.PopCountBelowIsCardinality | main.go:151-155 | counting the set bits below n one position at a time gives the size of the set of those positions |
| Mask.PopCountIsCardinality | main.go:151-155 | PopCount equals the number of set positions among 0..63 |
| Mask.PopCountZero | main.go:149-158 | the count is 0 exactly when the mask is 0 |
| Mask.PopCountAllOnes | main.go:149-158 | the all-ones mask counts 64 |
| Mask.LowOnesPopCount | main.go:149-158 | a mask of the k lowest bits set counts k |
| Mask.PositionsBelow | main.go:151-155 | the positions reported below n number PopCountBelow(mask, n), each below n and set in the mask |
| Mask.PositionsBelowExact | main.go:151-155 | the positions below n are strictly ascending and include every set position below n |
| Mask.Positions | main.go:151-155 | the positions PrintMask reports number PopCount(mask), each below 64 and set in the mask |
| Mask.PositionsExact | main.go:151-155 | the reported positions are strictly ascending, and a position 0..63 is reported if and only if its bit is set |
| Mask.FromPositionsBelow | main.go:151-155 | summing 2^p over the positions below n gives the mask's low n bits |
| Mask.PositionsRoundTrip | main.go:151-155 | rebuilding a 64-bit mask from its reported positions gives the mask back |
| Mask.PopCountNarrow | main.go:151 | bits above a mask's width add nothing to the count |
| Layout.Affinities | main.go:198-201 | exactly count elements, element i being the GROUP_AFFINITY (mask at +0, group at +8) at start + 16*i |
| Layout.GroupInfos | main.go:248-252 | exactly count elements, element i being the PROCESSOR_GROUP_INFO (two counts at +0 and +1, mask at +40) at start + 48*i |
| Layout.ReadGroupAffinities | main.go:198-201 | the array-filling loop returns count elements, element i read from start + 16*i |
| Layout.ReadGroupInfos | main.go:248-252 | the array-filling loop returns count elements, element i read from start + 48*i |
| Layout.DecodeRecord | main.go:193-264 | decoding fails exactly when the header does not fit, Size is 0 or a payload read would leave the buffer; on success Relationship and Size come from the header, Size is positive and the payload has the shape the switch selects for the kind |
| Layout.RecordsFromStep | main.go:192-193 | a walk from an offset inside the buffer starts with the record decoded there and continues at offset + Size |
| Layout.RecordsFromCons | main.go:266 | a record decoded at the offset, followed by the walk from offset + Size, is the walk from the offset |
| Layout.RecordsFrom | main.go:192-266 | the offset cursor loop; no contract of its own, its meaning is stated by RecordsStartInside, RecordsAtOffsets, RecordsFromOfDecoded and RecordsErrorIsFirstBadRecord |
| Layout.Records | main.go:192 | the loop started at offset 0; no contract of its own, its meaning is stated by RecordsOfDecoded and Encoding.RecordsOfEncoding |
| Layout.AffinityAt | main.go:200 | one GROUP_AFFINITY read; no contract of its own, its meaning is stated by Encoding.AffinityReadBack |
| Layout.GroupInfoAt | main.go:251 | one PROCESSOR_GROUP_INFO read; no contract of its own, its meaning is stated by Encoding.GroupInfoReadBack |
| Layout.WalkDecodes | main.go:192-266 | a successful walk decodes its records one after the other, each starting inside the buffer, until the Sizes reach or pass its end |
| Layout.WalkOfDecoded | main.go:192-266 | conversely, such a run of records is what the walk returns |
| Layout.DecodedAtOffsets | main.go:266 | in a run decoded one record after the other, record i is decoded at the start offset plus the Sizes of records 0..i-1 |
| Layout.DecodedFromOffsets | main.go:266 | conversely, records decoded at those offsets form a run decoded one after the other |
| Layout.InsideAtOffsets | main.go:192 | in a run whose records all start inside the buffer, record i starts at the start offset plus the Sizes before it, below the buffer's length |
| Layout.InsideFromOffsets | main.go:192 | conversely, records whose running offsets are all below the buffer's length all start inside it |
| Layout.RecordsStartInside | main.go:192-266 | every record the walk returns starts inside the buffer, at the start offset plus the Sizes of the records before it, and the Sizes of all of them reach or pass its end |
| Layout.RecordsAtOffsets | main.go:192-266 | the walk visits records in buffer order: record i is the one decoded at the start offset plus the Sizes of records 0..i-1 |
| Layout.RecordsFromOfDecoded | main.go:192-266 | the converse of the two lemmas above: records decoded at those offsets, each starting inside the buffer, whose Sizes reach or pass its end (the last may overshoot it), are exactly what the walk returns |
| Layout.RecordsOfDecoded | main.go:192-266 | the same from offset 0, for the whole buffer |
| Layout.RecordsErrorIsFirstBadRecord | main.go:192-266 | a failed walk has decoded a run of records one after the other, each starting inside the buffer, and fails with the decode error of the record the cursor reaches after them, which also starts inside the buffer |
| Layout.EmptyBufferNoRecords | main.go:192 | an empty buffer holds no records |
| Topology.LastMaskCount | main.go:204-210 | processorCount after the group loop is at most 64 |
| Topology.Step | main.go:211-218 | the counter updates of one record; no contract of its own, its meaning is stated by the Tally lemmas below |
| Topology.Tally | main.go:192-266 | the four counters after folding Step over the records; no contract of its own, its meaning is stated by TallyCoresAndSockets, TallyLogicalProcessors, TallyNoGroups, TallyLastGroup and TallySkipsNeutral |
| Topology.Summarize | main.go:187-267 | what processorInfo computes: no contract of its own, ProcessorInfo is proved equal to it and Scenarios.SummaryOfEncoding states it for written buffers |
| Topology.ProcessRecord | main.go:193-264 | the loop body either reports the record's decode error, or returns the counters of Step applied to the decoded record |
| Topology.ProcessorInfo | main.go:187-267 | the imperative walk returns the fold of Step over the records of the buffer, or the first decode error |
| Topology.DecodedRecords | main.go:194-264 | every record of a successful walk has the payload shape its relationship selects |
| Topology.TallyCoresAndSockets | main.go:211-217 | the core counter is the number of ProcessorCore records and the socket counter the number of ProcessorPackage records |
| Topology.TallyLogicalProcessors | main.go:204-218 | the logical-processor counter is the sum over package records of their last mask's popcount, and at most 64 per socket |
| Topology.TallyNoGroups | main.go:243-245 | with no Group record the group counter stays 0 |
| Topology.TallyLastGroup | main.go:245 | the group counter is the ActiveGroupCount of the last Group record, overwritten and not summed |
| Topology.TallySkipsNeutral | main.go:221-241 | a NUMA, cache, die, module or unrecognised record can be removed from anywhere in the run without changing the counters |
| Topology.EmptyBuffer | main.go:187-192 | an empty buffer leaves all four counters at 0 |
| Encoding.EncodeRecord | main.go:28-32 | a written record occupies exactly its Size bytes |
| Encoding.AffinityReadBack | main.go:42-46 | a GROUP_AFFINITY written anywhere in a buffer reads back as itself |
| Encoding.GroupInfoReadBack | main.go:83-88 | a PROCESSOR_GROUP_INFO written anywhere in a buffer reads back as itself |
| Encoding.AffinitiesReadBack | main.go:198-201 | a written GROUP_AFFINITY array is read back element by element, in order |
| Encoding.GroupInfosReadBack | main.go:248-252 | a written PROCESSOR_GROUP_INFO array is read back element by element, in order |
| Encoding.AffinityTailReadBack | main.go:34-40 | after the fixed fields, the written GroupCount reads back as the array length, and the array reads back |
| Encoding.NodeNumberReadBack | main.go:48-53 | a written NodeNumber reads back at payload +0 |
| Encoding.GroupPayloadReadBack | main.go:76-81 | the written MaximumGroupCount, ActiveGroupCount and GroupInfo array read back |
| Encoding.PayloadReadBack | main.go:194-264 | under a header naming the record's kind and Size, a written payload decodes to the record |
| Encoding.RecordRoundTrip | main.go:28-88 | a well-formed record written anywhere in a buffer decodes back to itself |
| Encoding.DecodesInRun | main.go:192-266 | in a buffer written from a run of records, record i decodes at the sum of the Sizes before it |
| Encoding.EncodeAllLength | main.go:266 | a written run of records is as long as the sum of their Sizes |
| Encoding.RecordsOfEncoding | main.go:192-267 | walking a buffer written from well-formed records gives back exactly those records, in order |
| Scenarios.SummaryOfEncoding | main.go:187-267 | for any buffer written from well-formed records, the walk succeeds; it counts core and package records, and adds up the package records' last-mask popcounts |
| Scenarios.TwoSocketTally | main.go:211-218 | packages with masks 0x0F and 0xFF plus two cores give 2 sockets, 2 cores, 12 logical processors |
| Scenarios.TwoSockets | main.go:187-267 | the buffer holding those four records reports 2 sockets, 2 cores, 12 logical processors and 0 groups |
| Scenarios.OneCore | main.go:211-214 | one core record with mask 0x03 counts 1 core and no logical processor |
| Scenarios.LastGroupMaskWins | main.go:205-210 | a package with group masks 0xFF then 0x01 adds 1 logical processor, not 9 |
| Scenarios.OneActiveGroup | main.go:243-245 | a Group record with one active group sets the group counter to 1 |
| Scenarios.SizePastEnd | main.go:192-266 | a last record whose Size runs past the buffer's end is kept, and the walk stops |
| Scenarios.ZeroSizeStops | main.go:266 | a record with Size 0 ends the walk with an error |

## Left out

- The two `GetLogicalProcessorInformationEx` system calls, the lazy loading of kernel32.dll, the `ERROR_INSUFFICIENT_BUFFER` check and `os.Exit` (main.go:90-93, 160-185) are calls into the operating system. The buffer they fill is the model's input.
- The urfave/cli application, `app.Run` and `log.Fatal` (main.go:95-147) are process plumbing. Only the mnemonic switch inside the action is modelled.
- Every `fmt.Printf`/`println` line is console output. That covers the per-bit line in `PrintMask`, the `%064b` dumps, and the NUMA, cache and group dumps, together with the summary lines (main.go:154, 206-208, 219, 223, 231-235, 239-241, 246, 255-263, 269-272). The `PrintMask` calls of the NUMA and group branches only print, so the model reads those arrays and nothing more.
- `RelationType.String()` is generated by `stringer` and is not part of this model.
- The `unsafe.Pointer` casts themselves are not modelled. Fields are decoded explicitly at the amd64 offsets of the Go structs. Flags, EfficiencyClass, the cache fields other than Level, and the reserved words are never read by the Go code, so they are not decoded.
- Layout.DecodeRecord: a read past the end of the buffer is undefined behaviour in Go. Here it is an error result (`TruncatedHeader`, `FieldPastEnd`, `ArrayPastEnd`).
- Layout.DecodeRecord: a `Size` of 0 makes the Go loop spin forever. Here it is the error `ZeroSize`.
- Layout.RecordsFrom: there is no check that the records fill the buffer exactly, because `main.go` has none. The walk stops as soon as the offset reaches or passes the end.
- Topology.EmptyBuffer and Layout.EmptyBufferNoRecords describe the loop alone. In the program an empty buffer never reaches the loop: `&buffer[0]` at main.go:179 panics when the first call reports a length of 0.
- Encoding.WellFormed: the round-trip lemmas cover records whose payload fits inside their Size. Records whose arrays overlap their neighbours are decoded by the model but are not produced by the encoder.
- Mask.PrintMask: `uintptr` is taken to be 64 bits wide (amd64), as the 64-iteration loop assumes.
