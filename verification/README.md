# KDI core: a verified model

KDI is a table store. Records are laid out in reference-counted buffers, compressed with LZO1X and
written to record files; cells are kept in sorted in-memory tables, merged from fragments, filtered by
scan predicates and shared between threads. This project models the hardest of that logic in Dafny and
proves what it is meant to do, for every input, every run and every interleaving.

The platform is the 64-bit little-endian one of the system's own README. Machine words are explicit
where they matter: pointers and `size_t` are reduced modulo 2^64, header words are 32 bits, checksum
sums are a 32-bit number type whose overflow is excluded by proof.

| module | what it holds |
|---|---|
| `Bytes`, `Options`, `Strings` | bytes, optional values, strings in memcmp order and prefix intervals |
| `LzoFormat` | the LZO1X decoder as a state machine over labels, and the token format the encoder emits |
| `LzoRoundTrip`, `LzoSize` | decoding undoes encoding for every valid parse; how large an encoding gets |
| `LzoLocality`, `LzoFailures` | what the decoder makes of the memory behind its input; streams cut short, followed by something, or without room |
| `LzoDictionary`, `LzoSearch` | the match dictionary's hashes and pointer test; the search for matches, position by position |
| `LzoOverrun`, `LzoSavings` | inputs on which the search overruns the record writer's buffer; inputs whose compression is always kept, or never |
| `LzoCompressor`, `LzoDecompressor` | the two loops over arrays, proved against the format |
| `RecordFile` | record headers, FileOutput, FileInput, whole-file round trip |
| `RecordSerializer` | InputStreamSerializer |
| `RecordBuffer` | Record handles, RecordBuffer and RecordBufferAllocator |
| `ThreadedReader`, `ReadAheadLimit` | ReadTask as a state machine over critical sections, and as a class; when its limit holds |
| `IntervalSet` | sorted end-point sets and their `add` |
| `ScanPredicate`, `ScanPredicateRoundTrip`, `ScanExpression` | the predicate language at token level: printing, parsing, and what its expressions mean |
| `ColumnFamilies` | getColumnFamily and getColumnFamilies |
| `Merge`, `Cells` | the k-way merge; cells, their order, CellMerge |
| `CellFilter`, `MemoryTable` | history, erasure and containment filters; the table and its scanner |
| `TableScan` | a filtered scan read cell by cell while the table may change |
| `SyncTable`, `TableCache` | buffered writers and scanners over one synchronized table; openSyncTable |
| `Base64`, `Adler` | unpadded Base64; both Adler-32 loops |

Where a class or a loop of the source works in place, the model is a class or a method with a loop and
`ensures` that ties it to a specification function; the theorems are about that function or about every
run of the state machine it belongs to.

## Where the code does not do what it says

- `FileOutput::put` reserves n + 16 * (1 + n / 1024) bytes for the compressed form of n bytes
  (src/cc/oort/fileio.cc:283-289). `LzoSize.BufferSuffices` proves that this holds every encoding of every
  input if and only if n <= 282, and 282 is also the limit of the code as it runs: on the inputs of 283 bytes
  that `LzoOverrun.Overrunning` describes, `LzoCompressor.Compress` writes 300 bytes for a buffer of 299,
  whatever the dictionary holds. `LzoOverrun.Sample` is such an input (`LzoOverrun.SampleOverruns`), and
  `RecordFile.PutSample` puts it as a record through any writer with any work memory: the outcome is always
  the overrun. So `FileOutput.Put` has an outcome for a stream that ran over its buffer, and the file round
  trip holds unless that happens.
- `IntervalSet::add` breaks the class invariant when the new upper bound is already an end point of the
  set and not the last one: nothing is inserted then, but the iterator stands behind the duplicate, and the
  erasure that follows removes it (src/cc/warp/interval.h:804-817). `IntervalSet.AddLosesDuplicate` is a concrete
  set: adding [2, 3) to [1, 3) [5, 7) loses the value 2. `IntervalSet.AddWellFormed` proves that the
  invariant is kept if and only if the upper bound is not such a duplicate, `IntervalSet.AddIsUnion`
  that the result is then the union, and `IntervalSet.AddLosesInterval` that otherwise every value of
  the added interval is missing. The predicate parser runs into it: `ScanExpression.ExpressionLosesTime` proves
  that `1 <= time < 3 or 5 <= time < 7 or 2 <= time < 3` is accepted and does not select time 2, of which two of
  its comparisons hold. `ScanExpression.OneMoreExactly` is the exact condition for the next comparison, and
  `ScanExpression.FreshCanBeSummed` one on the literals: no two comparisons with the same finite upper bound.
- getColumnFamily cuts an exclusive upper bound `f;` at its first semicolon, so getColumnFamilies does not
  recognise the set of all columns of a family with a semicolon in its name. `ColumnFamilies.NamesExactly` proves
  that this is the only interval confined to one family that it does not recognise.
- ThreadedReader's budget `readAhead - readSoFar` is an unsigned difference, and a run can be queued with
  `readSoFar` past the limit: with a limit of 3 and items of 1, 1 and 10 bytes one is queued with 11 bytes ahead
  (`ReadAheadLimit.LimitExample`). `ReadAheadLimit.LimitExact` gives the condition a caller can see to: every
  run of every execution starts within the limit if and only if `readUpTo` is not below it or no item is
  larger than `readUpTo + 1`.

Two matters of range: HistoryFilter's counter wraps on purpose for negative histories, and
`CellFilter.WindowExact` proves for which sequence lengths the window is exact. The safe LZO decoder reads up
to two bytes behind its input; `LzoLocality.OkIsLocal` proves that they decide neither success nor what a
successful decoding yields, and `LzoLocality.ErrorIsNotLocal` that they can decide which error is reported.

## Model

| member | source | states |
|---|---|---|
| `LzoFormat.Next` | src/cc/minilzo/minilzo.c:3765-4077 | one label of the safe decoder: every step keeps what was written, stays within the capacity, and consumes input or moves to a lower label, so the decoder ends on every input |
| `LzoFormat.Run` | src/cc/minilzo/minilzo.c:3760-4107 | decoding from any label only appends and never exceeds the capacity, on arbitrary input |
| `LzoFormat.ReadLength` | src/cc/minilzo/minilzo.c:3780-3790 | the run-length extension stays within the input or reports an overrun |
| `LzoFormat.OrLow` | src/cc/minilzo/minilzo.c:2927-2931 | patching a literal count changes only the two low bits |
| `LzoRoundTrip.RoundTrip` | src/cc/minilzo/minilzo.c:2822-4107 | for every input and every way to cut it into literals and valid matches, the decoder with any sufficient capacity returns OK, consumes exactly the stream and reproduces the input |
| `LzoRoundTrip.ReadLengthExtension` | src/cc/minilzo/minilzo.c:2936-2945 | the decoder reads back every run length that the encoder writes |
| `LzoRoundTrip.CopyMatchRepeats` | src/cc/minilzo/minilzo.c:4050-4054 | a match, also one that overlaps its own output, copies exactly the text it stands for |
| `LzoRoundTrip.MatchStep` | src/cc/minilzo/minilzo.c:3853-4062 | every encoded M2, M3 or M4 match is decoded to its text, whatever literal count is stored in it |
| `LzoRoundTrip.PairStep` | src/cc/minilzo/minilzo.c:4000-4022 | the two-byte match of ten offset bits, which this encoder does not write, copies two bytes from up to 1024 back |
| `LzoRoundTrip.TripleStep` | src/cc/minilzo/minilzo.c:3824-3851 | behind a literal run the same bytes copy three from beyond the reach of M2 |
| `LzoRoundTrip.TailDecodes` | src/cc/minilzo/minilzo.c:3075-3103 | the last literals and the end marker are decoded to the end of the input with status OK |
| `LzoRoundTrip.LiteralStreamDecodes` | src/cc/minilzo/minilzo.c:3067-3103 | a stream without matches, short form or long, decodes to its literals |
| `LzoRoundTrip.NoMatchIsEndMarker` | src/cc/minilzo/minilzo.c:2984-2988 | no encoded match, with any literal count patched in, reads as the end marker |
| `LzoRoundTrip.MatchLayout` | src/cc/minilzo/minilzo.c:2964-3044 | by length and offset, the bytes of a match are the two of M2, with the length in the top three bits and the offset in the other eleven, or the head and offset field of M3 or M4 |
| `LzoSize.MatchSaves` | src/cc/minilzo/minilzo.c:2851-2860 | every match the compressor accepts is at least one byte shorter than its text |
| `LzoSize.EncodedSize` | src/cc/minilzo/minilzo.c:2921-3045 | literals and matches cost at most one byte for every 22 they cover |
| `LzoSize.CompressedSize` | src/cc/minilzo/minilzo.c:2921-3103 | any encoding of n bytes is at most n + 5 + (n - 19) / 22 bytes long, n + 4 below 19, and so within n + n/16 + 5 |
| `LzoSize.MaxSizeIsMet` | src/cc/minilzo/minilzo.c:2921-3103 | that bound is reached at every length from 41 on |
| `LzoSize.BufferSuffices` | src/cc/oort/fileio.cc:283-289 | the record writer's buffer holds every encoding of every input of n bytes if and only if n <= 282 |
| `LzoOverrun.BufferTooSmall` | src/cc/oort/fileio.cc:283-289 | inputs of 283 bytes with the block 1 2 3 at position 4 and at the end of each of twelve groups of 22 have an encoding of 300 bytes for a buffer of 299 |
| `LzoOverrun.TrackProbe` | src/cc/minilzo/minilzo.c:2846-3002 | on an overrunning input one probe of the search, from any dictionary that has followed it so far, finds nothing at a quiet position and exactly three bytes of the block before at a block, and leaves the dictionary pointing there |
| `LzoOverrun.SampleOverruns` | src/cc/minilzo/minilzo.c:2846-2850 | a concrete input is overrunning: between its blocks every three bytes are met for the first time and hash away from the blocks |
| `LzoLocality.OkIsLocal` | src/cc/minilzo/minilzo.c:3765-4088 | for two memories with the same input, decoding succeeds in both or in neither and yields the same |
| `LzoLocality.ErrorIsNotLocal` | src/cc/minilzo/minilzo.c:3946-3990 | an input whose error depends on the two bytes behind it |
| `LzoFailures.PrefixFree` | src/cc/minilzo/minilzo.c:4084-4088 | no accepted input is a proper prefix of another: whatever follows it is reported as not consumed, with the same output |
| `LzoFailures.RoomDecidesFit` | src/cc/minilzo/minilzo.c:3765-4107 | for any input a smaller output buffer gives the same result, or an output overrun with the front of it |
| `LzoFailures.StreamFailures` | src/cc/minilzo/minilzo.c:3765-4107 | an encoded stream followed by anything is not consumed but decoded, one cut short is never OK, and one without room for all of the data is an output overrun with the front of it |
| `LzoDictionary.CheckedOffset` | src/cc/minilzo/minilzo.c:2783-2788 | any dictionary pointer, stale or foreign, is rejected or stands for a position inside the current input at an offset the format can store, for addresses from 0xbfff on |
| `LzoDictionary.CheckedOffsetExact` | src/cc/minilzo/minilzo.c:2783-2788 | every accepted entry is a position of the input if and only if the address looked at is not below 0xbfff |
| `LzoCompressor.FindMatch` | src/cc/minilzo/minilzo.c:2846-2888 | for any dictionary content: the first entry is taken if it is near with three equal bytes or within the format's reach with four; only if it is far and its fourth byte differs, the second one is, by the same test; a reported match is a real one |
| `LzoSearch.SearchMatch` | src/cc/minilzo/minilzo.c:2836-3057 | a position inside a match enters nothing into the dictionary, and the position of the match is entered where the probes left off |
| `LzoSavings.RunProbe` | src/cc/minilzo/minilzo.c:2846-2888 | on 19 or more equal bytes the search, from any dictionary, has a match at the fifth byte or the sixth |
| `LzoSavings.OneRunSize` | src/cc/oort/fileio.cc:289-298 | a stream of one such match fits the record writer's buffer and is below the size at which compression is kept |
| `LzoSavings.NothingSaved` | src/cc/oort/fileio.cc:289-298 | an input in which no three bytes occur twice has only the encoding without matches, which is larger than it and fits the record writer's buffer at every length |
| `LzoDictionary.HashMeets` | src/cc/minilzo/minilzo.c:2846-2847 | positions that agree in three bytes meet in one dictionary entry if and only if they agree in the three low bits of the fourth |
| `LzoDictionary.SecondElsewhere` | src/cc/minilzo/minilzo.c:2542-2542 | the second entry looked at is never the first, and lies in the upper half of the dictionary |
| `LzoDictionary.FillersApart` | src/cc/minilzo/minilzo.c:2846-2847 | bytes divisible by four and below 64 or from 128 to 191, and the other pairs that stand between two blocks, never hash to the entry of the blocks, whatever follows them |
| `LzoCompressor.MatchLength` | src/cc/minilzo/minilzo.c:2951-3002 | the match is extended as far as it goes and no further |
| `LzoCompressor.EmitLiterals` | src/cc/minilzo/minilzo.c:2923-2948 | literals are written in the format's layout, with up to three counted in the preceding match |
| `LzoCompressor.EmitMatch` | src/cc/minilzo/minilzo.c:2964-3044 | the bytes written for a match are the format's |
| `LzoCompressor.DoCompress` | src/cc/minilzo/minilzo.c:2822-3057 | from any dictionary content, for an input at address 0xbfff or above, the output is the encoding of a valid parse of the front of the input, within the bound; up to the last 13 bytes every position outside a match was looked at, and starts one exactly as the two probes of the dictionary made by the positions before it say; every match is as long as it can be; on an overrunning input the parse is twelve times 19 literals and a match of three, and on 19 or more equal bytes it is one match |
| `LzoCompressor.EmitTail` | src/cc/minilzo/minilzo.c:3075-3099 | the literals behind the last match, in the short form when the stream has none |
| `LzoCompressor.Compress` | src/cc/minilzo/minilzo.c:3060-3107 | for every input at address 0xbfff or above and every dictionary content, the output fits the bound and decompresses with exact capacity to the input with status OK; an input of more than 13 bytes is searched to its last 13 bytes; on an overrunning input it has 300 bytes where the record writer has 299 |
| `LzoDecompressor.CopyRun` | src/cc/minilzo/minilzo.c:3791-3811 | the four-bytes-at-a-time literal copy is the plain copy, for every length |
| `LzoDecompressor.CopyMatchFour` | src/cc/minilzo/minilzo.c:4037-4046 | four bytes loaded at once are the next four bytes of a match at least four back, overlapping or not |
| `LzoDecompressor.CopyBack` | src/cc/minilzo/minilzo.c:4030-4054 | the word-wise match copy is the byte-by-byte one, for every length and offset |
| `LzoDecompressor.DecompressSafe` | src/cc/minilzo/minilzo.c:3718-4107 | on every input, valid or not, the array decoder writes in bounds and ends with the status and output of the state machine |
| `RecordFile.VegaRoundTrip` | src/cc/oort/headers.h:66-85 | what a vega header keeps: both words, and the low byte of version and flags |
| `RecordFile.SiriusRoundTrip` | src/cc/oort/headers.h:96-112 | what a sirius header keeps: both words and the low 16 bits of the version |
| `RecordFile.Parse` | src/cc/oort/fileio.cc:126-184 | a record read from the front of a file uses at least a header and no more than there is |
| `RecordFile.ParseExtends` | src/cc/oort/fileio.cc:135-176 | a record is read the same whatever follows it in the file |
| `RecordFile.ParseAllConcat` | src/cc/oort/fileio.cc:126-184 | a file of whole records is read back record by record |
| `RecordFile.CutOff` | src/cc/oort/fileio.cc:135-160 | of a record that is cut off nothing is read: the file is at its end within the header, the record short within the data |
| `RecordFile.GarbledFrame` | src/cc/oort/fileio.cc:160-184 | a compressed payload too short for a size word and a stream, or whose stream does not fill the size, is the damaged outcome |
| `RecordFile.PlainFrame` | src/cc/oort/fileio.cc:321-326 | a record stored without compression is read back |
| `RecordFile.CompressedFrame` | src/cc/oort/fileio.cc:306-326 | a compressed payload with its size in front is read back as the original record |
| `RecordFile.StoredExactly` | src/cc/oort/fileio.cc:262-330 | a record survives, up to the LZO flag, if and only if its version and flags fit a byte |
| `RecordFile.FileOutput.CompressData` | src/cc/oort/fileio.cc:272-298 | the stream decodes to the data and fits the buffer of the source, or it ran over that buffer, which data of at most 282 bytes cannot cause and an overrunning input always causes; 19 or more equal bytes are always compressed far enough to be kept |
| `RecordFile.FileOutput.Put` | src/cc/oort/fileio.cc:262-330 | whatever is in the reused work memory, exactly one frame is appended that reads back as the record; with the LZO flag compression is kept if and only if the stream and its size word take less than 15/16 of the record, which is always so for 19 or more equal bytes and never if no three bytes occur twice, and neither of these overruns; or the stream is larger than the buffer, which takes more than 282 bytes and is so for every overrunning record |
| `RecordFile.PutSample` | src/cc/oort/fileio.cc:283-298 | a record of 283 bytes whose compression overruns the buffer of every writer, whatever is in its work memory |
| `RecordFile.FileInput.Get` | src/cc/oort/fileio.cc:126-184 | one record is parsed at the position, which moves by what was used, or to the end on a short read |
| `RecordFile.WriteAll` | src/cc/oort/fileio.cc:262-330 | a whole sequence put through one writer without an overrun parses as that sequence; there is none if every record to be compressed has at most 282 bytes, is one byte repeated or repeats no three bytes; those of one byte, from 19 on, are kept compressed |
| `RecordFile.ReadAll` | src/cc/oort/fileio.cc:126-184 | reading until no record is left gives the parse of the file |
| `RecordFile.FileRoundTrip` | src/cc/oort/fileio.cc:126-330 | for every sequence of records with byte-sized version and flags, writing with one reused work memory and reading returns the same sequence, up to an LZO flag cleared where compression does not pay, unless a compression overran its buffer |
| `RecordSerializer.InputStreamSerializer.Read` | src/cc/oort/serializer.cc:39-120 | the bytes handed out are the next piece of the flattened records, a short read means the end, and nothing beyond the size is written |
| `RecordSerializer.ReadPieces` | src/cc/oort/serializer.cc:39-120 | for every record list and every list of sizes the pieces are consecutive, none is too long, and one is short only if the stream is used up |
| `RecordBuffer.HeaderRoundTrip` | src/cc/oort/recordbuffer.h:43-57 | header fields read back as written, version and flags to 16 bits |
| `RecordBuffer.ReleaseKeeps` | src/cc/oort/record.h:124-132 | releasing a handle keeps the invariant and every other record's bytes; the buffer is deleted with its last reference |
| `RecordBuffer.AssignKeeps` | src/cc/oort/record.h:107-119 | assignment makes both handles refer to the same untouched record, self-assignment included |
| `RecordBuffer.RewindKeeps` | src/cc/oort/recordbuffer.cc:157-160 | a buffer is rewound only when no record is in it, so none is lost |
| `RecordBuffer.AllocBufKeeps` | src/cc/oort/recordbuffer.cc:128-143 | changing buffers keeps every live record |
| `RecordBuffer.NewBufferRoom` | src/cc/oort/recordbuffer.cc:163-188 | each new buffer brings the search for room exactly one step closer to its end |
| `RecordBuffer.PlacedRecord` | src/cc/oort/recordbuffer.cc:165-183 | the placed record reads back as asked for and ends at the new fill pointer |
| `RecordBuffer.AllocKeeps` | src/cc/oort/recordbuffer.cc:155-190 | alloc keeps all other records byte for byte, hands out the record at an 8-aligned address, and makes exactly 0, 1 or 2 new buffers by a condition on alignment and size |
| `RecordBuffer.AllocPlaces` | src/cc/oort/recordbuffer.cc:155-190 | a record that has room in the current buffer goes into it without a new one being made, at its start if no other handle refers to it and else at the next aligned place; any other goes to the start of a new buffer of at least the allocation size |
| `RecordBuffer.FillKeeps` | src/cc/oort/recordbuffer.cc:117-122 | filling one record's data leaves every other record alone and is what its accessors then read |
| `RecordBuffer.RunKeeps` | src/cc/oort/recordbuffer.cc:117-190 | in every run of declaring, assigning, releasing, allocating and filling: reference counts are exact, no handle refers to a deleted buffer, live records are aligned, disjoint and below the fill pointer |
| `RecordBuffer.LiveRecordKept` | src/cc/oort/record.h:50-132 | through any part of any run that does not assign a variable or write its record, the variable refers to the same bytes at the same address |
| `RecordBuffer.RecordBufferAllocator.Release` | src/cc/oort/record.h:124-132 | the method does what the release step says and keeps the invariant |
| `RecordBuffer.RecordBufferAllocator.Assign` | src/cc/oort/record.h:107-119 | the method does what the assignment step says and keeps the invariant |
| `RecordBuffer.RecordBufferAllocator.NewBuffer` | src/cc/oort/recordbuffer.cc:128-143 | the new buffer has the size asked for or the allocation size, whichever is larger, the old one is released and its size counted, and no handle moves |
| `RecordBuffer.RecordBufferAllocator.Alloc` | src/cc/oort/recordbuffer.cc:155-190 | if no other handle refers to the current buffer and 16 bytes and the data fit its memory, no buffer is made and the data pointer is 16 behind its start; otherwise the record is where AllocPlaces says, the retry loop ends after at most two new buffers, the pointer is where getData of the handle points, and no other record is touched |
| `ThreadedReader.NextKeeps` | src/cc/flux/threaded_reader.h:86-165 | every step of every thread keeps: nothing lost, duplicated or reordered; `scheduled` exactly when one task is queued or running; counters exact; no lost wakeup |
| `ThreadedReader.ExecutionKeeps` | src/cc/flux/threaded_reader.h:71-165 | the same in every state of every interleaving of run, get and cancel |
| `ThreadedReader.DeliversInOrder` | src/cc/flux/threaded_reader.h:125-157 | the delivered items are always a prefix of the input, and get reports the end only when all of it was delivered |
| `ThreadedReader.NoDeadlock` | src/cc/flux/threaded_reader.h:117-165 | no two runs overlap, and while a thread sleeps without having been notified exactly one task is queued or running |
| `ThreadedReader.GetIsWoken` | src/cc/flux/threaded_reader.h:108-148 | a get that waits goes on as soon as it was notified, and until then the one task can take a step and its commit notifies |
| `ThreadedReader.ServedAfterTwoCommits` | src/cc/flux/threaded_reader.h:86-148 | with positive limits, a consumer that stays blocked over two commits has something to take after the second, or the end of the stream |
| `ThreadedReader.RunMakesProgress` | src/cc/flux/threaded_reader.h:94-115 | a run that starts below the limit brings an item or the end of the stream |
| `ThreadedReader.CancelIsFinal` | src/cc/flux/threaded_reader.h:159-165 | once cancel has returned nothing is queued or running and nothing can follow |
| `ThreadedReader.CancelReturns` | src/cc/flux/threaded_reader.h:108-165 | a cancel that waits returns: its one task can always take a step, the commit of it is the last one, and behind it the waiting thread finds nothing scheduled |
| `ReadAheadLimit.LimitHolds` | src/cc/flux/threaded_reader.h:86-148 | with items of at most readUpTo + 1, or readUpTo not below readAhead, every run of every execution starts within the limit and is not told to read past it |
| `ReadAheadLimit.LimitExceeded` | src/cc/flux/threaded_reader.h:86-148 | one item of size one and one larger than readUpTo + 1, with readUpTo below readAhead, give an execution that queues a run above the limit and tells it to read on |
| `ReadAheadLimit.LimitExact` | src/cc/flux/threaded_reader.h:86-148 | the limit holds in every execution if and only if the items are bounded so |
| `ReadAheadLimit.LimitExample` | src/cc/flux/threaded_reader.h:86-148 | a limit of 3 and items of 1, 1 and 10: a run is queued with 11 ahead |
| `ReadAheadLimit.ReadAheadBounded` | src/cc/flux/threaded_reader.h:237-248 | with unit sizes the items read ahead, committed or not, never exceed the limit, in any execution |
| `ReadAheadLimit.BudgetRespectsLimit` | src/cc/flux/threaded_reader.h:89-89 | a budget ends within the limit if and only if the run starts within it; past it the difference wraps around to readUpTo |
| `ReadAheadLimit.DrainTakes` | src/cc/flux/threaded_reader.h:133-139 | the drain loop takes everything, or at least readUpTo |
| `ThreadedReader.ReadTask.RunRead` | src/cc/flux/threaded_reader.h:92-106 | the read loop keeps the invariant and stops only when a commit is due |
| `ThreadedReader.ReadTask.RunBegin` | src/cc/flux/threaded_reader.h:86-90 | the first section of run is the begin step |
| `ThreadedReader.ReadTask.PopFront` | src/cc/flux/threaded_reader.h:154-156 | the item handed out is the front of readQ |
| `ThreadedReader.ReadTask.CancelBegin` | src/cc/flux/threaded_reader.h:159-163 | the first section of cancel is the cancel step |
| `ThreadedReader.ReadTask.RunCommit` | src/cc/flux/threaded_reader.h:108-123 | the second section of run is the commit step |
| `ThreadedReader.ReadTask.GetLocked` | src/cc/flux/threaded_reader.h:133-148 | the drain loop of get is the drain step |
| `ThreadedReader.ReadTask.CountDrain` | src/cc/flux/threaded_reader.h:133-139 | how many items the drain moves and their total size |
| `IntervalSet.ContainsMeansSomeInterval` | src/cc/warp/interval.h:737-745 | membership by one binary search is membership in some interval of the set |
| `IntervalSet.WithinMeans` | src/cc/warp/interval.h:36-42 | a value is in an interval if and only if it is above the lower bound or equal to it when that is inclusive, and likewise below the upper one |
| `IntervalSet.ContainsMeans` | src/cc/warp/interval.h:737-745 | membership by the binary search, in terms of the value order alone |
| `IntervalSet.GapIsReal` | src/cc/warp/interval.h:632-644 | between neighbouring intervals of a set the end points are apart or their common value is not in the set |
| `IntervalSet.IntervalSet.Add` | src/cc/warp/interval.h:782-820 | the vector after the in-place insertions and the erasure is the specified one |
| `IntervalSet.AddWellFormed` | src/cc/warp/interval.h:632-644 | add keeps the class invariant if and only if the new upper bound is not already an end point other than the last |
| `IntervalSet.AddIsUnion` | src/cc/warp/interval.h:780-820 | under that condition the result holds exactly the old values and the interval's |
| `IntervalSet.AddLosesInterval` | src/cc/warp/interval.h:803-817 | otherwise no value of the added interval is in the result |
| `IntervalSet.AddLosesDuplicate` | src/cc/warp/interval.h:803-817 | a concrete well-formed set and interval for which add loses a value the set had |
| `IntervalSet.AddAppends` | src/cc/warp/interval.h:782-820 | an interval beyond the set is appended, as the predicate parser needs |
| `Strings.StrOrder` | src/cc/kdi/sdstore_cell.h:226-230 | the string order is a strict total order |
| `Strings.StrLessMeans` | src/cc/kdi/sdstore_cell.h:226-230 | one string is before another if and only if it is a proper prefix or has the smaller unsigned byte at the first difference |
| `Strings.PrefixBounds` | src/cc/warp/string_interval.cc:27-50 | the strings from a prefix up to its successor, if it has one, are exactly those that start with it |
| `Strings.PrefixIntervalMeaning` | src/cc/warp/string_interval.cc:52-67 | the prefix interval holds exactly the strings with the prefix, also for empty and all-0xff prefixes |
| `ScanPredicate.LexiconsValid` | src/cc/kdi/scan_predicate.cc:668-700 | string and time fields both meet what the printer and parser assume of a field |
| `ScanPredicate.OutputIntervalSet` | src/cc/kdi/scan_predicate.cc:744-770 | the printing loop over end points prints the specified tokens |
| `ScanPredicateRoundTrip.PrintedInterval` | src/cc/kdi/scan_predicate.cc:701-742 | a printed point, prefix, half-open or two-sided interval parses to its bounds, whatever follows |
| `ScanPredicateRoundTrip.PrintedSet` | src/cc/kdi/scan_predicate.cc:427-470 | a printed set, empty and multi-interval ones included, parses to the set |
| `ScanPredicateRoundTrip.PrintedPart` | src/cc/kdi/scan_predicate.cc:474-556 | each printed conjunct updates exactly its own part of the predicate |
| `ScanPredicateRoundTrip.PrintParse` | src/cc/kdi/scan_predicate.cc:773-807 | printing any predicate and parsing the result succeeds and gives one that selects exactly the same cells with the same history |
| `ScanPredicate.SelectsMeans` | src/cc/kdi/cell_filter.cc:208-238 | a cell is selected if and only if its row, column and time each lie between two end points of the set given for it |
| `ScanExpression.BoundsMean` | src/cc/kdi/scan_predicate.cc:147-260 | the end points parsed from a comparison, one-sided, equal, prefix or two-sided in either direction, hold exactly the values the comparison holds of, by the order and equality of literals |
| `ScanExpression.ParsedComparison` | src/cc/kdi/scan_predicate.cc:106-143 | every comparison of the grammar is parsed, and one whose sides point both ways is an error |
| `ScanExpression.ParsedSet` | src/cc/kdi/scan_predicate.cc:427-463 | a disjunction of comparisons of one field, in any order and direction, is parsed to the sum of its intervals |
| `ScanExpression.SumMeans` | src/cc/kdi/scan_predicate.cc:450-463 | of a list that can be summed the set holds a value if and only if some comparison holds of it |
| `ScanExpression.FreshCanBeSummed` | src/cc/warp/interval.h:803-817 | a conjunct in which no finite upper bound occurs twice can be summed, in any order |
| `ScanExpression.OneMoreExactly` | src/cc/warp/interval.h:803-817 | behind such a list one comparison more is added rightly if and only if its upper bound is not an end point of the sum before the last; otherwise every value it holds of is lost |
| `ScanExpression.ExpressionLosesTime` | src/cc/kdi/scan_predicate.cc:450-463 | an expression that is accepted and does not select a time of which two of its comparisons hold |
| `ScanExpression.MixedFields` | src/cc/kdi/scan_predicate.cc:456-459 | comparisons of two string fields joined by or are an error |
| `ScanExpression.ExpressionMeans` | src/cc/kdi/scan_predicate.cc:466-556 | a conjunction of such disjunctions and histories is accepted if and only if no comparison points both ways, no history is zero and no field is constrained twice; it then selects exactly the cells of which every conjunct has a comparison that holds |
| `ScanExpression.PrintIsShortest` | src/cc/kdi/scan_predicate.cc:701-742 | an interval is printed by the shortest comparison with its end points |
| `ColumnFamilies.IntervalInFamily` | src/cc/kdi/scan_predicate.cc:608-632 | an interval whose end points give the same family holds only columns of that family |
| `ColumnFamilies.NamesExactly` | src/cc/kdi/scan_predicate.cc:608-632 | of an interval with a column in it, both end points give family f if and only if all its columns are of f, except for an upper bound behind an f with a semicolon |
| `ColumnFamilies.FamilyBetween` | src/cc/kdi/scan_predicate.cc:655-657 | families of sorted bounds do not come back, which is why comparing with the last one is enough |
| `ColumnFamilies.GetColumnFamilies` | src/cc/kdi/scan_predicate.cc:636-663 | when no interval is empty of columns, it succeeds if and only if each is confined to one family and its upper bound can be read; then every column is in a returned family, every family is needed, and all are distinct; for the prefix intervals of any number of families it gives exactly those, unless a name has a semicolon |
| `Merge.PopConserves` | src/cc/flux/merge.h:84-100 | whenever inputs were added, what was taken and what is left are together what was piped in, with every group of equal items in input order, and taking the top keeps this |
| `Merge.PopStable` | src/cc/flux/merge.h:84-100 | taking the least head with the lowest index keeps the result a stable sorted merge of what was taken |
| `Merge.Merge.Advance` | src/cc/flux/merge.h:116-134 | the heap's top is taken and its input refilled or dropped |
| `Merge.Merge.Fetch` | src/cc/flux/merge.h:198-218 | inputs without a value get one, and nothing pending changes |
| `Merge.Merge.PipeFrom` | src/cc/flux/merge.h:158-166 | an input is added at any time, behind the others; the merge stays sorted if it starts no lower than what was returned last, and above it in a unique merge |
| `Merge.Merge.Get` | src/cc/flux/merge.h:168-196 | in any interleaving with added inputs the item returned is the least one pending, of the first input that has it, or the end is reported when all are exhausted; a unique merge consumes the duplicates and nothing else; if no input came too late it is the next item of the merge |
| `Merge.MergeAll` | src/cc/flux/merge.h:158-218 | for any number of sorted inputs the unique merge is the key-ordered overlay with the lowest index winning, the other a stable sorted merge |
| `Merge.StableMergeIsPermutation` | src/cc/flux/merge.h:168-196 | a stable merge holds exactly the items of its inputs, with multiplicity |
| `Merge.OverlayOfMerge` | src/cc/flux/merge.h:185-192 | the overlay is the stable merge with all but the first of each key removed |
| `Cells.KeyOrder` | src/cc/kdi/sdstore_cell.h:217-234 | row up, column up, timestamp down is a strict total order of keys |
| `Cells.OrderedMeans` | src/cc/kdi/sdstore_cell.h:217-234 | cells are in order if and only if rows never fall, columns never fall within a row, and timestamps fall within a row and column |
| `Cells.CellOrder` | src/cc/kdi/sdstore_cell.h:210-234 | cells compare equal if and only if their keys are equal |
| `Cells.CellMerge.Get` | src/cc/kdi/cell_merge.h:51-69 | the next cell of the overlay, with erasures skipped when they are filtered |
| `Cells.MergeCells` | src/cc/kdi/cell_merge.h:51-69 | merging sorted fragments gives, in strict cell order, exactly the first cell of each key in the first fragment that has it, erasures dropped if asked; a winning erasure hides older cells either way |
| `Cells.OverlayMembers` | src/cc/kdi/cell_merge.h:51-69 | a cell is in the overlay if and only if it is the first of its key in the first fragment that has the key |
| `CellFilter.PassesWanted` | src/cc/kdi/cell_filter.cc:120-168 | the wrapping counter lets through the latest K, or all but the latest of a negative K |
| `CellFilter.WindowExact` | src/cc/kdi/cell_filter.cc:120-168 | the window is right for a whole sequence if and only if the sequence is shorter than the counter's wrap-around length |
| `CellFilter.HistoryFilter.Get` | src/cc/kdi/cell_filter.cc:140-168 | each call returns the next cell in the window and skips none |
| `CellFilter.RankCountsNewer` | src/cc/kdi/cell_filter.cc:151-162 | in cell order the filter's position count is the number of newer cells in the same row and column |
| `CellFilter.HistoryMeaning` | src/cc/kdi/cell_filter.cc:111-169 | of an ordered stream exactly the cells with a wanted number of newer ones come out, in order |
| `CellFilter.RunFilter` | src/cc/kdi/cell_filter.cc:187-201 | the loop of a containment or erasure filter keeps exactly the cells that satisfy it |
| `CellFilter.ApplyPredicate` | src/cc/kdi/cell_filter.cc:208-250 | on any stream the chain of filters is one selection by the whole predicate followed by the history cut |
| `CellFilter.SelectedMeaning` | src/cc/kdi/cell_filter.cc:208-238 | of an ordered stream exactly the cells in the row, column and time sets remain, in order |
| `CellFilter.FilteredMeans` | src/cc/kdi/cell_filter.cc:208-250 | what comes out of the whole chain is in row, column and time order and described by the predicate, and without history it is all of that |
| `MemoryTable.InsertRepresents` | src/cc/kdi/memory_table.cc:76-102 | insertion with overwrite is a map update |
| `MemoryTable.UsageInsert` | src/cc/kdi/memory_table.cc:82-101 | how one insertion changes the sum over the current cells |
| `MemoryTable.MemoryTable.Insert` | src/cc/kdi/memory_table.cc:76-102 | order is kept, the contents are the updated map, memUsage stays the sum over current cells |
| `MemoryTable.MemoryTable.Scan` | src/cc/kdi/memory_table.cc:135-152 | a scan is refused exactly when erasures are kept and history is asked for; otherwise rows, columns and times come out in order, each returned cell is a current one whose row, column and time lie between end points of the predicate's sets, and without history all of those are returned |
| `MemoryTable.MatchesMeans` | src/cc/kdi/memory_table.cc:135-152 | the cells that scans and their histories speak of are the live ones between the end points of the predicate's sets |
| `MemoryTable.ScanMeaning` | src/cc/kdi/memory_table.cc:135-152 | the scan of a table with given contents returns, in cell order, exactly the live selected cells with a wanted number of newer live selected cells in their row and column |
| `MemoryTable.ScanHistory` | src/cc/kdi/memory_table.cc:122-152 | the same for a table built by any history of set and erase, by the last mutation of each key |
| `MemoryTable.KeptIs` | src/cc/kdi/memory_table.cc:135-152 | the stream in front of the history filter is the live selected cells of the table, in order, and counts newer cells as the table has them |
| `MemoryTable.RunKeeps` | src/cc/kdi/memory_table.cc:48-102 | the scan invariant holds after every interleaving of inserts and reads |
| `MemoryTable.ScanIsComplete` | src/cc/kdi/memory_table.h:33-70 | returned keys strictly increase, each cell read is the table's current one for its key, and a finished scan returned every key that was there at its start exactly once |
| `MemoryTable.Scanner.Get` | src/cc/kdi/memory_table.cc:62-70 | the iterator's read is the read step |
| `SyncTable.ExecutionKeeps` | src/cc/kdi/synchronized_table.cc:151-309 | in every run of any number of writers the table is the replay of one log, and each writer's part of it followed by its buffer is what it issued, in order |
| `SyncTable.SyncPublishes` | src/cc/kdi/synchronized_table.cc:261-268 | after a writer's flush all it ever issued is in the log |
| `SyncTable.PrivateKey` | src/cc/kdi/synchronized_table.cc:163-198 | a key that one writer alone touches ends as that writer's own mutations leave it |
| `SyncTable.ScanAfterWriters` | src/cc/kdi/synchronized_table.cc:151-335 | a scan at any moment of any run of buffered writers returns exactly the cells that the log of mutations calls for |
| `SyncTable.BufferedTable.Flush` | src/cc/kdi/synchronized_table.cc:163-198 | the shared table becomes the replay of the buffer, oldest first, and the buffer is empty: the flush step of the many-writers system |
| `SyncTable.BufferedTable.Put` | src/cc/kdi/synchronized_table.cc:217-236 | the mutation is buffered, and a full buffer is flushed: the issue step of the many-writers system, followed by its flush step |
| `TableScan.HistorySnoc` | src/cc/kdi/cell_filter.cc:145-167 | one more cell in front of the history filter adds that cell to its output or nothing |
| `TableScan.CountingSnoc` | src/cc/kdi/cell_filter.cc:151-166 | the filter's counter and last cell decide exactly whether |
| `TableScan.TableScan.Get` | src/cc/kdi/memory_table.cc:135-152 | read cell by cell while the table changes, a filtered scan has returned the filters' output of the cells read so far, and ends with the iterator |
| `SyncTable.BufferedScanner.FillBuffer` | src/cc/kdi/synchronized_table.cc:106-119 | over any filtered scan, the buffer is filled up unless the scan ends |
| `SyncTable.BufferedScanner.Get` | src/cc/kdi/synchronized_table.cc:134-144 | what is delivered is what the underlying scan returned, in order, and the end is its end |
| `TableCache.StepKeeps` | src/cc/kdi/synchronized_table.cc:430-486 | every section under the cache mutex, every creation and every table death keeps the invariant |
| `TableCache.OneTablePerKey` | src/cc/kdi/synchronized_table.cc:390-489 | in every interleaving at most one thread creates a table, at most one live table exists per key, and callers that overlap share it |
| `TableCache.LookDecides` | src/cc/kdi/synchronized_table.cc:430-461 | in every execution a thread that looks takes the table for its key if one is alive and installed, else waits exactly while another thread is busy creating one, and otherwise creates it |
| `Base64.CheckAlphabet` | src/cc/warp/base64.cc:35-50 | an alphabet is accepted if and only if it has 64 distinct characters |
| `Base64.PemIsAlphabet` | src/cc/warp/base64.cc:30-33 | the PEM alphabet, the letters, the digits, plus and slash in that order, is one, and is not increasing |
| `Base64.MakeTable` | src/cc/warp/base64.cc:76-84 | the decoder's table is the inverse of the alphabet and 255 elsewhere |
| `Base64.ShiftedFields` | src/cc/warp/base64.h:67-70 | the digits and bytes are the sums of the fields that the source shifts and masks |
| `Base64.DigitsAreBits` | src/cc/warp/base64.h:53-99 | the digits are the bits of the input cut in sixes and filled up with zero bits (section 4 of RFC 4648) |
| `Base64.Encode` | src/cc/warp/base64.h:53-111 | the encoder's loop and tail write the specified encoding in exactly the reserved size |
| `Base64.Decode` | src/cc/warp/base64.h:140-203 | the decoder's loop writes the specified decoding within the reserved size, for every input |
| `Base64.RoundTrip` | src/cc/warp/base64.h:133-203 | decoding an encoding with any characters from outside the alphabet put in gives the input back, within the reserved size |
| `Base64.PlainRoundTrip` | src/cc/warp/base64_unittest.cc:46-68 | decoding an encoding gives the input back, for every alphabet |
| `Base64.UndigitsRoundTrip` | src/cc/warp/base64.h:150-186 | encoding what was decoded gives the digits back if and only if there is no lone digit and the unused bits are zero |
| `Base64.EncodedOrder` | src/cc/warp/base64.h:53-99 | with an increasing alphabet, a < b exactly when the encodings compare the same way |
| `Base64.OrderKeptExactly` | src/cc/warp/base64_unittest.cc:70-130 | encoding keeps the order of all strings if and only if the alphabet is increasing |
| `Adler.Adler` | src/cc/warp/adler.cc:9-28 | the blocked loop equals the per-byte definition (section 2.2 of RFC 1950) for every input, without 32-bit overflow |
| `Adler.LzoAdler32` | src/cc/minilzo/minilzo.c:2287-2316 | the unrolled loop equals it from any starting value, and a null buffer gives 1 |
| `Adler.BlockFits` | src/cc/minilzo/minilzo.c:2279-2310 | no sum over a block leaves 32 bits, whatever the bytes and the 16-bit starts |
| `Adler.BlockIsLargest` | src/cc/minilzo/minilzo.c:2279-2279 | a block of one byte more can overflow |
| `Adler.ReduceOnce` | src/cc/warp/adler.cc:22-23 | reducing once at the end of a block equals reducing after every byte |
| `Adler.LoopsAgree` | src/cc/warp/adler.cc:9-28 | both loops compute the same number from the starting value 1 |
| `Adler.LzoComposes` | src/cc/minilzo/minilzo.c:2287-2316 | a checksum continued over a second piece is the checksum of both, from any starting value |
| `Adler.OneByteDetected` | src/cc/warp/adler.cc:9-28 | changing one byte of any input changes the checksum |

## Left out

- LZO1Y, LZO1Z and COPY_DICT branches and the library's configuration: only the LZO1X little-endian build is modelled.
- LzoFormat.Run: the memory argument is what can be read, and reads beyond it are given the value 0; `LzoLocality.OkIsLocal` shows where that does not matter.
- LzoCompressor.FindMatch: the input lies at address 0xbfff or above, as on the modelled platform; below, `LzoDictionary.CheckedOffsetExact` shows that an entry outside the input can pass the test, and what the code then reads is not modelled.
- LzoCompressor.DoCompress: the same address condition; which matches the last 13 bytes could have is not asked, as in the source.
- LzoCompressor.Compress: the same address condition.
- RecordFile.FileOutput.CompressData: the same address condition on the record's data.
- RecordFile.FileOutput.Put: the same address condition; what a stream that runs over its buffer damages is not described, and write errors are not modelled.
- RecordFile.WriteAll: the same address condition, and nothing is promised behind a record that overruns.
- RecordFile.FileRoundTrip: the same address condition, and nothing is promised behind a record that overruns.
- RecordFile.PutSample: the same address condition.
- LzoOverrun.SampleOverruns: shows one input of 283 bytes on which the search overruns; which other inputs do is not characterised.
- LzoDecompressor.DecompressSafe: needs an input of at least one byte, because the code reads the first byte unconditionally; run lengths are not cut to 64 bits, which an input shorter than 2^55 bytes cannot reach.
- RecordFile.FileInput.Get: a damaged compressed payload is one outcome, `Garbled`; the undetermined bytes the code then returns are not described.
- RecordSerializer: the header layout is any function of constant length.
- RecordBuffer.RecordBufferAllocator.Alloc: addresses do not wrap around 2^64; the temporary Record is one net reference; Record variables live in one sequence, and a destroyed one is a released one.
- RecordBuffer: getCommitSize, getAllocSize, resetReleased, swap, clone and the checked casts are easy members.
- ReadAheadLimit.LimitExact: an item of size one exists, and item sizes are at most 2^64 - readAhead.
- ThreadedReader.ExecutionKeeps: the total size of the input is below 2^64 and readAhead is positive; the enclosing ThreadedReader only creates and cancels tasks.
- IntervalSet: clip, intersect and the interval forms of contains and overlaps.
- ScanPredicateRoundTrip.PrintParse: literals are opaque tokens, so quoting of strings and the syntax of timestamps are not modelled; clipping of predicates to rows is left out.
- Merge.Merge.Advance: the heap is a set whose least element is found by search.
- MemoryTable.MemoryTable.Insert: the constant overhead per cell is a parameter; memUsage is not reduced modulo 2^64.
- SyncTable: a mutex-protected section is one step, and the table behind it is a MemoryTable.
- TableCache.OneTablePerKey: the static variables are a value state stepped by critical sections; that a waiter is woken after a failed creation (liveness) is not shown, nor are the URI rules that make the key.
- Base64.Encode: the container is an array of the final size; the output-iterator forms write the same characters.
- StringTrie, uniqp, asyncsort, logged tables, bit vectors, the tablet and network servers, file and URI plumbing, Python bindings and the small stream adapters are not part of this model.
