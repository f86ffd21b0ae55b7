# proglog storage engine in Dafny

The model covers the storage engine of proglog's `internal/log` package, an append-only, segmented commit log. It has four layers, and each is a module of classes with verified contracts:

- **Store** (`store.dfy`, module `Stores`): an append-only file of frames. Each frame is an 8-byte big-endian length followed by the payload.
  - The class keeps the flushed bytes (`file`), the bytes still buffered (`buf`) and the `size` counter.
  - Every read and `Close` flushes first. A reader therefore sees `Contents() == file + buf`.
- **Index** (`index.dfy`, module `Indices`): a fixed-capacity byte array, standing for the memory mapping and sized to `MaxIndexBytes`, with a `size` cursor.
  - It holds packed 12-byte entries. Each entry is a 4-byte big-endian relative offset followed by an 8-byte big-endian store position.
- **Segment** (`segment.dfy`, module `Segments`): one store and one index under a base offset.
  - On open, `nextOffset` is recovered from the index's last entry.
  - `Append` writes the frame, then the entry, and only then advances `nextOffset`.
  - `Read` translates an absolute offset into a 32-bit relative one.
  - A ghost sequence `records` holds the payloads. `Consistent()` ties the records to the bytes of both files.
- **Log** (`commitlog.dfy`, module `CommitLog`): the ordered sequence of segments. The last segment is the active one.
  - `NewLog` fills in the default thresholds. Bootstrap parses base offsets from `*.store` names, sorts them and opens one segment per offset.
  - `Append` rotates to a new segment when the active one is maxed.
  - `Read` searches from the newest segment back.
  - `GetOffsetRange` reports the log's offsets, and `Truncate` drops whole old segments.
  - The log's view of its segments is a sequence of `Span(base, next, records)` values (`spans.dfy`, module `Spans`). Its invariant, `Chain`, says the segments are contiguous and each holds `next - base` records. Every log operation is stated as a function on that view.

Supporting modules:

- `Bytes`: bytes, `u32`/`u64` and the big-endian codec.
- `Errors`: error kinds and `Result`.
- `Configs`: the configuration and its defaults.
- `FileNames`: segment file names, and what `path.Ext`, `strings.TrimSuffix`, `strings.Contains` and `strconv.ParseUint` make of a directory entry.
- `Sorting`: `sort.Slice` on base offsets.
- `Scenarios`: the repository's segment and log tests, restated as clients of the contracts.

Files are byte sequences. The directory is a `map<string, seq<byte>>` plus a listing `seq<string>`. Records are the opaque bytes the record codec produces. I/O failures are boolean parameters: `ioOk` for the store's buffered writes and `openOk` for opening a rotated segment's files.

Where the description of the system and the code differ, the model follows the code:

- `Truncate` removes segments before it checks whether any remain. When none remain it returns the error but leaves `segments` unreassigned, so the log still lists segments whose files are gone.
- A store frame that cannot be read in full is an end-of-file error, which is what `os.File.ReadAt` returns for a short read. The exceptions are listed under "## Left out".

The default `MaxIndexBytes` of 1024 is not a multiple of the 12-byte entry. With short records the index fills to 1020 bytes without the segment becoming maxed, so `Log.Append` never rotates and every later append fails with end-of-file (`Scenarios.DefaultIndexFillsUnmaxed`).

## Model

| member | source | states |
|---|---|---|
| Bytes.DecodeEncode | internal/log/index.go:80-81 | Reading back the big-endian bytes of any value that fits the width (`Uint32`/`Uint64` after `PutUint32`/`PutUint64`) gives the value |
| Bytes.EncodeDecode | internal/log/index.go:97-98 | A byte string is the big-endian encoding of the value it decodes to, so the codec is a bijection on each width |
| Configs.WithDefaults | internal/log/log.go:25-30 | A zero threshold becomes 1024 and a non-zero one is kept; the initial offset passes through; both thresholds end up positive |
| Configs.WithDefaultsIdempotent | internal/log/log.go:25-30 | Defaulting twice equals defaulting once, so a log reopened with its own configuration has the same thresholds |
| Stores.Frame | internal/log/store.go:53-65 | A frame is `lenWidth` (8) bytes longer than its payload |
| Stores.FileReadAt | internal/log/store.go:112 | Positional read: a negative offset is an error; otherwise the read succeeds exactly when it asks for no bytes (then at any offset, even past the end) or `off + n` is within the file, and returns those bytes; a short read returns what is there, with end-of-file |
| Stores.FrameAt | internal/log/store.go:82-98 | Reading at `pos` succeeds exactly when the 8-byte header and the payload length it announces both lie within the contents, and then returns that payload; otherwise end-of-file |
| Stores.FrameRoundTrip | internal/log/store.go:72-98 | Reading at the position where a frame for `data` was appended returns exactly `data` |
| Stores.FrameAtExtend | internal/log/store.go:47-69 | Appending bytes never changes what a readable earlier frame returns |
| Stores.Store.constructor | internal/log/store.go:29-44 | A store over an existing file has that file as its contents, an empty buffer, and `size` equal to the file's length |
| Stores.Store.Append | internal/log/store.go:47-69 | On success: `pos` is the old size, `n = 8 + len(data)`, the new size is `pos + n`, and the contents grow by exactly the frame (big-endian length, then data); the flushed file is untouched; on a write failure: zero results, size and contents unchanged |
| Stores.Store.Flush | internal/log/store.go:77 | The buffer moves into the file: the logical contents and the size are unchanged and the buffer is empty |
| Stores.Store.Read | internal/log/store.go:72-99 | Flushes, keeping the logical contents and size, and returns the frame at `pos` of the contents as they were before the call |
| Stores.Store.ReadAt | internal/log/store.go:102-113 | Flushes, then fills the first `n` bytes of `p` with the positional read of `len(p)` bytes at `off`, leaves the rest of `p` alone, and returns that read's error |
| Stores.Store.Close | internal/log/store.go:115-125 | Flushes; the file left on disk is the logical contents |
| Indices.EncodeEntry | internal/log/index.go:97-98 | An entry occupies `entWidth` (12) bytes |
| Indices.EntryRoundTrip | internal/log/index.go:80-81 | The entry decoded from the 12 bytes written for `(off, pos)` is `(off, pos)` |
| Indices.EntryBytesRoundTrip | internal/log/index.go:80-81 | Twelve bytes are the encoding of the entry they decode to |
| Indices.EntriesOf | internal/log/index.go:74-83 | The used bytes hold `size / 12` entries |
| Indices.EntriesOfAt | internal/log/index.go:75-81 | Entry `n` is the one decoded from bytes `[12n, 12n + 12)` |
| Indices.EntriesOfAppend | internal/log/index.go:97-99 | Writing an entry after whole entries adds exactly that entry at the end |
| Indices.Index.constructor | internal/log/index.go:27-56 | The mapping has capacity `MaxIndexBytes` and holds the file resized to it (zero-filled or cut); the used size is the file's old length, even when that exceeds the capacity; the entries are those of the file when it fits, and otherwise those of the file with the bytes past the mapping lost |
| Indices.Index.Read | internal/log/index.go:74-83 | For a slot the mapping can slice: fails with end-of-file exactly when `size < 12n + 12`; otherwise returns entry `n` of those written |
| Indices.Index.ReadLast | internal/log/index.go:85-91 | End-of-file on an empty index; otherwise the entry at `uint32(size/12 - 1)`, which is the last entry whenever there are at most 2^32 entries |
| Indices.Index.Write | internal/log/index.go:93-101 | Fails with end-of-file exactly when 12 more bytes exceed the capacity, and then changes nothing; on success writes the encoded entry at `[size, size+12)`, leaves every other byte as it was, grows the size by 12 and appends `(off, pos)` to the entries; a size that is a whole number of entries stays one |
| Indices.Index.Close | internal/log/index.go:58-72 | The file is left holding exactly the used bytes, so it holds the same entries |
| Segments.RelOffset | internal/log/segment.go:81 | `uint32(off - baseOffset)` is the plain difference for offsets within 2^32 above the base |
| Segments.IndexNumberedSize | internal/log/segment.go:51-56 | Over an index of entries numbered 0, 1, 2, …, the entries fill the file, number at most 2^32, and the recovered next offset is the base plus their count |
| Segments.WellFormedRecovery | internal/log/segment.go:51-57 | Over files this engine wrote, the recovered next offset is base plus the number of entries, and the recovered records agree with the index and the store |
| Segments.AgreesAppend | internal/log/segment.go:66-77 | Appending a frame to the store and the entry `(count, old store length)` to the index keeps the files in agreement with one more record |
| Segments.AgreesExtend | internal/log/segment.go:66 | Growing the store never breaks the agreement of the earlier records |
| Segments.EmptyFilesWellFormed | internal/log/segment.go:51-53 | Empty files are well formed and give no records and `nextOffset == baseOffset` |
| Segments.Segment.RecoverNextOffset | internal/log/segment.go:51-57 | The base offset for an empty index; otherwise base + the last entry's relative offset + 1, wrapping at 2^64 |
| Segments.Segment.constructor | internal/log/segment.go:18-59 | For any files on which `ReadLast` does not panic: a fresh segment with the given base and configuration, in the state the files determine, with the recovered next offset and records |
| Segments.Segment.Append | internal/log/segment.go:61-78 | It succeeds exactly when the store write succeeds and the index has room. On success it returns the old `nextOffset`, advances it by one, and the index gains `(nextOffset - baseOffset, store position)`. On failure `nextOffset` is unchanged, the error is the store's I/O error or the index's end-of-file, and the index is untouched. A consistent segment stays consistent, its records growing by exactly `data` on success. After a success the segment is maxed exactly when the old sizes plus the frame and the entry reach a threshold (`Fills`) |
| Segments.Segment.IsMaxed | internal/log/segment.go:95-98 | A segment that is not maxed is below both thresholds; it has room for one more entry when the index size and `MaxIndexBytes` are whole numbers of entries |
| Segments.Segment.Read | internal/log/segment.go:80-93 | Returns the frame the entry for `uint32(off - baseOffset)` points at, or end-of-file; on a consistent segment, exactly the record at that relative offset or end-of-file past the last one; contents and consistency are kept |
| Segments.Segment.Close | internal/log/segment.go:113-121 | Leaves on disk the store's logical contents and exactly the used index bytes, with the same entries; keeps consistency |
| Segments.Segment.Remove | internal/log/segment.go:100-111 | Closes and marks the segment removed; its contents and size are as before |
| Segments.ClosedFilesRecover | internal/log/segment.go:51-56 | What a consistent segment leaves on disk is well formed and reopens to the same next offset and the same records |
| Segments.PristineState | internal/log/segment.go:18-59 | A just-opened segment holds the files' bytes, the index's entries, and the offset and records recovered from them |
| Segments.OpenedConsistent | internal/log/segment.go:51-57 | A segment just opened over well-formed files is consistent |
| FileNames.Decimal | internal/log/segment.go:26 | `%d` formatting gives a non-empty digit string whose value is the number |
| FileNames.ParseDigitsValue | internal/log/log.go:55 | The digit loop of `ParseUint` from a prefix ends with the string's value, or the largest `uint64` on overflow |
| FileNames.ParseDigitString | internal/log/log.go:55 | `ParseUint` of a digit string is its value, saturated at the largest `uint64` |
| FileNames.ParseDecimal | internal/log/log.go:54-55 | Parsing the decimal name of a base offset gives back that offset |
| FileNames.Ext | internal/log/log.go:54 | `path.Ext` is empty or a suffix of the name starting with a dot |
| FileNames.TrimSuffix | internal/log/log.go:54 | Removes the suffix exactly when the name ends with it, and otherwise returns the name |
| FileNames.StoreBases | internal/log/log.go:50-58 | Bootstrap collects at most one base offset per directory entry |
| FileNames.ExtOfSuffix | internal/log/log.go:54 | A name ending in a dot and dot-free, slash-free characters has that ending as its extension |
| FileNames.StoreNameBase | internal/log/log.go:53-55 | A segment's `<base>.store` file passes the filter and parses back to `base` |
| FileNames.IndexNameSkipped | internal/log/log.go:52-53 | A segment's `<base>.index` file does not pass the filter, so each segment is found once |
| FileNames.NonNumericStoreName | internal/log/log.go:55 | `foo.store` passes the filter and yields base offset 0, since the parse error is ignored |
| FileNames.DottedStoreName | internal/log/log.go:54-55 | `7.store.bak` passes the filter, loses only `.bak`, and yields base offset 0 |
| FileNames.ParseExamples | internal/log/log.go:55 | `ParseUint` gives 0 for `""`, 12 for `"12"` and 0 for `"1x"` |
| Sorting.SortAscending | internal/log/log.go:59-61 | Sorting keeps the number of base offsets |
| Sorting.InsertPermutes | internal/log/log.go:59-61 | Inserting adds exactly one element |
| Sorting.InsertAscending | internal/log/log.go:59-61 | Inserting into an ascending sequence keeps it ascending |
| Sorting.SortAscendingPermutes | internal/log/log.go:59-61 | Sorting is a permutation of the collected offsets |
| Sorting.SortAscendingSorted | internal/log/log.go:59-61 | The sorted offsets are ascending |
| Sorting.AscendingUnique | internal/log/log.go:59-61 | Two ascending permutations of the same offsets are equal, so the unstable sort has a single outcome |
| Sorting.SortAscendingIdentity | internal/log/log.go:59-61 | Sorting offsets that are already ascending leaves them unchanged |
| Spans.ChainPrefix | internal/log/log.go:83 | A prefix of a contiguous segment list is contiguous |
| Spans.ChainOrdered | internal/log/log.go:106-111 | Along the log, a later segment starts at or after the end of an earlier one |
| Spans.ChainWithin | internal/log/log.go:140-146 | Every segment's range lies within `[lowest, highest]` |
| Spans.FlattenLength | internal/log/log.go:140-146 | The log holds exactly `highest - lowest` records |
| Spans.FlattenAt | internal/log/log.go:106-110 | The record at `off` in the segment covering it is the log's record `off - lowest` |
| Spans.CoverIff | internal/log/log.go:106-112 | Some segment covers `off` if and only if `lowest <= off < highest` |
| Spans.CoverUnique | internal/log/log.go:106-110 | At most one segment covers an offset, so the search order does not matter |
| Spans.AppendLast | internal/log/log.go:91 | An append keeps the number of segments |
| Spans.ChainAppend | internal/log/log.go:91 | Appending to the active segment keeps the log contiguous, adds the record at the end, keeps `lowest` and raises `highest` by one |
| Spans.ChainRotate | internal/log/log.go:95-97 | A new empty segment at the old `nextOffset` keeps the log contiguous with the same records and range |
| Spans.ChainAppended | internal/log/log.go:88-99 | An append, with or without rotation, keeps the log contiguous, adds the record at the end, keeps `lowest`, raises `highest` by one, and rotation adds one empty segment |
| Spans.Kept | internal/log/log.go:151-161 | Truncation never adds segments |
| Spans.KeptSuffix | internal/log/log.go:151-161 | The kept segments are a suffix: truncation removes whole leading segments |
| Spans.KeptNone | internal/log/log.go:163-167 | When the last segment ends at or below the threshold, no segment is kept |
| Spans.DropCountSplit | internal/log/log.go:153-161 | A segment ends at or below the threshold exactly when it is among the first `d` |
| Spans.ChainDrop | internal/log/log.go:163-164 | A non-empty suffix of the log is contiguous |
| Spans.ChainSuffix | internal/log/log.go:163-164 | A non-empty suffix is contiguous and holds the tail of the log's records from its base on |
| Spans.KeptFrom | internal/log/log.go:151-168 | Truncation keeps the suffix from `d` on: exactly the segments past the threshold, some of them exactly when the threshold is below `highest`, and they form a log holding the tail of the records |
| Spans.ChainTruncate | internal/log/log.go:151-168 | Nothing is kept exactly when `highest <= threshold`; otherwise the kept segments are contiguous, still end with the active segment, and hold the records from their new lowest offset on |
| CommitLog.BootBasesOrder | internal/log/log.go:59-74 | Bootstrap registers at least one segment, in ascending order: a permutation of the parsed bases, or the initial offset alone when no store file is listed |
| CommitLog.CollectBases | internal/log/log.go:49-58 | The filter-and-parse loop collects, in listing order, the parsed base of every name containing `.store` |
| CommitLog.NewLog | internal/log/log.go:23-39 | For any directory whose index files do not make `ReadLast` panic: the log has the defaulted configuration, at least one segment, the bootstrap bases in order, the last segment active, and every segment opened over its own files |
| CommitLog.RecoveredConsistent | internal/log/log.go:42-76 | A bootstrapped log over files this engine wrote, whose segments are contiguous, satisfies the log invariant |
| CommitLog.Log.constructor | internal/log/log.go:32-35 | An empty log with the defaulted configuration and no active segment |
| CommitLog.Log.Bootstrap | internal/log/log.go:42-76 | The segments are opened at the bootstrap bases, in order, the last one active, each over its files |
| CommitLog.Log.OpenSegments | internal/log/log.go:63-67 | The registering loop opens one segment per given base, in order |
| CommitLog.Log.OpenNext | internal/log/log.go:63-67 | One turn of the loop registers the segment at the next base |
| CommitLog.Log.AppendActive | internal/log/log.go:91-94 | The active segment takes the record exactly when its write succeeds and its index has room; on success the offset is its old next offset and the log's view grows by the record; on failure the view is unchanged and the error propagates |
| CommitLog.Log.Append | internal/log/log.go:88-99 | Keeps the log invariant. On acceptance: the offset is the old `highest`, the record is at the end of the log, and a new empty segment follows at the next offset exactly when the append leaves the segment maxed and opening succeeds. A failed rotation keeps the record and returns an error. A refused append returns offset 0 and its error and leaves the log's view as it was (the store may keep an orphan frame) |
| CommitLog.Log.RotateIfMaxed | internal/log/log.go:95-97 | Registers the next segment exactly when the active one is maxed; reports a failed open |
| CommitLog.Log.Rotate | internal/log/log.go:95-96 | A new empty segment at the log's next offset becomes last and active; the log stays consistent with the same records |
| CommitLog.Log.RegisterEmpty | internal/log/log.go:78-86 | Rotation's registration: the new segment at `base` is empty, healthy and last and active, the view grows by the empty span `[base, base)`, and no earlier segment changes |
| CommitLog.Log.RotatedStep | internal/log/log.go:83-84 | Appending a healthy segment to unchanged healthy ones, keeping the log contiguous, keeps the invariant |
| CommitLog.Log.FindSegment | internal/log/log.go:106-111 | Returns the last segment whose range holds `off`, or -1 when none does |
| CommitLog.Log.Read | internal/log/log.go:101-113 | Keeps the log and its view; returns the log's record at `off` when `lowest <= off < highest`, and the out-of-range error otherwise |
| CommitLog.Log.NoneCovers | internal/log/log.go:112 | When the search finds no segment, no span of the log covers `off` |
| CommitLog.Log.ReadFrom | internal/log/log.go:108-109 | Reading from the covering segment returns the log's record at `off` and keeps the log |
| CommitLog.Log.ReadAt | internal/log/log.go:108-109 | A segment covering `off` holds, at the relative offset, the log's record at `off` |
| CommitLog.Log.GetOffsetRange | internal/log/log.go:140-146 | On a consistent log, `(lowest, highest)` of its view, with exactly `highest - lowest` records |
| CommitLog.Log.Truncate | internal/log/log.go:148-169 | Each segment is removed exactly when its next offset is at most `offset + 1` (64-bit). The error is returned exactly when every segment is removed, and then `segments` is as before. Otherwise the log keeps the invariant and its view is the kept segments |
| CommitLog.Log.Sweep | internal/log/log.go:153-161 | The loop removes exactly the segments at or below the threshold, and collects the others in order |
| CommitLog.Log.SweepAt | internal/log/log.go:154 | A segment the sweep keeps leaves the sweep state as it was |
| CommitLog.Log.SweepDone | internal/log/log.go:153-161 | After the sweep, a segment is removed exactly when its next offset is at most the threshold |
| CommitLog.Log.Retain | internal/log/log.go:163-165 | Keeping the collected segments restores the log invariant, with the kept suffix as the view |
| CommitLog.Log.SweepStart | internal/log/log.go:151-153 | The sweep starts on a consistent log with nothing removed |
| CommitLog.Log.SweptView | internal/log/log.go:153-161 | Removing segments does not change the log's view of them |
| CommitLog.Log.RemoveAt | internal/log/log.go:154-157 | Removing one segment leaves the others as they were |
| CommitLog.Log.TruncatedKept | internal/log/log.go:163-164 | After the sweep, the kept segments are still owned, healthy and pairwise apart, and the log sees them as the suffix of its old view, a chain |
| CommitLog.Log.Assemble | internal/log/log.go:163-165 | Owned, healthy, pairwise apart segments ending with the active one, whose view is a chain, make a consistent log |
| CommitLog.Log.RegisterNewSegment | internal/log/log.go:78-86 | The new segment at `base`, opened over its files, is appended and becomes active; the view grows by its span |
| CommitLog.Log.Attach | internal/log/log.go:83-84 | The segment is appended and made active, and the log owns its objects |
| CommitLog.Log.KeepsRecovered | internal/log/log.go:78-86 | Registering one more segment keeps every segment opened over its files |
| Scenarios.OpenTestSegment | internal/log/segment_test.go:19-24 | A segment at base 16 over no files starts at offset 16 with no records |
| Scenarios.AppendReadOne | internal/log/segment_test.go:26-40 | One round of the segment test: the append returns `16 + i` and the read returns the data |
| Scenarios.AppendToFull | internal/log/segment_test.go:42-48 | With three entries in a 36-byte index the segment is maxed and a fourth append fails with end-of-file |
| Scenarios.SegmentAppendRead | internal/log/segment_test.go:12-49 | The whole segment test: offsets 16, 17, 18; each record read back; maxed; the fourth append fails with end-of-file |
| Scenarios.LogAppendTruncate | internal/log/log_test.go:32-75 | With a 32-byte store, three appends give offsets 0, 1, 2, rotating after the second; the range is `(0, 3)`; offset 5 is out of range; after `Truncate(1)` offset 0 is out of range |
| Scenarios.TruncateMaxOffset | internal/log/log.go:154 | `Truncate(MaxUint64)` wraps `offset + 1` to 0 and so keeps every segment of a non-empty log |
| Scenarios.OpenDefaultSegment | internal/log/log.go:25-30 | A segment opened over no files with the thresholds `NewLog` fills in for a zero configuration is empty at its base |
| Scenarios.AppendOneByte | internal/log/segment.go:61-98 | Under the default thresholds, each of the first 85 one-byte appends is accepted at the next offset and leaves the segment not maxed |
| Scenarios.DefaultIndexFillsUnmaxed | internal/log/segment.go:95-98 | Under the default 1024-byte index, 85 one-byte records get offsets 0 to 84 and the segment is never maxed, so the log would not rotate; the 86th append fails with end-of-file and `nextOffset` stays 85 |

## Left out

- File-system calls are left out (`os.OpenFile`, `os.Stat`, `os.Truncate`, `os.Remove`, `os.RemoveAll`, `ioutil.ReadDir`, `File.Sync`), and so are their errors. Files are byte sequences, and the directory is a map and a listing given as inputs.
- Only the buffered writes of a store append and the opening of a rotated segment can fail, through the parameters `ioOk` and `openOk`.
- Store appends are all-or-nothing. A write failure between the length and the payload, which can leave a torn frame, is not modelled.
- Memory mapping (`gommap`) and `bufio.Writer` internals are abstracted as an array and a pending-bytes buffer.
- Locks (`sync.Mutex`, `sync.RWMutex`) are left out because the model is sequential.
- `log.Println` diagnostics are left out because they are output only.
- The protobuf codec (`proto.Marshal`/`Unmarshal`) is a foreign library, and records are its opaque output bytes. A failing unmarshal or marshal is not modelled.
- `Log.Close`, `Log.Remove`, `Log.Reset` and `cmd/server/main.go` are teardown and process start-up, not part of the engine's state.
- Use of a log or segment after `Close`/`Remove` is not modelled.
- Segments.Segment.Append: requires `nextOffset - baseOffset < 2^32`, `nextOffset + 1 < 2^64` and a store size that stays below 2^64, instead of modelling the `uint32` cast wrapping. `Read` does model that wrap.
- Stores.Store.Read: `int64(pos)` is negative for every `pos` of at least 2^63, whatever the store's size. The source then returns a negative-offset error where the model returns end-of-file.
- Stores.Store.Read: a header announcing a length that `make` cannot allocate makes the source panic before any read. The model returns end-of-file for it.
- Stores.Store.Append: `bufio.Writer` keeps its first write error. After one failed append the source fails every later `Append`, `Read`, `ReadAt` and `Close`, since each flushes first. The model lets each later call succeed.
- Indices.Index.Read: requires that slot `n`, when within the used size, lies inside the mapping. An index file longer than `MaxIndexBytes` opens with a used size past the mapping, and reading such a slot makes the source panic.
- Segments.Segment.constructor: requires that `ReadLast` does not panic, that is, that the index file's last slot lies inside the mapping. Longer index files open, with the bytes past the mapping lost. The same condition (`Openable`) is required by `NewLog`, `Bootstrap`, `OpenSegments`, `OpenNext` and `RegisterNewSegment`.
- CommitLog.Log.Rotate: the rotated segment's files are taken to be absent, so it opens empty. A stale `<offset>.store` already in the directory would be appended to in the source.
- CommitLog.Log.Append: states the log's view and the invariant, but not the exact store and index sizes of the active segment afterwards. Those are in `AppendActive`.
- CommitLog.NewLog: does not itself promise consistency. That follows by `RecoveredConsistent` when the files are ones this engine wrote and their segments are contiguous.
- CommitLog.Log.Truncate: a `Remove` error, which makes the source return early, is not modelled.
- Segments.Segment.Remove: ensures only that a consistent segment stays consistent, not the converse.
- `sort.Slice` is modelled on values, as a pure insertion sort, because the sort's result on integers is unique (`AscendingUnique`).
- The store test (`store_test.go`) is not written as a client method. Its round trip is `FrameRoundTrip` and `FrameAtExtend` together with the contracts of `Store.Append` and `Store.Read`.
- The log test's steps are stated on the log's view (`LogAppendTruncate`), not as a client of the `Log` class.
- Reopening a log (`testInitExisting`) is not a method. Its per-segment part is `ClosedFilesRecover` and `StoreNameBase`.
