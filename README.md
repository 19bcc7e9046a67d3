# snapsdb day-file engine in Dafny

This project models the storage core of snapsdb, a time-series store written
in Go that keeps one binary file per day.

Each day file has three parts:

- a 16-byte header: the magic word and the day's baseline;
- a table of 86400 eight-byte slots, one per second of the day;
- an append-only data region of frames.

A frame holds a 64-bit timestamp, a 32-bit offset of the next frame of the
same second, a 32-bit payload length and the payload. A slot holds the
offsets of the first frame and the last frame stamped with its second, or 0
when the second has no records.

The model is organised by module:

- `Bytes`: little-endian encodings, and reads and writes at an offset, over
  `seq<byte>`.
- `Layout`: the constants and the slot record of typed.go, plus the error
  values.
- `DayImage`: the image of a day file as values, with these functions:
  - `InitImage`: what `init` writes;
  - `SlotAt` and `StoreSlot`: the slot arithmetic of `ReadMateInfo` and
    `writeMateInfo`;
  - `Batch` and `WriteImage`: a batched write;
  - `LoopRun`: the chain-walk loop of the Go code pass by pass, with the
    answer it gives if it leaves within n passes;
  - `Walk`: the same walk on a chain whose links lead forward, as every
    chain the engine lays out does;
  - `GuardedWalk`: the walk that also stops at a link back to a frame it
    has already read, which ends on every file.

  It also holds the ghost invariant `WellFormed` over a `Shape`, which lists
  the frames and, for each second, its chain of frame offsets.
- `DayProofs` and `WriteProofs`: facts about those functions. For example,
  `init` yields a well-formed empty file, a write keeps the file well formed
  and appends its records to exactly one chain, and every chain it lays out
  leads forward, so its walk ends.
  They also show that `GuardedWalk` returns what the Go loop returns
  wherever that loop leaves.
- `StoreFiles`: the `storeFile` object as a class over its bytes. Its
  methods follow the Go code step by step (the `init` loop, the write
  loop, the chain-walk loop, the range loop) and are proved against the
  `DayImage` functions. It also holds `loadStoreFile`.
- `SnapsDB`: the `defaultDB` engine as a class. The disk is a map from day
  baseline to file bytes, and `opendFiles` is a map from baseline to a
  `StoreFile`. It also holds `InitDB` with its options, and the
  specification functions of the two queries.
- `TacticsCheck`: the retention sweep `checkDBStorage` over a given list of
  directory entries, and the process-wide registry `_db_instances` with its
  `_initcheck` flag, as a class.
- `Findings`: the discrepancies in the Go code listed under Findings
  below, each shown on a concrete file image.

The protobuf codec is a pair of function parameters: `encode` and `decode`,
each of which may fail. `util.GetUnixOfDay` becomes an engine field `dayOf`,
which is only required to put every second into its own day.

## Model

| member | source | states |
|---|---|---|
| Bytes.U32OfLe32 | storefile.go:245-246 | a uint32 stored with PutUint32 reads back with Uint32 |
| Bytes.I64OfLe64 | storefile.go:278-279 | an int64 written little-endian reads back as the same int64 |
| DayProofs.InitImageEmpty | storefile.go:273-286 | init's image is exactly 691216 bytes, every slot of the day reads (0, 0), and the file is well formed with no frames |
| DayProofs.InitImageHeader | storefile.go:278-279 | the image holds the magic word 7089841687217925715 at offset 0 and the baseline at offset 8 |
| StoreFiles.StoreFile.Init | storefile.go:273-286 | the loop that writes the header and 86400 zero slots builds InitImage, a well-formed empty file, with end = begin + 86400 (storefile.go:55) |
| StoreFiles.StoreFile.ReadMateInfo | storefile.go:227-238 | "beyond the scope" when t < begin or t > end; otherwise the two words at 16 + 8(t − begin), with zeros past the end of the file or after Close |
| StoreFiles.StoreFile.WriteMateInfo | storefile.go:240-251 | the same inclusive bound; otherwise the file is the old one with the slot of t stored, or unchanged once closed |
| DayProofs.SlotRoundTrip | storefile.go:227-251 | a slot stored for t reads back as stored, and every other slot in the checked range reads as before |
| Findings.EndSlotReadsFirstFrame | storefile.go:227-238 | the "slot" of t = end lies at offset 691216 and reads the two timestamp words of the first frame |
| StoreFiles.EncodeAllItems | storefile.go:197-202 | a batch encodes exactly when every item encodes, giving one payload per item in order |
| StoreFiles.EncodePrefixFails | storefile.go:199-202 | once an item fails to encode, the whole batch fails |
| StoreFiles.EncodeBatch | storefile.go:189-212 | the write loop's buffer is Batch: the frames laid out from the old end of file, each pointing at the next and the last at 0; it also returns the position of the last frame; an item that fails to encode ends the loop with nothing built |
| StoreFiles.AddFrame | storefile.go:198-211 | one pass of the write loop: the buffer of the frames laid out so far grows to the buffer of the longer batch, the new frame pointing at the one that will follow it (at 0 when it is the last), and it becomes the batch's tail |
| StoreFiles.StoreFile.Stage | storefile.go:190-196 | with the old tail's link offset and the new slot's first frame taken as the Go code takes them, the new slot is the one the write image stores, so the file becomes WriteImage, stays well formed and gains the batch in its frame list |
| DayProofs.BatchLength | storefile.go:197-212 | the buffer is Σ(16 + len(payload)) bytes long |
| DayProofs.BatchFrame | storefile.go:203-211 | frame i of the buffer starts after the frames before it and carries t, the offset of frame i+1 (0 for the last) and payload i |
| StoreFiles.StoreFile.Write | storefile.go:171-225 | an empty batch returns nil and changes nothing; a second outside the day is refused; a closed file fails; an encode failure changes nothing; otherwise the file becomes WriteImage and stays well formed |
| StoreFiles.StoreFile.WriteBatch | storefile.go:184-212 | with the slot of t read, an encode failure returns the error before any byte is written, otherwise the image is WriteImage |
| StoreFiles.StoreFile.Commit | storefile.go:213-223 | the old tail's next link is set to the old end of file, the buffer is appended there and the new slot is stored |
| WriteProofs.WriteImageParts | storefile.go:213-223 | after a write the batch sits at the old end of file, the old tail points at it, and below the old end only that link and the slot of t change; the slot of t is the new slot |
| StoreFiles.SlotIs | storefile.go:190-203 | the new slot keeps a non-zero first and otherwise takes the old end of file; its last is the offset of the batch's last frame |
| WriteProofs.WriteKeepsWellFormed | storefile.go:171-225 | a write that fits below 2^32 bytes grows the file by the batch's size and keeps it well formed, with the batch's frames added to the chain of t |
| WriteProofs.WriteAppendsRecords | storefile.go:190-223 | the records on the chain of t become the old records followed by the batch, in order |
| WriteProofs.WriteKeepsOthers | storefile.go:171-225 | every other second keeps its chain and its records |
| DayProofs.WalkAlongChain | storefile.go:139-166 | along a laid-out chain, whose offsets strictly increase, the walk ends and returns the decodable payloads of the chain in order |
| DayProofs.WalkOutsideU32 | storefile.go:147-148 | a second outside [0, 2^32) finds nothing, since the walk compares only the low word of the stamp |
| DayProofs.TimelineOfWellFormed | storefile.go:133-169 | in a well-formed file, the walk from the slot of s ends with the decodable records of s's chain |
| StoreFiles.WalkChain | storefile.go:139-166 | the loop ends on every file and equals GuardedWalk: it stops at offset 0, fails on a short header read, stops at a mismatching stamp, skips undecodable payloads, and stops after a frame whose next link leads back to a frame already read; for every n within which the Go loop leaves, forward links or not, it returns what the Go loop returns, and on a forward chain it returns Walk |
| DayProofs.GuardedWalkWhereLoopEnds | storefile.go:139-166 | wherever the Go loop leaves within some number of passes, whatever its links, the guarded walk returns exactly what it returns |
| DayProofs.WalkIsLoopRun | storefile.go:139-166 | on a chain whose links lead forward the Go loop leaves within two passes more than the file has bytes, with Walk's answer |
| DayProofs.GuardedWalkAgrees | storefile.go:139-166 | on a chain whose links lead forward the guarded walk is Walk |
| DayProofs.CycleNeverLeaves | storefile.go:140-165 | a loop as written that comes back to its starting frame after p ≥ 1 passes leaves within no number of passes |
| StoreFiles.StoreFile.QueryByTimeline | storefile.go:133-169 | the query of t is Timeline: refused outside [begin, end), so also at t = end, which the Go bound admits (the storefile.go:228 finding); empty once closed; otherwise the walk from the slot's first frame |
| StoreFiles.TimelineOfStored | storefile.go:133-169 | in a well-formed open file the query of a second of the day succeeds with exactly the records stored for it |
| StoreFiles.WriteThenQuery | storefile.go:133-225 | a write at t then a query of t returns the old result followed by the batch's decodable records (for t < 2^32); every other second returns what it did |
| StoreFiles.StoreFile.QueryBetween | storefile.go:72-106 | a range missing the day is refused; otherwise every second of [lo, hi] inside the day gets an entry with its stored records, even when it has none |
| StoreFiles.StoreFile.Scan | storefile.go:88-104 | the loop over the seconds equals Between: each result is entered under its second, a short read enters an empty list, and any other error stops the loop |
| StoreFiles.StoreFile.QuerySecond | storefile.go:89-103 | one turn of that loop: a query that fails with anything but a short read stops Between with that error and the map as it was; otherwise its result, an empty list for a short read, is entered under the second and Between goes on from the next second |
| StoreFiles.WindowOfWellFormed | storefile.go:75-104 | on a well-formed file the clamped loop never fails and adds exactly the seconds of [lo, hi] inside the day |
| StoreFiles.StoreFile.Close | storefile.go:267-272 | the file is marked closed and its bytes are kept |
| StoreFiles.LoadStoreFile | storefile.go:54-70 | an existing file is opened with its contents; a missing one is initialised when autoCreated is set, otherwise ErrorDBFileNotHit |
| Findings.AsWrittenEndQueryReadsFrame | storefile.go:227-238 | after the first write of a day, the slot queryByTimeline reads for second end is (begin, 0), although nothing was stored for end, so its walk starts at file offset begin |
| Findings.AsWrittenEndWriteCorrupts | storefile.go:240-251 | a write at second end overwrites the first frame's high stamp word, and no shape makes the file well formed any more |
| Findings.AsWrittenMidnightRefused | storefile.go:75-78 | as written, a range ending exactly at the baseline is refused; the corrected Window enters the baseline second's records |
| Findings.AsWrittenEndEntry | storefile.go:75-104 | as written (clamp to TimelineEnd, loop with `i <= length`), a range reaching past the day, on a day whose first write put one record in a file shorter than the baseline, succeeds with the corrected Window's map plus an empty list under the next day's midnight, a key Window never has |
| Findings.SelfLinkLoops | storefile.go:140-165 | at a frame of t whose next link names the frame itself, the loop as written is still at that frame after any number of passes |
| Findings.AsWrittenCorruptChainLoops | storefile.go:133-166 | in a day file whose first frame links back to itself, the query of the baseline second never leaves the loop as written, within any number of passes, while the guarded walk returns that frame's record |
| SnapsDB.ApplyInOrder | snapsdb.go:30-32 | options are applied first to last, each seeing what the earlier ones set |
| SnapsDB.LastDataPathWins | options.go:8-12 | the last WithDataPath decides the data path, whatever options follow that do not set it |
| SnapsDB.InitDB | snapsdb.go:25-48 | the options are applied in order to the defaults ("./snapdb", seven days); a failing Abs or MkDirIfNotExist is an error; otherwise a valid engine with the absolute path, the retention and an empty cache |
| SnapsDB.DefaultDB.constructor | snapsdb.go:41-45 | a new engine with the given path and retention and an empty opendFiles |
| SnapsDB.DefaultDB.LoadFile | snapsdb.go:169-182 | a cached file is returned unchanged; loading a file that exists leaves the disk as it was; otherwise the loaded file is cached only on success; a missing file with autoCreated false is ErrorDBFileNotHit and changes nothing; with autoCreated the file is created on disk |
| SnapsDB.DefaultDB.Open | snapsdb.go:173-180 | the load of a baseline that is not cached: a fresh file object added to the cache, or ErrorDBFileNotHit with nothing changed |
| SnapsDB.CreateKeepsTimeline | storefile.go:57-60 | creating a missing day file keeps the disk well formed, and every query returns what it did |
| SnapsDB.DefaultDB.FreeFile | snapsdb.go:184-192 | only the entry for b is closed and evicted, every other entry is kept, and nothing happens when b is not cached |
| SnapsDB.DefaultDB.DeleteStorageFile | snapsdb.go:194-203 | "file not found" when t's day has no file; otherwise that file is evicted from the cache and removed from disk, and nil is returned |
| SnapsDB.DeleteForgets | snapsdb.go:194-203 | after the delete, queries of that day return nothing and queries of other days return what they did |
| SnapsDB.DefaultDB.QueryTimeline | snapsdb.go:112-124 | a day without a file returns nil with the list untouched; otherwise the file's records for t are appended to the caller's list; the cache gains exactly the file of t's day when it was not cached, and is otherwise unchanged |
| SnapsDB.TimelineAnswerOk | snapsdb.go:112-124 | on a well-formed disk the query never fails, and appends exactly the records stored at t |
| SnapsDB.DefaultDB.Write | snapsdb.go:159-167 | the file of t's day is loaded with autoCreated, so it exists afterwards; the disk then holds that file after storeFile.Write; the cache is unchanged when the day was cached, and otherwise gains exactly a fresh file for it, which is all the footprint gains |
| SnapsDB.DefaultDB.Store | snapsdb.go:166 | the write into the cached file of t's day, whose new bytes are that day's file on disk |
| SnapsDB.WriteKeepsDisk | snapsdb.go:159-167 | a write keeps every file on disk well formed |
| SnapsDB.WriteThenQueryTimeline | snapsdb.go:159-167 | through the engine, a write at t then a query of t returns the old records plus the batch's, and every other second of every day returns what it did |
| SnapsDB.DefaultDB.QueryBetween | snapsdb.go:126-157 | a reversed range is refused before any file is loaded; otherwise baselines from lo's day are visited in steps of a day while ≤ hi, days without a file are skipped, the first file error aborts with the caller's map unchanged, and only a complete walk replaces it; the cache keeps its entries, gains only visited days, and after a complete walk holds every visited day that has a file |
| SnapsDB.DefaultDB.QueryDay | snapsdb.go:146-152 | one day of the walk: no file adds nothing, otherwise the day file's range query; the cache gains exactly that day's file when it was not cached |
| SnapsDB.RangeCovers | snapsdb.go:138-154 | on a well-formed disk the walk never fails and gives every second of [lo, hi] whose day has a file its stored records, and nothing else |
| SnapsDB.BetweenAnswerCovers | snapsdb.go:126-157 | a range query that is not reversed succeeds with exactly the seconds of [lo, hi] on days with files |
| TacticsCheck.HasSuffixIff | tacticscheck.go:76 | strings.HasSuffix holds exactly when the path is something followed by ".bin" |
| TacticsCheck.Cut | tacticscheck.go:79 | strings.Cut finds a separator exactly when there is one; the text before it contains none, and the parts rebuild the name |
| TacticsCheck.StampIff | tacticscheck.go:76-82 | an entry is acted upon exactly when it was read without error, is not a directory, has a path ending in ".bin", and has a name "stem.rest" with a dot-free stem that parses; the number is that stem's parse |
| TacticsCheck.DoomedIff | tacticscheck.go:74-91 | a day is deleted by the sweep exactly when some selected entry's number is expired and lies in that day |
| TacticsCheck.CheckDBStorage | tacticscheck.go:74-91 | the sweep removes exactly the doomed days from disk and from the cache, ignoring "file not found", and keeps the engine valid |
| TacticsCheck.Expire | tacticscheck.go:76-89 | one entry of the walk: DeleteStorageFile is called iff the entry is selected and IsExpired holds for its number |
| TacticsCheck.Registry.constructor | tacticscheck.go:17-22 | an empty registry with the flag unset and no monitor started |
| TacticsCheck.Registry.RegisterDB | tacticscheck.go:24-37 | a directory already registered is an error and changes nothing, the db's disk and cache included; otherwise the db is registered, its doomed days leave its disk and its cache in one sweep at now, and the flag is set with exactly one monitor started |
| TacticsCheck.Registry.Refresh | tacticscheck.go:17-22 | a registry that is sound, each db valid under its own directory with its own store files, becomes valid again with the same databases, flag and monitors, its footprint brought up to date |
| TacticsCheck.Registry.Admit | tacticscheck.go:30-35 | the db enters under its directory; the flag becomes true and the monitor is started once, however many registrations follow |
| TacticsCheck.Registry.UnRegisterDB | tacticscheck.go:39-49 | a registered directory is removed; otherwise "db not open" and nothing changes; the flag is never reset |
| TacticsCheck.Registry.SystemCheckCall | tacticscheck.go:65-72 | every registered db is swept with the same now: each loses exactly its own doomed days, from its disk and from its cache, and keeps its store files; the registry, its databases and its footprint stay as they were |
| TacticsCheck.Registry.Sweep | tacticscheck.go:70 | the registered db under dir loses exactly its doomed days, from its disk and from its cache; every other registered db is unchanged, and the registry stays valid with the same footprint |
| TacticsCheck.InUse | tacticscheck.go:17-22 | while one registered db is used, adding only store files it has just loaded and touching no other db, the registry stays sound |

## Left out

- Mutexes, goroutines, tickers and signals are not modelled; lock and unlock are no-ops. The two `monitorRetention` loops (snapsdb.go:205-236, tacticscheck.go:51-63) are not modelled either. `InitDB`'s per-database monitor is not started. In the registry, the monitor `registerDB` starts is counted in a ghost field, not run. The per-database monitor parses names with bit size 8 (snapsdb.go:221), so it could not delete any real day file.
- The reflection adapters `parseMapInterface`, `parseSliceInterface` and `GetReflectKey` are not modelled. Result maps are keyed by Unix second, and the time-key format is stored but not used.
- protobuf `Marshal` and `Unmarshal` are the parameters `encode` and `decode`.
- `util.GetUnixOfDay` is the abstract `dayOf`: time zones and the calendar are not modelled.
- `FileExist`, `os.Create`, `os.Remove`, `filepath.Abs` and `MkDirIfNotExist` are not modelled as calls.
  - The directory is a map from baseline to bytes.
  - Abs and MkDir failures are the parameters `abs` and `mkdir`.
  - A failing `os.Create` or `os.OpenFile` is not modelled, so loading with autoCreated always succeeds.
- I/O errors of ReadAt, WriteAt and Seek are not modelled, except the short header read of the chain walk.
- StoreFiles.StoreFile.Open: assumes every day file present at start was written by this engine, so it is well formed. The Go `open` checks neither the magic word nor the size, and a truncated or foreign `.bin` file makes queries return garbage, or loop for ever (see Findings).
- StoreFiles.LoadStoreFile: assumes the same of an existing day file it opens.
- SnapsDB.DefaultDB.constructor: assumes every day file on the disk it is given is well formed.
- SnapsDB.InitDB: assumes every day file already in the data directory was written by this engine, so it is well formed; `InitDB` never reads the directory.
- StoreFiles.StoreFile.QueryByTimeline: refuses t = end, which the Go bound lets through to read the first frame's stamp as a slot; this is the correction of the storefile.go:228 finding.
- StoreFiles.WalkChain: stops after a frame whose next link leads back to a frame already read, where the Go loop goes on for ever; this is the correction of the storefile.go:140-165 finding. Wherever the Go loop leaves, backward links included, it returns what the Go loop returns.
- StoreFiles.StoreFile.Write: requires the file plus the encoded batch to stay below 2^32 bytes, so that no uint32 offset wraps.
- SnapsDB.DefaultDB.Write: requires the same 2^32 size bound on the file of t's day.
- `strconv.ParseInt(·, 0, 64)` is the parameter `parse`. Its int64 range check is not modelled, nor is `time.Unix`.
- `IsExpired` and the retention test behind it are the parameter `isExpired`, because the engine's method is not part of the shown code.
- `filepath.Walk` is the given list of entries, or the parameter `walk` per directory.
- Go's map iteration order in `systemcheckcall` is the parameter `order`.
- TacticsCheck.Registry.RegisterDB: sweeps the database before entering it in the registry, where the Go code enters it first. The sweep reads nothing of the registry, so the final state is the same.
- TacticsCheck.Registry.RegisterDB: requires a database not yet registered to share no object with those already registered. In Go every database loads its own files, so this always holds.
- TacticsCheck.Registry.Valid: the registry's footprint is a ghost field that the registry's own operations keep up to date. A registered database that loads another day grows its own footprint without the registry's. InUse shows the registry stays sound meanwhile, and the ghost method Refresh brings the footprint up to date before the next registry operation; Go needs neither step.
- Version skew between the files is resolved as follows:
  - calls take Unix seconds where some pass `time.Time`;
  - `loadStoreFile` takes no time-key format;
  - `StorageDirectory()` is `basePath`.
- These operations are not modelled:
  - `Dispose`, `WriteUnix` and the other `...Unix` variants, which are not part of the shown code;
  - `TimeBaseline`, a getter;
  - `storeFile.QueryTimeline`, which only locks and calls `queryByTimeline`.

## Findings

| source | as written | input that shows it | evidently intended | confidence | as-written member | corrected member |
|---|---|---|---|---|---|---|
| storefile.go:228 | `ReadMateInfo` and `writeMateInfo` accept t = TimelineEnd, one slot past the 86400-slot table | a day file whose first write stored one record at the baseline, then `storeFile.Write` at t = baseline + 86400: the slot store lands at offset 691216 and overwrites the first frame's stamp | refuse t ≥ TimelineEnd | not executed | Findings.AsWrittenEndWriteCorrupts | StoreFiles.StoreFile.Write |
| storefile.go:228 | `queryByTimeline` accepts t = TimelineEnd through `ReadMateInfo`'s bound and reads the first frame's stamp words as the slot of t | a day file whose first write stored one record at the baseline, then `queryByTimeline(baseline + 86400)`: the slot read is (baseline, 0), and the walk starts at file offset baseline | refuse t ≥ TimelineEnd | not executed | Findings.AsWrittenEndQueryReadsFrame | StoreFiles.StoreFile.QueryByTimeline |
| storefile.go:84-88 | `QueryBetween` clamps to TimelineEnd and loops with `i <= length`, so it also queries second TimelineEnd and enters its result | `QueryBetween(lo, hi)` with hi ≥ baseline + 86400 on a day whose one record was written at the baseline: the walk of the next day's midnight starts at file offset baseline, past the end of the file, and an empty list is entered under that second | visit [max(begin, Begin), min(end, End − 1)] | not executed | Findings.AsWrittenEndEntry | StoreFiles.StoreFile.QueryBetween |
| storefile.go:75 | the hit test is `end > TimelineBegin` | an engine range query ending exactly at midnight of a day with a file: that day file refuses the range, and the whole query fails | `end >= TimelineBegin`, since the range's last second is the day's first | not executed | Findings.AsWrittenMidnightRefused | StoreFiles.StoreFile.QueryBetween |
| storefile.go:140-165 | the loop follows every next link whose frame carries the queried second, so links that close a cycle keep it in the loop for ever | a day file whose first frame, stamped with the baseline, has its next link set to its own offset 691216 (a file `open` accepts without checks): `queryByTimeline(baseline)` never returns | leave the loop at a link back to a frame already read, which no file the engine writes has, and follow every other link as before | not executed | Findings.AsWrittenCorruptChainLoops | StoreFiles.WalkChain |
