# A verified model of the embedded store

Three engines share one repository: a bitcask-style key-value store (`internal/bitcask`), a
sorted index over line files (`internal/sortedindex`), and an in-memory index over one
append-only line file (`internal/fileindex`). A pool (`internal/pool`) opens, counts, reaps and
closes any of them. This project models each against the simple thing it must agree with, and
proves that it does.

`dafny verify dfyconfig.toml` checks everything.

## What is modelled

**The log-structured store.** `Bytes`, `Crc32` (bit by bit, on `bv32`), `Record` and `Segment`
are the log. `CrcPolynomial` defines the checksum as IEEE 802.3 does, a polynomial remainder, and
shows that the register computes it; `Formats` has the record, snapshot and sidx formats byte by
byte, and what is accepted when they are read back. `ProbeTable` is linear probing with tombstones as
pure theory; `Index` is the table itself, its slots mutated in place over a chunked key arena.
`Engine` is a state machine over record logs: Put, Delete, the start of a compaction pass, one
relocation, the end of a pass, in any interleaving, with rotation inside the steps. Its invariant
says that every key of the abstract map is indexed at a live record holding its value which a running
pass has not handled yet. `Writes` says in lengths and bytes alone what each step does to the answers
of Get and to the segments. `Accounting` adds the dead-byte counters, what a pass reclaims, and why
compaction ends; `Passes` which segments compaction takes and which it leaves. `Store` is the `DB`
object: bytes in segment files, the real index, counters updated step by step; each of its critical
sections refines one step of `Engine`. `Snapshot` and `Recovery` are the index snapshot and replay as
functions of the bytes on disk, `Sessions` runs any number of write, close, crash and reopen cycles,
`Reopen` is `recover`, the snapshot loader and the snapshot writer working on the real index, and
`Lifecycle` closes a `DB` object and opens another from the bytes it left. `Torn` is a write cut short
in a preallocated segment, `Compacted` the reopening of a directory in which compaction has run, and
`CompactedRuns` two runs after which it goes wrong.

**The sorted index.** `Lex` is the order of `bytes.Compare`; `Lines` and `Build` say what a scan
accepts; `Entries` has the two entry encodings, the duplicate order, and the canonical list of a set of entries (ascending keys,
exactly the keys of the set, each with its greatest file number and offset), which is unique.
`Spill` is the chunked scan, `MergeHeap` the heap on a slice swapped in place, `Merge` the k-way
merge, `Sidx` the file and its sparse directory, `Bloom` the filter, `Lookup` the reading side,
`Winner` the statement in terms of the sources alone ("the last line of the latest file wins"),
and `Refresh` is `EnsureFresh` over sequences of calls, stopped ones included. `Stale` says when a merge
over a list that is not the recorded one is right, and `Stops` runs two sequences of calls that are not.

**The file index.** `FileIndex` is the object with its file, size, unterminated flag and map;
`JsonKey` is the token-level key extractor and its value skipper.

**The pool.** `Pool` is a state machine of any number of threads. The unlocked closed check, the
get-or-create under the pool's lock, the lock of the entry, the re-check, the open, a handle's
release swap, the count's decrement, each entry of a sweep, and the swap, the snapshot, each entry
and the return of Close are separate steps. `PoolObject` has the pool, its entries and its handles as
objects updated in place; each of its methods is what one thread does without letting go, and refines
one step. `PoolRuns` says, over every run, what an Acquire and a Release give, which resources a sweep
closes and what is closed once Close has returned. `Progress` shows that no reachable state is a
deadlock and that what was begun always ends.

## Assumptions

- At most one compaction pass runs at a time. `SegmentSize` is fixed and at most 2^32, values are
  shorter than 2^32, and fewer than 65536 arena chunks are in use when a new key is stored. For
  recovery the last is derived: the directory is under `ARENA_KEY_BYTES`, about 10^12 bytes.
- `Sessions`, `Reopen` and `Lifecycle` are about directories without compaction, whose active segment has
  the largest id; `Compacted` is about the others. What a stop leaves after the used part of the active
  segment does not read as a record. Zeroes and a record altered in one byte are proved not to; of a cut
  record, with zeroes behind it, `Torn` says exactly when it does not. With nothing but zeroes lost it does
  read, as the record that was written: the write counts as finished.
- Key functions are deterministic and fixed; sorted-index keys are 1 to 65535 bytes, lines shorter
  than 2^31. Equal path, size and modification time mean equal content. Whether a Bloom filter is
  built does not change between calls. A cache file may be missing or damaged, but an sidx file that
  passes its checks holds some ascending entry list as a build writes it, and a Bloom file that does has at
  least 8 bits and one probe. For the file index the empty line has no key.
- Hashes are arbitrary functions, and the division behind the compaction ratio is any function within one
  part in 2^53 of the quotient, so any rounding to float64. The load factor test is the float64 one, exact
  because a table length is a power of two. `h & mask` is written as a remainder, which
  `ProbeTable.MaskIsRemainder` proves it is.

## Where the code and its comments differ

- `internal/fileindex/fileindex.go:150-151` says the rebuild scan skips a torn tail. It does so
  exactly when the key function rejects the fragment: `FileIndex.FileIndex.Put` says which key
  strays otherwise, `FileIndex.AgreesExactly` that the index is a rebuild minus deleted keys if and
  only if every strayed key is deleted, and `FileIndex.WholeLineFragment` that a write of all but the
  newline always leaves a fragment that is the whole line.
- `internal/sortedindex/sortedindex.go:76` and `438-439` speak of at most `SparseInterval` entries.
  That holds for a hit; `Lookup.ScanIsBounded` says exactly which misses decode one more, and
  `Lookup.MissDecodesOneMore` is one.
- The forced rehash and retry at the end of `put` (`internal/bitcask/index.go:132-137`) never runs.
- A value offset can wrap to 0 as a uint32, but only for an empty value that ends at 2^32, which
  reads the same there (`Engine.ReadValue`).
- `internal/sortedindex/sortedindex_sources.go:179-187` promises an index over the current sources.
  Work that stops between the final renames leaves a new sidx file under the old source record, and a
  later call that trusts the record can return a wrong index: `Stops` has two such runs. Repeating the
  call repairs the files, and so does adding more sources to a stopped refresh. `Refresh.Cache.EnsureFresh` says for every
  state of the files when the index returned is right, `Refresh.Cache.RightAfterStop` and
  `Refresh.Cache.ReusedAfterStop` what that comes to after a stop.
- `internal/sortedindex/sortedindex_sources.go:181-183` speaks of updating an sidx file that is missing.
  Where it is missing or damaged, and its source record is there and equals, or is a proper prefix of, the
  current sources, every call fails instead; a rebuild for other sources repairs it (`Refresh.Cache.EnsureFresh`).
- Recovery takes the first unreadable place for the end of the log. Stale bytes behind a record
  appended after a stop can read as one: `Segment.AppendAfterStopIff` says exactly when,
  `Segment.StaleRecordReturns` gives a case.
- `internal/bitcask/segment.go:197-203` counts a torn record among the places where a scan stops. The
  segment was preallocated with zeroes, so a cut record goes on as zeroes and stops the scan exactly when
  `Torn.TornTailStopsIff` says. `Torn.CutThatReads` is one that does not stop it; it is read whole.
- `README.md:156-158` calls the full scan after heavy compaction safe. Passes drop tombstones
  (`internal/bitcask/compaction.go:119-121`) and copy records to segments above the active one, and the scan
  goes by segment id: a deleted key can come back, and so can an older value
  (`CompactedRuns.TombstoneDropped`, `CompactedRuns.OldValueOvertakes`). `Compacted.ContentsComeBackIff` says
  exactly when the contents come back, `Compacted.SnapshotComesBackIff` when the index does from a snapshot
  saved at close.

## Model

| member | source | states |
|---|---|---|
| Engine.EveryRunReadsTheMap | internal/bitcask/kv.go:54-86 | After every interleaving of Put, Delete and the steps of compaction passes, Get of every non-empty key equals the abstract map and of the empty key is refused, so the missing-segment and out-of-range errors are unreachable |
| Engine.StepKeeps | internal/bitcask/compaction.go:118-167 | Every step, refused or not, keeps the invariant that ties the index to the abstract map, and the map moves as the operation says |
| Engine.RelocateKeeps | internal/bitcask/compaction.go:127-152 | One relocation, taken in the middle of any writes, changes where a key points and not what it means |
| Engine.LiveRecordValue | internal/bitcask/compaction.go:135-139 | The liveness test of a pass (segment and uint32 value offset equal) is met only by the record that holds the key's current value |
| Engine.ValueOffsetInjective | internal/bitcask/compaction.go:136 | Within a segment the truncated value offset determines the record |
| Engine.FinishKeeps | internal/bitcask/compaction.go:157-160 | Once all records of the source are handled no key points into it, and dropping it keeps the invariant |
| Engine.GetReadsMap | internal/bitcask/kv.go:54-86 | In any state with the invariant, Get returns the map's value or not found, and refuses the empty key |
| Engine.ReadValue | internal/bitcask/segment.go:178-195 | The bytes at a record's value offset are its value, also where the offset wraps |
| Writes.PutThenGet | internal/bitcask/kv.go:18-51 | In every run a Put of a key of 1 to 65535 bytes whose record of 21 + key + value bytes fits a segment makes Get return the value and leaves all other answers; any other Put changes nothing |
| Writes.DeleteThenGet | internal/bitcask/kv.go:110-143 | In every run a Delete of such a key makes Get not find it and leaves all other answers; any other Delete changes nothing |
| Writes.PassThenGet | internal/bitcask/compaction.go:118-167 | In every run no step of a compaction pass changes any answer of Get |
| Writes.PutGoes | internal/bitcask/db.go:136-154 | The record goes to the active segment exactly when it fits there; else to a new one of full size, and the old one is cut to its used size |
| Writes.DeleteGoes | internal/bitcask/db.go:136-154 | So does a tombstone, whether or not the key is there |
| Writes.RelocationGoes | internal/bitcask/compaction.go:127-152 | A live record goes to the compaction output as it is, timestamp included, exactly when it fits there, else to a new one; tombstones and dead records go nowhere |
| Writes.EveryRecordWasWritten | internal/bitcask/compaction.go:144-147 | In every run every record, relocated or not, is that of some Put or Delete: key, value, kind and timestamp |
| Accounting.RunBalanced | internal/bitcask/kv.go:42-45 | Conservation: over every run, each segment that is not being compacted has used size = live record bytes + dead-byte counter |
| Accounting.StepBalanced | internal/bitcask/kv.go:130-137 | Every step keeps the counters exact |
| Accounting.PassReclaims | internal/bitcask/compaction.go:127-160 | A pass with no writer in between shrinks the total used size by exactly the source's dead bytes |
| Accounting.PassEnds | internal/bitcask/compaction.go:127-160 | Whatever the counters say, a pass with no writer in between keeps the contents and drops exactly the bytes of its source that were not live |
| Accounting.CompactionEnds | internal/bitcask/compaction.go:68-78 | A run of candidate passes is no longer than the number of segments with dead bytes, although passes create and rotate outputs |
| Passes.CandidateIff | internal/bitcask/compaction.go:83-102 | For any float64 rounding the test takes every immutable segment above the ratio by more than the rounding bound, and none below it by more |
| Passes.PassLeavesAlone | internal/bitcask/compaction.go:118-167 | A pass with no writer in between drops its source and changes no record, size or counter of any other immutable segment |
| Store.DB.constructor | internal/bitcask/db.go:36-59 | A fresh directory is one empty segment of full size, numbered 0, and the initial state of the engine |
| Store.DB.Put | internal/bitcask/kv.go:18-51 | Succeeds if and only if the key has 1 to 65535 bytes and 21 + key + value bytes fit a segment, with the error for each other case; success sets the key's value and nothing else of the contents, and on bytes, index and counters it is the engine's Put step |
| Store.DB.Delete | internal/bitcask/kv.go:110-143 | The same with an empty value; success removes the key, and the tombstone counts as dead |
| Store.DB.Get | internal/bitcask/kv.go:54-86 | Refuses the empty key, else returns the contents' value for the key; the two error branches cannot be taken |
| Store.DB.EnsureCapacity | internal/bitcask/db.go:136-154 | Refuses exactly the record no segment can hold; else rotation finalizes the full segment and opens the next one, as the engine's function does |
| Store.DB.EnsureCompactionCapacity | internal/bitcask/compaction.go:172-189 | Creates or rotates the compaction output |
| Store.DB.AddDeadBytes | internal/bitcask/db.go:159-161 | Adds to one counter and no other |
| Store.DB.CompactRecord | internal/bitcask/compaction.go:127-152 | The callback's critical section is one relocation step |
| Store.DB.CompactSegment | internal/bitcask/compaction.go:118-167 | A whole pass refines the engine's, keeps the contents, reclaims exactly the source's dead bytes, drops the source, its counter and the snapshot; for a segment that is gone or active, nothing happens |
| Store.DB.PickCompactionCandidate | internal/bitcask/compaction.go:83-102 | Returns a non-empty immutable segment that is not surely below the ratio; none only if no immutable segment is surely above it (dead bytes over size, less or more one part in 2^53) |
| Store.DB.CompactNow | internal/bitcask/compaction.go:68-78 | Terminates, the contents kept, with no immutable segment surely above the ratio: of those there were, each surely above is gone, each surely below has the same bytes, and if all are surely below nothing changes |
| Store.DB.Reopen | internal/bitcask/db.go:49-58 | An object over recovered segments and index is valid, with counters that start from nothing |
| Lifecycle.Write | internal/bitcask/kv.go:18-51 | Every write keeps a store one that can be closed and reopened |
| Lifecycle.Close | internal/bitcask/db.go:64-92 | With SnapshotOnClose, leaves a snapshot that lists the index now; without, the file there was |
| Lifecycle.Restart | internal/bitcask/db.go:36-59 | Opening what a close left, snapshot or none, gives an object with the same contents and the same state but for the dead-byte counters |
| ProbeTable.ProbeDecides | internal/bitcask/index.go:83-95 | A probe that met neither the key before an empty slot nor in a full cycle proves the key absent |
| ProbeTable.Insert | internal/bitcask/index.go:107-131 | Filling the first empty slot of a key's probe, or an earlier tombstone, keeps every key reachable and stored once |
| ProbeTable.Bury | internal/bitcask/index.go:150-157 | A tombstone removes one key and hides no other |
| ProbeTable.MaskIsRemainder | internal/bitcask/index.go:82 | For a power-of-two length, bitwise and with the mask is the remainder |
| ProbeTable.LoadFactorIsExact | internal/bitcask/index.go:178-182 | The float64 comparison with 0.65 is the test against 13/20, for every length up to 2^51 |
| ProbeTable.StoresUnique | internal/bitcask/index.go:30-37 | A table stores at most one map |
| Index.Index.Get | internal/bitcask/index.go:80-96 | Returns the map's location for the key |
| Index.Index.Put | internal/bitcask/index.go:101-138 | The map with the key updated, the replaced location returned, for every sequence of operations and rehashes, and when the table doubles |
| Index.Index.Delete | internal/bitcask/index.go:142-162 | The map without the key, the removed location returned |
| Index.Index.MaybeRehash | internal/bitcask/index.go:178-184 | Keeps the map; under 13/20 occupied nothing changes, else all tombstones go and the table doubles exactly if at least half the slots hold keys |
| Index.Index.FindTarget | internal/bitcask/index.go:104-131 | Under the load factor the probe always ends at the key or at a slot to fill |
| Index.Index.Rehash | internal/bitcask/index.go:199-213 | Growing, or rehashing at the same size, keeps the map and drops all tombstones |
| Index.Index.FindEmpty | internal/bitcask/index.go:217-226 | The unbounded search of reinsert terminates at an empty slot |
| Index.Index.ForEach | internal/bitcask/index.go:231-241 | Visits each live entry once, with its location, until told to stop |
| Index.Index.LenIsModelSize | internal/bitcask/index.go:243-245 | len is the number of keys |
| Index.Arena.Put | internal/bitcask/arena.go:21-33 | Stores the key right behind the last one, moves nothing stored before, and opens a chunk, as large as the key needs, exactly when the key does not fit |
| Index.Index.RoomForKeys | internal/bitcask/index.go:51 | Keys of under 10^12 bytes in all never exhaust the 16-bit chunk number |
| Crc32.OneByteChangesChecksum | internal/bitcask/record.go:69-75 | Checksums of byte strings that differ in one byte differ, at any length |
| Crc32.BurstChangesChecksum | internal/bitcask/record.go:69-75 | Checksums of byte strings that differ, and only within four bytes in a row, differ, at any length |
| Crc32.ZeroBodyChecksum | internal/bitcask/record.go:13-16 | The checksum of 17 zero bytes is not zero, and neither is its last byte |
| CrcPolynomial.ChecksumIsRemainder | internal/bitcask/record.go:50-51 | The checksum is CRC-32 IEEE: bit by bit the complement of the remainder, by the generator of IEEE 802.3, of the message with its first 32 bits complemented, the lowest bit of a byte first |
| CrcPolynomial.RegisterIsRemainder | internal/bitcask/record.go:69-75 | The register after any message is that remainder: the table-free bit form is polynomial long division |
| CrcPolynomial.CheckValue | internal/bitcask/record.go:50-51 | The check value: the checksum of the digits 123456789 is CBF43926 |
| Record.EncodeRecord | internal/bitcask/record.go:36-53 | Filling the buffer in place gives the record's encoding, whose bytes `Formats.RecordLayout` gives |
| Record.DecodeEncoded | internal/bitcask/record.go:57-75 | The header of an encoded record decodes to its fields and the record verifies |
| Formats.RecordLayout | internal/bitcask/record.go:36-53 | Every record is its checksum, then the timestamp in two's complement, key and value lengths, flags, key and value, numbers most significant byte first |
| Formats.SmallRecord | internal/bitcask/record.go:36-53 | One whole record written out, checksum 7144F406 |
| Formats.ReadsIff | internal/bitcask/segment.go:207-221 | A scan reads a record at a place if and only if such bytes, with a matching checksum, stand there, whatever the flags |
| Formats.ReplayedIs | internal/bitcask/recovery.go:100-108 | Replay takes a record with an odd flag byte for a deletion and any other for a value at its place |
| Record.OneByteCorruptionDetected | internal/bitcask/record.go:69-75 | A record with any one byte changed does not verify |
| Record.BurstDetected | internal/bitcask/record.go:69-75 | A record changed within four bytes in a row past its checksum, and nowhere else, does not verify |
| Segment.Segment.Append | internal/bitcask/segment.go:159-169 | Appends within capacity, refuses otherwise, and changes nothing else |
| Segment.Segment.ReadAt | internal/bitcask/segment.go:178-195 | The bytes of the range, or an error when it leaves the mapping |
| Segment.Segment.ForEach | internal/bitcask/segment.go:204-226 | The loop visits and ends as the scan specification says; when a callback fails it ends at that record's offset, having visited exactly the records up to it |
| Segment.Segment.Finalize | internal/bitcask/segment.go:235-244 | Shrinks to the used size, keeping the used bytes |
| Segment.ScanHeld | internal/bitcask/segment.go:204-226 | From any record boundary of a log, the scan visits exactly the remaining records in order and ends where the log ends |
| Segment.ScanIsRightIff | internal/bitcask/segment.go:197-203 | Over bytes that begin with a log, the scan visits exactly the log if and only if the bytes behind it do not read as a record |
| Segment.AppendAfterStopIff | internal/bitcask/recovery.go:99-109 | When one record has been appended over what a stop left behind, recovery reads exactly the log and that record if and only if the rest of what was left does not read as a record |
| Segment.StaleRecordReturns | internal/bitcask/recovery.go:99-109 | A case where it fails: a whole stale record just behind the appended one comes back |
| Segment.ZeroTailStops | internal/bitcask/record.go:13-16 | Unwritten space never reads as a record |
| Segment.CorruptRecordStops | internal/bitcask/segment.go:214-217 | A record with one byte changed outside its length fields stops the scan |
| Torn.TornTailStopsIff | internal/bitcask/segment.go:204-226 | The first n bytes of a record and m zeroes stop the scan if and only if the file ends before the record the torn header speaks of, or that record, zero where it was not written, fails its checksum; cut anywhere, in the header too |
| Torn.EndedStops | internal/bitcask/segment.go:208-213 | Where the file ends at the cut, a cut record always stops the scan |
| Torn.NothingLost | internal/bitcask/segment.go:208-221 | If every lost byte was zero, exactly the record that was written is read |
| Torn.CutThatReads | internal/bitcask/segment.go:197-203 | A case: a record whose value ends in a zero byte, cut just before it |
| Torn.LostBurstStops | internal/bitcask/segment.go:214-217 | If what was lost and not zero lies within four bytes in a row, the scan stops |
| Torn.FourLostStop | internal/bitcask/segment.go:214-217 | So it does if at most four bytes were lost, not all zero |
| Torn.OneLostStops | internal/bitcask/segment.go:214-217 | And if exactly one lost byte was not zero, however many were lost |
| Torn.NoBodyStopsIff | internal/bitcask/segment.go:208-217 | A record cut within its checksum stops the scan unless the whole checksum was written and is that of a zero body |
| Snapshot.ParsePrinted | internal/bitcask/index_snapshot.go:46-225 | Loading a saved snapshot gives back its watermark and entries |
| Formats.SnapshotLayout | internal/bitcask/index_snapshot.go:46-121 | A snapshot is KVS1, version 1, watermark, count, the entries' fields and a checksum of it all |
| Formats.SnapshotLoadsIff | internal/bitcask/index_snapshot.go:126-225 | A file loads as a snapshot if and only if its checksum matches and it begins with that header and those entries |
| Snapshot.CorruptSnapshotRefused | internal/bitcask/index_snapshot.go:126-151 | A snapshot with one byte changed before its checksum is refused |
| Snapshot.ListedMap | internal/bitcask/index_snapshot.go:84-103 | Applying the entries in whatever order they were listed restores the map |
| Recovery.RecoveryAgrees | internal/bitcask/recovery.go:14-109 | Snapshot plus replay from its watermark, and replay of every segment from zero, give the same index, the map of all records, and every segment its log's size |
| Recovery.SnapshotReplay | internal/bitcask/recovery.go:45-66 | Past the watermark segment the fast path has caught up with the full replay |
| Compacted.ContentsComeBackIff | internal/bitcask/recovery.go:14-109 | After any interleaving of writes and compaction passes, opening the directory without a snapshot gives a store that reads as the map of all writes if and only if for every key the last record in order of segment id and place is one of its value, or a tombstone or none for a key not in the map |
| Compacted.IndexComesBackIff | internal/bitcask/recovery.go:99-109 | The index itself comes back if and only if that record is the one the index points at, or a tombstone or none for a key not in the index |
| Compacted.SnapshotComesBackIff | internal/bitcask/recovery.go:45-66 | With the snapshot a close saves, the index comes back if and only if that is so of every key with a record above the active segment, where only compaction has written |
| CompactedRuns.TombstoneDropped | internal/bitcask/compaction.go:119-121 | A run after which a deleted key comes back: its tombstone's segment was compacted, its older put was not |
| CompactedRuns.OldValueOvertakes | internal/bitcask/compaction.go:144-152 | A run after which an older value comes back: compaction copied it to a segment above the active one, and the key was put again below |
| Sessions.EveryCycleRecovers | internal/bitcask/recovery.go:14-109 | After any number of write, close, crash and reopen cycles, crashes between writes or inside a rotation, both recovery paths rebuild the index that was in memory, and the store reads as the map of all writes |
| Sessions.ReopenRestores | internal/bitcask/recovery.go:14-76 | Reopening restores index, sizes and ids exactly; only the dead-byte counters restart |
| Reopen.ReplaySegment | internal/bitcask/recovery.go:99-109 | From any start, one past the end of the file too, the real index ends as the visits applied in order; the end of the scan is returned |
| Reopen.LoadSnapshotInto | internal/bitcask/index_snapshot.go:159-225 | Succeeds exactly when the snapshot parses, and then the index is the map of its entries |
| Reopen.SaveSnapshot | internal/bitcask/index_snapshot.go:46-121 | Writes a snapshot that lists the index, each key once |
| Reopen.Opener.TryLoadSnapshot | internal/bitcask/recovery.go:83-93 | A snapshot that fails to load or whose segment is gone leaves an empty index |
| Reopen.Opener.Recover | internal/bitcask/recovery.go:14-76 | The loop over segment ids leaves the index, sizes, active segment and next id that the recovery functions say |
| Reopen.OpenHeld | internal/bitcask/recovery.go:14-109 | Opening a directory that holds logs gives the map of all their records and every segment its log's size |
| Bloom.BloomFilter.Add | internal/sortedindex/bloom.go:71-77 | Sets the bits of the key and no others, and forgets no key |
| Bloom.BloomFilter.MayContain | internal/sortedindex/bloom.go:81-90 | No false negatives; and where only added keys have set bits, yes exactly when each of the key's bits is also one of an added key, bit i being (h1 + i*h2) mod 2^64 mod m |
| Bloom.BloomFilter.constructor | internal/sortedindex/bloom.go:46-56 | At least 8 bits and one probe, whatever the sizing formulas give |
| Entries.CanonicalUnique | internal/sortedindex/sortedindex_build.go:366-476 | The canonical list is a function of the set of accepted lines |
| Entries.DecodeEncoded | internal/sortedindex/sortedindex_build.go:288-302 | Reading back encoded entries, in the run or the sidx format, gives them and then a clean end |
| Lex.LessIff | internal/sortedindex/sortedindex_build.go:166 | The order of keys is that of bytes.Compare: at the first difference the smaller byte, as an unsigned number, or the end of the key comes first |
| Lines.PayloadsAre | internal/sortedindex/sortedindex_build.go:204-213 | A scan of lines with newline bytes between them sees exactly those lines, the last with or without its newline |
| Lines.EveryContentSplits | internal/sortedindex/sortedindex_build.go:204-213 | Every file is of that form |
| Lines.LastLineIff | internal/fileindex/fileindex.go:47-50 | The last line of a key is the last of those lines that is not empty and for which the key function gives that key, not an empty one |
| Build.ScanConsistent | internal/sortedindex/sortedindex_build.go:198-237 | A scan never yields two entries for one place |
| Build.EntryInPlace | internal/sortedindex/sortedindex_build.go:204-218 | A scanned entry points at a non-empty line whose key it carries |
| Build.CanonicalThroughList | internal/sortedindex/sortedindex_refresh.go:21-28 | Replacing sources by their canonical list changes nothing about what a merge must produce |
| Build.ScanSetAppend | internal/sortedindex/sortedindex_build.go:157-194 | Scanning added sources with continued numbers is scanning the whole list |
| Spill.SortChunk | internal/sortedindex/sortedindex_build.go:166 | Sorted by key and a permutation; nothing more is used, so the order of equal keys is free |
| Spill.Spiller.ScanOneSource | internal/sortedindex/sortedindex_build.go:198-237 | Hands over exactly the accepted lines; stops early exactly when a check finds the context cancelled |
| Spill.AllQuietIff | internal/sortedindex/sortedindex_build.go:224-229 | A scan is checked once every 100000 lines read, of which there are one more than newline bytes |
| Spill.Spiller.Flush | internal/sortedindex/sortedindex_build.go:162-174 | Adds exactly one run, sorted, with exactly the chunk's entries, and empties the chunk; an empty chunk adds none |
| Spill.SpillSortedRuns | internal/sortedindex/sortedindex_build.go:157-194 | For every chunk size, the runs are sorted files that together hold exactly the accepted lines, none longer than the chunk size, and the count is the number of accepted lines |
| MergeHeap.MergeHeap.Push | internal/sortedindex/sortedindex_build.go:335 | Keeps a heap of the items plus one |
| MergeHeap.MergeHeap.Pop | internal/sortedindex/sortedindex_build.go:336-342 | Removes a least item and keeps a heap of the rest |
| MergeHeap.RootIsLeast | internal/sortedindex/sortedindex_build.go:333 | The root of a heap is a least item |
| Merge.Merger.Advance | internal/sortedindex/sortedindex_build.go:416-424 | Refilling an input neither loses nor invents a pending entry |
| Merge.Merger.NextWinner | internal/sortedindex/sortedindex_build.go:441-458 | Takes all pending entries with the least key and returns the best; everything left has a greater key |
| Merge.LeastPending | internal/sortedindex/sortedindex_build.go:445-450 | A least head is least of everything still to come from any input |
| Merge.CanonicalExtends | internal/sortedindex/sortedindex_build.go:439-476 | Writing the best of the next key's group extends the canonical list |
| Merge.CanonicalLength | internal/sortedindex/sortedindex_build.go:435-476 | A canonical list has exactly one entry for every key of its set |
| Merge.MergeLoop | internal/sortedindex/sortedindex_build.go:435-476 | Completes if and only if no check before one of its outputs finds the context cancelled, as many outputs as there are keys; then the output is the canonical list of everything that was pending |
| Merge.MergeRuns | internal/sortedindex/sortedindex_build.go:366-492 | Fails exactly when the existing sidx does not pass its checks or a check it reaches finds it cancelled; else the output is the sidx file and sparse directory of the canonical list of all inputs, its keys in byte order, and the filter's bits are those of its keys and no others |
| Sidx.OpenWritten | internal/sortedindex/sortedindex.go:254-307 | A written sidx file passes the header and checksum tests and yields its own entries |
| Formats.SidxLayout | internal/sortedindex/sortedindex_build.go:496-545 | An sidx file is KVSI, version 1, the count, the entries' fields, numbers most significant byte first, and the entries' checksum |
| Formats.SidxOpensIff | internal/sortedindex/sortedindex.go:254-307 | A file passes the tests, with a count and a body, if and only if it is that header, the body and the body's checksum |
| Sidx.CorruptEntriesRefused | internal/sortedindex/sortedindex.go:287-307 | An sidx file with one byte of its entries changed is refused |
| Sidx.SamplesAre | internal/sortedindex/sortedindex_build.go:461-466 | Sample j is entry j times the interval at the exact start of its encoding, one for every interval begun |
| Sidx.DecodesFrom | internal/sortedindex/sortedindex.go:455-456 | Reading from an entry's offset gives that entry and all after it |
| Lookup.SortedIndex.FloorOffset | internal/sortedindex/sortedindex.go:426-433 | The binary search gives the start of the last sampled entry not past the target: every earlier key is below the target and every key an interval later above it |
| Lookup.SortedIndex.Get | internal/sortedindex/sortedindex.go:442-477 | Through filter, search and scan, the answer of linear lookup; it decodes the entries from the floor to the first key not below the target, and none past a filter that says no |
| Lookup.ScanIsBounded | internal/sortedindex/sortedindex.go:438-439 | A key that is there takes at most an interval of decoded entries, one that is not at most one more; exactly one more if and only if it falls strictly between the last key of one interval and the first of the next |
| Lookup.MissDecodesOneMore | internal/sortedindex/sortedindex.go:76 | Such a case: interval 1, keys a and c, a scan for b decodes 2 |
| Lookup.SortedIndex.NextPrefixMatch | internal/sortedindex/sortedindex.go:518-541 | The next match in order, or none |
| Lookup.SortedIndex.Prefix | internal/sortedindex/sortedindex.go:495-510 | The entries with the prefix, in byte order of their keys, up to the first whose line cannot be read, until the consumer has enough |
| Lookup.EmptyPrefixIsAll | internal/sortedindex/sortedindex.go:547-549 | The empty prefix yields every entry |
| Winner.GetReturnsWinner | internal/sortedindex/sortedindex_build.go:85-90 | Get returns the last line with the key in the latest source that has one |
| Winner.WinningLineIff | internal/sortedindex/sortedindex_build.go:85-90 | A line wins if and only if it is the last line with its key in some source, lines being what stands between newline bytes, and no later source has the key |
| Winner.GetFindsIff | internal/sortedindex/sortedindex.go:442-477 | Get finds a line if and only if it is that one |
| Winner.FreshIndexReadsWinner | internal/sortedindex/sortedindex_sources.go:206-232 | So does the index EnsureFresh returns, over the sources it was asked for |
| Winner.OneSourceIsFileIndex | internal/sortedindex/sortedindex_build.go:88-90 | Over one source the sorted index answers every key as a file index rebuilt from that file |
| Winner.LinesAreReadable | internal/sortedindex/sortedindex.go:535-539 | Every entry's line can be read back and has the entry's key |
| Winner.PrefixGivesWinners | internal/sortedindex/sortedindex.go:491-510 | Over an index of real sources no line is unreadable: the iteration gives every key with the prefix that some line has, in byte order, each with its winning line, and nothing else; with the empty prefix every key |
| Winner.FreshIndexIteratesWinners | internal/sortedindex/sortedindex_sources.go:206-232 | So does the index EnsureFresh returns, over the sources it was asked for |
| Refresh.SourcesMatch | internal/sortedindex/sortedindex_sources.go:45-55 | True exactly for equal lists of path, size and time |
| Refresh.IncrementalEligible | internal/sortedindex/sortedindex_refresh.go:53-64 | The added sources, exactly when current properly extends recorded |
| Refresh.RefreshedIndexes | internal/sortedindex/sortedindex_refresh.go:74-111 | Merging the new sources with the old list gives the list a full build gives |
| Refresh.RefreshedAgain | internal/sortedindex/sortedindex_refresh.go:74-111 | Repeating the refresh on an already refreshed sidx changes nothing |
| Refresh.IndexIsUnique | internal/sortedindex/sortedindex_refresh.go:74-111 | One entry list, hence one entries region and sparse directory, for each list of sources |
| Refresh.FreshFilesAgree | internal/sortedindex/sortedindex_sources.go:206-232 | Two caches fresh for the same sources, refreshed or built from scratch, hold the same sidx and sparse bytes |
| Stale.MergeIsRightIff | internal/sortedindex/sortedindex_refresh.go:74-111 | Merging new entries into a list that is not the recorded one is right if and only if every entry that only one of the two lists has is among the new ones or beaten by one of them |
| Stale.MergeIsSureIff | internal/sortedindex/sortedindex_build.go:449-458 | With ties, which the heap's order decides, the same condition says when every outcome is right |
| Refresh.RefreshIsRightIff | internal/sortedindex/sortedindex_refresh.go:74-111 | So for a refresh, whatever list the sidx file holds |
| Refresh.StoppedRefreshIff | internal/sortedindex/sortedindex_sources.go:218-227 | After a refresh cut short, that is: every entry of the file that is from a source past the recorded ones is among the added sources' lines or beaten by one |
| Refresh.GoingOnIsRight | internal/sortedindex/sortedindex_sources.go:218-227 | Adding still more sources to those a stopped refresh was adding is right |
| Refresh.RevertIsRightIff | internal/sortedindex/sortedindex_sources.go:215-216 | After a stopped refresh, going back to the recorded list is right if and only if the sources it was adding hold no indexable line |
| Refresh.ReuseIsRightIff | internal/sortedindex/sortedindex_sources.go:215-216 | After a stopped rebuild for other sources, going back to the recorded list is right if and only if the same lines win in both |
| Refresh.Cache.Work | internal/sortedindex/sortedindex_build.go:110-155 | Fails exactly when the file to refresh is gone or damaged or a check it reaches finds it cancelled, and then changes nothing; else it merges to the canonical list and replaces the files in order, up to where it stops |
| Refresh.Cache.Update | internal/sortedindex/sortedindex_sources.go:218-227 | The same for the choice between refresh and rebuild, and when the sidx file written is the one of the current sources |
| Refresh.Cache.ReplacesIff | internal/sortedindex/sortedindex_sources.go:206-232 | A call replaces files if and only if it asks for 1 to 65535 sources that are not the recorded ones, no check it comes to finds it cancelled, and the sidx file can be read if the recorded sources are a proper prefix |
| Refresh.Cache.Open | internal/sortedindex/sortedindex.go:175-244 | Fails exactly when the sidx file is gone or damaged, the sparse file gone or the Bloom file damaged; what it opens is a valid index of the recorded sources exactly when the files are fresh |
| Refresh.Cache.EnsureFresh | internal/sortedindex/sortedindex_sources.go:206-232 | With files missing, damaged or of other sources: exactly when it fails, what a failure or a stop leaves, and that the index returned is the one a build from scratch gives after a rebuild, after a refresh if and only if the list it started from was harmless, and on reuse if and only if the files were fresh |
| Refresh.Cache.RightAfterStop | internal/sortedindex/sortedindex_sources.go:218-227 | That condition for a cache left by a stopped refresh: what is in the file from sources past the recorded ones is settled by the added sources |
| Refresh.Cache.ReusedAfterStop | internal/sortedindex/sortedindex_sources.go:215-216 | For files left by any stop, wherever between the renames: those reused are fresh if and only if the same lines win in both lists |
| Refresh.Cache.EnsureAll | internal/sortedindex/sortedindex_sources.go:206-232 | Over any sequence of calls with changing lists, cancellations and stops, a stopped call repeated until it goes through: exactly which calls return nothing, and every index returned is the one a build from scratch gives |
| Refresh.Cache.NeverWithheld | internal/sortedindex/sortedindex_sources.go:206-232 | Of those calls none that asks for 1 to 65535 sources and is neither cancelled nor stopped returns nothing |
| Stops.StoppedThenOther | internal/sortedindex/sortedindex_sources.go:218-227 | Three calls that end in a wrong index: a refresh adding b stopped after its first rename, then c added instead; a key only b had is found, with a line of c |
| Stops.StoppedThenBack | internal/sortedindex/sortedindex_sources.go:215-216 | Another: a rebuild for b stopped after its first rename, then a asked for again; a key only b had is found, with a line of a |
| FileIndex.FileIndex.constructor | internal/fileindex/fileindex.go:62-79 | Opening any file gives the index of its lines |
| FileIndex.FileIndex.Rebuild | internal/fileindex/fileindex.go:82-108 | The scan computes the rebuilt index, the size and the unterminated flag |
| FileIndex.RebuiltIsLastLine | internal/fileindex/fileindex.go:47-50 | A rebuild indexes exactly the keys some line has, each at its last line |
| FileIndex.OpenedFindsIff | internal/fileindex/fileindex.go:82-108 | After opening, a key finds a line if and only if it is the last line between newline bytes that has the key |
| FileIndex.RebuiltLines | internal/fileindex/fileindex.go:93-97 | Every rebuilt location is a whole line with that key |
| FileIndex.FileIndex.Put | internal/fileindex/fileindex.go:119-156 | For every outcome of the write: the error for a line without a key or with a newline byte, the bytes appended, the index, and which key, if any, a failed write lets stray; every indexed location stays a whole line with its key |
| FileIndex.AppendFragment | internal/fileindex/fileindex.go:134-153 | A rebuild of the file after any part of the buffer is the old rebuild plus the fragment's line |
| FileIndex.WholeLineFragment | internal/fileindex/fileindex.go:149-153 | Writing all but the newline leaves a fragment that is the whole line |
| FileIndex.AgreesExactly | internal/fileindex/fileindex.go:194-212 | The index is a rebuild minus deleted keys if and only if every strayed key is deleted |
| FileIndex.FileIndex.Get | internal/fileindex/fileindex.go:160-178 | Finds exactly the indexed keys' lines, which are whole and have the key; reading never fails |
| FileIndex.FileIndex.Delete | internal/fileindex/fileindex.go:201-212 | Removes the key from memory only |
| JsonKey.ValueBalances | internal/fileindex/fileindex.go:333-347 | A whole value, however nested, leaves the depth where it was |
| JsonKey.SkipJSONValue | internal/fileindex/fileindex.go:324-349 | Consumes exactly the tokens of one value |
| JsonKey.JSONStringKey | internal/fileindex/fileindex.go:288-320 | The first top-level member of the name, if a non-empty string, never a nested one |
| JsonKey.KeyInIff | internal/fileindex/fileindex.go:288-320 | A key is found if and only if the first top-level member of the name is that string, and it is not empty |
| Pool.StepInv | internal/pool/pool.go:98-165 | Every step of every thread keeps the pool's invariant |
| Pool.EveryRunCountsHandles | internal/pool/pool.go:115-143 | In every interleaving refs is the number of handles whose release has not lowered it |
| Pool.EveryRunClosesRightly | internal/pool/pool.go:228-264 | In every interleaving a resource is closed at most once, and a held one is open unless Close closed it |
| Pool.SweepClosesUnheld | internal/pool/pool.go:228-237 | What a sweep closes no handle holds |
| Pool.EverySweepWaits | internal/pool/pool.go:222-237 | What a sweep closes has had every handle given back at least the idle time before the sweep's clock reading |
| Pool.AfterCloseNothingLives | internal/pool/pool.go:147-165 | Once Close has returned, in every continuation no entry is live or can become so |
| PoolRuns.ValidNameIff | internal/pool/pool.go:85-93 | A name is valid exactly if it is not empty, not a dot or two, and has no slash, backslash or zero character |
| PoolRuns.AcquireGives | internal/pool/pool.go:98-131 | In every run, on an open pool and a free lock, an Acquire of a valid name gives one more held handle on an open resource, a live one shared and never opened again; if opening fails nothing is counted |
| PoolRuns.AcquireRefused | internal/pool/pool.go:98-105 | An invalid name or a closed pool is refused and changes nothing |
| PoolRuns.AcquireGivesUp | internal/pool/pool.go:115-122 | An Acquire that finds the pool closed under the entry's lock opens and counts nothing |
| PoolRuns.ReleaseGivesBack | internal/pool/pool.go:136-143 | In every run releasing a held handle lowers its entry's count by one, and the last to go sets the idle clock to now |
| PoolRuns.ReleaseAgain | internal/pool/pool.go:259-264 | Releasing again does nothing |
| PoolRuns.EverySweepClosesIdle | internal/pool/pool.go:228-237 | In every run a sweep closes an entry it comes to if and only if it is live and all its handles were given back at least the idle time before the clock reading; then its resource is closed once, and nothing else is touched |
| PoolRuns.EverySweepVisits | internal/pool/pool.go:228-237 | In every run a sweep comes, between its beginning and its end, to every entry there was when it began, and does there exactly that |
| PoolRuns.CloseBegins | internal/pool/pool.go:147-150 | The first Close of an open pool goes on, a second does nothing |
| PoolRuns.AfterCloseAllClosed | internal/pool/pool.go:147-165 | In every run, once Close has returned every resource ever opened has been closed exactly once |
| PoolObject.SharedPool.constructor | internal/pool/pool.go:62-81 | A new pool is the start state |
| PoolObject.SharedPool.AcquireCheck | internal/pool/pool.go:98-105 | The name check and unlocked closed check are the state machine's first Acquire step |
| PoolObject.SharedPool.GetEntry | internal/pool/pool.go:107-113 | Get or create under the pool's lock; an entry once created is the one every later caller gets |
| PoolObject.SharedPool.Recheck | internal/pool/pool.go:115-122 | The closed check under the entry's lock |
| PoolObject.SharedPool.OpenResource | internal/pool/pool.go:123-131 | Opens if need be, counts one handle and gives up the lock; an open resource is shared, a failed open counts nothing |
| PoolObject.SharedPool.Release | internal/pool/pool.go:259-264 | Only the first release of a handle goes on to lower the count |
| PoolObject.SharedPool.Lower | internal/pool/pool.go:136-143 | Lowers the count by one and sets the idle clock exactly when it reaches zero |
| PoolObject.SharedPool.SweepSnapshot | internal/pool/pool.go:186-194 | A sweep starts with every entry there is |
| PoolObject.SharedPool.SweepEntry | internal/pool/pool.go:228-237 | One entry of a sweep: its resource object is closed once, and it is no longer live, exactly if it was live, unheld and idle for at least the idle time; else both stay as they are |
| PoolObject.SharedPool.CloseSwap | internal/pool/pool.go:147-150 | Only the first Close goes on |
| PoolObject.SharedPool.CloseEntry | internal/pool/pool.go:154-163 | One entry of Close: whatever is live is closed, once |
| Progress.EveryRunCanFinish | internal/pool/pool.go:98-164 | No deadlock: from every reachable state, steps that only carry on what was begun lead to one where every Acquire, Release, sweep and Close has returned and every lock is free |
| Progress.EveryRunWindsDown | internal/pool/pool.go:98-164 | However they are scheduled: from every reachable state, any sequence of steps that only carry on what was begun is bounded, and where no such step is possible everything has returned and every lock is free |

## Left out

- Closed flags and ErrClosed of the three engines: easy members; the pool's closed flag is modelled.
- mmap, residency bitmaps and the pread fallback: a segment is its bytes.
- File creation, fsync, rename and OS errors, but for a partial WriteAt of the file index and a stop between the final renames of a sorted-index build.
- Segment ids and nextSegID are unbounded; the source's are uint32.
- Store.DB.Put: the DB holds segment files as values; `Segment.Segment` shows the same operations in place on an array.
- Store.DB.Get: the slice handed out is a value, so aliasing of mapped memory is not captured.
- The arena's chunks are values, replaced when written.
- Two compaction passes at once: no claim.
- Store.DB.CompactSegment: does not take the current output segment as its source, because the candidate search, the only caller, never picks it (`internal/bitcask/compaction.go:89-91`).
- Compacted.SnapshotComesBackIff: says nothing of sizes; an unfinished output below the snapshot's segment comes back with its whole preallocated length as its size (`internal/bitcask/recovery.go:46-53`).
- Sessions.EveryCycleRecovers: assumes at each reopen that what lies behind the log does not read as a record, without which recovery is wrong (`Segment.AppendAfterStopIff`).
- Reopen.Opener.Recover: takes the sorted segment ids as a parameter; the directory listing is not modelled.
- Bytes of the sparse, Bloom and sources sidecars: they are kept as values; their printers repeat the snapshot's pattern.
- Formats.SnapshotLoadsIff: a watermark size of 2^63 or more, negative as the source's int64, is a large number here; saving never writes one.
- Bloom.BloomFilter.constructor: takes the results of the sizing formulas as arbitrary numbers, because false-positive rates are not claimed.
- Refresh.Cache.EnsureFresh: source content is a function of its stat, so a file changing between stat and scan is not captured.
- Locks around builds of one path in one process: calls are sequential in the model.
- JSON lexing and validity: `JsonKey.JSONStringKey` starts from the tokens of a line, or none for an invalid one.
- Stats, Has, Iterator, All, FilterAll, Bucket, the managers, tickers and goroutine start-up: thin wrappers or timing.
- Pool: time is a step parameter, opening succeeds or fails by a step parameter, and the error values of closing are not kept.
