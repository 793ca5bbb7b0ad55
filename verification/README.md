# Models of EdgeNode's caches, metrics store and IP lists

EdgeNode is a CDN node written in Go. This project models the parts of it whose correctness is hardest to see from one
function at a time, and proves what they promise.

**Partial-content cache.** `ByteRanges` is the interval set of cached bytes, with inclusive ends as in section 2.1 of RFC
7233; `ByteRangesText` its text form; `RangesQueue` the background writer of those texts as interleaved steps. `ByteFile` is
a file as bytes with a cursor, whose reads may be short; `CacheFormat` the 23-byte record at the start of every cache file;
`FileCache` the writer and reader of whole files; `BodyRange` the three readers of body ranges. `PartialFile` is the writer
of incomplete files, with the body that the file stands for as a ghost sequence that file and ranges must agree with;
`PartialServe` reads ranges back and opens writers again; `PartialHistory` runs any number of sessions on one file, and
`PartialRestart` a session on a file that is begun anew with old ranges;
`PartialStitch` joins a cached prefix to the rest from the origin.

**Metrics store.** `MetricKeys` is the big-endian key encoding and its byte order; `IndexedTables` a table with a value index
and sums, in general; `MetricStore` the three tables of a metrics task, their agreement in every run, and the cutoff that
cleans them; `MetricTask` the methods and the upload query.

**IP matching.** `Cidr` splits an address range into CIDR blocks (prefix notation: section 3.1 of RFC 4632); `IPLists` has the
operations and the binary search on values; `IPListState` the list object with its five containers.

**Memory cache.** `MemoryList` is the sharded index with its counters and evictions (`Sharding` is the splitting itself);
`ListReset` is its cleaning beside other operations, `WritingKeys` and `DirtyQueue` are the writer-slot and flush-queue
protocols, all three as state machines over all interleavings; `MemoryStorage` has the methods that take those steps.

`Bytes`, `Decimal`, `Sums` and `Wrappers` hold byte order, numerals, sums over maps and the result types.

`dafny verify dfyconfig.toml` checks everything.

## Where the code falls short of its promise

These are results, each stated with its exact condition or a family of inputs:

- `PartialRestart.Restart`: a writer that is opened again for another body length begins a new file but keeps the old ranges
  (internal/caches/storage_file.go:601-603). When its session ends, file and ranges agree exactly when every position of the
  old ranges has been written again, or is that of a zero byte inside the file; writes that bring nothing from outside the old
  ranges are skipped, so a session of such writes leaves an untrue file. For ranges of version 0 the body of the new file lies
  behind the key (`PartialFile.PartialFileWriter.Close`), where no reader looks for it (`PartialServe.ShiftedFileIsUntrue`).
- `PartialHistory.StaleDigestStays`: a response without a digest that begins anew over a file without ranges keeps the old
  digest with the new body (internal/nodes/http_writer.go:362-368).
- `FileCache.Fetch`: a file stored with an empty header is thrown away by its reader (internal/caches/reader_file.go:42-117).
- `RangesQueue.EveryRunIsSafe` and `RangesQueue.GetReturnsLastPut`: a file ends up with its last Put exactly when that was not
  empty, which holds for every caller (`ByteRangesText.TextIsNotEmpty`); between taking and writing, `Get` sees neither map
  nor new file.
- `PartialFile.AppendTwice`: a second append to a header extends it exactly when the declared length was reached by the
  first. The one caller (internal/nodes/http_writer.go:487-499) appends once.
- `PartialStitch.ServeOpenEnded`: neither status nor range of the origin's answer is looked at. The stream is right exactly
  when the answer is the rest that was asked for, and the file stays truthful exactly when the bytes that are placed are right.
  Those are at least the ones not covered before, so one wrong byte there, or one too many, makes the file untrue.
- `IPListState.IPList.LookupIP`, `IPLists.SearchIsExact`: a lookup finds something exactly when the single item of the address
  is live, or the last range that its search looks at and that contains the address is live. So an overlapping range can
  hide one that is not looked at (`IPLists.OverlapHidesRange`), and an expired one can hide a live one
  (`IPListState.ExpiredHidesLive`).
- `IPListState.LoseSharedAddress` and `IPListState.AddKeepsOwners`: two items on one address share one slot, and deleting
  the later one leaves the address unmatched; exactly such an addition breaks the ownership of addresses, and without one it
  holds in every run (`IPListState.IPList.PerformAll`).
- `IPLists.LaterAddSurvivesSort`: a buffered range can replace a later item of the same id.
- `Cidr.IPv4RangeToCIDRRange` and `Cidr.PassesToLastAddress`: from any address but 0.0.0.0, the loop ends exactly when the
  range ends before 255.255.255.255.
- `ListReset.CountIsLostForGood`, `ListReset.BytesAreLostForGood`, `ListReset.AddDuringCleaning`: cleaning stores the counter
  and the byte total as 0 after the list's lock is released. They are off from then on by exactly what was in the list and
  counted at those stores, and exact if and only if that is nothing; they can even go below zero.
- `MemoryStorage.MemoryStorage.LateClose` and `MemoryStorage.MemoryStorage.LateDiscard`: a late call on an old writer frees no
  slot of a newer one, but replaces or removes a newer value of the key.

## Model

| member | source | states |
|---|---|---|
| `ByteRanges.PartialRanges.Add` | internal/caches/partial_ranges.go:94-125 | insertion followed by merging leaves exactly the normal list that AddSpan defines, for arguments in either order, and keeps the list normal |
| `ByteRanges.PartialRanges.Merge` | internal/caches/partial_ranges.go:215-248 | the forward and then backward merging loops, which decide by widths, give AddSpan of the list before the insertion |
| `ByteRanges.PartialRanges.MergeForward` | internal/caches/partial_ranges.go:220-232 | swallows exactly the earlier entries that overlap or touch, and stops with a gap |
| `ByteRanges.PartialRanges.MergeBackward` | internal/caches/partial_ranges.go:234-247 | swallows exactly the later entries that overlap or touch, and stops with a gap |
| `ByteRanges.AddSpanCovers` | internal/caches/partial_ranges.go:94-125 | after an addition the list is sorted with gaps of at least one byte and covers exactly the old positions and the new ones |
| `ByteRanges.NormalIsUnique` | internal/caches/partial_ranges.go:94-125 | two sorted lists with gaps that cover the same positions are the same list |
| `ByteRanges.AddAllCoversUnion` | internal/caches/partial_ranges.go:94-125 | any run of additions from the empty list leaves a sorted list with gaps that covers exactly the union |
| `ByteRanges.AddAllDependsOnUnion` | internal/caches/partial_ranges.go:94-125 | the stored list depends on that union alone, not on order, splitting or repetition |
| `ByteRanges.SpliceIsAddSpan` | internal/caches/partial_ranges.go:215-248 | replacing swallowed entries by the span that swallowed them is the addition, once nothing touches it any more |
| `ByteRanges.PartialRanges.Contains` | internal/caches/partial_ranges.go:128-140 | on a list built by Add, true exactly when every position of the interval is covered |
| `ByteRanges.HoldsWholeIsCoverage` | internal/caches/partial_ranges.go:128-140 | one entry holds an interval exactly when all its positions are covered |
| `ByteRanges.PartialRanges.Nearest` | internal/caches/partial_ranges.go:143-156 | answers exactly when the first position and its successor are covered, with the longest covered prefix of the request |
| `ByteRanges.PartialRanges.FindRangeAtPosition` | internal/caches/partial_ranges.go:159-171 | the covered stretch from a position to the end of its entry, exactly when that position and its successor are covered |
| `ByteRanges.SuccessorSharesEntry` | internal/caches/partial_ranges.go:143-171 | on a normal list one entry holds a position and its successor exactly when both are covered |
| `ByteRanges.PartialRanges.MaxPosition` | internal/caches/partial_ranges.go:198-203 | the last covered position, or 0 when nothing is covered |
| `ByteRanges.WholeIsFullCoverage` | internal/caches/partial_ranges.go:211-213 | the completeness test means that exactly the positions of the body are covered |
| `ByteRanges.Convert` | internal/utils/ranges/range.go:25-47 | which requested ranges are refused, and that the others become the part of them inside the total; a suffix request becomes the last bytes |
| `ByteRangesText.String` | internal/caches/partial_ranges.go:174-184 | writes exactly the text of the persistent fields |
| `ByteRangesText.TextIsNotEmpty` | internal/caches/partial_ranges.go:174-195 | the text that is put into the queue is never empty |
| `ByteRangesText.TextFormat` | internal/caches/partial_ranges.go:174-184 | the lines of the text and their order |
| `ByteRangesText.NewPartialRangesFromData` | internal/caches/partial_ranges.go:30-60 | the line loop computes what applying the lines one by one computes |
| `ByteRangesText.TextRoundTrip` | internal/caches/partial_ranges.go:30-60 | every record whose digest holds no line break is read back exactly from its text |
| `ByteRangesText.SaveAndLoad` | internal/caches/partial_ranges.go:174-195 | saving a set and loading it gives the same set, still sorted with gaps |
| `RangesQueue.StepKeepsInv` | internal/caches/partial_ranges_queue.go:71-127 | every step keeps: each waiting entry has a notification on its way, and the last Put of each file is in the map, with the loop, or written |
| `RangesQueue.EveryRunIsSafe` | internal/caches/partial_ranges_queue.go:71-127 | in every interleaving both hold; whenever nothing is on its way the map is empty and a file holds its last Put exactly when that was not empty |
| `RangesQueue.GetReturnsLastPut` | internal/caches/partial_ranges_queue.go:83-95 | Get returns the last Put of a file exactly when that Put is not between take and write, or, if it was empty, has not been taken |
| `RangesQueue.HistoryIsOfPuts` | internal/caches/partial_ranges_queue.go:71-80 | the history that these speak of is that of the Puts of the run |
| `RangesQueue.FilesHoldLastPut` | internal/caches/partial_ranges_queue.go:71-127 | so in every run, whenever nothing is on its way, a file holds the data of its last Put exactly when that was not empty |
| `RangesQueue.GetFollowsPuts` | internal/caches/partial_ranges_queue.go:83-95 | and at any time Get returns that data exactly when it is not between take and write, or, if it is empty, has not been taken |
| `RangesQueue.EmptyPutIsDropped` | internal/caches/partial_ranges_queue.go:107-127 | the failing input: a Put of empty data runs through the queue and leaves every file as it was |
| `RangesQueue.StepsReduceWork` | internal/caches/partial_ranges_queue.go:107-127 | every step but a new Put brings the queue closer to rest |
| `RangesQueue.NeverStuck` | internal/caches/partial_ranges_queue.go:71-127 | until it rests such a step is possible, also when the channel is full |
| `RangesQueue.PartialRangesQueue.StorePut` | internal/caches/partial_ranges_queue.go:71-76 | the locked half of Put, as one step of the protocol |
| `RangesQueue.PartialRangesQueue.SendPut` | internal/caches/partial_ranges_queue.go:77-80 | the sending half of Put, as one step of the protocol |
| `RangesQueue.PartialRangesQueue.GetData` | internal/caches/partial_ranges_queue.go:83-95 | the same of the queue itself |
| `RangesQueue.PartialRangesQueue.Receive` | internal/caches/partial_ranges_queue.go:107-110 | receiving a notification, as one step of the protocol |
| `RangesQueue.PartialRangesQueue.Take` | internal/caches/partial_ranges_queue.go:110-119 | taking an entry out of the map, as one step of the protocol |
| `RangesQueue.PartialRangesQueue.WriteFile` | internal/caches/partial_ranges_queue.go:119-127 | writing the file, as one step of the protocol |
| `CacheFormat.MetaRoundTrip` | internal/caches/storage_file.go:684-712 | the 23 bytes at the start of a file decode to the expiry, status and lengths they were made of |
| `CacheFormat.MetaLayout` | internal/caches/storage_file.go:684-712 | where in the 23 bytes each field lies |
| `CacheFormat.OverlayHeaderLength` | internal/caches/writer_file.go:56-73 | writing a header length at its offset gives the record with that length and nothing else changed |
| `CacheFormat.OverlayBodyLength` | internal/caches/writer_file.go:111-128 | the same for the body length |
| `FileCache.FileWriter.constructor` | internal/caches/storage_file.go:682-712 | a new file holds exactly the record, with declared lengths only where positive |
| `FileCache.FileWriter.WriteHeader` | internal/caches/writer_file.go:46-53 | appends to the header |
| `FileCache.FileWriter.WriteSmall` | internal/caches/writer_file.go:204-221 | appends to the body; discards the file when the body becomes larger than allowed |
| `FileCache.FileWriter.Write` | internal/caches/writer_file.go:76-101 | appends all of the data, however it is split into chunks; an error exactly when the body becomes too large |
| `FileCache.FileWriter.WriteHeaderLength` | internal/caches/writer_file.go:56-73 | afterwards the record holds this header length, whatever was declared |
| `FileCache.FileWriter.WriteBodyLength` | internal/caches/writer_file.go:111-128 | afterwards the record holds this body length, whatever was declared |
| `FileCache.FileWriter.Close` | internal/caches/writer_file.go:131-169 | an error exactly when a declared body length is wrong; otherwise the file is the image of expiry, status, header and body |
| `FileCache.FileReader.Init` | internal/caches/reader_file.go:42-117 | takes offsets and lengths from the record; which records are errors; a file with an empty header is discarded |
| `FileCache.FileReader.ReadHeader` | internal/caches/reader_file.go:147-218 | delivers exactly the header for every buffer size and however short the reads are |
| `FileCache.FileReader.ReadBody` | internal/caches/reader_file.go:220-264 | delivers the file from the body offset to its end |
| `FileCache.FileReader.ReadBodyRange` | internal/caches/reader_file.go:281-344 | delivers exactly the requested part of the file, as far as the file reaches; which requests are invalid |
| `FileCache.ImageFields` | internal/caches/reader_file.go:42-117 | what the reader takes from the image of a response is that response |
| `FileCache.Store` | internal/caches/writer_file.go:32-169 | any chunking of header and body stores the image, or nothing, exactly as declared length and size limit say |
| `FileCache.Fetch` | internal/caches/reader_file.go:42-264 | a reader of an image returns every part of it, exactly when the header is not empty |
| `FileCache.StoreAndFetch` | internal/caches/writer_file.go:32-169 | whole life of a file: found exactly when size limit, declared length and a non-empty header allow, and then what was written |
| `BodyRange.MemoryReader.ReadBodyRange` | internal/caches/reader_memory.go:147-201 | the chunk loop delivers the requested part of the body, an end beyond the body being cut |
| `BodyRange.MMAPFileReader.Init` | internal/caches/reader_file_mmap.go:45-101 | succeeds exactly when the record and the lengths fit the file |
| `BodyRange.MMAPFileReader.ReadBodyRange` | internal/caches/reader_file_mmap.go:246-297 | delivers the requested part; an unexpected end, and the file discarded, exactly when the range reaches beyond the file |
| `BodyRange.ReadersAgree` | internal/caches/reader_file.go:281-344 | on one stored response the memory, file and mmap readers deliver the bytes asked for, for every request inside the body (both ends, a beginning, or so many bytes at the end) and all buffer sizes |
| `PartialFile.PartialFileWriter.New` | internal/caches/writer_partial_file.go:38-52 | a new partial file has its record in place; it agrees with the ranges it is given if they are empty, and disagrees if they are not |
| `PartialFile.PartialFileWriter.Reopen` | internal/caches/storage_file.go:715-720 | going on with a file that told the truth keeps telling it, with the body offset from its record |
| `PartialFile.PartialFileWriter.WriteHeader` | internal/caches/writer_partial_file.go:55-65 | writes at the cursor of a new file, which extends the header where that is its end; does nothing to an old file |
| `PartialFile.PartialFileWriter.AppendHeader` | internal/caches/writer_partial_file.go:67-80 | for every cursor: where the cursor is left, and that the header of a file that ends with it is extended exactly when the cursor was at its end (or nothing was appended) |
| `PartialFile.AppendExtends` | internal/caches/writer_partial_file.go:67-101 | bytes put elsewhere than at the end of such a file cannot extend its header |
| `PartialFile.AppendTwice` | internal/caches/writer_partial_file.go:67-101 | two appends: the second one extends the header exactly when the length declared at the start is the one that the first has reached, or it is empty |
| `PartialFile.PartialFileWriter.WriteHeaderLength` | internal/caches/writer_partial_file.go:83-101 | writes the length unless it was declared so, and then leaves the cursor behind that field; header, body and agreement stay |
| `PartialFile.PartialFileWriter.WriteAt` | internal/caches/writer_partial_file.go:114-180 | on any file: exactly the bytes are laid at their place, and the ranges grow by them, unless there are none, they are already held, or the write is postponed and the file only gets longer; a file that agreed with its ranges goes on doing so; once more than 1 MiB has been placed, and only then, ranges and body length are stored for other requests and the count begins anew |
| `PartialFile.PartialFileWriter.PostponedExactly` | internal/caches/writer_partial_file.go:126-150 | which writes are postponed, in bytes for each kind of disk |
| `PartialFile.PartialFileWriter.SetContentMD5` | internal/caches/writer_partial_file.go:187-193 | a digest is recorded unless it has a line break or more than 128 characters |
| `PartialFile.PartialFileWriter.FixBodyOffset` | internal/caches/writer_partial_file.go:152-158 | the first write fixes the body offset behind record and header, and behind the key for ranges of version 0 |
| `PartialFile.PartialFileWriter.PutBytes` | internal/caches/writer_partial_file.go:152-163 | the bytes land at the body offset plus their position and nothing else of the body changes |
| `PartialFile.PartialFileWriter.Mark` | internal/caches/writer_partial_file.go:165-165 | bytes that are in the file may be recorded: ranges and file still agree |
| `PartialFile.PartialFileWriter.Announce` | internal/caches/writer_partial_file.go:167-177 | after more than 1 MiB of new data, and only then, the current record is stored for other requests |
| `PartialFile.PartialFileWriter.SeenWhileOpen` | internal/caches/writer_partial_file.go:167-177 | how far the body lies from where the record of a file that is still open says, and that the ranges stored then are true of it when that distance is none |
| `PartialFile.PartialFileWriter.WriteBodyLength` | internal/caches/writer_partial_file.go:196-213 | records the body length and leaves the agreement alone |
| `PartialFile.PartialFileWriter.Close` | internal/caches/writer_partial_file.go:216-253 | on any file: the bytes stay, with the lengths written into the record of a new file, and the ranges; the body lies where the record says up to the shift by the key that a new file with ranges of version 0 has; a file that agreed with its ranges, and is not shifted, tells the truth as decoded from its own record |
| `PartialFile.AgreeSlice` | internal/caches/reader_partial_file.go:117-129 | a covered interval of a truthful file is exactly that slice of the origin |
| `PartialFile.CompletedHoldsOrigin` | internal/caches/partial_ranges.go:211-213 | when the ranges are complete for the length of the origin, the whole stored body is the origin |
| `PartialServe.PartialFileReader.ContainsRange` | internal/caches/reader_partial_file.go:117-129 | exactly which ranges are served, and that the answer is the longest covered prefix |
| `PartialServe.OpenPartialReader` | internal/caches/reader_partial_file.go:31-113 | which stored files can be read, and that the body offset is that of the record |
| `PartialServe.ServeRange` | internal/nodes/http_request_cache.go:744-759 | a range is served exactly when its beginning and enough of it are covered; the bytes served are that slice of the origin, and the range is the longest covered prefix of the one asked for |
| `PartialServe.ServableMeans` | internal/caches/reader_partial_file.go:117-135 | when that is, in numbers: what the length is taken to be, and that the beginning and all of the range or 128 KiB of it are covered |
| `PartialServe.LoadForWriting` | internal/caches/storage_file.go:587-622 | which ranges and which body offset an existing file hands to a new writer |
| `PartialServe.OpenPartialWriter` | internal/caches/storage_file.go:587-720 | going on with a truthful file of any version keeps it truthful; a new file has the expiry and status of the response, agrees with the old ranges exactly when they are empty, and its body is shifted exactly for ranges of version 0 and a non-empty key |
| `PartialServe.ShiftedFileIsUntrue` | internal/caches/writer_partial_file.go:152-158 | the failing input: with empty ranges of version 0 and a non-empty key, one written byte makes the new file untrue |
| `PartialHistory.WriteSlices` | internal/caches/writer_partial_file.go:114-180 | slices in any order, repeated or overlapping, lose no covered position; every slice that begins near enough to what is covered when it is written is covered afterwards; and what other requests can read lacks at most 1 MiB of it at any time |
| `PartialHistory.NearOnEveryDisk` | internal/caches/writer_partial_file.go:126-140 | 32 MiB beyond the covered part are near enough on every disk, more than 128 MiB on none |
| `PartialHistory.OpenSession` | internal/nodes/http_writer.go:359-376 | a session that begins afresh records its digest; any other one is turned away exactly when the ranges are of version 2 or later and have another digest |
| `PartialHistory.RunSession` | internal/caches/storage_file.go:587-720 | one open, comparison of digests, header, writes and close: a session that is turned away leaves no file, any other one a file that is true of its body, with everything kept before and every slice that is near enough when it is written; a new file has the expiry and status of the session |
| `PartialHistory.RunSessions` | internal/caches/writer_partial_file.go:55-253 | after any number of sessions, even of changing bodies as long as their digests tell them apart, every covered position holds the byte of the last session and the recorded digest is its; while the digest does not change, every slice that any of them has written near enough to what was covered by then is covered |
| `PartialHistory.StaleDigestStays` | internal/nodes/http_writer.go:362-368 | the failing input: over a file without ranges, a session of another length without a digest leaves the old digest with the new body |
| `PartialRestart.Restart` | internal/caches/storage_file.go:597-622 | a whole session on a file begun anew with old ranges: what it leaves tells the truth exactly when every covered position has been filled, which without shift means that what the old ranges cover has been written again, but for zero bytes; it does when all of that is written again by slices that bring news, and does not when nothing comes from outside the old ranges |
| `PartialRestart.WriteOver` | internal/caches/writer_partial_file.go:114-165 | after any writes the body of such a file is a patchwork of the placed slices and zero bytes; what is placed is part of the writes, and all of each write that brings news near enough to what is covered by then |
| `PartialRestart.PlacedMore` | internal/caches/writer_partial_file.go:152-165 | one more slice at its place, with zero bytes before it where the file was too short, keeps it a patchwork |
| `PartialRestart.NewsAreNeeded` | internal/caches/writer_partial_file.go:120-128 | a write with a position that neither the old ranges nor an earlier write has is not taken as already held |
| `PartialRestart.FaithfulIffFilled` | internal/caches/writer_partial_file.go:216-253 | such a file is true of the origin exactly when, for every covered position, the byte that a reader finds is the byte of the origin |
| `PartialRestart.FilledWithoutShift` | internal/caches/storage_file.go:597-622 | without shift that is about those positions of the old ranges alone where nothing has been placed |
| `PartialStitch.CachedPrefix` | internal/nodes/http_request_cache.go:719-741 | an open-ended request is taken over exactly when the length is known, the body incomplete and 256 KiB from the start are covered; the prefix is read up to its last byte exclusively |
| `PartialStitch.StitchableMeans` | internal/nodes/http_request_cache.go:719-741 | when that is, in numbers |
| `PartialStitch.HTTPRequestPartialReader.Start` | internal/nodes/http_request_cache_partial.go:35-60 | goes on exactly when the origin answers, with the recorded digest if the ranges are of version 2 or later; for another digest the cached file is deleted, if there is a storage |
| `PartialStitch.HTTPRequestPartialReader.ReadMore` | internal/nodes/http_request_cache_partial.go:60-76 | each read passes on the next bytes of the answer, whatever they are, and extends the covered part by them |
| `PartialStitch.WriteBack` | internal/nodes/http_request_cache_partial.go:70-74 | a chunk of the answer is never postponed: it is already held or placed, and what is covered from the start of the request on grows by it |
| `PartialStitch.TrueIffPlacedRight` | internal/nodes/http_request_cache_partial.go:70-74 | a file with parts of an answer laid over it is true of the origin exactly when what was placed is right |
| `PartialStitch.RestFromOrigin` | internal/nodes/http_request_cache_partial.go:35-89 | from its first read to its close the next reader delivers the answer; the file is deleted for another digest, and otherwise true of the origin with the answer laid over exactly the placed positions, by which the ranges have grown |
| `PartialStitch.ServeOpenEnded` | internal/nodes/http_request_cache.go:719-741 | the stream is the cached prefix and then the answer: origin[start..] with no byte missing or repeated exactly when the answer is the requested rest. The file stays truthful exactly when the placed bytes of the answer are right; so it does for a right answer, also one cut short, and only if the answer is right wherever nothing was covered before |
| `PartialStitch.SessionsThenServe` | internal/nodes/http_request_cache_partial.go:35-60 | after any sessions begun from nothing, an answer with another digest than that of the last session stops the stream at the boundary and the file is deleted if there is a storage; one with that digest is stitched on |
| `PartialStitch.OldRangesAcceptAnyDigest` | internal/nodes/http_request_cache_partial.go:49-51 | ranges of version 0 or 1 are never refused for their digest |
| `MetricKeys.ValueKeyRoundTrip` | internal/metrics/stat.go:36-68 | a value key decodes to its server, time, version, value and hash |
| `MetricKeys.SumKeyRoundTrip` | internal/metrics/stat.go:44-88 | a sum key decodes to its server, time and version |
| `MetricKeys.SumValueRoundTrip` | internal/metrics/stat.go:90-104 | count and total survive encoding |
| `MetricKeys.ValueKeyOrder` | internal/metrics/stat.go:36-42 | for one time, byte order of value keys is the numeric order of version, server and value |
| `MetricKeys.HeadsDecide` | internal/metrics/stat.go:32-46 | keys of different time or version compare as those, whatever follows |
| `MetricKeys.CutoffSeesHeadOnly` | internal/metrics/task_kv.go:344-345 | whether the cutoff removes a key depends on its time and version alone, for every suffix the encoders make |
| `MetricKeys.CutoffAtSameTime` | internal/metrics/task_kv.go:344-345 | at the time of the cutoff exactly the versions up to the current one go |
| `MetricStore.ValueKeysDiffer` | internal/metrics/stat.go:36-42 | different items have different value keys |
| `MetricStore.InsertKeepsAgreement` | internal/metrics/task_kv.go:107-188 | an insert keeps: each item has exactly one index key, of its current value, there are no others, and each sum row is the number and the total of its items |
| `MetricStore.CleanKeepsAgreement` | internal/metrics/task_kv.go:336-369 | so does a cleaning, because it removes items, index keys and sum rows together |
| `MetricStore.KeysCutTogether` | internal/metrics/task_kv.go:347-366 | the three keys of one item lie on one side of the cutoff |
| `MetricStore.CleanedItems` | internal/metrics/task_kv.go:344-352 | exactly which items a cleaning leaves |
| `MetricStore.EveryRunAgrees` | internal/metrics/task_kv.go:107-369 | in every run of inserts and cleanings, under changing versions, the three tables agree |
| `MetricStore.RowHoldsAllInserted` | internal/metrics/task_kv.go:162-185 | without cleaning the items and the sum of a row hold exactly the values inserted for it, modulo 2^64 for the sum |
| `MetricStore.ItemsHoldAllInserted` | internal/metrics/stat.go:23-34 | without cleaning, and while the hash tells them apart, each inserted combination of server, keys, time and version has its own item with the sum of its values, and there are as many items as combinations |
| `MetricStore.InsertedItem` | internal/metrics/task_kv.go:124-160 | an insert goes to the item of its combination and leaves all others alone |
| `MetricTask.KVTask.InsertStat` | internal/metrics/task_kv.go:107-188 | the three tables become those of the specification, and stay in agreement; a stopped one changes nothing |
| `MetricTask.KVTask.PutItem` | internal/metrics/task_kv.go:128-160 | merges into the item and moves its index key from the old to the new value |
| `MetricTask.KVTask.BumpSum` | internal/metrics/task_kv.go:162-185 | counts a new item once and adds the measured value |
| `MetricTask.KVTask.CleanExpired` | internal/metrics/task_kv.go:336-369 | cuts the three tables at one byte string and keeps their agreement |
| `MetricTask.KVTask.UploadServerStats` | internal/metrics/task_kv.go:414-499 | what is sent, kept and summed for one server, and what the cache becomes: nothing unless the upload succeeds |
| `MetricTask.IterateDown` | internal/metrics/task_kv.go:420-425 | the iterator delivers the greatest keys, downwards, up to the limit |
| `MetricTask.PrefixSelectsRow` | internal/metrics/task_kv.go:418-422 | the prefix of one time, version and server selects the index keys of exactly its items |
| `MetricTask.SelectedAreTheItems` | internal/metrics/task_kv.go:418-430 | the selected keys are those of the items, each with the current value |
| `MetricTask.SelectedKeyResolves` | internal/metrics/task_kv.go:426-451 | a selected key decodes to parts under which its item is found |
| `MetricTask.ScanFindsLargest` | internal/metrics/task_kv.go:420-425 | the limited downward scan lists the largest values of the row |
| `MetricTask.ScanDecodes` | internal/metrics/task_kv.go:426-429 | while the tables agree the query never meets a key it cannot decode |
| `MetricTask.SelectedIsSentOrKept` | internal/metrics/task_kv.go:430-458 | every selected positive value is sent, or kept because the cache already has it; none misses its item |
| `MetricTask.SentExactly` | internal/metrics/task_kv.go:430-458 | exactly the stats of positive values that the cache does not have are sent, and at most one stat or kept hash comes of a key |
| `MetricTask.KeptExactly` | internal/metrics/task_kv.go:436-441 | exactly the hashes of positive values that the cache has already are kept |
| `MetricTask.CachedExactly` | internal/metrics/task_kv.go:452-458 | exactly the new positive values go to the cache |
| `Cidr.ShortestPrefix` | internal/iplibrary/action_utils.go:37-47 | the inner loop finds the shortest prefix at which the address begins a block |
| `Cidr.NextBlock` | internal/iplibrary/action_utils.go:37-53 | the block is aligned, begins at the address, stays inside the range, and no larger one would do |
| `Cidr.IPv4RangeToCIDRRange` | internal/iplibrary/action_utils.go:36-58 | ends with aligned blocks that follow one another from start to end exactly, each the largest possible |
| `Cidr.PassesToLastAddress` | internal/iplibrary/action_utils.go:36-58 | with 255.255.255.255 as the end the passes emit the blocks of the range likewise, but then the start address is 0 and the loop test still holds |
| `Cidr.BlockLiesInOneTile` | internal/iplibrary/action_utils.go:36-58 | every aligned block inside the range lies within one emitted block |
| `Cidr.NoCoverIsSmaller` | internal/iplibrary/action_utils.go:36-58 | no other set of CIDR blocks covers the range with fewer blocks |
| `Cidr.AddressRoundTrip` | internal/iplibrary/action_utils.go:64-85 | every address survives being printed and read again |
| `IPLists.AcceptedIsNormal` | internal/iplibrary/ip_list.go:187-208 | an accepted item has its ends in order, keeps id, kind and expiry, and is empty only for all addresses |
| `IPLists.RefusedExactly` | internal/iplibrary/ip_list.go:182-204 | nothing is made of an item exactly when it expired before now, or has no address and is not for all addresses |
| `IPLists.BothEndsAreKept` | internal/iplibrary/ip_list.go:200-208 | an item with two different ends holds exactly the addresses between them, in whichever order they come |
| `IPLists.OneEndIsSingle` | internal/iplibrary/ip_list.go:187-208 | an item with one end, or two equal ones, is that single address |
| `IPLists.AddedIsListed` | internal/iplibrary/ip_list.go:182-242 | an added item is listed as it was accepted, unless a range of its id waits in the buffer |
| `IPLists.SortedIsListed` | internal/iplibrary/ip_list.go:245-252 | a buffered range is listed after sorting |
| `IPLists.OthersAreKept` | internal/iplibrary/ip_list.go:48-80 | an operation leaves the items of all other ids alone that do not wait in the buffer |
| `IPLists.DeletedStaysAway` | internal/iplibrary/ip_list.go:76-80 | a deleted id stays out of items and buffer through every run of operations that does not add it again |
| `IPLists.LaterAddSurvivesSort` | internal/iplibrary/ip_list.go:245-252 | of a buffered range and a later single item of one id, the later one survives sorting exactly when the id was in the list before |
| `IPLists.SortSlice` | internal/iplibrary/ip_list.go:254-263 | the sorted list is ordered and a permutation |
| `IPLists.SearchRanges` | internal/iplibrary/ip_list.go:279-294 | the loop of sort.Search, with the index its predicate assigns, computes the recursive search |
| `IPLists.SearchIsSound` | internal/iplibrary/ip_list.go:279-304 | what the search ends on contains the address, overlaps or not |
| `IPLists.SearchIsComplete` | internal/iplibrary/ip_list.go:279-304 | without overlaps the search finds the range that contains the address |
| `IPLists.SearchIsExact` | internal/iplibrary/ip_list.go:279-304 | overlaps or not, the search ends on the last entry it looks at that contains the address, or on none; which entries it looks at is fixed by the number of entries and by how many begin at or before the address |
| `IPLists.SearchApplies` | internal/iplibrary/ip_list.go:279-294 | every sorted list of ranges is one of those |
| `IPLists.OverlapHidesRange` | internal/iplibrary/ip_list.go:279-304 | with overlaps it can miss one |
| `IPListState.IPList.DeleteItem` | internal/iplibrary/ip_list.go:309-350 | removes one id from all five containers and keeps them in step |
| `IPListState.IPList.PlaceItem` | internal/iplibrary/ip_list.go:182-242 | addItem without its sorting: replaces the id, fills the containers, and says whether ranges need sorting |
| `IPListState.IPList.TakeInBuffer` | internal/iplibrary/ip_list.go:246-250 | taking in the buffer in any order gives the same items; if all addresses were owned, they are afterwards exactly when none is shared |
| `IPListState.IPList.SortRangeItems` | internal/iplibrary/ip_list.go:245-264 | ranges are sorted afterwards, the buffer is empty, and the containers stay in step |
| `IPListState.IPList.Add` | internal/iplibrary/ip_list.go:48-54 | the abstract effect of Add, and what it does to the owners of addresses; nothing on a deleted list |
| `IPListState.IPList.AddDelay` | internal/iplibrary/ip_list.go:56-68 | the abstract effect of AddDelay; only ranges are buffered |
| `IPListState.IPList.Sort` | internal/iplibrary/ip_list.go:70-74 | the abstract effect of Sort |
| `IPListState.IPList.Delete` | internal/iplibrary/ip_list.go:76-80 | the abstract effect of Delete |
| `IPListState.AddKeepsOwners` | internal/iplibrary/ip_list.go:223-233 | placing an item leaves every single address with its own item exactly when no other item is on that address |
| `IPListState.PlacingOwned` | internal/iplibrary/ip_list.go:223-233 | that is: exactly when afterwards no address is shared |
| `IPListState.MeanwhileOwned` | internal/iplibrary/ip_list.go:246-250 | while the buffer is taken in, every address without its owner is one whose owner is still to be replaced, if no address is shared in the end |
| `IPListState.IPList.PerformAll` | internal/iplibrary/ip_list.go:48-80 | in every run of operations in which no address is shared, the item of each single address stays the one that is found |
| `IPListState.DeleteKeepsOwners` | internal/iplibrary/ip_list.go:325-334 | deleting keeps that |
| `IPListState.SharedAddressIsLost` | internal/iplibrary/ip_list.go:231-332 | of two items on one address, deleting the later one leaves the address unmatched |
| `IPListState.LoseSharedAddress` | internal/iplibrary/ip_list.go:231-332 | the same by two calls of Add and one of Delete on a list |
| `IPListState.IPList.LookupIP` | internal/iplibrary/ip_list.go:267-305 | what is found is a live item of the list that contains the address; on every list something is found exactly when the single item of the address is live, or the last range looked at that contains it is; without overlaps exactly when a live entry contains it; while every address is owned, a live item on a single address is found |
| `IPListState.AddThenLookup` | internal/iplibrary/ip_list.go:48-54 | after a live range has been added to a list, every address between its ends is found, if no ranges of the list overlap |
| `IPListState.FoundIsMatched` | internal/iplibrary/ip_list.go:267-305 | without overlaps the two conditions are the same |
| `IPListState.ExpiredHidesLive` | internal/iplibrary/ip_list.go:299-304 | the failing input: an expired range on which the search ends hides a live one that it has looked at |
| `IPListState.IPList.Contains` | internal/iplibrary/ip_list.go:83-97 | a deleted list contains nothing, one with an item for all addresses everything, any other what its live entries contain |
| `MemoryList.MemoryList.constructor` | internal/caches/list_memory.go:29-46 | the shards are 000 and 100 to 999, all empty |
| `MemoryList.MemoryList.Add` | internal/caches/list_memory.go:60-90 | stores the item under its hash; counter and byte total stay exact |
| `MemoryList.ShardOfNumber` | internal/caches/list_memory.go:425-437 | a hash of three or more digits goes to the shard of its first three, any other one to 000 |
| `MemoryList.MemoryList.CountAdded` | internal/caches/storage_memory.go:94-99 | the callbacks and the counter for an item that replaces another one or none |
| `MemoryList.MemoryList.Remove` | internal/caches/list_memory.go:201-222 | removes exactly that hash; counter and byte total stay exact |
| `MemoryList.MemoryList.Exist` | internal/caches/list_memory.go:92-107 | true exactly for an unexpired item |
| `MemoryList.MemoryList.IncreaseHit` | internal/caches/list_memory.go:385-401 | changes the last week of use and nothing else |
| `MemoryList.MemoryList.Purge` | internal/caches/list_memory.go:227-275 | takes the shards in turn; removes only expired items of that shard, all of them if it looks at the whole shard; counters stay exact |
| `MemoryList.MemoryList.PurgeCycle` | internal/caches/list_memory.go:227-275 | as many purges as there are shards, from wherever the turn is, leave exactly the unexpired items |
| `MemoryList.OneCyclePurgesAll` | internal/caches/list_memory.go:227-275 | because each takes the expired items of one shard |
| `MemoryList.MemoryList.VisitShard` | internal/caches/list_memory.go:294-315 | one shard in one round: at most one item goes, in the first three rounds a stale one if there is any |
| `MemoryList.MemoryList.EvictRound` | internal/caches/list_memory.go:291-319 | one round over all shards in any order |
| `MemoryList.MemoryList.PurgeLFU` | internal/caches/list_memory.go:277-335 | ends for all ages; removes exactly the smaller of count and total; a recently used item goes only after every shard gave up three stale ones or all it had; as many items go as asked for, or all; and while three stale items of each shard suffice, no item used today or yesterday goes |
| `MemoryList.RecentItemsAreKept` | internal/caches/list_memory.go:297-299 | while three stale items from each shard suffice, no recently used item goes |
| `MemoryList.MemoryList.ResetMaps` | internal/caches/list_memory.go:48-53 | empties the shards; the counters still stand for what was there |
| `MemoryList.MemoryList.ResetCount` | internal/caches/list_memory.go:55-55 | what is in the list by then is no longer counted |
| `MemoryList.MemoryList.ResetUsed` | internal/caches/storage_memory.go:276-276 | likewise for the bytes |
| `MemoryList.MemoryList.CleanAll` | internal/caches/storage_memory.go:272-279 | when nothing comes in between, list, counter and byte total are empty and exact together, whatever was lost before |
| `ListReset.StepKeepsInv` | internal/caches/list_memory.go:48-90 | every addition to the counters and every part of a cleaning: how far the counters are off stays as the last stores have left it |
| `ListReset.EveryRunDrifts` | internal/caches/storage_memory.go:272-279 | in every interleaving of adds, removals and cleanings the counters are off by exactly what the last stores have taken, and exact if and only if that is nothing |
| `ListReset.CountIsLostForGood` | internal/caches/list_memory.go:55-55 | the store of the counter takes the items that are there and already counted, and that lasts until the next cleaning; the counter is exact if and only if there were none |
| `ListReset.BytesAreLostForGood` | internal/caches/storage_memory.go:276-276 | the same for the bytes |
| `ListReset.AddDuringCleaning` | internal/caches/storage_memory.go:272-279 | the failing input: an item added during a cleaning is counted nowhere, and its removal takes both counters below zero |
| `ListReset.QuietCleaningIsExact` | internal/caches/storage_memory.go:272-279 | in every interleaving, a cleaning during which nothing is added makes both counters exact, whatever is removed meanwhile |
| `WritingKeys.StepKeepsInv` | internal/caches/storage_memory.go:199-249 | every open and every end keeps: the slots are exactly the keys of unreleased writers, at most one for each key |
| `WritingKeys.EveryRunIsSafe` | internal/caches/storage_memory.go:199-249 | so in every interleaving of opening, closing and discarding, with repeated calls |
| `WritingKeys.EndFreesOwnSlotOnly` | internal/caches/writer_memory.go:116-118 | a call on one writer never frees the slot of another one |
| `WritingKeys.OpensWhenFree` | internal/caches/storage_memory.go:201-205 | an opening that is not refused succeeds exactly when all earlier writers of the key have ended |
| `WritingKeys.OnceIsNeeded` | internal/caches/writer_memory.go:28-28 | without the once-guard a late call would free a newer slot |
| `DirtyQueue.EntryRoundTrip` | internal/caches/storage_memory.go:519-526 | an entry splits back into size and key even when the key contains the separator |
| `DirtyQueue.StepKeepsBalance` | internal/caches/writer_memory.go:139-141 | total and pending addition equal what is queued and being flushed, after every step |
| `DirtyQueue.StepKeepsInv` | internal/caches/writer_memory.go:132-155 | an entry whose size is still to be added has not got past the lock |
| `DirtyQueue.NeverNegative` | internal/caches/storage_memory.go:524-526 | the total is never negative |
| `DirtyQueue.EveryRunIsBalanced` | internal/caches/storage_memory.go:519-535 | in every interleaving: never negative, equal to what is queued and being flushed when the lock is free, zero at rest |
| `DirtyQueue.LockIsNeeded` | internal/caches/storage_memory.go:533-535 | without taking the lock before subtracting the total could go below zero |
| `MemoryStorage.MemoryStorage.OpenWriter` | internal/caches/storage_memory.go:187-249 | which of the three refusals comes, or else success, from queue length, slot, stored item and bytes in use; the writer begins empty with the expiry and status of the response, other writers are left alone, there is room for the announced body and nothing older of the key is left |
| `MemoryStorage.MemoryStorage.Prepare` | internal/caches/storage_memory.go:212-241 | when an opening is refused because an unexpired stored item exists, and what is removed otherwise |
| `MemoryStorage.MemoryStorage.Write` | internal/caches/writer_memory.go:67-94 | the data is appended, also when the body thereby becomes too large, which is exactly when there is an error |
| `MemoryStorage.MemoryStorage.CloseBody` | internal/caches/writer_memory.go:120-155 | which error comes when; what is published; what is queued |
| `MemoryStorage.MemoryStorage.CloseAdd` | internal/caches/writer_memory.go:141-141 | the addition after a sending, still under the lock |
| `MemoryStorage.MemoryStorage.End` | internal/caches/storage_memory.go:244-248 | gives the slot back once |
| `MemoryStorage.MemoryStorage.Close` | internal/caches/writer_memory.go:114-158 | as a whole: what it queues is what it adds, and the slot is given back |
| `MemoryStorage.MemoryStorage.StoreResponse` | internal/caches/storage_memory.go:187-249 | open, write and close: a response is stored with its expiry, status, header and body, and closing fails only for a body of another length than announced or a full queue |
| `MemoryStorage.MemoryStorage.Discard` | internal/caches/writer_memory.go:161-171 | the slot goes once, but the value under the hash goes at every call |
| `MemoryStorage.MemoryStorage.LateClose` | internal/caches/writer_memory.go:114-158 | a late Close frees no slot, but publishes its old item over a newer one and queues it again |
| `MemoryStorage.MemoryStorage.LateDiscard` | internal/caches/writer_memory.go:161-171 | a late Discard frees no slot, but removes the newer value |
| `MemoryStorage.MemoryStorage.FlushReceive` | internal/caches/storage_memory.go:503-510 | receiving an entry, as one step of the protocol |
| `MemoryStorage.MemoryStorage.FlushLookup` | internal/caches/storage_memory.go:519-535 | the value flushed is the one stored for the key that the entry was made for |
| `MemoryStorage.MemoryStorage.FlushSubtract` | internal/caches/storage_memory.go:524-526 | subtracting, as one step of the protocol |
| `MemoryStorage.MemoryStorage.Delete` | internal/caches/storage_memory.go:252-259 | value and list entry of the key go together |

## Left out

- PartialFile.PartialFileWriter.Close: the recorded header length is that of the header for headers below 4 GiB; failing system calls are not modelled, and a discarded file is simply gone.
- PartialHistory.RunSessions: all or none of the sessions bring a digest, which tells their bodies apart; sessions of changing bodies that declare a length also set it; a header is not empty and has at most one appended line. A slice that begins further than 32, 64 or 128 MiB beyond what is covered when it is written may be postponed.
- PartialStitch.ServeOpenEnded: that EnableIncompletePartialContent is on and the request is for one range are taken as given. Which of the chunks that hold covered positions are placed depends on how the answer is cut into reads.
- PartialStitch.RestFromOrigin: a failing deletion or read is not modelled.
- PartialRestart.Restart: one session, whose slices are those of the body with the new length; the ranges handed on are sorted with gaps, as every set built by additions is; the comparison of digests that comes before it is the subject of `PartialHistory.OpenSession`.
- FileCache.StoreAndFetch: expiry and header length below 2^32 and body length below 2^63, the widths of the record's fields.
- FileCache.FileReader.ReadBodyRange: the callback always asks for more; a failing read or callback is not modelled.
- BodyRange.ReadersAgree: requests inside the body only; beyond it the memory reader cuts, the file reader reads on to the end of the file, and the mmap reader reports an unexpected end.
- RangesQueue.EveryRunIsSafe: the shards of the waiting map are one map, and `Delete` racing a dump is not modelled.
- MetricStore.InsertKeepsAgreement: the hash function is a parameter that makes non-empty decimal strings and tells servers apart; times contain no underscore; values, servers and versions are non-negative; a stored value does not exceed 63 bits. Totals wrap at 2^64 as in the source.
- MetricTask.KVTask.UploadServerStats: values are sent as numbers, not as float32, and the upload itself is a parameter that says whether it succeeds.
- Cidr.IPv4RangeToCIDRRange: the end is below 255.255.255.255 (see `Cidr.PassesToLastAddress`) and not below the start, for which the source exits; floating logarithms and powers are integer ones; blocks are pairs of address and prefix length instead of texts.
- Cidr.PassesToLastAddress: not from 0.0.0.0, whose range of all addresses has length 0 in uint32; the logarithm of 0 is converted to an integer differently from platform to platform, and so are the passes after the wrap.
- IPLists.SearchIsComplete: for ranges that do not overlap; `IPLists.SearchIsExact` is the statement for all lists.
- IPListState.IPList.Add: an item is a value, so a caller that changes an item it has passed is not modelled; the order of addresses is a parameter, as CompareBytes is not part of this model; expiry lists call `Delete` from outside.
- MemoryList.MemoryList.Add: the index is used after Init, when every shard exists; the callbacks of the storage are taken to be installed.
- MemoryList.MemoryList.CleanAll: as one step; its parts beside other operations are the subject of `ListReset`, where an operation's additions to the counters may come in any order and an eviction is a removal like any other.
- MemoryList.MemoryList.PurgeLFU: the callback that follows the eviction is not modelled, nor are the prefix and wildcard cleanings, which only set expiry times.
- MemoryStorage.MemoryStorage.OpenWriter: capacity and time are parameters; `Stop`, the ignored keys and the polling for the list entry before a flush are not modelled.
- MemoryStorage.MemoryStorage.Write: the prepared-buffer branch is never entered in the source, which sets no item to prepared.
- Range records in the old JSON format: they are read by the JSON library; what the model has of them is their version, 0.
- Real disks, file locks, rate limiters, mmap calls, tickers and goroutine scheduling: files are byte sequences, steps are atomic under their locks.
- SQLite and pebble internals, RPC, JSON and protobuf: key-value tables are maps ordered by bytes.
- `BaseTask.Add`, connection limiter, CC thresholds, recent-IP window, open-file cache: easy, or racing outside any lock.
- HTTP plumbing, reverse proxy, WAF, JavaScript bindings, compression and node status: branching over configuration types that are not part of this model.
