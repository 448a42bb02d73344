# A model of the deduplicating local storage service

The service stores files under (bucket, key). Rows of a `files` table point at bytes on disk; identical
content is stored once and shared by several rows; uploads may be compressed and encrypted; deletes are
reference-counted; reads go through a metadata cache and a content cache; files may carry a deadline after
which they are deleted lazily or by a sweep. All of this is meant to look like a plain map from (bucket, key)
to content. This project models that machinery and proves when, and exactly when, it does.

The store is modelled twice: `Store` gives every operation as a function on the whole state (rows, disk,
cache backend, keys, buckets), and `Managers` gives it as objects that change step by step, each method
proved equal to its function. The properties are then proved of the functions.

| module | what it holds |
|---|---|
| `Base`, `Text`, `Sorting`, `Percent` | shared vocabulary, string operations, sorting, percent-encoding and UTF-8 |
| `Pipeline`, `Ciphers`, `Streaming` | compress-then-encrypt and its inverse, cipher set-up, the streaming loops |
| `Cache`, `Store`, `Managers`, `Preload` | the cache backend, the state functions, the step-by-step managers, pre-caching |
| `Integrity`, `Coherence`, `Accounting`, `Paths` | what every operation keeps, and exactly when |
| `Records` | what rows say and operations answer, column by column and error by error |
| `Departures`, `Histories` | where the code departs from the simple story, and short runs that get there |
| `Deletes`, `Leaks`, `Races`, `Readers`, `LateReaders` | deletes interleaved with each other, with the steps of uploads, and with reads |
| `Crash`, `Runs` | crash points, refinement of a plain map over whole runs |
| `Ranges` | `Range` headers and the three ways of serving them |
| `Canonical`, `SigV4`, `Disposition`, `FolderTree` | request signatures, the upload key header, the UI's folder view |
| `Toy` | concrete codecs and digests that meet the contracts |

Hashing, gzip, zstd, the two AEAD ciphers, SHA-256, HMAC and the timestamp parser are parameters. Their
contracts are that decoding undoes encoding and that hexadecimal text is what it says; only reading under
other encryption settings than those of the upload also needs that opening never lengthens and that another
key does not give the data back. The store's map view needs that the hash tells an upload's content from
the stored contents it meets. Clock readings, row ids, nonces, the row a `LIMIT 1` query picks, whether an insert is
accepted, what the cache evicts and how short a read is are inputs or free choices.

A guard is stated where the code needs one, and it is something a caller can look up before the call: an
upload's bytes land on no other row, or fit it; cache entries it will not rewrite agree with it; bytes found
by hash have the content meant; a dropped bucket's directory holds no other bucket's bytes; what a download
asks for needs no switched-off decoding. The guards are exact: `Runs.RightExactlyWhenGuarded` proves a run
right at every step if and only if it is guarded. The other places where the code fails have exact conditions
too: `Integrity.UploadIntegrity`, `Integrity.DeleteBucketIntegrity`, `Coherence.StoreKeepsCoherence`,
`Coherence.ReadsAreCounted`, `Cache.KeysCollideAtColons`, `Accounting.StepAccounting`, `Ranges.AllBranchesAgree`,
`Ranges.AgreesWithStandard`, `Pipeline.RoundTrip`, `Crash.WriteIsAtomic`, `Crash.UploadIsCrashSafe`,
`Crash.StoreIsCrashSafe`, `Deletes.SafeExactlyWhenTruthful`, `Deletes.UploadBetweenDeletes`, `Races.SplitAlias`,
`Races.SplitWrite`, `LateReaders.CoherentExactlyWhenNoneLate`, `Leaks.LeakFreeExactlyWhenSharersStay`.
`Histories` shows short runs from a fresh store that end outside.

Where code and comments disagree the model follows the code. The comment on writing files promises that
readers never see a partial file; the temporary name makes that false for keys ending in `.tmp`. The comment
on ranges names RFC 7233, whose positions are digits only and of any size, and whose unit matches in any
case; the parser skips a leading plus sign, knows the unit in lower case only, and answers positions of 2^64
or more with 416, so `bytes=0-18446744073709551616` does not get the file. That comment also promises the whole
file for every value the parser does not understand; the handler answers 416 to those with the unit and no comma.

## Model

| member | source | states |
|---|---|---|
| Runs.RunRefines | local-storage/src/storage.rs:86-690 | After any guarded run of uploads, range and info requests, deletes, bucket deletes, sweeps, evictions, pre-caching and key changes, integrity and cache coherence hold and every answer on the way is the one a plain map from (bucket, key) to content gives |
| Runs.RightExactlyWhenGuarded | local-storage/src/storage.rs:86-690 | The guards are exact: a run over colon-free buckets keeps integrity and coherence and gives the plain map's answers and effects at every step if and only if every operation meets its guard where it starts |
| Runs.StepRefines | local-storage/src/storage.rs:86-690 | One operation of any kind, from any state satisfying the invariant, keeps the invariant and acts on the plain map as that operation should if and only if it meets its guard; deletes, sweeps, info requests, pre-caching, evictions and key changes have none |
| Runs.PutRefines | local-storage/src/storage.rs:86-283 | An upload keeps the invariant and is one map update (its key bound to its content, every other file's content, type and deadline kept; nothing changed when it fails; only an identical re-upload may keep the old type and deadline), and returns a row with the size, type and deadline bound, if and only if it takes no row's bytes, leaves no cache entry belied, and bytes it finds or writes over have the content meant |
| Runs.FreeTargetIsEnough | local-storage/src/storage.rs:86-283 | A free target, a safe cache and no hash collision among stored contents meet that guard |
| Runs.FetchRefines | local-storage/src/handlers/file_handlers.rs:331-477 | A download never breaks the invariant, and is what the plain map gives (the reference answer, or not found with the expired file removed) if and only if the file is missing, expired, or servable for the range asked |
| Runs.SweepRefines | local-storage/src/storage.rs:596-611 | A sweep removes from the map exactly the files with a deadline strictly in the past and returns how many; files without a deadline stay |
| Runs.DropBucketRefines | local-storage/src/storage.rs:625-690 | Deleting a bucket keeps the invariant, succeeds exactly when the bucket exists and removes exactly its files from the map if and only if the bucket does not exist or no other bucket's bytes lie in its directory |
| Runs.InfoRefines | local-storage/src/storage.rs:571-584 | File info reports the size, type and deadline of the file the map holds, and removes the file when its deadline has passed |
| Runs.InjectiveHashTellsApart | local-storage/src/performance_optimizations.rs:7-24 | A collision-free hash meets the content part of every upload's guard |
| Runs.FirstUploadIsGuarded | local-storage/src/storage.rs:86-283 | Any upload into a fresh store meets its guard, so guarded runs exist |
| Runs.EmptyStore | local-storage/src/storage.rs:54-79 | A fresh store satisfies the invariant and shows the empty map |
| Records.InfoIsTrue | local-storage/src/storage.rs:571-584 | What file info returns of an unexpired file is its row, and every column is true: the content's size, type, deadline and hash, a path on disk, and the length of the bytes there |
| Records.UploadedRow | local-storage/src/storage.rs:107-283 | The row an upload returns, column by column: an identical upload's is the old row; an alias has the found row's path, sizes and encoding, and its type unless one is given; a write has its own path, both sizes and the general type unless one is given; new rows have the drawn id, the content's hash, the deadline asked for and no reads |
| Records.UploadSavesTheRow | local-storage/src/storage.rs:107-269 | A successful upload saves the row it returns, but for the id of a row that was there; a failed one saves nothing; no other row changes |
| Records.UploadWrites | local-storage/src/storage.rs:107-276 | Only a write that can be encoded touches the disk: the encoded bytes go to the file's own path, its temporary sibling goes, a refused insert takes both away, and every other path stays; without a saved write the cache stays too |
| Records.UploadBranch | local-storage/src/storage.rs:107-116 | An upload writes if and only if deduplication is off or no row has its hash; it keeps the old row only if that has the hash, and aliases only another row that has it |
| Records.UploadErrors | local-storage/src/storage.rs:86-283 | An upload fails exactly when a write cannot be encoded, with that error, or when the insert is refused; the bucket is there either way |
| Records.SavedColumns | local-storage/src/database.rs:42-120 | Saving a row replaces every column but the id of a row that is there, and touches no other row |
| Records.MissingThings | local-storage/src/storage.rs:513-690 | Deleting or asking for a file that is not there is not found and changes nothing; deleting one takes its row only; deleting a bucket is an invalid bucket exactly when it does not exist, and then changes nothing; a deleted bucket is gone |
| Records.Deadlines | local-storage/src/storage.rs:316-322 | A request treats a file as expired from the moment of its deadline on, the sweep only after it |
| Records.ReadsWarmTheCache | local-storage/src/storage.rs:303-367 | After a served read the file's metadata is cached, as it was or as its row, and so are its bytes up to 1024 times 1024 |
| Records.PrecacheCaches | local-storage/src/cache.rs:308-318 | Pre-caching puts the bytes of a file on disk into the cache under the same bound and returns how many they are; without the file it fails and changes nothing |
| Integrity.StoreKeepsIntegrity | local-storage/src/storage.rs:86-283 | Reusing and aliasing always keep every row's bytes on disk and restorable to its hash and sizes; writing does so when no surviving row uses the target path or its temporary sibling |
| Integrity.OverwriteIntegrity | local-storage/src/storage.rs:223-269 | A successful write keeps integrity if and only if every other row stays clear of the target path and its temporary sibling, or sits at the target and happens to be fitted by the new bytes in size, encoding and hash |
| Integrity.NewBytesFitNoAlike | local-storage/src/storage.rs:108-172 | With deduplication on, new bytes never fit a row that is encoded like them |
| Integrity.AlikeOverwriteIntegrity | local-storage/src/storage.rs:223-269 | So with deduplication on, and other rows at the target path encoded alike, the free target is exactly the condition under which a successful write keeps integrity |
| Integrity.FailedInsertIntegrity | local-storage/src/storage.rs:261-269 | When the insert fails and the bytes are cleaned up, integrity survives exactly when no row at all uses the target path or its temporary sibling |
| Integrity.UploadIntegrity | local-storage/src/storage.rs:86-283 | An upload of any kind keeps integrity if and only if it writes nothing, or its saved bytes leave every other row alone or fit it, or its refused insert met a free target |
| Integrity.NewRowIsIntact | local-storage/src/storage.rs:177-259 | The row an upload writes restores, from the bytes it wrote, to the uploaded content, with the right hash and sizes, and is shorter than it where it is flagged compressed |
| Integrity.GetKeepsIntegrity | local-storage/src/storage.rs:303-367 | Reading keeps integrity, including its lazy deletes |
| Integrity.ReapKeepsSurvivors | local-storage/src/storage.rs:527-555 | Whatever rows are deleted, every surviving row keeps its row and its exact bytes, also when it shares them with deleted rows |
| Integrity.DeleteExtendsReap | local-storage/src/storage.rs:513-564 | A reference-counted delete after any batch of deletes is the batch with one more row: order never matters |
| Integrity.DeleteIsReap | local-storage/src/storage.rs:513-564 | One delete drops the row and both cache entries, and the bytes exactly when no other row uses them |
| Integrity.DeletesCountReferencesExactly | local-storage/src/storage.rs:513-564 | If the disk holds exactly the referenced paths, it still does after any sequence of deletes: bytes go exactly with their last alias |
| Integrity.DeleteBucketIntegrity | local-storage/src/storage.rs:681-686 | Deleting a bucket keeps integrity if and only if no row of another bucket has its bytes inside the removed directory |
| Coherence.CacheIsTransparent | local-storage/src/storage.rs:303-367 | Reads through both caches, whatever they hold or drop half-way, return what rows and disk alone return; the cache stays coherent, and rows and disk change only by a lazy delete or an access count |
| Coherence.StoreKeepsCoherence | local-storage/src/storage.rs:139-276 | An upload of any kind, to any target, keeps the cache coherent if and only if the entries it does not rewrite still agree: those of its own file after aliasing or a write above 1 MiB, and the contents of other files whose path it writes |
| Coherence.LargeWriteCoherence | local-storage/src/cache.rs:167-178 | To a free target, a write above 1 MiB leaves an older content entry in place: coherent afterwards if and only if that entry is absent or happens to equal the new bytes |
| Coherence.AliasOverCachedFileIsNotSeen | local-storage/src/storage.rs:139-169 | After an aliasing upload over a file with cached metadata, and whatever else the cache drops, readers get exactly what they got before it; when the content is new, never the uploaded content |
| Coherence.AliasOverCachedContentIsMixed | local-storage/src/storage.rs:139-169 | With the metadata dropped and the content still cached, they get the old bytes decoded and labelled as the new row says; once the content entry is dropped too, the new file |
| Coherence.ReadsAreCounted | local-storage/src/database.rs:161-170 | A served read adds one to the access count of its row if and only if the cached metadata, when there is any, carries that row's id; with distinct ids every other row stays as it is |
| Coherence.WriteBranchView | local-storage/src/storage.rs:270-276 | After a successful write the cache holds the new row, and the new bytes up to 1 MiB, for that file only |
| Coherence.DeleteKeepsCoherence | local-storage/src/storage.rs:558-560 | Deleting a file leaves no cache entry behind that its row no longer backs |
| Cache.KeysAreSeparate | local-storage/src/cache.rs:127-181 | Metadata and content keys never collide, and both key formats are injective over buckets without a colon |
| Cache.KeysCollideAtColons | local-storage/src/cache.rs:127-181 | A file shares its metadata key, and its content key, with some other file if and only if its bucket or its key contains a colon |
| Cache.PutContentView | local-storage/src/cache.rs:167-178 | Caching content affects that file's content entry only, and nothing above 1024 times 1024 bytes |
| Cache.PutMetaView | local-storage/src/cache.rs:148-154 | Caching metadata affects that file's metadata entry only |
| Cache.InvalidateView | local-storage/src/cache.rs:180-186 | Invalidating a file drops both of its entries and no one else's |
| Cache.InvalidateAllView | local-storage/src/cache.rs:180-186 | Invalidating the files of a bucket or a sweep drops their entries and no one else's |
| Paths.TempIsTarget | local-storage/src/performance_optimizations.rs:47 | The temporary sibling is the target itself exactly for names that end in .tmp after a non-empty stem, or .. |
| Paths.TempReplacesExtension | local-storage/src/performance_optimizations.rs:47 | All files of a directory that differ only in extension share one temporary sibling |
| Paths.TempCollidesWithAnotherKey | local-storage/src/performance_optimizations.rs:47 | Storing notes.txt goes through the path of the file notes.tmp |
| Paths.PathsAreInjective | local-storage/src/storage.rs:777-779 | Files in buckets without a slash never share a path of their own |
| Paths.HomeTargetsAreFree | local-storage/src/storage.rs:223-227 | Without aliasing, a new upload's target is free exactly when no other file sits at its temporary sibling |
| Paths.UploadsStayHome | local-storage/src/storage.rs:108-172 | With deduplication off, every row keeps living at its own path |
| Paths.FilePath | local-storage/src/storage.rs:777-779 | A file's path is base, bucket and key with a slash between any two, and starts with its bucket's directory |
| Paths.TempAddsExtension | local-storage/src/performance_optimizations.rs:47 | A name without a dot, or with only a leading one, gets .tmp appended |
| Deletes.InterleavedDeletesAreSafe | local-storage/src/storage.rs:513-556 | However any number of deletes interleave between select, count, delete-and-commit and unlink, at every moment each surviving row still has exactly its bytes |
| Deletes.FinishedDeletesAreCoherent | local-storage/src/storage.rs:558-560 | Once all interleaved deletes have returned, the cache is coherent again |
| LateReaders.CoherentExactlyWhenNoneLate | local-storage/src/storage.rs:303-367 | With reads in flight among deletes in flight, evictions at any moment, every schedule that runs them to their end leaves the cache coherent if and only if no reader is yet to cache something of a file that is gone or that somebody else is going to delete |
| LateReaders.FreshReadsAmongDeletes | local-storage/src/storage.rs:303-367 | From the start: reads and deletes issued at once end coherent under every schedule if and only if no existing file that is read is deleted by somebody else, lazy deletes of expired files included |
| LateReaders.UninterruptedRead | local-storage/src/storage.rs:303-367 | A read run step by step without interruption leaves the state that the sequential read leaves |
| Deletes.UninterruptedCall | local-storage/src/storage.rs:513-564 | A delete run step by step without interruption is the delete of the sequential model |
| Deletes.SafeExactlyWhenTruthful | local-storage/src/storage.rs:513-556 | For deletes already under way, every schedule of the remaining steps keeps every row's bytes if and only if each delete that counted no other reference is still right about it |
| Deletes.UploadBetweenDeletes | local-storage/src/storage.rs:108-283 | An upload between the steps of deletes is safe under every schedule if and only if it takes no row's bytes and no delete in flight that counted zero is yet to unlink the path of the row it saves |
| Races.SplitAlias | local-storage/src/storage.rs:107-168 | An aliasing upload whose save comes any number of steps of deletes after its hash query is safe under every schedule if and only if no call in flight can unlink the path it found: none has counted it alone, and none is yet to count it with all other rows there on their way out |
| Races.SplitWrite | local-storage/src/storage.rs:107-269 | Likewise for an upload that writes to a free target, with deletes before the write, between write and save, and after |
| Races.UnsplitUploads | local-storage/src/storage.rs:107-269 | With no step of a delete in between, save, or write and save, leave the rows and the disk of the sequential upload |
| Leaks.LeakFreeExactlyWhenSharersStay | local-storage/src/storage.rs:513-556 | From a disk that holds exactly the used bytes, every schedule that runs a set of deletes to their end leaves exactly the used bytes if and only if, of several rows on one path, one is not being deleted |
| Deletes.AliasDuringDeleteBreaks | local-storage/src/storage.rs:108-172 | From a delete's call on: an aliasing upload between its count and its unlink loses its bytes |
| Crash.FileSystem.WriteFileAtomic | local-storage/src/performance_optimizations.rs:43-53 | Ends with the new content at the target, and passes only through the states of a write to the temporary sibling |
| Crash.FileSystem.WriteFile | local-storage/src/performance_optimizations.rs:27-39 | Ends with the whole content, and only ever shows a prefix of it |
| Crash.WriteIsAtomic | local-storage/src/performance_optimizations.rs:41-53 | Readers of the target see the old or the whole new content at every crash point if and only if the target is not its own temporary sibling, or the content is empty, or it is one byte over an empty file |
| Crash.MidWriteIsHarmless | local-storage/src/storage.rs:223-229 | While bytes are on their way to a free target, the invariant holds and the map is unchanged at every crash point |
| Crash.FreshStoreIsCrashSafe | local-storage/src/storage.rs:86-276 | A store to a fresh key, in a new bucket or not, can stop at any step: the invariant holds and the map is the old one, or the old one with the new file |
| Crash.StoreIsCrashSafe | local-storage/src/storage.rs:86-276 | Under the same hypotheses as for the rows alone, an upload leaves rows, cache and map in order wherever it stops if and only if no row uses the target or its temporary sibling, no metadata of the file is cached, and no content of it but the new bytes |
| Crash.LastStageIsStore | local-storage/src/storage.rs:223-276 | The stages end in the state the sequential upload ends in |
| Crash.FailedStoreLeavesNoTrace | local-storage/src/storage.rs:261-269 | A failed insert with cleanup leaves rows, disk and cache unchanged if and only if neither the target nor its temporary sibling existed |
| Crash.WriteIsCrashSafe | local-storage/src/storage.rs:223-229 | All rows are intact wherever a write of any bytes stops if and only if each row stays clear of the target and its temporary sibling, or is fitted by every state of the target |
| Crash.UploadIsCrashSafe | local-storage/src/storage.rs:223-276 | With deduplication on, and the rows at the target encoded alike, an upload leaves all rows intact wherever it stops if and only if no row at all, its own old one included, uses the target or its temporary sibling |
| Accounting.RunAccounting | local-storage/src/storage.rs:86-690 | Over whole runs of every operation, guarded or not, the disk holds exactly the bytes some row uses at every moment if and only if every upload and bucket delete meets its need |
| Accounting.StepAccounting | local-storage/src/storage.rs:86-690 | One operation keeps that if and only if it meets its need; all but uploads and bucket deletes have none |
| Accounting.UploadAccounting | local-storage/src/storage.rs:108-276 | An upload leaks no bytes and takes none if and only if an overwritten row's old path is the new one, its temporary sibling, or still used, and the write takes no other row's bytes |
| Accounting.DropBucketAccounting | local-storage/src/storage.rs:625-690 | A bucket delete does if and only if no row of another bucket lives in its directory |
| Histories.DroppedBucketTakesAliases | local-storage/src/storage.rs:625-690 | From a fresh store: upload, alias from another bucket, drop the first bucket; the second file has lost its bytes |
| Histories.OverwrittenHomeBreaksAliases | local-storage/src/storage.rs:223-269 | From a fresh store: upload, alias under another key, overwrite the first; the second file is broken |
| Histories.RefusedOverwriteLosesTheFile | local-storage/src/storage.rs:261-269 | From a fresh store: upload, overwrite with a refused insert; the file has lost its bytes |
| Histories.AliasOverwriteServesTheOldContent | local-storage/src/storage.rs:139-169 | From a fresh store: upload A to k, B to j, B to k; reading k serves A, whatever content entries are dropped |
| Histories.LargeOverwriteServesTheOldContent | local-storage/src/cache.rs:167-178 | From a fresh store: upload a small file, overwrite it with one above 1 MiB; reading it serves the small one while its content is cached |
| Histories.DeletingAllAliasesCanLeak | local-storage/src/storage.rs:513-556 | From a fresh store: upload, alias, delete both at once; some interleaving leaves the bytes behind |
| Histories.DeleteBetweenQueryAndSave | local-storage/src/storage.rs:107-168 | From a fresh store: upload, delete it between another upload's hash query and its save; some interleaving saves that row onto gone bytes |
| Histories.ReadDuringDeleteLeavesAStaleEntry | local-storage/src/storage.rs:303-357 | From a fresh store: upload, read and delete it at once; some interleaving leaves the deleted file in the cache |
| Departures.IdenticalReuploadKeepsOldRow | local-storage/src/storage.rs:110-116 | An identical re-upload changes no row, byte or cache entry and returns the old row, deadline included |
| Departures.OverwriteSplitsRowIds | local-storage/src/database.rs:38-41 | An overwrite keeps the row's id in the table while the cached row carries the new id |
| Departures.ReadsAfterOverwriteAreNotCounted | local-storage/src/database.rs:161-170 | While that cached row lives, any number of reads of the overwritten file, with any other evictions, change no access counter |
| Departures.SwitchedOffBranchesDisagree | local-storage/src/compression.rs:44-47 | With compression switched off, a compressed file is served decoded in ranges, and as its raw, shorter bytes when asked for whole |
| Pipeline.RoundTrip | local-storage/src/storage.rs:173-221 | Decoding undoes compress-then-encrypt, under any later key table, compression and encryption settings, if and only if compressed rows meet an enabled decompressor, the row's key is still active and rows under the configured cipher meet that cipher again; or a compressed row under another cipher happens to decompress to the content from other bytes |
| Pipeline.DecryptionIsExact | local-storage/src/crypto.rs:107-193 | Decrypting an upload gives the compression stage's bytes back if and only if encryption is switched as it was with the same key, or the row's own key is found |
| Pipeline.FlaggedMeansSealed | local-storage/src/storage.rs:204-221 | Bytes flagged encrypted are a nonce-prefixed envelope if and only if the upload named a key or encryption is on; otherwise they are the compression stage's bytes in the clear |
| Pipeline.CompressedIsTagged | local-storage/src/storage.rs:177-202 | Bytes flagged compressed carry tag 1 or 2, are strictly smaller, and decompress to the content under every enabled configuration; unflagged bytes are the content itself |
| Pipeline.EncodeRestores | local-storage/src/storage.rs:492-511 | What an upload writes restores to the uploaded content under every later key table and compression configuration |
| Pipeline.SwitchedOffDecompression | local-storage/src/compression.rs:44-47 | With decompression switched off, a compressed row decodes to its compressed bytes, shorter than its content, or fails |
| Pipeline.OpenSeal | local-storage/src/crypto.rs:145-193 | Opening undoes sealing through the nonce-prefixed envelope |
| Pipeline.AlgorithmNamesRoundTrip | local-storage/src/crypto.rs:18-32 | Printing and parsing algorithm names are inverse to each other; aes-gcm and chacha20poly1305 are the only names, all others are an invalid algorithm |
| Pipeline.CompressedExactlyWhen | local-storage/src/storage.rs:177-202 | Content is stored as the tag and output of the codec and level chosen if and only if compression is asked for, or configured and not declined, the content is not empty and reaches the minimum size, and tag and output together are shorter than it; otherwise it is stored as it is |
| Pipeline.EncodingRecords | local-storage/src/storage.rs:173-259 | An upload is flagged encrypted if and only if it asks for it, or says nothing and encryption is configured on; it is flagged compressed exactly when compression applies; the cipher is recorded exactly for encrypted rows, the key id as given |
| Pipeline.EncodeFailsExactlyWhen | local-storage/src/storage.rs:204-221 | Encoding fails exactly when encryption is wanted and the configured cipher is unknown, the named key is missing, inactive or not 32 bytes, no cipher is set up, or the cipher fails, each with its own error; compression never makes it fail |
| Pipeline.DecodeErrors | local-storage/src/storage.rs:492-511 | Decoding fails with an invalid algorithm or a key error exactly when the recorded cipher is unknown or the row's key is missing or inactive; other failures are the cipher's of encrypted rows or the codec's of compressed ones; no recorded cipher means AES-GCM |
| Pipeline.UntaggedData | local-storage/src/compression.rs:44-86 | Untagged data is decompressed under gzip if it has the magic bytes, under zstd if it is a complete stream, and is left alone otherwise; any other algorithm is an error |
| Pipeline.TaggedData | local-storage/src/compression.rs:44-86 | Tag 1 is decoded by gzip, tag 2 by zstd, each to its whole output or an error when it breaks off; nothing decodes to nothing |
| Pipeline.CompressErrors | local-storage/src/compression.rs:16-42 | Compressing fails exactly when there is something to compress and the codec is unknown or fails itself; data too small, or with compression off, stay as they are |
| Pipeline.EnvelopeLayout | local-storage/src/crypto.rs:145-193 | An envelope is the 12 bytes of its nonce and the ciphertext, both ways; shorter data cannot be opened |
| Pipeline.WrongKeyLengthIsRefused | local-storage/src/crypto.rs:145-193 | Keys of another length than 32 bytes are refused both ways |
| Ciphers.ConfigureIsWellFormed | local-storage/src/crypto.rs:42-105 | An accepted configuration has a 32-byte key for exactly its own algorithm, and none when encryption is off |
| Ciphers.GlobalEncryptionSucceeds | local-storage/src/crypto.rs:107-116 | With an accepted, enabled configuration, encryption under the global key fails only if the cipher does |
| Ciphers.ConfiguredKey | local-storage/src/crypto.rs:56-105 | With encryption on, set-up succeeds if and only if the algorithm is one of the two names and the key is absent, 32 characters, or 64 hexadecimal digits; the cipher's key is then the random bytes, the characters, or the bytes the digits list |
| Ciphers.SwitchedOff | local-storage/src/crypto.rs:42-54 | With encryption off set-up succeeds whatever the rest of the configuration says |
| Ciphers.HexDecodesExactly | local-storage/src/crypto.rs:60-68 | Hexadecimal decoding gives the bytes whose two digits each the text lists in order, and nothing for any other text |
| Ciphers.HexDigits | local-storage/src/crypto.rs:60-68 | The digits are those of base sixteen in either case |
| Ciphers.CryptoManager.InitCipher | local-storage/src/crypto.rs:56-105 | Sets the fields the configuration calls for, or sets none and reports exactly the error it leads to |
| Ciphers.CryptoManager.EncryptData | local-storage/src/crypto.rs:107-116 | Identity when encryption is off, else the nonce-prefixed ciphertext under the configured key |
| Ciphers.CryptoManager.EncryptDataWithKey | local-storage/src/crypto.rs:145-170 | Refuses keys that are not 32 bytes, else the nonce-prefixed ciphertext |
| Streaming.CompressionManager.ReadRange | local-storage/src/compression.rs:101-140 | Both loops, over arbitrary short reads, return exactly the requested slice of the decoded stream, cut off at its end, or the error of a stream that breaks off before the range is filled |
| Streaming.CompressionManager.ReadZstd | local-storage/src/compression.rs:170-187 | The 4 KiB read loop returns the whole decoded stream, or the decoder's error |
| Streaming.CompressionManager.CompressBuffer | local-storage/src/compression.rs:16-42 | Tag byte and codec output, or the data unchanged when too small or disabled |
| Streaming.RangeIsSliceOfDecode | local-storage/src/compression.rs:88-140 | A streamed range is the slice of the full decode, for every start and length, empty data included |
| Streaming.BrokenStreams | local-storage/src/compression.rs:101-140 | A stream that breaks off gives every range before the break and an error for all others |
| Streaming.UnknownFormats | local-storage/src/compression.rs:101-140 | Nothing is answered exactly without a known tag, or when zstd does not begin to read |
| Streaming.RangesJoin | local-storage/src/compression.rs:101-140 | Two adjacent ranges join to the range over both |
| Streaming.Decoder.Read | local-storage/src/compression.rs:120-131 | A read hands out between one byte and what was asked for, in order, and nothing only at the end |
| Ranges.ParseRangeIsExact | local-storage/src/handlers/file_handlers.rs:301-328 | The parser answers with exactly the positions of the range it takes the header for, numerals read as 64-bit parsing reads them, and answers nothing exactly when it takes it for none or the range selects none |
| Ranges.NumeralsAreTaken | local-storage/src/handlers/file_handlers.rs:301-328 | Without a plus sign a position is read exactly when it is one or more digits of a value below 18446744073709551616 |
| Ranges.TakenRange | local-storage/src/handlers/file_handlers.rs:301-328 | For each of the three forms the bounds computed are that form's positions, clamped to the file |
| Ranges.AgreesWithStandard | local-storage/src/handlers/file_handlers.rs:301-328 | Its answer is what a header selects under section 2.1 of RFC 7233 if and only if the text does not read as a satisfiable range by skipping a plus sign, and names no satisfiable range with a position of 2^64 or more or with its unit in another case |
| Ranges.OversizedPositions | local-storage/src/handlers/file_handlers.rs:301-328 | Every range from a position in the file to an end of 2^64 or more selects positions, and is refused as unsatisfiable |
| Ranges.OversizedSuffixes | local-storage/src/handlers/file_handlers.rs:301-328 | So is every suffix length of 2^64 or more on a non-empty file |
| Ranges.PlusSignsAreSkipped | local-storage/src/handlers/file_handlers.rs:301-328 | Plus signs before positions are skipped, where the standard sees no range |
| Ranges.AllBranchesAgree | local-storage/src/handlers/file_handlers.rs:366-472 | Direct seek, streamed decompression and full decode give the reference answer (same bytes, same bounds, true decoded length), for every header and cache content and whatever the cache drops on the way, if and only if the row is readable, or the range selects nothing, or it is satisfiable on a tagged, unencrypted row |
| Ranges.WholeAnswer | local-storage/src/storage.rs:492-511 | The full decode gives the reference answer exactly for rows whose key is active and whose compression is switched on; otherwise it fails or gives something shorter |
| Ranges.PlainRange | local-storage/src/storage.rs:376-425 | The direct seek answers exactly for plain rows, with the requested slice of the content |
| Ranges.StreamedRange | local-storage/src/storage.rs:438-488 | The streamed branch answers exactly for compressed, unencrypted, tagged rows, with the requested slice of the content |
| Ranges.RangesAreCounted | local-storage/src/storage.rs:376-488 | Both fast paths cache the file's metadata, add one access to the row it names exactly when they serve, and change nothing else |
| Ranges.FastPathsDecline | local-storage/src/storage.rs:376-488 | Files of the other kind and ranges past the end are left to the full decode; a missing row is not found; missing bytes, or too few for a seek, are an input error |
| Ranges.GoneIsNotFound | local-storage/src/handlers/file_handlers.rs:366-449 | A missing or expired file is not found, with or without a range |
| Ranges.FailuresAreTheReads | local-storage/src/handlers/file_handlers.rs:331-477 | Whatever fails, fails with the error of reading the file from rows and disk alone; without a range header the answer is the content that read gives |
| Ranges.PartialAnswer | local-storage/src/handlers/file_handlers.rs:366-472 | To a header taken for a range that selects something, the reference answer is partial: exactly the positions selected, the true total and type |
| Ranges.OtherAnswers | local-storage/src/handlers/file_handlers.rs:366-472 | To every other header it is 416 if and only if the value has the unit and no comma after it, and the whole content otherwise; without a header too |
| Ranges.ListsGetEverything | local-storage/src/handlers/file_handlers.rs:301-472 | A list of ranges gets the whole content |
| Managers.StorageManager.StoreFile | local-storage/src/storage.rs:86-283 | The step-by-step upload ends in the state, and returns the result, of the state function |
| Managers.StorageManager.GetFile | local-storage/src/storage.rs:303-367 | The step-by-step read, with evictions between its cache lookups, is the state function |
| Managers.StorageManager.DeleteFile | local-storage/src/storage.rs:513-564 | Select, count, delete, unlink and invalidate are the state function |
| Managers.StorageManager.SweepExpiredFiles | local-storage/src/storage.rs:596-611 | The loop of single deletes, in any order, drops exactly the expired rows at once and returns their number |
| Managers.StorageManager.DeleteBucket | local-storage/src/storage.rs:625-690 | Cascade, clean-up loop and directory removal are the state function |
| Managers.StorageManager.CleanUp | local-storage/src/storage.rs:657-679 | The loop unlinks exactly the files no remaining row uses and invalidates every file of the bucket |
| Managers.StorageManager.EncodeContent | local-storage/src/storage.rs:173-221 | The rebinding of the content through both stages is the pipeline function that Pipeline.EncodingRecords and Pipeline.CompressedExactlyWhen are about |
| Managers.StorageManager.DecodeContent | local-storage/src/storage.rs:492-511 | Decryption, then decompression, is the pipeline function |
| Managers.StorageManager.GetFileInfo | local-storage/src/storage.rs:571-584 | The row as it is, or its lazy delete when expired: the state function that Records.InfoIsTrue and Runs.InfoRefines are about |
| Managers.StorageManager.GetFileRangeIfPlain | local-storage/src/storage.rs:376-425 | Seek and exact read are the state function |
| Managers.StorageManager.GetCompressedFileRange | local-storage/src/storage.rs:438-488 | Reading and streaming the stored bytes are the state function |
| Managers.HandleFileRequest | local-storage/src/handlers/file_handlers.rs:331-477 | The handler's branches in order, with evictions before and within each attempt, are the state function |
| Managers.DatabaseManager.SaveFile | local-storage/src/database.rs:42-120 | Insert, or overwrite of everything but the row id |
| Managers.DatabaseManager.GetFileByHash | local-storage/src/database.rs:149-159 | Some row with that hash, or none when there is none |
| Managers.DatabaseManager.CountReferences | local-storage/src/storage.rs:530-538 | Zero exactly when no other row uses the path |
| Managers.CacheManager.InvalidateFile | local-storage/src/cache.rs:180-186 | Both keys of the file are removed from the backend |
| Managers.UnlinkedAll | local-storage/src/storage.rs:657-679 | Unlinking the bucket's files one by one leaves the disk that dropping its rows at once leaves |
| Preload.PreloadPopularFiles | local-storage/src/cache.rs:268-306 | Warms the cache row by row until the budget is used up, counts exactly the bytes and files it read, and ends below a positive budget plus 10485760 |
| Preload.WarmedView | local-storage/src/cache.rs:268-318 | Each file the loop got to has its bytes on disk cached, up to 1024 times 1024; no other file's entries change |
| Preload.SizesAddUp | local-storage/src/cache.rs:268-306 | The bytes counted are those on disk, row by row, and none for a missing file |
| Preload.CountIsCount | local-storage/src/cache.rs:268-306 | The count is the number of rows whose file exists |
| Preload.PreloadKeepsCoherence | local-storage/src/cache.rs:308-318 | Every entry the loop adds keeps the cache coherent |
| Percent.UriEncode | local-storage/src/s3/auth.rs:79-92 | The byte loop computes the encoding |
| Percent.DecodeOfEncode | local-storage/src/s3/auth.rs:79-96 | Percent-decoding undoes encoding on every byte string (section 2.1 of RFC 3986) |
| Percent.DecodeOrOriginalOfEncode | local-storage/src/s3/auth.rs:94-96 | On encoded valid UTF-8 the fallback is never needed |
| Percent.EncodedCharacters | local-storage/src/s3/auth.rs:79-92 | Encoded text holds unreserved characters, kept ones and percent signs only |
| Percent.EscapesAreUpperCase | local-storage/src/s3/auth.rs:79-92 | Every byte is encoded as itself if unreserved or kept, and else as a percent sign and the two upper-case digits of its value |
| Percent.DecodesEscapes | local-storage/src/s3/auth.rs:94-96 | A percent sign and two digits of either case decode to the byte of that value |
| Percent.DecodesNothingElse | local-storage/src/s3/auth.rs:94-96 | Every other character, a percent sign without two digits included, decodes to itself |
| Percent.HexDigitsHaveEitherCase | local-storage/src/s3/auth.rs:94-96 | The digits of escapes are those of base sixteen in either case |
| Percent.UndecodableStays | local-storage/src/s3/auth.rs:94-96 | Text that does not decode to valid UTF-8 stands for itself |
| Percent.Utf8IsEncodedScalars | local-storage/src/s3/auth.rs:94-96 | Valid UTF-8 is exactly the texts that list the encodings of Unicode scalar values (section 3 of RFC 3629) |
| Canonical.CanonicalUriIsIdempotent | local-storage/src/s3/auth.rs:98-106 | Canonicalising a path twice is canonicalising it once |
| Canonical.CanonicalUriIsComplete | local-storage/src/s3/auth.rs:98-106 | Two paths have the same canonical form if and only if their decoded segments are the same, the empty path standing for the root |
| Canonical.CanonicalQueryIsIdempotent | local-storage/src/s3/auth.rs:108-128 | Canonicalising a query twice is canonicalising it once |
| Canonical.CanonicalQueryIsComplete | local-storage/src/s3/auth.rs:108-128 | Two queries have the same canonical form if and only if they carry the same decoded pairs, each as often |
| Canonical.PermutedQueries | local-storage/src/s3/auth.rs:108-128 | Permuting the parts of a query does not change its canonical form |
| Canonical.PairsOfCanonicalQuery | local-storage/src/s3/auth.rs:108-128 | The canonical query carries exactly the decoded pairs, sorted |
| Canonical.CanonicalSegments | local-storage/src/s3/auth.rs:98-106 | The segments of the canonical path are those of the path, in order, each decoded and then encoded in full; the empty path is the root |
| Canonical.CanonicalPairs | local-storage/src/s3/auth.rs:108-128 | The parts of the canonical query are key, equals sign and value of the decoded pairs, encoded in full, in the byte order of keys and then values |
| Canonical.QueriesAppend | local-storage/src/s3/auth.rs:108-128 | A query's pairs are those of its parts; the empty one has none |
| Canonical.OnePiece | local-storage/src/s3/auth.rs:108-128 | A part is a pair split at its first equals sign; without one the value is empty |
| Sorting.SortForgetsOrder | local-storage/src/s3/auth.rs:120 | Sorting identifies exactly the arrangements of one collection |
| SigV4.SignedRequestsAreAccepted | local-storage/src/s3/auth.rs:173-247 | Every request signed by the signing procedure with the configured keys, whose time stamp parses to a time less than 901000 milliseconds from the clock either way, is accepted |
| SigV4.AcceptedMeansSigned | local-storage/src/s3/auth.rs:231-246 | A request accepted under a signed request's authorization has the signed verb, time, canonical path, canonical query, signed header lines and body, unless it exhibits a digest collision |
| SigV4.VerifyIsExact | local-storage/src/s3/auth.rs:173-247 | A request is accepted if and only if it names the configured key, is dated less than 901 seconds from the clock, declares its body truly, and carries the signature of its canonical request; it is refused as too skewed exactly when named and dated but outside that window, as not implemented exactly when streamed, as denied exactly without a header, as invalid exactly when header or date do not parse |
| SigV4.CanonicalRequestLines | local-storage/src/s3/auth.rs:130-161 | The lines of a canonical request are verb, canonical path, canonical query, one line for each signed header in order, an empty line, the signed names, and the payload's part |
| SigV4.HeaderLineIsCollapsed | local-storage/src/s3/auth.rs:130-143 | A signed header's line is its name, a colon and the words of its value with single spaces between them; absent or not visible values have none |
| SigV4.VisibleBytes | local-storage/src/s3/auth.rs:130-188 | Visible header values are those of tabs and bytes from 32 to 126 only |
| SigV4.StringToSignLines | local-storage/src/s3/auth.rs:225-232 | The string to sign has four lines: the scheme, the time stamp, the scope of date, region, service and terminator, and the digest of the canonical request |
| SigV4.SignatureIsChained | local-storage/src/s3/auth.rs:163-171 | The signature is the hexadecimal code of keying date, region, service, terminator and the string to sign one after the other, from the prefixed secret |
| SigV4.HeaderParsesExactly | local-storage/src/s3/auth.rs:40-74 | An authorization header parses if and only if it has the scheme, a credential with its parts, signed names and a signature |
| SigV4.ParsedHeaderHolds | local-storage/src/s3/auth.rs:40-74 | It then gives the credential's key, date and region, the signed names in lower case and byte order, and the signature |
| SigV4.LastFieldsCount | local-storage/src/s3/auth.rs:40-74 | Fields may come in any order among the comma-separated parts; the last of each name decides |
| SigV4.CredentialHasFiveParts | local-storage/src/s3/auth.rs:40-74 | A credential gives a key, a date and a region if and only if those are its first three of at least five parts |
| SigV4.ParseOfPrint | local-storage/src/s3/auth.rs:40-74 | Parsing inverts the header printer for fields without slash or comma and sorted lower-case names |
| SigV4.ReadAuthorization | local-storage/src/s3/auth.rs:40-74 | The loop over the comma-separated parts is the parser function |
| SigV4.CanonicalRequestBinds | local-storage/src/s3/auth.rs:145-161 | A canonical request can be read in one way only |
| SigV4.StringToSignBinds | local-storage/src/s3/auth.rs:232-238 | Equal strings to sign, over one scope, sign the same time and the same canonical digest |
| SigV4.ConstantTimeEq | local-storage/src/s3/auth.rs:21-30 | Looks at every byte and decides equality |
| Disposition.KeyRoundTrip | local-storage/src/handlers/file_handlers.rs:128-208 | Extracting the filename from the header the UI prints returns the key if and only if the key does not start with UTF-8'' |
| Disposition.FilenamePart | local-storage-ui/src/api/client.ts:36-39 | The printed header is an attachment with exactly one filename field, holding the quoted, encoded key |
| Disposition.MarkerSurvives | local-storage/src/handlers/file_handlers.rs:179-194 | Encoding keeps the marker of an extended value at the start of a key and never creates one |
| Disposition.UnquotedValue | local-storage/src/handlers/file_handlers.rs:147-208 | An unquoted filename ends at its first semicolon or at the white space that ends the header, and then decodes; an extended one decodes after its marker or is nothing |
| Disposition.QuotedValue | local-storage/src/handlers/file_handlers.rs:147-208 | A filename in quotes of either kind ends at the next such quote, whatever follows |
| Disposition.UnclosedValue | local-storage/src/handlers/file_handlers.rs:147-208 | A quote that is never closed stays part of the name |
| Disposition.SecondFieldIsIgnored | local-storage/src/handlers/file_handlers.rs:147-208 | Of several filename fields the first counts, up to the second |
| Disposition.NoFilename | local-storage/src/handlers/file_handlers.rs:147-208 | A header without the field gives no name |
| Disposition.ComponentKeeps | local-storage-ui/src/api/client.ts:36-39 | The printer leaves exactly letters, digits and the nine marks of encodeURIComponent unescaped |
| FolderTree.BuildFileTree | local-storage-ui/src/utils/fileTree.ts:26-54 | The loop over the files computes the folders in order of first appearance and the direct files in order |
| FolderTree.FoldersAreExact | local-storage-ui/src/utils/fileTree.ts:26-54 | Folder paths are distinct; each count and size is that of the keys under the folder; a folder that is not listed holds nothing |
| FolderTree.TreeConserves | local-storage-ui/src/utils/fileTree.ts:26-54 | Folder counts plus direct files are the keys strictly extending the prefix, and sizes likewise |
| FolderTree.FoldersInOrder | local-storage-ui/src/utils/fileTree.ts:26-54 | Folders come in the order in which their files first appear |
| FolderTree.OneEntry | local-storage-ui/src/utils/fileTree.ts:26-54 | A file is listed exactly when its key is the prefix and a non-empty name without a slash, with that name and its key as path |
| FolderTree.EntriesAppend | local-storage-ui/src/utils/fileTree.ts:26-54 | Files are listed one by one in their order |
| FolderTree.OpeningAFolderConserves | local-storage-ui/src/utils/fileTree.ts:26-54 | A folder's count is that of the view at its path plus the key that is the path with a trailing slash, if and only if its path is not empty or every key starts with a slash; sizes likewise |
| FolderTree.EmptyFolderPath | local-storage-ui/src/utils/fileTree.ts:26-54 | Some folder has the empty path if and only if the view is the root and some key starts with a slash |
| FolderTree.OpeningAFolderAddsACrumb | local-storage-ui/src/utils/fileTree.ts:76-82 | Opening a folder adds exactly one breadcrumb, leading back to it, if and only if the folder has a name and the current path no empty component |
| FolderTree.CrumbsOfPath | local-storage-ui/src/utils/fileTree.ts:76-82 | The trail is Home with the empty path, then each kept component with the path up to it |
| FolderTree.NonEmptyAppend | local-storage-ui/src/utils/fileTree.ts:76-82 | Components are kept one by one in order |
| FolderTree.OnePart | local-storage-ui/src/utils/fileTree.ts:76-82 | A component is kept exactly when it is not empty |
| Sorting.SortedTexts | local-storage/src/s3/auth.rs:40-128 | Texts are sorted by byte order: where two neighbours first differ the smaller byte comes first, and a beginning comes before what it begins |
| Sorting.SortedPairs | local-storage/src/s3/auth.rs:108-128 | Pairs are sorted by their keys in that order, and equal keys by their values |
| Text.TrimIsExact | local-storage/src/s3/auth.rs:40-143 | Trimming takes the white space off both ends and nothing else |
| Text.LowerIsAscii | local-storage/src/s3/auth.rs:40-74 | Lower-casing changes the 26 capital letters and nothing else |
| Text.SpaceCharacters | local-storage/src/s3/auth.rs:130-143 | White space is the bytes 9 to 13 and 32 |
| Text.DecimalDigits | local-storage/src/handlers/file_handlers.rs:301-328 | The digits of positions are the ten decimal ones |
| Toy.CodecsAreLawful | local-storage/src/compression.rs:16-42 | A concrete hash, codecs and ciphers meet the contracts, the binding one included |
| Toy.CodecsCompress | local-storage/src/storage.rs:177-202 | Under them the compressed branch is really taken |
| Toy.DigestsAreLawful | local-storage/src/s3/auth.rs:9-19 | Concrete digests meet the signature contracts |
| Toy.SomeRequestIsAccepted | local-storage/src/s3/auth.rs:300-319 | Some request can be signed and is then accepted, so the completeness statement is not empty |
| SigV4.AuthorizationIsVisible | local-storage/src/s3/auth.rs:285-290 | The printed header is one the HTTP library accepts |

## Left out

- HTTP routing (with the `/info` suffix that tells info requests from downloads), CORS, timeouts, logging, configuration loading, start-up and migrations.
- SQL text, connections and their failures; a refused insert of `save_file` is the one database error modelled.
- The Redis backend and the internals of the in-process cache: the backend is a map with arbitrary eviction; cache calls do not fail.
- Operating-system errors other than a missing file, directories, paths that need normalising (absolute keys, keys ending in a slash, `.` components) and clashes of a file with a directory: the disk is a flat map from path to bytes.
- Columns no decision depends on: file name, MD5, metadata, compression ratio and level, upload and access times, the cache-status columns (so the popularity query is an input to `Preload.PreloadPopularFiles`), and the algorithm name recorded for compression, which decoding never reads.
- Integer widths: sizes stay far below 2^63 in the source; only the 64-bit parsing of range positions is modelled with its limit.
- Time passing within one request: each request reads the clock once.
- Two uploads beside each other: uploads are taken apart among deletes, and step by step up to a crash, but not among other uploads; reads are taken apart among deletes and evictions.
- Range lists: a value with a comma is ignored by the parser, and the standard's reading here is that of a single range.
- Strings are byte strings; trimming and splitting at white space knows ASCII white space only, which is all the accepted header values can hold.
- A `Content-Disposition` header that is not valid text, which the source converts lossily.
- Header values that repeat under one name: a header map has one value per name.
- `sortItems`, statistics, search, listing, XML, the download token check, error-to-status tables: single-branch or plumbing.
- The tests that use mocks or interfaces that no longer exist.
- Streaming.CompressionManager.ReadRange: a decoder error is tied to a fixed point of the stream; errors of the underlying reader are not modelled, since it reads from memory.
- Pipeline.RoundTrip: for a compressed row read under another cipher the condition is that the wrongly decrypted bytes decompress to the content after all, which no codec contract rules out.
