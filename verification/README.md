# The chunk install engine, verified

A Dafny model of the part of the repository that turns a manifest into an
installed game: the download plan, the protocol by which concurrent completions
drive that plan to finished files, the assembly of one file from its chunks, the
planning of updates, the compact indexes, the verification cache, the
pause/resume/cancel handle, the download worker pool and the repair batch.

`dafny verify dfyconfig.toml` checks the whole project.

## How it is put together

| module | models |
|---|---|
| `Manifest` | asset and chunk records, row numbering, 32-bit narrowing |
| `Plan`, `PlanFacts`, `PlanTheorems` | registration of files into five linked tables, the taint pass, flattening; what the tables mean |
| `Protocol`, `ProtocolFlow`, `ProtocolRefs`, `ProtocolRuns`, `ProtocolRelease` | the completion protocol as a step relation; its invariants over every interleaving; which runs exist and that they end; what tasks release and what a finished run leaves behind |
| `Notification` | the two notification loops over arrays, as steps of the protocol |
| `PlanJob`, `Install` | the plan starts the protocol; guarantees said of the manifest alone |
| `Downloads` | the worker pool that empties the queue |
| `Hex`, `RangeWriter`, `Assembly`, `ParallelAssembly` | digests as text, the writers of one chunk's range, the sequential and the parallel assembly of a file |
| `UpdatePlan`, `UpdateTree`, `UpdateCategories`, `UpdateWrite`, `UpdateRun` | diff plans by interned ids; what one category's plan is worth; the files of several categories; writing each along its route; a whole update and the tree it leaves |
| `StringArena`, `CompactManifest`, `ChunkNameLookup`, `ChunkBitmap`, `VerificationCache` | compact or fast forms of lists, sets and recomputation |
| `Handle` | pause, resume, cancel and the wait loop |
| `Repair` | the bounded repair batch and its chunk counts |

Concurrent code is a step relation: one step is one access to shared state, and
the steps of all threads interleave freely and sequentially consistently. Code
that runs loops over its own state is a method with invariants, proved equal to
a function or to a sequence of protocol steps. Reads may be short and any
input/output call may fail, wherever the source calls one; a parameter `calm` says
that none does, so that a contract can also say when a call must succeed. MD5 is a function
passed as a parameter; nothing is assumed of it beyond its length, except where
a lemma says that unequal contents have unequal digests. Text is a sequence of
bytes, also where its Dafny type is `string`.

Preconditions the code relies on, stated where they are used: installer file
counts add up to the number of files (`InstallersOf`); and where chunks are stored
under their names, different downloaded names are stored in different files
(`DistinctChunkFiles`, `ChunkFilesDiffer`; replacing an extension makes `a.1` and
`a.2` collide), no chunk name is both reused and downloaded (`ReusedNamesApart`,
`NamesApart`), and a name stands for one content (`NamesTell`). An update needs them
too (`ChunkSetting`), and also that sizes fit the manifest's columns (`ColumnsFit`)
and that old files of the right size hold their content (`Setting`).

## Where the code does less than its documentation says

Each of these is a theorem with the exact condition, and the code is modelled
as it is.

- A completion flag taken over from an earlier session for a file that still
  has to be assembled makes its task count the file and skip it. No file is
  ever skipped if and only if no such flag is set
  (`ProtocolRuns.NeverSkipsExactly`).
- The skip paths release every row of a file while registration counts only
  downloaded rows. Reference counts are exact in all runs of a deduplicating
  install if and only if no reused row of an open file has the name of an item
  (`ProtocolRuns.AlwaysExactExactly`).
- Modes other than Full route every file with downloads eagerly, also one with
  reused rows, whose reused ranges are then written by nobody. Passing the
  completion check always means that every file is complete if and only if no
  stale flag is set and, in those modes, no open file mixes the two kinds of rows
  (`Install.FinishedInstallIsComplete`; of the plan alone,
  `PlanTheorems.EagerFilesArePureExactly`).
- An update meets several such places. The output of an eager file is opened in
  place and never cut shorter, its reused ranges keep what was there, and an eager
  chunk of no bytes cannot be mapped and fails. Files named `.tmp` are removed before
  anything is written, also ones the plan keeps or reuses. A task believes a cache
  entry without looking at the modification second. An empty file with a hashing
  thread is refused. Removed names are deleted at the end, category by category, so a
  file that moves to another category is deleted after it was installed. An update
  succeeds and leaves exactly the new build if and only if every planned file passes
  (no longer file lies under an eager one, reused rows of eager files are where they
  were, eager chunks are not empty, what is taken for valid is right, and the digests
  that are compared are those of the content), no kept file is named `.tmp` and no
  file moves (`UpdateRun.UpdateIsRightExactly`; file by file,
  `UpdateRun.NewFileHoldsExactly`).
- In a category that only the new build has, offsets stay as decoded, and an
  omitted field decodes to zero, which means "reused". With no file of that name on
  disk and deduplication on, a file gets its content if and only if no row has an
  offset and its digests hold, and a row with an offset fails the install; the other
  cases have their own exact conditions (`UpdateRun.NewCategoryExactly`).
- An assembly task wrongly skips a file exactly when the cache has an entry of that
  size and digest text for a file whose digest is another
  (`VerificationCache.NeedsAssembly`).
- The progress counter of an install reaches the announced total if and only if
  every item that failed or was found on disk is empty
  (`Install.DownloadedBytesReachTheTotal`).
- An offset of 2^63 or more turns negative when it is stored as signed
  (`UpdatePlan.AssignChunkOffsets`).
- Changing size or modification second on every write does not protect the
  verification cache, because a stamp can come back; the exact condition, from any
  truthful cache and across sessions, is that equal stamps mean equal digests
  (`VerificationCache.RightExactlyWhenDistinguished`).
- A type code that is a positive multiple of 256 is classified as a file by the
  columnar manifest (`CompactManifest.FilesReadBack`).
- A bitmap for 2^32 chunks or more does not read back
  (`ChunkBitmap.ImageReadsBackExactly`).
- An empty file of four or more rows whose digest is computed by the hashing
  thread is always refused (`ParallelAssembly.EmptyFilesAreRefused`).
- A chunk of more than 64 MiB whose frame needs a window of more than 2^26 bytes can
  never be decoded (`RangeWriter.DecompressChunk`).
- The counts of eager items are never released, so that a run at rest without errors
  has a count of zero exactly for the items whose files are assembled
  (`ProtocolRelease.NothingIsLeftBehind`).

## Model

| member | source | states |
|---|---|---|
| Plan.PlanBuilder.RegisterRow | src/game_installer/installer.rs:645-693 | one downloaded row is counted, its item found or created, both files tainted when shared, its entry and reference appended: all five tables equal the table function |
| Plan.PlanBuilder.RegisterChunksForFile | src/game_installer/installer.rs:615-699 | a whole file is registered with one pending slot, given back when nothing counts in it; each row is looked up on disk by its number through all files (`PlanTheorems.ItemsOfPlan`) |
| Plan.RegisterFiles | src/game_installer/installer.rs:728-767 | the installers' runs visit every open file once in manifest order, and files that leave the pending table alone are sent to assembly at once |
| Plan.DisableTainted | src/game_installer/installer.rs:769-778 | exactly the items of tainted files lose the eager route |
| Plan.Flatten | src/game_installer/installer.rs:786-793 | the flat table is all entry lists in order and the offsets are where each begins |
| Plan.BuildDownloadState | src/game_installer/installer.rs:701-824 | the plan handed on is what registration, taint pass and flattening make of the manifest (`IsPlanOf`), of which `PlanTheorems.ItemsOfPlan` and `PlanTheorems.EntriesOfPlan` say what it means |
| PlanFacts.RegisterAllAccounts | src/game_installer/installer.rs:615-699 | after any number of files: tables of equal length, reference counts equal entry counts, each pending count equals the entries carrying its slot, each slot belongs to one file despite reuse of popped slots, one item for each distinct name with its consumers in order, tainted files are those with a shared row; or one item a row when deduplication is off |
| PlanFacts.SentAtOnceExactly | src/game_installer/installer.rs:745-764 | registration itself sends exactly the open files without a downloaded row, each once |
| PlanFacts.NoRowsNoChange | src/game_installer/installer.rs:636-698 | registering a file without downloads changes no table |
| PlanTheorems.DeduplicatedItems | src/game_installer/installer.rs:650-693 | names are distinct, the name index inverts them, and a chunk's reference count is the number of downloaded rows of open files that use it |
| PlanTheorems.EagerIffPureAndUnshared | src/game_installer/installer.rs:633-672 | after the taint pass an item is eager if and only if its files have no reused row and share no chunk, also with themselves |
| PlanTheorems.OneRoutePerFile | src/game_installer/installer.rs:769-778 | all items that feed one file take the same route |
| PlanTheorems.EagerItemsAreExclusive | src/game_installer/installer.rs:633-672 | an eager item has exactly one consumer, in its own file, and that file has no reused row |
| PlanTheorems.EagerFilesArePureExactly | src/game_installer/installer.rs:672-683 | eager files have no reused rows if and only if deduplication is on or no open file mixes reused and downloaded rows |
| PlanTheorems.FlatSlices | src/game_installer/installer.rs:786-793 | the slice between an item's two offsets is exactly its entry list |
| PlanTheorems.ItemsOfPlan | src/game_installer/installer.rs:640-683 | of any manifest: every item handed on is a downloaded row of an open file with that file's installer; it is marked as downloaded if and only if some downloaded row that uses its chunk is on disk, rows being numbered through all files; with deduplication off, if and only if its own row is |
| PlanTheorems.EntriesOfPlan | src/game_installer/installer.rs:684-693 | every item is handed on with entries, and each names the temporary directory of its file's installer |
| PlanTheorems.TotalIsWhatWillBeDownloaded | src/game_installer/installer.rs:600-613 | the two separate deduplications agree: the announced total is the sum over the planned items |
| PlanJob.PlanIsGood | src/game_installer/installer.rs:701-824 | in every mode the plan's tables are consistent in the way the completion protocol needs |
| PlanJob.PlanIsDeduplicated | src/game_installer/installer.rs:650-693 | in Full mode names are distinct, counts exact and eager files pure |
| PlanJob.EagerFileExactly | src/game_installer/installer.rs:633-683 | the tables route a file eagerly if and only if it is open, has downloads and, with deduplication on, has no reused row and shares no chunk with any downloaded row of an open file |
| PlanJob.EagerRowHasItsItem | src/game_installer/installer.rs:672-685 | every downloaded row of an eager file has an eager item of its own |
| ProtocolFlow.StepKeepsFlow | src/game_installer/installer.rs:1374-1485 | every step of every worker and task keeps pending counts, messages, tasks and the completion counter exact |
| ProtocolFlow.SentOnceAndOnlyWhenReady | src/game_installer/installer.rs:1457-1479 | each open file is sent and started at most once, and only after all its chunk occurrences are done |
| ProtocolFlow.CompletionCheckIsExact | src/game_installer/installer.rs:1873-1880 | the completion counter never exceeds the number of files and reaches it exactly when every file is settled |
| ProtocolFlow.CountedMeansDone | src/game_installer/installer.rs:1387-1430 | a counted file was counted by its own task exactly when it is not eager, as every file sent at registration is; an eager one has an entry, and all its entries are fetched and notified |
| ProtocolFlow.ErrorFreeRunsPass | src/game_installer/installer.rs:1873-1880 | a run that has come to rest without an error passes the completion check |
| ProtocolRefs.RefcountsAreExact | src/game_installer/assembly.rs:37-57 | in every reachable state a count is the number of unreleased rows of its chunk; no release underflows or happens twice |
| ProtocolRefs.DeletedExactlyWithLastRelease | src/game_installer/assembly.rs:49-56 | a fetched chunk is on disk exactly while some row of it is unreleased |
| ProtocolRefs.AssemblyNeverMissesAChunk | src/game_installer/assembly.rs:559-633 | a file that is being assembled finds every one of its downloaded chunks |
| ProtocolRefs.NamesCanCollide | src/game_installer/assembly.rs:53-54 | replacing the extension maps two chunk names to one file |
| ProtocolRefs.DotlessNamesDiffer | src/game_installer/assembly.rs:53-54 | names without a dot are never confused |
| ProtocolRefs.ChunkFileExactly | src/game_installer/assembly.rs:53-54 | exactly how a chunk's file is named: what follows the last dot of the last component gives way to the new extension, unless that dot begins the component; any other name gets it appended |
| ProtocolRuns.NeverSkipsExactly | src/game_installer/assembly.rs:890-930 | no task ever skips a file that nobody completed if and only if no stale flag is set |
| ProtocolRuns.PassingMeansDoneExactly | src/game_installer/installer.rs:1873-1880 | passing the check means in all runs that every file was complete, or counted by a task that did not skip it, or eager with every row downloaded and notified, if and only if no stale flag is set and no eager file has a reused row |
| ProtocolRuns.AlwaysExactExactly | src/game_installer/assembly.rs:894-963 | counts are exact in all runs if and only if reused and downloaded names are apart |
| ProtocolRuns.EveryRunEnds | src/game_installer/installer.rs:1457-1479 | no sequence of states takes protocol steps for ever |
| ProtocolRuns.NoDeadlock | src/game_installer/installer.rs:915-1048 | unless everything is done or failed, some step that is not a failure is possible |
| ProtocolRelease.ReleasedExactlyWhatIsDue | src/game_installer/assembly.rs:150-168 | over any run: when a task has ended, the rows of its file that are released are exactly those due: all of a file it skipped or found valid, the downloaded ones of a file it assembled, the used ones of a file it gave up; only the last is not counted |
| ProtocolRelease.CountedFilesReleaseTheirChunks | src/game_installer/assembly.rs:150-168 | in every reachable state a file counted by its task has released all its downloaded rows |
| ProtocolRelease.NothingIsLeftBehind | src/game_installer/assembly.rs:49-56 | a run at rest without errors has a count of zero exactly for the items on the assembly route, and the store is what it was at the start without the chunk files of those items |
| ProtocolRelease.FlagsAreExact | src/game_installer/assembly.rs:890-930 | in every reachable state: a file whose task has claimed it is flagged unless the task has failed; any other is flagged if and only if it was at the start or the last of its eager entries is notified |
| ProtocolRelease.PassesAtRestExactly | src/game_installer/installer.rs:1873-1880 | a run at rest passes the completion check if and only if no item and no task has failed |
| ProtocolRelease.AnythingCanFail | src/game_installer/installer.rs:1713-1819 | any item can fail, and any open file on the assembly route can fail in assembly after any of its downloaded chunks |
| Notification.Shared.NotifyAssemblyReady | src/game_installer/installer.rs:1457-1479 | the loop over an item's slice does the protocol's steps: counts, messages, nothing else |
| Notification.Shared.NotifyEagerFileComplete | src/game_installer/installer.rs:1374-1454 | the loop over an eager item's slice does the protocol's steps: counts, flags, completion counter |
| Install.AssemblyFindsItsChunks | src/game_installer/assembly.rs:559-633 | of any manifest in Full mode and any interleaving: assembling files never miss a chunk |
| Install.FinishedInstallIsComplete | src/game_installer/installer.rs:1873-1880 | of any manifest in any mode: passing the check always means that every file is complete, eager ones to their last row, if and only if no stale flag is set and, with deduplication off, no open file mixes reused and downloaded rows; an install at rest without errors passes |
| Install.RestingInstallPassesExactly | src/game_installer/installer.rs:1873-1880 | of any manifest in any mode: an install at rest passes the completion check if and only if nothing has failed |
| Install.ChunkFilesAreGone | src/game_installer/assembly.rs:49-56 | a deduplicating install at rest without errors leaves no chunk file of an assembled file, and every other file that was in the store at the start |
| Install.DownloadedBytesReachTheTotal | src/game_installer/installer.rs:1669-1676 | when all workers are done the counter equals the announced total if and only if every failed item and every chunk found on disk is empty; with nothing downloaded before and no failure it does |
| Downloads.RemainingIsExact | src/game_installer/installer.rs:1766-1768 | for any workers and schedule the counter is zero exactly when the queue is empty and every item is finished, and no item is finished twice |
| Downloads.EveryItemIsProcessedOnce | src/game_installer/installer.rs:1713-1819 | when all workers have gone and nothing was cancelled, each item was processed once with an outcome open to it, and the counter falls short of all sizes by exactly those of failed items and chunks found on disk |
| Downloads.NothingIsTakenAfterCancel | src/game_installer/installer.rs:1713-1730 | once the pool is cancelled no item leaves the queue and a worker that looks leaves |
| Downloads.AnyOutcomesCanHappen | src/game_installer/installer.rs:1713-1819 | any outcomes that items may have are those of some pool that was not cancelled and has ended |
| Downloads.EveryPoolEnds | src/game_installer/installer.rs:1713-1819 | no sequence of pools takes steps for ever, and where no worker can go on they have all gone |
| Hex.Md5ToHex | src/game_installer/assembly_opt.rs:121-130 | two lower-case digits for each byte, high half first |
| Hex.Md5HexEq | src/game_installer/assembly_opt.rs:79-97 | true exactly when the text is the digest's own text up to letter case, character by character |
| Hex.ExpectedNamesOneDigest | src/game_installer/assembly_opt.rs:79-130 | a text names at most one digest and a digest's own text names it |
| Hex.HashRequiredExactly | src/game_installer/assembly_opt.rs:495-498 | a text is compared exactly when it has 32 characters and is not all zeros |
| Hex.Xxh64HexEq | src/game_installer/assembly_opt.rs:101-120 | true exactly when the text is the 16 digits of the number, in either letter case |
| RangeWriter.CopySmall | src/game_installer/assembly.rs:758-823 | success: the range holds exactly the old file's bytes, the hasher was fed them, a required digest matched; failure: only the range was touched, and size and digest errors are raised only for their reasons |
| RangeWriter.CopyRange | src/game_installer/sysio.rs:14-46 | copies whatever the old file has of the range, in any number of pieces |
| RangeWriter.CopyLarge | src/game_installer/assembly_opt.rs:505-616 | the same promise on the large path, with the bounds checked first when hashing |
| RangeWriter.WriteFromOldFile | src/game_installer/assembly.rs:735-824 | the same promise whichever path the size selects; a text of 32 characters that are not all zeros and spells another digest is never accepted, and no other text is ever a mismatch; without input/output errors it fails only for size or digest |
| RangeWriter.DecompressStreaming | src/game_installer/assembly_opt.rs:688-793 | success: the range holds exactly the decoded chunk; a chunk that decodes to more or fewer bytes fails; a refused window leaves file and hasher untouched |
| RangeWriter.DecompressOneshot | src/game_installer/assembly_opt.rs:361-463 | never writes outside the range; a failure feeds nothing to the file's hasher |
| RangeWriter.DecompressChunk | src/game_installer/assembly_opt.rs:625-676 | a failed first attempt does not show in a later success; a text of 32 characters that are not all zeros and spells another digest is never accepted, and no other text is ever a mismatch; without input/output errors it fails only for size or digest if the frame fits the widest window, and a frame that does not fit it is refused when the chunk is too large for one shot |
| RangeWriter.WindowIsLeast | src/game_installer/assembly_opt.rs:22-32 | the first window is the least power of two that holds the chunk, within 2^10 and 2^26 |
| RangeWriter.EagerDecompressChunk | src/game_installer/eager_decompress.rs:26-128 | without input/output errors an eager chunk is written if and only if its compressed digest (MD5 of 32 characters, XXH64 of 16, others unchecked), its size, which is not zero, and its digest are right; nothing is written unless the compressed digest is, and nothing outside the range |
| Assembly.RangesTile | src/game_installer/compact_manifest.rs:272-281 | every byte of the file lies in exactly one row's range |
| Assembly.JoinedLength | src/game_installer/assembly.rs:283-312 | payloads of the promised sizes add up to the row offsets, and so to the file size |
| Assembly.SurveyRows | src/game_installer/assembly.rs:283-312 | accepted exactly when the sizes add up to the file size, overflow included; finds whether all rows have hashes and whether any is reused |
| Assembly.AssembleFile | src/game_installer/assembly.rs:283-690 | a file whose rows are written one after another: without input/output errors it succeeds if and only if the sizes add up, the old file is there if a row is reused, and names, row sizes and due digests are in order; success means that in Full mode every proper digest text is that of its row, and that the digest of the file is right in Deferred mode and when a row has no proper text; a failure holds the downloaded rows before the row that failed; with verification off any bytes of the right sizes are accepted |
| Assembly.WriteRow | src/game_installer/assembly.rs:573-633 | one row lands at its offset with its exact payload, or the error leaves only that range touched; an error other than an accident means that name, size or digest is wrong; in Full mode a digest text of 32 characters that are not all zeros is that of the payload |
| Assembly.AssembleSequentially | src/game_installer/assembly.rs:571-690 | success: the output is the concatenation of the payloads, checked as decided, and all downloaded rows are held for release; failure: the rows written so far are held, and short of an accident something looked at was wrong |
| ParallelAssembly.StepKeepsSound | src/game_installer/assembly.rs:448-556 | every write, flag access and decision keeps the finished ranges right unless an error is recorded or unavoidable |
| ParallelAssembly.HasherQuitsOnlyOnError | src/game_installer/assembly.rs:418-443 | the hashing thread ends without a result only when an error is recorded |
| ParallelAssembly.HasherIsNeverStranded | src/game_installer/assembly.rs:418-431 | once the workers have stopped the hashing thread can always go on |
| ParallelAssembly.AcceptedExactlyWhenAssembled | src/game_installer/assembly.rs:345-677 | for every worker count and interleaving: accepted exactly when no thread failed and the digest, where computed, matches; then the output is the concatenation of the payloads and all downloaded rows are held |
| ParallelAssembly.AcceptedIsChecked | src/game_installer/assembly.rs:639-656 | an accepted parallel assembly with verification on was checked |
| ParallelAssembly.WrongSizesAreRefused | src/game_installer/assembly.rs:670-677 | an overrun or short row is never accepted, whatever it overwrote meanwhile |
| ParallelAssembly.EmptyFilesAreRefused | src/game_installer/assembly_opt.rs:259-262 | an empty file cannot be mapped and so is never accepted with a hashing thread |
| ParallelAssembly.WritersTakeSteps | src/game_installer/assembly.rs:474-556 | every outcome the writer of one row may have is a sequence of the worker's steps |
| ParallelAssembly.CanMove | src/game_installer/assembly.rs:418-556 | until all threads have ended one of them can go on, and without failing when every row passes |
| ParallelAssembly.EveryAssemblyEnds | src/game_installer/assembly.rs:418-556 | no sequence of states takes assembly steps for ever, and where no step is possible all threads have ended |
| ParallelAssembly.EndsAcceptedExactly | src/game_installer/assembly.rs:345-677 | for every number of workers some schedule ends accepted with these bytes if and only if names, sizes and due digests are in order, a hashing thread has something to map, and the bytes are the concatenation |
| ParallelAssembly.CanAssembleExactly | src/game_installer/assembly.rs:283-690 | for every mode, number of workers and set of hashes, on whichever route: exactly when a file can be assembled and with which bytes, checked in a verifying mode |
| ParallelAssembly.CanAssembleByMode | src/game_installer/assembly.rs:313-345 | what each mode looks at, read off the digest texts: rows with a proper text in Full mode; the whole file in Deferred mode, in Full mode when a row has no proper text, and with verification off only when then several workers share four or more rows, in which case the file must not be empty |
| ParallelAssembly.NoRowAfterTheFlag | src/game_installer/assembly.rs:474-556 | once the error flag is raised no worker begins another row |
| UpdatePlan.LaterRowsWin | src/bin/bench_memory.rs:432-447 | the string-keyed map has every name and hash of an old row, with the offset of the last such row |
| UpdatePlan.EntrySource | src/bin/bench_memory.rs:432-447 | and nothing else: every entry is the offset of some row of an old file |
| UpdatePlan.InternOldChunkOffsets | src/game_installer/installer.rs:358-392 | ids are injective and the interned map answers as the string-keyed map of the old manifest |
| UpdatePlan.DenseIsOnto | src/game_installer/installer.rs:373-388 | ids have no gap |
| UpdatePlan.ExcludeCorrupted | src/game_installer/installer.rs:507-522 | dropping offsets by id drops exactly those of the corrupted names |
| UpdatePlan.AssignChunkOffsets | src/game_installer/installer.rs:399-423 | each chunk gets the offset the string-keyed map gives, -1 without an entry, and nothing else changes; a row is reused exactly when its offset is below 2^63, since the cast to signed turns a larger one negative |
| UpdatePlan.PlanCategory | src/game_installer/installer.rs:475-530 | the plan of a category read off the two manifests and the sizes on disk, for old file names that are distinct: a file of the new manifest is planned if and only if no old file of its name has its digest and the right size on disk; a planned row is reused if and only if such a file has its chunk, with the offset of the last such row, and that offset is below 2^63; a name is deleted if and only if only the old manifest has it |
| UpdatePlan.DiffKeepsOrder | src/game_installer/installer.rs:334-351 | planned files are picked from the new manifest in its order, each position at most once |
| UpdateTree.AssemblyYieldsContent | src/bin/bench_memory.rs:432-447 | with the planned offsets, reused ranges and chunks together give the new content |
| UpdateTree.KeptFilesAreRight | src/game_installer/installer.rs:334-351 | a file left alone already holds the new content |
| UpdateTree.EagerRightExactly | src/game_installer/output_allocator.rs:50-63 | a file is written right eagerly if and only if it does not lie over a longer one and the old file, extended with zeros, holds every reused chunk in place |
| UpdateWrite.AssembledRightExactly | src/game_installer/assembly.rs:283-690 | with its chunks in the store, a file that is not taken for valid is assembled right if and only if every reused row reads its own chunk, the digests that are compared are those of the content and a hashing thread has something to map; a failed assembly leaves the file as it was |
| UpdateWrite.MissingChunkFails | src/game_installer/assembly.rs:598-633 | a file that is not taken for valid fails, and stays as it was, if one of its downloaded chunks is not there |
| UpdateWrite.EagerPassesExactly | src/game_installer/installer.rs:1302-1325 | an eager file of an update passes if and only if the eager decompressor accepts the content of each of its downloaded chunks, with its digest text in Full mode and none in the others |
| UpdateRun.UpdateIsRightExactly | src/game_installer/installer.rs:425-560 | over any number of categories, with routes from the plan's tables, outcomes from the assembly and chunks from the completion protocol: the update succeeds with exactly the new build if and only if every planned file passes, no kept file is removed as temporary and no file moves between categories; dropped names are gone after success, other names of neither build untouched unless temporary |
| UpdateRun.NewFileHoldsExactly | src/game_installer/installer.rs:1913-1929 | at the end a file of the new build has its content if and only if, kept, it is not temporary, or, planned, it comes out right or a failed assembly spares it, and after success no category drops its name |
| UpdateTree.CorruptedFilesAreReplaced | src/game_installer/installer.rs:484-523 | a file of the wrong size is planned anew and none of its chunks is reused |
| UpdateRun.ChunkIsRight | src/game_installer/installer.rs:1600-1604 | while a file is assembled in any interleaving, each of its downloaded chunks is in the chunk directory with its own content |
| UpdateRun.UsedRowsAreReleased | src/game_installer/assembly.rs:150-168 | the rows that a successful assembly holds are those that the file's task releases |
| UpdateRun.IsTmpExactly | src/game_installer/assembly.rs:70-73 | a file is removed as temporary exactly when its name ends in `.tmp` after something in its last component |
| UpdateRun.GoodExactly | src/game_installer/assembly.rs:918-990 | a planned file is written right if and only if: on the eager route nothing longer lies under it and every reused row is where it was, or in place; on the assembly route what is taken for valid is right, or the digests hold and, where the plan does not know the old file, every reused row reads its own chunk |
| UpdateRun.NewCategoryExactly | src/game_installer/installer.rs:532-534 | a file of a new category with any offsets: with nothing on disk and deduplication on it gets its content if and only if no row has an offset and, assembled, its digests hold; a row with an offset fails it; and exactly when it does with deduplication off, or with a file of that name on disk |
| StringArena.GetReturnsIt | src/game_installer/compact_manifest.rs:79-88 | every interned text is found again by its index |
| StringArena.Arena.Intern | src/game_installer/compact_manifest.rs:49-54 | the text is appended and no other text changes |
| StringArena.Arena.InternDedup | src/game_installer/compact_manifest.rs:60-74 | the index answered holds the text, for every hash function, and nothing is stored if the text is the one remembered under its hash |
| CompactManifest.FromAssets | src/game_installer/compact_manifest.rs:301-373 | the columns represent the asset list |
| CompactManifest.FilesReadBack | src/game_installer/compact_manifest.rs:167-196 | name, hash and size read back; the classification differs exactly for type codes that are positive multiples of 256 |
| CompactManifest.ChunksReadBackExactly | src/game_installer/compact_manifest.rs:223-232 | a row reads back unchanged exactly when its sizes fit 32 bits |
| CompactManifest.RangesPartition | src/game_installer/compact_manifest.rs:200-208 | the files' ranges follow one another and cover all rows |
| CompactManifest.FileIdxForChunk | src/game_installer/compact_manifest.rs:214-219 | a match, or the last file that starts before the row |
| CompactManifest.AnyPickGivesTheOffset | src/game_installer/compact_manifest.rs:214-258 | whichever file with the same start the search picks, the sum is the row's offset in its owner |
| CompactManifest.ChunkFileOffset | src/game_installer/compact_manifest.rs:252-258 | the offset by search equals the sum over the owner's rows |
| CompactManifest.FileChunkOffset | src/game_installer/compact_manifest.rs:263-268 | the offset by file and index is the same sum |
| CompactManifest.FileChunkOffsets | src/game_installer/compact_manifest.rs:272-281 | the list of offsets holds the same sums |
| CompactManifest.OffsetsAreTheManifests | src/game_installer/compact_manifest.rs:272-281 | with sizes below 2^32 the sums are those of the manifest |
| ChunkNameLookup.SortIndices | src/game_installer/installer.rs:18-30 | all positions once, in name order |
| ChunkNameLookup.LessExactly | src/game_installer/installer.rs:18-30 | names are in byte order: up to the first difference they agree, and there the smaller one ends or has the smaller byte |
| ChunkNameLookup.Lookup.Find | src/game_installer/installer.rs:38-47 | a position with the name, or none exactly when there is none |
| ChunkNameLookup.FindItem | src/game_installer/installer.rs:38-47 | with distinct names the answer is the item's own index, as the protocol's release step allows |
| ChunkBitmap.ChunkBitmap.MarkComplete | src/game_installer/chunk_bitmap.rs:87-94 | adds the index, or nothing beyond the last chunk |
| ChunkBitmap.ChunkBitmap.IsComplete | src/game_installer/chunk_bitmap.rs:97-104 | membership |
| ChunkBitmap.ChunkBitmap.AllCompleteForRange | src/game_installer/chunk_bitmap.rs:107-109 | the whole range is in the set |
| ChunkBitmap.ChunkBitmap.ClearRange | src/game_installer/chunk_bitmap.rs:112-118 | removes exactly the range, across words |
| ChunkBitmap.ChunkBitmap.Save | src/game_installer/chunk_bitmap.rs:121-139 | the file holds the image of header and words |
| ChunkBitmap.ChunkBitmap.CountComplete | src/game_installer/chunk_bitmap.rs:147-152 | the count is the size of the set exactly when no padding bit is set |
| ChunkBitmap.LoadBitmap | src/game_installer/chunk_bitmap.rs:49-82 | short, foreign and truncated files are rejected, all others give the words they hold |
| ChunkBitmap.MarksCommute | src/game_installer/chunk_bitmap.rs:87-94 | the order of marks does not matter |
| ChunkBitmap.ImageReadsBackExactly | src/game_installer/chunk_bitmap.rs:49-139 | loading a saved image restores it exactly when the size fits 32 bits, also with bytes after it; an image cut short is never loaded |
| ChunkBitmap.ImageLayout | src/game_installer/chunk_bitmap.rs:121-139 | the saved file byte by byte: magic, number of chunks with the lowest byte first, then one bit a chunk, lowest bit first |
| VerificationCache.FileMd5Digest | src/game_installer/cache.rs:227-261 | the digest of the whole file, the constant for an empty one |
| VerificationCache.Cache.CheckFile | src/game_installer/cache.rs:166-223 | answer and new cache in every branch; an error changes nothing |
| VerificationCache.ChecksAreRemembered | src/game_installer/cache.rs:166-223 | a right answer below the limit of 5000 is remembered, so that the same check of the same stamp is answered without the file; a wrong one leaves no entry, a full cache changes nothing, and other keys are not touched |
| VerificationCache.SavedCacheComesBack | src/game_installer/cache.rs:65-130 | after any history a saved cache comes back whole when it is loaded; the histories also allow for a part of it, and nothing else is ever loaded |
| VerificationCache.LoadCache | src/game_installer/cache.rs:65-91 | a part of the stored cache, half the limit when it was over it |
| VerificationCache.NeedsAssembly | src/game_installer/assembly.rs:918-965 | whether an assembly task has work to do; it skips wrongly exactly when an entry of that size and digest text is recorded for a file with another digest |
| VerificationCache.HonestStampsAreEnough | src/game_installer/cache.rs:166-223 | from any truthful cache, over any writes, checks, saves and loads: if stamps tell versions apart every answer is that of hashing afresh |
| VerificationCache.RightExactlyWhenDistinguished | src/game_installer/cache.rs:190-196 | all ways of checking, saving and loading between given versions, from any truthful cache about them, are answered rightly if and only if versions with one stamp share their digest |
| VerificationCache.StampsCanComeBack | src/game_installer/cache.rs:25-31 | three versions, each with another second than the one before, that deceive the cache |
| VerificationCache.CacheStaysSmallAndTrue | src/game_installer/cache.rs:65-214 | from any truthful cache within its limit, or from what loading makes of a truthful stored cache of any size, every history of writes, checks, saves and loads keeps it truthful and within the limit |
| Handle.NoLostWakeup | src/game_installer/handle.rs:122-138 | a parked waiter that no broadcast reached is right to sleep or a broadcast is due |
| Handle.CancelledForEver | src/game_installer/handle.rs:43-84 | cancellation is absorbing under every interleaving |
| Handle.ReturnsTellTheTruth | src/game_installer/handle.rs:126-137 | the answer of a finished wait goes back to one moment of that wait at which the state was Running, or Cancelled, and a cancelled answer stays right for ever |
| Handle.TokenFollowsState | src/game_installer/handle.rs:80-84 | the token is set only under cancellation and by every finished cancellation |
| Handle.EveryWaiterReturns | src/game_installer/handle.rs:122-138 | after the last resume or cancel all calls come to rest under every schedule, and then every waiter has returned, with leave to go on unless cancelled |
| Handle.ResumeExchanges | src/game_installer/handle.rs:59-77 | a resume that makes its exchange on Paused leaves Running and owes a broadcast; on any other state it changes nothing |
| Handle.ResumedWaitersReturn | src/game_installer/handle.rs:59-138 | over any run and schedule: once a resume has made its exchange and nothing pauses again, every waiter returns, with leave to go on unless cancelled |
| Handle.WaitersSleepWhilePaused | src/game_installer/handle.rs:122-138 | while the download stays paused waiters do not spin: they come to rest, asleep and with every broadcast seen |
| Handle.AnyCallsCanMeet | src/game_installer/handle.rs:43-138 | any calls can be under way at once, on threads that have waited before |
| Handle.DownloadHandle.Pause | src/game_installer/handle.rs:43-56 | Running becomes Paused, nothing else changes, and no other state is changed; the steps of an undisturbed pause |
| Handle.DownloadHandle.Resume | src/game_installer/handle.rs:59-77 | Paused becomes Running with one broadcast more, and in any other state nothing changes; the steps of an undisturbed resume |
| Handle.DownloadHandle.Cancel | src/game_installer/handle.rs:80-84 | whatever the state was it becomes Cancelled, the token is set and a broadcast made; the steps of an undisturbed cancellation |
| Repair.RunRepairJobs | src/game_installer/installer.rs:3205-3248 | for every order of completion: at most four jobs at once, indices in order, nothing new after a failure, everything started is joined, success exactly without a failure |
| Repair.SuccessMeansEachRanOnce | src/game_installer/installer.rs:3205-3248 | after success every index ran once and succeeded |
| Repair.NothingStartsAfterFailure | src/game_installer/installer.rs:3218-3224 | after a failure only joins follow |
| Repair.CountOccurrences | src/game_installer/installer.rs:3146-3149 | the count of a name is the number of rows that use it |
| Repair.RemovedExactlyWithTheLast | src/game_installer/assembly.rs:49-56 | in any order of releases a chunk is removed exactly with its last consumer |

## Left out

- Network access, retries, URL building, HTTP range resume and manifest decoding: plumbing around the engine.
- The contents of MD5, SHA-256, XXH64 and zstd: a digest is a function, and a stored chunk decodes to fixed bytes.
- Memory maps, kernel hints, preallocation, permissions, syncing, renaming and its copy fallback: a file is a byte sequence with ranged writes.
- Power-loss durability of the bitmap and of output files.
- Atomic memory orderings: steps are sequentially consistent.
- The patch decoder, preinstalled patches, game filters, plugin packages and the profiler.
- Throughput control, speed and time estimates; the limits of concurrent downloads and assemblies: the protocol allows any number of tasks.
- Progress callbacks, logging, serialised forms and error texts.
- Path checks of chunk and asset names: a chunk row only says whether its name passed, and in an update every name passes.
- Paths: a file name is a key, so names that differ are different files and none lies below another.
- The scan of a resumed install that decides which files count as complete: its result is a parameter of the plan.
- Cancellation of a running install: the protocol covers runs that are not cancelled, the handle and the worker pool cover cancellation.
- Files of a category that the new build no longer has: the update neither lists nor deletes them, and the model says nothing about them.
- Plan.BuildDownloadState: temporary directories are numbered, not created.
- Resumed updates, and chunks that a bitmap of an earlier session marks as written: an update starts from the plan, the directory and an empty bitmap. Downloads and the completion protocol cover both.
- Input/output failures during an update: a file's writing fails only for the reasons that the plan and the directory give. The assembly and the completion protocol cover such failures.
- UpdateRun.UpdateIsRightExactly: the files that the engine writes for itself (chunk and temporary directories, the installed tag, the verification cache, the bitmap, the games' own records) are not part of the directory, so "untouched" says nothing about their names.
- UpdateRun.UpdateIsRightExactly: every download succeeds with the chunk of its name, the compressed digests are those of the compressed data, and a chunk's frame fits the decoder's window on the eager route.
- UpdateRun.NewFileHoldsExactly: after a failed download the install returns before its assembly tasks have ended; the end meant here is theirs.
- RangeWriter.DecompressStreaming: that a refused window is reported before the first byte is decoded is assumed, as the source documents.
- ParallelAssembly.StepKeepsSound: the hashing thread reads a whole range in one step, after its flag; the flag and the byte counter of a finished row are set in one step.
- VerificationCache.HonestStampsAreEnough: the entry that the installer records for an eager file without hashing it is not among the events.
- VerificationCache.CheckFile: one check is one step; a file that changes while it is being hashed is not modelled.
- ChunkNameLookup.SortIndices: an insertion sort stands for the library's stable sort.
