# Rice-Factor: verified models of its stateful adapters

Rice-Factor plans, executes and audits refactorings with the help of language models. These Dafny
modules model the parts of it that keep state, parse, print or retry, with the branches and edge
cases of the code, and prove what those parts promise on every input or over every run. A class
or method follows each loop and update of the code and is proved against a specification function;
the lemmas say what the specification means.

| files | component |
|---|---|
| `MemoryCache.dfy`, `LruInclusion.dfy`, `LruReference.dfy`, `LruHistory.dfy` | the in-memory LRU/TTL artifact cache |
| `RedisCache.dfy`, `RedisHistory.dfy`, `CacheTwins.dfy` | its Redis twin with the content-hash index, what its lookups return, and the two side by side |
| `LspFraming.dfy`, `LspHeaders.dfy`, `LspClient.dfy`, `LspSession.dfy`, `LspRefinement.dfy` | the language-server client: framing, header blocks, reader, response table, interleavings |
| `RenamePreview.dfy`, `RefactorPipeline.dfy`, `PipelineLaws.dfy`, `StalePreviews.dfy`, `MovePlans.dfy`, `LineEndings.dfy` | the refactor executor: preview against application, plans of renames, plans of moves and renames, stored line ends |
| `DiffPreview.dfy` | the patch applier of the editor extension |
| `DiffFiles.dfy`, `DiffFileLaws.dfy`, `PreviewFiles.dfy` | the scaffold diff printer and the diff reader; that reader on the refactor previews |
| `DependencyFixer.dfy`, `DependencyOrder.dfy` | the dependency-rule fixer, and the order in which it finds violations |
| `ProviderSelector.dfy`, `RoundRobin.dfy` | provider selection, fallback and rotation |
| `RetryLoops.dfy` | the two retry loops |
| `MetricLabels.dfy`, `Metrics.dfy` | series keys, counters and histograms |
| `AuditLog.dfy`, `AuditReaders.dfy` | the append-only audit log and its readers |
| `Sequences.dfy`, `Text.dfy`, `TextLaws.dfy`, `Ordering.dfy` | shared operations on sequences, strings and string order, and what they mean |

How the outside is represented: clocks are time parameters (whole microseconds, any order); adapter
and API outcomes, JSON, UTF-8 and the import patterns are function parameters; the file system is a
map from paths to contents; threads are a transition system whose steps interleave freely. A value
handed out by a method is a copy.

## Where a promise fails

The code is modelled as it is. Where a promise does not hold in general, one lemma shows an input
(named first) and another says exactly when it holds.

- The Redis server drops entries by itself, the memory cache keeps them until it looks: after that
  `delete` and, for fractions of a second, `get` reply differently (`RemoveTellsApart`,
  `FindTellsApart`). Replies are alike exactly when no operation reaches a dropped entry
  (`TwinsReplyAlike`); without its conditions on capacity and stored hashes, exactly when the operation
  meets no entry that only one side holds and no unequal counts (`TwinsReplyExactly`).
- Re-setting a Redis key to other content leaves it listed under its old hash, so invalidating the old
  hash removes the new entry (`StaleListingRemovesLive`, `InvalidationAgainstScan`).
- A Redis `get` writes the entry back; an invalidation by another client before that leaves a live
  entry that is not listed (`InvalidationBetweenHalves`, `LateWriteBack`). So does a `set` while another
  client invalidates (`SetBetweenHalves`, `LateInvalidation`).
- `RedisCache.clear` documents the number of entries but counts the index sets as well; the model follows
  the code, rice_factor/adapters/cache/redis_cache.py:272-286 (`ClearCountsOneTwice`, `ClearCounts`).
- A language server that sends a request of its own puts it into the response table under its own
  id; the client takes it for the answer to its request with that id (`ForeignIdIsMistaken`). For
  ids that no server uses this way, answers are never confused (`ResponsesSafe`).
- A header announcing a negative length can leave the parsing loop with the same bytes for ever
  (`NegativeLengthStalls`, `ProgressExactly`), or make the result depend on how the stream is cut into
  reads (`CutsDisagree`, `BackSliceDependsOnCut`).
- The rename preview raises exactly when the symbol occurs and the two names differ in their number
  of newlines (`TwoLineNameRaises`, `PairableExactly`). An empty new name is previewed as no change, yet
  applying it deletes every occurrence (`EmptyNameDeletes`, `RenameShownAndDone`).
- Previews are made before any change, so a later rename in the same file may do something else than
  shown (`SecondPreviewIsStale`). It does what is shown exactly when it makes the same changes in the
  initial and in the present text (`StaleExactly`, `RewriteShown`): for names without newlines, when every
  line is as it was at the start or neither form of it is changed by the rename (`StaleByLines`).
- Files are read in text mode and written back, so a file with carriage returns changes beyond what was
  asked (`LineEndRewritten`); a rename is what its preview shows of the stored file exactly when it has
  none (`StoredPreviewExactly`, `AbsentSymbolKeepsFile`). The dependency fixer reads and writes alike.
- Plans are checked against the initial tree only. A file used after it was moved away stops the plan
  half way (`SourceUsedTwice`, `MovedThenRenamed`), a destination used twice overwrites a file
  (`DestinationUsedTwice`), a destination above an earlier one is taken for a directory
  (`DestinationAboveAnother`), and a file where a directory is needed makes the plan raise unless it was
  moved away (`FileInTheWay`, `FileMovedOutOfTheWay`). Nothing else can go wrong (`MovePlanLosesNothing`).
- The diff reader takes a changed line such as an SQL comment for a file name in the preview of a rename
  (`CommentNamesFile`, `RenamePreviewNames`), and generated text starting with `++ ` in a scaffold diff
  (`PhantomIsListed`, `ReaderReadsPrinter`).
- The patch applier takes an inserted line starting with `++` and a deleted one starting with `--` for
  headers (`PlussesAreLost`). It does what was intended exactly when the other edits, with the lines read
  beyond them, come to the target of the script (`IntendedExactly`); with both kinds the mistakes can
  cancel (`MistakesMayCancel`).
- Undoing a patch that leaves no line adds an empty line (`DeletedLineComesBackLonger`, `PatchRoundTrip`).
- A bar in a label value lets two label maps share a series (`BarInValueCollides`, `KeyReadBack`).
- A `read_recent_entries` limit below one acts like one
  (rice_factor/adapters/executors/audit_logger.py:237-241; `ReadRecentEntries` says so for every limit).
- An audit line that ends in blanks which JSON does not know is read while it is last and lost after the
  next append (`HiddenBehindFormFeed`, `AppendsAreRead`); an entry appended to a line that was not ended
  joins that line (`TwoEntriesOnOneLine`, `UnfinishedLine`).

## Model

| member | source | states |
|---|---|---|
| `MemoryCaches.MemoryCache.Get` | rice_factor/adapters/cache/artifact_cache.py:219-250 | a lookup is one step of the cache: miss, expiry with removal, or hit with the entry moved to the end |
| `MemoryCaches.MemoryCache.Set` | rice_factor/adapters/cache/artifact_cache.py:252-299 | storing drops the old entry, evicts from the front until there is room, appends; capacity and distinct keys are kept |
| `MemoryCaches.MemoryCache.Delete` | rice_factor/adapters/cache/artifact_cache.py:301-315 | removes the key and says whether it was there |
| `MemoryCaches.MemoryCache.Clear` | rice_factor/adapters/cache/artifact_cache.py:317-327 | empties the cache and returns how many entries it held |
| `MemoryCaches.MemoryCache.InvalidateByHash` | rice_factor/adapters/cache/artifact_cache.py:329-345 | collecting keys and deleting them one by one removes exactly the entries with this hash, in order, and counts them |
| `MemoryCaches.MemoryCache.Has` | rice_factor/adapters/cache/artifact_cache.py:371-388 | tells presence, removes an expired entry, never touches the order or the counters |
| `MemoryCaches.MemoryCache.CleanupExpired` | rice_factor/adapters/cache/artifact_cache.py:390-406 | removes exactly the expired entries and counts them |
| `MemoryCaches.StatsOfRun` | rice_factor/adapters/cache/artifact_cache.py:347-360 | after any run the statistics count one hit per get that returned an entry and one miss per other get, give the number of entries, which is within the capacity, and one eviction per stored entry that has neither stayed nor left visibly |
| `MemoryCaches.RunKeepsShape` | rice_factor/adapters/cache/artifact_cache.py:287-299 | in every reachable state keys are distinct and the size is at most the capacity |
| `MemoryCaches.RunConservation` | rice_factor/adapters/cache/artifact_cache.py:228-299 | over every run hits + misses is the number of gets, and insertions equal size + evictions + visible departures |
| `LruInclusion.RunIncluded` | rice_factor/adapters/cache/artifact_cache.py:219-299 | LRU inclusion: after any operations and clock readings a smaller cache is a subsequence of a larger one, which holds at most the capacity difference more |
| `LruInclusion.HitsIncluded` | rice_factor/adapters/cache/artifact_cache.py:228-250 | every hit of the smaller cache is the same hit, with the same entry, of the larger |
| `LruReference.RunAgrees` | rice_factor/adapters/cache/artifact_cache.py:219-406 | after every run the ordered dictionary holds the entries of a table stamped with last touches, in the order of the stamps |
| `LruReference.StepAgrees` | rice_factor/adapters/cache/artifact_cache.py:291-294 | each operation evicts what the stamped table evicts, the least recently touched key, and at most one |
| `LruReference.RepliesAgree` | rice_factor/adapters/cache/artifact_cache.py:219-406 | every operation of every run gets the reply the stamped table gives |
| `LruHistory.StandingIsStored` | rice_factor/adapters/cache/artifact_cache.py:274-299 | what a set stored stays until it is overwritten, removed, expired or evicted, with exactly the lookups since then counted |
| `LruHistory.StoredStands` | rice_factor/adapters/cache/artifact_cache.py:228-299 | every stored entry goes back to a set of its key that still stands |
| `LruHistory.HitExactlyWhenStanding` | rice_factor/adapters/cache/artifact_cache.py:228-250 | a get hits exactly when some set of the key still stands and its lifetime is not over, and returns that value with its access statistics |
| `RedisCaches.RedisCache.Set` | rice_factor/adapters/cache/redis_cache.py:183-243 | stores the entry and lists the key under its hash; a lifetime below one second stores nothing |
| `RedisHistory.SetExactly` | rice_factor/adapters/cache/redis_cache.py:217-243 | a set without a lifetime, or with one of 1 000 000 microseconds or more, stores the entry with its value, hash and end and adds one listing; with a shorter one it changes nothing and returns the same entry |
| `RedisCaches.RedisCache.Get` | rice_factor/adapters/cache/redis_cache.py:128-181 | hit, miss, or removal of an expired entry, leaving the index alone |
| `RedisHistory.HitExactly` | rice_factor/adapters/cache/redis_cache.py:128-181 | over every run a get hits exactly when some set of the key still stands and its lifetime is not over, and returns what that set stored with its access statistics |
| `RedisHistory.StandingIsLive` | rice_factor/adapters/cache/redis_cache.py:128-315 | what a set stored stays until it is overwritten, deleted, invalidated while listed, cleared, dropped by the server, or looked up too late |
| `RedisHistory.CountersAreLookups` | rice_factor/adapters/cache/redis_cache.py:140-181 | after every run hits and misses are the lookups with and without an answer |
| `RedisCaches.RedisCache.Delete` | rice_factor/adapters/cache/redis_cache.py:245-270 | removes the entry and its listing under its current hash |
| `RedisHistory.PresenceExactly` | rice_factor/adapters/cache/redis_cache.py:245-270 | a delete, or a presence check, says true exactly when some set of the key still stands |
| `RedisCaches.RedisCache.InvalidateByHash` | rice_factor/adapters/cache/redis_cache.py:288-315 | deleting the listed keys in any order removes all of them, counts those that were stored, and drops the list |
| `RedisCaches.RedisCache.Clear` | rice_factor/adapters/cache/redis_cache.py:272-286 | removes entries and index, counting both |
| `RedisCaches.ClearCounts` | rice_factor/adapters/cache/redis_cache.py:272-286 | the count is the number of entries exactly when nothing is listed |
| `RedisCaches.ClearCountsOneTwice` | rice_factor/adapters/cache/redis_cache.py:272-286 | clearing a cache with one stored entry counts two |
| `RedisCaches.HasAgainstGet` | rice_factor/adapters/cache/redis_cache.py:362-376 | `has` is true for every key a get would hit, and for a key a get would miss exactly when its entry is past its time and not yet dropped |
| `RedisCaches.LateWriteBack` | rice_factor/adapters/cache/redis_cache.py:140-171 | with any operations of other clients between reading and writing back, a get keeps the index complete exactly when the key still counts as stored with that hash |
| `RedisCaches.InvalidationBetweenHalves` | rice_factor/adapters/cache/redis_cache.py:140-171 | an invalidation in between leaves the entry live and unlisted, so the next one does not count it |
| `RedisCaches.LateInvalidation` | rice_factor/adapters/cache/redis_cache.py:297-312 | with any operations of other clients between reading the list and deleting, an invalidation keeps the index complete exactly when nothing was read or every entry having the hash by then had been listed (`InvalidateInTwoHalves`: with none in between it is the operation itself) |
| `RedisCaches.LateDelete` | rice_factor/adapters/cache/redis_cache.py:254-268 | a delete keeps the index complete whatever happens between its reading and its deleting |
| `RedisCaches.LateListing` | rice_factor/adapters/cache/redis_cache.py:227-241 | after a set the index is complete whatever happens between storing the entry and listing it |
| `RedisCaches.SetBetweenHalves` | rice_factor/adapters/cache/redis_cache.py:297-312 | a set in between leaves the new entry live and unlisted |
| `RedisCaches.RunComplete` | rice_factor/adapters/cache/redis_cache.py:227-241 | index completeness: in every reachable state each live entry is listed under its own hash |
| `RedisCaches.InvalidationAgainstScan` | rice_factor/adapters/cache/redis_cache.py:297-312 | invalidation leaves no live entry with the hash; it removes and counts what a full scan would exactly when no live entry is listed under a hash it no longer has |
| `RedisCaches.IndexIsHistory` | rice_factor/adapters/cache/redis_cache.py:254-268 | a key is listed under a hash exactly when it was stored with it and not since deleted while having it, invalidated or cleared |
| `RedisCaches.DisciplineIsEnough` | rice_factor/adapters/cache/redis_cache.py:297-312 | if no key is stored with a new hash while still listed under another, every invalidation is as good as a scan |
| `RedisCaches.StaleListingRemovesLive` | rice_factor/adapters/cache/redis_cache.py:236-241 | storing other content under a key and invalidating the old hash removes the new entry |
| `CacheTwins.StepTwins` | rice_factor/adapters/cache/redis_cache.py:128-315 | one operation, or the server dropping a key, keeps the entries under common keys equal, and both caches give the same reply exactly when the operation meets no entry that only one side holds and no unequal counts |
| `CacheTwins.TwinsReplyExactly` | rice_factor/adapters/cache/artifact_cache.py:103-173 | the same over every run, full memory cache or not and keys stored anew or not, when lifetimes are a second or more and none is left to a default |
| `CacheTwins.TwinsReplyAlike` | rice_factor/adapters/cache/artifact_cache.py:103-173 | over every run, entries being dropped by the server at any time, with lifetimes of a second or more, no more keys than fit, and no key stored anew while listed under an old hash: an operation gets the same reply from both exactly when it reaches no dropped entry |
| `CacheTwins.AlikeWhileNothingDrops` | rice_factor/adapters/cache/artifact_cache.py:103-173 | if the server drops nothing, which it does only with lifetimes, all replies are alike |
| `CacheTwins.RemoveTellsApart` | rice_factor/adapters/cache/redis_cache.py:245-270 | removing an entry after the server dropped it: the memory cache says it was there, Redis that it was not |
| `CacheTwins.FindTellsApart` | rice_factor/adapters/cache/redis_cache.py:230-233 | an entry stored for 1.9 seconds is gone from the server after one second and still found in memory |
| `LspFraming.ChunkingIndependent` | rice_factor/adapters/lsp/client.py:312-359 | as long as no message is announced to end before the first byte of the buffer, however the stream is cut into reads, the reader delivers the same messages, ends alike and keeps the same leftover as one parse of the whole |
| `LspFraming.FramesRead` | rice_factor/adapters/lsp/client.py:325-359 | reading any list of framed messages gives exactly that list and an empty buffer, whatever the bodies contain |
| `LspFraming.FramesReadInChunks` | rice_factor/adapters/lsp/client.py:249-253 | the same through any cutting into reads |
| `LspFraming.HeaderLengthRead` | rice_factor/adapters/lsp/client.py:332-335 | the printed decimal length is read back |
| `LspHeaders.FirstLengthLine` | rice_factor/adapters/lsp/client.py:332-340 | the first length line of a header decides, whatever stands before and behind it; without one there is no length (`NoLengthLine`) |
| `LspHeaders.SplitCrlfJoined` | rice_factor/adapters/lsp/client.py:332-332 | splitting a header gives back the lines it was joined from |
| `LspHeaders.LengthLineRead` | rice_factor/adapters/lsp/client.py:333-334 | the field name in any case, blanks around the number and further colons behind it are all read; a value that is no number ends the reader (`MalformedLine`), and no other line counts (`OnlyFieldNamesMatch`) |
| `LspHeaders.PacketsRead` | rice_factor/adapters/lsp/client.py:325-359 | messages with any other header lines before and behind the length line are read as these messages, and then what follows them |
| `LspHeaders.PacketsReadInChunks` | rice_factor/adapters/lsp/client.py:312-359 | the same through any cutting into reads |
| `LspHeaders.AfterPackets` | rice_factor/adapters/lsp/client.py:331-340 | behind any messages a block without length line is skipped, and one with a length that is no number, or that is no text, ends the reader with the messages delivered; so does a body that is no text (`UndecodableEnds`) |
| `LspHeaders.TypeLineFirst` | rice_factor/adapters/lsp/client.py:332-335 | a type line before the length line does not hide the message |
| `LspFraming.ProgressExactly` | rice_factor/adapters/lsp/client.py:342-349 | a turn on a complete header waits for missing bytes, is stuck, or goes on behind the announced end; it shortens the buffer exactly for a positive end or a negative one inside the buffer |
| `LspFraming.BackSliceDependsOnCut` | rice_factor/adapters/lsp/client.py:342-349 | the buffer after a turn depends on how much had arrived exactly when the announced end is negative and does not keep the whole buffer |
| `LspFraming.CutsDisagree` | rice_factor/adapters/lsp/client.py:312-359 | a stream with such a header leaves one byte when read at once and two when read in two parts |
| `LspFraming.NegativeLengthStalls` | rice_factor/adapters/lsp/client.py:334-349 | a header announcing minus its own size leaves the loop with the same bytes |
| `LspClients.LspClient.SendRequest` | rice_factor/adapters/lsp/client.py:220-281 | takes the next id, writes its frame (its first bytes if the write fails, which uses the id too), removes the message found under that id and returns its result; None for an error, a failed write, a reached time or memory limit, or no process |
| `LspClients.LspClient.SendNotification` | rice_factor/adapters/lsp/client.py:283-305 | writes its frame without using an id, or the first bytes of it if the write fails |
| `LspClients.TrafficIsRead` | rice_factor/adapters/lsp/client.py:249-253 | a server that reads frames gets the bodies of any requests and notifications in order, requests numbered on, however the pipe cuts them |
| `LspClients.LspClient.ReadResponses` | rice_factor/adapters/lsp/client.py:307-364 | the nested loops store exactly the messages of the reads made before the flag is cleared or the process ends, each under its id |
| `LspClients.LspClient.ParseMessages` | rice_factor/adapters/lsp/client.py:323-359 | the inner loop terminates, stores every complete message and keeps the unfinished bytes |
| `LspClients.LspClient.Stop` | rice_factor/adapters/lsp/client.py:123-154 | sends shutdown, which uses an id, and exit to a running server, clears the table and leaves the counter |
| `LspClients.StoreKeepsLast` | rice_factor/adapters/lsp/client.py:354-356 | the table holds under each id the last message that arrived with it |
| `LspClients.AwaitReturnsOwn` | rice_factor/adapters/lsp/client.py:265-281 | a wait succeeds exactly when a message with its id arrives, returns such a message and removes it |
| `LspClients.AwaitStopsAtFirst` | rice_factor/adapters/lsp/client.py:265-281 | a wait ends at the first look that finds its id and leaves every other message in the table |
| `LspSession.ResponsesSafe` | rice_factor/adapters/lsp/client.py:239-281 | over every interleaving ids increase, no message is given twice, and a request gets only a message with its own id, its own answer unless a server chose that id |
| `LspSession.AnswerArrives` | rice_factor/adapters/lsp/client.py:239-281 | after any run, an answer that is sent, read and looked for is given to its request and nothing of it is left behind |
| `LspSession.StopForgets` | rice_factor/adapters/lsp/client.py:123-154 | a stopped client has no message left and neither sends nor takes one before it is started again |
| `LspSession.ForeignIdIsMistaken` | rice_factor/adapters/lsp/client.py:354-356 | for every id there is a run in which a server's own request is taken for the answer |
| `LspRefinement.WaitIsAwait` | rice_factor/adapters/lsp/client.py:265-281 | waiting in the interleaved system computes what the client's loop computes |
| `LspRefinement.RequestIsRun` | rice_factor/adapters/lsp/client.py:220-281 | a request made after any run continues that run, so its result is safe in the sense above |
| `RenamePreview.GenerateRenameDiff` | rice_factor/adapters/executors/refactor_executor_adapter.py:382-425 | the loop prints one hunk per differing line, and fails when the line counts differ |
| `RenamePreview.PairableExactly` | rice_factor/adapters/executors/refactor_executor_adapter.py:419 | the strict pairing succeeds exactly when the symbol does not occur or both names have equally many newlines |
| `RenamePreview.TwoLineNameRaises` | rice_factor/adapters/executors/refactor_executor_adapter.py:419 | renaming `a` to a name over two lines in the text `a` cannot be paired |
| `RenamePreview.ReplaceLineByLine` | rice_factor/adapters/executors/refactor_executor_adapter.py:407-410 | for names without newlines replacing then splitting equals splitting then replacing each line |
| `RenamePreview.PreviewIsApplication` | rice_factor/adapters/executors/refactor_executor_adapter.py:407-425 | patching the original with the printed preview, read by an independent reader, gives exactly the text the application writes |
| `RefactorPipeline.RefactorExecutor.ExecutePipeline` | rice_factor/adapters/executors/refactor_executor_adapter.py:219-247 | all checks on the initial tree, then all previews, then the operations in order until one raises; no operation acts before every check and preview has passed; on success the diffs are exactly the non-empty previews on the initial tree, in the order of the operations; a dry run changes nothing |
| `PipelineLaws.SucceedsExactly` | rice_factor/adapters/executors/refactor_executor_adapter.py:219-247 | a dry run succeeds exactly when every operation passes its check and can be previewed, an applied plan exactly when its operations go through as well; the first failing check is the one reported (`FirstErrorReported`) |
| `PipelineLaws.CheckedExactly` | rice_factor/adapters/executors/refactor_executor_adapter.py:296-326 | a check fails exactly for a named source that is no file, or else a move to a path that a file has or lies under |
| `RefactorPipeline.RefactorExecutor.ApplyOperation` | rice_factor/adapters/executors/refactor_executor_adapter.py:452-539 | one operation moves or rewrites one file, or raises and leaves every file as it was |
| `PipelineLaws.MovedExactly` | rice_factor/adapters/executors/refactor_executor_adapter.py:452-492 | a move puts the text at the destination, or inside it under the last part of its path if that is a directory; it raises exactly when the source is gone, a file is in the way, or that place is taken |
| `PipelineLaws.MovePrinted` | rice_factor/adapters/executors/refactor_executor_adapter.py:348-380 | the five printed lines of the preview of a move |
| `RefactorPipeline.RenameShownAndDone` | rice_factor/adapters/executors/refactor_executor_adapter.py:494-539 | the preview of a rename is its effect, except that an empty new name is previewed as nothing and deletes |
| `RefactorPipeline.PlanDoesWhatItShows` | rice_factor/adapters/executors/refactor_executor_adapter.py:223-238 | for renames in distinct files, with any non-empty names, every file ends as its preview, made before any change, said; all else is unchanged |
| `PipelineLaws.ReturnedDiffsTell` | rice_factor/adapters/executors/refactor_executor_adapter.py:223-247 | the diffs returned for renames in distinct files, dry or applied, are one per operation, and each turns its file into what it has become |
| `RefactorPipeline.EmptyNameDeletes` | rice_factor/adapters/executors/refactor_executor_adapter.py:494-539 | renaming to an empty name shows nothing and deletes |
| `StalePreviews.PreviewHoldsExactly` | rice_factor/adapters/executors/refactor_executor_adapter.py:407-425 | for any names, a preview made from one text tells what the rename does to another exactly when the rename makes the same line changes in both |
| `StalePreviews.StaleExactly` | rice_factor/adapters/executors/refactor_executor_adapter.py:223-238 | in any plan of renames, several in one file or not and to empty names or not, an operation that has a preview does what it showed exactly when it makes the same changes in the initial text and in the one the operations before it leave |
| `PipelineLaws.ReturnedDiffsHold` | rice_factor/adapters/executors/refactor_executor_adapter.py:223-247 | the same of the diffs that an applied plan returns |
| `StalePreviews.StaleByLines` | rice_factor/adapters/executors/refactor_executor_adapter.py:223-238 | for names without newlines that is so exactly when the operations before it left every line as it was or in a form that, like the original, the operation does not change |
| `StalePreviews.SecondPreviewIsStale` | rice_factor/adapters/executors/refactor_executor_adapter.py:223-238 | with two renames in one file the second preview shows nothing although the rename acts |
| `MovePlans.MovePlanLosesNothing` | rice_factor/adapters/executors/refactor_executor_adapter.py:219-238 | any plan of moves and renames: failing checks or previews changes nothing; passing, it succeeds with every destination filled and no file lost exactly when no step uses a file moved away before, no destination is filled twice, and each path is clear at its turn; then every file is where the plan says with the text it says |
| `MovePlans.GoesThrough` | rice_factor/adapters/executors/refactor_executor_adapter.py:452-492 | on clear paths a plan of moves and renames goes through exactly when no step uses a file moved away before |
| `MovePlans.OrderDoesNotMatter` | rice_factor/adapters/executors/refactor_executor_adapter.py:235-238 | another order of the moves of a plan that fits succeeds with the same tree exactly when it fits as well |
| `MovePlans.RewriteShown` | rice_factor/adapters/executors/refactor_executor_adapter.py:223-238 | in a plan of moves and renames a rename does what its preview showed exactly when it makes the same changes in the initial text and in the one the renames before it leave; moves do not matter |
| `MovePlans.SourceUsedTwice` | rice_factor/adapters/executors/refactor_executor_adapter.py:479-492 | a source used twice stops the plan half way |
| `MovePlans.MovedThenRenamed` | rice_factor/adapters/executors/refactor_executor_adapter.py:494-539 | renaming in a file that was moved away stops the plan half way |
| `MovePlans.DestinationUsedTwice` | rice_factor/adapters/executors/refactor_executor_adapter.py:479-492 | a destination used twice: success, and a file is lost |
| `MovePlans.DestinationAboveAnother` | rice_factor/adapters/executors/refactor_executor_adapter.py:479-492 | a destination above an earlier one: success, and the file lies inside it under its own name |
| `MovePlans.FileInTheWay` | rice_factor/adapters/executors/refactor_executor_adapter.py:479-492 | a file where a directory is needed makes a checked plan raise |
| `MovePlans.FileMovedOutOfTheWay` | rice_factor/adapters/executors/refactor_executor_adapter.py:479-492 | moving that file away first makes room |
| `LineEndings.StoredPreviewExactly` | rice_factor/adapters/executors/refactor_executor_adapter.py:407-425 | the preview, applied to the stored bytes, gives what is stored afterwards exactly when the file has no carriage return |
| `LineEndings.AbsentSymbolKeepsFile` | rice_factor/adapters/executors/refactor_executor_adapter.py:537-539 | a rename that finds nothing leaves the file alone exactly when it has no carriage return |
| `LineEndings.LineEndRewritten` | rice_factor/adapters/executors/refactor_executor_adapter.py:537-539 | the line end CR LF becomes LF although the symbol does not occur |
| `LineEndings.LineEndsRead` | rice_factor/adapters/executors/refactor_executor_adapter.py:537-539 | reading changes nothing up to the first carriage return, which is one newline with the newline behind it or alone |
| `DiffPreview.ApplyDiff` | rice-factor-vscode/src/diffPreview.ts:170-205 | the two loops compute the walk over the diff lines and the untouched rest |
| `DiffPreview.TurnExactly` | rice-factor-vscode/src/diffPreview.ts:178-198 | what each kind of diff line does, by its first characters: headers nothing, an insert its text, a delete one original line, a kept line both, any other line the original line |
| `DiffPreview.WalkFollowsVisible` | rice-factor-vscode/src/diffPreview.ts:178-202 | for every script and original the applier carries out the script without the edits that look like headers |
| `DiffPreview.IntendedExactly` | rice-factor-vscode/src/diffPreview.ts:179-185 | the result is the intended one exactly when the edits that do not look like headers, followed by what the script reads beyond them, come to the target of the script; so if none looks like one, only if as many inserts as deletes do, and exactly when none does if only one kind can |
| `DiffPreview.PlussesAreLost` | rice-factor-vscode/src/diffPreview.ts:179-185 | an inserted `++i` is dropped |
| `DiffPreview.MistakesMayCancel` | rice-factor-vscode/src/diffPreview.ts:179-185 | with both kinds the mistakes can cancel |
| `DiffPreview.PatchGivesTarget` | rice-factor-vscode/src/diffPreview.ts:170-205 | applying the printed diff gives the lines of the script's target and the untouched tail, with or without lines left |
| `DiffPreview.PatchRoundTrip` | rice-factor-vscode/src/diffPreview.ts:170-205 | applying the diff of a script and then of its reverse restores the original text exactly when the script leaves a line, and adds a newline otherwise |
| `DiffPreview.DeletedLineComesBackLonger` | rice-factor-vscode/src/diffPreview.ts:170-205 | deleting the only line and undoing that gives a second, empty line |
| `DiffFiles.GenerateDiff` | rice_factor/adapters/executors/scaffold_executor.py:246-288 | prints the entries that do not exist yet, in order |
| `DiffFileLaws.ContentJoined` | rice_factor/adapters/executors/scaffold_executor.py:266-284 | the printed lines of a text make it up again, but for one newline at its end |
| `DiffFileLaws.HunkLineRead` | rice_factor/adapters/executors/scaffold_executor.py:266-284 | the hunk line holds the number of added lines, in decimal |
| `DiffFiles.ParseDiffFiles` | rice_factor/adapters/executors/diff_executor.py:260-288 | returns the sorted, duplicate-free list of the files named on the lines |
| `DiffFiles.FilesOnPrinted` | rice_factor/adapters/executors/scaffold_executor.py:256-288 | the files named in a printed diff are the new paths and the phantoms in generated text |
| `DiffFiles.ReaderReadsPrinter` | rice_factor/adapters/executors/diff_executor.py:269-288 | the reader lists exactly the new paths if and only if every phantom is one; in particular when no generated line starts with `++ ` |
| `DiffFiles.PhantomIsListed` | rice_factor/adapters/executors/diff_executor.py:277-286 | a generated line `++ x` makes the reader list x |
| `DiffFiles.PathOnUnprefixed` | rice_factor/adapters/executors/diff_executor.py:277-286 | headers without the usual prefix name their path too |
| `DiffFileLaws.PrefixedPath` | rice_factor/adapters/executors/diff_executor.py:269-288 | what follows a usual prefix names the path, stripped, unless nothing or the null device is left; other lines name none (`OtherLine`) |
| `PreviewFiles.MovePreviewNames` | rice_factor/adapters/executors/refactor_executor_adapter.py:348-380 | the diff reader finds exactly source and destination in the preview of a move |
| `PreviewFiles.RenamePreviewNames` | rice_factor/adapters/executors/refactor_executor_adapter.py:412-425 | it always finds the file in the preview of a rename, and nothing else exactly when no changed line, printed with its sign, names another file |
| `PreviewFiles.CommentNamesFile` | rice_factor/adapters/executors/diff_executor.py:277-281 | renaming u in the SQL comment `-- u` makes the reader list u |
| `DiffFiles.AuthorizedExactly` | rice_factor/adapters/executors/diff_executor.py:369-384 | nothing is reported unauthorized exactly when every touched file is allowed |
| `DiffFileLaws.UnauthorizedExactly` | rice_factor/adapters/executors/diff_executor.py:369-384 | the files reported are exactly the touched ones that are not allowed, in order and each once |
| `DependencyFixer.Fixer.EnforceDependency` | rice_factor/adapters/refactoring/jscodeshift_adapter.py:975-1042 | fixing blanks exactly the reported lines whose file could be read and written and lists the others as errors, succeeding exactly without errors; one change per removed violation with the line it took away; without fixing nothing changes and each violation is reported with its statement; files that are not listed or whose path does not contain the source path are neither changed nor reported |
| `DependencyFixer.Fixer.FindViolations` | rice_factor/adapters/refactoring/jscodeshift_adapter.py:1044-1081 | collects the violations of the searched, readable files in order |
| `DependencyFixer.Fixer.CheckFile` | rice_factor/adapters/refactoring/jscodeshift_adapter.py:1083-1157 | collects up to three violations per line in order |
| `DependencyFixer.Fixer.RemoveImport` | rice_factor/adapters/refactoring/jscodeshift_adapter.py:1159-1214 | blanks one line of one file, or reports an error and changes nothing |
| `DependencyFixer.ReportedExactly` | rice_factor/adapters/refactoring/jscodeshift_adapter.py:1061-1157 | a line is reported exactly if its file is listed and readable, some slice of the path is the source path with slashes for its backslashes, and a pattern finds a path in the line some slice of which is the target path read alike |
| `DependencyOrder.FoundInOrder` | rice_factor/adapters/refactoring/jscodeshift_adapter.py:1059-1157 | a search finds every forbidden import once, ordered by file, line and pattern, with its stripped line and its path, and nothing else |
| `DependencyOrder.RemovedInOrder` | rice_factor/adapters/refactoring/jscodeshift_adapter.py:1007-1014 | the removals that go through are those whose file could be used at their turn, in order; the others are the errors (`FailedAreOthers`) |
| `DependencyFixer.OnlySearched` | rice_factor/adapters/refactoring/jscodeshift_adapter.py:1061-1067 | files outside the source path of the rule, or not listed, are neither reported nor changed by any removals |
| `DependencyFixer.BlankedOneMore` | rice_factor/adapters/refactoring/jscodeshift_adapter.py:1170-1180 | line numbers found before the edits stay valid through all of them |
| `DependencyFixer.RescanFindsLeft` | rice_factor/adapters/refactoring/jscodeshift_adapter.py:991-1033 | after any removals a second search finds exactly the lines found before and not blanked |
| `DependencyFixer.RescanFindsNothing` | rice_factor/adapters/refactoring/jscodeshift_adapter.py:991-1033 | after a fix without errors a second search finds no violation in any file |
| `DependencyFixer.RescanAfterFix` | rice_factor/adapters/refactoring/jscodeshift_adapter.py:1004-1014 | when removals may fail, a second search finds nothing exactly when every failed violation lies on a line blanked for another |
| `DependencyFixer.FixIsIdempotent` | rice_factor/adapters/refactoring/jscodeshift_adapter.py:991-1033 | fixing again changes nothing |
| `ProviderSelectors.ProviderSelector.SetEnabled` | rice_factor/adapters/llm/provider_selector.py:161-198 | switches the first provider of the name and keeps the list in use the sorted enabled ones |
| `ProviderSelectors.ProviderSelector.SetStrategy` | rice_factor/adapters/llm/provider_selector.py:151-159 | changes the strategy and resets the rotation |
| `ProviderSelectors.ProviderSelector.Generate` | rice_factor/adapters/llm/provider_selector.py:296-347 | returns what the fallback description allows: the provider that answers is one in use, and under priority (cost) every provider in use of smaller priority (cost) has raised; the rotation moves on only after a round-robin success |
| `ProviderSelectors.ProviderSelector.TryInOrder` | rice_factor/adapters/llm/provider_selector.py:321-347 | the first provider in order that does not raise answers, with its position and one error per earlier one; failure when the first min(n, max_retries) all raise |
| `ProviderSelectors.FallsIsUnique` | rice_factor/adapters/llm/provider_selector.py:325-347 | the fallback description determines the outcome, and a call fails exactly when all that may be tried raise |
| `ProviderSelectors.FallbackOrderCoversAll` | rice_factor/adapters/llm/provider_selector.py:236-294 | the fallback order rearranges the providers in use: as they are for priority, from the start on for round robin, by cost and stable for cost |
| `ProviderSelectors.WhoAnswers` | rice_factor/adapters/llm/provider_selector.py:321-347 | whoever answers is enabled, and every enabled provider of smaller priority (cost) has raised; with enough retries a call fails only after every enabled provider has raised |
| `ProviderSelectors.StableSortIsStable` | rice_factor/adapters/llm/provider_selector.py:193-198 | the sort orders by key, keeps all elements and keeps the order of equal keys |
| `ProviderSelectors.ProvidersInUse` | rice_factor/adapters/llm/provider_selector.py:193-198 | the list in use is the one list that is sorted by priority and keeps the enabled providers in order within a priority |
| `RoundRobinRuns.StartsRotate` | rice_factor/adapters/llm/provider_selector.py:251-266 | when every call succeeds, call i starts at position (c + i) mod n |
| `RoundRobinRuns.RoundRobinIsFair` | rice_factor/adapters/llm/provider_selector.py:281-285 | k * n calls that succeed at once use each provider exactly k times |
| `RetryLoops.CreateMessage` | rice_factor/adapters/llm/claude_client.py:132-167 | calls go on while outcomes can be retried and retries are left, with the backoff delays in between; the last outcome decides |
| `RetryLoops.CreateChatCompletion` | rice_factor/adapters/llm/openai_client.py:145-181 | the same description holds of the other loop |
| `RetryLoops.LoopsAgree` | rice_factor/adapters/llm/openai_client.py:145-181 | both loops make the same number of calls, sleep the same delays and end alike |
| `RetryLoops.FirstOtherDecides` | rice_factor/adapters/llm/claude_client.py:132-167 | behind n timeouts or server errors (status 500 and above), the next outcome decides at call n + 1 after n delays: a response is returned, a rate limit or another API error raised at once, and the last one raised when no retry is left |
| `RetryLoops.TotalDelay` | rice_factor/adapters/llm/claude_client.py:132-159 | r retries sleep 2^r - 1 seconds for r up to 4 and 15 + 16 (r - 4) beyond |
| `MetricLabels.LabelKey` | rice_factor/adapters/metrics/prometheus_adapter.py:147-156 | the key joins name=value in the order of the names |
| `MetricLabels.ParseLabels` | rice_factor/adapters/metrics/prometheus_adapter.py:495-511 | the loop splits at bars and at the first equals sign of each part |
| `MetricLabels.KeyReadBack` | rice_factor/adapters/metrics/prometheus_adapter.py:495-511 | parsing a key returns the label map exactly when names avoid both separators and values avoid the bar |
| `MetricLabels.SeriesAreDistinct` | rice_factor/adapters/metrics/prometheus_adapter.py:147-156 | distinct clean label maps never share a key |
| `MetricLabels.BarInValueCollides` | rice_factor/adapters/metrics/prometheus_adapter.py:147-156 | a bar in a value makes two label maps share a key |
| `Metrics.MetricsRegistry.Increment` | rice_factor/adapters/metrics/prometheus_adapter.py:158-184 | adds to one series of a registered counter and changes nothing else, or reports the error |
| `Metrics.MetricsRegistry.ObserveHistogram` | rice_factor/adapters/metrics/prometheus_adapter.py:253-294 | files one observation under the key of its labels and changes nothing else, or reports the error |
| `Metrics.MetricsRegistry.Register` | rice_factor/adapters/metrics/prometheus_adapter.py:112-133 | adds a definition with empty storage unless the name is taken |
| `Metrics.BucketsCount` | rice_factor/adapters/metrics/prometheus_adapter.py:277-294 | after any observations a bucket holds the number at or below its bound times the occurrences of the bound; sum and count are the totals |
| `Metrics.BucketsCumulative` | rice_factor/adapters/metrics/prometheus_adapter.py:287-294 | for distinct bounds buckets grow with the bound and never exceed the count |
| `Metrics.SeriesSeparate` | rice_factor/adapters/metrics/prometheus_adapter.py:277-294 | a series is the histogram of exactly the values observed under its label map |
| `AuditLogs.AuditLogger.LogExecution` | rice_factor/adapters/executors/audit_logger.py:84-109 | appends one printed line, creating the file if needed |
| `AuditLogs.AuditLogger.ReadAllEntries` | rice_factor/adapters/executors/audit_logger.py:276-298 | returns the readable entries in order, skipping blank and malformed lines |
| `AuditReaders.LinesRead` | rice_factor/adapters/executors/audit_logger.py:276-298 | what is read is the entry of each line that is not blank and that JSON accepts, in the order of the lines; the lines are those of the text without the blanks around it (`LinesOfLog`) |
| `AuditLogs.AuditLogger.ReadEntriesForArtifact` | rice_factor/adapters/executors/audit_logger.py:248-274 | returns those of all entries that name the artifact |
| `AuditReaders.ArtifactPicks` | rice_factor/adapters/executors/audit_logger.py:259-272 | exactly the entries whose artifact equals the given one, in order |
| `AuditLogs.AuditLogger.ReadRecentEntries` | rice_factor/adapters/executors/audit_logger.py:218-246 | reading backwards with an early stop returns the first `limit` of the reversed full reading, on any file |
| `AuditLogs.AppendsAreRead` | rice_factor/adapters/executors/audit_logger.py:84-109 | any run of appends to any file is read back exactly and in order behind what was read before if and only if the last line keeps its reading and the first entry is read behind it; for a line-ended file exactly when its last line reads alike with and without its trailing blanks |
| `AuditLogs.HiddenBehindFormFeed` | rice_factor/adapters/executors/audit_logger.py:286-296 | an entry followed by a form feed is read while it is last and lost after an append |
| `AuditLogs.UnfinishedLine` | rice_factor/adapters/executors/audit_logger.py:98-109 | appends behind a line without newline, ending in blanks or not, are all read exactly when that line was unreadable and becomes the first entry |
| `AuditLogs.TwoEntriesOnOneLine` | rice_factor/adapters/executors/audit_logger.py:98-109 | behind an entry without newline both entries are lost if the joined line is not JSON |

## Left out

- Subprocesses, sockets, threads, locks and real clocks: replaced by steps, stores and parameters as described above.
- The file with the operation record of refactor plans and the one with the audit entry are not part of this model; their fields are taken from the code that uses them.
- `max_size` below one: evicting from an empty cache raises in the code; the model asks for at least one.
- Entries handed out by the memory cache are shared objects in the code, so a later hit changes the access statistics a caller sees; the model returns copies.
- Redis keys that start with `hash:` would collide with the index; keys and index are separate stores here. `get_stats` and `keys` of the Redis cache only filter a scan.
- Integers in a length line with underscores or non-ASCII digits, and non-ASCII blanks in `strip`, are not recognised by the model.
- LspClients.LspClient.ParseMessages: where the code goes round for ever it returns with a status that says so.
- RedisCaches.RunComplete: operations of clients are taken one at a time; `LateWriteBack`, `LateInvalidation`, `LateDelete` and `LateListing` say what each does when others come between its two halves.
- RedisCaches.LateInvalidation: the keys it read are deleted, and the list with them, in one step after the other operations; three or more halves of different operations at once are not considered.
- LineEndings.StoredPreviewExactly: on systems whose line end is not LF, writing translates as well; other modules speak of texts as they are read.
- CacheTwins.TwinsReplyAlike: when the server drops an entry is free, so nothing is said about dropped entries coming only at the end of whole seconds.
- RefactorPipeline.RefactorExecutor.ExecutePipeline: the combined diff, which the code saves under audit/diffs in the repository before it applies anything, is not in the tree of the model.
- RefactorPipeline.RefactorExecutor.ApplyOperation: directories that were created before a move raises stay behind in the code; the model has no empty directories. Renames done by a language-specific tool are not part of it.
- DependencyFixer.Fixer.RemoveImport: a write that fails leaves the file as it was.
- Steps 1 to 4 of the refactor executor (loading, approval, capabilities), the language-specific refactoring tools, the log texts and the file the combined diff is saved in.
- Directories as sources of a move, empty directories, and path spellings such as `..` in the refactor executor; a directory exists here while a file lies under it.
- Diffs with `diff --git` lines or with hunks that skip lines are outside what `DiffPreview` describes as a script; the applier ignores hunk positions.
- `generate_async` has the fallback chain of `generate` with a timeout around each call; availability checks and the configuration loader are wrappers.
- Exceptions other than timeouts, rate limits and API errors leave the OpenAI loop at once.
- The text exports of histograms sum the already cumulative buckets again; only the registry is modelled, and nothing is claimed about exported buckets. Gauges are assignments.
- Language-model adapters, notifications, the web backend, editor views, drift and coverage checks: formatting or wrappers over libraries.
