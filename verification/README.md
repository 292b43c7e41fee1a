# URL shortener: a verified model

This project models the stateful core of a URL shortener and proves what that core is relied on for:

- deletions are accepted at once and carried out later by five workers, and a clean shutdown has carried out every one accepted before it stopped the workers;
- an in-memory index of four maps stays consistent, and an append-only file or a database table rebuilds it under conditions stated exactly below;
- batch shortening gives every original one short, whenever it is cancelled;
- audit events reach every observer at most once and in order, and all events accepted before Close stops the service reach all of them;
- signed user ids round-trip through an authorization value;
- a code generator emits `Reset` methods that reset every member they descend to, unless a promoted method stands in the way.

The modules follow the program:

| module | part of the program |
|---|---|
| `Model` | records, errors, and a context: a countdown of polls after which it is done and stays done |
| `InMemory` | the index; functions say what each operation does, the class does it |
| `FileLog`, `FileStorage` | the log as text, torn logs; the storage object with its buffered writer |
| `CodecWitness` | a concrete record codec, so that what is assumed of the codec can be met |
| `Database` | a cache over a bag of rows |
| `DeleteQueue` | the shared queue, one flush, the retry loop |
| `DeletePipeline`, `DeleteShutdown`, `DeleteProgress`, `DeleteRefinement` | callers, channel, workers and shutdown as a state machine; what a shutdown leaves behind; what the machine can always do next; its refinement of a synchronous delete |
| `Base64Url`, `Shortener` | the spelling of ids; single and batch shortening |
| `Audit` | the bounded event queue and its consumer |
| `Auth` | the signed token |
| `ResetTypes`, `ResetEmitter`, `ResetText`, `ResetTermination`, `ResetSemantics`, `ResetMethods`, `ResetPromotion` | the generator: resolving names, emitting statements, how they are spelled, when that ends, what they do, one generated method, all of them together with the methods promoted from embedded fields |

Code that works in place is a class or a method with a loop, proved against functions on values; the laws
are lemmas about those functions. The two concurrent parts are step relations. Every mutex section, channel
operation and outside call is one step, and the event carries each choice of the scheduler, of a `select`, of
a ticker, of a context and of a failing repository. So "reachable" covers every interleaving.

## What the proofs found

Each of these is an exact condition on the code as it is, in the lemma named.

- `DeleteShutdown.StrandsExactly`: a call of `DeleteUserURLs` that has passed the flag check and not returned when the stop channel is closed can still be accepted (internal/service/service.go:251-273) after the last worker left. Its request stays in the channel while Shutdown returns nil; `DeleteShutdown.LateRequestStranded` gives the run and `DeleteShutdown.StrandedForGood` shows that it is never carried out. This can happen exactly when some caller is at that point at the close, and `DeleteShutdown.QuietShutdownServesAll` is the guarantee otherwise. The program stops its servers first (cmd/shortener/main.go:95-109), but goes on after a timeout, when handlers may still be running.
- `Audit.LosesExactly`: `Notify` checks no flag, so a call that has not returned when the done channel is closed, or comes later, can still put its event into the queue (internal/audit/service.go:43-46) after the consumer left. No observer ever sees it; `Audit.LateEventLost` gives the run and `Audit.LostForGood` shows that it stays so. This can happen exactly when some call has not returned before Close, and `Audit.QuietCloseDelivers` is the guarantee otherwise.
- `DeleteShutdown.ServedExactlyWhenNonEmpty`: the pending count adds up list lengths, so a delete request without shorts whose call failed is invisible to it. Shutdown then returns nil although no call for that user succeeded. With at least one short this cannot happen. The HTTP handler rejects empty lists (internal/handler/router.go:290-293), so only a direct caller of the service can send one.
- `FileLog.AppendAfterTearExactly`: a storage reopened on a log whose last line is torn appends straight behind it. The first new record is glued to the torn line and lost at the next load, unless the tear fell on a line boundary. Even a last record that lacked only its newline is lost then.
- `FileStorage.ReopenExactly`: after saves of new shorts, closing and reopening a storage gives the index it had exactly when every record applied was also written, and the log was not opened on a torn line. `FileStorage.CutBatchReopensExactly` says when one batch keeps this: the index and the log are filled in two passes that each poll the context once per record, so it does exactly when the batch is empty or the context lasts for both passes or is done before the first. `FileStorage.CutBatchLoses` shows each lost record answered before the restart and unknown after it.
- `Database.RestartExactly`: the batch insert leaves out `user_id`, and loading scans it into a plain string, so after one committed non-empty batch the next start fails. `Database.BatchAgreesExactly`: cache and table agree after a committed batch exactly when it was empty.
- `Database.FailedBatchAgreesExactly`: the comment at internal/repository/database_repository.go:68-70 promises that database and cache are updated atomically, and a failure rolled back. The rollback leaves the cache alone: after a failed batch the two agree exactly when the cache knew before what the saved records say. For new shorts (`Database.FailedNewBatchAgreesExactly`) that is when it failed before its first save.
- `Database.FailedSaveAgreesExactly`: a save whose insert failed leaves cache and table in agreement exactly when the cache knew the record before.
- `Database.OrderBlindExactly`: after a restart the short of an original depends on the order of the rows exactly when some original has rows with different shorts.
- `Database.DeleteKeepsBacksExactly`: a context that ends between the commit and the cache update leaves cache and table apart exactly when there was something to delete.
- `InMemory.SaveKeepsLinkedExactly`: a save breaks the link between the two directions of the index exactly when its short is the current short of another original. `InMemory.LookupAfterSave`: saving a deleted short again does not revive it.
- `DeleteRefinement.SaveKeepsAheadExactly`: a save that races with pending deletions keeps the synchronous reading exactly when it does not change whether the short's owner is asked for its deletion.
- `ResetTermination.TerminatesExactly`: the generator fails to end exactly when the type reaches a cycle through pointers and struct fields; the set of visited names is restarted at every field (cmd/reset/main.go:285), so it does not cut such a cycle.
- `ResetPromotion.GeneratedResetsAllExactly`: in Go an unmarked struct that embeds a type with a `Reset` method gets that method by promotion, the generated one of a marked type included. The check at cmd/reset/main.go:278 then finds it and calls it, and it resets the embedded part alone. So a generated method does for every value what expanding every struct would exactly when no struct on its descent gets its method by promotion while another member could be changed by a reset, or while the embedded field's own statements would not ask for that method. `ResetPromotion.PromotionHidesMembers` is the smallest case.

## Model

| member | source | states |
|---|---|---|
| Model.Context.Poll | internal/repository/in_memory_repository.go:100-106 | polling says whether the context is done; once done it stays done |
| InMemory.InMemoryStorage.Find | internal/repository/in_memory_repository.go:33-47 | not found for an unknown short, the deletion error for a deleted one, otherwise its original |
| InMemory.InMemoryStorage.Save | internal/repository/in_memory_repository.go:50-82 | exactly three entries change, and the deletion mark only if the record carries one |
| InMemory.InMemoryStorage.GetShort | internal/repository/in_memory_repository.go:59-71 | a done context answers "missing" even for a known original |
| InMemory.InMemoryStorage.SaveBatch | internal/repository/in_memory_repository.go:85-112 | the loop saves exactly the prefix its polls allow, and errs exactly when that is not all |
| InMemory.InMemoryStorage.DeleteUserURLs | internal/repository/in_memory_repository.go:153-174 | the loop marks exactly the listed shorts the user owns, as one simultaneous deletion; a done context changes nothing |
| InMemory.InMemoryStorage.GetStats | internal/repository/in_memory_repository.go:177-197 | the number of shorts, and of distinct users with a name |
| InMemory.OneByOneIsAllAtOnce | internal/repository/in_memory_repository.go:165-171 | marking one listed short after the other, repetitions included, is one simultaneous deletion |
| InMemory.SaveAllAppends | internal/repository/in_memory_repository.go:99-112 | a batch split anywhere does the same as the two parts in turn |
| InMemory.RunKeeps | internal/repository/in_memory_repository.go:73-174 | over every run of saves, batches and deletes: owners are known for exactly the stored shorts, deletion marks lie inside them, and nothing stored or deleted is undone |
| InMemory.SaveKeepsLinkedExactly | internal/repository/in_memory_repository.go:73-82 | a save keeps original-to-short and short-to-original inverse exactly when its short is not another original's current short |
| InMemory.RunLinked | internal/repository/in_memory_repository.go:73-174 | over every run whose shorts are new, every original's short points back to it, every stored original has an entry, and no two originals share a short |
| InMemory.SaveAllElsewhere | internal/repository/in_memory_repository.go:99-112 | a batch leaves every short it does not name alone |
| InMemory.SaveAllAt | internal/repository/in_memory_repository.go:99-112 | with distinct shorts every record of a batch is found under its short, with its owner |
| InMemory.SaveAllDeletes | internal/repository/in_memory_repository.go:99-112 | a batch deletes exactly the shorts of its flagged records, besides those deleted before |
| InMemory.ShortOfElsewhere | internal/repository/in_memory_repository.go:99-112 | a batch leaves the short of every original it does not name alone |
| InMemory.ShortOfAt | internal/repository/in_memory_repository.go:99-112 | with distinct originals every record's original gets its short |
| InMemory.SaveFreshSize | internal/repository/in_memory_repository.go:99-112 | the store grows by exactly the length of a batch of new shorts |
| InMemory.LookupAfterDelete | internal/repository/in_memory_repository.go:33-47 | after a deletion exactly the listed shorts of that user answer "deleted"; all other answers are unchanged |
| InMemory.LookupAfterSave | internal/repository/in_memory_repository.go:33-47 | after a save only its short answers differently, and a deleted short stays deleted |
| InMemory.NamedUsersMeans | internal/repository/in_memory_repository.go:177-197 | the users counted are those who own some short, the empty name aside |
| InMemory.OwnerCanDelete | internal/repository/in_memory_repository.go:153-174 | a delete by the owner of a stored short makes it answer "deleted" |
| DeleteQueue.Queue.EnqueueDelete | internal/service/service.go:339-343 | the request's shorts join its user's list; other users are untouched |
| DeleteQueue.Queue.PopDeleteBatch | internal/service/service.go:356-364 | everything queued is handed over and the queue is empty |
| DeleteQueue.Queue.PendingDeleteCount | internal/service/service.go:366-376 | the loop's count is zero exactly when no pair of user and short is queued |
| DeleteQueue.FaultyRepository.DeleteUserURLs | internal/service/service.go:324-337 | a call either succeeds and is recorded or uses up a failure and changes nothing |
| DeleteQueue.FlushOneUser | internal/service/service.go:380-392 | success and put-back of one user's list both keep every pair's count |
| DeleteQueue.Queue.FlushDeleteQueueOnce | internal/service/service.go:378-393 | one flush, with any failures: every pair is served or still queued, as often as before; a list left over is unchanged and means the repository failed |
| DeleteQueue.Queue.FlushRound | internal/service/service.go:399-423 | one turn of the loop keeps every pair's count, and uses up a failure unless it ends with nothing pending |
| DeleteQueue.Queue.FlushDeleteQueueUntilEmpty | internal/service/service.go:395-425 | bounded retry, watched for any number of rounds: with at most k failures and a context live when round k+1 begins it returns nil within k+1 rounds; it ends once the context does; nil means nothing pending, an error means the context is done; no pair is lost or duplicated, even while it goes on for ever |
| DeleteQueue.InRequestsMeans | internal/service/service.go:339-343 | a pair is counted exactly when some request of its user names its short |
| DeleteQueue.TotalZero | internal/service/service.go:366-376 | the pending count is zero exactly when every pair's count is, whatever empty lists remain |
| DeletePipeline.StepCounts | internal/service/service.go:246-393 | one step of anyone moves each pair between places without losing or copying it |
| DeletePipeline.StepKeepsChannel | internal/service/service.go:267-273 | one step keeps the channel within its capacity, holding the accepted but not received requests in order |
| DeletePipeline.StepKeepsWorkers | internal/service/service.go:301-322 | one step keeps this: a worker drains or exits only after the stop, an exited one has left no request sent before the stop, and the final flush starts only when all have exited |
| DeletePipeline.ReachableInv | internal/service/service.go:246-468 | the whole invariant holds after every run |
| DeletePipeline.AcceptedWorkIsConserved | internal/service/service.go:246-393 | conservation over every interleaving: the accepted pairs are those in the channel, held by workers, queued, popped by the shutdown, or successfully deleted, counted exactly |
| DeletePipeline.ShutdownSettles | internal/service/service.go:428-468 | after a nil result the successful calls hold exactly the pairs of the received requests, everything sent before the stop is among them, and the channel holds the rest |
| DeletePipeline.ShutdownCompletes | internal/service/service.go:428-468 | after a nil result every short of every request sent before the stop channel was closed is in a successful call for its user |
| DeletePipeline.LateCallersAreRefused | internal/service/service.go:246-249 | a caller that enters after the shutdown flag is set is refused in every continuation, never accepted |
| DeleteShutdown.EmptyRequestUnserved | internal/service/service.go:366-425 | a run in which the shutdown returns nil although the only accepted request never had a successful call |
| DeleteShutdown.ServedExactlyWhenNonEmpty | internal/service/service.go:366-425 | a nil result guarantees a successful call for a request exactly when it names at least one short |
| DeleteShutdown.LateRequestStranded | internal/service/service.go:267-273 | a run in which the only accepted request, sent after the last worker left, is still in the channel when the shutdown returns nil, for any user and any shorts |
| DeleteShutdown.QuietShutdownServesAll | internal/service/service.go:428-468 | if no caller has passed the flag check and not returned when the stop channel is about to be closed, every run to a nil result has an empty channel and has served every accepted pair, as often as it was accepted |
| DeleteShutdown.StrandsExactly | internal/service/service.go:246-468 | from any reachable state at that point, a nil result that leaves accepted work in the channel is possible exactly when some caller has passed the flag check and not returned |
| DeleteShutdown.StrandedForGood | internal/service/service.go:301-322 | once all workers have left, no continuation receives a request from the channel, a further shutdown call included |
| DeleteShutdown.FinishShutdown | internal/service/service.go:395-468 | once all workers have left, a shutdown with a working repository can always return nil |
| DeleteProgress.CallersAreAnswered | internal/service/service.go:246-276 | over every run, each call is answered as its own arguments say: accepted with exactly its user and shorts, refused for shutting down only once the flag is set, refused for a missing user only without one |
| DeleteProgress.AcceptedAreCounted | internal/service/service.go:267-273 | over every run there are as many accepted requests as calls told so |
| DeleteProgress.DoneContextComesFirst | internal/service/service.go:251-260 | a context done at entry is the reason given, with or without a user |
| DeleteProgress.NoCallIsStuck | internal/service/service.go:267-273 | a call past the check can be accepted while the channel holds fewer than ten requests, can be ended by its context, and by the closed stop channel |
| DeleteProgress.TenRequestsFiveWorkers | internal/service/service.go:29-70 | never more than ten requests in the channel, always five workers |
| DeleteProgress.ChannelFills | internal/service/service.go:70 | ten requests fit into the channel while nobody receives |
| DeleteProgress.IdleWorkerCanServeQueue | internal/service/service.go:315-316 | while the service runs, the tick of any idle worker can serve the whole queue, each pair as often as it was queued |
| DeleteProgress.ServiceCanServeAll | internal/service/service.go:301-322 | from every state of a running service all accepted work can be served without a shutdown, with nothing left in flight |
| DeleteProgress.ShutdownMoves | internal/service/service.go:395-449 | the context can end each of the three waits, a round that left work is followed by another, and a call that returned can be made again |
| DeleteProgress.ShutdownCanFinish | internal/service/service.go:428-468 | once shutdown was called, a nil result can always still be reached, after a timeout by calling again |
| DeleteRefinement.SaveKeepsAheadExactly | internal/repository/in_memory_repository.go:73-82 | a save amid pending deletions keeps real and synchronous store in step exactly when it does not change whether the owner is asked for that short's deletion, or the short is deleted anyway |
| DeleteRefinement.NewShortIsHarmless | internal/service/service.go:478-487 | a short neither stored nor named in pending work meets that condition |
| DeleteRefinement.SendKeepsAhead | internal/service/service.go:267-273 | accepting a request keeps the two stores in step |
| DeleteRefinement.CallKeepsAhead | internal/service/service.go:324-337 | a flush call keeps them in step, successful or failed after any prefix of its list |
| DeleteRefinement.AsynchronousDeleteRefinesSynchronous | internal/service/service.go:324-393 | once nothing is in flight every lookup answers as if each request had been applied when accepted, whatever the batching, order, retries and half-applied failures |
| DeleteRefinement.StoreOnlyLags | internal/service/service.go:324-393 | until then the store deletes nothing the synchronous one keeps |
| DeleteRefinement.CleanShutdownIsSynchronous | internal/service/service.go:428-468 | after a nil shutdown with an empty channel every lookup answers as the synchronous delete would |
| DeleteRefinement.AnyPrefixMayBeApplied | internal/service/service.go:324-337 | a failed call may have applied any beginning of its list, a successful one has applied all of it |
| DeleteRefinement.RunningServiceCatchesUp | internal/service/service.go:301-393 | from every state of a running service there is a continuation without shutdown, saves or new requests after which every lookup answers as the synchronous delete does now |
| Shortener.AbsoluteURLsDiffer | internal/service/service.go:98-106 | absolute URLs under one base are equal exactly when the shorts are |
| Shortener.ShortIsBehindLastSlash | internal/service/service.go:98-106 | the text behind the last slash of an absolute URL is the short, the text before it the base |
| Shortener.IdsHoldNoSlash | internal/service/service.go:478-487 | a generated id holds no slash |
| Shortener.ShortenerService.Shorten | internal/service/service.go:85-96 | a single original always gets a new id, known or not; the one record is saved, owned by the user of the context or by the empty name, and its absolute URL returned |
| Shortener.ShortenReads | internal/service/service.go:85-96 | the new id becomes the original's short and resolves to it; every other short, an earlier one of the same original included, answers as before, and the index stays consistent and linked |
| Base64Url.EncodeShape | internal/service/service.go:478-487 | six bytes are eight characters of the URL alphabet (section 5 of RFC 4648) |
| Base64Url.EncodeDiffers | internal/service/service.go:478-487 | different bytes have different texts |
| Base64Url.Alphabet | internal/service/service.go:478-487 | the 64 characters, value by value (table 2 of RFC 4648) |
| Base64Url.SextetsAreTheNumber | internal/service/service.go:478-487 | four sextets are the base-64 digits of the number three bytes make |
| Base64Url.Foobar | internal/service/service.go:478-487 | the last test vector of section 10 of RFC 4648 |
| Shortener.IdsDiffer | internal/service/service.go:478-487 | two ids are equal exactly when the random bytes were |
| Shortener.IdSource.GenerateID | internal/service/service.go:478-487 | each call spells the next draw of six bytes as eight characters of the URL alphabet |
| Shortener.ShortenerService.CreateModel | internal/service/service.go:108-123 | one new id; the record has no UUID, no deletion mark, and the user of the context as owner, or the empty name |
| Shortener.UniquesAreTheOriginals | internal/service/service.go:170-183 | the deduplicated list has the same elements and no repetition |
| Shortener.ShortenerService.Deduplicate | internal/service/service.go:170-183 | the loop returns that list, and an index array pointing every original to its place in it |
| Shortener.ShortenerService.ShortFor | internal/service/service.go:188-198 | known and live: the known short and no record; otherwise a new id and a record for it |
| Shortener.ShortenerService.LookUp | internal/service/service.go:184-198 | the loop polls once per original, makes one id per record, and follows the plan proved about below |
| Shortener.PlanAt | internal/service/service.go:186-198 | each original is reported under its known short or under the record created for it |
| Shortener.PlanCreates | internal/service/service.go:193-198 | each record has the next id, and its original was unknown or looked up after cancellation |
| Shortener.PlanOriginalsDiffer | internal/service/service.go:186-198 | no original gets two records |
| Shortener.StoredAreUnknown | internal/service/service.go:186-202 | a record that reaches the store is for an original without a short, because a context done at the lookup is done at the save |
| Shortener.ShortenerService.Restore | internal/service/service.go:204-211 | the loop puts the shorts back in input order through the index array |
| Shortener.ShortenerService.ShortenBatch | internal/service/service.go:165-212 | it errs with "empty batch" exactly for an empty batch; otherwise the result or error, and the stored prefix of new records, are those of the batch function; every short it creates belongs to the user of the context, or to the empty name |
| Shortener.KnownOriginalsKeepTheirShort | internal/service/service.go:186-202 | whatever the outcome and the moment of cancellation, an original that had a short keeps it |
| Shortener.BatchReports | internal/service/service.go:165-212 | on success the result has the input's length and order, reports each original's current short, unchanged if known, and that short resolves to the original or to "deleted" if it already was |
| Shortener.BatchIsInjective | internal/service/service.go:170-212 | on success two results are equal exactly when their originals are |
| Shortener.BatchKeepsLinked | internal/service/service.go:165-202 | on success and on error the index stays consistent and its two directions inverse |
| Shortener.BatchGrowth | internal/service/service.go:184-202 | the store grows by exactly the distinct unknown originals on success, by at most those on error |
| Shortener.CreatedCanBeDeleted | internal/service/service.go:108-123 | a short a batch creates resolves, its creator's delete makes it answer "deleted", and anybody else's changes nothing |
| Shortener.BatchSucceedsExactly | internal/service/service.go:165-202 | a batch succeeds exactly when it is not empty and its context lasts for one look at each distinct original and one at each unknown one |
| FileLog.DecodedLog | internal/repository/file_storage_repository.go:83-91 | reading back a log gives exactly the written records, one line each |
| FileLog.TornLogRecovery | internal/repository/file_storage_repository.go:137-155 | any prefix of a log reads back as exactly the records it holds completely, newline aside, so the maps are those of a prefix of the saves and at most one line, the last, is skipped |
| FileLog.AppendAfterTear | internal/repository/file_storage_repository.go:83-91 | what a log holds after records are appended behind a cut: off a boundary the torn record and the first new one are both unreadable |
| FileLog.AppendAfterTearExactly | internal/repository/file_storage_repository.go:137-155 | all appended records are read back, on top of what was there, exactly when the cut fell on a line boundary |
| FileLog.BrokenLineIsSkipped | internal/repository/file_storage_repository.go:143-151 | a line that does not decode, an empty one too, is skipped and what follows is read |
| FileLog.CarriageReturnIsDropped | internal/repository/file_storage_repository.go:143-151 | a record is read whether its line ends in a newline or in a carriage return and a newline |
| CodecWitness.WitnessIsLawful | internal/repository/file_storage_repository.go:83-91 | the assumptions on the record encoding can be met: a codec with all of them |
| FileStorage.FileStorage.constructor | internal/repository/file_storage_repository.go:30-50 | opening rebuilds the index from the file and changes no byte |
| FileStorage.FileStorage.LoadFromFile | internal/repository/file_storage_repository.go:137-155 | the loop over lines saves exactly the records that decode, in order |
| FileStorage.FileStorage.Write | internal/repository/file_storage_repository.go:83-91 | the buffered writer loses and reorders nothing; up to 4096 characters stay in the buffer and do not reach the file |
| FileStorage.FileStorage.WriteURL | internal/repository/file_storage_repository.go:83-91 | file and buffer together gain one encoded record; the i-th record written gets the i-th UUID, so none is used twice |
| FileStorage.FileStorage.Save | internal/repository/file_storage_repository.go:65-81 | one record to the index, the same one to the log, nothing left in the buffer |
| FileStorage.FileStorage.WriteBatch | internal/repository/file_storage_repository.go:106-117 | exactly the prefix its polls allow is encoded |
| FileStorage.FileStorage.SaveBatch | internal/repository/file_storage_repository.go:96-130 | exactly which prefix reaches the index and which the log for every moment of cancellation; the log stays a subsequence of what was applied, and equal to it if nothing was cancelled |
| FileStorage.FileStorage.Close | internal/repository/file_storage_repository.go:181-192 | the file becomes the opening bytes followed by every record encoded since |
| FileStorage.CloseAndReopen | internal/repository/file_storage_repository.go:30-50 | the whole round trip, for any storage: reopening gives what the log holds; that is the index it had if no batch was cut short and the log had no torn line, and for new shorts exactly when every record was written and none was glued to a torn line |
| FileStorage.ReopenExactly | internal/repository/file_storage_repository.go:137-192 | for a storage opened on whole lines or on a log cut anywhere, new shorts and any batches cut short since: the reopened index is the one it had exactly when as many records were written as applied and the log was not torn, or nothing was applied |
| FileStorage.CutBatchReopensExactly | internal/repository/file_storage_repository.go:96-130 | one batch of n new shorts survives as far as the index has it exactly when n is 0, or the context is never done, or done at once, or lasts for 2n polls |
| FileStorage.CutBatchLoses | internal/repository/file_storage_repository.go:96-130 | each record between the two cuts is answered before the restart and unknown after it |
| FileStorage.ReopenKeepsRecords | internal/repository/file_storage_repository.go:96-155 | with cancelled batches, a log opened torn, or both, and new shorts, every reloaded short was in the live index with the same original and owner |
| Database.DataBaseRepository.QueryUrls | internal/repository/database_repository.go:124-142 | loading succeeds exactly when neither the query nor its iteration fails and every row can be scanned, and then the cache is the fold of the rows in the order they came |
| Database.DataBaseRepository.Save | internal/repository/database_repository.go:53-66 | the cache always gets the record, the table only if the insert succeeds: a row with its short, original and owner, not deleted |
| Database.DataBaseRepository.SaveBatch | internal/repository/database_repository.go:71-111 | on success both get the whole batch, each row with its record's short and original and no owner; on failure the table is unchanged and the cache has exactly the records saved before the failure |
| Database.DataBaseRepository.DeleteUserURLs | internal/repository/database_repository.go:181-216 | a context done at entry is an error; on error nothing changes; on success the rows are updated, and the cache too unless the context ended in between |
| Database.DataBaseRepository.GetStats | internal/repository/database_repository.go:219-230 | the number of rows, and of distinct non-empty owners, unless the query fails |
| Database.ScanAllExactly | internal/repository/database_repository.go:131-139 | the rows can be loaded exactly when no owner is NULL, and then one record per row |
| Database.RestartExactly | internal/repository/database_repository.go:71-142 | after a committed batch on top of any rows a restart succeeds exactly when those rows have owners and the batch was empty |
| Database.BackedStats | internal/repository/database_repository.go:219-230 | when cache and table agree, the table's statistics are the cache's |
| Database.UsersOfMeans | internal/repository/database_repository.go:219-230 | the users counted are the owners of some row, NULL and the empty name aside |
| Database.SaveKeepsBacksExactly | internal/repository/database_repository.go:53-66 | a successful save keeps cache and table in agreement exactly when its short is new and it carries no deletion mark |
| Database.FailedSaveAgreesExactly | internal/repository/database_repository.go:53-66 | a save whose insert failed leaves them in agreement exactly when the cache knew the short with that original and owner, and its deletion if the record claims one |
| Database.BatchAgreesExactly | internal/repository/database_repository.go:71-111 | a committed batch leaves them in agreement exactly when it was empty |
| Database.CommittedRows | internal/repository/database_repository.go:87-95 | a committed row is there exactly for the short and original of a record, without owner or deletion mark |
| Database.FailedBatchAgreesExactly | internal/repository/database_repository.go:68-111 | a failed batch, of any records, leaves them in agreement exactly when the cache knew of each saved short what the last saved record says, and every deletion they claim |
| Database.FailedNewBatchAgreesExactly | internal/repository/database_repository.go:68-111 | for new shorts exactly when it failed before its first save; otherwise the cache knows shorts the table does not have |
| Database.DeleteKeepsBacksExactly | internal/repository/database_repository.go:181-216 | a delete keeps agreement; one whose cache update was cancelled does exactly when it deleted nothing |
| Database.RunsBacked | internal/repository/database_repository.go:53-216 | agreement holds after every run of successful saves with new shorts and deletes |
| Database.RestartAgrees | internal/repository/database_repository.go:124-142 | after such a run, rebuilding from the rows in any order gives the live cache's answers, owners and statistics |
| Database.OrderBlindExactly | internal/repository/database_repository.go:124-142 | for any table that can be loaded, the short a restart gives each original is independent of row order exactly when rows of the same original have the same short |
| Audit.DeliveryInOrder | internal/audit/service.go:40-92 | in every reachable state, for every observer: accepted events are those it got, then the one in hand if still to come, then the queue, in order, with at most 1024 queued |
| Audit.CloseDelivers | internal/audit/service.go:50-92 | after Close every observer got each event accepted before the done channel was closed, once and in order, observer errors or not |
| Audit.LateEventLost | internal/audit/service.go:40-63 | a run in which the only accepted event, queued after the consumer left, is still in the queue after Close, unseen, for any event |
| Audit.QuietCloseDelivers | internal/audit/service.go:40-63 | if every call of Notify has returned before Close, then after it every observer got exactly the accepted events |
| Audit.CallersAreAnswered | internal/audit/service.go:40-47 | over every run the event of a call is queued, or discarded only once the service is being closed |
| Audit.OpenServiceDiscardsNothing | internal/audit/service.go:43-46 | no open service has discarded an event |
| Audit.EveryCallIsDelivered | internal/audit/service.go:40-63 | if every call of Notify has returned before Close, then after it every observer got the event of every call |
| Audit.NoCallIsStuck | internal/audit/service.go:40-47 | a call can be accepted while the queue holds fewer than 1024 events, and is let go once the service is being closed |
| Audit.AtMost1024 | internal/audit/service.go:21-32 | never more than 1024 events in the queue |
| Audit.QueueFills | internal/audit/service.go:21-32 | 1024 events fit into the queue while nobody takes one out |
| Audit.OpenServiceCanDeliverAll | internal/audit/service.go:65-77 | from every state of an open service each observer can be notified of every accepted event without a Close, whether observers answer with errors or not |
| Audit.LosesExactly | internal/audit/service.go:40-92 | from any reachable state before Close, losing an accepted event is possible exactly when some call of Notify has not returned |
| Audit.LostForGood | internal/audit/service.go:65-92 | once the consumer has left, no observer is notified again and nothing leaves the queue |
| Audit.DrainEnds | internal/audit/service.go:65-92 | after the done channel is closed the consumer always has a step until it is gone, and each of its steps leaves less work |
| Audit.StepInv | internal/audit/service.go:40-92 | one step of anyone keeps the delivery invariant |
| Auth.TrimDrops | internal/auth/auth.go:59-70 | trimming removes any spaces around a text that starts and ends with something else |
| Auth.SplitAtFirst | internal/auth/auth.go:45-48 | a text without separator before one is split right there |
| Auth.AcceptedExactly | internal/auth/auth.go:39-57 | a value is accepted as an id exactly when it normalizes to that id's signed token and the id is not blank and holds no separator |
| Auth.SignatureIsForItsId | internal/auth/auth.go:19-57 | a value signed for one id is not accepted as another whose signature differs |
| Auth.SignatureIsForItsSecret | internal/auth/auth.go:19-57 | nor is one signed with another secret, when the signatures differ |
| Auth.RefusedExactly | internal/auth/auth.go:39-57 | "missing" exactly for a value that normalizes to nothing, "invalid" exactly for any other that is not an acceptable signed id |
| Auth.SchemeIsBearer | internal/auth/auth.go:65-67 | the scheme is the word "bearer" in any case and one space |
| Auth.BearerCredential | internal/auth/auth.go:59-70 | behind "Bearer " whatever is not blank is taken without its outer spaces (section 2.1 of RFC 6750) |
| Auth.BlankIsNothing | internal/auth/auth.go:59-63 | a blank value normalizes to nothing, blank meaning the six ASCII spaces among others |
| Auth.TrimTakesSpaces | internal/auth/auth.go:60-67 | trimming takes away spaces on both sides, all of them, and nothing else |
| Auth.RawRoundTripExactly | internal/auth/auth.go:19-70 | a raw token parses back to its id exactly when the id is non-empty, holds no separator, starts with no space and does not start with "bearer " in any case |
| Auth.BearerRoundTripExactly | internal/auth/auth.go:59-70 | behind "Bearer " in any case, with any outer spaces, it does exactly when the id is non-empty, holds no separator and starts with no space |
| ResetTypes.MembersExactly | cmd/reset/main.go:329-342 | the members are exactly the fields under each of their names, a field without names under its type's if that gives one |
| ResetTypes.EmbeddedNames | cmd/reset/main.go:344-358 | an embedded type gives its field its own name, without pointer, package or type arguments |
| ResetTypes.ResolveType | cmd/reset/main.go:304-327 | resolution ends on every environment, cyclic ones included, returns the resolved type and leaves the set of visited names as it found it |
| ResetTypes.ResolveStaysIn | cmd/reset/main.go:304-327 | the result is the expression itself or something the environment names |
| ResetTypes.ChainStandsForItsEnd | cmd/reset/main.go:304-327 | a chain of names stands for what its last name is defined as |
| ResetTypes.ResolvesTo | cmd/reset/main.go:304-327 | what resolving gives is the end of the chain of names from the expression, or the name by which that chain enters a cycle; never something in between |
| ResetTypes.AroundTheCycle | cmd/reset/main.go:319-324 | resolution that enters a cycle of names comes back to the name it entered by |
| ResetTypes.ResolveIdempotent | cmd/reset/main.go:304-327 | resolving a result again gives the same result, on cycles too |
| ResetEmitter.TextParses | cmd/reset/main.go:247-302 | the emitted lines read back as exactly the statements they came from, so blocks never run together |
| ResetEmitter.PredeclaredAreZeroed | cmd/reset/main.go:250-255 | among names the package does not define, exactly the predeclared types of Go are zeroed without asking for a method |
| ResetText.FieldSpelling | cmd/reset/main.go:234-286 | a field of the receiver, a field behind a pointer, and their addresses, spelled out |
| ResetText.LineSpelling | cmd/reset/main.go:256-302 | the lines of a reset spelled out for any expression |
| ResetText.FixedSpelling | cmd/reset/main.go:219-302 | the lines without an expression, with their tabs |
| ResetText.HeadSpelling | cmd/reset/main.go:215-223 | the head of every generated file spelled out: comment, package clause, zeroing helper |
| ResetText.MethodHeadSpelling | cmd/reset/main.go:230-233 | the head of every generated method spelled out, with its nil check |
| ResetText.NotNilBlockSpelling | cmd/reset/main.go:264-267 | a nil check around a statement, line by line with its tabs |
| ResetText.ResetterBlockSpelling | cmd/reset/main.go:277-290 | a call of a visible method with a statement for the other case, line by line with its tabs |
| ResetText.ExprApart | cmd/reset/main.go:361-363 | expressions of the generated code are spelled alike only when they are the same |
| ResetText.LineApart | cmd/reset/main.go:212-302 | so are lines of the generated file, tabs included |
| ResetText.SpellingKeepsStatements | cmd/reset/main.go:247-302 | two emissions whose spelled and indented lines are alike are the same statements |
| ResetEmitter.EmitResetCallOrZero | cmd/reset/main.go:292-298 | the buffer gains the lines of a Reset call guarded by a visible method, with zeroing as the alternative |
| ResetEmitter.EmitResetForType | cmd/reset/main.go:247-275 | the recursive descent appends exactly the lines of the statements for the type and keeps what was there |
| ResetEmitter.EmitResetStructOrCall | cmd/reset/main.go:277-290 | the struct block: the call if visible, otherwise the statements of all members in order |
| ResetEmitter.EmitFields | cmd/reset/main.go:281-288 | the loop over fields and their names appends the statements of every member, once and in order |
| ResetEmitter.GenerateFile | cmd/reset/main.go:212-245 | comment, package clause and zeroing helper, then one method per marked struct, in order, a blank line between them, each with its nil check and the statements of its members |
| ResetTermination.FuelIrrelevant | cmd/reset/main.go:247-290 | once the emission ends, its result does not depend on the depth allowed |
| ResetTermination.FuelExactly | cmd/reset/main.go:247-290 | a depth does not suffice exactly when a chain of pointers and struct fields is longer |
| ResetTermination.TerminatesExactly | cmd/reset/main.go:247-290 | emission ends exactly when no cycle of pointers and struct fields is reachable, and then within as many levels as there are type expressions |
| ResetTermination.RankBoundsDepth | cmd/reset/main.go:247-290 | a rank that drops on every descent from the type bounds the depth, whatever cycles the rest of the package has |
| ResetTermination.RankExactly | cmd/reset/main.go:247-290 | such a rank exists exactly when no cycle is reachable |
| ResetSemantics.ResetReaches | cmd/reset/main.go:264-267 | the direct reset seen at any reachable place: what is there is reset, what is behind a nil pointer stays absent, every pointer on the way is kept |
| ResetSemantics.EmitNowhere | cmd/reset/main.go:264-267 | statements for an expression that does not exist in the value change nothing |
| ResetSemantics.EmitResets | cmd/reset/main.go:247-302 | generator correctness: whenever emission ends, running the emitted statements equals the direct reset of the value at that expression and changes nothing else, for every type, value and set of visible methods |
| ResetSemantics.ContainersAreEmptied | cmd/reset/main.go:256-262 | running the emitted statements, a slice of any resolved name keeps its backing array with length 0, a map loses its entries, nil stays nil |
| ResetSemantics.OthersAreZeroed | cmd/reset/main.go:250-273 | predeclared types, fixed arrays, interfaces, functions and channels get their zero value |
| ResetSemantics.PointersAreKept | cmd/reset/main.go:264-267 | a nil pointer stays nil, any other keeps pointing and its target is reset in place |
| ResetSemantics.VisibleMethodsAreCalled | cmd/reset/main.go:255-302 | a struct, an imported or instantiated type, or a name the package does not define, with a visible Reset method is handed to it; without one a struct is expanded and the others are zeroed |
| ResetSemantics.MembersReset | cmd/reset/main.go:281-288 | the statements for the first k members reset exactly those members |
| ResetMethods.MethodResets | cmd/reset/main.go:229-241 | a generated method leaves a nil receiver alone and resets every member otherwise |
| ResetPromotion.PromotedThrough | cmd/reset/main.go:277-278 | a promoted method comes through exactly one embedded field, as that field's own method or one promoted to it in turn |
| ResetPromotion.FieldHidesMethods | cmd/reset/main.go:278 | a field named Reset hides every promoted method |
| ResetPromotion.SingleOfferIsPromoted | cmd/reset/main.go:278 | one embedded field with a method of its own, and no other offer, has it promoted |
| ResetPromotion.TwoOffersPromoteNothing | cmd/reset/main.go:278 | two such fields promote none |
| ResetPromotion.GeneratedMethodResets | cmd/reset/main.go:229-302 | in every compiled package, methods calling one another: a generated method leaves nil alone and otherwise resets every member, calling each visible method, promoted ones included, where there is one |
| ResetPromotion.ExpansionAgreesWithCall | cmd/reset/main.go:264-290 | for a marked struct at any path of any value, under its own name or another one that resolves to it, the inlined else branch changes the whole value as calling its generated method would |
| ResetPromotion.GeneratedMethodsLink | cmd/reset/main.go:229-241 | such a compiled package exists: handwritten, generated and promoted methods have a consistent common meaning |
| ResetPromotion.PromotedResetsField | cmd/reset/main.go:277-290 | for the embedded field a promoted method does what resetting that field does |
| ResetPromotion.NothingLeftOut | cmd/reset/main.go:247-302 | where no promoted method leaves a member out, calling every visible method is expanding every struct without a handwritten one |
| ResetPromotion.LeftOutShows | cmd/reset/main.go:277-290 | where one does, some value shows the difference |
| ResetPromotion.GeneratedResetsAllExactly | cmd/reset/main.go:229-302 | a generated method does, for every value, what full expansion would exactly when no promoted method on its descent leaves a member out |
| ResetPromotion.OrdinaryMembersChange | cmd/reset/main.go:247-275 | members that are zeroed, cut or emptied are members a reset can change |
| ResetPromotion.PromotionHidesMembers | cmd/reset/main.go:277-290 | a marked struct in an unmarked one in a marked one: the member beside the embedded one keeps its value, whatever it is |

## Assumptions

- The record codec (`FileLog.Lawful`): decoding undoes encoding; an encoded record is one line; no proper prefix of a record decodes; and no non-empty beginning of a record followed by a whole one decodes. JSON objects with string fields, encoded on one line, have these properties, and `CodecWitness.WitnessIsLawful` shows a codec that has them.
- The signature (`Auth.HexLike`) is a non-empty string of lower-case hex digits; HMAC (section 2 of RFC 2104) is otherwise an arbitrary function, so nothing is said about forging. Upper and lower case and spaces are those the prefix and trimming need.
- New ids are spelled from successive draws of six bytes, and UUIDs come from a function of a counter. Random bytes are not new with certainty; the lemmas that need new ids ask it of the ids a batch can use, no more.
- A well-formed package has distinct field names in every struct.

## Left out

- DeletePipeline.ShutdownCompletes: covers requests sent before the stop channel is closed; what becomes of later ones is `DeleteShutdown.StrandsExactly`. Shutdown may be called again after it returned, but not while it runs: a second caller could hold a popped batch while the first counts zero.
- DeletePipeline.AcceptedWorkIsConserved: a safety statement; that tickers fire and workers get to run is not assumed. `DeleteProgress.ServiceCanServeAll` and `DeleteProgress.ShutdownCanFinish` say what can always still happen, not that it does; bounded progress is shown for the final retry loop and for the audit consumer.
- DeleteQueue.Queue.FlushDeleteQueueUntilEmpty: the timer is a choice, not a duration; `limit` only bounds how long the loop is watched.
- DeleteRefinement.AsynchronousDeleteRefinesSynchronous: over the in-memory index; saves and lookups are atomic steps, and every save in the run must be harmless in the sense of `DeleteRefinement.SaveKeepsAheadExactly`.
- Shortener.ShortenerService.ShortenBatch: one caller at a time, over the in-memory index; two concurrent callers with the same unknown original can both create a short.
- FileStorage.FileStorage.Save: sequential callers (the source writes the file here without the repository mutex); write, flush and sync errors are not modelled, nor is the sticky error of the buffered writer.
- FileStorage.FileStorage.LoadFromFile: lines below the scanner's token limit; reading errors are not modelled.
- FileStorage.CutBatchReopensExactly: one batch on a storage that had lost nothing and was opened on whole lines; whole runs and torn logs are `FileStorage.ReopenExactly`, whose condition counts the records.
- Database.RestartAgrees: runs of successful, uncancelled single saves with new shorts and deletes; when a failed save or a batch keeps cache and table together is `Database.FailedSaveAgreesExactly`, `Database.BatchAgreesExactly` and `Database.FailedBatchAgreesExactly`.
- Database.DataBaseRepository.SaveBatch: the driver, statements and transactions are a choice of failing or not at each call; migrations are left out.
- ResetText.SpellingKeepsStatements: of identifiers only that they are not empty and hold no dot and no closing parenthesis is used.
- ResetPromotion.GeneratedMethodResets: a promoted method reached through a nil embedded pointer leaves the value alone; Go panics there unless the method itself accepts a nil receiver, as generated ones do. Every type declaration defines a new type; alias declarations, which share methods, are not told apart.
- ResetSemantics.EmitResets: values are trees, so two pointers to one target are not modelled; a handwritten Reset method is an arbitrary function of the value it is called on. The depth bound is one for which emission ends; `ResetTermination.TerminatesExactly` says when one exists, and `ResetTermination.FuelIrrelevant` that it does not matter which.
- HTTP and gRPC handlers, middleware, gzip, TLS, logging, configuration, the object pool and the linter: plumbing over libraries.
- `GetAll`, `GetUserURLs`, `PingContext`, and in the service `GetShort`, `Resolve` and the audit helpers that build events: single-step wrappers.
- Adding audit observers while the consumer runs, and closing the observers themselves.
- Package scanning, gofmt, file writing and struct fields named `_` in the generator.
- Strings are sequences of characters, not UTF-8 bytes.
