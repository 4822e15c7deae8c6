# Qafiyah verification

Dafny models of the parts of the Qafiyah poetry archive whose correctness is not visible from any one
function, with proofs about them. `dafny verify dfyconfig.toml` checks everything.

The modules follow the program:

- **Request admission.** `RateLimit` holds one call of the fixed-window limiter on values, `LimiterRuns`
  its runs and the plain counting limiter it stands for; `LimiterObject` is the object with its map,
  updated in place, proved against them. `KeyCache` is the API-key cache under interleaved lookups, `Usage` the usage recorder and
  its batched flush, `Admission` puts limiter, recorder and table together, and `AccountKeys` issues and
  revokes keys in concurrent transactions.
- **Search indexer.** `Reindex` is the alias protocol with a crash possible between any two requests;
  `Keyset` is the pagination loop that fills an index while the table changes.
- **Facet queries.** `Facets` compiles six filters into a row query and a count query, as a small syntax
  tree with a relational meaning in three-valued logic.
- **Dates.** `Calendar` converts day numbers to dates (both copies); `Timestamps` prints and orders them.
- **Search addresses.** `QueryString` parses pairs into entries, `SearchQuery` holds the two encoders and
  the decoder of a search, `Paging` the page arithmetic, `Decimal` the numerals they share.
- **Corpus statistics.** `Rhyme` and `Regularity`, over exact fractions.
- **Runners and snippets.** `TaskRunner`, `WorkerPool`, `Snippet`.
- **Shared.** `Wrappers`, `Integers` (bounds and saturating operations), `Collections`, `Utf16`.

Conventions. A clock, a random stream, an exit code, a database answer and the order in which concurrent
calls proceed are inputs, and the theorems hold for all of them unless they name a condition. A request
reads the clock, waits for its key to be looked up and is checked afterwards, so readings may reach the
limiter out of order. Where counting needs an order, it is asked of the one bucket concerned: no check of
this bucket comes late, which means that none falls in a window before one that a check of the bucket, a
sweep or the pruning of a full map has already reached. Fixed-width arithmetic is written out wherever it
can be reached: saturating i64 and u32 operations in the limiter and the recorder, the i32 cast of a
flushed count, the u32 version suffix, the u64 and u32 casts of the second calendar copy. The cap on the
limiter's map is a parameter of the proofs rather than the constant 500,000.

Where the code does not quite keep a promise, the exact condition is proved beside a concrete input:

- a limiter reset lies ahead of the clock unless the clock shows the last i64 second
  (`RateLimit.ExpiryIsAhead`, `RateLimit.LastInstantMergesWindows`);
- clearing the full map forgets admissions inside a window (`LimiterRuns.ClearingForgets`), and so does a
  check whose request read the clock before the hour turned and was looked up for longer than others
  (`LimiterRuns.LateCheckForgets`), at most one ceiling for each clear and each late check of the bucket
  (`LimiterRuns.ForgettingBound`); without either the count is exact (`LimiterRuns.RefinesCounting`), and
  in any case no request is refused that the log has room for (`LimiterRuns.NeverRefusedInVain`);
- usage is conserved for a key and hour if and only if no record met a full counter and no count above
  2^31 - 1 was cast to an i32 (`Usage.ConservedIffNoDefect`, `Usage.CastWraps`);
- the next index name is free if and only if the name with suffix 4294967295 is not listed
  (`Reindex.NextNameIsFresh`, `Reindex.LastVersionIsReused`);
- of the ranges of years that hold 0000 to 9999, timestamps sort as strings in exactly those within -1 to
  9999 (`Timestamps.SortsIffInRange`, with the failing years -2 and 10000 beside it).

## Model

| member | source | states |
|---|---|---|
| RateLimit.LimitsForIsWellFormed | apps/api/src/rate_limit.rs:66-95 | whatever the caller and address, the limits are one to three, name no bucket twice, carry the window length of their bucket, and lead with an hourly one |
| RateLimit.LimitsMean | apps/api/src/rate_limit.rs:66-95 | an anonymous request is counted at its address with the anonymous ceiling, or in the shared bucket if the address is unknown; a keyed one as its user, with the plan's hourly and burst ceilings, and at its address with the plan's cap exactly when both are there; no request is counted anywhere else |
| RateLimit.SustainedLimit | apps/api/src/rate_limit.rs:66-95 | the limit that the headers report is the hourly one of the user or of the anonymous caller |
| RateLimit.BucketsKeepCallersApart | apps/api/src/rate_limit.rs:20-28 | two requests have a bucket in common exactly when both are anonymous at the same address, belong to one user, or are capped keyed requests from one known address |
| RateLimit.ExpiryIsAhead | apps/api/src/rate_limit.rs:124-127 | a window's end lies after now, and at most one window ahead, exactly until the last i64 second |
| RateLimit.ExpiryIdentifiesWindow | apps/api/src/rate_limit.rs:124-134 | two instants have the same expiry if and only if they fall in the same window of a bucket, and an expiry is still ahead exactly while its own window lasts |
| RateLimit.LastInstantMergesWindows | apps/api/src/rate_limit.rs:124-127 | at the last i64 second the saturated expiry merges two different burst windows |
| RateLimit.OpenAllAt | apps/api/src/rate_limit.rs:123-134 | after the first pass every named bucket holds the current window with its live count, a lapsed count is dropped, and no other bucket changes |
| RateLimit.OpenAllVerdict | apps/api/src/rate_limit.rs:121-138 | the first pass allows the request if and only if every live count is below its ceiling |
| RateLimit.ChargeAllAt | apps/api/src/rate_limit.rs:140-158 | the second pass charges each named bucket exactly once if the request is allowed, and nothing otherwise |
| RateLimit.ChargeAllDecision | apps/api/src/rate_limit.rs:140-158 | each limit reports on its own window as it stood before the charge, whatever its place in the list |
| LimiterRuns.StepIsOne | apps/api/src/rate_limit.rs:104-172 | what a check or a sweep does to any one bucket of the shared map depends on that bucket's window, on the room made and on the verdict alone: pruned if lapsed, replaced by the current window with its live count, one more use if admitted |
| LimiterRuns.NothingBeyondFront | apps/api/src/rate_limit.rs:104-172 | over any run, neither the map nor the log holds anything of a bucket beyond the latest window that touched it |
| LimiterRuns.NeverOvercounts | apps/api/src/rate_limit.rs:104-172 | over any run, with clock readings in any order, the map never counts more for a bucket and a window than was admitted since the last clear |
| LimiterRuns.FrontAgrees | apps/api/src/rate_limit.rs:118-168 | while no check of a bucket has come late, its count in the latest window it has reached is its uses in the log since the last clear; a refusal consumes nothing |
| LimiterRuns.CheckFinds | apps/api/src/rate_limit.rs:118-138 | the live count that an on-time check finds for a bucket is its uses in the log since the last clear |
| LimiterRuns.NeverRefusedInVain | apps/api/src/rate_limit.rs:118-168 | over any run, with clock readings in any order and whatever was cleared, a request that the log of admitted requests has room for is admitted |
| LimiterRuns.InOrderIsNeverLate | apps/api/src/rate_limit.rs:124-127 | in a run whose window indices never go back for a bucket, no check of it comes late |
| LimiterRuns.OrderedIsPunctual | apps/api/src/rate_limit.rs:205-238 | a run whose clock readings are in order has no late check of any bucket |
| LimiterRuns.AdmittedIffUnderCeilings | apps/api/src/rate_limit.rs:104-172 | over any run, with clock readings in any order, a check that is on time for the buckets it names is admitted exactly when each of its limits has fewer uses than its ceiling in the log since the last clear, whatever order other buckets were checked in |
| LimiterRuns.RefinesCounting | apps/api/src/rate_limit.rs:66-172 | over any run in which the map was never cleared and no check came late for a bucket it names, the admitted requests are exactly those that the bare count of admitted requests admits: lazy reset, sweep and pruning are invisible |
| LimiterRuns.CallerVerdict | apps/api/src/rate_limit.rs:205-238 | over any run a caller with room in the log wherever it is counted is admitted; with nothing cleared and the check on time, only such a caller is |
| LimiterRuns.AnonymousIsAdmitted | apps/api/src/rate_limit.rs:66-73 | an anonymous request from an address is admitted while fewer than the anonymous ceiling were admitted at that address in the hour, whatever other addresses and users do |
| LimiterRuns.NamedMeans | apps/api/src/rate_limit.rs:66-95 | an admitted request adds to exactly the buckets it is counted in |
| LimiterRuns.VerdictOfTheLog | apps/api/src/rate_limit.rs:118-168 | while the map was never cleared, a check that is on time for its buckets is decided by the log of admitted requests |
| LimiterRuns.ForgettingBound | apps/api/src/rate_limit.rs:104-158 | over any run, with clock readings in any order, a bucket is admitted in one window at most (clears + late checks of that bucket + 1) times its largest ceiling |
| LimiterRuns.ForgettingCostsOneCeiling | apps/api/src/rate_limit.rs:104-158 | admissions of a bucket in a window exceed what the map counts for it by at most its largest ceiling for every clear, every late check, and a window left behind |
| LimiterRuns.LateCheckForgets | apps/api/src/rate_limit.rs:217-238 | three checks with one user's key at 3600, 3599 and 3600 admit the user twice in the hour under a ceiling of one with nothing cleared; one check was late, so the bound is met exactly |
| LimiterRuns.ClearsAreRare | apps/api/src/rate_limit.rs:104-138 | over any run, with clock readings in any order, clears times the cap is at most three times the checks, and the map never exceeds the cap by more than two |
| LimiterRuns.ShortRunsCountExactly | apps/api/src/rate_limit.rs:104-168 | a run of fewer checks than a third of the cap in which no check is late counts exactly, with no assumption about clearing |
| LimiterRuns.ClearingForgets | apps/api/src/rate_limit.rs:109-111 | with room for one bucket, three checks admit an address twice in a window whose ceiling is one |
| RateLimit.OutcomeIsTruthful | apps/api/src/rate_limit.rs:118-168 | a request is allowed if and only if no refused decision is reported; the sustained remaining is the ceiling less the count after the call, and its reset is the end of the current window |
| RateLimit.RefusalIsTruthful | apps/api/src/rate_limit.rs:118-168 | a refused decision is that of the first limit at its ceiling, has nothing remaining, and resets at the end of its current window |
| RateLimit.DecisionAt | apps/api/src/rate_limit.rs:140-158 | each limit's decision follows from its live count before the call, and the request is allowed if and only if all are below their ceilings |
| RateLimit.RetryAfterIsPositive | apps/api/src/rate_limit.rs:201-203 | for any decision Retry-After is at least one second, exactly one once the reset has passed, and otherwise names the reset |
| RateLimit.RetryAfterIsExact | apps/api/src/rate_limit.rs:201-203 | Retry-After (section 10.2.3 of RFC 9110) lies between one second and one window, and an instant is still in the refused window if and only if it comes before the one named |
| LimiterRuns.RefusedUntilReset | apps/api/src/rate_limit.rs:118-168 | a limit that RefusalIsFull names refuses every later check that carries it until the Retry-After has passed, whatever happens in between short of a clear or a late check of its bucket |
| LimiterRuns.RefusalIsFull | apps/api/src/rate_limit.rs:135-168 | over any run, with clock readings in any order and whatever was cleared, a refused decision comes from a limit whose ceiling the log of admitted requests had reached in that window |
| LimiterRuns.UsesOnlyGrow | apps/api/src/rate_limit.rs:147-149 | a bucket's admitted uses of a window never shrink as a run goes on |
| LimiterObject.Limiter.Bound | apps/api/src/rate_limit.rs:104-112 | after pruning there is room below the cap; nothing that stayed has changed; once the map was full nothing that stayed has lapsed; a live window is lost only if all of them are, and a map below the cap is untouched |
| LimiterObject.Limiter.Open | apps/api/src/rate_limit.rs:121-138 | the loop leaves the map and the verdict of the specified first pass, whose meaning OpenAllAt and OpenAllVerdict give |
| LimiterObject.Limiter.Charge | apps/api/src/rate_limit.rs:140-158 | the loop leaves the map and the decisions of the specified second pass, whose meaning ChargeAllAt and ChargeAllDecision give |
| LimiterObject.Limiter.CheckAll | apps/api/src/rate_limit.rs:118-168 | a call extends the limiter's history by itself and has the specified effect and outcome; whatever the order of the clock readings, a request that the log of admitted requests has room for is allowed, and while nothing was cleared and the check is on time for its buckets no other is; the map stays within the cap plus two |
| LimiterObject.Limiter.Sweep | apps/api/src/rate_limit.rs:170-172 | a sweep extends the history and removes the lapsed windows and no others |
| KeyCache.Cache.Get | apps/api/src/accounts/cache.rs:37-44 | the stored answer is read exactly when one is stored and its age is below its lifetime, for every lifetime of an i64 but the least, under which nothing is read |
| KeyCache.Cache.Insert | apps/api/src/accounts/cache.rs:54-67 | the new entry is present with its instant and lifetime; every other entry stays as it was while there is room and goes when there is none; the size bound is kept |
| KeyCache.Cache.Store | apps/api/src/accounts/cache.rs:46-48 | a successful answer is kept with the sixty-second lifetime from the request's own instant, the other entries as in Insert, and the size bound is kept |
| KeyCache.Cache.StoreFailure | apps/api/src/accounts/cache.rs:50-52 | a failed lookup is kept as a miss with the five-second lifetime from the request's own instant, the other entries as in Insert, and the size bound is kept |
| KeyCache.ReadsTheLastPut | apps/api/src/accounts/cache.rs:37-67 | over any run of stores, whatever is read for a key is what was last stored for it and has not expired; with no more stores than there is room for, everything last stored and not expired is read |
| KeyCache.LookingUp | apps/api/src/accounts/cache.rs:83-85 | a request that finds a live entry is told its record without a lookup, and any other goes to the database |
| KeyCache.StoredServesOthers | apps/api/src/accounts/cache.rs:77-104 | while nothing else is stored, a request for the same key that read the clock less than a minute after one that was answered, or less than five seconds after one whose lookup failed, is told the same without a lookup; a later one goes to the database |
| KeyCache.OwnLookupIsTold | apps/api/src/accounts/cache.rs:86-104 | a request that had to look up is told what the database said at the reply, or that there is no such key if the lookup failed |
| KeyCache.AnswerMeans | apps/api/src/accounts/keys.rs:76-98 | a lookup names a caller exactly for the keys that the database holds as active |
| KeyCache.NothingHoldsUp | apps/api/src/accounts/cache.rs:77-104 | at every moment a new request can begin, every unfinished one has a next step, a lookup can be answered or fail, and the database can change |
| KeyCache.ChangesAreSeen | apps/api/src/accounts/keys.rs:76-98 | a change of the database is what lookups see from then on, and touches neither the cache nor the requests |
| KeyCache.RunGoesOn | apps/api/src/accounts/cache.rs:77-104 | the runs that the theorems speak of are all sequences of possible steps |
| KeyCache.ActKeepsInvariant | apps/api/src/accounts/cache.rs:77-104 | every step of any of the concurrent lookups, of the clock or of the database keeps each entry and each answer traceable to a database answer or a failure of the right age |
| KeyCache.RecordsAreFresh | apps/api/src/accounts/cache.rs:19-104 | over every interleaving, an answer from a successful lookup was the database's at an instant less than a minute before the request began or later; a failure is told as a miss only to requests that begin less than five seconds after the failing one; the cache holds at most 10,000 entries |
| KeyCache.ChangesTakeHold | apps/api/src/accounts/cache.rs:19-104 | once the database settles on an answer for a key, a revoked one included, every request that begins at least a minute later is told that answer, unless it is served a failure |
| Usage.UsageRecorder.Record | apps/api/src/accounts/usage.rs:20-24 | the count of one key and hour grows by one up to u32 saturation and no other count changes |
| Usage.UsageRecorder.Drain | apps/api/src/accounts/usage.rs:26-32 | the batch lists every pending count exactly once and nothing stays pending |
| Usage.RowNamesItsHour | apps/api/src/accounts/usage.rs:40-43 | the saturating multiplication by 3600 never makes two recordable hours share a row |
| Usage.ActKeepsBalance | apps/api/src/accounts/usage.rs:20-67 | a record, a drain, an accepted or a failed insert each keep the books of every key and hour balanced, counting what saturation drops and what the cast wraps |
| Usage.EveryRunBalances | apps/api/src/accounts/usage.rs:20-67 | so does every run of them, with any number of batches in flight |
| Usage.ConservedIffNoDefect | apps/api/src/accounts/usage.rs:20-67 | after any run, recorded equals pending plus in flight plus stored plus lost if and only if nothing was dropped at a full counter and no accepted count was cast to a negative one |
| Usage.UsageIsConserved | apps/api/src/accounts/usage.rs:20-67 | it holds for every key and hour with at most 2^31 - 1 recorded requests |
| Usage.SettleStores | apps/api/src/accounts/usage.rs:46-59 | an insert that succeeds and fits adds each count of the batch to its row and loses nothing; any other leaves the table alone and loses the batch |
| Usage.EveryRecordIsStored | apps/api/src/accounts/usage.rs:20-67 | over any run whose inserts all succeed, with at most 2^31 - 1 records in all, nothing is lost and every record is in the table unless its batch has yet to be drained or inserted |
| Usage.FlushedIsStored | apps/api/src/accounts/usage.rs:34-67 | after a drain and a successful insert with nothing else in flight, the table holds every record and the recorder none |
| Usage.RunGoesOn | apps/api/src/accounts/usage.rs:34-67 | the runs are all sequences of possible actions |
| Usage.CastWraps | apps/api/src/accounts/usage.rs:44 | the i32 cast keeps exactly the counts up to 2^31 - 1, and a count of 2^31 becomes the most negative i32 |
| Admission.ArrivalKeepsStep | apps/api/src/rate_limit.rs:205-245 | a request that arrives with whatever clock reading, admitted or refused, keeps the admitted uses of a user's hour equal to the requests waiting to be recorded plus those recorded |
| Admission.PlayKeepsStep | apps/api/src/rate_limit.rs:205-245 | so does every interleaving of arrivals, sweeps, late records and flushes, with clock readings in any order and whatever the map forgets |
| Admission.MovesReachTheLimiter | apps/api/src/rate_limit.rs:217-240 | every arrival is checked and every sweep made, in order; a keyed request that is admitted waits to be recorded for its key in the hour it read, and nothing else does |
| Admission.PlayGoesOn | apps/api/src/rate_limit.rs:205-245 | the interleavings are all sequences of allowed moves |
| Admission.UserIsSumOfKeys | apps/api/src/accounts/keys.rs:150-170 | a user's usage in an hour is the sum over exactly the keys the user owns |
| Admission.LimiterAgreesWithUsage | apps/api/src/rate_limit.rs:205-245 | over any interleaving in which the map is never cleared and no check of this user comes late for the hour, the limiter's live count for the user is what is pending, in flight, stored or lost for the user's keys in that hour plus the admissions not yet recorded, whatever the order of other users' readings |
| Admission.AdmittedIsHeld | apps/api/src/rate_limit.rs:238-244 | over every interleaving, what was admitted for a user in an hour is what is pending, in flight, stored or lost for the user's keys plus what is waiting, for up to 2^31 - 1 records |
| Admission.LimiterNeverExceedsUsage | apps/api/src/rate_limit.rs:205-245 | over every interleaving, with clock readings in any order and whatever is cleared, the limiter never counts more for a user than the usage books and the waiting requests hold |
| AccountKeys.ActKeepsInvariant | apps/api/src/accounts/keys.rs:172-231 | every step of any transaction, its abort and every revocation keep: past the lock it is held, past the count there is room for one more key, and no user has more than two |
| AccountKeys.AtMostTwoActiveKeys | apps/api/src/accounts/keys.rs:172-231 | over every interleaving of any number of issuing and revoking transactions no user ever has more than two active keys |
| AccountKeys.CreateForIssues | apps/api/src/accounts/keys.rs:172-217 | a transaction that finds its user's row free gets through: a user with fewer than two active keys gets exactly one more, one with two gets the ceiling error, an unknown one the other error; nothing else changes and no lock is left behind |
| AccountKeys.RevokeTakesAway | apps/api/src/accounts/keys.rs:219-231 | a revocation by the owner takes exactly that key from the active ones, and by anyone else nothing |
| AccountKeys.RevokedForGood | apps/api/src/accounts/keys.rs:219-231 | a key revoked by its owner is never active again, whatever transactions follow |
| AccountKeys.LocksAreLetGo | apps/api/src/accounts/keys.rs:177-215 | over every interleaving whoever holds a row lock is a transaction under way, which can end at once, and its end lets go of the lock |
| AccountKeys.RunGoesOn | apps/api/src/accounts/keys.rs:172-231 | the interleavings are all sequences of possible steps |
| AccountKeys.WithoutTheLockThreeKeys | apps/api/src/accounts/keys.rs:179-199 | without the row lock there is an interleaving that gives a user three active keys |
| AccountKeys.Generate | apps/api/src/accounts/keys.rs:19-41 | the key is the prefix and the first 32 characters that the random bytes spell, is well formed, and takes no byte more than it needs; it is missing only if the stream ends first |
| AccountKeys.WellFormedIffGenerated | apps/api/src/accounts/keys.rs:51-56 | the keys taken for well formed are exactly those that some random bytes generate |
| AccountKeys.EveryCharacterHasFourBytes | apps/api/src/accounts/keys.rs:10-32 | each letter and digit is spelled by exactly four of the accepted bytes and no other character by any, so none is favoured |
| AccountKeys.AlphabetAt | apps/api/src/accounts/keys.rs:10 | the 62 places of the alphabet hold the 62 letters and digits, each in one place |
| AccountKeys.DisplayedPrefix | apps/api/src/accounts/keys.rs:47-56 | the twelve characters shown of a well-formed key are its first, the fixed prefix and eight of the body; any 24 letters and digits would complete them to a well-formed key that is shown alike |
| Keyset.BeyondMembers | apps/search-indexer/src/pg.rs:32 | the keyset select finds exactly the rows with an id above the cursor |
| Keyset.BatchSplits | apps/search-indexer/src/pg.rs:32-42 | a non-empty batch moves the cursor up within i32 and, with the next query on the same table, leaves out and repeats nothing |
| Keyset.CompleteExtends | apps/search-indexer/src/main.rs:84-120 | a batch covering everything up to the new cursor keeps the indexed rows ascending, free of repetition, drawn from the table, and complete for every id present throughout |
| Keyset.CompleteAfterBatch | apps/search-indexer/src/main.rs:84-120 | one turn of the loop keeps this, though the table differs from query to query |
| Keyset.CompleteAtTheEnd | apps/search-indexer/src/main.rs:87-89 | an empty batch makes the work complete for every positive id |
| Keyset.Populate | apps/search-indexer/src/main.rs:78-124 | for any table that changes between queries the loop ends; unless a request fails it indexes, in id order and exactly once, every positive id that was there throughout, edited in between or not, reports their number, leaves the index holding them, and on a static table indexes exactly the rows beyond zero; with a batch size of zero it would index nothing |
| Keyset.PopulateConfigured | apps/search-indexer/src/main.rs:34-39 | the configured size is checked first: a size of zero fails and leaves the index alone, a job that reports success is complete without further condition, and a job with a size in 1 to i64::MAX whose requests succeed reports success |
| Keyset.UnchangedIsIndexed | apps/search-indexer/src/main.rs:84-120 | a row that no query saw changed is indexed as it is |
| Keyset.SearchIndex.Bulk | apps/search-indexer/src/es.rs:192-201 | one bulk request stores each document under its slug, later ones over earlier ones, and keeps the rest |
| Keyset.StoredUnique | apps/search-indexer/src/es.rs:192-201 | with unique slugs no document overwrites another: as many documents as rows, each its own |
| Keyset.StaticTable | apps/search-indexer/src/main.rs:82-124 | on a table that stands still a row is missed if and only if its id is not positive, and the index holds one document for each of the others |
| Reindex.VersionOfName | apps/search-indexer/src/es.rs:235-246 | the suffix printed into a name is the version parsed out of it, for every u32 |
| Reindex.MaxVersion | apps/search-indexer/src/es.rs:236-243 | the version found is attained in the listing and no listed name with the prefix has a larger one, signs and leading zeros included |
| Reindex.NextNameIsFresh | apps/search-indexer/src/es.rs:235-246 | the chosen name is already listed if and only if the name with the last u32 suffix is |
| Reindex.NextVersion | apps/search-indexer/src/es.rs:235-246 | the chosen version is one more than the largest listed, saturating at u32::MAX, and 1 if none is listed |
| Reindex.LastNameSpelled | apps/search-indexer/src/es.rs:244 | the suffix of that last name is the numeral that Rust prints for u32::MAX |
| Reindex.ActKeepsSafe | apps/search-indexer/src/main.rs:55-76 | every request of the indexer (a create unless the last name is in use), a crash before any of them, a failed fill, a silent failed delete and changes to other indices keep the alias on one existing, fully filled index once it points anywhere |
| Reindex.AliasIsAlwaysServed | apps/search-indexer/src/main.rs:55-76 | so does every run with any crashes and restarts in which no index is created while the last name is in use, the run that creates the last name included; a finished run leaves the alias on its own index, and if every delete since its listing was done, that index alone, whatever earlier crashes left behind |
| Reindex.DeletesDoneLeaveOne | apps/search-indexer/src/main.rs:72-75 | stated on the requests alone: a run with no failed delete since its last listing that finishes leaves one index with the prefix, the one the alias points to |
| Reindex.DeleteRemovesOne | apps/search-indexer/src/main.rs:72-74 | a delete that is done removes the next listed index, unless it is the target, and no other |
| Reindex.DeletesFinish | apps/search-indexer/src/main.rs:72-75 | the deletes can all be made and take away what was listed and nothing else |
| Reindex.WholeRun | apps/search-indexer/src/main.rs:55-76 | a run in which nothing fails puts the new, filled index in the place of all that were listed and leaves indices of other prefixes as they were |
| Reindex.FailedRunLeavesNoTrace | apps/search-indexer/src/main.rs:61-68 | a fill that fails and is cleaned up leaves the cluster as it was |
| Reindex.RunAfterCrash | apps/search-indexer/src/main.rs:55-76 | the indexer may stop anywhere, and the next run that nothing fails in leaves its own index alone with the alias on it |
| Reindex.LastVersionIsReused | apps/search-indexer/src/es.rs:107-114 | with the last suffix in use the next run takes the live index for its new one and the alias is left on an unfilled index |
| Facets.Clauses | apps/api/src/domain/poems.rs:278-368 | the loop produces the specified conditions, value lists and join sets, whose meaning the lemmas below give |
| Facets.EqualsFormAgreesWithInForm | apps/api/src/domain/poems.rs:331-341 | for one value the scalar form keeps exactly the rows of the list form, for a NULL key and an unknown slug alike, and with unique slugs never finds two rows |
| Facets.EqualsFormFails | apps/api/src/domain/poems.rs:331-336 | the scalar form fails if and only if two rows of the table share the slug |
| Facets.InMeansMembership | apps/api/src/domain/poems.rs:337-341 | the list form is true exactly for a key that references a row with one of the slugs |
| Facets.JoinsFindOneRow | apps/api/src/domain/poems.rs:249-257 | for a poem with its foreign keys in place each join finds exactly the one row it should |
| Facets.ExpandedOnce | apps/api/src/domain/poems.rs:259-265 | any join list in scope turns such a poem into exactly one row: none lost, none repeated |
| Facets.PlaceholdersInOrder | apps/api/src/domain/poems.rs:326-349 | the i-th condition uses placeholder i and there are as many conditions as bound lists |
| Facets.DraftMeans | apps/api/src/domain/poems.rs:282-350 | the conditions of the first facets never fail and keep a row exactly when each of these facets is empty or holds of its poem |
| Facets.FacetsAreFilters | apps/api/src/domain/poems.rs:282-325 | the six compiled facets together are the six named filters |
| Facets.QueriesAreWellFormed | apps/api/src/domain/poems.rs:352-387 | in both queries each alias is joined before it is used, placeholders are 1 to n in order, and the row query's limit and offset are n + 1 and n + 2 |
| Facets.RowIsKeptIffMatches | apps/api/src/domain/poems.rs:326-356 | the full condition keeps a row if and only if its poem matches the filters, with no run-time failure |
| Facets.QueriesAnswer | apps/api/src/domain/poems.rs:389-418 | with the values bound as `list` binds them, the row query returns the asked page of all rows and the count query returns the number of all rows, despite its smaller join set |
| Facets.QueriesNeverFail | apps/api/src/domain/poems.rs:370-418 | on no poem does either query read an alias that is not joined, find two rows for one slug, or meet a placeholder of the wrong kind |
| Facets.OrderedAscends | apps/api/src/domain/poems.rs:380 | ordering by id ascends strictly and neither drops nor adds rows |
| Facets.RowsAreTheMatchingPoems | apps/api/src/domain/poems.rs:278-418 | in strict id order, all rows are exactly the poems that satisfy every non-empty facet, each with its own poet and meter |
| Facets.PagesTile | apps/api/src/domain/poems.rs:409-411 | the first k pages put together are the first k times the page size of the rows |
| Facets.PagesAreComplete | apps/api/src/domain/poems.rs:389-418 | the pages up to the one the count calls for are together all the rows |
| Calendar.YearOfParts | apps/api/src/log.rs:88-89 | the four corrections of the year formula cancel exactly the leap days before the day, on each day of the 400-year era |
| Calendar.CivilOfParts | apps/api/src/log.rs:80-100 | the conversion maps era, century, four-year cycle, year and day to the date they denote |
| Calendar.EveryDayIsADate | apps/api/src/log.rs:80-100 | every day number, negative ones included, becomes a valid proleptic Gregorian date whose own day count is that number |
| Calendar.EveryDateIsADay | apps/api/src/log.rs:80-100 | every valid date is the conversion of its day count, so the conversion is a bijection |
| Calendar.ConsecutiveDays | apps/api/src/log.rs:80-100 | the next day number is the next calendar day, over month ends, leap days and year ends |
| Calendar.LaterDays | apps/api/src/log.rs:80-100 | a larger day number is a later date |
| Calendar.YearGrows | apps/api/src/log.rs:91 | a year counted from March has 366 days exactly when the February that ends it is leap |
| Calendar.DayZero | apps/api/src/log.rs:81 | day number zero is 1970-01-01 |
| Calendar.CopiesAgree | apps/search-indexer/src/main.rs:232-243 | the unsigned copy with its casts gives the same date for every day number |
| Calendar.NoOverflow | apps/api/src/log.rs:76-81 | for i64 day numbers the shifted day fits exactly up to i64::MAX - 719468, and up to there the era product and the year fit too |
| Timestamps.StampsAgree | apps/search-indexer/src/main.rs:196-210 | the indexer's stamp of a second is the API's stamp of its first millisecond |
| Timestamps.FixedOrder | apps/api/src/log.rs:73 | fixed-width numerals sort as their numbers do |
| Timestamps.PadIsFixed | apps/api/src/log.rs:73 | zero padding yields exactly the fixed width for every number that fits it |
| Timestamps.RenderOrder | apps/api/src/log.rs:73 | layouts of equal widths and marks sort as strings exactly as they sort field by field |
| Timestamps.TimestampsSort | apps/api/src/log.rs:64-74 | for the years -1 to 9999, and so for 0000 to 9999, timestamps in the format of section 5.6 of RFC 3339 sort as strings if and only if their instants do (section 5.1) |
| Timestamps.YearTenThousandSortsFirst | apps/api/src/log.rs:73 | the first instant of the year 10000 sorts before the first of 9999 |
| Timestamps.YearMinusOneSortsFirst | apps/api/src/log.rs:73 | the first instant of the year -1 sorts before the first of -2 |
| Timestamps.SortsIffInRange | apps/api/src/log.rs:64-74 | of the ranges of years that hold 0000 to 9999, all timestamps of a range sort as their instants if and only if the range lies within -1 to 9999 |
| Decimal.ParseUndoesDec | apps/search-indexer/src/es.rs:235-246 | a printed number parses back to itself exactly when it is in range, and prints as a canonical numeral |
| Decimal.DecOfValue | apps/api/src/query.rs:172-186 | every canonical numeral is the printed form of its value |
| QueryString.ParseQuery | apps/api/src/query.rs:22-44 | the loop over the pairs fills the specified entries, whose contents ParsedEntries gives |
| QueryString.ParsedEntries | apps/api/src/query.rs:22-48 | for any pairs, each list of a name's entry holds, in order, exactly the values whose key addresses that name and that place |
| QueryString.IndexedKeySplits | apps/api/src/query.rs:195-211 | a name subscripted with any usize splits back into that name and index |
| QueryString.SubscriptSplits | apps/api/src/query.rs:195-211 | name[inner] addresses the name by appending if nothing is inside the brackets, by index if a usize is, and as an object otherwise |
| QueryString.NoSubscript | apps/api/src/query.rs:195-199 | a key without an opening bracket, or without a closing one at its end, is a bare name |
| QueryString.EveryKeySplits | apps/api/src/query.rs:195-201 | every other key is a bracket-free name with one subscript |
| QueryString.Array | apps/api/src/query.rs:50-80 | the array read is the entry's specified reading, whose meaning ArrayMeans and IndexedArrayAccepted give |
| QueryString.ArrayMeans | apps/api/src/query.rs:50-80 | for every mix of forms: a name used as an object is refused; with no index given the appended values are read if there are any, else the bare ones, else none; with an index given the reading is never absent |
| QueryString.ScalarMeans | apps/api/src/query.rs:82-94 | the one bare value is read, or none, and any second value or other form is refused |
| QueryString.IndexedArrayAccepted | apps/api/src/query.rs:57-71 | given any indexed pair, the values are accepted if and only if index i is given exactly once with value i for each i below their number, no other index is given, and no other form of the name is present |
| SearchQuery.SerializeQuery | apps/web/src/lib/api/query-string.ts:7-21 | the loops emit, in field order, one pair per present scalar and one pair per list item under the bare key |
| SearchQuery.SearchUrlParts | scripts/smoke/checks.ts:26-52 | the builder emits, in field order, one pair per present scalar and one pair per list item under its subscripted key |
| SearchQuery.PageNumberIsCanonical | apps/api/src/query.rs:172-186 | a page text is accepted as n if and only if it is the canonical numeral of n and n lies in 1 to the maximum |
| SearchQuery.TransliteratedMeans | apps/api/src/slug.rs:3-11 | a transliterated slug begins with a lower-case letter and goes on with lower-case letters and hyphens |
| SearchQuery.FourLettersMean | apps/api/src/slug.rs:13-19 | a poet's slug is exactly four letters |
| Utf16.Utf16Concat | apps/api/src/query.rs:150 | the measured length of a text is the sum over its parts |
| Utf16.Utf16One | apps/api/src/query.rs:150 | a character counts two code units beyond the basic plane and one within it |
| SearchQuery.AddressedPermuted | apps/api/src/query.rs:22-44 | reordering the pairs only reorders the values that reach each place of a name |
| SearchQuery.BothStylesReadBack | apps/api/src/query.rs:22-94 | what is put on the wire is what each field reads as, from the repeated style and from the indexed style with its pairs in any order |
| SearchQuery.DecodeReads | apps/api/src/routes/search.rs:59-81 | fields that read back decode if and only if they are valid (slug grammar, at most 100 per list, at most 50 UTF-16 units, pages 1 to 500, no poem-only facet beside poets), and then to their meaning |
| SearchQuery.TwoEncodersOneDecoder | apps/api/src/routes/search.rs:59-81 | for any parameters, valid or not, both encodings, the indexed one in any order of pairs, decode to the same result: the meaning of valid ones, a bad request otherwise |
| SearchQuery.BracketsReadBack | apps/api/src/query.rs:73-75 | lists given under empty brackets read back field by field |
| SearchQuery.BracketsDecodeAlike | apps/api/src/routes/search.rs:59-81 | and decode to the same search as the other styles |
| SearchQuery.UnreadableIsRefused | apps/api/src/routes/search.rs:59-81 | a query in which any parameter cannot be read is refused |
| SearchQuery.EveryQueryDecodes | apps/api/src/routes/search.rs:59-81 | any query whatever, in any mix of forms, is accepted if and only if every parameter can be read and what it says is valid, and then decodes to that |
| SearchQuery.ClientInputAccepted | apps/web/src/lib/api/search-query.ts:29-44 | every valid search input of the web client is accepted and decodes to the text, type, page, facets and exactness that were entered |
| Paging.OffsetInWindow | apps/api/src/es/query.rs:190-196 | with saturating arithmetic a page's last item lies in the window if and only if the page is at most window / size, and then nothing saturates; otherwise the offset is exact or u32::MAX |
| Paging.AcceptedPagesFit | apps/api/src/es/query.rs:267-273 | the page ceilings 500 and 1666 are exact: a page is accepted if and only if it fits its window |
| Paging.PaginationReports | apps/api/src/envelope.rs:28-35 | a response repeats its page, page size and total, counts at least one page, and treats a page size of zero as one |
| Paging.PagesTile | apps/api/src/envelope.rs:28-35 | every item is on exactly one page, and that page is between 1 and the reported total of pages |
| Paging.LastPageIsUsed | apps/api/src/envelope.rs:28-35 | whenever there is an item the last page has one, and no item lies beyond it |
| Paging.FollowPages | apps/web/src/components/search/use-search.tsx:131-134 | however many items there are, following the next page from page 1 visits each item the engine counts, up to 10,000, once and in order, asks for pages 1, 2, 3 and so on, and never for one above 500 |
| Regularity.SortedIsSorted | scripts/corpus/regularity.ts:6 | sorting ascends and keeps the number of values above and below every bound |
| Regularity.MedianSplits | scripts/corpus/regularity.ts:4-11 | at most half the values lie below the median and at most half above it, for odd, even and empty lists |
| Regularity.MedianAmongSorted | scripts/corpus/regularity.ts:6-10 | the median is the middle of the sorted values, or the midpoint of the two middle ones |
| Regularity.OutliersAreAMinority | scripts/corpus/regularity.ts:21-29 | for every non-empty list fewer than half the values are outliers, the replaced zero deviation included, and the share is at least 0 and below 1/2 |
| Regularity.ShareIsOfFarValues | scripts/corpus/regularity.ts:23-28 | the share is the number of values farther from the median than three scaled deviations over the number of values |
| Rhyme.LettersInOrder | scripts/corpus/arabic-text.ts:6-12 | stripping a line keeps exactly the letters of the alphabet, in order: it works part by part and character by character |
| Rhyme.RhymeLetters | scripts/corpus/qafiya.ts:3-4 | the connecting vowels and the plural ending are the letters the source names |
| Rhyme.RawiCandidates | scripts/corpus/qafiya.ts:6-23 | the candidates are those of the line's letters, which CandidatesAreClasses characterises |
| Rhyme.CandidatesAreClasses | scripts/corpus/qafiya.ts:12-20 | a class is a candidate if and only if it is that of the last letter, of the one before a connecting vowel, or of the third from the end before the plural ending |
| Rhyme.TallyAll | scripts/corpus/qafiya.ts:31-34 | the nested loops give every class the number of lines that it is a candidate of, and list the classes in the order in which they are first met |
| Rhyme.FirstLargest | scripts/corpus/qafiya.ts:66-74 | the class chosen has the largest count and is the first to reach it |
| Rhyme.RhymeScore | scripts/corpus/qafiya.ts:25-37 | the score is the largest tally of any class over the number of lines with letters, zero without such lines |
| Rhyme.DominantRawi | scripts/corpus/qafiya.ts:55-75 | none exactly when no line has letters, otherwise a class that no other class outnumbers, and of several the one that is met first |
| Rhyme.ScoreIsUnique | scripts/corpus/qafiya.ts:36 | the specification of the score leaves room for one value only |
| Rhyme.ScoreRange | scripts/corpus/qafiya.ts:25-37 | with letters the score lies above 0 and up to 1, and is 1 if and only if one class is a candidate of every line with letters |
| Rhyme.ScoreIsDominantShare | scripts/corpus/qafiya.ts:36-74 | the score is the dominant class's tally over the number of lines with letters |
| Rhyme.ScoreIgnoresOrder | scripts/corpus/qafiya.ts:25-37 | permuting the lines leaves the score unchanged |
| Rhyme.CoarserNeverDrops | scripts/corpus/arabic-text.ts:30-32 | a table that hears fewer differences never lowers a score |
| Rhyme.SoundAlike | scripts/corpus/arabic-text.ts:14-32 | two letters sound alike by default exactly when they are the same or both a form of hamza, both an alef, or both among the three finals in t or h; the optional classes add dad and zah |
| Rhyme.OptionalClassesCoarsen | scripts/corpus/arabic-text.ts:14-28 | adding the optional classes to the default table is such a coarsening |
| Rhyme.SharedLiteralSuffixLength | scripts/corpus/qafiya.ts:39-53 | the result is the length of the longest suffix that all words share, zero without words |
| Rhyme.IsAnchor | scripts/corpus/calibration.ts:9-11 | at least four lines whose words share a suffix of at least two letters |
| Rhyme.AnchorsScoreOne | scripts/corpus/calibration.ts:9-18 | every anchor scores exactly 1 under every table |
| Rhyme.AnchorRecall | scripts/corpus/calibration.ts:13-20 | the recall is the share of the anchors whose score reaches 0.9, 1 for an empty list and for any list of anchors, and in 0 to 1 for any list |
| TaskRunner.Fill | scripts/ci.ts:248-254 | tasks start in list order until the limit is reached or none is left, and the run's invariant is kept |
| TaskRunner.RunParallel | scripts/ci.ts:241-290 | for every order of completion: a task settles only after it started, each at most once; never more than the limit in flight at any moment; tasks start in list order; a blocking failure is the last thing handled and nothing starts after it; with a limit of at least 1 a failure is reported if and only if some task blocks, and without one each task starts and settles exactly once and the warnings are the failed advisory tasks; with a smaller limit, which the callers exclude, nothing happens and nothing is reported |
| TaskRunner.WarningsAreFailedAdvisories | scripts/ci.ts:266-268 | the warnings name exactly the settled advisory tasks that failed, each once |
| WorkerPool.RunKeepsOrder | scripts/smoke/http.ts:86-94 | every turn of every worker keeps the claims in order, the claimed indices held or stored, and the measure of remaining work shrinking |
| WorkerPool.WidthMeans | scripts/smoke/http.ts:87 | the width is the smaller of the concurrency and the number of items, and at least one |
| WorkerPool.EveryRunIsOrderly | scripts/smoke/http.ts:80-96 | over every interleaving each index is claimed once, at most `width` items are worked on, a stored result is its own item's, and runs are bounded |
| WorkerPool.AllDoneMeansAllStored | scripts/smoke/http.ts:94-95 | once all workers are done every present item has its own result in its own place and every absent one none |
| WorkerPool.SomeTurnIsPossible | scripts/smoke/http.ts:88-93 | every run from the start can be made longer by a turn until every worker is done; with the bound on the length of runs, every run that goes on as long as it can ends with all workers done |
| WorkerPool.TurnIsDefined | scripts/smoke/http.ts:89-92 | a worker only ever waits for an item that is there and whose result is not stored yet |
| Snippet.LongestMarkSpan | apps/api/src/domain/search.rs:111-135 | the result is the largest UTF-16 length among the closed marks found from left to right, zero without one |
| Snippet.MeasuringUndoesMarking | apps/api/src/domain/search.rs:108-135 | in highlighted text whose untouched parts hold no opening tag and whose marked parts no closing tag, what is measured is exactly the marked parts, in order |
| Snippet.EveryTextIsMarked | apps/api/src/domain/search.rs:108-135 | every text can be read as such parts, with a tail that holds no closed mark, so the measure is described for every text |
| Snippet.SplitJoins | apps/api/src/domain/search.rs:137-139 | joining the pieces between stars gives the text back and no piece holds a star |
| Snippet.VerseIsAPassage | apps/api/src/domain/search.rs:137-161 | a snippet, the opening verse included, is a verbatim passage of its text between hemistich boundaries, and holds one star, or none where a single hemistich is left |
| Snippet.LeadingVerseIsAPrefix | apps/api/src/domain/search.rs:137-139 | the opening verse is the content up to its second star, or all of it |
| Snippet.VerseSpanMeans | apps/api/src/domain/search.rs:147-149 | a pair's span is that of the longer hemistich, and the last hemistich may stand alone |
| Snippet.BestIsUnique | apps/api/src/domain/search.rs:141-161 | at most one even-aligned pair is the first to attain the largest span |
| Snippet.PoemSnippet | apps/api/src/domain/search.rs:141-162 | the snippet is the first even-aligned hemistich pair with the largest span, and the opening verse exactly when there is no highlight or every span in it is zero |

## Left out

- HTTP routing, middleware, CORS, error bodies, logging and headers other than the values computed by the limiter.
- Real Postgres and Elasticsearch: assumed are a row lock held until the transaction ends, an atomic alias request, selects in key order, integer columns within their width, and total hits capped at the window.
- SQL text: the facet compiler's output is a syntax tree; rendering it to a string is not modelled, nor is the `Option` around a NULL count.
- URL percent-coding: both encoders and the parser work on decoded pairs (section 5 of the WHATWG URL Standard); the `extra` parameters of `searchUrl` are not part of this model.
- SHA-256, random number generation and wall clocks: their results are inputs.
- Two indexers at once, and the `issue-key` binary, which inserts keys without the ceiling.
- A clock that runs backwards under the key cache; the limiter takes readings in any order.
- Thread-level concurrency inside one lock: a limiter, cache or recorder call is one atomic step, as the mutex makes it.
- The failure text of a request, the child processes, the output and the exit of the task runner.
- `coefficientOfVariation` and `syntheticFalsePositiveRate`: the first needs a square root, the second a fixed pseudo-random sequence, and neither carries a law.
- Floating-point rounding: scores, medians and shares are exact; a median that rounds is not modelled.
- `parse_poem_content`, `excerpt_start`, ranking clauses and highlighting requests.
- LimiterRuns.RefinesCounting: needs a run that never cleared the map, in which no check came late, and a clock below the last i64 second; ForgettingBound, NeverRefusedInVain and LastInstantMergesWindows say what happens without these.
- LimiterObject.Limiter.CheckAll: the map has no iteration order, so pruning and clearing are single assignments rather than loops over entries.
- Keyset.Populate: the refresh-interval and refresh requests around the loop; one that fails is, for the protocol, a fill that fails.
- Usage.UsageRecorder.Drain: the order of the batch is left open, as it is for the hash map.
- QueryString.Array: the ascending walk over the tree map is a walk over the indices 0 to n - 1 that expects each of them.
- WorkerPool.EveryRunIsOrderly: the pool's shared counter and results are a state machine on values, one move per claim or completion; a worker that throws is not modelled.
- TaskRunner.RunParallel: the exit codes are fixed beforehand and the order of completion is arbitrary; tasks are identified by their place in the list.
- Snippet.LongestMarkSpan: positions count characters, where the program counts UTF-8 bytes; the marks are ASCII, so the same pieces are cut.
