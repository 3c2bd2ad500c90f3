# A verified model of the bi8s content backend

A Dafny model of the stateful parts of the content service, with proofs of what they promise. One module per
component; `dafny verify dfyconfig.toml` checks everything.

* **Content store** (`ContentModel`, `ContentStore`, `ContentResync`, `ContentProtocol`, `ContentHistory`,
  `ContentEdits`, `ContentSerial`, `ContentQuiescence`, `ContentDrift`, `PersonProtocol`, `PersonEdits`). A content
  table with an optimistic version number and two join tables derived from it. `ContentStore` runs one client at a
  time, call by call, through the loops of the repositories. `ContentProtocol` lets any number of clients take one
  database call at a time, with crashes between calls; `ContentHistory` and `ContentEdits` say what that means for the
  committed versions, and `ContentSerial` ties it to the serial calls. `ContentQuiescence` says when such runs leave
  the join tables exact, `ContentDrift` that no part of the condition can be spared. `ContentResync` is the repair
  pass, and `PersonProtocol` with `PersonEdits` the version protocol of the person table.
* **Rate limiting** (`TokenBucket`, `RedisBucket`, `RateLimiter`, `LimiterLocking`). The in-memory token bucket, the
  bucket kept in Redis with key expiry, the map of limiters with its idle sweep, and the double-checked locking that
  fills the map. Tokens and time are reals.
* **Discover pages** (`Discover`, `DiscoverWalks`, `Ordering`, `Paging`). The accumulate-until-full loop over a
  filtered index, the rankings and the walk from cursor to cursor. `Ordering` says what a stable sort with a strict
  weak order yields.
* **Caches** (`AttributeCache`, `HttpCache`, `CacheKey`, `RequestIdentity`). The attribute list behind a read-write
  lock, the bounded response cache with its recorder, the bytes hashed into a cache key and what they tell apart.
* **Lists** (`AdminListing`, `ContentRelations`, `PersonRelations`, `Assets`, `EntityRefs`, `Strings`, `Options`).
  Sorting and paging of the admin lists, relation and asset edits, and the text form of references.

Objects that the program updates in place are classes whose methods change their fields; each method is tied to a
function of the old state, and the theorems are about runs of those functions. Concurrency is modelled as state
machines whose steps are the atomic calls or lock operations of the code, over every schedule.

## Where the code does not do what one would expect

Each of these is a theorem with the exact condition, or with a concrete run.

* The cast delete loop sends an empty id to the database, which refuses it; its attribute twin skips empty ids. So an
  `Update` or `Delete` of a row whose stored cast ids contain an empty one commits the row and reports an error with
  its deletes half done. The join tables are exact afterwards if and only if the links that stayed happen to be the
  right ones, a test on the old and the new row (`CommitKeepsExactIff`, `SerialRunExactIff`). The service itself never
  stores an empty cast id: the parser drops such references, a reference is validated to have an id, every cast is
  looked up before a row is created, and relation edits rebuild the ids (`RebuiltRowsCommitCleanly`). Only a row
  written from outside the service can have one.
* Join tables can disagree with the content table after interleaved calls. Five conditions on the steps of a run are
  enough for them to be exact wherever no client has join calls outstanding (`CalmRunIsExactWhereQuiet`): no commit or
  repair of a content while join calls for it are outstanding, the test above, a `Delete` that removes the row it has
  read, a repair that works from the current row, and no crash before the last join call. Each is needed: for each
  there is a run that breaks no other and ends, with all clients done, in a wrong cast table (`EachConditionNeeded`).
  Two interleaved updates are such a run (`InterleavedUpdatesDrift`), and so are an update and a `Delete` that read the
  row before it, without any overlap of their join calls (`StaleDeleteDrifts`, `DeleteDropsWhatWasStoredIff`).
* The repair pass restores every current link and removes nothing, so it makes a table exact only if no stale row is in
  it (`RepairMakesExactIffNoStaleRow`).
* The recent and the latest page return a cursor behind rows that they read and then cut off. All walks of a kind are
  complete if and only if, at every place of the index, the batch read there holds no more matching rows than are still
  wanted for the page (`EveryTruncatedWalkCompleteIff`, `TruncationLosesRow`).
* A Redis bucket with refill rate 0 is full again after its key expires; the in-memory one stays empty
  (`ExpiryUnseenIff`, `RedisHeaderLongEnoughIff`). The configuration refuses that rate
  (`app/internal/app/config.go:193-197`), so it takes another caller of the package. The idle sweep refills a bucket for
  which half an hour is not enough (`SweepUnseenIff`).
* A configured Retry-After for the in-memory limiter is sent as it is, even if no token is earned in that time
  (`MemoryHeaderLongEnoughIff`). The router configures none (`app/internal/http/router.go:88`), so this, too, takes
  another caller.
* Cache keys tell requests apart exactly where no text contains a separating character (`KeyTellsRequestsApart`);
  `a=1,2` and `a=1&a=2` share one (`CommaJoinsValues`).
* A cached response carries the content type that the handler had set when it ended, which is not the one its client
  got if the handler changed it after it began to write (`ReplayIsOriginalIff`).
* Pages of the admin list by release date fit together only if every request collects the rows in the same order,
  because different rows can be tied there (`IgnoresCollectionIff`).

## Model

| member | source | states |
|---|---|---|
| ContentStore.ContentCastRepository.PutEntry | app/internal/repository/content_cast.go:81-93 | an accepted put sets exactly that one row; a refused one changes nothing; an empty person id is refused |
| ContentStore.ContentCastRepository.DeleteEntry | app/internal/repository/content_cast.go:95-106 | removes at most the one link, and an empty person id is refused |
| ContentStore.ContentCastRepository.DeleteAllByContentId | app/internal/repository/content_cast.go:108-115 | on success exactly the listed links of this content are gone; with an empty id among them it stops there, the earlier ones gone and the later ones left; other contents are untouched even on failure |
| ContentStore.ContentAttributeRepository.PutEntry | app/internal/repository/content_attribute.go:81-93 | an accepted put sets exactly that one row; a refused one changes nothing; an empty attribute id is refused |
| ContentStore.ContentAttributeRepository.DeleteEntry | app/internal/repository/content_attribute.go:95-106 | removes at most the one link, and an empty attribute id is refused |
| ContentStore.ContentAttributeRepository.DeleteAllByContentId | app/internal/repository/content_attribute.go:108-118 | on success exactly the listed links of this content are gone, empty ids skipped; other contents are untouched even on failure |
| ContentStore.ContentRepository.GetAdmin | app/internal/repository/content_repository.go:186-205 | a consistent read returns the current row or its absence; an empty id is refused |
| ContentStore.ContentRepository.SyncContentCastEntries | app/internal/repository/content_repository.go:363-378 | on success the table has one link more for every non-empty cast id, with the type and visibility of the row, and is otherwise the same |
| ContentStore.ContentRepository.SyncContentAttributeEntries | app/internal/repository/content_repository.go:380-395 | the same for attribute ids |
| ContentStore.ContentRepository.ResyncJoinTables | app/internal/repository/content_repository.go:356-361 | on success every link that the row lists is in place in both tables, and nothing else has changed |
| ContentStore.ContentRepository.GetAllAdmin | app/internal/repository/content_repository.go:139-158 | a page is the next rows of the database's listing, no more than the limit, and its key goes on right behind them |
| Paging.DefaultLimit | app/internal/repository/content_repository.go:118-123 | a positive limit is kept, any other becomes 20 |
| ContentStore.ContentRepository.Create | app/internal/repository/content_repository.go:207-226 | refuses an existing id, and only that; on success the stored row is the one given; exact join tables stay exact on success, with just the links of the row's own ids, type and visibility; on an error the row is there as given or not at all; other contents are untouched whatever happens |
| ContentStore.ContentRepository.RemoveLinks | app/internal/repository/content_repository.go:260-267 | on success all links that the old row listed are gone; on an empty cast id only those before it |
| ContentStore.ContentRepository.ReplaceLinks | app/internal/repository/content_repository.go:260-276 | on success old links are replaced by new ones in both tables; on an empty old cast id no new link is made |
| ContentStore.ContentRepository.Update | app/internal/repository/content_repository.go:228-277 | writes only over the expected version; the stored row is then the caller's with only version, raised by one, and time changed, and else it is as it was; exact join tables stay exact on success, with just the links of the new row's ids, type and visibility; other contents are untouched whatever happens |
| ContentStore.ContentRepository.Delete | app/internal/repository/content_repository.go:279-306 | a missing row is reported; on success the row is gone and, from exact join tables, all its links; other contents are untouched whatever happens |
| ContentStore.CreateKeepsExact | app/internal/repository/content_repository.go:207-226 | a successful create keeps both join tables an exact index of the content table |
| ContentStore.RelinkKeepsExact | app/internal/repository/content_repository.go:260-276 | dropping all links of the old row and putting those of the new one turns an exact index into an exact index |
| ContentStore.UpdateKeepsExact | app/internal/repository/content_repository.go:228-277 | a successful update keeps both join tables exact, with the new type and visibility on every link |
| ContentStore.DeleteKeepsExact | app/internal/repository/content_repository.go:279-306 | a successful delete leaves no link of the content behind and keeps both join tables exact |
| ContentStore.SerialRunKeepsIndexExact | app/internal/repository/content_repository.go:207-306 | after any serial run in which every committed call reported success, both join tables hold exactly the current links of every content |
| ContentStore.FilledRunIsReported | app/internal/repository/content_repository.go:207-306 | a run that never writes an empty cast id reports every commit as a success |
| ContentStore.CommitKeepsExactIff | app/internal/repository/content_repository.go:228-306 | a commit over exact tables leaves them exact if and only if no empty cast id was stored, or the links that the stopped deletes leave are just those the new row asks for (none, after a delete) |
| ContentStore.SerialRunExactIff | app/internal/repository/content_repository.go:207-306 | a serial run has exact tables after every call if and only if each of its commits passes that test |
| ContentStore.EmptyCastIdStrandsIndex | app/internal/repository/content_cast.go:108-115 | a concrete stored row with an empty cast id, whose update commits, reports an error and leaves the cast table wrong |
| ContentResync.ResyncPage | app/internal/service/content.go:202-207 | after one page all links that its rows list are in place, besides those of the earlier pages |
| ContentResync.ResyncAllJoinTables | app/internal/service/content.go:192-214 | the walk over all pages ends, counts every row once, and on success has put every link of every row and changed nothing else |
| ContentResync.RepairMakesExactIffNoStaleRow | app/internal/service/content.go:192-214 | after a repair no current link is missing or outdated, and the table is exact if and only if it held no stale row before |
| ContentProtocol.PutReplacesWhatWasRead | app/internal/repository/content_repository.go:228-258 | when the conditional put succeeds, the row the service loaded and the row Update read are both the row being replaced |
| ContentProtocol.StepKeepsInv | app/internal/repository/content_repository.go:207-306 | every single call of any client, and every crash, keeps the protocol's invariant: chained versions, a table of last commits, clients that hold committed rows, links once listed |
| ContentProtocol.RunKeepsInv | app/internal/repository/content_repository.go:207-306 | the invariant holds in every state of every interleaving |
| ContentHistory.NoLostUpdate | app/internal/repository/content_repository.go:228-258 | in every interleaving the committed versions of a row go up by exactly one from 1, each update was computed from, and found by its consistent read, the row it replaced, also when the service's first read was stale, and the stored row is the last commit |
| ContentEdits.EveryCommitIsAnEdit | app/internal/repository/content_repository.go:207-258 | in every interleaving the first version of a row is one that a caller created, and each later one is the movie that a caller handed to Update with only version, raised by one, and time changed |
| ContentEdits.StoredUntilDeleted | app/internal/repository/content_repository.go:207-306 | in every state of every interleaving a row is stored if and only if somebody created it and nobody has deleted it since |
| ContentEdits.AnyVersionMayBeRead | app/internal/repository/content_repository.go:139-158 | an idle client of the protocol may read, to edit or to repair, any version ever committed: all that a scan without consistent reads or a cached row can return |
| PersonProtocol.PutReplacesWhatWasLoaded | app/internal/repository/person.go:63-97 | when the conditional put of a person succeeds, the row the service loaded is the row it replaces, although none of the reads is consistent |
| PersonProtocol.StepKeepsInv | app/internal/repository/person.go:55-101 | every call of any client, and every crash, keeps the versions chained, the table at the last commits and the clients at committed rows |
| PersonProtocol.NoLostUpdate | app/internal/repository/person.go:63-97 | in every interleaving the committed versions of a person go up by exactly one from 1, each update was computed from the row it replaced, and the stored row is the last commit; nothing is claimed of the row that Update re-reads |
| PersonEdits.EveryCommitIsAnEdit | app/internal/repository/person.go:55-97 | the same for people: a stored version is what a caller handed in, but for version and time |
| PersonEdits.StoredUntilDeleted | app/internal/repository/person.go:55-101 | a person is stored if and only if it was created and not deleted since |
| PersonEdits.AnyVersionMayBeRead | app/internal/repository/person.go:63-75 | a client may read any version ever committed, and Update may find the row or miss it |
| ContentHistory.LinksWereOnceCommitted | app/internal/repository/content_repository.go:255-276 | in every interleaving with crashes, every join row was listed, with its type and visibility, by some committed version of its content |
| ContentHistory.HistoryOnlyGrows | app/internal/repository/content_repository.go:228-306 | over any stretch of a run no commit is ever replaced or forgotten, and a deleted id stays deleted |
| ContentSerial.RunAloneIsRunOps | app/internal/repository/content_repository.go:260-276 | the join steps of a client, taken one after the other with no other step between, do to the tables what its list of join calls says, and leave it idle |
| ContentSerial.UninterruptedClientIsSerialCall | app/internal/repository/content_repository.go:207-306 | a commit of the protocol followed by that client's own join steps does to all three tables exactly what the serial call does |
| ContentQuiescence.CalmStepKeepsOrder | app/internal/repository/content_repository.go:207-306 | every step that meets the five conditions keeps each content exact that no client works on, and each joining client on the way to making its content exact |
| ContentQuiescence.CalmRunIsExactWhereQuiet | app/internal/repository/content_repository.go:207-306 | in every state of every interleaving whose steps meet the five conditions, both join tables are exact for each content without outstanding join calls, and altogether once no client has any |
| ContentHistory.DeleteDropsWhatWasStoredIff | app/internal/repository/content_repository.go:279-306 | in every interleaving, Delete removes the links of the row that was stored if and only if no create or update of the id committed between its read and its delete |
| ContentDrift.InterleavedUpdatesDrift | app/internal/repository/content_repository.go:260-276 | a run of two updaters whose join calls overlap, all other conditions kept, after which both are done and the cast table has a link that the row does not list |
| ContentDrift.StaleDeleteDrifts | app/internal/repository/content_repository.go:279-306 | a run of an update and a delete without overlapping join calls, all other conditions kept, that ends with a link of a deleted row |
| ContentDrift.EachConditionNeeded | app/internal/repository/content_repository.go:207-306 | for each of the five conditions a run that meets the other four throughout and ends with all clients done and a wrong cast table |
| TokenBucket.Limiter.constructor | app/internal/http/middleware/ratelimit/ratelimit.go:67-74 | a new limiter is full |
| TokenBucket.Limiter.Allow | app/internal/http/middleware/ratelimit/ratelimit.go:76-95 | the call refills, caps and charges as the specified bucket does; it is admitted exactly if the bucket can hold a token and old tokens plus elapsed time times rate make one |
| TokenBucket.AfterBounds | app/internal/http/middleware/ratelimit/ratelimit.go:76-95 | over every run the level stays between zero and the maximum and the last refill is the last call |
| TokenBucket.LevelIsLeastHeadroom | app/internal/http/middleware/ratelimit/ratelimit.go:76-95 | the level a call finds is the least of what all windows ending at it still allow, and some window attains it |
| TokenBucket.AdmittedIffEveryWindowAllows | app/internal/http/middleware/ratelimit/ratelimit.go:76-95 | a call is admitted if and only if counting it keeps every window that ends with it within maximum plus rate times length |
| TokenBucket.RunWithinBudget | app/internal/http/middleware/ratelimit/ratelimit.go:76-95 | the potential, tokens left plus calls admitted since the window opened, never exceeds what the window has earned |
| TokenBucket.WindowBound | app/internal/http/middleware/ratelimit/ratelimit.go:76-95 | in every window of every run at most maximum plus rate times length calls are admitted |
| RedisBucket.RedisBackend.Allow | app/internal/http/middleware/ratelimit/redis_backend.go:116-146 | one call runs the script on what is left of the key and rewrites that key only; the key is kept for the time a whole bucket takes to fill plus a minute, rounded down to seconds; without refill a denial names 60000 ms |
| RedisBucket.UnexpiringIsLimiter | app/internal/http/middleware/ratelimit/redis_backend.go:30-65 | without expiry the script decides every call of every run as the in-memory limiter does, and both buckets are equal after it |
| RedisBucket.ExpiredMeansFull | app/internal/http/middleware/ratelimit/redis_backend.go:121-121 | when a key expires its bucket would have been full again |
| RedisBucket.ExpiryUnseenIfRefilling | app/internal/http/middleware/ratelimit/redis_backend.go:121-121 | with a positive rate every reply, and the stored bucket, is the same with and without expiry, over all runs |
| RedisBucket.ExpiryUnseenIff | app/internal/http/middleware/ratelimit/redis_backend.go:150-155 | expiry changes no decision of any run if and only if the rate is positive or the bucket holds less than one token |
| RedisBucket.RedisIsLimiter | app/internal/http/middleware/ratelimit/redis_backend.go:30-65 | with a positive rate the expiring shared bucket and one in-memory limiter decide every call of every run alike |
| RedisBucket.RetryMsIsLeast | app/internal/http/middleware/ratelimit/redis_backend.go:45-59 | the retry time of a denial is positive and is the least whole number of milliseconds after which the next call is admitted |
| RedisBucket.RedisHeaderLongEnough | app/internal/http/middleware/ratelimit/backend.go:46-50 | with refill, and from any stored bucket, a client of the shared bucket that waits for Retry-After (section 10.2.3 of RFC 9110) seconds is admitted |
| RedisBucket.RedisHeaderLongEnoughIff | app/internal/http/middleware/ratelimit/redis_backend.go:45-59 | over all runs, every client ever turned away that waits as long as it was told is admitted if and only if the bucket holds a token at all and refills; without refill the key outlives the 61 seconds told |
| RedisBucket.MemoryHeaderLongEnoughIff | app/internal/http/middleware/ratelimit/backend.go:32-39 | over all runs, every client of the in-memory limiter that is turned away and waits for Retry-After is admitted if and only if the bucket holds a token at all and that time earns one; with refill the default time does |
| RedisBucket.DefaultWaitIsLeast | app/internal/http/middleware/ratelimit/backend.go:31-40 | the header of the in-memory limiter is the configured value; else, with refill, the least whole number of seconds that earns more than one token, and 60 without |
| RedisBucket.SharedWaitIsLeast | app/internal/http/middleware/ratelimit/backend.go:51-52 | the header of the shared bucket is the least whole number of seconds that is longer than the retry time, whatever is configured |
| RateLimiter.RateLimiter.GetLimiter | app/internal/http/middleware/ratelimit/ratelimit.go:147-168 | returns the key's limiter, or enters a full one for it, and leaves all others alone |
| RateLimiter.RateLimiter.Allow | app/internal/http/middleware/ratelimit/ratelimit.go:183-204 | charges the key's bucket only |
| RateLimiter.RateLimiter.Cleanup | app/internal/http/middleware/ratelimit/ratelimit.go:170-181 | the loop keeps exactly the limiters used in the last 1800 seconds, as they are |
| RateLimiter.TracksAlways | app/internal/http/middleware/ratelimit/ratelimit.go:147-181 | over every run of requests and sweeps, the kept bucket of a key is its lone bucket, or was swept away when that was full again |
| RateLimiter.SweepUnseen | app/internal/http/middleware/ratelimit/ratelimit.go:147-181 | if half an hour refills a bucket, every request of every run is decided as by a bucket that serves its key alone and is never swept away |
| RateLimiter.SweepSeen | app/internal/http/middleware/ratelimit/ratelimit.go:170-181 | otherwise, for buckets of at least one token, some run of a single key is decided differently |
| RateLimiter.SweepUnseenIff | app/internal/http/middleware/ratelimit/ratelimit.go:147-181 | sweeps change no decision of any run if and only if half an hour refills a bucket or the bucket never admits anyone |
| LimiterLocking.ExecKeepsInv | app/internal/http/middleware/ratelimit/ratelimit.go:147-168 | the lock is exclusive and the map holds what was inserted, once per key, under every schedule |
| LimiterLocking.OneLimiterPerKey | app/internal/http/middleware/ratelimit/ratelimit.go:147-168 | all callers for one key get the same limiter, and it is the only one ever inserted for it, under every schedule |
| LimiterLocking.LimiterIsForGood | app/internal/http/middleware/ratelimit/ratelimit.go:147-168 | the limiter of a key never changes, whatever is scheduled later |
| LimiterLocking.LoneCallerReturns | app/internal/http/middleware/ratelimit/ratelimit.go:147-168 | a caller that nobody disturbs returns with the limiter of its key, or has entered a new one for it and nothing else, and the lock is free again |
| LimiterLocking.BothCanMiss | app/internal/http/middleware/ratelimit/ratelimit.go:148-157 | two callers can both miss under the read lock, so the second check is needed |
| Discover.DiscoverReadLimit | app/internal/repository/content_repository.go:125-137 | the batch is between 50 and 200 even where 32-bit multiplication wraps, five times what is missing in between, and large enough for it unless it is 200 |
| Discover.QueryPage | app/internal/repository/base.go:128-134 | what the paging loops rest on: a query returns the matching rows of the stretch it examined, and makes progress |
| Discover.Collect | app/internal/repository/content_repository.go:538-567 | the loop ends with exactly the matching rows of the stretch it has read, in index order, stops early only with enough of them, and its last query was one it would make |
| Discover.GetTruncatedPage | app/internal/repository/content_repository.go:592-700 | a recent or latest page is the first matching rows behind the cursor, as many as the limit or all there are |
| Discover.GetCollectedPage | app/internal/repository/content_repository.go:534-590 | a popular, trending or default page shows the ranked and cut, or all, matching rows of the stretch it has read; a cut ranking ends the walk |
| Discover.GetDiscoverContent | app/internal/repository/content_repository.go:516-590 | for every kind, what a page shows of the stretch it has read, and where its cursor points |
| DiscoverWalks.CollectDiscoverContent | app/internal/http/content_handler.go:507-522 | with the pages of the repository, so without the Redis cache of the service in between, following the cursors ends, yields a walk over the index, shows no row more often than it is there and, by default or on an uncrowded index, every matching row in order |
| Discover.RankingsAreStrictWeak | app/internal/repository/content_repository.go:95-116 | the popularity and trending comparators are strict weak orders |
| Discover.RankedPageIsTop | app/internal/repository/content_repository.go:575-587 | a popular or trending page is in the order of its ranking, and no row read and not shown outranks a row shown |
| Discover.MatchingCounts | app/internal/repository/content_repository.go:533-534 | the filter keeps, each as often as it was there, exactly the rows of five states and, if a movie or tv type was asked for, of that type |
| Discover.RankedPageInFields | app/internal/repository/content_repository.go:95-116 | a popular page has ratings, among equal ratings views, and among equal views release dates in descending order, a trending page views and then creation times; no row read and left out has a higher rating, or more views, than one on the page |
| Discover.PageInFields | app/internal/repository/content_repository.go:516-590 | what each type of page means in the fields of the rows: latest reads the release date index and all others the creation index, every row shown passes the filter, popular and trending pages are ranked from a hundred matching rows or all that are left, other types show all they read |
| DiscoverWalks.DefaultWalkIsComplete | app/internal/repository/content_repository.go:538-590 | on the path that does not truncate, a full walk yields every matching row, once, in index order |
| DiscoverWalks.WalkNeverRepeats | app/internal/repository/content_repository.go:516-700 | a walk of any kind shows no row more often than the index holds it |
| DiscoverWalks.TruncatedWalkCompleteIff | app/internal/repository/content_repository.go:592-700 | a recent or latest walk is complete if and only if no page read more rows than it may show |
| DiscoverWalks.EveryTruncatedWalkCompleteIff | app/internal/repository/content_repository.go:592-700 | all recent or latest walks over an index are complete, however the database cuts its batches, if and only if at each place the batch read there holds no more matching rows than are still wanted |
| DiscoverWalks.TruncationLosesRow | app/internal/repository/content_repository.go:592-645 | a concrete index, and a walk that its queries can take, on which the second row is never shown |
| Ordering.StableSortSorted | app/internal/repository/content_repository.go:95-116 | a stable sort by a strict weak order is sorted and keeps tied rows in their order |
| Ordering.StableOrderIsUnique | app/internal/repository/content_repository.go:95-116 | only one list is sorted and stable, so the library's sort has no choice |
| Ordering.UntiedOrderIsUnique | app/internal/http/middleware/httpcache/httpcache.go:150-156 | without ties the sorted order of a multiset is unique |
| Ordering.BeforeAtFirstDifference | app/internal/repository/content_repository.go:95-108 | strings compare by their first difference, and a proper prefix comes first |
| AttributeCache.StepKeepsInv | app/internal/service/attribute.go:29-59 | every step keeps the invariant that each write a cached or scanned snapshot misses is still going to clear the cache |
| AttributeCache.ReadsSeeReturnedWrites | app/internal/service/attribute.go:96-112 | a GetAll that starts after a Create or Delete has returned yields a snapshot no older than that write, under every schedule of the lock protocol, with a scan as one consistent step |
| AttributeCache.StaleCacheHasPendingWriter | app/internal/service/attribute.go:96-112 | for every write that the cache misses there is a writer that has committed and not yet cleared it |
| AttributeCache.CachedListIsServed | app/internal/service/attribute.go:29-35 | an undisturbed GetAll that finds an unexpired list returns it, without looking at the table |
| AttributeCache.MissingListIsScanned | app/internal/service/attribute.go:36-51 | an undisturbed GetAll that finds none scans the table once, caches what it found and returns it; a failed scan leaves everything as it was |
| AttributeCache.WriteClearsTheCache | app/internal/service/attribute.go:96-112 | a write that succeeds clears the cache before it returns, one that fails leaves it alone |
| HttpCache.MemoryStore.constructor | app/internal/http/middleware/httpcache/httpcache.go:38-47 | a new store is empty and has room for 1024 entries unless told otherwise |
| HttpCache.MemoryStore.Get | app/internal/http/middleware/httpcache/httpcache.go:49-60 | returns the entry of the key exactly if there is one and its TTL, if positive, has not passed |
| HttpCache.MemoryStore.MakeRoom | app/internal/http/middleware/httpcache/httpcache.go:65-72 | lists a new key last and drops the oldest one, in list and map, if the store was full |
| HttpCache.MemoryStore.Set | app/internal/http/middleware/httpcache/httpcache.go:62-74 | keeps the order list a duplicate-free listing of the map's keys, within capacity and equal to the last inserted keys of the whole history; no other entry changes, and only the oldest goes, when a new key finds the store full |
| HttpCache.StoreHoldsLastInserted | app/internal/http/middleware/httpcache/httpcache.go:62-74 | over any history of Set calls exactly the last `capacity` inserted keys are held |
| HttpCache.HeldKeysDiffer | app/internal/http/middleware/httpcache/httpcache.go:62-74 | they are all different, no more than `capacity`, and the key set last is among them |
| HttpCache.Recorder.WriteHeader | app/internal/http/middleware/httpcache/httpcache.go:197-204 | only the first status counts, for the client and for the record |
| HttpCache.Recorder.Write | app/internal/http/middleware/httpcache/httpcache.go:206-212 | the body recorded is the body sent, with status 200 if none was set |
| HttpCache.Recorder.Cacheable | app/internal/http/middleware/httpcache/httpcache.go:214-230 | true exactly for a 2xx without Set-Cookie whose Cache-Control has neither no-store nor private (sections 5.2.2.5 and 5.2.2.7 of RFC 9111) |
| HttpCache.Serve | app/internal/http/middleware/httpcache/httpcache.go:107-108 | after any handler the record is what the client got |
| HttpCache.HasNoStore | app/internal/http/middleware/httpcache/httpcache.go:127-135 | true exactly if one of the comma-separated directives is no-store (section 5.2.1.5 of RFC 9111) |
| HttpCache.DirectiveListed | app/internal/http/middleware/httpcache/httpcache.go:127-135 | in a list of directives joined by commas, one is found exactly if some entry is it, in any case and with space around it |
| HttpCache.PlainResponses | app/internal/http/middleware/httpcache/httpcache.go:214-230 | without Cache-Control, exactly the 2xx responses without Set-Cookie may be stored |
| HttpCache.ControlledResponses | app/internal/http/middleware/httpcache/httpcache.go:214-230 | with Cache-Control, exactly those of them whose directives name neither no-store nor private |
| HttpCache.ResponseCache.Lookup | app/internal/http/middleware/httpcache/httpcache.go:92-105 | a request that is not bypassed hits exactly if an entry is held whose TTL has not passed; every hit has the status, type and body of a cacheable run of the handler for the same key, less than the TTL ago; methods but GET and HEAD are bypassed and never hit |
| HttpCache.ResponseCache.RunAndStore | app/internal/http/middleware/httpcache/httpcache.go:107-121 | the client gets what the handler wrote; it is stored under the key exactly if it is cacheable, and the entries of other keys stay, but for the oldest of a full store |
| HttpCache.SentTypeIsTypeAtBeginning | app/internal/http/middleware/httpcache/httpcache.go:197-212 | the client's type is the one set when the response began, whatever the handler does later |
| HttpCache.SentStatusIsTheFirst | app/internal/http/middleware/httpcache/httpcache.go:197-212 | the status sent is the first one written, or 200 if data comes first, and the body is all data in order |
| HttpCache.ReplayIsOriginalIff | app/internal/http/middleware/httpcache/httpcache.go:173-184 | for every handler, a replay has the original status and body, and the original type if and only if the handler did not change it after the response had begun |
| CacheKey.MakeKey | app/internal/http/middleware/httpcache/httpcache.go:137-171 | the loops write the specified bytes, whatever order map iteration delivers the names in |
| CacheKey.BytesOfOne | app/internal/http/middleware/httpcache/httpcache.go:137-171 | for one parameter and one vary header the bytes are spelled out, with the unit separator between the parts |
| CacheKey.SortedIsCanonical | app/internal/http/middleware/httpcache/httpcache.go:150-156 | sorting two orders of the same strings gives the same list |
| CacheKey.KeyIgnoresQueryOrder | app/internal/http/middleware/httpcache/httpcache.go:137-171 | requests that agree on method, path, vary headers and, per query name, on the multiset of values have the same bytes |
| CacheKey.MissingHeaderIsEmpty | app/internal/http/middleware/httpcache/httpcache.go:163-168 | a vary header that is missing counts as an empty one |
| CacheKey.KeyIgnoresVaryOrder | app/internal/http/middleware/httpcache/httpcache.go:86-90 | the configured order of the vary headers does not show in the bytes |
| RequestIdentity.KeyTellsRequestsApart | app/internal/http/middleware/httpcache/httpcache.go:137-171 | for requests whose texts are free of the separating characters, the bytes are equal if and only if method, path, vary headers and, per query name, the multisets of values agree |
| RequestIdentity.CommaJoinsValues | app/internal/http/middleware/httpcache/httpcache.go:153-159 | one value with a comma has the same bytes as the two values around it |
| AdminListing.FilterAdmin | app/internal/http/admin_search_handler.go:233-325 | the loops keep the rows of the section that match the query, in order |
| AdminListing.FilterCounts | app/internal/http/admin_search_handler.go:233-325 | each matching row is kept as often as it was there, and no other row |
| AdminListing.SortModesAreStrictWeak | app/internal/http/admin_search_handler.go:372-481 | every sort mode of every list is a strict weak order |
| AdminListing.DatesAreStrictTotal | app/internal/repository/content_repository.go:82-93 | later dates first and no date last is a strict order that ties no two different dates |
| AdminListing.SortAdmin | app/internal/http/admin_search_handler.go:372-481 | reorders the slice in place into the stable order of the mode |
| AdminListing.CursorRoundTrip | app/internal/http/content_handler.go:524-534 | the cursor text a page hands out is read back as the same offset |
| AdminListing.CursorReadIff | app/internal/http/content_handler.go:524-534 | a cursor text is read exactly if it is blank, or digits after an optional sign that make a number from zero to the largest 64-bit one |
| AdminListing.SearchSection | app/internal/http/admin_search_handler.go:49-147 | a section is refused only for its cursor, and otherwise is the page at that offset of the filtered, sorted list |
| AdminListing.WalkIsWholeListing | app/internal/http/admin_search_handler.go:483-526 | for any list and page size, following the cursors from the start ends, all pages but the last are full, and together they are the list |
| AdminListing.ListingIsSortedMatches | app/internal/http/admin_search_handler.go:101-103 | the list holds exactly the matching rows, as often as collected, sorted, with ties as collected |
| AdminListing.ListingInFields | app/internal/http/admin_search_handler.go:372-481 | in the fields of the rows: names ascend or descend, ids deciding among equal ones; release dates descend with undated content last, then creation times; otherwise creation times descend, then ids |
| AdminListing.ListedIff | app/internal/http/admin_search_handler.go:233-325 | a row is listed if and only if it was collected, is a movie or series with an id, a person, or an attribute of the type asked for, and some text of it contains the query in any case |
| AdminListing.DescendingIsReversed | app/internal/http/content_handler.go:536-551 | with different ids the descending order is the ascending one backwards |
| AdminListing.LatestTiesIff | app/internal/http/admin_search_handler.go:391-407 | by release date two rows are tied if and only if date and creation time agree, whatever their ids |
| AdminListing.IgnoresCollectionIff | app/internal/http/admin_search_handler.go:101-103 | the list of matching rows does not depend on the order in which rows were collected if and only if no two different matching rows are tied; only the release date order can have such ties |
| ContentRelations.ContainsEntity | app/internal/service/content.go:365-372 | true exactly if some reference has the id |
| ContentRelations.RemoveEntity | app/internal/service/content.go:374-382 | the references with other ids, in order |
| ContentRelations.Without | app/internal/service/content.go:374-382 | the id is gone, every other id is there as before, and nothing changes exactly if the id was not there |
| ContentRelations.WithoutConcat | app/internal/service/content.go:374-382 | removal decides each reference on its own and keeps the order |
| ContentRelations.Content.AddContentAttribute | app/internal/service/content.go:384-411 | the attribute goes, last and once, into tags, mood tags, genres or studios, by the first of its types that is a tag, mood, genre or studio, and the other lists do not change; with no such type it is refused and nothing changes |
| ContentRelations.Content.RemoveContentAttribute | app/internal/service/content.go:413-418 | the id leaves all four attribute lists |
| ContentRelations.Content.RebuildContentJoins | app/internal/service/content.go:420-441 | both id lists are the ids of their lists |
| ContentRelations.Content.MutateRelation | app/internal/service/content.go:321-363 | attribute first, to the list that its types say; person otherwise, to the casts; after a success the derived ids are those of the lists, attributes in the order genres, tags, mood tags, studios; after a refusal nothing has changed |
| ContentRelations.FirstIdsMembers | app/internal/service/content.go:420-441 | the derived ids are exactly the non-empty ids of the lists, each once |
| ContentRelations.FirstIdsOrdered | app/internal/service/content.go:420-441 | they come in the order of their first occurrence |
| ContentRelations.RebuiltRowsCommitCleanly | app/internal/service/content.go:351-354 | every committed write or delete of a row whose cast ids were rebuilt reports success and keeps exact join tables exact |
| ContentRelations.AddIsIdempotent | app/internal/service/content.go:384-411 | adding twice is adding once |
| ContentRelations.AddThenRemoveRestoresIff | app/internal/service/content.go:321-418 | add then remove restores every list if and only if the id was in none that removal looks at |
| ContentRelations.LastEditDecides | app/internal/service/content.go:321-363 | after any sequence of edits an id is in its list exactly if its own last edit added it |
| ContentRelations.EditsKeepUnique | app/internal/service/content.go:321-363 | no sequence of edits puts an id twice into a list |
| PersonRelations.Person.MutateForType | app/internal/service/person.go:260-311 | what one type of the attribute does to the person's lists |
| PersonRelations.Person.MutateAttribute | app/internal/service/person.go:244-316 | after the loop over all types the attribute is in, or out of, tags, categories and specialties as its types name them, and social links for a platform or social type, once; refused exactly if no type names a list |
| PersonRelations.EditOneMore | app/internal/service/person.go:260-311 | repeated types, or both social types, do no more than one |
| PersonRelations.AddThenRemovePersonIff | app/internal/service/person.go:244-316 | add then remove restores every list if and only if the attribute was in none that its types name |
| PersonRelations.PersonEditIsIdempotent | app/internal/service/person.go:244-316 | the same edit twice is the edit once |
| Assets.UploadFiles | app/internal/service/content.go:628-647 | the keys and paths are those of the files before the first that fails |
| Assets.StoredAssets.UploadAssets | app/internal/service/content.go:610-682 | the keys of the uploaded prefix go to their type if the row can be written, else nothing changes; the paths are reported either way |
| Assets.StoredAssets.DeleteAssetKey | app/internal/service/content.go:684-721 | a known key is removed, with its group if it was the last, if the row can be written; an unknown one is reported |
| Assets.UploadKeys | app/internal/service/content.go:649-664 | an upload adds its keys, in order, behind those of its type and touches no other type |
| Assets.DeleteKeys | app/internal/service/content.go:693-719 | a deletion removes the one key, keeps the order of the rest and touches no other type |
| Assets.DeleteUndoesUploadIff | app/internal/service/content.go:610-719 | deleting a just uploaded new key restores the list if and only if the type had no empty group |
| Assets.EditsKeepTidy | app/internal/service/content.go:610-719 | over any sequence of calls there is one group per type and none is empty, and each type's keys evolve as if alone |
| EntityRefs.FormatRefs | app/cmd/admin-ui/content_view.go:658-664 | the loop prints id and name of each reference, joined by commas |
| EntityRefs.ParseRefs | app/internal/http/content_parser.go:78-106 | the loop collects the references of all pieces that hold one |
| EntityRefs.ParsedIsWellFormed | app/internal/http/content_parser.go:78-106 | whatever the text, parsed references are trimmed, free of separators and have an id |
| EntityRefs.RoundTripIff | app/internal/http/content_parser.go:78-106 | printing and parsing gives a list back if and only if each of its references is well formed |
| EntityRefs.PairIsIdAndName | app/internal/http/content_parser.go:85-103 | a piece without a colon is an id, one with a colon an id and a name, each trimmed; with more colons or a blank id it holds nothing |
| EntityRefs.FieldIsItsPieces | app/internal/http/content_parser.go:78-106 | any field of pieces joined by commas parses to what its pieces hold, in order, wherever there is space |
| Strings.SplitJoin | app/internal/http/content_parser.go:85-85 | splitting undoes joining for parts without the separator |
| Strings.TrimSpaceOf | app/internal/http/content_parser.go:79-79 | trimming takes the space at both ends away and nothing else |

## Left out

* Calls that time out or fail after having taken effect: a failed call changes nothing, except that a client may
  crash between any two calls.
* Eventual consistency of the database's secondary indexes, and of the scans of the attribute table and of the admin
  listing in `ContentStore`: they read what is there. Reads of single rows may be stale in the two protocols.
- ContentQuiescence.CalmRunIsExactWhereQuiet: the five conditions are enough, and none can be spared for all runs; a
  single run that breaks one may still end exact, because the calls that land last happen to be the right ones.
* The width of the version number: versions are unbounded.
* Reuse of an id after Delete: ids are generated and not used again; a recreated row would start again at version 1.
* A client of the protocol that edits the id or the version of the row it loaded: the service never does.
* Rows that the repair pass reads while others write are covered by `ContentProtocol` as reads of some committed
  version; the claim about a whole repair pass assumes that writers have stopped.
* Floating-point rounding, the conversion of numbers to strings in Redis, and clocks that run backwards or differ
  between replicas: token levels and times are reals and the times of a run do not decrease.
* Fail-open and fail-closed handling of Redis errors, client address detection and the remaining limit headers.
* GetLimiter and Allow are one step in `RateLimiter`; a sweep between the two is not modelled. `LimiterLocking` has no
  sweeps.
* The Redis caches of single rows, people and discover pages: a cached first page drops its next key, so they do not
  agree with the repository, and a walk that starts with one ends there.
* Uniqueness of attribute names: the lookup by name and the creation are two calls, so it does not hold.
* A scan of the attribute table is one step that sees every write committed before it. The code scans page by page and
  does not ask for consistent reads, so a scan may in fact miss a write that has just been committed; what is proved
  is that the cache adds nothing to that. The list that a GetAll returns is shared and must not be changed.
* The attribute service and the double-checked locking are state machines on values rather than objects, because what
  is proved of them is about steps of several threads.
* The load before and the conditional write after a relation edit, apart from its refusal in `Assets`: they are those
  of `ContentProtocol`. A lookup of an attribute that fails counts as an attribute that is not there, as in the code.
* SHA-256 and the parsing of URLs: `CacheKey` is about the bytes before hashing and takes the parsed query.
* Repeated header lines: a request and a response have one value per header, which is the first line that the code
  looks at. A directive or a vary value on a later line of the same header is not seen by the code.
* Responses of status 1xx, header names other than their canonical form, and the guessing of a content type that no
  handler has set.
* Lower-casing of characters outside ASCII and Unicode spaces beyond Latin-1.
* The row lookups by person and by attribute, banners and the unstable sort by release date: only its comparator is
  modelled.
* S3, OpenSearch, ffmpeg, file validation, logging, configuration, HTTP envelopes and the desktop UI around
  `formatRefs`.
- Assets.StoredAssets.UploadAssets: generated key ids and paths are inputs, because their uniqueness comes from the
  generator.
- AdminListing.SearchSection: the page size is an input between 1 and the maximum, because its parsing is a single
  branch; offsets are 64-bit but the sum of offset and page size is unbounded.
- Discover.GetDiscoverContent: query errors end a walk without a page and are not modelled.
