# Verified model of the website backend

This project models the parts of the Go backend whose correctness does not show in any one function:
protocols whose steps interleave, transactions that roll back, counters with real bounds, binary walks
over untrusted bytes, and the string algorithms that must never produce two equal names. Everything is
proved for all inputs and all runs; nothing is bounded.

Concurrency is modelled as a total `Step` function over an explicit state and `Run` over a sequence of
actions of any number of requests. Each SQL statement or Redis command is one step and may fail by
itself. Code that works by changing things step by step is a class or a method with loops, proved
against those functions.

| module | what it models |
|---|---|
| Common | options, results, decimal numerals, trimming, fixed-width integers |
| PageTags, PageCache, PageServer | entity tags and keys; the versioned page cache as a protocol; the Redis store and the middleware as they run |
| ProjectOrder, ProjectRepository, ProjectService | the public project order as a plain sequence; the transactions of the repository; the checks of the service in front of them |
| LoginLimiter, LimiterRuns | the login limiter's table and its bounds over runs |
| MediaReferences, Articles, ArticleEffects, ArticleStore | the references of a body; the article lifecycle under optimistic locking; when a request commits and what it then leaves in the rows; the transactions and service calls as they run |
| WebpAnimation, ExifOrientation, Orientation | the RIFF walk, the JPEG and TIFF walks, the eight orientations |
| Headings | slugs, suffixes and unique heading identifiers |
| AdminSearch | LIKE patterns, list and count of the administrative search |
| Sessions, SessionServer | administrator sessions under interleaved revocation; the service calls as they run |

Hashes, the renderer, the lower-case mapping, letter classes, the database collation and generated
values are parameters. A property that needs something of them asks for it in `requires`: a
collision-free hash, idempotent lower-casing.

## Where the code and its documentation part

- Hiding a project. The design document (技术方案.md:317) moves the order to a temporary range that
  cannot meet the final one and then renumbers in a single statement. `setTemporaryOrder` writes the
  values m+1..2m one by one instead, and the schema has a unique key on `sort_order`
  (db/migrations/00001_initial.sql:104). For a reorder that is harmless. After a hide the last of the m
  remaining rows still holds rank m+1 unless it was the last row that was hidden, so the first
  temporary write is a duplicate key; with one remaining row it changes nothing, and the driver, which
  counts changed rows (internal/database/database.go:211-226 does not ask for matched rows), reports
  zero rows, a conflict. `DeployedHideOnlyLast` says exactly which hides succeed, `HideTakesEffect`
  says it for every setting of key and counting.
- Freshness of the page cache. The comment at internal/cache/page.go:35-37 says a concurrent
  invalidation can never make an old page visible under the new version. That needs an initialised
  version key that is never lost: `CurrentVersion` sets a missing key with a separate GET and SET
  (internal/cache/redis.go:91-96), a late SET moves the version back, and so does a new start of the
  versions after Redis lost the key. Among the runs that keep the key `FreshIffVersionLeads` gives the
  exact condition; `LostVersionServesOldPage` and `LossBreaksFreshness` show that a missing or
  restarting Redis (internal/cache/redis.go:31) affects more than acceleration; `StalenessBound` holds
  in every run, with or without the key.
- Retry-After of a full login table (internal/adminapi/adminapi.go:1050-1052) is exact when both
  buckets are new. When one exists and expires before the retry, both are new then and one slot more
  is missing: `RetryAfterRefusedExample` is a table whose Retry-After names a time at which the attempt
  is denied again, and `CapacityDenialOneNew` says exactly when a retry is admitted.
- `CreateProject` and `UpdateProject` of the repository commit before they read the row back
  (internal/project/repository.go:39-57, 70-89), so the call can fail after its write took effect. The
  same holds for the read after a committed article write; the contracts say so.

## Model

| member | source | states |
|---|---|---|
| `PageCache.FreshRun` | internal/cache/page.go:61-104 | In runs that keep the version key, every step of every request and every commit, invalidation, eviction and clock tick keeps the invariant that an entry under version v was rendered after v became current, whatever Redis command fails |
| `PageCache.FreshWhenVersionLeads` | internal/cache/page.go:35-37 | The freshness claim of the comment, under the hypothesis that Redis never loses the version key: in every interleaving from an initialised key with no page left under a later version, a request that starts after an invalidation completed is never answered, from the cache or freshly, with content older than the commits that invalidation covers |
| `PageCache.FreshIffVersionLeads` | internal/cache/redis.go:91-96 | The claim holds for all runs that keep the version key if and only if the key exists at the start and no stored page belongs to a version still to come |
| `PageCache.LateInitialiserServesOldPage` | internal/cache/redis.go:91-96 | From a missing key, two initialisers and one late SET to 1 serve a page that misses a commit already covered by an invalidation: a concrete run for every target and page |
| `PageCache.LeftoverPageServed` | internal/cache/redis.go:161-163 | A page left under a later version is served, stale, as soon as the counter reaches that version |
| `PageCache.LostVersionServesOldPage` | internal/cache/redis.go:91-96 | With the key lost after an invalidation, an initialised start and a live page of version 1 are enough for a stale answer: the run is commit, invalidate, loss, request |
| `PageCache.LossBreaksFreshness` | internal/cache/redis.go:91-96 | If the key can be lost the claim fails from every start, the empty Redis included: the condition of a kept key cannot be dropped |
| `PageCache.StalenessBound` | internal/cache/redis.go:149-151 | From any stored pages, even with failing invalidations, the version moving back and the key being lost: a cache hit at time t includes every commit made before t minus the TTL minus the longest time from reading a version to storing |
| `PageCache.CachedRepliesReplay` | internal/cache/page.go:68-73 | In every run a cache hit repeats body, tag and content type of an earlier answer with status 200, rendered for the same version and request target, or of a page stored for them before the run |
| `PageCache.RevalidationInRuns` | internal/cache/page.go:92-98 | In every run and for every If-None-Match header, 304 is sent exactly when the header holds the wildcard or a tag, weak or strong, that only this version of this body has, cached or fresh (RFC 9110 sections 13.1.2 and 8.8.3.2) |
| `PageCache.RevalidationOfHeld` | internal/cache/page.go:92-98 | In every run a client that lists, strongly or weakly, the tags of what it holds gets 304 exactly when it holds this version of this body |
| `PageTags.ETagInjective` | internal/cache/page.go:188-195 | Under a collision-free hash the tag determines both the version and the body |
| `PageTags.TagIsQuoted` | internal/cache/page.go:188-195 | A tag is an opaque-tag of RFC 9110 section 8.8.3: quotes around the version, if there is one, and the digest of the body |
| `PageTags.PageKeyInjective` | internal/cache/page.go:261-270 | Under a collision-free hash keys of one store coincide only for the same version and the same request target |
| `PageTags.SplitJoin` | internal/cache/page.go:201-202 | Splitting a comma list at its commas and trimming gives back exactly the listed tags |
| `PageTags.ListMatches` | internal/cache/page.go:197-213 | A list matches exactly when it holds the wildcard or the current tag under weak comparison (RFC 9110 sections 13.1.2 and 8.8.3.2) |
| `PageTags.NotModifiedMeansListed` | internal/cache/page.go:197-213 | For every header whatsoever: a match if and only if some candidate is the wildcard or, weak prefix stripped, the tag that only this version of this body has |
| `PageTags.NotModifiedIffHeld` | internal/cache/page.go:197-213 | For a client listing what it holds, with any mixture of weak and strong tags: a match if and only if it holds this version of this body |
| `PageServer.RedisStore.CurrentVersion` | internal/cache/redis.go:85-105 | GET, and SET to 1 when it found nothing, whatever others did in between: its result and its effect on the store, with either command failing |
| `PageServer.RedisStore.Get` | internal/cache/redis.go:107-131 | A hit exactly for a live, valid page under this version and target |
| `PageServer.RedisStore.Set` | internal/cache/redis.go:133-153 | Only a valid page is stored, under its own version and target; nothing else changes |
| `PageServer.RedisStore.Invalidate` | internal/cache/redis.go:155-165 | INCR, with a missing key counting as zero; nothing else changes |
| `PageServer.ReadSteps` | internal/cache/page.go:61-68 | With any steps of others between its commands, reading the version takes exactly the protocol's first steps and answers nothing |
| `PageServer.TryReplay` | internal/cache/page.go:68-73 | A live, valid page of this version and target whose content type belongs to the target is replayed as a 200, with 304 if the header matches its tag, and only then; otherwise the request goes on to render with the version it read |
| `PageServer.RenderSteps` | internal/cache/page.go:77-103 | Rendering, answering and storing, others in between, take exactly the protocol's last steps; the answer is the handler's status, body and content type, it counts as rendered exactly for status 200, a content type that belongs to the target and no cookie, and only then is a page stored, under the version read |
| `PageServer.LookAndRender` | internal/cache/page.go:64-104 | What a request that knows its version sends and stores, said field by field: the stored page when there is a hit, and otherwise what was rendered |
| `PageServer.EndIsReached` | internal/cache/page.go:55-104 | Wherever a request ends is reached by a run of the protocol: its own steps in the source's order among those of others |
| `PageServer.Middleware` | internal/cache/page.go:55-104 | A whole request, with any steps of other requests, administrators and Redis between any two of its commands, ends where the protocol's steps lead, is answered exactly once with the response it returns, and that response and the pages it leaves are exactly a replay of the stored page or the freshly rendered one: stored only for status 200, a content type that belongs to the target and no cookie |
| `ProjectOrder.StoredOrderIsListed` | internal/database/dbgen/projects.sql.go:330-336 | The ORDER BY query recovers exactly the stored order, so a table stores at most one, and the greatest rank is its length |
| `ProjectOrder.FreeRangePass` | internal/project/repository.go:365-396 | A renumbering pass into a free range of values completes under every schema and driver setting and ranks exactly the given rows |
| `ProjectOrder.KeylessPass` | internal/project/repository.go:365-396 | Without the unique key only an UPDATE that changes nothing can stop a pass |
| `ProjectOrder.FinalPass` | internal/project/repository.go:382-396 | From the temporary ranks the final pass always completes and ends with 1..N in the given order |
| `ProjectOrder.ReorderPasses` | internal/project/repository.go:325-330 | From ranks 1..N both passes of a reorder complete and install exactly the requested permutation |
| `ProjectOrder.ReorderNeverCollides` | internal/project/repository.go:365-396 | After every single write of either pass of a reorder no two rows share a rank |
| `ProjectOrder.HidePasses` | internal/project/repository.go:274-280 | After hiding position k the temporary pass completes exactly when the last row was hidden, or the settings tolerate the one conflict; both passes then end at 1..m in the old relative order |
| `ProjectOrder.HideCollision` | internal/project/repository.go:358-380 | Write by write, a rank is shared in the temporary pass of a hide exactly when it is m+1, a later row existed, and the pass is strictly between its first and last write |
| `ProjectOrder.PublishAppends` | internal/project/repository.go:198-214 | The rank MAX+1 is free and puts the project behind all others |
| `ProjectOrder.HideRemoves` | internal/project/repository.go:265-280 | A hide that commits removes exactly its project and keeps the order of the rest at 1..N-1 |
| `ProjectOrder.ReorderInstalls` | internal/project/repository.go:318-330 | A reorder that commits leaves exactly the requested sequence |
| `ProjectOrder.StepRefines` | internal/project/repository.go:168-339 | One create, update, publish, hide or reorder, whichever of its statements fail, is one step of a plain sequence of ids or no step at all |
| `ProjectOrder.RunRefines` | internal/project/repository.go:39-339 | Every run with arbitrary statement failures stores exactly the plain sequence of the requests that took effect: public ranks are 1..N, hidden rows have none |
| `ProjectOrder.HideTakesEffect` | internal/project/repository.go:235-293 | A hide takes effect if and only if its versions are current and the position hidden suits the key and the row counting |
| `ProjectOrder.DeployedHideOnlyLast` | db/migrations/00001_initial.sql:104 | With the unique key of the schema and the driver's changed-row counting, a hide takes effect if and only if it names the last public project |
| `ProjectOrder.HideRefusedExample` | internal/project/repository.go:365-380 | Concrete tables: hiding the first of two and the first of three public projects is refused, hiding the third of three is not |
| `ProjectRepository.Transaction.SetSort` | internal/database/dbgen/projects.sql.go:452-473 | One sort-order UPDATE: fails by itself or for another row with that rank under the unique key, affects no row that is absent or hidden, none that already has the rank unless matched rows are counted, and otherwise sets the rank of that row alone |
| `ProjectRepository.Transaction.UpdateOrderState` | internal/project/repository.go:348-356 | The order version is bumped exactly when it is the expected one |
| `ProjectRepository.SetTemporaryOrder` | internal/project/repository.go:365-380 | The loop succeeds exactly when every one of its UPDATEs does and then has performed the whole pass to n+1..2n |
| `ProjectRepository.SetFinalOrder` | internal/project/repository.go:382-396 | The same for the pass to 1..n |
| `ProjectRepository.CompactProjectOrder` | internal/project/repository.go:358-363 | Both passes, or a failure |
| `ProjectRepository.SameIdSet` | internal/project/repository.go:398-419 | True exactly when both lists are without duplicates, hold the same ids and the requested one has no zero |
| `ProjectRepository.Repository.CreateProject` | internal/project/repository.go:39-57 | The row is added under the next id with the given name, hidden, unranked, at version 1, whenever the INSERT works, even when the read after it fails the call |
| `ProjectRepository.Repository.UpdateProject` | internal/project/repository.go:70-89 | Exactly a row at the given version, and with an address if it is public, receives the given fields and one version more; its status and rank, all other rows and the order stay |
| `ProjectRepository.Repository.PublishProject` | internal/project/repository.go:168-233 | Succeeds exactly when no statement fails, both versions match, the project is hidden and the fields have an address; then the row is public with these fields, rank N+1 and one version more, nothing else changes but the order version, and otherwise nothing does |
| `ProjectRepository.Repository.HideProject` | internal/project/repository.go:235-293 | All or nothing: success leaves the row hidden, unranked, with its fields and one version more, removes it from the order and changes only ranks of others; any refusal or failing statement changes nothing |
| `ProjectRepository.Repository.ReorderProjects` | internal/project/repository.go:295-339 | Succeeds exactly when no statement fails, the order version matches and the list holds each public project once; then exactly that permutation is stored and only ranks change, and otherwise nothing does |
| `ProjectService.ValidateOrderIDs` | internal/project/project.go:568-580 | Accepts exactly the lists without zero and without repetition |
| `ProjectService.EffectPublic` | internal/database/dbgen/projects.sql.go:416-428 | The fields of a public project are the ones it had, or come from a publication or from an update of it while public |
| `ProjectService.UpdateAlone` | internal/project/project.go:273-307 | When nobody writes in between, an update changes the row's fields and version exactly when its version matches and, for a public project, the address is there and confirmed |
| `ProjectService.PublishAlone` | internal/project/project.go:313-342 | When nobody writes in between, a publication appends the project exactly when the address is there and confirmed, both versions match and the project is hidden |
| `ProjectService.PublicAddressesConfirmed` | internal/project/project.go:273-342 | However updates, publications, hidings and reorderings interleave between their checks and their writes, every public project carries an address GitHub confirmed |
| `LoginLimiter.RetryAfterLeast` | internal/adminapi/adminapi.go:1171-1177 | The least whole number of seconds, at least one, that reaches the deadline |
| `LoginLimiter.LiveIs` | internal/adminapi/adminapi.go:1110-1116 | An entry lives for 15 minutes from the start of its window, to the nanosecond |
| `LoginLimiter.NthDeadline` | internal/adminapi/adminapi.go:1118-1131 | The deadline with fewer than n others before it and at least n up to it |
| `LoginLimiter.SortedDeadline` | internal/adminapi/adminapi.go:1119-1130 | Position n-1 of the sorted deadlines is the n-th smallest |
| `LoginLimiter.Limiter.PruneExpired` | internal/adminapi/adminapi.go:1110-1116 | Exactly the entries whose window has passed are removed |
| `LoginLimiter.Limiter.CapacityRetry` | internal/adminapi/adminapi.go:1118-1131 | The seconds to the slots-th smallest deadline, or 1 when there are fewer entries |
| `LoginLimiter.Limiter.Allow` | internal/adminapi/adminapi.go:1029-1059 | Denied exactly for five live failures of the account, thirty of the address, or no room among 4096 entries, with a wait of at least a second; otherwise admitted, both missing buckets inserted together |
| `LoginLimiter.AllowMeans` | internal/adminapi/adminapi.go:1029-1059 | The same of the step the runs are made of, in plain numbers |
| `LoginLimiter.Limiter.Failure` | internal/adminapi/adminapi.go:1061-1089 | With room among 4096 entries both buckets count one more in the window they are in, or one in a new window, and the answer is a denial exactly above five or thirty; without room nothing is counted and the answer is a denial |
| `LoginLimiter.FailureMeans` | internal/adminapi/adminapi.go:1061-1089 | The same of the step the runs are made of, in plain numbers |
| `LoginLimiter.Limiter.Success` | internal/adminapi/adminapi.go:1091-1098 | The account bucket goes, the address bucket only while it counts nothing |
| `LoginLimiter.Limiter.Cancel` | internal/adminapi/adminapi.go:1100-1108 | Only buckets that count nothing go |
| `LimiterRuns.CapacityRun` | internal/adminapi/adminapi.go:1050-1052 | In every interleaving of attempts the table never exceeds 4096 entries |
| `LimiterRuns.FailureBounds` | internal/adminapi/adminapi.go:1029-1116 | In every run with at most M overlapping attempts and a monotone clock, a bucket's window counts at most limit+M-1 failures and every half-open interval of 15 minutes holds at most 2(limit+M-1)-1; an address bucket in every run, an account bucket until a login clears it |
| `LimiterRuns.FailureIsRecorded` | internal/adminapi/adminapi.go:1073-1088 | In every run a failure of a pending attempt is recorded at that moment and counted in its bucket's entry, unless the table has no room |
| `LimiterRuns.FailuresLock` | internal/adminapi/adminapi.go:1038-1049 | Over runs: once five failures of an account or thirty of an address are recorded in one window, with no login clearing it in between, every attempt with that bucket is denied until 15 minutes after the window began |
| `LimiterRuns.SixthIsDenied` | internal/adminapi/adminapi.go:1038-1049 | Wrong passwords alone for one account from one address within 15 minutes: the first five attempts are admitted and the sixth is denied |
| `LimiterRuns.IntervalBound` | internal/adminapi/adminapi.go:1077-1083 | Any list of failure windows of at most n failures each, a window length apart, puts at most 2n-1 into an interval of that length |
| `LimiterRuns.CapacityDenialExact` | internal/adminapi/adminapi.go:1118-1131 | With two new buckets a capacity denial lasts exactly until the slots-th smallest deadline: earlier retries are denied, every retry from then on and from Retry-After on is admitted |
| `LimiterRuns.CapacityDenialOneNew` | internal/adminapi/adminapi.go:1050-1052 | With one bucket already there the answer names the least deadline, and every later retry is admitted if and only if one entry has expired by then, or two once that bucket has expired itself |
| `LimiterRuns.RetryAfterRefused` | internal/adminapi/adminapi.go:1050-1052 | A full table whose known bucket expires more than a second before all others denies the same attempt again at exactly the time its Retry-After named |
| `LimiterRuns.RetryAfterRefusedExample` | internal/adminapi/adminapi.go:1050-1052 | Such a table: an account that failed once two seconds before 4095 addresses did, tried from any other address |
| `LimiterRuns.LimitDenialExact` | internal/adminapi/adminapi.go:1043-1049 | A bucket at its limit denies exactly until its own deadline, which Retry-After reaches |
| `LimiterRuns.RecordAppends` | internal/adminapi/adminapi.go:1079-1083 | The recorded windows in order are the recorded failures |
| `MediaReferences.CollectReferences` | internal/markdown/renderer.go:125-151 | The map-and-list walk returns the first appearances, or refuses exactly the bodies that give one asset two texts |
| `MediaReferences.FirstAppearancesOrder` | internal/markdown/renderer.go:140-146 | Every asset appears once, with its first text, in the order of first appearance |
| `MediaReferences.RowsAreTheImages` | internal/database/dbgen/media.sql.go:112-119 | The stored rows of a body are exactly its images' assets and texts |
| `Articles.WriteIsAtomic` | internal/article/service.go:229-304 | When a guarded write commits, the row it was prepared from is the row it replaces: read and write together did what one indivisible operation would have done |
| `Articles.RunLinearizes` | internal/article/service.go:229-329 | Every interleaving of reads and guarded writes leaves the database that its committed operations, one at a time in commit order, would have left |
| `Articles.CommitsFormAChain` | internal/database/dbgen/articles.sql.go:330-345 | The commits to an article form one chain of versions v, v+1, ...: none is skipped and no two are based on the same version |
| `Articles.PreparedOk` | internal/article/service.go:229-304 | A prepared write keeps an article well formed and never repeats an asset |
| `Articles.AtomicSound` | internal/article/sqlstore.go:131-208 | Each committed operation keeps every article well formed and all addresses different |
| `Articles.RunSound` | internal/article/service.go:283-299 | In every reachable state a published article has a body with text, an address and a first publication time; address and time are set together or not at all; the derived columns and the article_media rows are those of the current body; every referenced asset exists |
| `Articles.AddressIsPermanent` | internal/article/service.go:283-299 | Once set, address and first publication time survive every interleaving of edits, withdrawals and publications |
| `Articles.DraftUntilPublished` | internal/database/dbgen/articles.sql.go:379-387 | A draft becomes public only by a publication that read it at this version or later: no save or publication that read it before its withdrawal undoes the withdrawal |
| `Articles.VisibleIffShown` | internal/database/dbgen/media.sql.go:148-156 | In a sound state the published-reference query holds of an asset exactly when some published body shows it, and everything referenced is stored |
| `Articles.StoredTextIsShown` | internal/database/dbgen/media.sql.go:112-119 | The stored text of a published image is the text its body gives it |
| `ArticleEffects.CommitsWhenItCan` | internal/article/service.go:229-329 | On a sound database a request commits if and only if the article is at the version it names, a withdrawal finds it published, and a write has a title of 1 to 200 characters without outer space, a body of at most 2 MiB that renders, shows only stored assets and has text if the article is or becomes public, and a free generated address; and then leaves exactly the effect below |
| `ArticleEffects.CommittedMeans` | internal/article/service.go:229-329 | A committed publication leaves the row published, with the requested title and body, one version more, and the address and first time it had or else the generated ones; a save leaves title and body alone changed; a withdrawal the status alone; columns and media rows are those of the body; no other article changes |
| `ArticleEffects.CreatedMeans` | internal/article/service.go:195-227 | A new article is a draft at version 1 with the given title and body, no address and no publication time, and is created exactly when title, body, assets and id allow it |
| `ArticleEffects.DeriveMeans` | internal/article/service.go:413-434 | Columns and references come from the rendered body: one reference for each asset with its text, and a refusal exactly of bodies that do not render or give one asset two texts |
| `ArticleEffects.SoundDerives` | internal/article/service.go:413-434 | In every sound state the stored columns and media rows are those of the current body |
| `ArticleEffects.TitleMeans` | internal/article/service.go:456-461 | A title is valid exactly with 1 to 200 characters and no white space at either end |
| `ArticleEffects.TextMeans` | internal/article/service.go:243-276 | A body counts as empty exactly when it has nothing but white space |
| `ArticleEffects.OctetsOf` | internal/article/service.go:463-468 | The size of a body is additive, and each character counts the octets of its UTF-8 form |
| `ArticleStore.SQLStore.UpdateArticle` | internal/database/dbgen/articles.sql.go:330-345 | The version guard, the unique address and the version bump of one UPDATE |
| `ArticleStore.SQLStore.ValidateMediaReferences` | internal/article/sqlstore.go:210-221 | Succeeds exactly when every referenced asset is stored and no lookup fails |
| `ArticleStore.SQLStore.InsertReferences` | internal/article/sqlstore.go:194-202 | The INSERT loop succeeds exactly when no asset repeats and no statement fails, and then leaves exactly the references' rows |
| `ArticleStore.SQLStore.UpdateArticleWithMedia` | internal/article/sqlstore.go:171-208 | Row and media rows change together as the guarded write says, or nothing changes, whichever statement fails |
| `ArticleStore.SQLStore.CreateArticleWithMedia` | internal/article/sqlstore.go:131-169 | A draft at version 1 and its media rows appear together or not at all |
| `ArticleStore.SQLStore.WithdrawArticle` | internal/database/dbgen/articles.sql.go:379-387 | Only a published row at the given version becomes a draft; everything else of it stays |
| `ArticleStore.Service.CreateDraft` | internal/article/service.go:195-227 | Leaves the database untouched or with exactly the new draft at version 1 with the given title and body, no address, and its media rows; without failing statements it succeeds exactly when that is possible |
| `ArticleStore.EndIsReached` | internal/article/service.go:229-329 | Wherever a call ends is reached by a run of the article protocol: its read and its guarded write among the steps of others |
| `ArticleStore.Service.Complete` | internal/article/service.go:395-402 | The guarded write and the read behind it, others in between: it commits only on the row that was read, as one indivisible operation on what others left, and reports the row as it then stands |
| `ArticleStore.Service.PrepareSave` | internal/article/service.go:234-254 | The checks of a save in the source's order, with the error of each, and the write it prepares |
| `ArticleStore.Service.PreparePublish` | internal/article/service.go:266-299 | The checks of a publication in the source's order, and the write it prepares; an address is generated only for a row that lacks one |
| `ArticleStore.Service.Save` | internal/article/service.go:229-259 | With any steps of others between its read and its write and behind its write: success means the row it had read received the title and body and one version more, with status, address and first time as before, as one indivisible operation; a refusal leaves the database to the others, and undisturbed it succeeds exactly when it can be applied |
| `ArticleStore.Service.Publish` | internal/article/service.go:261-304 | The same for a publication: success means the row it had read is published with the title and body and one version more, under the address and first time it had or else the generated ones |
| `ArticleStore.Service.Withdraw` | internal/article/service.go:306-329 | The same for a withdrawal: success means the published row it had read became a draft at one version more and kept everything else |
| `ArticleStore.Open` | internal/media/media.go:391-427 | An administrator gets the path of every stored asset whose key resolves inside the storage; a visitor exactly of those a published article or a public project references |
| `WebpAnimation.WebpIsAnimated` | internal/media/media.go:622-651 | On every byte string the offset loop stops in bounds and decides what the chunk walk says |
| `WebpAnimation.ChunksAreTheBytes` | internal/media/media.go:626-649 | Every byte string is its whole chunks, serialised, and a rest that holds no further whole chunk |
| `WebpAnimation.ScanDecides` | internal/media/media.go:629-637 | The walk says animated exactly when some whole chunk is, or the header of the chunk that is cut off says so |
| `WebpAnimation.SerializedChunks` | internal/media/media.go:638-648 | Serialising well-formed chunks and walking them gives the chunks back (RFC 9649 section 2.3) |
| `WebpAnimation.AnimatedFile` | internal/media/media.go:622-651 | For the bytes of every RIFF file of form WEBP, whatever its size field says: animated exactly when one chunk is ANIM or ANMF, or VP8X with the last but one bit of its first octet set (RFC 9649 section 2.7), lengths written little-endian and odd payloads padded |
| `WebpAnimation.OtherForms` | internal/media/media.go:623-625 | Nothing but a RIFF file of form WEBP is animated |
| `ExifOrientation.ParseTiffOrientation` | internal/media/media.go:692-733 | On every byte string the loop over the directory returns the orientation the block carries, and nothing for a block without one |
| `ExifOrientation.TiffMeans` | internal/media/media.go:692-733 | On every byte string, by offsets: an orientation o is found exactly when the block begins with MM 0 42 or II 42 0, the directory lies inside, and its first entry with tag 0x0112 is whole, of type 3, of count at least 1 and of value o in 1 to 8 (TIFF 6.0 Section 2) |
| `ExifOrientation.NextSegment` | internal/media/media.go:657-687 | One turn of the marker loop answers or moves strictly forward, in bounds, as the walk says |
| `ExifOrientation.JpegOrientation` | internal/media/media.go:653-690 | On every byte string the marker loop stops in bounds and answers 1 to 8, the walk's answer |
| `ExifOrientation.ScanSegment` | internal/media/media.go:657-687 | One serialised segment, with any number of fill octets, is read as what it carries or passed over exactly (ITU-T T.81 section B.1.1) |
| `ExifOrientation.SegmentMeans` | internal/media/media.go:681-685 | A segment carries an orientation exactly when it is an APP1 segment that begins with Exif and two zeros and the TIFF block behind them does |
| `ExifOrientation.ScanStops` | internal/media/media.go:657-680 | Whatever is no segment ends the walk with 1: no 0xFF, fill octets alone, EOI or SOS, a length cut off, below 2 or past the end |
| `ExifOrientation.ScanSegments` | internal/media/media.go:657-687 | For any list of well-formed segments the first orientation carried decides |
| `ExifOrientation.TiffRoundTrip` | internal/media/media.go:692-733 | In either byte order, behind any gap and any other entries, an encoded orientation is read back (TIFF 6.0 Section 2) |
| `ExifOrientation.JpegRoundTrip` | internal/media/media.go:653-690 | Behind any segments that carry no orientation, an Exif segment's orientation is found whatever follows it |
| `ExifOrientation.FileRoundTrip` | internal/media/media.go:653-733 | The octets of a whole file, written out in both byte orders: any segments without an orientation, fill octets, and an Exif segment whose big-endian length frames an II or MM block with a SHORT Orientation of 1 to 8 behind any gap and any other entries, have that orientation |
| `ExifOrientation.SixInThirtyFourOctets` | internal/media/media.go:653-733 | A concrete file of 34 octets, big-endian, has orientation 6 |
| `ExifOrientation.NoStart` | internal/media/media.go:654-656 | A file that does not begin with FF D8 has orientation 1 |
| `Common.U16Octets` | internal/media/media.go:678-712 | Two octets are read most significant first in big-endian order and least significant first in the other |
| `Common.U32Octets` | internal/media/media.go:629-712 | The same for four octets |
| `Orientation.ApplyOrientation` | internal/media/media.go:735-769 | The nested loops build exactly the turned image, for every size and every source origin, and return the source itself outside 2 to 8 |
| `Orientation.TurnedAsDefined` | internal/media/media.go:748-764 | The turned image shows the stored pixel of row r and column c at distance r from the side TIFF 6.0 gives row 0 and at distance c from the side it gives column 0, for all eight values: 6 puts row 0 at the right, 8 at the left |
| `Orientation.SourceInBounds` | internal/media/media.go:748-764 | Every pixel read lies in the source |
| `Orientation.EverySourceOnce` | internal/media/media.go:748-764 | Every source pixel is read for exactly one output pixel |
| `Orientation.TurnTwice` | internal/media/media.go:748-764 | Any two orientations in a row are one orientation, for every image |
| `Orientation.TurnBack` | internal/media/media.go:748-764 | 2, 3, 4, 5 and 7 undo themselves, 6 and 8 undo each other |
| `Headings.Slugify` | internal/markdown/renderer.go:275-293 | The one-pass builder produces the heading's words joined by single hyphens, and the final trim removes nothing |
| `Headings.SlugOfWord` | internal/markdown/renderer.go:280-286 | A text of letters and digits is its own slug, in lower case |
| `Headings.SlugAtSeparator` | internal/markdown/renderer.go:287-290 | At a space or hyphen the slugs of the two sides are joined by one hyphen, unless one of them is empty |
| `Headings.SlugDrops` | internal/markdown/renderer.go:278-291 | Any other character is dropped; with the two rows above this determines every slug |
| `Headings.SlugShape` | internal/markdown/renderer.go:275-293 | A slug has no leading, trailing or doubled hyphen and only lower-cased letters and digits besides |
| `Headings.SlugIdempotent` | internal/markdown/renderer.go:275-293 | The slug of a slug is itself, given idempotent lower-casing |
| `Headings.Itoa` | internal/markdown/renderer.go:297-309 | For every 64-bit integer the twenty octets suffice and hold its decimal numeral; a negative one gives the empty string |
| `Headings.CandidateInjective` | internal/markdown/renderer.go:267-270 | The candidates of one base are all different |
| `Headings.BlockedBound` | internal/markdown/renderer.go:267-270 | As many candidates in a row as are taken need as many used names |
| `Headings.UniqueHeadingID` | internal/markdown/renderer.go:258-273 | The suffix loop ends within one candidate more than names used: the slug, or section- and eight digits of the digest if it is empty, and otherwise the first free of that with -2, -3 and so on |
| `Headings.CollectHeadings` | internal/markdown/renderer.go:153-171 | The walk gives every listed heading, in order, the first identifier free after those before it |
| `Headings.IdentifiedLevels` | internal/markdown/renderer.go:153-171 | Exactly the headings of level 2 and 3 are listed, in order and with their levels |
| `Headings.RepeatedHeading` | internal/markdown/renderer.go:258-273 | Three headings with the same text receive its slug, and that with -2 and -3 |
| `Headings.IdentifiersDistinct` | internal/markdown/renderer.go:153-171 | All identifiers of a document are different |
| `Common.DecimalInjective` | internal/markdown/renderer.go:297-309 | Different numbers have different numerals |
| `Common.DecimalValue` | internal/markdown/renderer.go:297-309 | A numeral stands for its number and has no leading zero |
| `Common.TrimIs` | internal/article/service.go:456-461 | Trimming cuts white space off both ends, all of it and nothing else |
| `AdminSearch.EscapeInOrderIsEscape` | internal/article/admin.go:102-104 | The three replacements in their order escape every special character once and touch nothing an earlier one inserted |
| `AdminSearch.LikeEscaped` | internal/article/admin.go:102-105 | Under LIKE with backslash escape an escaped text matches itself and nothing else |
| `AdminSearch.LikeLiteral` | internal/article/admin.go:102-105 | An escaped text alone matches exactly the texts of its length that the collation cannot tell apart from it |
| `AdminSearch.LikeWildcards` | internal/article/admin.go:105 | What the two wildcards and their escaped forms match |
| `AdminSearch.PatternMeansContains` | internal/article/admin.go:95-105 | The generated pattern matches a title if and only if the title contains the trimmed query literally, under any character-wise collation |
| `AdminSearch.MakeAdminFilters` | internal/article/admin.go:82-107 | Refuses exactly an unknown status, and a trimmed query over 200 characters; a pattern is set exactly for a query that is not blank |
| `AdminSearch.SearchFinds` | internal/database/dbgen/articles.sql.go:15-23 | The unpaged list holds, latest update first and greatest id first among equals, exactly the articles of the asked status whose title contains the trimmed query, each as often as the table, and the count is its length |
| `Sessions.StepSound` | internal/database/dbgen/auth.sql.go:118-185 | Each query of each request keeps all of the session invariants |
| `Sessions.RunSound` | internal/auth/service.go:256-451 | In every interleaving a session's token, account, CSRF hash, creation time and absolute deadline never change, a revocation is final, and every acceptance saw the session unrevoked at its last query and unexpired under both limits |
| `Sessions.RevokedForGood` | internal/database/dbgen/auth.sql.go:164-185 | After a revocation no request is accepted with the session or rotates it, not even one already under way |
| `Sessions.RotatedOnce` | internal/auth/service.go:430-450 | No session is rotated successfully twice |
| `Sessions.DeadlinesHold` | internal/auth/service.go:276-278 | Whoever is accepted is accepted before the deadline fixed at creation and within the idle timeout of the activity seen |
| `SessionServer.Authenticate` | internal/auth/service.go:256-325 | With any steps of other requests between its queries it takes the protocol's steps, returns a session exactly when it was accepted, namely the fields of the row as it then stands; undisturbed it accepts exactly an unrevoked session before both deadlines, sets its last activity to now and changes nothing else, and otherwise says whether the session is expired or unknown |
| `SessionServer.FirstLook` | internal/auth/service.go:265-278 | Goes on exactly for a token of a session that is not revoked, before its absolute deadline and within the idle timeout, and names the error otherwise |
| `SessionServer.TouchRow` | internal/auth/service.go:279-289 | The touch accepts exactly when it changed a row |
| `SessionServer.TouchOrLookAgain` | internal/auth/service.go:279-325 | Everything behind the first query, others in between: the touch answers if it changed a row, and the second look otherwise |
| `SessionServer.SecondLook` | internal/auth/service.go:289-310 | After an empty touch the session is judged again by its row as it stands |
| `SessionServer.AuthenticateForReauth` | internal/auth/service.go:331-362 | Accepts exactly an unrevoked session before its absolute deadline, idle or not, returns its row's fields and names the error otherwise |
| `SessionServer.Reauthenticate` | internal/auth/service.go:408-451 | Reports a new session exactly when its own revocation changed the old row, with other requests' steps in between; the new row belongs to the account whose password was checked, has the given token and CSRF value, was created now and expires one absolute timeout later, and the result tells the same; a failed rotation leaves the new row behind; undisturbed the whole final table and the error are given |
| `SessionServer.StartRotation` | internal/auth/service.go:459-498 | The creation that begins a rotation: succeeds exactly for a free id and token, and the row created has the given account, token and CSRF value and the deadlines that follow from now |
| `SessionServer.RevokePrevious` | internal/auth/service.go:430-450 | The revocation that ends it changes exactly the old row, if it was not revoked, and says so |
| `SessionServer.Login` | internal/auth/service.go:194-253 | A login inserts exactly one row, of the account whose password was checked, and tells its deadlines, or changes nothing and names the error |
| `SessionServer.SessionStore.Create` | internal/database/dbgen/auth.sql.go:56-92 | One INSERT under the unique id and token, field by field |
| `SessionServer.SessionStore.Touch` | internal/database/dbgen/auth.sql.go:180-194 | One UPDATE of the last activity of an unrevoked row, counting changed rows |
| `SessionServer.SessionStore.Revoke` | internal/database/dbgen/auth.sql.go:164-178 | One UPDATE of the revocation time of an unrevoked row |
| `SessionServer.Logout` | internal/auth/service.go:390-403 | An unrevoked session is revoked now and nothing else changes; an earlier revocation time is kept |

## Left out

- Articles.WriteIsAtomic: the read-back after a commit is a separate query whose failure is reported for a write that took effect; the state machine records the commit only.
- PageCache.StalenessBound: the storing lag is measured from reading the version, so it includes rendering; no bound on rendering time is assumed.
- ProjectRepository.Repository.PublishProject: `updated_at` is not modelled, and the row locks taken by FOR UPDATE are represented by running each transaction in one piece.
- ProjectService.PublicAddressesConfirmed: GitHub's answer is one yes or no per call, and addresses and names are taken as already normalised.
- LoginLimiter.Limiter.CapacityRetry: the sort is modelled by ordered insertion; the order of equal deadlines does not matter to it.
- Articles.RunSound: the check constraints of the schema are not needed for it and are left out; an implementation that also enforces them only refuses more.
- ArticleStore.Open: what a storage key resolves to, if it stays inside the storage, is a parameter, and of the metadata only the path is returned.
- PageServer.Middleware: a response is reduced to status, body, tag, content type and 304.
- PageCache.RevalidationInRuns: pages stored before the run began are taken to carry the tag of their own version and body; the store itself asks only that a tag is there.
- SessionServer.Authenticate: decoding the client token, hashing it and the join with the accounts table are not modelled; the test of `revoked_at` after the query, which already filters on it, is left out as unreachable.
- SessionServer.Reauthenticate: the password check is a parameter, here and in Login; a failed rotation leaves its new session behind, as in the source.
- AdminSearch.PatternMeansContains: a collation is any relation between two single characters; contractions, where several characters compare as one, are not covered.
- Headings.UniqueHeadingID: the map from names to 1 is a set; the hexadecimal digest of a heading without words is a parameter of at least eight characters.
- captureWriter, header handling, cookies, routing and JSON decoding: plumbing around the modelled steps.
- Rounding of times to microseconds by the database, and time zones.
- A version value in Redis that is no number, and pages in Redis that do not decode.
- Overflow of 64-bit version counters and ranks.
- A commit that reports failure although it took effect.
- Pagination, dimension and size checks of images, storage of files, and pixel colour conversion.
- Parsing of GitHub addresses and configuration.
- Password hashing, random tokens, CSRF checks and ULID generation.
- Markdown parsing, highlighting, sanitising and preview text; the renderer is a function of the body.
- The administration frontend, the public site and deployment files.
