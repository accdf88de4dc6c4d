# Gateway state machines, modelled and proved in Dafny

The gateway puts one HTTP and realtime front over several document stores. It writes by hand a number of small
state machines whose laws can be stated exactly. This project models those machines and proves the laws. A document
store is a map from (collection, id) to a document, a document body is a map from names to JSON trees, clocks are
integers or reals passed in, and everything the gateway asks of the outside (engine commits, driver writes, user
lookups, token signing, random tokens and ids, hash map order) is a parameter.

`dafny verify dfyconfig.toml` checks the whole project.

| files | what they model |
|---|---|
| `Values.dfy`, `Text.dfy` | JSON trees, documents, stores, walks of hash maps; splitting, joining and ordering text |
| `Transactions.dfy` | batch operations and the in-memory reference driver, which works on a scratch copy and swaps it in |
| `HakoClaims.dfy`, `HakoDriver.dfy`, `HakoUnique.dfy` | the hako driver: claims on unique values; staged overlay and write buffer; what the shadow index keeps |
| `RethinkDriver.dfy` | the RethinkDB driver: emulated batch with an inverse log and rollback |
| `Realtime.dfy`, `RealtimeLaws.dfy` | one subscription: bus, driver feed and poll ticks over one snapshot |
| `Atomics.dfy`, `AtomicsLaws.dfy` | field-value sentinels and dot-path updates of a JSON tree |
| `Coalesce.dfy` | write coalescing: ack, fold, take in flight, write, requeue or drop |
| `RateLimit.dfy`, `Placement.dfy`, `LoginGuard.dfy` | token bucket with idle eviction; its shards; login lockout with eviction |
| `Sessions.dfy` | refresh sessions: login, rotation with a reuse trap, logout |
| `AliasTemplate.dfy`, `AliasLaws.dfy`, `AliasStructure.dfy` | alias templates: checker and substituter; what is accepted and put out; what JSON templates keep |
| `AliasQuery.dfy` | merging of an alias's query with the request's |
| `CivilDate.dfy`, `TokenDecode.dfy`, `Paging.dfy` | time stamps, base64url decoding, cursor paging |

Code that changes state in place is a class whose methods are proved against a specification function (`HakoStep`,
`IngestSnapshot`, `DiffSnapshot`, `Refreshes`, `CheckShard`, …); loops over text or maps are methods with loops. The
laws are then proved about those functions and about runs of them.

## How the specification is read

- A **run** is a sequence of steps from a start state; a law over runs is proved for all of them by induction.
- `Enumerates(order, keys)` says that `order` lists the elements of `keys`, each once. It stands for one walk of a
  hash map or hash set, whose order is not known; laws hold for every walk.
- Drivers' answers are inputs: `commitOk`, `fault(n)`, `get(k)`, `wrote`, `World`.

## Where the code and its own documentation part

Each promise that fails comes with the exact condition under which it holds, over all inputs or runs, and with a
concrete input or run on which it fails.

- `realtime.rs:581-585` says that a document which the verifying `get` finds is settled by the next diff. It is not:
  the snapshot takes the document at once, and while every lane goes on telling of that same document no event about
  it is sent (`SilentMoveExists`, `SilentMoveStaysSilent`). A tick's events rebuild the view exactly when no visible
  document moved so (`TickViewLaw`).
- `coalesce.rs:12-13` says read-your-write holds inside the window. A body that has been taken and not yet written is
  in neither the queue nor the store (`InFlightReadIsStale`). A read serves the acked fold exactly when nothing in
  flight would show (`ReadYourWritesIff`).
- `coalesce.rs:91-93` gives failed entries a retry budget. A failed write that finds a newer merge takes the new
  entry's count, so a document merged into while in flight is never dropped (`HotDocumentNeverDrops`). A failing write
  drops its document exactly when no merge waits and ten failures have been charged since the last such restart
  (`DropIff`).
- `db-rethinkdb/src/lib.rs:602-603` says reads observe the batch's own writes. A delete is not recorded in the overlay
  (656-666), so a read after it still sees the document (`ReadAfterDeleteIsStale`). The emulation is the reference
  exactly when phase one refuses, or no operation uses a key after a delete that found it and no must-exist put finds
  nothing (`EmulationIsReferenceIff`).
- `auth-local/src/lib.rs:300-301` says an old token showing up again revokes the user. It does so exactly while the
  token that replaced it is current (`CaughtIff`); once that one has been replaced too, the first is just refused
  (`OlderTokenIsForgotten`, `ForgottenTokenExists`). The store rotates before the user and the binding are looked at
  (322-343), so a client that retries after such a denial springs the trap itself (`DeniedRetryRevokes`).
- `atomics.rs:14` says that a union deduplicates. New elements are compared with the old array and not with each other
  (`UnionCanRepeat`; `UnionRepeatsIff` gives the condition).
- The update map is a hash map (`atomics.rs:194-198`) and its walk can decide the document: all walks agree, for every
  document and all values, exactly when no dot path runs through another (`WalksAgreeIff`).
- The limiter's eviction comment (`ratelimit/src/lib.rs:91`) takes an idle key to be worth nothing. Eviction never
  shows in a verdict, and the rate bound holds, exactly when ten minutes refill the burst (`EvictionNeverShowsIff`,
  `BoundedIffFits`, `FitsPerMinute`), wherever keys are placed. The told seconds always suffice (`RetryAfterIsHonest`);
  that one second less never does needs at most ten minutes told (`NotEarlierIff`), as per-minute quotas always do
  (`WaitsPerMinute`).
- `alias.rs:218-220` calls the substituter a mirror of the checker. It also wants no brace before the `=`, so the two
  can read one template in different modes (`ModesCanDiffer`). An accepted JSON template keeps its structure exactly
  when there is no such brace (`StructureSurvivesIff`); no accepted template panics all the same
  (`AcceptedNeverPanics`). Inside a literal the checker counts a slot whose brace is escaped, and the substituter
  copies it (`EscapedSlotIsCopied`): every slot is filled exactly when none is escaped (`SlotsLeftIff`).
- Paging by id looks at a body field named `id` before the document's id (`core/src/lib.rs:1200-1207`), so a body with
  one can trap a page walk (`BodyIdTrapsWalk`). Pages, and so the walk for every page size, are right exactly when each
  cursor value lies above the smaller ids and no other (`PagesRightIff`, `WalkRightIff`).

## Model

| member | source | states |
|---|---|---|
| `Transactions.MemDb.RunTransaction` | crates/hakobackend-core/src/lib.rs:1763-1801 | the loop over a scratch copy of the tables is the batch on the flat store; an error leaves every table as it was |
| `Transactions.MemDb.Apply` | crates/hakobackend-core/src/lib.rs:1769-1798 | one operation on nested tables is the operation on the flat store, opening of missing tables included |
| `Transactions.BatchByHistory` | crates/hakobackend-core/src/lib.rs:1769-1800 | a batch aborts exactly when some must-exist put finds nothing at its point; otherwise every result and every final document is that document's own history, so reads see the batch's writes |
| `Transactions.PutMembers` | crates/hakobackend-core/src/lib.rs:1782-1789 | which members a put leaves and where each comes from, with and without merge |
| `HakoClaims.KeysOfExact` | crates/hakobackend-db-hako/src/lib.rs:1205-1210 | the pairs a claim works on are exactly the declared fields with a key in the document |
| `HakoDriver.HakoDb.ClaimStaged` | crates/hakobackend-db-hako/src/lib.rs:1194-1241 | the closure keeps overlay and write buffer two pictures of one view, which moves as unlinking then linking says, or refuses |
| `HakoDriver.HakoDb.RunTransaction` | crates/hakobackend-db-hako/src/lib.rs:1165-1283 | over overlay and buffer the batch computes what it would on one flat view; any error or failed commit leaves documents and shadows unchanged |
| `HakoDriver.HakoDb.Set` | crates/hakobackend-db-hako/src/lib.rs:551-589 | a single put does what a batch of one does, on both branches, and fails as that does; the stored document has the new members, with `merge` also the old ones not named, every other document is as before, and its unique keys are linked to it |
| `HakoDriver.HakoDb.Delete` | crates/hakobackend-db-hako/src/lib.rs:591-614 | a committed delete leaves no document under the id, every other one as before, and no holder for its unique keys, on both branches; it returns the document that was there |
| `HakoClaims.StepEffect` | crates/hakobackend-db-hako/src/lib.rs:1242-1277 | what a put or a delete of a batch leaves, document by document and unique key by unique key |
| `HakoClaims.KeysTellValuesApart` | crates/hakobackend-db-hako/src/lib.rs:50-59 | only null has no key, and values of one key are equal wherever the printer tells them apart |
| `HakoClaims.DeclaredSidsDistinct` | crates/hakobackend-db-hako/src/lib.rs:32-34 | shadow ids tell (field, key) pairs apart for one declared field or NUL-free names |
| `HakoClaims.ClaimGranted` | crates/hakobackend-db-hako/src/lib.rs:1212-1240 | after a granted claim the new keys are held by the document, its dropped keys by nobody, all others as before |
| `HakoUnique.RefusedIffConflict` | crates/hakobackend-db-hako/src/lib.rs:1224-1232 | a claim is refused exactly when another document already has one of the keys |
| `HakoUnique.PutRefusedIffDuplicate` | crates/hakobackend-db-hako/src/lib.rs:1249-1268 | a put fails with AlreadyExists exactly when it would duplicate a unique value |
| `HakoUnique.StepKeepsExact` | crates/hakobackend-db-hako/src/lib.rs:1242-1277 | every operation of a batch keeps the shadow index exact |
| `HakoUnique.EveryCommittedStateIsExact` | crates/hakobackend-db-hako/src/lib.rs:1190-1281 | in every committed state of every run the shadow of (field, key) holds an id exactly when that document has that key, so no key has two documents |
| `HakoUnique.NoSharedValue` | crates/hakobackend-db-hako/src/lib.rs:1190-1193 | in every committed state two documents with one non-null value in a unique field are one document |
| `HakoUnique.BatchRefines` | crates/hakobackend-db-hako/src/lib.rs:1170-1281 | a batch is refused for uniqueness exactly when the reference run would duplicate a value; otherwise results, abort and final documents are the reference driver's |
| `HakoUnique.PlainBatchIsReference` | crates/hakobackend-db-hako/src/lib.rs:1170-1281 | without unique fields the staged overlay is scratch-and-swap: same results, same abort, same state |
| `RethinkDriver.RethinkDb.Gather` | crates/hakobackend-db-rethinkdb/src/lib.rs:610-625 | phase one refuses exactly when a must-exist put is its key's first mention on a missing document, else it holds the state of every key named |
| `RethinkDriver.RethinkDb.Rollback` | crates/hakobackend-db-rethinkdb/src/lib.rs:353-382 | the loop undoes the log from its last entry to its first |
| `RethinkDriver.RethinkDb.ApplyOp` | crates/hakobackend-db-rethinkdb/src/lib.rs:650-696 | each operation keeps the pre-batch store recoverable from the log, and a failed write changes nothing |
| `RethinkDriver.RethinkDb.RunTransaction` | crates/hakobackend-db-rethinkdb/src/lib.rs:607-698 | whichever write fails, the store is the pre-batch store; a batch that succeeds has the emulation's results and state |
| `RethinkDriver.MadeUpIdIsGiven` | crates/hakobackend-db-rethinkdb/src/lib.rs:667-693 | a put without an id is the put with the id made up for it |
| `RethinkDriver.WriteRecoverable` | crates/hakobackend-db-rethinkdb/src/lib.rs:656-693 | logging what the overlay showed is enough even where the overlay is out of date, repeated puts and deletes of one key included |
| `RethinkDriver.EmulationIsReferenceIff` | crates/hakobackend-db-rethinkdb/src/lib.rs:607-698 | for every batch whose ids are given, the emulation answers as the reference with stamps exactly when phase one refuses, or no operation uses a key after a delete that found it and no must-exist put finds nothing |
| `RethinkDriver.CleanBatchIsReference` | crates/hakobackend-db-rethinkdb/src/lib.rs:607-698 | so it does on every store for batches that use no key after its delete and put must-exist puts first on their keys |
| `RethinkDriver.ReadAfterDeleteIsStale` | crates/hakobackend-db-rethinkdb/src/lib.rs:652-666 | a read after a delete in one batch still returns the document, where the reference returns nothing |
| `Realtime.Subscription.IngestChange` | crates/hakobackend-server/src/realtime.rs:605-651 | new snapshot and the at most one event of a single change |
| `Realtime.Subscription.ApplyDiff` | crates/hakobackend-server/src/realtime.rs:537-603 | the snapshot becomes the fresh documents plus the missing keys that `get` found, at what it found, or failed on, as held; one event per key that owes one, in any walk |
| `Realtime.Subscription.VerifyKey` | crates/hakobackend-server/src/realtime.rs:574-596 | a missing key is taken over, kept or removed as the `get` says, and only a removal can send |
| `Realtime.Subscription.Resync` | crates/hakobackend-server/src/realtime.rs:255-270 | re-listing replaces one collection, and a failed list leaves the snapshot as it was |
| `RealtimeLaws.IngestLeaves` | crates/hakobackend-server/src/realtime.rs:605-651 | after a Remove its key is not held, after a put it is held with the body carried, and all else is as before |
| `RealtimeLaws.TickLeaves` | crates/hakobackend-server/src/realtime.rs:545-603 | after a tick listed keys are as listed; the others are as the `get` found them, as held where it failed, and gone where it found nothing |
| `RealtimeLaws.ResyncExact` | crates/hakobackend-server/src/realtime.rs:263-269 | after a re-list its collection is exactly the listed documents and no other collection changed |
| `RealtimeLaws.IngestKeepsView` | crates/hakobackend-server/src/realtime.rs:609-676 | the event of a change, played on what was visible, gives what is visible |
| `RealtimeLaws.TickViewLaw` | crates/hakobackend-server/src/realtime.rs:545-603 | a tick's events always fit the subscriber's view, and rebuild the visible snapshot exactly when the `get` moved nothing visible silently |
| `RealtimeLaws.RunViewLaw` | crates/hakobackend-server/src/realtime.rs:545-676 | over every run of changes, ticks and re-lists, failed ones always among them, that move nothing visible silently, replaying the events on the initially visible documents gives exactly what matches and the Get rule allows |
| `RealtimeLaws.RemoveOnlyWhenAbsent` | crates/hakobackend-server/src/realtime.rs:577-595 | a Remove for a key that a tick did not list is sent only when `get` found nothing, and carries the held document |
| `RealtimeLaws.SilentMoveStaysSilent` | crates/hakobackend-server/src/realtime.rs:581-585 | a silently taken document is held, and no later change, listing tick or tick that misses it while the `get` finds it or fails sends an event about it |
| `RealtimeLaws.SilentMoveExists` | crates/hakobackend-server/src/realtime.rs:581-585 | a concrete tick after which the events no longer rebuild the visible snapshot |
| `RealtimeLaws.LanesConverge` | crates/hakobackend-server/src/realtime.rs:545-651 | one put or delete carried by bus and tick, whatever else the tick carries: both orders and the tick alone reach one snapshot and send the same events, each once; a lane that repeats it changes and sends nothing |
| `RealtimeLaws.BusThenTickAt` | crates/hakobackend-server/src/realtime.rs:557-642 | after the bus a tick owes that key nothing and every other key what it owed before; what it owed the key was the bus's event |
| `RealtimeLaws.LoneCommit` | crates/hakobackend-server/src/realtime.rs:557-642 | when nothing else changed, the tick's one event is the bus's |
| `Atomics.ResolveDeepIdentity` | crates/hakobackend-core/src/atomics.rs:67-105 | resolving changes nothing in a tree without sentinels, at any depth |
| `Atomics.CreateFastPath` | crates/hakobackend-core/src/atomics.rs:129-146 | the insert path's early return equals the member-by-member path |
| `Atomics.UpdateFastPath` | crates/hakobackend-core/src/atomics.rs:251-257 | the merge path's shortcut for plain values equals resolving them |
| `Atomics.SetThenGet` | crates/hakobackend-core/src/atomics.rs:148-173 | a set value is read back at its path, and paths apart from it read as before |
| `Atomics.DeleteThenGet` | crates/hakobackend-core/src/atomics.rs:148-188 | a deleted path reads nothing, and paths apart from it read as before |
| `Atomics.DeleteNothing` | crates/hakobackend-core/src/atomics.rs:175-188 | a path that reads nothing deletes nothing and opens nothing |
| `Atomics.WalkGet` | crates/hakobackend-core/src/atomics.rs:148-154 | the pointer walk over the split path reads the tree at that path |
| `Atomics.WalkSet` | crates/hakobackend-core/src/atomics.rs:156-173 | the walk that opens missing members on its way down computes the recursive set |
| `Atomics.WalkDelete` | crates/hakobackend-core/src/atomics.rs:175-188 | the walk that gives up on a missing member computes the recursive delete |
| `Atomics.AnyWalkSameDocument` | crates/hakobackend-core/src/atomics.rs:192-263 | when no dot path runs through another, every walk of the update map gives the same document, for any mix of set, increment, union, remove and delete |
| `AtomicsLaws.WalksAgreeIff` | crates/hakobackend-core/src/atomics.rs:192-263 | for every set of keys, all walks of the map give one document, whatever the document and the values, exactly when no dot path runs through another |
| `Atomics.ApplyUpdate` | crates/hakobackend-core/src/atomics.rs:190-263 | the loop over the map applies each update once; the result depends on no walk when paths are apart, and is the shallow merge for plain bodies |
| `AtomicsLaws.OneUpdate` | crates/hakobackend-core/src/atomics.rs:198-257 | an update decides what its own path reads and no path apart from it |
| `AtomicsLaws.UnionAt` | crates/hakobackend-core/src/atomics.rs:215-229 | after an arrayUnion the path reads the array that was there followed by the named elements it did not hold, in order; it repeats nothing exactly when it did not and none of those is named twice |
| `AtomicsLaws.RemoveAt` | crates/hakobackend-core/src/atomics.rs:230-243 | after an arrayRemove the path reads the array that was there without the named elements, in order |
| `AtomicsLaws.SentinelAt` | crates/hakobackend-core/src/atomics.rs:200-214 | after a deleteField the path reads nothing, after a serverTimestamp the time, after an increment the old number plus its own, after a plain value that value |
| `AtomicsLaws.NestedAt` | crates/hakobackend-core/src/atomics.rs:244-257 | any other value leaves what it resolves to |
| `AtomicsLaws.ResolveThenGet` | crates/hakobackend-core/src/atomics.rs:84-105 | resolving a value and then reading a path is reading and then resolving, wherever no sentinel stands above |
| `AtomicsLaws.ResolvePieces` | crates/hakobackend-core/src/atomics.rs:86-89 | elements of an array resolve one by one, and those that resolve to nothing drop out |
| `AtomicsLaws.SentinelResolves` | crates/hakobackend-core/src/atomics.rs:107-127 | what each of the five sentinels resolves to on the insert path |
| `AtomicsLaws.IncrementsAdd` | crates/hakobackend-core/src/atomics.rs:203-214 | two increments of one path are one increment by the sum, from any document |
| `AtomicsLaws.UnionHolds` | crates/hakobackend-core/src/atomics.rs:215-229 | a union keeps the old array as its head and holds exactly the old and the new elements |
| `AtomicsLaws.UnionRepeatsIff` | crates/hakobackend-core/src/atomics.rs:220-227 | a union has no repeats exactly when the old array has none and no missing element is named twice |
| `AtomicsLaws.UnionCanRepeat` | crates/hakobackend-core/src/atomics.rs:220-227 | a new element named twice is put in twice |
| `AtomicsLaws.UnionTwice` | crates/hakobackend-core/src/atomics.rs:220-227 | a union done again changes nothing |
| `AtomicsLaws.WithoutHolds` | crates/hakobackend-core/src/atomics.rs:230-243 | a remove keeps exactly the elements it does not name |
| `AtomicsLaws.WithoutPieces` | crates/hakobackend-core/src/atomics.rs:240-241 | a remove works piece by piece, so what stays keeps its order |
| `AtomicsLaws.CreateAgreesWithUpdate` | crates/hakobackend-core/src/atomics.rs:129-263 | inserting a body with dot-free keys equals merging it into an empty document exactly when every increment carries a number and every union an array, or nothing |
| `Coalesce.Coalescer.Merge` | crates/hakobackend-server/src/coalesce.rs:64-73 | a body is folded over the pending one, or starts an entry |
| `Coalesce.Coalescer.Overlay` | crates/hakobackend-server/src/coalesce.rs:75-89 | there is a view exactly when a body is pending, and what the caller then serves is the read view of the system, the one `ReadYourWritesIff` is about |
| `Coalesce.Coalescer.TakeDue` | crates/hakobackend-server/src/coalesce.rs:99-112 | exactly the entries at least 100 ms old leave the queue, each once and as it was, in some walk; the others stay |
| `Coalesce.Coalescer.Settle` | crates/hakobackend-server/src/coalesce.rs:114-147 | a failed body goes back underneath newer merges, or is requeued, or is dropped |
| `Coalesce.FlushTakesTheAged` | crates/hakobackend-server/src/coalesce.rs:64-139 | over every run a flush takes a queued document exactly when the merge or the requeue that made its entry was at least 100 ms before, whatever was merged since |
| `Coalesce.EligibleIsPlain` | crates/hakobackend-server/src/coalesce.rs:49-61 | an eligible body has no dot path and no sentinel at any depth |
| `Coalesce.ScalarsAreEligible` | crates/hakobackend-server/src/coalesce.rs:49-61 | bodies of numbers, truth values and nulls are eligible |
| `Coalesce.Conservation` | crates/hakobackend-server/src/coalesce.rs:66-149 | over every interleaving, stored, in-flight and pending bodies stacked are the acked merges folded in ack order, since the last drop |
| `Coalesce.DropAfterBudget` | crates/hakobackend-server/src/coalesce.rs:124-144 | a body is dropped only after at least ten failed writes in a row |
| `Coalesce.DropIff` | crates/hakobackend-server/src/coalesce.rs:114-145 | over every run a failing write leaves its document in neither queue nor flight exactly when no merge waits and ten failures are charged: successes and empty bodies start over, a failure under a newer merge starts at one |
| `Coalesce.HotDocumentNeverDrops` | crates/hakobackend-server/src/coalesce.rs:124-132 | for every n there is a run with n failed writes in a row and the document still queued with at most one failure counted |
| `Coalesce.ReadYourWritesIff` | crates/hakobackend-server/src/coalesce.rs:75-149 | a read serves the acked fold exactly when every member in flight is shadowed or already stored; with nothing in flight it always does |
| `Coalesce.InFlightReadIsStale` | crates/hakobackend-server/src/coalesce.rs:99-119 | a run in which a read misses an acked write |
| `Coalesce.FoldIsExact` | crates/hakobackend-server/src/coalesce.rs:51-73 | eligible bodies, and any without dot paths and sentinels, applied one by one, their fold applied once, and a shallow merge are one document, for every walk |
| `RateLimit.Limiter.Check` | crates/hakobackend-ratelimit/src/lib.rs:85-114 | one call does to the key's shard what the bucket law says, and leaves every other shard alone |
| `RateLimit.CheckEffect` | crates/hakobackend-ratelimit/src/lib.rs:92-113 | a check passes exactly when a token is there, spends it, answers with the wait otherwise, and changes no other key's tokens at any later time, eviction included |
| `RateLimit.EvictionKeepsPotential` | crates/hakobackend-ratelimit/src/lib.rs:91-94 | where ten minutes refill the burst, eviction leaves every key the tokens it would have found |
| `RateLimit.ShardsAreApart` | crates/hakobackend-ratelimit/src/lib.rs:34-56 | over every run each shard's state and verdicts come from its own keys' checks alone, for any placement |
| `RateLimit.LimiterWindowBound` | crates/hakobackend-ratelimit/src/lib.rs:87-114 | where ten minutes refill the burst, over every run of the law `check` applies, on all shards, a key is admitted at most burst + rate * (t2 - t1) times in [t1, t2] |
| `RateLimit.PerMinuteBound` | crates/hakobackend-ratelimit/src/lib.rs:19-23 | `per_minute(n, burst)` with 1 <= burst <= 10 n admits at most burst + n * (t2 - t1) / 60 checks of a key in [t1, t2], over every run |
| `RateLimit.WhoStays` | crates/hakobackend-ratelimit/src/lib.rs:89-97 | a check keeps every other key and its bucket, unless a newcomer meets a full shard: then those idle for ten minutes go |
| `RateLimit.EvictionNeverShowsIff` | crates/hakobackend-ratelimit/src/lib.rs:48-94 | wherever keys are placed, no verdict of any run of the limiter depends on the capacity, and so on eviction, exactly when ten minutes refill the burst |
| `RateLimit.RetryAfterIsHonest` | crates/hakobackend-ratelimit/src/lib.rs:107-113 | for the law `check` applies and any quota with a burst of at least one, a caller told s seconds passes after s seconds whatever other keys do meanwhile; for s > 1 it is rejected one second earlier when no other key checks or at most ten minutes were told |
| `RateLimit.NotEarlierIff` | crates/hakobackend-ratelimit/src/lib.rs:91-113 | one second early a caller is rejected whatever other keys do, exactly when at most ten minutes were told, on a shard that never runs out of keys |
| `Placement.SomeShardIsEndless` | crates/hakobackend-ratelimit/src/lib.rs:42-56 | however keys are placed on finitely many shards, one shard has a key outside any finite set |
| `Placement.EveryShardIsEndless` | crates/hakobackend-ratelimit/src/lib.rs:48-56 | under FNV-1a of the key every one of the sixteen shards has a key outside any finite set |
| `RateLimit.WaitsFitIff` | crates/hakobackend-ratelimit/src/lib.rs:111-112 | no rejection tells more than ten minutes exactly when ten minutes refill a token |
| `RateLimit.WaitsPerMinute` | crates/hakobackend-ratelimit/src/lib.rs:19-23 | under a per-minute quota nobody is told more than sixty seconds |
| `RateLimit.ReachedIsSound` | crates/hakobackend-ratelimit/src/lib.rs:87-113 | in every state of every run each bucket holds between zero and burst tokens and was not touched later than now, whatever the quota |
| `RateLimit.BoundedIffFits` | crates/hakobackend-ratelimit/src/lib.rs:48-110 | wherever keys are placed, the rate bound holds of every run of the limiter exactly for the quotas whose burst refills within the idle time |
| `RateLimit.FitsPerMinute` | crates/hakobackend-ratelimit/src/lib.rs:19-23 | for a per-minute quota that is a burst of at most ten times the rate |
| `LoginGuard.Guard.Fail` | crates/hakobackend-server/src/loginguard.rs:84-123 | a failure is recorded, and is answered with the window exactly on the step from free to locked |
| `LoginGuard.Guard.Locked` | crates/hakobackend-server/src/loginguard.rs:68-82 | on the entries of any history, an answer exactly when the history locks the login, and then the whole seconds to one window after its last failure |
| `LoginGuard.LockedIffHistory` | crates/hakobackend-server/src/loginguard.rs:70-132 | after every history a login is locked exactly when its trailing run of close failures since the last clear is long enough and less than a window has passed |
| `LoginGuard.LockedForTheRest` | crates/hakobackend-server/src/loginguard.rs:80-81 | a locked caller is told the whole seconds left, at least one |
| `LoginGuard.CapacityNeverShows` | crates/hakobackend-server/src/loginguard.rs:95-98 | after every history, guards of any two capacities give the same answer |
| `Sessions.LocalAuth.Mint` | crates/hakobackend-auth-local/src/lib.rs:174-200 | a session under its new id, refused if the id is taken |
| `Sessions.LocalAuth.RefreshClassified` | crates/hakobackend-auth-local/src/lib.rs:300-354 | which session rotates, ends or brings its user down, and the labelled answer |
| `Sessions.LocalAuth.RevokeUser` | crates/hakobackend-auth-local/src/lib.rs:414-425 | the loop ends exactly the sessions whose user it is, and leaves every other as it was |
| `Sessions.LocalAuth.Logout` | crates/hakobackend-auth-local/src/lib.rs:368-373 | ends one session that holds the token as current, or nothing |
| `Sessions.StepKeeps` | crates/hakobackend-auth-local/src/lib.rs:174-425 | every step keeps recorded hashes distinct and owned by their user, and only a token made in a step can become current in it |
| `Sessions.AcceptedIff` | crates/hakobackend-auth-local/src/lib.rs:310-347 | a token is accepted exactly when it is the current one of a session that has not reached its end and the user and the binding are in order; that session alone goes on, for the same user until the same time; an expired one ends |
| `Sessions.UnknownIsRefused` | crates/hakobackend-auth-local/src/lib.rs:348-353 | a token that is neither current nor just replaced is refused and changes nothing |
| `Sessions.AcceptedAtMostOnce` | crates/hakobackend-auth-local/src/lib.rs:304-354 | over every run no refresh token is accepted twice |
| `Sessions.ReuseEndsUser` | crates/hakobackend-auth-local/src/lib.rs:348-352 | presenting the just-replaced token of a live session ends every session of that user, and every session of another user stays as it was |
| `Sessions.ReuseSparesOthers` | crates/hakobackend-auth-local/src/lib.rs:348-352 | over every run a reuse leaves current every token that is current for another user |
| `Sessions.ReuseIsFinal` | crates/hakobackend-auth-local/src/lib.rs:348-353 | after such a reuse no token that user held by then is ever accepted again |
| `Sessions.CaughtIff` | crates/hakobackend-auth-local/src/lib.rs:310-353 | over every run a token presented again after a refresh replaced it, accepted or denied after the rotation, is caught as reuse exactly while its successor is current, so always right after; otherwise it is refused and nothing changes |
| `Sessions.AcceptedCaughtIff` | crates/hakobackend-auth-local/src/lib.rs:310-353 | the case of a refresh that was accepted |
| `Sessions.DeniedRetryRevokes` | crates/hakobackend-auth-local/src/lib.rs:322-352 | a refresh denied for its user or its binding has rotated, and presenting the token again ends every session of the user |
| `Sessions.LogoutIsFinal` | crates/hakobackend-auth-local/src/lib.rs:368-373 | logging out ends exactly the session of that token, which is never accepted again |
| `Sessions.OlderTokenIsForgotten` | crates/hakobackend-auth-local/src/lib.rs:348-353 | over every run a token whose successor was replaced too is refused, however much later, and revokes nothing |
| `Sessions.ForgottenTokenExists` | crates/hakobackend-auth-local/src/lib.rs:348-353 | a concrete run of a login, two rotations and the first token once more, which is refused while the session lives on |
| `AliasTemplate.BalancedBraces` | crates/hakobackend-server/src/alias.rs:76-105 | the character loop decides brace balance outside string literals |
| `AliasStructure.BalanceIff` | crates/hakobackend-server/src/alias.rs:76-105 | a text is balanced exactly when its last literal closes and, outside literals, no prefix closes more braces than it opens and all are closed |
| `AliasLaws.JsonModeIff` | crates/hakobackend-server/src/alias.rs:62-74 | only a template with an `=` can be JSON; its first one splits it, and what follows, trimmed, starts and ends with braces and is balanced |
| `AliasLaws.TrimCore` | crates/hakobackend-server/src/alias.rs:67 | trimming leaves no white space at the ends, and ASCII white space is the six usual characters |
| `AliasTemplate.CheckJsonLoop` | crates/hakobackend-server/src/alias.rs:107-152 | the byte loop checks the slots of every literal, one literal after the other |
| `AliasTemplate.CheckSlotsLoop` | crates/hakobackend-server/src/alias.rs:154-170 | the index loop checks every slot from left to right |
| `AliasTemplate.SubstituteBareLoop` | crates/hakobackend-server/src/alias.rs:295-308 | the index loop puts out the recursive substitution, when no slot is left open |
| `AliasTemplate.SubstituteJsonLoop` | crates/hakobackend-server/src/alias.rs:237-278 | the byte loop puts out the substitution of every literal |
| `AliasTemplate.EncodeInto` | crates/hakobackend-server/src/alias.rs:280-293 | the buffer grows by the percent-encoding of the capture |
| `AliasLaws.BareAcceptedIff` | crates/hakobackend-server/src/alias.rs:154-170 | a bare template is accepted exactly when the substituter gets through it and every slot names a capture |
| `AliasLaws.JsonAcceptedIff` | crates/hakobackend-server/src/alias.rs:107-152 | a JSON value is accepted exactly when every literal closes, every slot in a literal closes in it, and each names a capture |
| `AliasLaws.RefusalTells` | crates/hakobackend-server/src/alias.rs:154-170 | a refusal for a name tells a slot that names no capture |
| `AliasLaws.AcceptedNeverPanics` | crates/hakobackend-server/src/alias.rs:62-308 | every template accepted at load substitutes without a panic, even where the two sides choose different modes |
| `AliasLaws.BareSlot` | crates/hakobackend-server/src/alias.rs:295-308 | a bare slot becomes its encoded capture, or nothing, and the text before it stays |
| `AliasLaws.BareLeavesNoSlot` | crates/hakobackend-server/src/alias.rs:295-308 | a substituted bare template has no opening brace left, whatever the captures |
| `AliasStructure.InsideSlot` | crates/hakobackend-server/src/alias.rs:250-274 | the first slot after any text of a literal: with its brace escaped the brace stays; else a slot that names a capture becomes it, encoded, and one that does not stays |
| `AliasStructure.SlotsLeftIff` | crates/hakobackend-server/src/alias.rs:107-278 | in an accepted JSON template with no brace before its `=`, no opening brace is left in a literal exactly when no slot the checker counts has its brace escaped, for all captures |
| `AliasStructure.EscapedSlotIsCopied` | crates/hakobackend-server/src/alias.rs:253-258 | a concrete accepted template that is put out with its slot as it stands |
| `AliasStructure.OutsideIsVerbatim` | crates/hakobackend-server/src/alias.rs:243-248 | text outside literals is copied, braces included |
| `AliasLaws.EncodeRoundTrip` | crates/hakobackend-server/src/alias.rs:280-293 | percent-decoding (RFC 3986 section 2.1) gives back the capture's bytes |
| `AliasLaws.EncodeIsInert` | crates/hakobackend-server/src/alias.rs:281-292 | an encoded capture holds only unreserved characters (RFC 3986 section 2.3) and `%` |
| `AliasLaws.EncodeByteExact` | crates/hakobackend-server/src/alias.rs:284-291 | unreserved characters stand for themselves, any other byte becomes `%` and two upper-case hex digits |
| `AliasStructure.StructureSurvives` | crates/hakobackend-server/src/alias.rs:217-278 | an accepted JSON template with no brace before its `=` keeps its head, all text outside literals, the literal boundaries and the brace balance, whatever the captures |
| `AliasStructure.StructureSurvivesIff` | crates/hakobackend-server/src/alias.rs:62-235 | whatever the captures, some `=` of an accepted JSON template's output is followed by the value's text outside literals exactly when no brace stands before the template's `=` |
| `AliasStructure.ModesCanDiffer` | crates/hakobackend-server/src/alias.rs:62-74 | an instance for every capture: the checker reads JSON, the substituter bare text, and the structure is gone |
| `AliasQuery.MergedReads` | crates/hakobackend-server/src/alias.rs:355-393 | through the real split and join, a reader of the merged query sees the request's value, else the alias's; for `db` the alias's first |
| `AliasQuery.KeyOfPair` | crates/hakobackend-server/src/alias.rs:355-393 | a pair's key is what stands before its first `=`, or all of it |
| `CivilDate.CopiesAgree` | crates/hakobackend-server/src/audit.rs:72-82 | the truncating and the flooring copy give the same date for every day number |
| `CivilDate.CivilIsDate` | crates/hakobackend-core/src/atomics.rs:46-59 | every day number is a date of the Gregorian calendar |
| `CivilDate.FirstDay` | crates/hakobackend-core/src/atomics.rs:47-59 | day 0 is 1970-01-01 |
| `CivilDate.CivilSuccessor` | crates/hakobackend-core/src/atomics.rs:47-59 | the day after is the next date of the calendar, for every day number |
| `CivilDate.ClockRebuilds` | crates/hakobackend-core/src/atomics.rs:49-60 | the clock fields are in range and rebuild the second count |
| `CivilDate.CopiesStampAlike` | crates/hakobackend-server/src/audit.rs:66-85 | both copies take the same date and clock from every count |
| `CivilDate.PadExact` | crates/hakobackend-core/src/atomics.rs:60 | a padded field keeps its width, is all digits, and spells its number |
| `CivilDate.StampShape` | crates/hakobackend-core/src/atomics.rs:60 | up to year 9999 a stamp is the twenty characters of RFC 3339 section 5.6, and its six fields are digits that spell the date and the clock of its count |
| `CivilDate.StampOrder` | crates/hakobackend-core/src/atomics.rs:46-61 | up to year 9999 stamps sort as text in time order |
| `TokenDecode.FeedBits` | crates/hakobackend-server/src/tokcache.rs:96-102 | six bits in, at most one byte out; fewer than eight bits stay, below 2^nbits |
| `TokenDecode.B64UrlDecode` | crates/hakobackend-server/src/tokcache.rs:84-105 | the loop over the bit buffer computes the decoding, with the buffer bounds at every loop head |
| `TokenDecode.RoundTrip` | crates/hakobackend-server/src/tokcache.rs:73-105 | decoding the padded or unpadded base64url encoding (RFC 4648 section 5) gives back every non-empty byte string |
| `TokenDecode.DecodesIff` | crates/hakobackend-server/src/tokcache.rs:84-105 | which texts decode, and to how many bytes |
| `Paging.SortAscends` | crates/hakobackend-core/src/lib.rs:1243-1267 | the id sort puts distinct ids in ascending order and loses no document |
| `Paging.CursorIsInterval` | crates/hakobackend-core/src/lib.rs:1193-1223 | string bounds cut an interval of ids, open or closed at each end as its kind says |
| `Paging.CursorIsNumberInterval` | crates/hakobackend-core/src/lib.rs:1193-1223 | number bounds cut an interval of the numbers in a body's `id` |
| `Paging.CmpJsonExact` | crates/hakobackend-core/src/lib.rs:1144-1154 | numbers and truth values compare among themselves; values of different kinds do not compare unless equal |
| `Text.LessIff` | crates/hakobackend-core/src/lib.rs:1149 | text order is the order of dictionaries |
| `Paging.OffsetIsSlice` | crates/hakobackend-core/src/lib.rs:1230-1238 | offset m and limit n cut the documents from m on, n of them or those that are left |
| `Paging.OffsetPagesJoin` | crates/hakobackend-core/src/lib.rs:1230-1238 | two offset pages in a row are the one page that spans them |
| `Paging.PageIsNextSlice` | crates/hakobackend-core/src/lib.rs:1188-1269 | where cursor values follow the ids, the page after the first k documents in id order is the next slice of that order |
| `Paging.PagesRightIff` | crates/hakobackend-core/src/lib.rs:1193-1269 | for distinct ids and any one page size, every page is the next slice exactly when each cursor value lies above the smaller ids and above no other |
| `Paging.WalkRightIff` | crates/hakobackend-server/src/bench.rs:147-169 | for distinct ids, the walk ends with every document in id order for every page size, and already for pages of one, exactly under the same condition |
| `Paging.NoOtherIdFollows` | crates/hakobackend-core/src/lib.rs:1200-1207 | bodies with no `id` field, or with the document's own id in it, meet that condition |
| `Paging.WalkPages` | crates/hakobackend-server/src/bench.rs:147-164 | for any way of fetching pages, the loop collects what the recursive walk collects whenever that ends |
| `Paging.CursorWalk` | crates/hakobackend-server/src/bench.rs:147-169 | where cursor values follow the ids, for any page size the walk ends and has visited every document exactly once, in id order; it fails exactly when there is none |
| `Paging.BodyIdTrapsWalk` | crates/hakobackend-core/src/lib.rs:1200-1207 | a body field named `id` can trap the walk: it has not ended after any number of pages |

## Left out

- HakoDriver: the printed text of a number, a boolean or a tree is a parameter (`Printer`), and so is the engine's
  encoding of documents and vector fields; commits are serial, and the declared unique fields do not change.
- HakoUnique.EveryCommittedStateIsExact: batches name no `__uniq_` collection, which the HTTP layer refuses.
- RethinkDriver.EmulationIsReferenceIff: batches with made-up ids are excluded, since the reference takes an empty id
  as it is.
- RethinkDriver.RethinkDb.RunTransaction: undo writes are taken to succeed and no other writer interleaves; a failed
  read in phase one, creation of missing tables and connection retries are not modelled. A put of a made-up id that is
  already taken fails like any write.
- Realtime: snapshot keys are pairs, where the code joins collection and id with NUL; filters and cursor are one
  predicate on documents and the Get rule one predicate on (collection, id), as `crates/hakobackend-policy/src/lib.rs`
  464-496 decides Get from those alone; a closed channel, the flood gate and the mapping of logical names are not part
  of this model.
- AtomicsLaws.IncrementsAdd: numbers are integers, where the code adds 64-bit floats, which can round, and casts the
  sum.
- Atomics: equal JSON texts are equal values, as they are for integers. `updatedAt` and `createdAt` stamping is left out.
- AtomicsLaws.CreateAgreesWithUpdate: keys with dots are excluded, since only the merge path reads them as paths.
- Coalesce: the scan for the sentinel marker looks at member names and strings of the tree, where the code looks at
  its printed text; one flusher runs, a failed write has no effect, and ineligible bodies, which are written directly,
  the bus and the shutdown flush are not part of this model.
- RateLimit: times and tokens are reals; a rate of zero, which callers bypass, and a quota replaced in mid-run are left
  out.
- LoginGuard: times are reals and do not go back.
- Sessions: one call at a time; hashing is injective and tokens and session ids are fresh; a database error is not
  modelled, nor are passwords, access tokens and proof binding beyond their yes or no (`World`).
- AliasTemplate: templates are ASCII. A JSON template with other characters is put out byte by byte as if each were a
  character, which this model does not show. The nesting depth does not overflow.
- AliasTemplate.SubstituteBareLoop: requires what the checker guarantees, that no slot is left open; the panic is the
  `None` of `SubstituteBare`.
- CivilDate: the clock read and its fallback to 0; second counts are not bounded by 64 bits.
- TokenDecode: the surrounding token cache and its eviction.
- Paging: filters, and sorting by fields other than `id`.
- SQL drivers, RethinkDB list and count pushdown, vector and graph search, socket sync, files, identity providers and
  configuration.
