# Block explorer backend and front-end router — a Dafny model

This project models the core of a small blockchain-explorer web application. It has three parts.

- **The API worker.** Four route groups run over a SQLite (D1) database of six tables:
  - `blockchain`: blocks, chain statistics and chain forks;
  - `transactions`: listing, creation, patching, a summary and the pending mempool;
  - `analytics`: user interactions and per-session mining statistics;
  - `nodes`: network nodes, heartbeats, network statistics and an inactivity sweep.
- **The static-asset handler** of the combined worker. It rewrites request paths for single-page-app routing, derives the storage key, and picks the `Content-Type` and `Cache-Control` headers.
- **The front end's view router.** It has two views, `home` and `explorer`, and a browser history.

The database is a `Schema.Database` object whose six fields are the tables, each a sequence of rows in insertion order. Its invariant `Valid` holds two things:
- the four UNIQUE columns (`blocks.hash`, `transactions.hash`, `nodes.nodeId`, `chainForks.forkId`);
- the foreign key from `transactions.blockHash` to `blocks.hash`.

Handlers that write are methods with `modifies` frames on the tables they touch. Each states the response and the new table for every outcome: 201, 200, 400, 404 and 500. Read-only handlers are functions.

The SQL each handler issues is built from a small query algebra in `Query`:
- `Filter`/`FindFirst` for WHERE;
- `SortDesc` for ORDER BY ... DESC;
- `Page` for LIMIT/OFFSET, with SQLite's treatment of negative values, and `Listing` for ORDER BY ... DESC LIMIT ... OFFSET as the query builder emits it: a negative limit is left out of the statement, so together with a non-zero offset it leaves an OFFSET without a LIMIT, which SQLite refuses (the handler's 500);
- `Count`, `SqlCount`, `Sum` and `SqlMax` for aggregates, where a `sum` over no rows is NULL;
- `UpdateWhere` for UPDATE.

Handlers receive the current time as `now`. Query-string numbers are `Option<int>`, where `None` means missing or not a number.

Files: `wrappers.dfy` (Option), `query.dfy`, `schema.dfy`, `blockchain.dfy`, `transactions.dfy`, `analytics.dfy`, `nodes.dfy`, `static_assets.dfy`, `router.dfy`.

## Model

| member | source | states |
|---|---|---|
| Query.NumberOr | api/src/routes/blockchain.ts:36-37 | `Number(q) \|\| d`: missing, non-numeric and 0 give the default; any other number, negative ones included, passes through |
| Query.Page | api/src/routes/blockchain.ts:45-48 | LIMIT/OFFSET: at most `limit` rows when `limit >= 0`; the result is the contiguous slice after the skipped rows, with its exact length; a negative offset skips nothing and a negative limit takes everything |
| Query.Listing | api/src/routes/blockchain.ts:45-48 | the statement fails exactly when the limit is negative and the offset non-zero; otherwise `PageSize` rows in non-increasing key order |
| Query.ListingIsPage | api/src/routes/blockchain.ts:45-48 | a listing is the page at `offset` of some non-increasing ordering of all the rows |
| Query.ListingWithin | api/src/routes/blockchain.ts:45-48 | every listed row is a row of the table |
| Query.ListingFirstPage | api/src/routes/blockchain.ts:45-48 | without an offset no row left out has a larger key than a listed one, and a limit covering the table lists every row |
| Query.Top | api/src/routes/blockchain.ts:134-138 | ORDER BY key DESC LIMIT n: `min(n, rows)` rows in non-increasing key order |
| Query.TopWithin | api/src/routes/blockchain.ts:134-138 | the top rows are rows of the table |
| Query.TopRanks | api/src/routes/blockchain.ts:134-138 | no row left out has a larger key than a row returned |
| Query.SqlCount | api/src/routes/transactions.ts:146-149 | `sum(case when p then 1 else 0 end)` is NULL exactly on an empty table, and otherwise the number of rows satisfying `p` |
| Query.SqlMaxIsMax | api/src/routes/blockchain.ts:129 | `max(height)` over a group is attained by a row of the group and bounds every row of it |
| Query.UpdateWhereChanges | api/src/routes/nodes.ts:199-205 | an UPDATE that changes every row it matches changes exactly as many rows as it matches |
| Schema.ParseStatus | api/src/db/schema.ts:28 | the status enum accepts exactly `pending`, `confirmed` and `failed` |
| Schema.StatusNameRoundTrip | api/src/db/schema.ts:28 | status names and their parse are inverse to each other |
| Schema.ParseInteractionType | api/src/db/schema.ts:37 | the interaction type enum accepts exactly `click`, `transaction` and `mining_boost` |
| Schema.InteractionTypeNameRoundTrip | api/src/db/schema.ts:37 | interaction type names and their parse are inverse to each other |
| Schema.ParseNodeType | api/src/db/schema.ts:60 | the node type enum accepts exactly the four node types |
| Schema.NodeTypeNameRoundTrip | api/src/db/schema.ts:60 | node type names and their parse are inverse to each other |
| Schema.Database.constructor | api/src/db/schema.ts:5-78 | an empty database satisfies the uniqueness and foreign-key invariant |
| Blockchain.ValidBlockInput | api/src/routes/blockchain.ts:15-24 | `createBlockSchema`: non-empty hash, previous hash and chain id, a height of at least 0, a transaction count of at least 0 when given; anything else is the 400 of `CreateBlock` |
| Blockchain.NewBlockRow | api/src/routes/blockchain.ts:89-92 | the inserted block has the given hash, previous hash, height, chain id, miner address, difficulty and nonce, `timestamp = now`, and `transactionCount` defaulting to 0 (schema.ts:12) |
| Blockchain.ChainBlocks | api/src/routes/blockchain.ts:41-43 | a block is selected exactly when it is stored and, when `chainId` is non-empty, on that chain |
| Blockchain.ListBlocks | api/src/routes/blockchain.ts:34-59 | `limit`/`offset` default to 10/0; 500 exactly when the limit is negative and the offset non-zero; otherwise exactly `PageSize` of the selected blocks, all stored and on the given chain, highest first |
| Blockchain.ListBlocksIsPage | api/src/routes/blockchain.ts:40-48 | the listed blocks are the page at `offset` of the selected blocks in some highest-first order |
| Blockchain.FirstBlocksAreHighest | api/src/routes/blockchain.ts:40-48 | without an offset no selected block left out is higher than a listed one, and a limit covering the chain lists all of its blocks |
| Blockchain.GetBlock | api/src/routes/blockchain.ts:62-81 | 404 exactly when no block has the hash; otherwise a stored block with that hash |
| Blockchain.CreateBlock | api/src/routes/blockchain.ts:84-114 | 400 on a bad body; 500 with no change on a duplicate hash; otherwise one row appended and the fork whose `forkId` is the chain id bumped; the invariant is kept |
| Blockchain.CreatedBlockIsFound | api/src/routes/blockchain.ts:94-97 | a created block is what a lookup of its hash returns next |
| Blockchain.BumpForkChangesOne | api/src/routes/blockchain.ts:100-107 | the fork update changes exactly one row when the fork exists and none otherwise |
| Blockchain.BumpForkRows | api/src/routes/blockchain.ts:101-106 | the matching fork gains exactly one block; every other fork is unchanged |
| Blockchain.BumpForkTotal | api/src/routes/blockchain.ts:104 | the sum of `totalBlocks` over all forks grows by one when the fork exists |
| Blockchain.BumpForkKeepsKeys | api/src/routes/blockchain.ts:101-106 | the fork update keeps `forkId` unique |
| Blockchain.GroupByChain | api/src/routes/blockchain.ts:125-132 | GROUP BY chainId: at most one group per block, and at least one group when there are blocks |
| Blockchain.CountInto | api/src/routes/blockchain.ts:128-129 | adding a block to its chain's group raises the count by one and keeps the maximum height a maximum |
| Blockchain.GroupByChainDescribes | api/src/routes/blockchain.ts:125-132 | GROUP BY chainId yields one group per chain present; each group's count and max height match the blocks of that chain; the counts add up to all blocks |
| Blockchain.GroupMeaning | api/src/routes/blockchain.ts:128-129 | every group has at least one block, and its max height is attained and never exceeded |
| Blockchain.ChainStatistics | api/src/routes/blockchain.ts:117-149 | `totalBlocks` is the number of blocks and equals the sum of the group counts; the groups describe the chains; `recentBlocks` are the top 5 by timestamp |
| Blockchain.RecentBlocksAreNewest | api/src/routes/blockchain.ts:134-138 | recent blocks are stored blocks, and no block left out is newer than one listed |
| Blockchain.ValidForkInput | api/src/routes/blockchain.ts:26-31 | `createForkSchema`: non-empty fork id and parent chain id, a fork height of at least 0; anything else is the 400 of `CreateFork` |
| Blockchain.NewForkRow | api/src/routes/blockchain.ts:173-176 | a new fork keeps the given `forkId`, `parentChainId` and `forkHeight`, has `totalBlocks = 0`, no resolution time, and `isMainChain` as given or false (schema.ts:74) |
| Blockchain.ListForks | api/src/routes/blockchain.ts:152-165 | all forks, newest first |
| Blockchain.CreateFork | api/src/routes/blockchain.ts:168-188 | 400 on a bad body; 500 with no change on a duplicate `forkId`; otherwise one row appended |
| Blockchain.CreateForkCanAddSecondMainChain | api/src/routes/blockchain.ts:168-188 | creating a fork with `isMainChain: true` next to an existing main chain leaves two main chains |
| Blockchain.ClearMainChains | api/src/routes/blockchain.ts:196-199 | the first UPDATE: no fork is main afterwards, and every other column of every fork is kept |
| Blockchain.MarkMainChain | api/src/routes/blockchain.ts:201-209 | the second UPDATE: the fork with the id becomes main with `resolvedAt = now`, other columns kept; every other fork is unchanged |
| Blockchain.ResolveRows | api/src/routes/blockchain.ts:197-209 | after resolving, only the named fork is main and stamped with `now`; other forks only lose the main flag |
| Blockchain.ResolveLeavesOneMainChain | api/src/routes/blockchain.ts:197-209 | after resolving there is exactly one main chain when the fork exists, and none otherwise |
| Blockchain.ResolveKeepsKeys | api/src/routes/blockchain.ts:197-209 | resolving keeps `forkId` unique and keeps the set of fork ids |
| Blockchain.ResolveFork | api/src/routes/blockchain.ts:191-219 | clears every main flag, then sets the named fork; 404 exactly when it does not exist (all forks are then non-main); otherwise 200 with the resolved fork |
| Transactions.BuildConditions | api/src/routes/transactions.ts:42-48 | the conditions array: a status condition when `status` is non-empty, then always the `userCreated` condition |
| Transactions.ListWhere | api/src/routes/transactions.ts:50-52 | a row is kept exactly when it satisfies every condition |
| Transactions.ListTransactions | api/src/routes/transactions.ts:32-68 | `limit`/`offset` default to 20/0; 500 exactly when the limit is negative and the offset non-zero; otherwise exactly `PageSize` of the matching transactions, newest first |
| Transactions.ConditionsMean | api/src/routes/transactions.ts:40-52 | the collected conditions hold of a transaction exactly when it has the requested status (if any) and the requested `userCreated` flag |
| Transactions.FirstTransactionsAreNewest | api/src/routes/transactions.ts:50-57 | without an offset no matching transaction left out is newer than a listed one, and with a limit of at least the number of matches every matching transaction is listed |
| Transactions.ListedTransactionsMatch | api/src/routes/transactions.ts:36-57 | listed rows are stored, have the requested status, and have `userCreated` equal to `query('userCreated') === 'true'` |
| Transactions.DefaultListHidesUserTransactions | api/src/routes/transactions.ts:37 | without `userCreated=true`, no user-created transaction is listed |
| Transactions.GetTransaction | api/src/routes/transactions.ts:71-90 | 404 exactly when no transaction has the hash; otherwise a stored one with that hash |
| Transactions.ValidTxInput | api/src/routes/transactions.ts:15-24 | `createTransactionSchema`: non-empty hash and addresses, a positive value, a status among the three names when given; anything else is the 400 of `CreateTransaction` |
| Transactions.StatusOr | api/src/routes/transactions.ts:100 | `data.status \|\| 'pending'`: the supplied status, or the fallback |
| Transactions.NewTxRow | api/src/routes/transactions.ts:98-101 | the given hash, block hash, addresses, value and fee, status defaulting to pending, `userCreated` defaulting to false (schema.ts:28-29), `createdAt = now` |
| Transactions.CreateTransaction | api/src/routes/transactions.ts:93-113 | 400 on a bad body; 500 with no change on a duplicate hash or a block hash naming no block; otherwise one row appended |
| Transactions.CreatedTransactionIsFound | api/src/routes/transactions.ts:103-106 | a created transaction is what a lookup of its hash returns next |
| Transactions.ValidPatch | api/src/routes/transactions.ts:26-29 | `updateTransactionSchema`: a status among the three names when given; anything else is the 400 of `PatchTransaction` |
| Transactions.EmptyPatch | api/src/routes/transactions.ts:122-124 | a body with neither field leaves `SET` empty, which the query builder refuses: the 500 of `PatchTransaction` |
| Transactions.ApplyPatch | api/src/routes/transactions.ts:124 | `SET` writes exactly the supplied fields; every other column is kept |
| Transactions.PatchTransaction | api/src/routes/transactions.ts:116-136 | 400 on a bad body; 500 on an empty body; 404 with no change for an unknown hash; 500 when the new block hash names no block; otherwise the row is patched and returned |
| Transactions.PatchedTransactionIsFound | api/src/routes/transactions.ts:122-132 | after a patch, a lookup of the hash returns the patched row |
| Transactions.PatchTouchesOneRow | api/src/routes/transactions.ts:122-126 | a patch touches at most one row and leaves every other row unchanged |
| Transactions.Summary | api/src/routes/transactions.ts:139-169 | the total is the row count; on an empty table the four `sum(case ...)` columns are NULL, otherwise they are the numbers of pending, confirmed, failed and user-created transactions; `recentTransactions` are the newest 10 |
| Transactions.StatusCountsPartition | api/src/db/schema.ts:28 | every transaction has exactly one of the three statuses |
| Transactions.SummaryCountsAddUp | api/src/routes/transactions.ts:145-148 | on a non-empty table, pending + confirmed + failed = total |
| Transactions.SummaryRecentAreNewest | api/src/routes/transactions.ts:155-159 | recent transactions are stored, and none left out is newer |
| Transactions.PendingPool | api/src/routes/transactions.ts:172-190 | `min(pending, 50)` rows, newest first |
| Transactions.PendingPoolIsPending | api/src/routes/transactions.ts:176-181 | the mempool holds only stored pending transactions |
| Transactions.PendingPoolIsNewest | api/src/routes/transactions.ts:176-181 | no pending transaction left out is newer than one listed |
| Transactions.NewestPendingIsListed | api/src/routes/transactions.ts:176-181 | a pending transaction newer than all others is in the mempool |
| Analytics.ValidInteractionInput | api/src/routes/analytics.ts:15-21 | `recordInteractionSchema`: non-empty session id, an interaction type among the three names; anything else is the 400 of `RecordInteraction` |
| Analytics.NewInteractionRow | api/src/routes/analytics.ts:38-41 | the interaction's fields and `timestamp = now` |
| Analytics.RecordInteraction | api/src/routes/analytics.ts:33-53 | 400 on a bad body; otherwise exactly one row appended and nothing else changed |
| Analytics.ListSessionInteractions | api/src/routes/analytics.ts:56-77 | `limit` defaults to 100; exactly `min(limit, n)` rows for the session's `n` interactions (all of them for a negative limit), newest first, with the count |
| Analytics.SessionInteractionsAreNewest | api/src/routes/analytics.ts:62-67 | no interaction of the session left out is newer than a listed one, and a limit covering the session lists all of its interactions |
| Analytics.SessionInteractionsBelong | api/src/routes/analytics.ts:62-67 | listed interactions are stored interactions of the requested session |
| Analytics.RecordedInteractionIsListed | api/src/routes/analytics.ts:62-67 | an interaction just recorded, newer than all stored ones, is listed for its session |
| Analytics.ValidMiningInput | api/src/routes/analytics.ts:23-30 | `updateMiningStatsSchema`: non-empty session id, a speed multiplier of at least 1, block and click counts of at least 0 and a peak of at least 1 when given; anything else is the 400 of `UpsertMiningStats` |
| Analytics.NewMiningRow | api/src/routes/analytics.ts:121-124 | a new session's row: peak as supplied or else the speed; counters defaulting to 0 (schema.ts:49-50); `timestamp = now` |
| Analytics.BuildUpdates | api/src/routes/analytics.ts:94-110 | the `updates` object built field by field is the specification `Updates`: the peak is set only when supplied and greater than the stored one |
| Analytics.ApplyUpdates | api/src/routes/analytics.ts:112-116 | `SET` writes the columns present in `updates` and keeps the others |
| Analytics.UpsertKeepsSessionsUnique | api/src/routes/analytics.ts:86-131 | with at most one row per session before, there is at most one after |
| Analytics.UpsertPeakNeverDecreases | api/src/routes/analytics.ts:108-116 | with at most one row for the session, no stored peak decreases and no row is lost |
| Analytics.SessionRowIsFound | api/src/routes/analytics.ts:86-90 | with one row for the session, that row is the one the handler reads |
| Analytics.UpsertLeavesOtherSessions | api/src/routes/analytics.ts:112-131 | rows of other sessions are unchanged; an insert adds exactly the new row |
| Analytics.UpsertThenGet | api/src/routes/analytics.ts:80-159 | after an upsert, `GET /mining-stats/:sessionId` returns the row the upsert answered with |
| Analytics.DuplicateSessionPeakCanDrop | api/src/routes/analytics.ts:108-116 | with two rows for one session, a second row's peak of 5 becomes 3 |
| Analytics.PeakCanFallBelowSpeed | api/src/routes/analytics.ts:94-110 | a faster speed without a peak leaves the stored peak below the speed |
| Analytics.GetMiningStats | api/src/routes/analytics.ts:140-159 | 404 exactly when the session has no row; otherwise a stored row of the session |
| Analytics.Upsert | api/src/routes/analytics.ts:80-137 | the specification of the upsert: 400 on a bad body, an update of the session's rows when one exists, an insert otherwise, each with its response |
| Analytics.UpsertMiningStats | api/src/routes/analytics.ts:80-137 | the handler's response and new table are those of the specification `Upsert` |
| Nodes.NodeFilter | api/src/routes/nodes.ts:30-43 | the list's WHERE: `isActive` equals `active === 'true'`, and the type matches when the type filter survives the second `.where` |
| Nodes.ListNodes | api/src/routes/nodes.ts:28-52 | the count of the listed nodes, most recently seen first |
| Nodes.ListedNodesMatch | api/src/routes/nodes.ts:30-43 | a node is listed exactly when it is stored, its `isActive` equals `active === 'true'`, and its type matches when the type filter survives |
| Nodes.DefaultListShowsInactiveNodes | api/src/routes/nodes.ts:31 | without `active=true` and without a type, exactly the inactive nodes are listed |
| Nodes.GetNode | api/src/routes/nodes.ts:55-74 | 404 exactly when no node has the id; otherwise a stored node with that id |
| Nodes.ValidNodeInput | api/src/routes/nodes.ts:15-20 | `createNodeSchema`: non-empty node id and address, a type among the four names; anything else is the 400 of `RegisterNode` |
| Nodes.NewNodeRow | api/src/routes/nodes.ts:82-86 | `isActive` as supplied or true, participation 0, `lastSeen = createdAt = now` (schema.ts:62-65) |
| Nodes.RegisterNode | api/src/routes/nodes.ts:77-98 | 400 on a bad body; 500 with no change on a taken `nodeId`; otherwise one row appended |
| Nodes.RegisteredNodeIsFound | api/src/routes/nodes.ts:88-93 | a registered node is what a lookup of its id returns next |
| Nodes.ApplyNodePatch | api/src/routes/nodes.ts:107-110 | the supplied fields and `lastSeen = now`; everything else is kept |
| Nodes.UpdateWithoutMatch | api/src/routes/nodes.ts:112-120 | an UPDATE whose WHERE matches no row changes nothing |
| Nodes.PatchNode | api/src/routes/nodes.ts:101-126 | 404 with no change for an unknown id; otherwise the node is patched and the patched row returned |
| Nodes.PatchTouchesOnlyThatNode | api/src/routes/nodes.ts:112-116 | a patch touches at most one row and leaves the other nodes unchanged |
| Nodes.Heartbeat | api/src/routes/nodes.ts:129-155 | 404 with no change for an unknown id; otherwise the node is marked seen now and active, and `lastSeen = now` is reported |
| Nodes.HeartbeatMarksNodeSeen | api/src/routes/nodes.ts:134-141 | after a heartbeat the node is active and seen now, and every other node is unchanged |
| Nodes.NetworkStatistics | api/src/routes/nodes.ts:158-189 | `totalNodes` is the node count; on an empty table every `sum` column is NULL, otherwise they are the numbers of active nodes and of each type, and the sum of participation; `min(validators, 5)` top validators, by descending participation |
| Nodes.KindCountsPartition | api/src/db/schema.ts:60 | every node has exactly one of the four types |
| Nodes.NetworkKindsAddUp | api/src/routes/nodes.ts:164-169 | validators + miners + peers + smart contracts = total nodes |
| Nodes.TopValidatorsAreValidators | api/src/routes/nodes.ts:174-179 | the top validators are stored validators, and no validator left out participates more |
| Nodes.Threshold | api/src/routes/nodes.ts:194-197 | `now - hours·3600000`, with hours defaulting to 24 when missing, non-numeric or 0 |
| Nodes.SweptRows | api/src/routes/nodes.ts:199-205 | the returned rows are as many as the stale active nodes; each is now inactive, was seen before the threshold, and was stored active |
| Nodes.DeactivateInactive | api/src/routes/nodes.ts:192-214 | the table after the sweep and the reported rows and count |
| Nodes.SweepFlipsExactlyStaleNodes | api/src/routes/nodes.ts:199-204 | exactly the active nodes seen before the threshold become inactive; every other node is untouched; `deactivated` is the number of rows changed |
| Nodes.SweepIsIdempotent | api/src/routes/nodes.ts:199-204 | a second sweep with the same threshold deactivates nothing and changes nothing |
| StaticAssets.IncludesChar | api/src/index-combined.ts:60 | `includes('.')` holds exactly when the character occurs |
| StaticAssets.RewritePath | api/src/index-combined.ts:52-62 | after rewriting the path contains `.`; a path with `.` is kept; a path without `.` becomes `/index.html` |
| StaticAssets.AssetKey | api/src/index-combined.ts:69 | the key is the path without its leading `/` |
| StaticAssets.AssetPathKey | api/src/index-combined.ts:60-69 | an asset path keeps its name, and `/` + key gives it back |
| StaticAssets.RootIsIndex | api/src/index-combined.ts:55-57 | `/` is served as `/index.html` |
| StaticAssets.FirstMatchMeaning | api/src/index-combined.ts:75-83 | the table lookup answers with the entry of the first matching suffix, or `text/plain` when none matches |
| StaticAssets.ContentType | api/src/index-combined.ts:75-83 | the `Content-Type` chain over the path's suffix, `text/plain` when none is listed |
| StaticAssets.ContentTypeIsFirstMatch | api/src/index-combined.ts:75-83 | the handler's `if`/`else` chain is the first-match lookup over html, js, css, json, png, jpg, jpeg, svg, ico |
| StaticAssets.UnlistedSuffixIsPlainText | api/src/index-combined.ts:75 | `text/plain` exactly when no listed suffix matches |
| StaticAssets.CacheControl | api/src/index-combined.ts:88 | a year exactly when the path contains `/assets/`, otherwise an hour |
| StaticAssets.IndexHeaders | api/src/index-combined.ts:76-88 | `/index.html` has the key `index.html`, is HTML, and gets the one-hour cache |
| StaticAssets.ServeStatic | api/src/index-combined.ts:48-105 | `GET *`: a key that is in both the manifest and the store is served with its suffix's content type and its cache policy; otherwise a stored `index.html` is served as `text/html` with the one-hour cache; 404 exactly when neither can be served |
| StaticAssets.MissingAssetFallsBack | api/src/index-combined.ts:94-103 | a key missing from the manifest or the store falls back to `index.html` as HTML |
| StaticAssets.ClientRoutesGetTheShell | api/src/index-combined.ts:59-62 | a path without `.` always gets `index.html` as HTML with the one-hour cache, or 404 |
| ViewRouter.PathOf | src/lib/router.ts:10 | the pushed address starts with `/` |
| ViewRouter.InitialRoute | src/lib/router.ts:20-25 | the route chosen at page load: `explorer` for `/explorer`, `home` otherwise |
| ViewRouter.ReloadKeepsRoute | src/lib/router.ts:10-25 | loading the page at a route's address selects that route again |
| ViewRouter.RouteOfState | src/lib/router.ts:17 | `event.state?.route \|\| 'home'`: the stored route, or home without state |
| ViewRouter.Router.constructor | src/lib/router.ts:5-25 | the initial route is `explorer` for `/explorer` and `home` otherwise, with one history entry |
| ViewRouter.Router.NavigateTo | src/lib/router.ts:7-12 | the route becomes `r`; forward entries are dropped and `r`'s entry is pushed |
| ViewRouter.Router.PopState | src/lib/router.ts:16-19 | the route becomes the current entry's route, or home |
| ViewRouter.Router.Back | src/lib/router.ts:16-19 | the back button moves one entry back and restores that entry's route; there is nothing to do at the first entry |
| ViewRouter.Router.Forward | src/lib/router.ts:16-19 | the forward button moves one entry forward and restores its route |
| ViewRouter.ViewMatchesAddress | src/lib/router.ts:7-19 | away from the page-load entry, the shown route is the one the address names |
| ViewRouter.BackToStartShowsHome | src/lib/router.ts:16-25 | loaded at `/explorer`, going home and back shows home while the address is `/explorer` |

## Left out

- Autoincrement `id` columns: no handler reads them.
- Asset bytes, the body of an interaction's `data`, and JSON encoding are not modelled.
- DeactivateInactive: models the comparison of `lastSeen` with the threshold in one time unit. As written, the handler binds a JavaScript `Date` into a raw SQL fragment, which bypasses the seconds encoding of the `last_seen` column (schema.ts:63); the driver most likely refuses that binding (500, nothing deactivated) or compares milliseconds with seconds. Neither outcome is modelled.
- Timestamps are plain integers. The seconds granularity of SQLite timestamp columns and ISO formatting are not modelled.
- ListNodes: the model orders every `lastSeen` as an integer. In the source, `POST /nodes` leaves `lastSeen` to the column default `CURRENT_TIMESTAMP` (schema.ts:63), which stores TEXT, while PATCH and heartbeat store integer seconds; SQLite orders TEXT above every integer, so under `desc(lastSeen)` a node that was registered and never updated is listed before every node that has sent a heartbeat. That mixed ordering is not modelled.
- NewNodeRow: stamps `lastSeen` and `createdAt` with the integer `now`, where the source stores the TEXT default `CURRENT_TIMESTAMP`; see the ListNodes line for the ordering this hides. (Transactions and forks are ordered by a `createdAt` that always comes from that default, so their listings compare like with like.)
- Floating point is not modelled. `real` columns are exact reals. Query-string numbers are integers, so fractional `limit`, `offset` and `hours` values are not modelled.
- Row ties under ORDER BY, and the order of groups under GROUP BY: the model keeps table order among equal keys, and `GroupByChain` lists groups in order of first appearance. SQL leaves both orders unspecified, so no property relies on them.
- `sum(value)` and `sum(fee)` in the transaction summary: these are floating-point sums. (`sum(consensus_participation)` is over an integer column and is modelled exactly.)
- The `/analytics/global` and `/analytics/heatmap` handlers are not part of this model.
- Validation: a body that fails a type check (a string where a number belongs) is not representable. Only range, length and enum rules give 400.
- Which filter wins when the node list calls `.where` twice is library behaviour. The model takes it as a parameter (`typeFilterKept`), and the active filter always applies.
- Storage errors other than uniqueness and foreign-key violations (I/O, the database being unavailable) are not modelled. Each handler's generic 500 covers them.
- The foreign key from `transactions.blockHash` is modelled as enforced. A violation gives 500 with no change.
- Atomicity: create-block with its fork bump, and resolve-fork's two updates, run as sequential steps without a crash between them.
- The key-value store and the asset manifest are parameters: sets of keys for which an object exists. A failure to parse the manifest (500) is not modelled.
- CORS, the database middleware and the health endpoint are not modelled.
- Analytics.UpsertPeakNeverDecreases: holds only when the session has at most one row. No constraint enforces that, and Analytics.DuplicateSessionPeakCanDrop shows the other case.
- The default speed multiplier 1 is never used by a handler, because the speed is mandatory in the mining body.
