/**
 * The transactions route group: list, get by hash, create, patch (block hash and status),
 * the summary statistics, and the mempool of pending transactions.
 */
module Transactions {
  import opened Wrappers
  import opened Query
  import opened Schema

  function TxCreatedAt(t: Transaction): int { t.createdAt }

  // ================================================================ list and get

  /** One entry of the `conditions` array of `GET /transactions`. */
  datatype TxCondition = StatusIs(name: string) | UserCreatedIs(flag: bool)

  predicate Holds(c: TxCondition, t: Transaction) {
    match c
    case StatusIs(name) => StatusName(t.status) == name
    case UserCreatedIs(flag) => t.userCreated == flag
  }

  /** `and(...conditions)`. */
  function AllHold(conds: seq<TxCondition>): Transaction -> bool {
    (t: Transaction) => forall i :: 0 <= i < |conds| ==> Holds(conds[i], t)
  }

  /**
   * The conditions the handler collects: a status condition for a non-empty `status`
   * parameter (a name that is no status matches no row), then the `userCreated` condition.
   */
  function Conditions(statusQ: Option<string>, userCreatedQ: Option<string>): seq<TxCondition> {
    (if statusQ.Some? && statusQ.value != "" then [StatusIs(statusQ.value)] else [])
      + [UserCreatedIs(userCreatedQ == Some("true"))]
  }

  /**
   * Collects the conditions one by one. The parameter compared with "true" is a boolean in
   * every case, never undefined, so the `userCreated` condition is always pushed and the
   * array is never empty.
   */
  method BuildConditions(statusQ: Option<string>, userCreatedQ: Option<string>) returns (conds: seq<TxCondition>)
    ensures conds == Conditions(statusQ, userCreatedQ)
    ensures |conds| > 0 && conds[|conds| - 1] == UserCreatedIs(userCreatedQ == Some("true"))
  {
    var userCreated := userCreatedQ == Some("true");
    conds := [];
    if statusQ.Some? && statusQ.value != "" {
      conds := conds + [StatusIs(statusQ.value)];
    }
    conds := conds + [UserCreatedIs(userCreated)];
  }

  /** The rows the WHERE clause keeps: every collected condition holds. */
  function ListWhere(txs: seq<Transaction>, conds: seq<TxCondition>): (r: seq<Transaction>)
    ensures forall t :: t in r <==> t in txs && AllHold(conds)(t)
  {
    if |conds| > 0 then Filter(txs, AllHold(conds)) else txs
  }

  /** The answer of `GET /transactions`, or the 500 the handler sends when the query fails. */
  datatype TxList = TxList(transactions: seq<Transaction>, count: nat, limit: int, offset: int) | TransactionsFailed

  /**
   * `GET /transactions?limit&offset&status&userCreated`: a page of the matching
   * transactions, newest first, 20 by default. A negative limit with a non-zero offset
   * makes the statement invalid: 500.
   */
  function ListTransactions(txs: seq<Transaction>, limitQ: Option<int>, offsetQ: Option<int>,
                            statusQ: Option<string>, userCreatedQ: Option<string>): (r: TxList)
    ensures r.TransactionsFailed? <==> NumberOr(limitQ, 20) < 0 && NumberOr(offsetQ, 0) != 0
    ensures r.TxList? ==> r.limit == NumberOr(limitQ, 20) && r.offset == NumberOr(offsetQ, 0) && r.count == |r.transactions|
    ensures r.TxList? ==> |r.transactions| == PageSize(|ListWhere(txs, Conditions(statusQ, userCreatedQ))|, r.offset, r.limit)
    ensures r.TxList? ==> Descending(r.transactions, TxCreatedAt)
  {
    var limit := NumberOr(limitQ, 20);
    var offset := NumberOr(offsetQ, 0);
    match Listing(ListWhere(txs, Conditions(statusQ, userCreatedQ)), TxCreatedAt, offset, limit)
    case None => TransactionsFailed
    case Some(page) => TxList(page, |page|, limit, offset)
  }

  /** A transaction meets both conditions of the list query. */
  predicate MatchesList(t: Transaction, statusQ: Option<string>, userCreatedQ: Option<string>) {
    && (statusQ.Some? && statusQ.value != "" ==> StatusName(t.status) == statusQ.value)
    && t.userCreated == (userCreatedQ == Some("true"))
  }

  /** The collected conditions hold of a row exactly when it meets the list query's conditions. */
  lemma ConditionsMean(t: Transaction, statusQ: Option<string>, userCreatedQ: Option<string>)
    ensures AllHold(Conditions(statusQ, userCreatedQ))(t) <==> MatchesList(t, statusQ, userCreatedQ)
  {
    var conds := Conditions(statusQ, userCreatedQ);
    if statusQ.Some? && statusQ.value != "" {
      assert conds == [StatusIs(statusQ.value), UserCreatedIs(userCreatedQ == Some("true"))];
      assert AllHold(conds)(t) <==> Holds(conds[0], t) && Holds(conds[1], t);
    } else {
      assert conds == [UserCreatedIs(userCreatedQ == Some("true"))];
      assert AllHold(conds)(t) <==> Holds(conds[0], t);
    }
  }

  /** Every listed transaction is stored and meets both conditions. */
  lemma ListedTransactionsMatch(txs: seq<Transaction>, limitQ: Option<int>, offsetQ: Option<int>,
                                statusQ: Option<string>, userCreatedQ: Option<string>)
    ensures var r := ListTransactions(txs, limitQ, offsetQ, statusQ, userCreatedQ);
      r.TxList? ==> forall t :: t in r.transactions ==> t in txs && MatchesList(t, statusQ, userCreatedQ)
  {
    var rows := ListWhere(txs, Conditions(statusQ, userCreatedQ));
    var r := ListTransactions(txs, limitQ, offsetQ, statusQ, userCreatedQ);
    ListingWithin(rows, TxCreatedAt, NumberOr(offsetQ, 0), NumberOr(limitQ, 20));
    if r.TxList? {
      forall t | t in r.transactions ensures t in txs && MatchesList(t, statusQ, userCreatedQ) {
        ConditionsMean(t, statusQ, userCreatedQ);
      }
    }
  }

  /**
   * Without an offset the newest matching transactions are listed: none left out is newer
   * than a listed one, and when the limit is at least the number of matches every matching
   * transaction is listed.
   */
  lemma FirstTransactionsAreNewest(txs: seq<Transaction>, limitQ: Option<int>, statusQ: Option<string>, userCreatedQ: Option<string>)
    ensures var r := ListTransactions(txs, limitQ, None, statusQ, userCreatedQ);
      && r.TxList?
      && (forall t, u :: t in txs && MatchesList(t, statusQ, userCreatedQ) && t !in r.transactions && u in r.transactions ==>
            u.createdAt >= t.createdAt)
      && (r.limit < 0 || Count(txs, AllHold(Conditions(statusQ, userCreatedQ))) <= r.limit ==>
            forall t :: t in txs && MatchesList(t, statusQ, userCreatedQ) ==> t in r.transactions)
  {
    var conds := Conditions(statusQ, userCreatedQ);
    var rows := ListWhere(txs, conds);
    var r := ListTransactions(txs, limitQ, None, statusQ, userCreatedQ);
    ListingFirstPage(rows, TxCreatedAt, 0, NumberOr(limitQ, 20));
    CountIsFilterLength(txs, AllHold(conds));
    forall t, u | t in txs && MatchesList(t, statusQ, userCreatedQ) && t !in r.transactions && u in r.transactions
      ensures u.createdAt >= t.createdAt
    {
      ConditionsMean(t, statusQ, userCreatedQ);
      assert t in rows;
      assert TxCreatedAt(u) >= TxCreatedAt(t);
    }
    if r.limit < 0 || |rows| <= r.limit {
      forall t | t in txs && MatchesList(t, statusQ, userCreatedQ) ensures t in r.transactions {
        ConditionsMean(t, statusQ, userCreatedQ);
        assert t in multiset(rows);
      }
    }
  }

  /** Without the `userCreated` parameter, no user-created transaction is ever listed. */
  lemma DefaultListHidesUserTransactions(txs: seq<Transaction>, limitQ: Option<int>, offsetQ: Option<int>, statusQ: Option<string>)
    ensures var r := ListTransactions(txs, limitQ, offsetQ, statusQ, None);
      r.TxList? ==> forall t :: t in r.transactions ==> !t.userCreated
  {
    ListedTransactionsMatch(txs, limitQ, offsetQ, statusQ, None);
  }

  /** `GET /transactions/:hash`. */
  function GetTransaction(txs: seq<Transaction>, hash: string): (r: Response<Transaction>)
    ensures r.Ok? || r.NotFound?
    ensures r.NotFound? <==> !Any(txs, TxHashIs(hash))
    ensures r.Ok? ==> r.row in txs && r.row.hash == hash
  {
    match FindFirst(txs, TxHashIs(hash))
    case None => NotFound
    case Some(t) => Ok(t)
  }

  // ================================================================ create

  /** The JSON body of `POST /transactions`. */
  datatype TxInput = TxInput(
    hash: string,
    blockHash: Option<string>,
    fromAddress: string,
    toAddress: string,
    value: real,
    fee: Option<real>,
    status: Option<string>,
    userCreated: Option<bool>)

  /** `createTransactionSchema`. */
  predicate ValidTxInput(t: TxInput) {
    && t.hash != ""
    && t.fromAddress != ""
    && t.toAddress != ""
    && t.value > 0.0
    && (t.status.Some? ==> ParseStatus(t.status.value).Some?)
  }

  /** The status a validated body names, or `fallback` when it names none. */
  function StatusOr(name: Option<string>, fallback: TxStatus): (s: TxStatus)
    requires name.Some? ==> ParseStatus(name.value).Some?
    ensures name.Some? ==> StatusName(s) == name.value
    ensures name.None? ==> s == fallback
  {
    match name
    case None => fallback
    case Some(n) =>
      StatusNameRoundTrip(ParseStatus(n).value, n);
      ParseStatus(n).value
  }

  /** The inserted row: the given fields, status `pending` unless given, `createdAt = now`. */
  function NewTxRow(t: TxInput, now: int): (row: Transaction)
    requires ValidTxInput(t)
    ensures row.hash == t.hash && row.blockHash == t.blockHash && row.value == t.value && row.fee == t.fee
    ensures row.fromAddress == t.fromAddress && row.toAddress == t.toAddress
    ensures row.value > 0.0
    ensures t.status.None? ==> row.status == DefaultStatus
    ensures t.status.Some? ==> StatusName(row.status) == t.status.value
    ensures row.userCreated == t.userCreated.GetOr(DefaultUserCreated) && row.createdAt == now
  {
    Transaction(t.hash, t.blockHash, t.fromAddress, t.toAddress, t.value, t.fee,
                StatusOr(t.status, DefaultStatus), t.userCreated.GetOr(DefaultUserCreated), now)
  }

  /**
   * `POST /transactions`. 400 on a bad body. The insert raises, and the handler answers 500
   * with nothing stored, when the hash is taken or the block hash names no stored block.
   */
  method CreateTransaction(db: Database, input: TxInput, now: int) returns (r: Response<Transaction>)
    requires db.Valid()
    modifies db`transactions
    ensures db.Valid()
    ensures !ValidTxInput(input) ==> r == BadRequest && db.transactions == old(db.transactions)
    ensures ValidTxInput(input) && (Any(old(db.transactions), TxHashIs(input.hash)) || !BlockRefValid(db.blocks, NewTxRow(input, now))) ==>
      r == ServerError && db.transactions == old(db.transactions)
    ensures ValidTxInput(input) && !Any(old(db.transactions), TxHashIs(input.hash)) && BlockRefValid(db.blocks, NewTxRow(input, now)) ==>
      r == Created(NewTxRow(input, now)) && db.transactions == old(db.transactions) + [NewTxRow(input, now)]
  {
    if !ValidTxInput(input) {
      return BadRequest;
    }
    var created := NewTxRow(input, now);
    if Any(db.transactions, TxHashIs(input.hash)) || !BlockRefValid(db.blocks, created) {
      return ServerError;
    }
    forall h ensures AtMostOne(db.transactions + [created], TxHashIs(h)) {
      AtMostOneAppend(db.transactions, created, TxHashIs(h));
    }
    db.transactions := db.transactions + [created];
    r := Created(created);
  }

  /** A created transaction is what `GET /transactions/:hash` then returns. */
  lemma CreatedTransactionIsFound(txs: seq<Transaction>, input: TxInput, now: int)
    requires ValidTxInput(input) && !Any(txs, TxHashIs(input.hash))
    ensures GetTransaction(txs + [NewTxRow(input, now)], input.hash) == Ok(NewTxRow(input, now))
  {
    FindFirstAppended(txs, TxHashIs(input.hash), NewTxRow(input, now));
  }

  // ================================================================ patch

  /** The JSON body of `PATCH /transactions/:hash`; unknown keys are dropped by validation. */
  datatype TxPatch = TxPatch(blockHash: Option<string>, status: Option<string>)

  /** `updateTransactionSchema`. */
  predicate ValidPatch(p: TxPatch) {
    p.status.Some? ==> ParseStatus(p.status.value).Some?
  }

  /** A patch that supplies no field: the query builder refuses to build `SET` with nothing to set. */
  predicate EmptyPatch(p: TxPatch) {
    p.blockHash.None? && p.status.None?
  }

  /** `SET` with the supplied fields only; every other column keeps its value. */
  function ApplyPatch(p: TxPatch, t: Transaction): (u: Transaction)
    requires ValidPatch(p)
    ensures u.hash == t.hash && u.fromAddress == t.fromAddress && u.toAddress == t.toAddress
    ensures u.value == t.value && u.fee == t.fee && u.userCreated == t.userCreated && u.createdAt == t.createdAt
    ensures u.blockHash == if p.blockHash.Some? then p.blockHash else t.blockHash
    ensures p.status.Some? ==> StatusName(u.status) == p.status.value
    ensures p.status.None? ==> u.status == t.status
  {
    t.(blockHash := if p.blockHash.Some? then p.blockHash else t.blockHash, status := StatusOr(p.status, t.status))
  }

  function Patched(p: TxPatch): Transaction -> Transaction
    requires ValidPatch(p)
  {
    (t: Transaction) => ApplyPatch(p, t)
  }

  /** The patch names a block that is not stored, so the reference check of the update fails. */
  predicate BreaksBlockRef(blocks: seq<Block>, p: TxPatch) {
    p.blockHash.Some? && !Any(blocks, HashIs(p.blockHash.value))
  }

  /**
   * `PATCH /transactions/:hash`. 400 on a bad body; 500 with nothing changed on a body with
   * no field to set; 404 when no transaction has the hash; 500 with nothing changed when
   * the new block hash names no stored block; otherwise the row is updated and returned.
   */
  method PatchTransaction(db: Database, hash: string, patch: TxPatch) returns (r: Response<Transaction>)
    requires db.Valid()
    modifies db`transactions
    ensures db.Valid()
    ensures !ValidPatch(patch) ==> r == BadRequest && db.transactions == old(db.transactions)
    ensures ValidPatch(patch) && EmptyPatch(patch) ==> r == ServerError && db.transactions == old(db.transactions)
    ensures ValidPatch(patch) && !EmptyPatch(patch) && !Any(old(db.transactions), TxHashIs(hash)) ==>
      r == NotFound && db.transactions == old(db.transactions)
    ensures ValidPatch(patch) && !EmptyPatch(patch) && Any(old(db.transactions), TxHashIs(hash)) && BreaksBlockRef(db.blocks, patch) ==>
      r == ServerError && db.transactions == old(db.transactions)
    ensures ValidPatch(patch) && !EmptyPatch(patch) && Any(old(db.transactions), TxHashIs(hash)) && !BreaksBlockRef(db.blocks, patch) ==>
      && db.transactions == UpdateWhere(old(db.transactions), TxHashIs(hash), Patched(patch))
      && r == Ok(ApplyPatch(patch, FindFirst(old(db.transactions), TxHashIs(hash)).value))
  {
    if !ValidPatch(patch) {
      return BadRequest;
    }
    if EmptyPatch(patch) {
      return ServerError;
    }
    var found := FindFirst(db.transactions, TxHashIs(hash));
    if found.None? {
      return NotFound;
    }
    if BreaksBlockRef(db.blocks, patch) {
      return ServerError;
    }
    ghost var before := db.transactions;
    db.transactions := UpdateWhere(db.transactions, TxHashIs(hash), Patched(patch));
    forall h ensures AtMostOne(db.transactions, TxHashIs(h)) {
      AtMostOneUpdate(before, TxHashIs(hash), Patched(patch), TxHashIs(h));
    }
    forall i | 0 <= i < |db.transactions| ensures BlockRefValid(db.blocks, db.transactions[i]) {
      assert BlockRefValid(db.blocks, before[i]);
    }
    FindFirstAfterUpdate(before, TxHashIs(hash), Patched(patch), found.value);
    r := Ok(ApplyPatch(patch, found.value));
  }

  /** After a successful patch, `GET /transactions/:hash` returns the patched row. */
  lemma PatchedTransactionIsFound(txs: seq<Transaction>, hash: string, patch: TxPatch)
    requires ValidPatch(patch) && Any(txs, TxHashIs(hash))
    ensures GetTransaction(UpdateWhere(txs, TxHashIs(hash), Patched(patch)), hash) ==
            Ok(ApplyPatch(patch, FindFirst(txs, TxHashIs(hash)).value))
  {
    FindFirstAfterUpdate(txs, TxHashIs(hash), Patched(patch), FindFirst(txs, TxHashIs(hash)).value);
  }

  /** Under the UNIQUE hash, a patch changes at most one row. */
  lemma PatchTouchesOneRow(txs: seq<Transaction>, hash: string, patch: TxPatch)
    requires ValidPatch(patch) && AtMostOne(txs, TxHashIs(hash))
    ensures Count(txs, TxHashIs(hash)) <= 1
    ensures var r := UpdateWhere(txs, TxHashIs(hash), Patched(patch));
      forall i :: 0 <= i < |txs| && txs[i].hash != hash ==> r[i] == txs[i]
  {
    AtMostOneCount(txs, TxHashIs(hash));
  }

  // ================================================================ summary and mempool

  function IsPending(t: Transaction): bool { t.status == Pending }
  function IsConfirmed(t: Transaction): bool { t.status == Confirmed }
  function IsFailed(t: Transaction): bool { t.status == Failed }
  function IsUserCreated(t: Transaction): bool { t.userCreated }

  /**
   * The response of `GET /transactions/stats/summary`. The three status counts and the
   * user-created count are `sum(case ...)` columns, NULL on an empty table.
   */
  datatype TxSummary = TxSummary(
    totalTransactions: nat,
    pendingCount: Option<nat>,
    confirmedCount: Option<nat>,
    failedCount: Option<nat>,
    userCreatedCount: Option<nat>,
    recentTransactions: seq<Transaction>,
    timestamp: int)

  function Summary(txs: seq<Transaction>, now: int): (r: TxSummary)
    ensures r.totalTransactions == |txs|
    ensures txs == [] ==> r.pendingCount.None? && r.confirmedCount.None? && r.failedCount.None? && r.userCreatedCount.None?
    ensures txs != [] ==> r.pendingCount == Some(Count(txs, IsPending)) && r.confirmedCount == Some(Count(txs, IsConfirmed))
    ensures txs != [] ==> r.failedCount == Some(Count(txs, IsFailed)) && r.userCreatedCount == Some(Count(txs, IsUserCreated))
    ensures r.recentTransactions == Top(txs, TxCreatedAt, 10)
    ensures r.timestamp == now
  {
    TxSummary(|txs|, SqlCount(txs, IsPending), SqlCount(txs, IsConfirmed), SqlCount(txs, IsFailed),
              SqlCount(txs, IsUserCreated),
              Top(txs, TxCreatedAt, 10), now)
  }

  lemma {:induction false} StatusCountsPartition(txs: seq<Transaction>)
    ensures Count(txs, IsPending) + Count(txs, IsConfirmed) + Count(txs, IsFailed) == |txs|
  {
    if txs != [] {
      StatusCountsPartition(txs[1..]);
    }
  }

  /** On a non-empty table the three status counts add up to the total. */
  lemma SummaryCountsAddUp(txs: seq<Transaction>, now: int)
    requires txs != []
    ensures var r := Summary(txs, now);
      r.pendingCount.Some? && r.confirmedCount.Some? && r.failedCount.Some? &&
      r.pendingCount.value + r.confirmedCount.value + r.failedCount.value == r.totalTransactions
  {
    StatusCountsPartition(txs);
  }

  /** The recent transactions: at most ten, newest first, none older than a transaction left out. */
  lemma SummaryRecentAreNewest(txs: seq<Transaction>, now: int)
    ensures var recent := Summary(txs, now).recentTransactions;
      && |recent| <= 10 && Descending(recent, TxCreatedAt)
      && (forall t :: t in recent ==> t in txs)
      && (forall t, u :: t in txs && t !in recent && u in recent ==> u.createdAt >= t.createdAt)
  {
    var recent := Summary(txs, now).recentTransactions;
    TopWithin(txs, TxCreatedAt, 10);
    TopRanks(txs, TxCreatedAt, 10);
    forall t, u | t in txs && t !in recent && u in recent ensures u.createdAt >= t.createdAt {
      assert TxCreatedAt(u) >= TxCreatedAt(t);
    }
  }

  datatype Mempool = Mempool(mempool: seq<Transaction>, count: nat)

  /** `GET /transactions/mempool/pending`: the 50 most recent pending transactions. */
  function PendingPool(txs: seq<Transaction>): (r: Mempool)
    ensures r.count == |r.mempool|
    ensures |r.mempool| == if Count(txs, IsPending) < 50 then Count(txs, IsPending) else 50
    ensures Descending(r.mempool, TxCreatedAt)
  {
    CountIsFilterLength(txs, IsPending);
    var pool := Top(Filter(txs, IsPending), TxCreatedAt, 50);
    Mempool(pool, |pool|)
  }

  /** Only stored pending transactions are listed. */
  lemma PendingPoolIsPending(txs: seq<Transaction>)
    ensures forall t :: t in PendingPool(txs).mempool ==> t in txs && t.status == Pending
  {
    TopWithin(Filter(txs, IsPending), TxCreatedAt, 50);
  }

  /** Every pending transaction left out is no newer than every one listed. */
  lemma PendingPoolIsNewest(txs: seq<Transaction>)
    ensures var pool := PendingPool(txs).mempool;
      forall t, u :: t in txs && t.status == Pending && t !in pool && u in pool ==> u.createdAt >= t.createdAt
  {
    var pool := PendingPool(txs).mempool;
    TopOfFilterRanks(txs, IsPending, TxCreatedAt, 50);
    forall t, u | t in txs && t.status == Pending && t !in pool && u in pool ensures u.createdAt >= t.createdAt {
      assert IsPending(t);
      assert TxCreatedAt(u) >= TxCreatedAt(t);
    }
  }

  /** A pending transaction newer than every stored one is in the mempool once it is created. */
  lemma NewestPendingIsListed(txs: seq<Transaction>, t: Transaction)
    requires t.status == Pending
    requires forall u :: u in txs ==> u.createdAt < t.createdAt
    ensures t in PendingPool(txs + [t]).mempool
  {
    var s := txs + [t];
    CountAppend(txs, t, IsPending);
    PendingPoolIsPending(s);
    PendingPoolIsNewest(s);
    var pool := PendingPool(s).mempool;
    var u := pool[0];
    if u != t {
      assert u in txs;
    }
  }
}
