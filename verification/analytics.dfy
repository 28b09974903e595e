/**
 * The analytics route group: recording user interactions, listing a session's
 * interactions, and the mining-statistics upsert and lookup.
 */
module Analytics {
  import opened Wrappers
  import opened Query
  import opened Schema

  // ================================================================ interactions

  /** The JSON body of `POST /analytics/interactions`. */
  datatype InteractionInput = InteractionInput(
    sessionId: string,
    kind: string,
    data: Option<string>,
    positionX: Option<real>,
    positionY: Option<real>)

  /** `recordInteractionSchema`. */
  predicate ValidInteractionInput(i: InteractionInput) {
    i.sessionId != "" && ParseInteractionType(i.kind).Some?
  }

  /** The inserted row: the given fields and `timestamp = now`. */
  function NewInteractionRow(i: InteractionInput, now: int): (row: Interaction)
    requires ValidInteractionInput(i)
    ensures row.sessionId == i.sessionId && InteractionTypeName(row.kind) == i.kind
    ensures row.data == i.data && row.positionX == i.positionX && row.positionY == i.positionY
    ensures row.timestamp == now
  {
    var kind := ParseInteractionType(i.kind).value;
    InteractionTypeNameRoundTrip(kind, i.kind);
    Interaction(i.sessionId, kind, i.data, i.positionX, i.positionY, now)
  }

  /**
   * `POST /analytics/interactions`: 400 on a bad body, otherwise exactly one row is appended
   * and no stored row changes. The table has no UNIQUE column, so the insert cannot fail.
   */
  method RecordInteraction(db: Database, input: InteractionInput, now: int) returns (r: Response<Interaction>)
    requires db.Valid()
    modifies db`interactions
    ensures db.Valid()
    ensures !ValidInteractionInput(input) ==> r == BadRequest && db.interactions == old(db.interactions)
    ensures ValidInteractionInput(input) ==>
      r == Created(NewInteractionRow(input, now)) && db.interactions == old(db.interactions) + [NewInteractionRow(input, now)]
  {
    if !ValidInteractionInput(input) {
      return BadRequest;
    }
    var created := NewInteractionRow(input, now);
    db.interactions := db.interactions + [created];
    r := Created(created);
  }

  function InteractionTime(i: Interaction): int { i.timestamp }

  datatype SessionInteractions = SessionInteractions(sessionId: string, interactions: seq<Interaction>, count: nat)

  /** `GET /analytics/interactions/:sessionId?limit`: the session's newest interactions, 100 by default. */
  function ListSessionInteractions(rows: seq<Interaction>, sessionId: string, limitQ: Option<int>): (r: SessionInteractions)
    ensures r.sessionId == sessionId && r.count == |r.interactions|
    ensures var n := Count(rows, InteractionOf(sessionId));
      |r.interactions| == if 0 <= NumberOr(limitQ, 100) < n then NumberOr(limitQ, 100) else n
    ensures Descending(r.interactions, InteractionTime)
  {
    CountIsFilterLength(rows, InteractionOf(sessionId));
    var listed := Top(Filter(rows, InteractionOf(sessionId)), InteractionTime, NumberOr(limitQ, 100));
    SessionInteractions(sessionId, listed, |listed|)
  }

  /**
   * The session's newest interactions are the ones listed: none left out is newer than a
   * listed one, and when the limit covers the session all of its interactions are listed.
   */
  lemma SessionInteractionsAreNewest(rows: seq<Interaction>, sessionId: string, limitQ: Option<int>)
    ensures var listed := ListSessionInteractions(rows, sessionId, limitQ).interactions;
      forall i, j :: i in rows && i.sessionId == sessionId && i !in listed && j in listed ==> j.timestamp >= i.timestamp
    ensures var listed := ListSessionInteractions(rows, sessionId, limitQ).interactions;
      NumberOr(limitQ, 100) < 0 || Count(rows, InteractionOf(sessionId)) <= NumberOr(limitQ, 100) ==>
        forall i :: i in rows && i.sessionId == sessionId ==> i in listed
  {
    var p := InteractionOf(sessionId);
    var n := NumberOr(limitQ, 100);
    var listed := ListSessionInteractions(rows, sessionId, limitQ).interactions;
    TopOfFilterRanks(rows, p, InteractionTime, n);
    forall i, j | i in rows && i.sessionId == sessionId && i !in listed && j in listed ensures j.timestamp >= i.timestamp {
      assert p(i);
      assert InteractionTime(j) >= InteractionTime(i);
    }
    if n < 0 || Count(rows, p) <= n {
      CountIsFilterLength(rows, p);
      TopAll(Filter(rows, p), InteractionTime, n);
      forall i | i in rows && i.sessionId == sessionId ensures i in listed {
        assert p(i);
        assert i in multiset(Filter(rows, p));
      }
    }
  }

  /** Only stored interactions of the requested session are listed. */
  lemma SessionInteractionsBelong(rows: seq<Interaction>, sessionId: string, limitQ: Option<int>)
    ensures forall i :: i in ListSessionInteractions(rows, sessionId, limitQ).interactions ==>
      i in rows && i.sessionId == sessionId
  {
    TopWithin(Filter(rows, InteractionOf(sessionId)), InteractionTime, NumberOr(limitQ, 100));
  }

  /** An interaction just recorded, newer than every stored one, is listed for its session. */
  lemma RecordedInteractionIsListed(rows: seq<Interaction>, input: InteractionInput, now: int, limitQ: Option<int>)
    requires ValidInteractionInput(input)
    requires forall i :: i in rows ==> i.timestamp < now
    ensures NewInteractionRow(input, now) in ListSessionInteractions(rows + [NewInteractionRow(input, now)], input.sessionId, limitQ).interactions
  {
    var x := NewInteractionRow(input, now);
    var s := rows + [x];
    var p := InteractionOf(input.sessionId);
    forall y | y in s && p(y) && y != x ensures InteractionTime(y) < InteractionTime(x) {
      assert y in rows;
    }
    TopHoldsStrictMax(s, p, InteractionTime, NumberOr(limitQ, 100), x);
  }

  // ================================================================ mining statistics

  /** The JSON body of `POST /analytics/mining-stats`. */
  datatype MiningInput = MiningInput(
    sessionId: string,
    speedMultiplier: real,
    blocksMinedCount: Option<int>,
    totalClicks: Option<int>,
    averageMiningTime: Option<real>,
    peakSpeedMultiplier: Option<real>)

  /** `updateMiningStatsSchema`. */
  predicate ValidMiningInput(m: MiningInput) {
    && m.sessionId != ""
    && m.speedMultiplier >= 1.0
    && (m.blocksMinedCount.Some? ==> m.blocksMinedCount.value >= 0)
    && (m.totalClicks.Some? ==> m.totalClicks.value >= 0)
    && (m.peakSpeedMultiplier.Some? ==> m.peakSpeedMultiplier.value >= 1.0)
  }

  /** The row inserted for a new session: the peak is the supplied one, or else the speed. */
  function NewMiningRow(m: MiningInput, now: int): (row: MiningStats)
    ensures row.sessionId == m.sessionId && row.speedMultiplier == m.speedMultiplier
    ensures row.peakSpeedMultiplier == if m.peakSpeedMultiplier.Some? then m.peakSpeedMultiplier.value else m.speedMultiplier
    ensures row.blocksMinedCount == m.blocksMinedCount.GetOr(DefaultBlocksMinedCount)
    ensures row.totalClicks == m.totalClicks.GetOr(DefaultTotalClicks)
    ensures row.averageMiningTime == m.averageMiningTime && row.timestamp == now
  {
    MiningStats(m.sessionId, m.speedMultiplier,
                m.blocksMinedCount.GetOr(DefaultBlocksMinedCount), m.totalClicks.GetOr(DefaultTotalClicks),
                m.averageMiningTime, m.peakSpeedMultiplier.GetOr(m.speedMultiplier), now)
  }

  /** The `updates` object of the handler: the columns its `SET` writes, `None` for a column left alone. */
  datatype MiningUpdates = MiningUpdates(
    speedMultiplier: real,
    timestamp: int,
    blocksMinedCount: Option<int>,
    totalClicks: Option<int>,
    averageMiningTime: Option<real>,
    peakSpeedMultiplier: Option<real>)

  /**
   * What the handler puts in `updates` for an existing row: speed and time always, the
   * counters and the average when supplied, the peak only when supplied and strictly
   * greater than the stored peak of `existing`.
   */
  function Updates(m: MiningInput, existing: MiningStats, now: int): MiningUpdates {
    MiningUpdates(m.speedMultiplier, now, m.blocksMinedCount, m.totalClicks, m.averageMiningTime,
                  if m.peakSpeedMultiplier.Some? && m.peakSpeedMultiplier.value > existing.peakSpeedMultiplier
                  then m.peakSpeedMultiplier else None)
  }

  /** Builds `updates` one field after the other. */
  method BuildUpdates(m: MiningInput, existing: MiningStats, now: int) returns (u: MiningUpdates)
    ensures u == Updates(m, existing, now)
  {
    u := MiningUpdates(m.speedMultiplier, now, None, None, None, None);
    if m.blocksMinedCount.Some? {
      u := u.(blocksMinedCount := m.blocksMinedCount);
    }
    if m.totalClicks.Some? {
      u := u.(totalClicks := m.totalClicks);
    }
    if m.averageMiningTime.Some? {
      u := u.(averageMiningTime := m.averageMiningTime);
    }
    if m.peakSpeedMultiplier.Some? && m.peakSpeedMultiplier.value > existing.peakSpeedMultiplier {
      u := u.(peakSpeedMultiplier := m.peakSpeedMultiplier);
    }
  }

  /** `SET` with the columns present in `updates`; the others keep their value. */
  function ApplyUpdates(u: MiningUpdates, row: MiningStats): (r: MiningStats)
    ensures r.sessionId == row.sessionId
    ensures r.speedMultiplier == u.speedMultiplier && r.timestamp == u.timestamp
    ensures r.blocksMinedCount == u.blocksMinedCount.GetOr(row.blocksMinedCount)
    ensures r.totalClicks == u.totalClicks.GetOr(row.totalClicks)
    ensures r.averageMiningTime == if u.averageMiningTime.Some? then u.averageMiningTime else row.averageMiningTime
    ensures r.peakSpeedMultiplier == u.peakSpeedMultiplier.GetOr(row.peakSpeedMultiplier)
  {
    row.(speedMultiplier := u.speedMultiplier, timestamp := u.timestamp,
         blocksMinedCount := u.blocksMinedCount.GetOr(row.blocksMinedCount),
         totalClicks := u.totalClicks.GetOr(row.totalClicks),
         averageMiningTime := if u.averageMiningTime.Some? then u.averageMiningTime else row.averageMiningTime,
         peakSpeedMultiplier := u.peakSpeedMultiplier.GetOr(row.peakSpeedMultiplier))
  }

  function Applied(u: MiningUpdates): MiningStats -> MiningStats {
    (row: MiningStats) => ApplyUpdates(u, row)
  }

  /** The handler's answer together with the mining-stats table it leaves behind. */
  datatype Upserted = Upserted(response: Response<MiningStats>, table: seq<MiningStats>)

  /**
   * `POST /analytics/mining-stats`. 400 on a bad body. When a row of the session exists, the
   * first one is read, `updates` is built from it, and the UPDATE writes `updates` into every
   * row of the session (the column is not unique); the answer is the first updated row.
   * Otherwise one row is inserted and returned with 201.
   */
  function Upsert(stats: seq<MiningStats>, m: MiningInput, now: int): Upserted {
    if !ValidMiningInput(m) then Upserted(BadRequest, stats)
    else match FindFirst(stats, StatsOf(m.sessionId))
      case Some(existing) =>
        var u := Updates(m, existing, now);
        Upserted(Ok(ApplyUpdates(u, existing)), UpdateWhere(stats, StatsOf(m.sessionId), Applied(u)))
      case None =>
        Upserted(Created(NewMiningRow(m, now)), stats + [NewMiningRow(m, now)])
  }

  method UpsertMiningStats(db: Database, m: MiningInput, now: int) returns (r: Response<MiningStats>)
    requires db.Valid()
    modifies db`miningStats
    ensures db.Valid()
    ensures r == Upsert(old(db.miningStats), m, now).response
    ensures db.miningStats == Upsert(old(db.miningStats), m, now).table
  {
    if !ValidMiningInput(m) {
      return BadRequest;
    }
    var existing := FindFirst(db.miningStats, StatsOf(m.sessionId));
    if existing.Some? {
      var u := BuildUpdates(m, existing.value, now);
      db.miningStats := UpdateWhere(db.miningStats, StatsOf(m.sessionId), Applied(u));
      r := Ok(ApplyUpdates(u, existing.value));
    } else {
      var created := NewMiningRow(m, now);
      db.miningStats := db.miningStats + [created];
      r := Created(created);
    }
  }

  /** `GET /analytics/mining-stats/:sessionId`: the first row of the session, or 404. */
  function GetMiningStats(stats: seq<MiningStats>, sessionId: string): (r: Response<MiningStats>)
    ensures r.Ok? || r.NotFound?
    ensures r.NotFound? <==> !Any(stats, StatsOf(sessionId))
    ensures r.Ok? ==> r.row in stats && r.row.sessionId == sessionId
  {
    match FindFirst(stats, StatsOf(sessionId))
    case None => NotFound
    case Some(row) => Ok(row)
  }

  /** At most one mining-stats row per session: what the handler tries to keep, though no constraint demands it. */
  ghost predicate SessionsUnique(stats: seq<MiningStats>) {
    forall id :: AtMostOne(stats, StatsOf(id))
  }

  /**
   * The upsert keeps one row per session: it inserts only when the session has no row, and
   * its UPDATE leaves every session id as it was.
   */
  lemma UpsertKeepsSessionsUnique(stats: seq<MiningStats>, m: MiningInput, now: int)
    requires SessionsUnique(stats)
    ensures SessionsUnique(Upsert(stats, m, now).table)
  {
    if ValidMiningInput(m) {
      var found := FindFirst(stats, StatsOf(m.sessionId));
      if found.Some? {
        var u := Updates(m, found.value, now);
        forall id ensures AtMostOne(Upsert(stats, m, now).table, StatsOf(id)) {
          AtMostOneUpdate(stats, StatsOf(m.sessionId), Applied(u), StatsOf(id));
        }
      } else {
        var row := NewMiningRow(m, now);
        forall id ensures AtMostOne(stats + [row], StatsOf(id)) {
          AtMostOneAppend(stats, row, StatsOf(id));
        }
      }
    }
  }

  /**
   * With one row per session, no stored peak ever decreases: the row of the session takes
   * the supplied peak only when it is greater, and every other row keeps its peak.
   */
  lemma UpsertPeakNeverDecreases(stats: seq<MiningStats>, m: MiningInput, now: int)
    requires AtMostOne(stats, StatsOf(m.sessionId))
    ensures var t := Upsert(stats, m, now).table;
      |t| >= |stats| &&
      forall i :: 0 <= i < |stats| ==> t[i].peakSpeedMultiplier >= stats[i].peakSpeedMultiplier
  {
    var t := Upsert(stats, m, now).table;
    if ValidMiningInput(m) {
      var found := FindFirst(stats, StatsOf(m.sessionId));
      if found.Some? {
        var u := Updates(m, found.value, now);
        forall i | 0 <= i < |stats| ensures t[i].peakSpeedMultiplier >= stats[i].peakSpeedMultiplier {
          if stats[i].sessionId == m.sessionId {
            SessionRowIsFound(stats, m.sessionId, i);
          }
        }
      }
    }
  }

  /** Under one row per session, the row of the session at index `i` is the one the handler reads. */
  lemma SessionRowIsFound(stats: seq<MiningStats>, id: string, i: int)
    requires AtMostOne(stats, StatsOf(id)) && 0 <= i < |stats| && stats[i].sessionId == id
    ensures FindFirst(stats, StatsOf(id)) == Some(stats[i])
  {
    FindFirstIsOnlyMatch(stats, StatsOf(id), i);
  }

  /** The UPDATE touches the rows of the session only; every other row is left as it was. */
  lemma UpsertLeavesOtherSessions(stats: seq<MiningStats>, m: MiningInput, now: int)
    ensures var t := Upsert(stats, m, now).table;
      && |t| >= |stats|
      && (forall i :: 0 <= i < |stats| && stats[i].sessionId != m.sessionId ==> t[i] == stats[i])
      && (|t| > |stats| ==> |t| == |stats| + 1 && t[|stats|] == NewMiningRow(m, now))
  {
  }

  /** What the upsert answers is what `GET /analytics/mining-stats/:sessionId` then returns. */
  lemma UpsertThenGet(stats: seq<MiningStats>, m: MiningInput, now: int)
    requires ValidMiningInput(m)
    ensures var u := Upsert(stats, m, now);
      (u.response.Ok? || u.response.Created?) && GetMiningStats(u.table, m.sessionId) == Ok(u.response.row)
  {
    var found := FindFirst(stats, StatsOf(m.sessionId));
    if found.Some? {
      var u := Updates(m, found.value, now);
      FindFirstAfterUpdate(stats, StatsOf(m.sessionId), Applied(u), found.value);
    } else {
      FindFirstAppended(stats, StatsOf(m.sessionId), NewMiningRow(m, now));
    }
  }

  /**
   * With two rows for one session, the peak of the second can drop: the comparison reads
   * the first row only, and the UPDATE then writes the supplied peak into both.
   */
  lemma DuplicateSessionPeakCanDrop()
    ensures var stats := [MiningStats("s", 1.0, 0, 0, None, 1.0, 0), MiningStats("s", 1.0, 0, 0, None, 5.0, 0)];
      var m := MiningInput("s", 1.0, None, None, None, Some(3.0));
      && ValidMiningInput(m)
      && Upsert(stats, m, 1).table[1].peakSpeedMultiplier == 3.0
      && stats[1].peakSpeedMultiplier == 5.0
  {
    var stats := [MiningStats("s", 1.0, 0, 0, None, 1.0, 0), MiningStats("s", 1.0, 0, 0, None, 5.0, 0)];
    assert FindFirst(stats, StatsOf("s")) == Some(stats[0]);
  }

  /** `peak >= speed` is not kept: a faster speed without a peak leaves the old, lower peak. */
  lemma PeakCanFallBelowSpeed()
    ensures var stats := [MiningStats("s", 1.0, 0, 0, None, 2.0, 0)];
      var m := MiningInput("s", 3.0, None, None, None, None);
      && ValidMiningInput(m)
      && var row := Upsert(stats, m, 1).response.row;
         row.speedMultiplier == 3.0 && row.peakSpeedMultiplier == 2.0
  {
    var stats := [MiningStats("s", 1.0, 0, 0, None, 2.0, 0)];
    assert FindFirst(stats, StatsOf("s")) == Some(stats[0]);
  }
}
