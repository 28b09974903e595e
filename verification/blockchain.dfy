/**
 * The blockchain route group: blocks (list, get, create), chain statistics, and chain forks
 * (list, create, resolve). Creating a block also bumps the block counter of the fork whose
 * id equals the block's chain id; resolving a fork first clears every fork's main-chain
 * flag and then sets the resolved one. Both are two statements run one after the other.
 */
module Blockchain {
  import opened Wrappers
  import opened Query
  import opened Schema

  // ================================================================ blocks

  /** The JSON body of `POST /blocks`. */
  datatype BlockInput = BlockInput(
    hash: string,
    previousHash: string,
    height: int,
    chainId: string,
    transactionCount: Option<int>,
    minerAddress: Option<string>,
    difficulty: Option<real>,
    nonce: Option<int>)

  /** `createBlockSchema`: what passes validation; anything else is answered with 400. */
  predicate ValidBlockInput(b: BlockInput) {
    && b.hash != ""
    && b.previousHash != ""
    && b.height >= 0
    && b.chainId != ""
    && (b.transactionCount.Some? ==> b.transactionCount.value >= 0)
  }

  /** The row inserted for a valid body: the given fields, `timestamp = now`, column defaults. */
  function NewBlockRow(b: BlockInput, now: int): (row: Block)
    ensures row.hash == b.hash && row.previousHash == b.previousHash && row.height == b.height && row.chainId == b.chainId
    ensures row.minerAddress == b.minerAddress && row.difficulty == b.difficulty && row.nonce == b.nonce
    ensures row.timestamp == now && row.createdAt == now
    ensures row.transactionCount == b.transactionCount.GetOr(DefaultTransactionCount)
  {
    Block(b.hash, b.previousHash, b.height, b.chainId, now,
          b.transactionCount.GetOr(DefaultTransactionCount),
          b.minerAddress, b.difficulty, b.nonce, now)
  }

  function Height(b: Block): int { b.height }
  function BlockTimestamp(b: Block): int { b.timestamp }

  /** The `chainId` query parameter filters only when it is a non-empty string. */
  predicate FiltersChain(chainIdQ: Option<string>) {
    chainIdQ.Some? && chainIdQ.value != ""
  }

  /** The answer of `GET /blocks`, or the 500 the handler sends when the query fails. */
  datatype BlockList = BlockList(blocks: seq<Block>, count: nat, limit: int, offset: int) | BlocksFailed

  /** The rows the query orders: the blocks of the chain when `chainId` filters, else all blocks. */
  function ChainBlocks(blocks: seq<Block>, chainIdQ: Option<string>): (r: seq<Block>)
    ensures forall b :: b in r <==> b in blocks && (FiltersChain(chainIdQ) ==> b.chainId == chainIdQ.value)
  {
    if FiltersChain(chainIdQ) then Filter(blocks, OnChain(chainIdQ.value)) else blocks
  }

  /**
   * `GET /blocks?limit&offset&chainId`: a page of the chain's blocks, highest first, 10 by
   * default. A negative limit with a non-zero offset makes the statement invalid: 500.
   */
  function ListBlocks(blocks: seq<Block>, limitQ: Option<int>, offsetQ: Option<int>, chainIdQ: Option<string>): (r: BlockList)
    ensures r.BlocksFailed? <==> NumberOr(limitQ, 10) < 0 && NumberOr(offsetQ, 0) != 0
    ensures r.BlockList? ==> r.limit == NumberOr(limitQ, 10) && r.offset == NumberOr(offsetQ, 0) && r.count == |r.blocks|
    ensures r.BlockList? ==> |r.blocks| == PageSize(|ChainBlocks(blocks, chainIdQ)|, r.offset, r.limit)
    ensures r.BlockList? ==> forall b :: b in r.blocks ==> b in blocks && (FiltersChain(chainIdQ) ==> b.chainId == chainIdQ.value)
    ensures r.BlockList? ==> Descending(r.blocks, Height)
  {
    var limit := NumberOr(limitQ, 10);
    var offset := NumberOr(offsetQ, 0);
    var rows := ChainBlocks(blocks, chainIdQ);
    ListingWithin(rows, Height, offset, limit);
    match Listing(rows, Height, offset, limit)
    case None => BlocksFailed
    case Some(page) => BlockList(page, |page|, limit, offset)
  }

  /**
   * Without an offset the page holds the highest blocks: no block of the chain left out is
   * higher than a listed one, and when the limit covers the chain every block is listed.
   */
  lemma FirstBlocksAreHighest(blocks: seq<Block>, limitQ: Option<int>, chainIdQ: Option<string>)
    ensures var r := ListBlocks(blocks, limitQ, None, chainIdQ);
      && r.BlockList?
      && (forall b, c :: b in blocks && (FiltersChain(chainIdQ) ==> b.chainId == chainIdQ.value) && b !in r.blocks && c in r.blocks ==>
            c.height >= b.height)
      && (r.limit < 0 || |ChainBlocks(blocks, chainIdQ)| <= r.limit ==> multiset(r.blocks) == multiset(ChainBlocks(blocks, chainIdQ)))
  {
    var rows := ChainBlocks(blocks, chainIdQ);
    var r := ListBlocks(blocks, limitQ, None, chainIdQ);
    ListingFirstPage(rows, Height, 0, NumberOr(limitQ, 10));
    forall b, c | b in blocks && (FiltersChain(chainIdQ) ==> b.chainId == chainIdQ.value) && b !in r.blocks && c in r.blocks
      ensures c.height >= b.height
    {
      assert b in rows;
      assert Height(c) >= Height(b);
    }
  }

  /** The listing is a page of the chain's blocks in some highest-first order. */
  lemma ListBlocksIsPage(blocks: seq<Block>, limitQ: Option<int>, offsetQ: Option<int>, chainIdQ: Option<string>)
    ensures var r := ListBlocks(blocks, limitQ, offsetQ, chainIdQ);
      r.BlockList? ==> exists t :: multiset(t) == multiset(ChainBlocks(blocks, chainIdQ)) && Descending(t, Height) && r.blocks == Page(t, r.offset, r.limit)
  {
    ListingIsPage(ChainBlocks(blocks, chainIdQ), Height, NumberOr(offsetQ, 0), NumberOr(limitQ, 10));
  }

  /** `GET /blocks/:hash`. */
  function GetBlock(blocks: seq<Block>, hash: string): (r: Response<Block>)
    ensures r.Ok? || r.NotFound?
    ensures r.NotFound? <==> !Any(blocks, HashIs(hash))
    ensures r.Ok? ==> r.row in blocks && r.row.hash == hash
  {
    match FindFirst(blocks, HashIs(hash))
    case None => NotFound
    case Some(b) => Ok(b)
  }

  /** The fork-counter step of `POST /blocks`: `total_blocks + 1` on the fork whose id is `chainId`. */
  function AddBlock(f: ChainFork): ChainFork {
    f.(totalBlocks := f.totalBlocks + 1)
  }

  function BumpFork(forks: seq<ChainFork>, chainId: string): seq<ChainFork> {
    UpdateWhere(forks, ForkIdIs(chainId), AddBlock)
  }

  function TotalBlocks(f: ChainFork): int { f.totalBlocks }

  /** The fork-counter step changes exactly one fork when one has the block's chain id, and none otherwise. */
  lemma BumpForkChangesOne(forks: seq<ChainFork>, chainId: string)
    requires AtMostOne(forks, ForkIdIs(chainId))
    ensures Differences(forks, BumpFork(forks, chainId)) == if Any(forks, ForkIdIs(chainId)) then 1 else 0
  {
    UpdateWhereChanges(forks, ForkIdIs(chainId), AddBlock);
    AtMostOneCount(forks, ForkIdIs(chainId));
  }

  /** The matching fork gains one block and keeps every other column; the other forks are untouched. */
  lemma BumpForkRows(forks: seq<ChainFork>, chainId: string)
    ensures var r := BumpFork(forks, chainId);
      && |r| == |forks|
      && (forall i :: 0 <= i < |forks| ==>
            r[i] == (if forks[i].forkId == chainId then forks[i].(totalBlocks := forks[i].totalBlocks + 1) else forks[i]))
  {
  }

  /** Summed over all forks, the counters grow by one exactly when a fork matched. */
  lemma BumpForkTotal(forks: seq<ChainFork>, chainId: string)
    requires AtMostOne(forks, ForkIdIs(chainId))
    ensures Sum(BumpFork(forks, chainId), TotalBlocks) ==
            Sum(forks, TotalBlocks) + if Any(forks, ForkIdIs(chainId)) then 1 else 0
  {
    SumAfterIncrement(forks, ForkIdIs(chainId), AddBlock, TotalBlocks);
    AtMostOneCount(forks, ForkIdIs(chainId));
  }

  /** The fork-counter step leaves every fork id where it was, so the UNIQUE constraint holds. */
  lemma BumpForkKeepsKeys(forks: seq<ChainFork>, chainId: string)
    requires forall id :: AtMostOne(forks, ForkIdIs(id))
    ensures forall id :: AtMostOne(BumpFork(forks, chainId), ForkIdIs(id))
  {
    forall id ensures AtMostOne(BumpFork(forks, chainId), ForkIdIs(id)) {
      AtMostOneUpdate(forks, ForkIdIs(chainId), AddBlock, ForkIdIs(id));
    }
  }

  /**
   * `POST /blocks`. A body that fails validation is answered with 400 and changes nothing;
   * a hash that is already stored violates the UNIQUE constraint, the insert raises, and the
   * handler answers 500 with nothing changed. Otherwise the row is appended and then the
   * fork counter step runs (its guard `if (data.chainId)` always holds, since validation
   * demands a non-empty chain id).
   */
  method CreateBlock(db: Database, input: BlockInput, now: int) returns (r: Response<Block>)
    requires db.Valid()
    modifies db`blocks, db`forks
    ensures db.Valid()
    ensures !ValidBlockInput(input) ==>
      r == BadRequest && db.blocks == old(db.blocks) && db.forks == old(db.forks)
    ensures ValidBlockInput(input) && Any(old(db.blocks), HashIs(input.hash)) ==>
      r == ServerError && db.blocks == old(db.blocks) && db.forks == old(db.forks)
    ensures ValidBlockInput(input) && !Any(old(db.blocks), HashIs(input.hash)) ==>
      && r == Created(NewBlockRow(input, now))
      && db.blocks == old(db.blocks) + [NewBlockRow(input, now)]
      && db.forks == BumpFork(old(db.forks), input.chainId)
  {
    if !ValidBlockInput(input) {
      return BadRequest;
    }
    if Any(db.blocks, HashIs(input.hash)) {
      return ServerError;
    }
    var created := NewBlockRow(input, now);
    forall h ensures AtMostOne(db.blocks + [created], HashIs(h)) {
      AtMostOneAppend(db.blocks, created, HashIs(h));
    }
    forall t | t in db.transactions && t.blockHash.Some? ensures BlockRefValid(db.blocks + [created], t) {
      AnySnoc(db.blocks, created, HashIs(t.blockHash.value));
    }
    db.blocks := db.blocks + [created];
    BumpForkKeepsKeys(db.forks, input.chainId);
    db.forks := BumpFork(db.forks, input.chainId);
    r := Created(created);
  }

  /** A block that was created is what `GET /blocks/:hash` then returns, with `timestamp = now`. */
  lemma CreatedBlockIsFound(blocks: seq<Block>, input: BlockInput, now: int)
    requires !Any(blocks, HashIs(input.hash))
    ensures GetBlock(blocks + [NewBlockRow(input, now)], input.hash) == Ok(NewBlockRow(input, now))
    ensures GetBlock(blocks + [NewBlockRow(input, now)], input.hash).row.timestamp == now
  {
    FindFirstAppended(blocks, HashIs(input.hash), NewBlockRow(input, now));
  }

  // ================================================================ chain statistics

  /** One row of `select chainId, count(*), max(height) ... group by chainId`. */
  datatype ChainSummary = ChainSummary(chainId: string, blockCount: nat, maxHeight: int)

  /** The group of chain `c`. */
  function GroupOf(c: string): ChainSummary -> bool { (x: ChainSummary) => x.chainId == c }

  function BlockCount(x: ChainSummary): int { x.blockCount }

  /** No chain id heads two groups. */
  ghost predicate DistinctChains(g: seq<ChainSummary>) {
    forall c :: AtMostOne(g, GroupOf(c))
  }

  /** Counts block `b` into its chain's existing group. */
  function CountInto(x: ChainSummary, b: Block): (y: ChainSummary)
    ensures y.chainId == x.chainId && y.blockCount == x.blockCount + 1
    ensures y.maxHeight >= x.maxHeight && y.maxHeight >= b.height
    ensures y.maxHeight == x.maxHeight || y.maxHeight == b.height
  {
    x.(blockCount := x.blockCount + 1, maxHeight := if b.height > x.maxHeight then b.height else x.maxHeight)
  }

  /** Adds one block to the running groups: counts it into its chain's group, or opens a new group at the end. */
  function AddToGroups(g: seq<ChainSummary>, b: Block): seq<ChainSummary> {
    if Any(g, GroupOf(b.chainId)) then UpdateWhere(g, GroupOf(b.chainId), (x: ChainSummary) => CountInto(x, b))
    else g + [ChainSummary(b.chainId, 1, b.height)]
  }

  /** `group by chainId`, groups in the order each chain id first appears. */
  function GroupByChain(blocks: seq<Block>): (r: seq<ChainSummary>)
    ensures |r| <= |blocks|
    ensures blocks != [] ==> r != []
  {
    if blocks == [] then []
    else AddToGroups(GroupByChain(blocks[..|blocks| - 1]), blocks[|blocks| - 1])
  }

  /**
   * The groups describe the table: no chain is grouped twice, every block's chain has a
   * group, and each group holds `count(*)` and `max(height)` over the blocks of its chain.
   */
  ghost predicate Describes(g: seq<ChainSummary>, blocks: seq<Block>) {
    && DistinctChains(g)
    && (forall k :: 0 <= k < |blocks| ==> Any(g, GroupOf(blocks[k].chainId)))
    && (forall i :: 0 <= i < |g| ==> GroupFits(g[i], blocks))
  }

  /** A group's count and maximum are those of its chain's blocks. */
  ghost predicate GroupFits(x: ChainSummary, blocks: seq<Block>) {
    && x.blockCount == Count(blocks, OnChain(x.chainId))
    && SqlMax(blocks, OnChain(x.chainId), Height) == Some(x.maxHeight)
  }

  lemma AddToGroupsDistinct(g: seq<ChainSummary>, b: Block)
    requires DistinctChains(g)
    ensures DistinctChains(AddToGroups(g, b))
  {
    var f := (x: ChainSummary) => CountInto(x, b);
    var newGroup := ChainSummary(b.chainId, 1, b.height);
    forall c ensures AtMostOne(AddToGroups(g, b), GroupOf(c)) {
      if Any(g, GroupOf(b.chainId)) {
        AtMostOneUpdate(g, GroupOf(b.chainId), f, GroupOf(c));
      } else {
        AtMostOneAppend(g, newGroup, GroupOf(c));
      }
    }
  }

  lemma AddToGroupsSum(g: seq<ChainSummary>, b: Block)
    requires DistinctChains(g)
    ensures Sum(AddToGroups(g, b), BlockCount) == Sum(g, BlockCount) + 1
  {
    if Any(g, GroupOf(b.chainId)) {
      SumAfterIncrement(g, GroupOf(b.chainId), (x: ChainSummary) => CountInto(x, b), BlockCount);
      AtMostOneCount(g, GroupOf(b.chainId));
    } else {
      SumAppend(g, ChainSummary(b.chainId, 1, b.height), BlockCount);
    }
  }

  /** Where block `b` lands: the group of every other chain stays as it was. */
  lemma AddToGroupsShape(g: seq<ChainSummary>, b: Block)
    ensures var r := AddToGroups(g, b);
      && |r| == (if Any(g, GroupOf(b.chainId)) then |g| else |g| + 1)
      && (forall i :: 0 <= i < |g| ==> r[i] == (if g[i].chainId == b.chainId then CountInto(g[i], b) else g[i]))
      && (!Any(g, GroupOf(b.chainId)) ==> r[|g|] == ChainSummary(b.chainId, 1, b.height))
  {
  }

  lemma AddToGroupsCovers(g: seq<ChainSummary>, s: seq<Block>, b: Block)
    requires forall k :: 0 <= k < |s| ==> Any(g, GroupOf(s[k].chainId))
    ensures var t := s + [b];
      forall k :: 0 <= k < |t| ==> Any(AddToGroups(g, b), GroupOf(t[k].chainId))
  {
    var r := AddToGroups(g, b);
    var t := s + [b];
    AddToGroupsShape(g, b);
    forall k | 0 <= k < |t| ensures Any(r, GroupOf(t[k].chainId)) {
      if k < |s| {
        assert t[k] == s[k];
        var i :| 0 <= i < |g| && g[i].chainId == s[k].chainId;
        assert r[i].chainId == s[k].chainId;
      } else if Any(g, GroupOf(b.chainId)) {
        var i :| 0 <= i < |g| && g[i].chainId == b.chainId;
        assert r[i].chainId == b.chainId;
      } else {
        assert r[|g|].chainId == b.chainId;
      }
    }
  }

  /** A group of another chain still fits after `b` is added to the table. */
  lemma OtherGroupFits(x: ChainSummary, s: seq<Block>, b: Block)
    requires GroupFits(x, s) && x.chainId != b.chainId
    ensures GroupFits(x, s + [b])
  {
    CountAppend(s, b, OnChain(x.chainId));
    SqlMaxAppend(s, b, OnChain(x.chainId), Height);
  }

  /** The group of `b`'s chain fits once `b` is counted into it. */
  lemma OwnGroupFits(x: ChainSummary, s: seq<Block>, b: Block)
    requires GroupFits(x, s) && x.chainId == b.chainId
    ensures GroupFits(CountInto(x, b), s + [b])
  {
    CountAppend(s, b, OnChain(x.chainId));
    SqlMaxAppend(s, b, OnChain(x.chainId), Height);
  }

  /** A chain seen for the first time gets a group of one block at its height. */
  lemma NewGroupFits(s: seq<Block>, b: Block)
    requires !Any(s, OnChain(b.chainId))
    ensures GroupFits(ChainSummary(b.chainId, 1, b.height), s + [b])
  {
    CountAppend(s, b, OnChain(b.chainId));
    SqlMaxAppend(s, b, OnChain(b.chainId), Height);
  }

  lemma AddToGroupsFits(g: seq<ChainSummary>, s: seq<Block>, b: Block)
    requires forall i :: 0 <= i < |g| ==> GroupFits(g[i], s)
    requires forall k :: 0 <= k < |s| ==> Any(g, GroupOf(s[k].chainId))
    ensures var r := AddToGroups(g, b);
      forall i :: 0 <= i < |r| ==> GroupFits(r[i], s + [b])
  {
    var r := AddToGroups(g, b);
    AddToGroupsShape(g, b);
    forall i | 0 <= i < |r| ensures GroupFits(r[i], s + [b]) {
      if i == |g| {
        assert !Any(s, OnChain(b.chainId)) by {
          forall k | 0 <= k < |s| ensures s[k].chainId != b.chainId {
            var j :| 0 <= j < |g| && g[j].chainId == s[k].chainId;
          }
        }
        NewGroupFits(s, b);
      } else if g[i].chainId == b.chainId {
        OwnGroupFits(g[i], s, b);
      } else {
        OtherGroupFits(g[i], s, b);
      }
    }
  }

  lemma {:induction false} GroupByChainDescribes(blocks: seq<Block>)
    ensures Describes(GroupByChain(blocks), blocks)
    ensures Sum(GroupByChain(blocks), BlockCount) == |blocks|
  {
    if blocks != [] {
      var s := blocks[..|blocks| - 1];
      var b := blocks[|blocks| - 1];
      assert blocks == s + [b];
      GroupByChainDescribes(s);
      var g := GroupByChain(s);
      AddToGroupsDistinct(g, b);
      AddToGroupsSum(g, b);
      AddToGroupsCovers(g, s, b);
      AddToGroupsFits(g, s, b);
    }
  }

  /** What a group's fields mean: the chain's block count, and a height reached and never exceeded. */
  lemma GroupMeaning(g: seq<ChainSummary>, blocks: seq<Block>, i: int)
    requires Describes(g, blocks) && 0 <= i < |g|
    ensures g[i].blockCount >= 1
    ensures forall k :: 0 <= k < |blocks| && blocks[k].chainId == g[i].chainId ==> blocks[k].height <= g[i].maxHeight
    ensures exists k :: 0 <= k < |blocks| && blocks[k].chainId == g[i].chainId && blocks[k].height == g[i].maxHeight
  {
    SqlMaxIsMax(blocks, OnChain(g[i].chainId), Height);
  }

  datatype ChainStats = ChainStats(totalBlocks: nat, chains: seq<ChainSummary>, recentBlocks: seq<Block>, timestamp: int)

  /**
   * `GET /stats`: the block count, the per-chain groups, and the five most recent blocks.
   * The groups describe the table and their counts add up to the total.
   */
  function ChainStatistics(blocks: seq<Block>, now: int): (r: ChainStats)
    ensures r.totalBlocks == |blocks| && r.timestamp == now
    ensures Sum(r.chains, BlockCount) == r.totalBlocks
    ensures Describes(r.chains, blocks)
    ensures r.recentBlocks == Top(blocks, BlockTimestamp, 5)
  {
    GroupByChainDescribes(blocks);
    ChainStats(|blocks|, GroupByChain(blocks), Top(blocks, BlockTimestamp, 5), now)
  }

  /** The recent blocks are at most five blocks of the table, newest first, none older than a block left out. */
  lemma RecentBlocksAreNewest(blocks: seq<Block>, now: int)
    ensures var recent := ChainStatistics(blocks, now).recentBlocks;
      && |recent| <= 5 && Descending(recent, BlockTimestamp)
      && (forall b :: b in recent ==> b in blocks)
      && (forall b, c :: b in blocks && b !in recent && c in recent ==> c.timestamp >= b.timestamp)
  {
    var recent := ChainStatistics(blocks, now).recentBlocks;
    TopWithin(blocks, BlockTimestamp, 5);
    TopRanks(blocks, BlockTimestamp, 5);
    forall b, c | b in blocks && b !in recent && c in recent ensures c.timestamp >= b.timestamp {
      assert BlockTimestamp(c) >= BlockTimestamp(b);
    }
  }

  // ================================================================ forks

  /** The JSON body of `POST /forks`. */
  datatype ForkInput = ForkInput(forkId: string, parentChainId: string, forkHeight: int, isMainChain: Option<bool>)

  /** `createForkSchema`. */
  predicate ValidForkInput(f: ForkInput) {
    f.forkId != "" && f.parentChainId != "" && f.forkHeight >= 0
  }

  /** The inserted fork: the given fields, `totalBlocks = 0`, not yet resolved. */
  function NewForkRow(f: ForkInput, now: int): (row: ChainFork)
    ensures row.forkId == f.forkId && row.parentChainId == f.parentChainId && row.forkHeight == f.forkHeight
    ensures row.totalBlocks == 0 && row.resolvedAt.None? && row.createdAt == now
    ensures row.isMainChain == f.isMainChain.GetOr(DefaultIsMainChain)
  {
    ChainFork(f.forkId, f.parentChainId, f.forkHeight, f.isMainChain.GetOr(DefaultIsMainChain), 0, now, None)
  }

  function ForkCreatedAt(f: ChainFork): int { f.createdAt }

  /** `GET /forks`: every fork, most recently created first. */
  function ListForks(forks: seq<ChainFork>): (r: seq<ChainFork>)
    ensures multiset(r) == multiset(forks)
    ensures Descending(r, ForkCreatedAt)
  {
    SortDesc(forks, ForkCreatedAt)
  }

  /** `POST /forks`: 400 on a bad body, 500 (nothing inserted) on a duplicate fork id. */
  method CreateFork(db: Database, input: ForkInput, now: int) returns (r: Response<ChainFork>)
    requires db.Valid()
    modifies db`forks
    ensures db.Valid()
    ensures !ValidForkInput(input) ==> r == BadRequest && db.forks == old(db.forks)
    ensures ValidForkInput(input) && Any(old(db.forks), ForkIdIs(input.forkId)) ==>
      r == ServerError && db.forks == old(db.forks)
    ensures ValidForkInput(input) && !Any(old(db.forks), ForkIdIs(input.forkId)) ==>
      r == Created(NewForkRow(input, now)) && db.forks == old(db.forks) + [NewForkRow(input, now)]
  {
    if !ValidForkInput(input) {
      return BadRequest;
    }
    if Any(db.forks, ForkIdIs(input.forkId)) {
      return ServerError;
    }
    var created := NewForkRow(input, now);
    forall id ensures AtMostOne(db.forks + [created], ForkIdIs(id)) {
      AtMostOneAppend(db.forks, created, ForkIdIs(id));
    }
    db.forks := db.forks + [created];
    r := Created(created);
  }

  function IsMain(f: ChainFork): bool { f.isMainChain }

  /**
   * Creation does not keep "at most one main chain": a body may ask for `isMainChain: true`
   * while another fork already is the main chain, and the insert goes through.
   */
  lemma CreateForkCanAddSecondMainChain()
    ensures var forks := [ChainFork("a", "root", 1, true, 0, 0, None)];
      var input := ForkInput("b", "root", 2, Some(true));
      && ValidForkInput(input)
      && !Any(forks, ForkIdIs("b"))
      && Count(forks + [NewForkRow(input, 1)], IsMain) == 2
  {
    var forks := [ChainFork("a", "root", 1, true, 0, 0, None)];
    var added := forks + [NewForkRow(ForkInput("b", "root", 2, Some(true)), 1)];
    assert !ForkIdIs("b")(forks[0]);
    assert Filter(added, IsMain) == [added[0]] + Filter(added[1..], IsMain);
    assert Filter(added[1..], IsMain) == [added[1]] + Filter(added[2..], IsMain);
  }

  /** First statement of `PUT /forks/:forkId/resolve`: every fork loses its main-chain flag. */
  function ClearMainChains(forks: seq<ChainFork>): (r: seq<ChainFork>)
    ensures |r| == |forks| && !Any(r, IsMain)
    ensures forall i :: 0 <= i < |r| ==> r[i].(isMainChain := forks[i].isMainChain) == forks[i]
  {
    UpdateWhere(forks, (f: ChainFork) => true, (f: ChainFork) => f.(isMainChain := false))
  }

  /** Second statement: the fork with that id becomes the main chain, resolved at `now`. */
  function MarkMainChain(forks: seq<ChainFork>, forkId: string, now: int): (r: seq<ChainFork>)
    ensures |r| == |forks|
    ensures forall i :: 0 <= i < |r| && forks[i].forkId == forkId ==>
      r[i].isMainChain && r[i].resolvedAt == Some(now) && r[i].(isMainChain := forks[i].isMainChain, resolvedAt := forks[i].resolvedAt) == forks[i]
    ensures forall i :: 0 <= i < |r| && forks[i].forkId != forkId ==> r[i] == forks[i]
  {
    UpdateWhere(forks, ForkIdIs(forkId), (f: ChainFork) => f.(isMainChain := true, resolvedAt := Some(now)))
  }

  /**
   * After both statements, a fork is the main chain exactly when it has the requested id.
   * The resolved fork carries `resolvedAt = now`; every other fork only lost its flag.
   */
  lemma ResolveRows(forks: seq<ChainFork>, forkId: string, now: int)
    ensures var r := MarkMainChain(ClearMainChains(forks), forkId, now);
      && |r| == |forks|
      && (forall i :: 0 <= i < |r| ==> (r[i].isMainChain <==> forks[i].forkId == forkId))
      && (forall i :: 0 <= i < |r| && forks[i].forkId == forkId ==>
            r[i] == forks[i].(isMainChain := true, resolvedAt := Some(now)))
      && (forall i :: 0 <= i < |r| && forks[i].forkId != forkId ==>
            r[i] == forks[i].(isMainChain := false))
  {
  }

  /** Under the UNIQUE fork id, resolving leaves one main chain when the fork exists and none otherwise. */
  lemma ResolveLeavesOneMainChain(forks: seq<ChainFork>, forkId: string, now: int)
    requires AtMostOne(forks, ForkIdIs(forkId))
    ensures Count(MarkMainChain(ClearMainChains(forks), forkId, now), IsMain) ==
            if Any(forks, ForkIdIs(forkId)) then 1 else 0
  {
    var c := ClearMainChains(forks);
    var r := MarkMainChain(c, forkId, now);
    ResolveRows(forks, forkId, now);
    CountAgree(r, IsMain, ForkIdIs(forkId));
    ResolveKeepsKeys(forks, forkId, now, forkId);
    AtMostOneCount(r, ForkIdIs(forkId));
  }

  /** Both statements leave every fork id in place: the UNIQUE constraint and the set of ids survive. */
  lemma ResolveKeepsKeys(forks: seq<ChainFork>, forkId: string, now: int, id: string)
    ensures AtMostOne(forks, ForkIdIs(id)) ==> AtMostOne(MarkMainChain(ClearMainChains(forks), forkId, now), ForkIdIs(id))
    ensures Any(MarkMainChain(ClearMainChains(forks), forkId, now), ForkIdIs(id)) <==> Any(forks, ForkIdIs(id))
  {
    var clear := (f: ChainFork) => f.(isMainChain := false);
    var mark := (f: ChainFork) => f.(isMainChain := true, resolvedAt := Some(now));
    var c := ClearMainChains(forks);
    AnyAfterUpdate(forks, (f: ChainFork) => true, clear, ForkIdIs(id));
    AnyAfterUpdate(c, ForkIdIs(forkId), mark, ForkIdIs(id));
    if AtMostOne(forks, ForkIdIs(id)) {
      AtMostOneUpdate(forks, (f: ChainFork) => true, clear, ForkIdIs(id));
      AtMostOneUpdate(c, ForkIdIs(forkId), mark, ForkIdIs(id));
    }
  }

  /**
   * `PUT /forks/:forkId/resolve`. Both statements always run: an unknown id is answered
   * with 404 after every fork's main-chain flag has already been cleared.
   */
  method ResolveFork(db: Database, forkId: string, now: int) returns (r: Response<ChainFork>)
    requires db.Valid()
    modifies db`forks
    ensures db.Valid()
    ensures db.forks == MarkMainChain(ClearMainChains(old(db.forks)), forkId, now)
    ensures r.Ok? || r.NotFound?
    ensures r.NotFound? <==> !Any(old(db.forks), ForkIdIs(forkId))
    ensures r.NotFound? ==> forall f :: f in db.forks ==> !f.isMainChain
    ensures r.Ok? ==> r.row in db.forks && r.row.forkId == forkId && r.row.isMainChain && r.row.resolvedAt == Some(now)
  {
    ghost var before := db.forks;
    db.forks := ClearMainChains(db.forks);
    db.forks := MarkMainChain(db.forks, forkId, now);
    ResolveRows(before, forkId, now);
    forall id ensures AtMostOne(db.forks, ForkIdIs(id)) {
      ResolveKeepsKeys(before, forkId, now, id);
    }
    ResolveKeepsKeys(before, forkId, now, forkId);
    var resolved := FindFirst(db.forks, ForkIdIs(forkId));
    if resolved.None? {
      forall f | f in db.forks ensures !f.isMainChain {
        var i :| 0 <= i < |db.forks| && db.forks[i] == f;
      }
      return NotFound;
    }
    r := Ok(resolved.value);
  }
}
