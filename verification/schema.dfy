/**
 * The six tables of the backend's database: their row types, enumerated columns, column
 * defaults and uniqueness constraints, and the `Database` object that holds them.
 *
 * Autoincrement `id` columns are not part of the rows (no handler reads them). Time is a
 * plain integer clock; every handler receives it as `now`.
 */
module Schema {
  import opened Wrappers
  import opened Query

  // ---------------------------------------------------------------- enumerated columns

  /** `transactions.status`, a non-null text enum. */
  datatype TxStatus = Pending | Confirmed | Failed

  function StatusName(s: TxStatus): string {
    match s
    case Pending => "pending"
    case Confirmed => "confirmed"
    case Failed => "failed"
  }

  /** The inverse of `StatusName`: what a `z.enum([...])` accepts for a status. */
  function ParseStatus(name: string): (s: Option<TxStatus>)
    ensures s.Some? <==> name in {"pending", "confirmed", "failed"}
  {
    if name == "pending" then Some(Pending)
    else if name == "confirmed" then Some(Confirmed)
    else if name == "failed" then Some(Failed)
    else None
  }

  /** Status names and `ParseStatus` are inverse to each other. */
  lemma StatusNameRoundTrip(s: TxStatus, name: string)
    ensures ParseStatus(StatusName(s)) == Some(s)
    ensures ParseStatus(name) == Some(s) ==> StatusName(s) == name
  {
  }

  /** `interactions.type`. */
  datatype InteractionType = Click | TransactionEvent | MiningBoost

  function InteractionTypeName(k: InteractionType): string {
    match k
    case Click => "click"
    case TransactionEvent => "transaction"
    case MiningBoost => "mining_boost"
  }

  function ParseInteractionType(name: string): (k: Option<InteractionType>)
    ensures k.Some? <==> name in {"click", "transaction", "mining_boost"}
  {
    if name == "click" then Some(Click)
    else if name == "transaction" then Some(TransactionEvent)
    else if name == "mining_boost" then Some(MiningBoost)
    else None
  }

  /** Interaction type names and `ParseInteractionType` are inverse to each other. */
  lemma InteractionTypeNameRoundTrip(k: InteractionType, name: string)
    ensures ParseInteractionType(InteractionTypeName(k)) == Some(k)
    ensures ParseInteractionType(name) == Some(k) ==> InteractionTypeName(k) == name
  {
  }

  /** `nodes.type`. */
  datatype NodeType = Validator | Miner | Peer | SmartContract

  function NodeTypeName(t: NodeType): string {
    match t
    case Validator => "validator"
    case Miner => "miner"
    case Peer => "peer"
    case SmartContract => "smart-contract"
  }

  function ParseNodeType(name: string): (t: Option<NodeType>)
    ensures t.Some? <==> name in {"validator", "miner", "peer", "smart-contract"}
  {
    if name == "validator" then Some(Validator)
    else if name == "miner" then Some(Miner)
    else if name == "peer" then Some(Peer)
    else if name == "smart-contract" then Some(SmartContract)
    else None
  }

  /** Node type names and `ParseNodeType` are inverse to each other. */
  lemma NodeTypeNameRoundTrip(t: NodeType, name: string)
    ensures ParseNodeType(NodeTypeName(t)) == Some(t)
    ensures ParseNodeType(name) == Some(t) ==> NodeTypeName(t) == name
  {
  }

  // ---------------------------------------------------------------- rows

  datatype Block = Block(
    hash: string,               // unique
    previousHash: string,
    height: int,
    chainId: string,
    timestamp: int,
    transactionCount: int,
    minerAddress: Option<string>,
    difficulty: Option<real>,
    nonce: Option<int>,
    createdAt: int)

  datatype Transaction = Transaction(
    hash: string,               // unique
    blockHash: Option<string>,  // declared as a reference to blocks.hash
    fromAddress: string,
    toAddress: string,
    value: real,
    fee: Option<real>,
    status: TxStatus,
    userCreated: bool,
    createdAt: int)

  datatype Interaction = Interaction(
    sessionId: string,
    kind: InteractionType,
    data: Option<string>,
    positionX: Option<real>,
    positionY: Option<real>,
    timestamp: int)

  /** `sessionId` carries no uniqueness constraint. */
  datatype MiningStats = MiningStats(
    sessionId: string,
    speedMultiplier: real,
    blocksMinedCount: int,
    totalClicks: int,
    averageMiningTime: Option<real>,
    peakSpeedMultiplier: real,
    timestamp: int)

  datatype Node = Node(
    nodeId: string,             // unique
    kind: NodeType,
    address: string,
    isActive: bool,
    lastSeen: int,
    consensusParticipation: int,
    createdAt: int)

  datatype ChainFork = ChainFork(
    forkId: string,             // unique
    parentChainId: string,
    forkHeight: int,
    isMainChain: bool,
    totalBlocks: int,
    createdAt: int,
    resolvedAt: Option<int>)

  // ---------------------------------------------------------------- column defaults

  const DefaultTransactionCount := 0
  const DefaultStatus := Pending
  const DefaultUserCreated := false
  const DefaultSpeedMultiplier := 1.0
  const DefaultBlocksMinedCount := 0
  const DefaultTotalClicks := 0
  const DefaultPeakSpeedMultiplier := 1.0
  const DefaultIsActive := true
  const DefaultConsensusParticipation := 0
  const DefaultIsMainChain := false
  const DefaultTotalBlocks := 0

  // ---------------------------------------------------------------- WHERE conditions

  /** `eq(blocks.hash, h)`. */
  function HashIs(h: string): Block -> bool { (b: Block) => b.hash == h }

  /** `eq(blocks.chainId, c)`. */
  function OnChain(c: string): Block -> bool { (b: Block) => b.chainId == c }

  /** `eq(transactions.hash, h)`. */
  function TxHashIs(h: string): Transaction -> bool { (t: Transaction) => t.hash == h }

  /** `eq(nodes.nodeId, id)`. */
  function NodeIdIs(id: string): Node -> bool { (n: Node) => n.nodeId == id }

  /** `eq(chainForks.forkId, id)`. */
  function ForkIdIs(id: string): ChainFork -> bool { (f: ChainFork) => f.forkId == id }

  /** `eq(miningStats.sessionId, id)`. */
  function StatsOf(id: string): MiningStats -> bool { (m: MiningStats) => m.sessionId == id }

  /** `eq(interactions.sessionId, id)`. */
  function InteractionOf(id: string): Interaction -> bool { (i: Interaction) => i.sessionId == id }

  /** A transaction's block reference is NULL or names a stored block. */
  predicate BlockRefValid(blocks: seq<Block>, t: Transaction) {
    t.blockHash.Some? ==> Any(blocks, HashIs(t.blockHash.value))
  }

  // ---------------------------------------------------------------- responses

  /**
   * What a handler answers: 201 with the inserted row, 200 with a row, 400 when the body
   * fails validation, 404 when the addressed row does not exist, 500 when the database
   * raises (here: a uniqueness violation) or the query builder refuses the statement.
   */
  datatype Response<T> = Created(row: T) | Ok(row: T) | BadRequest | NotFound | ServerError {
    function Code(): int {
      match this
      case Created(_) => 201
      case Ok(_) => 200
      case BadRequest => 400
      case NotFound => 404
      case ServerError => 500
    }
  }

  // ---------------------------------------------------------------- the database

  /** The six tables, each a sequence of rows in insertion order. */
  class Database {
    var blocks: seq<Block>
    var transactions: seq<Transaction>
    var interactions: seq<Interaction>
    var miningStats: seq<MiningStats>
    var nodes: seq<Node>
    var forks: seq<ChainFork>

    /**
     * The four UNIQUE constraints of the schema (no key value is carried by two rows), and
     * the reference from `transactions.blockHash` to `blocks.hash` (D1 enforces foreign
     * keys): a transaction that names a block names a stored one.
     */
    ghost predicate Valid()
      reads this
    {
      && (forall h :: AtMostOne(blocks, HashIs(h)))
      && (forall h :: AtMostOne(transactions, TxHashIs(h)))
      && (forall id :: AtMostOne(nodes, NodeIdIs(id)))
      && (forall id :: AtMostOne(forks, ForkIdIs(id)))
      && (forall i :: 0 <= i < |transactions| ==> BlockRefValid(blocks, transactions[i]))
    }

    constructor ()
      ensures Valid()
      ensures blocks == [] && transactions == [] && interactions == []
      ensures miningStats == [] && nodes == [] && forks == []
    {
      blocks, transactions, interactions := [], [], [];
      miningStats, nodes, forks := [], [], [];
    }
  }
}
