/**
 * The nodes route group: listing, lookup, registration, status patches, heartbeats, the
 * network statistics and the inactivity sweep over the `nodes` table.
 */
module Nodes {
  import opened Wrappers
  import opened Query
  import opened Schema

  // ================================================================ list and get

  function LastSeen(n: Node): int { n.lastSeen }

  /**
   * The WHERE clause of `GET /nodes`. The `active` filter is always applied, as
   * `query('active') === 'true'` is a boolean even when the parameter is missing. The
   * `type` filter is set first (when the parameter is non-empty) and then a second
   * `.where` is called; `typeFilterKept` says whether it survives that second call.
   */
  function NodeFilter(typeQ: Option<string>, activeQ: Option<string>, typeFilterKept: bool): Node -> bool {
    (n: Node) =>
      && n.isActive == (activeQ == Some("true"))
      && (typeFilterKept && typeQ.Some? && typeQ.value != "" ==> NodeTypeName(n.kind) == typeQ.value)
  }

  datatype NodeList = NodeList(nodes: seq<Node>, count: nat)

  /** `GET /nodes?type&active`: the matching nodes, most recently seen first. */
  function ListNodes(nodes: seq<Node>, typeQ: Option<string>, activeQ: Option<string>, typeFilterKept: bool): (r: NodeList)
    ensures r.count == |r.nodes|
    ensures Descending(r.nodes, LastSeen)
  {
    var rows := SortDesc(Filter(nodes, NodeFilter(typeQ, activeQ, typeFilterKept)), LastSeen);
    NodeList(rows, |rows|)
  }

  /** A node is listed exactly when it is stored and passes the filters. */
  lemma ListedNodesMatch(nodes: seq<Node>, typeQ: Option<string>, activeQ: Option<string>, typeFilterKept: bool)
    ensures forall n :: n in ListNodes(nodes, typeQ, activeQ, typeFilterKept).nodes <==>
      && n in nodes
      && n.isActive == (activeQ == Some("true"))
      && (typeFilterKept && typeQ.Some? && typeQ.value != "" ==> NodeTypeName(n.kind) == typeQ.value)
  {
    var p := NodeFilter(typeQ, activeQ, typeFilterKept);
    SameMembers(SortDesc(Filter(nodes, p), LastSeen), Filter(nodes, p));
  }

  /** Without `active=true` only inactive nodes are listed, and, without a type, all of them. */
  lemma DefaultListShowsInactiveNodes(nodes: seq<Node>, activeQ: Option<string>, typeFilterKept: bool)
    requires activeQ != Some("true")
    ensures forall n :: n in ListNodes(nodes, None, activeQ, typeFilterKept).nodes <==> n in nodes && !n.isActive
  {
    ListedNodesMatch(nodes, None, activeQ, typeFilterKept);
  }

  /** `GET /nodes/:nodeId`. */
  function GetNode(nodes: seq<Node>, nodeId: string): (r: Response<Node>)
    ensures r.Ok? || r.NotFound?
    ensures r.NotFound? <==> !Any(nodes, NodeIdIs(nodeId))
    ensures r.Ok? ==> r.row in nodes && r.row.nodeId == nodeId
  {
    match FindFirst(nodes, NodeIdIs(nodeId))
    case None => NotFound
    case Some(n) => Ok(n)
  }

  // ================================================================ register

  /** The JSON body of `POST /nodes`. */
  datatype NodeInput = NodeInput(nodeId: string, kind: string, address: string, isActive: Option<bool>)

  /** `createNodeSchema`. */
  predicate ValidNodeInput(i: NodeInput) {
    i.nodeId != "" && ParseNodeType(i.kind).Some? && i.address != ""
  }

  /**
   * The inserted row: `isActive` as supplied or true, participation 0, and `lastSeen` and
   * `createdAt` from the column default `CURRENT_TIMESTAMP`.
   */
  function NewNodeRow(i: NodeInput, now: int): (row: Node)
    requires ValidNodeInput(i)
    ensures row.nodeId == i.nodeId && NodeTypeName(row.kind) == i.kind && row.address == i.address
    ensures row.isActive == i.isActive.GetOr(DefaultIsActive)
    ensures row.consensusParticipation == DefaultConsensusParticipation
    ensures row.lastSeen == now && row.createdAt == now
  {
    var kind := ParseNodeType(i.kind).value;
    NodeTypeNameRoundTrip(kind, i.kind);
    Node(i.nodeId, kind, i.address, i.isActive.GetOr(true), now, 0, now)
  }

  /** `POST /nodes`: 400 on a bad body, 500 when the `nodeId` is taken, otherwise one row appended. */
  method RegisterNode(db: Database, input: NodeInput, now: int) returns (r: Response<Node>)
    requires db.Valid()
    modifies db`nodes
    ensures db.Valid()
    ensures !ValidNodeInput(input) ==> r == BadRequest && db.nodes == old(db.nodes)
    ensures ValidNodeInput(input) && Any(old(db.nodes), NodeIdIs(input.nodeId)) ==>
      r == ServerError && db.nodes == old(db.nodes)
    ensures ValidNodeInput(input) && !Any(old(db.nodes), NodeIdIs(input.nodeId)) ==>
      r == Created(NewNodeRow(input, now)) && db.nodes == old(db.nodes) + [NewNodeRow(input, now)]
  {
    if !ValidNodeInput(input) {
      return BadRequest;
    }
    var created := NewNodeRow(input, now);
    if Any(db.nodes, NodeIdIs(input.nodeId)) {
      return ServerError;
    }
    forall id ensures AtMostOne(db.nodes + [created], NodeIdIs(id)) {
      AtMostOneAppend(db.nodes, created, NodeIdIs(id));
    }
    db.nodes := db.nodes + [created];
    r := Created(created);
  }

  /** A registered node is what `GET /nodes/:nodeId` returns next. */
  lemma RegisteredNodeIsFound(nodes: seq<Node>, input: NodeInput, now: int)
    requires ValidNodeInput(input) && !Any(nodes, NodeIdIs(input.nodeId))
    ensures GetNode(nodes + [NewNodeRow(input, now)], input.nodeId) == Ok(NewNodeRow(input, now))
  {
    FindFirstAppended(nodes, NodeIdIs(input.nodeId), NewNodeRow(input, now));
  }

  // ================================================================ patch and heartbeat

  /** The JSON body of `PATCH /nodes/:nodeId`. */
  datatype NodePatch = NodePatch(isActive: Option<bool>, consensusParticipation: Option<int>)

  /** `SET` with the supplied fields and `lastSeen = now`; every other column keeps its value. */
  function ApplyNodePatch(p: NodePatch, now: int, n: Node): (u: Node)
    ensures u.nodeId == n.nodeId && u.kind == n.kind && u.address == n.address && u.createdAt == n.createdAt
    ensures u.isActive == p.isActive.GetOr(n.isActive)
    ensures u.consensusParticipation == p.consensusParticipation.GetOr(n.consensusParticipation)
    ensures u.lastSeen == now
  {
    n.(isActive := p.isActive.GetOr(n.isActive),
       consensusParticipation := p.consensusParticipation.GetOr(n.consensusParticipation),
       lastSeen := now)
  }

  function NodePatched(p: NodePatch, now: int): Node -> Node {
    (n: Node) => ApplyNodePatch(p, now, n)
  }

  /** An UPDATE that finds no row changes nothing. */
  lemma UpdateWithoutMatch(nodes: seq<Node>, nodeId: string, f: Node -> Node)
    requires !Any(nodes, NodeIdIs(nodeId))
    ensures UpdateWhere(nodes, NodeIdIs(nodeId), f) == nodes
  {
    var r := UpdateWhere(nodes, NodeIdIs(nodeId), f);
    forall i | 0 <= i < |nodes| ensures r[i] == nodes[i] {
      assert !NodeIdIs(nodeId)(nodes[i]);
    }
  }

  /**
   * `PATCH /nodes/:nodeId`: the UPDATE runs first and its first returned row decides
   * between 404 (no row, so nothing changed) and 200 with the patched row.
   */
  method PatchNode(db: Database, nodeId: string, patch: NodePatch, now: int) returns (r: Response<Node>)
    requires db.Valid()
    modifies db`nodes
    ensures db.Valid()
    ensures !Any(old(db.nodes), NodeIdIs(nodeId)) ==> r == NotFound && db.nodes == old(db.nodes)
    ensures Any(old(db.nodes), NodeIdIs(nodeId)) ==>
      && db.nodes == UpdateWhere(old(db.nodes), NodeIdIs(nodeId), NodePatched(patch, now))
      && r == Ok(ApplyNodePatch(patch, now, FindFirst(old(db.nodes), NodeIdIs(nodeId)).value))
  {
    ghost var before := db.nodes;
    db.nodes := UpdateWhere(db.nodes, NodeIdIs(nodeId), NodePatched(patch, now));
    forall id ensures AtMostOne(db.nodes, NodeIdIs(id)) {
      AtMostOneUpdate(before, NodeIdIs(nodeId), NodePatched(patch, now), NodeIdIs(id));
    }
    var updated := FindFirst(db.nodes, NodeIdIs(nodeId));
    AnyAfterUpdate(before, NodeIdIs(nodeId), NodePatched(patch, now), NodeIdIs(nodeId));
    if updated.None? {
      UpdateWithoutMatch(before, nodeId, NodePatched(patch, now));
      return NotFound;
    }
    FindFirstAfterUpdate(before, NodeIdIs(nodeId), NodePatched(patch, now), FindFirst(before, NodeIdIs(nodeId)).value);
    r := Ok(updated.value);
  }

  /** With unique node ids a patch touches at most one row, and only the row of that node. */
  lemma PatchTouchesOnlyThatNode(nodes: seq<Node>, nodeId: string, patch: NodePatch, now: int)
    requires AtMostOne(nodes, NodeIdIs(nodeId))
    ensures Count(nodes, NodeIdIs(nodeId)) <= 1
    ensures var r := UpdateWhere(nodes, NodeIdIs(nodeId), NodePatched(patch, now));
      forall i :: 0 <= i < |nodes| && nodes[i].nodeId != nodeId ==> r[i] == nodes[i]
  {
    AtMostOneCount(nodes, NodeIdIs(nodeId));
  }

  /** `SET lastSeen = now, isActive = true`. */
  function Beat(now: int): Node -> Node {
    (n: Node) => n.(lastSeen := now, isActive := true)
  }

  datatype HeartbeatReply = HeartbeatReply(nodeId: string, lastSeen: int)

  /** `POST /nodes/:nodeId/heartbeat`: 404 when no row has the id, otherwise the node is seen now and active. */
  method Heartbeat(db: Database, nodeId: string, now: int) returns (r: Response<HeartbeatReply>)
    requires db.Valid()
    modifies db`nodes
    ensures db.Valid()
    ensures !Any(old(db.nodes), NodeIdIs(nodeId)) ==> r == NotFound && db.nodes == old(db.nodes)
    ensures Any(old(db.nodes), NodeIdIs(nodeId)) ==>
      db.nodes == UpdateWhere(old(db.nodes), NodeIdIs(nodeId), Beat(now)) && r == Ok(HeartbeatReply(nodeId, now))
  {
    ghost var before := db.nodes;
    db.nodes := UpdateWhere(db.nodes, NodeIdIs(nodeId), Beat(now));
    forall id ensures AtMostOne(db.nodes, NodeIdIs(id)) {
      AtMostOneUpdate(before, NodeIdIs(nodeId), Beat(now), NodeIdIs(id));
    }
    var updated := FindFirst(db.nodes, NodeIdIs(nodeId));
    AnyAfterUpdate(before, NodeIdIs(nodeId), Beat(now), NodeIdIs(nodeId));
    if updated.None? {
      UpdateWithoutMatch(before, nodeId, Beat(now));
      return NotFound;
    }
    r := Ok(HeartbeatReply(nodeId, updated.value.lastSeen));
  }

  /** After a heartbeat the node is active and seen now, and every other node is as it was. */
  lemma HeartbeatMarksNodeSeen(nodes: seq<Node>, nodeId: string, now: int)
    requires Any(nodes, NodeIdIs(nodeId))
    ensures var r := UpdateWhere(nodes, NodeIdIs(nodeId), Beat(now));
      && GetNode(r, nodeId) == Ok(FindFirst(nodes, NodeIdIs(nodeId)).value.(lastSeen := now, isActive := true))
      && forall i :: 0 <= i < |nodes| ==>
           if nodes[i].nodeId == nodeId then r[i].isActive && r[i].lastSeen == now && r[i].nodeId == nodeId
           else r[i] == nodes[i]
  {
    FindFirstAfterUpdate(nodes, NodeIdIs(nodeId), Beat(now), FindFirst(nodes, NodeIdIs(nodeId)).value);
  }

  // ================================================================ network statistics

  function IsKind(k: NodeType): Node -> bool { (n: Node) => n.kind == k }
  function IsActiveNode(n: Node): bool { n.isActive }
  function Participation(n: Node): int { n.consensusParticipation }

  /** The aggregate row: `count(*)` and `sum(...)` columns, the sums NULL on an empty table. */
  datatype NetworkCounts = NetworkCounts(
    totalNodes: nat,
    activeNodes: Option<nat>,
    validators: Option<nat>,
    miners: Option<nat>,
    peers: Option<nat>,
    smartContracts: Option<nat>,
    totalConsensusParticipation: Option<int>)

  datatype NetworkReport = NetworkReport(network: NetworkCounts, topValidators: seq<Node>, timestamp: int)

  /** `GET /nodes/stats/network`. */
  function NetworkStatistics(nodes: seq<Node>, now: int): (r: NetworkReport)
    ensures r.network.totalNodes == |nodes| && r.timestamp == now
    ensures nodes == [] ==>
      && r.network.activeNodes.None? && r.network.validators.None? && r.network.miners.None?
      && r.network.peers.None? && r.network.smartContracts.None? && r.network.totalConsensusParticipation.None?
    ensures nodes != [] ==> r.network.activeNodes == Some(Count(nodes, IsActiveNode))
    ensures nodes != [] ==> r.network.validators == Some(Count(nodes, IsKind(Validator))) && r.network.miners == Some(Count(nodes, IsKind(Miner)))
    ensures nodes != [] ==> r.network.peers == Some(Count(nodes, IsKind(Peer))) && r.network.smartContracts == Some(Count(nodes, IsKind(SmartContract)))
    ensures nodes != [] ==> r.network.totalConsensusParticipation == Some(Sum(nodes, Participation))
    ensures |r.topValidators| == if Count(nodes, IsKind(Validator)) < 5 then Count(nodes, IsKind(Validator)) else 5
    ensures Descending(r.topValidators, Participation)
  {
    var counts := NetworkCounts(
      |nodes|,
      SqlCount(nodes, IsActiveNode),
      SqlCount(nodes, IsKind(Validator)),
      SqlCount(nodes, IsKind(Miner)),
      SqlCount(nodes, IsKind(Peer)),
      SqlCount(nodes, IsKind(SmartContract)),
      if nodes == [] then None else Some(Sum(nodes, Participation)));
    CountIsFilterLength(nodes, IsKind(Validator));
    NetworkReport(counts, TopValidators(nodes), now)
  }

  /** Every node has exactly one of the four types. */
  lemma {:induction false} KindCountsPartition(nodes: seq<Node>)
    ensures Count(nodes, IsKind(Validator)) + Count(nodes, IsKind(Miner))
          + Count(nodes, IsKind(Peer)) + Count(nodes, IsKind(SmartContract)) == |nodes|
  {
    if nodes != [] {
      KindCountsPartition(nodes[1..]);
    }
  }

  /** On a non-empty table, validators, miners, peers and smart contracts add up to all nodes. */
  lemma NetworkKindsAddUp(nodes: seq<Node>, now: int)
    requires nodes != []
    ensures var n := NetworkStatistics(nodes, now).network;
      n.validators.value + n.miners.value + n.peers.value + n.smartContracts.value == n.totalNodes
  {
    KindCountsPartition(nodes);
  }

  /** The validators ranked by participation, at most five: the second query of the handler. */
  function TopValidators(nodes: seq<Node>): seq<Node> {
    Top(Filter(nodes, IsKind(Validator)), Participation, 5)
  }

  /** The top validators are stored validators, and no validator left out participates more. */
  lemma TopValidatorsAreValidators(nodes: seq<Node>, now: int)
    ensures var top := NetworkStatistics(nodes, now).topValidators;
      && (forall n :: n in top ==> n in nodes && n.kind == Validator)
      && (forall n, m :: n in nodes && n.kind == Validator && n !in top && m in top ==>
            m.consensusParticipation >= n.consensusParticipation)
  {
    TopValidatorsRank(nodes);
  }

  lemma TopValidatorsRank(nodes: seq<Node>)
    ensures var top := TopValidators(nodes);
      && (forall n :: n in top ==> n in nodes && n.kind == Validator)
      && (forall n, m :: n in nodes && n.kind == Validator && n !in top && m in top ==>
            m.consensusParticipation >= n.consensusParticipation)
  {
    var top := TopValidators(nodes);
    TopWithin(Filter(nodes, IsKind(Validator)), Participation, 5);
    TopOfFilterRanks(nodes, IsKind(Validator), Participation, 5);
    forall n, m | n in nodes && n.kind == Validator && n !in top && m in top
      ensures m.consensusParticipation >= n.consensusParticipation
    {
      assert IsKind(Validator)(n);
      assert Participation(m) >= Participation(n);
    }
  }

  // ================================================================ inactivity sweep

  /** `Date.now() - hours * 60 * 60 * 1000`, the hours being 24 when missing, 0 or not a number. */
  function Threshold(hoursQ: Option<int>, now: int): (t: int)
    ensures hoursQ.None? || hoursQ == Some(0) ==> t == now - 24 * 3600000
    ensures hoursQ.Some? && hoursQ.value != 0 ==> t == now - hoursQ.value * 3600000
  {
    now - NumberOr(hoursQ, 24) * 60 * 60 * 1000
  }

  /** `lastSeen < threshold AND isActive = true`. */
  function Stale(threshold: int): Node -> bool {
    (n: Node) => n.lastSeen < threshold && n.isActive
  }

  /** `SET isActive = false`. */
  function Deactivate(n: Node): Node { n.(isActive := false) }

  /** The rows `.returning()` reports: the stale rows, now inactive, in table order. */
  function SweptRows(nodes: seq<Node>, threshold: int): (r: seq<Node>)
    ensures |r| == Count(nodes, Stale(threshold))
    ensures forall n :: n in r ==> !n.isActive && n.lastSeen < threshold && n.(isActive := true) in nodes
  {
    if nodes == [] then []
    else
      var rest := SweptRows(nodes[1..], threshold);
      assert forall n :: n in rest ==> n.(isActive := true) in nodes by {
        forall n | n in rest ensures n.(isActive := true) in nodes {
          assert n.(isActive := true) in nodes[1..];
        }
      }
      (if Stale(threshold)(nodes[0]) then [Deactivate(nodes[0])] else []) + rest
  }

  datatype SweepResult = SweepResult(deactivated: nat, nodes: seq<Node>)

  /** `POST /nodes/maintenance/deactivate-inactive?hours`. */
  method DeactivateInactive(db: Database, hoursQ: Option<int>, now: int) returns (r: SweepResult)
    requires db.Valid()
    modifies db`nodes
    ensures db.Valid()
    ensures db.nodes == UpdateWhere(old(db.nodes), Stale(Threshold(hoursQ, now)), Deactivate)
    ensures r.nodes == SweptRows(old(db.nodes), Threshold(hoursQ, now)) && r.deactivated == |r.nodes|
  {
    var threshold := Threshold(hoursQ, now);
    ghost var before := db.nodes;
    var result := SweptRows(db.nodes, threshold);
    db.nodes := UpdateWhere(db.nodes, Stale(threshold), Deactivate);
    forall id ensures AtMostOne(db.nodes, NodeIdIs(id)) {
      AtMostOneUpdate(before, Stale(threshold), Deactivate, NodeIdIs(id));
    }
    r := SweepResult(|result|, result);
  }

  /**
   * The sweep turns off exactly the active nodes last seen before the threshold: every other
   * node is untouched, and `deactivated` is the number of rows that changed.
   */
  lemma SweepFlipsExactlyStaleNodes(nodes: seq<Node>, threshold: int)
    ensures var r := UpdateWhere(nodes, Stale(threshold), Deactivate);
      && (forall i :: 0 <= i < |nodes| ==>
            r[i] == if nodes[i].isActive && nodes[i].lastSeen < threshold then nodes[i].(isActive := false) else nodes[i])
      && Differences(nodes, r) == |SweptRows(nodes, threshold)|
  {
    UpdateWhereChanges(nodes, Stale(threshold), Deactivate);
  }

  /** A second sweep with the same threshold finds nothing to deactivate and changes nothing. */
  lemma SweepIsIdempotent(nodes: seq<Node>, threshold: int)
    ensures var r := UpdateWhere(nodes, Stale(threshold), Deactivate);
      SweptRows(r, threshold) == [] && UpdateWhere(r, Stale(threshold), Deactivate) == r
  {
    var r := UpdateWhere(nodes, Stale(threshold), Deactivate);
    assert !Any(r, Stale(threshold)) by {
      forall i | 0 <= i < |r| ensures !Stale(threshold)(r[i]) {
        assert r[i] == if Stale(threshold)(nodes[i]) then Deactivate(nodes[i]) else nodes[i];
      }
    }
    var again := UpdateWhere(r, Stale(threshold), Deactivate);
    forall i | 0 <= i < |r| ensures again[i] == r[i] {
      assert !Stale(threshold)(r[i]);
    }
  }
}
