/** Client-side node-graph state shared by the React-Query `useNodes` hook and
    the legacy `useNodes` hook: the row-to-view transform, adjacency queries,
    local updates that touch one node, the cascading delete and the
    connection-set reconciliation. Nodes and connections are immutable
    sequences of records keyed by id. */
module Graph {
  import opened Wrappers
  import opened Seqs

  type Id = string

  /** A canvas position in pixels. */
  datatype Position = Position(x: int, y: int)

  /** A `learning_nodes` row as the backend returns it. */
  datatype NodeRow = NodeRow(id: Id, title: string, description: Option<string>, position: Position)

  /** A `node_connections` row. */
  datatype ConnectionRow = ConnectionRow(id: Id, fromNodeId: Id, toNodeId: Id)

  /** A node in component format, with its derived connection count. */
  datatype Node = Node(id: Id, title: string, description: Option<string>, position: Position,
                       connectionCount: nat)

  /** A connection in component format. */
  datatype Connection = Connection(id: Id, from: Id, to: Id)

  /** The cached `{ nodes, connections }` pair of one topic. */
  datatype GraphData = GraphData(nodes: seq<Node>, connections: seq<Connection>)

  // ---------------------------------------------------------------------------
  // Connection counts

  function FromIs(id: Id): ConnectionRow -> bool {
    (r: ConnectionRow) => r.fromNodeId == id
  }

  function ToIs(id: Id): ConnectionRow -> bool {
    (r: ConnectionRow) => r.toNodeId == id
  }

  /** Reference definition of a node's connection count: the rows that start
      at it plus the rows that end at it (a self-loop counts twice). */
  function EndpointCount(rows: seq<ConnectionRow>, id: Id): nat {
    Count(rows, FromIs(id)) + Count(rows, ToIs(id))
  }

  /** `connectionCounts[id] || 0`. */
  function CountOf(counts: map<Id, nat>, id: Id): nat {
    if id in counts then counts[id] else 0
  }

  lemma EndpointCountSnoc(rows: seq<ConnectionRow>, c: ConnectionRow, id: Id)
    ensures EndpointCount(rows + [c], id)
         == EndpointCount(rows, id) + (if c.fromNodeId == id then 1 else 0)
                                    + (if c.toNodeId == id then 1 else 0)
  {
    CountAppend(rows, [c], FromIs(id));
    CountAppend(rows, [c], ToIs(id));
  }

  /** The first loop of `transformNodesAndConnections`: a map from node id
      to the number of connection endpoints at it, built one row at a time. */
  method CountEndpoints(conns: seq<ConnectionRow>) returns (counts: map<Id, nat>)
    ensures forall k :: CountOf(counts, k) == EndpointCount(conns, k)
  {
    counts := map[];
    var i := 0;
    while i < |conns|
      invariant 0 <= i <= |conns|
      invariant forall k :: CountOf(counts, k) == EndpointCount(conns[..i], k)
    {
      var c := conns[i];
      counts := counts[c.fromNodeId := CountOf(counts, c.fromNodeId) + 1];
      counts := counts[c.toNodeId := CountOf(counts, c.toNodeId) + 1];
      assert conns[..i + 1] == conns[..i] + [c];
      forall k
        ensures CountOf(counts, k) == EndpointCount(conns[..i + 1], k)
      {
        EndpointCountSnoc(conns[..i], c, k);
      }
      i := i + 1;
    }
    assert conns[..i] == conns;
  }

  /** `data` is the view of the rows: one view node per node row, in order,
      carrying the row's fields and its number of connection endpoints, and one
      view connection per connection row, in order. */
  predicate IsView(rows: seq<NodeRow>, conns: seq<ConnectionRow>, data: GraphData) {
    && |data.nodes| == |rows|
    && (forall i :: 0 <= i < |rows| ==>
          data.nodes[i] == Node(rows[i].id, rows[i].title, rows[i].description,
                                rows[i].position, EndpointCount(conns, rows[i].id)))
    && |data.connections| == |conns|
    && (forall i :: 0 <= i < |conns| ==>
          data.connections[i] == Connection(conns[i].id, conns[i].fromNodeId, conns[i].toNodeId))
  }

  /** The view of the rows is unique: two views of the same rows are equal. */
  lemma ViewUnique(rows: seq<NodeRow>, conns: seq<ConnectionRow>, a: GraphData, b: GraphData)
    requires IsView(rows, conns, a) && IsView(rows, conns, b)
    ensures a == b
  {
    assert a.nodes == b.nodes;
    assert a.connections == b.connections;
  }

  /** `transformNodesAndConnections`: the view of the rows, built with a count
      map filled in one pass over the connections. */
  method TransformNodesAndConnections(rows: seq<NodeRow>, conns: seq<ConnectionRow>)
    returns (data: GraphData)
    ensures IsView(rows, conns, data)
  {
    var counts := CountEndpoints(conns);

    var nodes: seq<Node> := [];
    var j := 0;
    while j < |rows|
      invariant 0 <= j <= |rows|
      invariant |nodes| == j
      invariant forall k :: 0 <= k < j ==>
                  nodes[k] == Node(rows[k].id, rows[k].title, rows[k].description,
                                   rows[k].position, EndpointCount(conns, rows[k].id))
    {
      var r := rows[j];
      nodes := nodes + [Node(r.id, r.title, r.description, r.position, CountOf(counts, r.id))];
      j := j + 1;
    }

    var connections := Map(conns, (c: ConnectionRow) => Connection(c.id, c.fromNodeId, c.toNodeId));
    data := GraphData(nodes, connections);
  }

  /** A node that no row mentions gets a count of zero. */
  lemma {:induction false} UnconnectedNodeCountsZero(rows: seq<ConnectionRow>, id: Id)
    requires forall r :: r in rows ==> r.fromNodeId != id && r.toNodeId != id
    ensures EndpointCount(rows, id) == 0
    decreases |rows|
  {
    if |rows| > 0 {
      var last := rows[|rows| - 1];
      assert rows == rows[..|rows| - 1] + [last];
      assert forall r :: r in rows[..|rows| - 1] ==> r in rows;
      UnconnectedNodeCountsZero(rows[..|rows| - 1], id);
      EndpointCountSnoc(rows[..|rows| - 1], last, id);
    }
  }

  /** Appending a self-loop adds two to the count of its node. */
  lemma SelfLoopCountsTwice(rows: seq<ConnectionRow>, c: ConnectionRow)
    requires c.fromNodeId == c.toNodeId
    ensures EndpointCount(rows + [c], c.fromNodeId) == EndpointCount(rows, c.fromNodeId) + 2
  {
    EndpointCountSnoc(rows, c, c.fromNodeId);
  }

  /** The count over two rows is the sum of the four endpoint matches. */
  lemma EndpointCountTwo(c1: ConnectionRow, c2: ConnectionRow, id: Id)
    ensures EndpointCount([c1, c2], id)
         == (if c1.fromNodeId == id then 1 else 0) + (if c1.toNodeId == id then 1 else 0)
          + (if c2.fromNodeId == id then 1 else 0) + (if c2.toNodeId == id then 1 else 0)
  {
    assert [c1, c2] == [c1] + [c2];
    assert [c1] == [] + [c1];
    EndpointCountSnoc([], c1, id);
    EndpointCountSnoc([c1], c2, id);
  }

  /** The fixture of the legacy hook's count test: node-1 joined to node-2 and to
      node-3 gives counts 2, 1 and 1. */
  lemma CountFixture()
    ensures var rows := [ConnectionRow("conn-1", "node-1", "node-2"),
                         ConnectionRow("conn-2", "node-1", "node-3")];
            EndpointCount(rows, "node-1") == 2 && EndpointCount(rows, "node-2") == 1
            && EndpointCount(rows, "node-3") == 1
  {
    var c1 := ConnectionRow("conn-1", "node-1", "node-2");
    var c2 := ConnectionRow("conn-2", "node-1", "node-3");
    assert "node-1" != "node-2" && "node-1" != "node-3" && "node-2" != "node-3" by {
      assert "node-1"[5] == '1' && "node-2"[5] == '2' && "node-3"[5] == '3';
    }
    EndpointCountTwo(c1, c2, "node-1");
    EndpointCountTwo(c1, c2, "node-2");
    EndpointCountTwo(c1, c2, "node-3");
  }


  // ---------------------------------------------------------------------------
  // Lookup and adjacency

  /** `nodes.find(node => node.id === id)`. */
  function GetNodeById(nodes: seq<Node>, id: Id): (r: Option<Node>)
    ensures r.Some? <==> exists n :: n in nodes && n.id == id
    ensures r.Some? ==> exists k :: 0 <= k < |nodes| && nodes[k] == r.value && r.value.id == id
                                     && forall j :: 0 <= j < k ==> nodes[j].id != id
    decreases |nodes|
  {
    if |nodes| == 0 then None
    else if nodes[0].id == id then Some(nodes[0])
    else
      var r := GetNodeById(nodes[1..], id);
      assert forall n :: n in nodes <==> n == nodes[0] || n in nodes[1..];
      if r.Some? then
        var k :| 0 <= k < |nodes[1..]| && nodes[1..][k] == r.value && r.value.id == id
                 && forall j :: 0 <= j < k ==> nodes[1..][j].id != id;
        assert nodes[k + 1] == r.value;
        r
      else r
  }

  /** The connection joins `a` and `b`, in either direction. */
  predicate Joins(c: Connection, a: Id, b: Id) {
    (c.from == a && c.to == b) || (c.from == b && c.to == a)
  }

  /** Some connection joins `a` and `b`, in either direction. */
  predicate Adjacent(cs: seq<Connection>, a: Id, b: Id) {
    exists c :: c in cs && Joins(c, a, b)
  }

  function TouchesNode(nodeId: Id): Connection -> bool {
    (c: Connection) => c.from == nodeId || c.to == nodeId
  }

  function OtherEnd(nodeId: Id): Connection -> Id {
    (c: Connection) => if c.from == nodeId then c.to else c.from
  }

  /** The connection touches `nodeId` and its far end is `b`. */
  function LinksTo(nodeId: Id, b: Id): Connection -> bool {
    (c: Connection) => TouchesNode(nodeId)(c) && OtherEnd(nodeId)(c) == b
  }

  /** `currentConnectionIds`: the far end of every connection touching
      `nodeId`, in connection order. */
  function NeighbourIds(cs: seq<Connection>, nodeId: Id): (r: seq<Id>)
    ensures forall b :: b in r <==> Adjacent(cs, nodeId, b)
    ensures |r| == Count(cs, TouchesNode(nodeId))
  {
    var r := Map(Filter(cs, TouchesNode(nodeId)), OtherEnd(nodeId));
    forall b
      ensures b in r <==> Adjacent(cs, nodeId, b)
    {
      if b in r {
        OtherEndIsAdjacent(cs, nodeId, b);
      }
      if Adjacent(cs, nodeId, b) {
        AdjacentIsOtherEnd(cs, nodeId, b);
      }
    }
    r
  }

  /** Each id occurs among the neighbours once per connection linking it to
      the node, so two connections between the same pair list the id twice. */
  lemma NeighbourMultiplicity(cs: seq<Connection>, nodeId: Id, b: Id)
    ensures Count(NeighbourIds(cs, nodeId), Is(b)) == Count(cs, LinksTo(nodeId, b))
  {
    LinkCount(cs, nodeId, b);
  }

  lemma {:induction false} LinkCount(cs: seq<Connection>, nodeId: Id, b: Id)
    ensures Count(Map(Filter(cs, TouchesNode(nodeId)), OtherEnd(nodeId)), Is(b))
            == Count(cs, LinksTo(nodeId, b))
    decreases |cs|
  {
    if |cs| > 0 {
      var touches, far := TouchesNode(nodeId), OtherEnd(nodeId);
      var t := Filter(cs[1..], touches);
      LinkCount(cs[1..], nodeId, b);
      if touches(cs[0]) {
        assert Filter(cs, touches) == [cs[0]] + t;
        MapCountCons(cs[0], t, far, Is(b));
      } else {
        assert Filter(cs, touches) == t;
      }
    }
  }

  /** The far end of a connection touching the node is adjacent to it. */
  lemma OtherEndIsAdjacent(cs: seq<Connection>, nodeId: Id, b: Id)
    ensures b in Map(Filter(cs, TouchesNode(nodeId)), OtherEnd(nodeId)) ==> Adjacent(cs, nodeId, b)
  {
    var touching := Filter(cs, TouchesNode(nodeId));
    var r := Map(touching, OtherEnd(nodeId));
    if b in r {
      var i :| 0 <= i < |r| && r[i] == b;
      assert touching[i] in touching;
      assert Joins(touching[i], nodeId, b);
    }
  }

  /** An adjacent node is the far end of some connection touching the node. */
  lemma AdjacentIsOtherEnd(cs: seq<Connection>, nodeId: Id, b: Id)
    requires Adjacent(cs, nodeId, b)
    ensures b in Map(Filter(cs, TouchesNode(nodeId)), OtherEnd(nodeId))
  {
    var touching := Filter(cs, TouchesNode(nodeId));
    var r := Map(touching, OtherEnd(nodeId));
    var c :| c in cs && Joins(c, nodeId, b);
    assert c in touching;
    var i :| 0 <= i < |touching| && touching[i] == c;
    assert r[i] == b;
  }

  /** `getConnectedNodes`: the nodes adjacent to `nodeId`, in node-list order. */
  function GetConnectedNodes(nodes: seq<Node>, cs: seq<Connection>, nodeId: Id): (r: seq<Node>)
    ensures forall n :: n in r <==> n in nodes && Adjacent(cs, nodeId, n.id)
    ensures SubsequenceOf(r, nodes)
  {
    var ids := NeighbourIds(cs, nodeId);
    Filter(nodes, (n: Node) => n.id in ids)
  }

  // ---------------------------------------------------------------------------
  // Local updates

  /** The fields an update may carry; `None` is a key the update object does
      not have. */
  datatype NodePatch = NodePatch(title: Option<string>, description: Option<string>,
                                 position: Option<Position>)

  /** `{ ...n, ...updates }`. */
  function ApplyPatch(n: Node, p: NodePatch): Node {
    Node(n.id, p.title.GetOr(n.title),
         if p.description.Some? then p.description else n.description,
         p.position.GetOr(n.position), n.connectionCount)
  }

  /** `nodes.map(n => n.id === id ? { ...n, ...updates } : n)`: the patch lands
      on the nodes with that id, every other node is untouched, and no node
      changes its id or count. */
  function MergeInto(nodes: seq<Node>, id: Id, p: NodePatch): (r: seq<Node>)
    ensures |r| == |nodes|
    ensures forall i :: 0 <= i < |nodes| ==>
              r[i].id == nodes[i].id && r[i].connectionCount == nodes[i].connectionCount
    ensures forall i :: 0 <= i < |nodes| && nodes[i].id != id ==> r[i] == nodes[i]
    ensures forall i :: 0 <= i < |nodes| && nodes[i].id == id ==>
              && (p.title.Some? ==> r[i].title == p.title.value)
              && (p.title.None? ==> r[i].title == nodes[i].title)
              && (p.description.Some? ==> r[i].description == p.description)
              && (p.description.None? ==> r[i].description == nodes[i].description)
              && (p.position.Some? ==> r[i].position == p.position.value)
              && (p.position.None? ==> r[i].position == nodes[i].position)
  {
    Map(nodes, (n: Node) => if n.id == id then ApplyPatch(n, p) else n)
  }

  function PositionPatch(p: Position): NodePatch {
    NodePatch(None, None, Some(p))
  }

  /** `updateNodePositionLocal`: only the `position` of the node with that id
      changes; every other node and the connection list stay as they were. */
  function UpdateNodePositionLocal(data: GraphData, id: Id, p: Position): (r: GraphData)
    ensures r.connections == data.connections
    ensures |r.nodes| == |data.nodes|
    ensures forall i :: 0 <= i < |data.nodes| ==>
              r.nodes[i].(position := data.nodes[i].position) == data.nodes[i]
    ensures forall i :: 0 <= i < |data.nodes| && data.nodes[i].id == id ==> r.nodes[i].position == p
    ensures forall i :: 0 <= i < |data.nodes| && data.nodes[i].id != id ==> r.nodes[i] == data.nodes[i]
  {
    GraphData(MergeInto(data.nodes, id, PositionPatch(p)), data.connections)
  }

  /** After a local position update, looking the node up gives the new
      position, and nothing else about it. */
  lemma FindAfterPositionUpdate(data: GraphData, id: Id, p: Position)
    requires GetNodeById(data.nodes, id).Some?
    ensures GetNodeById(UpdateNodePositionLocal(data, id, p).nodes, id)
         == Some(GetNodeById(data.nodes, id).value.(position := p))
  {
    var r := UpdateNodePositionLocal(data, id, p);
    var n := GetNodeById(data.nodes, id).value;
    var k :| 0 <= k < |data.nodes| && data.nodes[k] == n && n.id == id
             && forall j :: 0 <= j < k ==> data.nodes[j].id != id;
    FindFirst(r.nodes, id, k);
  }

  lemma {:induction false} FindFirst(nodes: seq<Node>, id: Id, k: nat)
    requires k < |nodes| && nodes[k].id == id
    requires forall j :: 0 <= j < k ==> nodes[j].id != id
    ensures GetNodeById(nodes, id) == Some(nodes[k])
    decreases k
  {
    if k > 0 {
      FindFirst(nodes[1..], id, k - 1);
    }
  }

  /** Two local position updates of one node leave only the second. */
  lemma PositionUpdateLastWins(data: GraphData, id: Id, p: Position, q: Position)
    ensures UpdateNodePositionLocal(UpdateNodePositionLocal(data, id, p), id, q)
         == UpdateNodePositionLocal(data, id, q)
  {
    var a := UpdateNodePositionLocal(UpdateNodePositionLocal(data, id, p), id, q);
    var b := UpdateNodePositionLocal(data, id, q);
    assert a.nodes == b.nodes;
  }

  /** The local state after `deleteNode(id)` succeeds: the node and every
      connection touching it are gone, everything else stays in order. */
  function DeleteNodeLocal(data: GraphData, id: Id): (r: GraphData)
    ensures forall n :: n in r.nodes <==> n in data.nodes && n.id != id
    ensures forall c :: c in r.connections <==> c in data.connections && c.from != id && c.to != id
    ensures SubsequenceOf(r.nodes, data.nodes)
    ensures SubsequenceOf(r.connections, data.connections)
  {
    GraphData(Filter(data.nodes, (n: Node) => n.id != id),
              Filter(data.connections, (c: Connection) => c.from != id && c.to != id))
  }

  /** After the cascade no node has the id and nothing is adjacent to it. */
  lemma DeleteLeavesNoDanglingReference(data: GraphData, id: Id, other: Id)
    ensures GetNodeById(DeleteNodeLocal(data, id).nodes, id).None?
    ensures !Adjacent(DeleteNodeLocal(data, id).connections, other, id)
  {
  }

  // ---------------------------------------------------------------------------
  // Connection-set reconciliation

  /** `currentConnections.find(...)` for one removed id: the first current
      connection joining the two nodes, in whichever direction it is stored. */
  function FindJoining(cs: seq<Connection>, a: Id, b: Id): (r: Option<Connection>)
    ensures r.Some? <==> Adjacent(cs, a, b)
    ensures r.Some? ==> r.value in cs && Joins(r.value, a, b)
    decreases |cs|
  {
    if |cs| == 0 then None
    else if Joins(cs[0], a, b) then Some(cs[0])
    else
      assert forall c :: c in cs <==> c == cs[0] || c in cs[1..];
      FindJoining(cs[1..], a, b)
  }

  /** `find` returns the first joining connection. */
  lemma {:induction false} FindJoiningIsFirst(cs: seq<Connection>, a: Id, b: Id, k: nat)
    requires k < |cs| && Joins(cs[k], a, b)
    requires forall j :: 0 <= j < k ==> !Joins(cs[j], a, b)
    ensures FindJoining(cs, a, b) == Some(cs[k])
    decreases k
  {
    if k > 0 {
      FindJoiningIsFirst(cs[1..], a, b, k - 1);
    }
  }

  /** Searching only the connections touching `a` finds what searching all
      of them finds, since every connection joining `a` touches it. */
  lemma {:induction false} FindJoiningInTouching(cs: seq<Connection>, a: Id, b: Id)
    ensures FindJoining(Filter(cs, TouchesNode(a)), a, b) == FindJoining(cs, a, b)
    decreases |cs|
  {
    if |cs| > 0 {
      var rest := Filter(cs[1..], TouchesNode(a));
      FindJoiningInTouching(cs[1..], a, b);
      if TouchesNode(a)(cs[0]) {
        assert Filter(cs, TouchesNode(a)) == [cs[0]] + rest;
        assert ([cs[0]] + rest)[1..] == rest;
      }
    }
  }

  /** The delete call `find` yields for the pair: the stored `(from, to)` of
      the first connection joining them, none when there is none. */
  function FoundDelete(cs: seq<Connection>, a: Id, b: Id): Option<(Id, Id)> {
    match FindJoining(cs, a, b)
    case Some(c) => Some((c.from, c.to))
    case None => None
  }

  /** The delete calls for the removed ids: the stored `(from, to)` of the
      connection found for each, skipping an id with none (`filter(Boolean)`). */
  function RemovalCalls(current: seq<Connection>, nodeId: Id, ids: seq<Id>): (r: seq<(Id, Id)>)
    ensures |r| <= |ids|
    ensures (forall id :: id in ids ==> Adjacent(current, nodeId, id)) ==> |r| == |ids|
    ensures (forall id :: id in ids ==> Adjacent(current, nodeId, id)) ==>
              forall k :: 0 <= k < |r| ==>
                exists c :: c in current && Joins(c, nodeId, ids[k]) && r[k] == (c.from, c.to)
    decreases |ids|
  {
    if |ids| == 0 then []
    else
      var rest := RemovalCalls(current, nodeId, ids[1..]);
      assert forall id :: id in ids[1..] ==> id in ids;
      match FindJoining(current, nodeId, ids[0])
      case Some(c) => [(c.from, c.to)] + rest
      case None => rest
  }

  /** When every id is adjacent, the `k`-th delete call is the one `find`
      yields for the `k`-th id. */
  lemma {:induction false} RemovalCallFound(current: seq<Connection>, nodeId: Id, ids: seq<Id>, k: nat)
    requires forall id :: id in ids ==> Adjacent(current, nodeId, id)
    requires k < |ids|
    ensures k < |RemovalCalls(current, nodeId, ids)|
    ensures Some(RemovalCalls(current, nodeId, ids)[k]) == FoundDelete(current, nodeId, ids[k])
    decreases k
  {
    var rest := RemovalCalls(current, nodeId, ids[1..]);
    var c := FindJoining(current, nodeId, ids[0]).value;
    var r := RemovalCalls(current, nodeId, ids);
    assert r == [(c.from, c.to)] + rest;
    if k > 0 {
      assert forall id :: id in ids[1..] ==> id in ids;
      RemovalCallFound(current, nodeId, ids[1..], k - 1);
      assert r[k] == rest[k - 1];
      assert ids[k] == ids[1..][k - 1];
    }
  }

  /** `toAdd`: the requested ids that are not yet neighbours, in request order. */
  function AdditionIds(cs: seq<Connection>, nodeId: Id, newIds: seq<Id>): (r: seq<Id>)
    ensures forall x :: x in r <==> x in newIds && !Adjacent(cs, nodeId, x)
    ensures SubsequenceOf(r, newIds)
  {
    var currentIds := NeighbourIds(cs, nodeId);
    Filter(newIds, (id: Id) => id !in currentIds)
  }

  /** `toRemove`: the current neighbours that are not requested, in connection
      order. */
  function RemovalIds(cs: seq<Connection>, nodeId: Id, newIds: seq<Id>): (r: seq<Id>)
    ensures forall x :: x in r <==> Adjacent(cs, nodeId, x) && x !in newIds
    ensures SubsequenceOf(r, NeighbourIds(cs, nodeId))
  {
    Filter(NeighbourIds(cs, nodeId), (id: Id) => id !in newIds)
  }

  /** A requested id is never removed; any other is removed once per
      connection linking it to the node. */
  lemma RemovalMultiplicity(cs: seq<Connection>, nodeId: Id, newIds: seq<Id>, b: Id)
    ensures Count(RemovalIds(cs, nodeId, newIds), Is(b))
            == if b in newIds then 0 else Count(cs, LinksTo(nodeId, b))
  {
    CountFilterIs(NeighbourIds(cs, nodeId), (id: Id) => id !in newIds, b);
    NeighbourMultiplicity(cs, nodeId, b);
  }

  /** A neighbour found in all connections is also found among those touching
      the node. */
  lemma AdjacentInTouching(cs: seq<Connection>, nodeId: Id, ids: seq<Id>)
    requires forall id :: id in ids ==> Adjacent(cs, nodeId, id)
    ensures forall id :: id in ids ==> Adjacent(Filter(cs, TouchesNode(nodeId)), nodeId, id)
  {
    var current := Filter(cs, TouchesNode(nodeId));
    forall id | id in ids
      ensures Adjacent(current, nodeId, id)
    {
      var c :| c in cs && Joins(c, nodeId, id);
      assert c in current;
    }
  }

  /** `d` is the stored `(from, to)` of a connection in `cs` joining `a` and
      `b`, whichever way round it is stored. */
  predicate StoredJoin(cs: seq<Connection>, a: Id, b: Id, d: (Id, Id)) {
    exists c :: c in cs && Joins(c, a, b) && d == (c.from, c.to)
  }

  /** The creation calls for the added ids: `(nodeId, id)` for each. */
  function CreateCalls(nodeId: Id, ids: seq<Id>): (r: seq<(Id, Id)>)
    ensures |r| == |ids|
    ensures forall i :: 0 <= i < |r| ==> r[i] == (nodeId, ids[i])
  {
    Map(ids, (id: Id) => (nodeId, id))
  }

  /** The delete calls for removed ids that are all neighbours, computed over
      the connections touching the node: one per id, each the stored
      orientation of a connection joining the two. */
  function DeleteCalls(cs: seq<Connection>, nodeId: Id, ids: seq<Id>): (r: seq<(Id, Id)>)
    requires forall id :: id in ids ==> Adjacent(cs, nodeId, id)
    ensures |r| == |ids|
    ensures forall k :: 0 <= k < |r| ==> StoredJoin(cs, nodeId, ids[k], r[k])
    ensures forall k :: 0 <= k < |r| ==> Some(r[k]) == FoundDelete(cs, nodeId, ids[k])
  {
    var current := Filter(cs, TouchesNode(nodeId));
    AdjacentInTouching(cs, nodeId, ids);
    var r := RemovalCalls(current, nodeId, ids);
    assert forall c :: c in current ==> c in cs;
    forall k | 0 <= k < |r|
      ensures Some(r[k]) == FoundDelete(cs, nodeId, ids[k])
    {
      RemovalCallFound(current, nodeId, ids, k);
      FindJoiningInTouching(cs, nodeId, ids[k]);
    }
    r
  }

  /** What `updateConnections(nodeId, newConnectionIds)` sends. */
  datatype ConnectionPlan = ConnectionPlan(toAdd: seq<Id>, toRemove: seq<Id>,
                                           creates: seq<(Id, Id)>, deletes: seq<(Id, Id)>)

  /** `updateConnections`: the ids to add are the new ids not yet adjacent,
      the ids to remove the current neighbours not in the new list; each
      addition creates `(nodeId, id)` and each removal deletes the stored
      orientation of the connection found for it. */
  function PlanConnectionUpdate(cs: seq<Connection>, nodeId: Id, newIds: seq<Id>): (p: ConnectionPlan)
    ensures forall x :: x in p.toAdd <==> x in newIds && !Adjacent(cs, nodeId, x)
    ensures forall x :: x in p.toRemove <==> Adjacent(cs, nodeId, x) && x !in newIds
    ensures SubsequenceOf(p.toAdd, newIds)
    ensures SubsequenceOf(p.toRemove, NeighbourIds(cs, nodeId))
    ensures |p.creates| == |p.toAdd|
    ensures forall i :: 0 <= i < |p.creates| ==> p.creates[i] == (nodeId, p.toAdd[i])
    ensures |p.deletes| == |p.toRemove|
    ensures forall i :: 0 <= i < |p.deletes| ==> StoredJoin(cs, nodeId, p.toRemove[i], p.deletes[i])
    ensures forall i :: 0 <= i < |p.deletes| ==> Some(p.deletes[i]) == FoundDelete(cs, nodeId, p.toRemove[i])
  {
    var toAdd := AdditionIds(cs, nodeId, newIds);
    var toRemove := RemovalIds(cs, nodeId, newIds);
    ConnectionPlan(toAdd, toRemove, CreateCalls(nodeId, toAdd), DeleteCalls(cs, nodeId, toRemove))
  }

  /** Nothing is both added and removed. */
  lemma PlanDisjoint(cs: seq<Connection>, nodeId: Id, newIds: seq<Id>)
    ensures var p := PlanConnectionUpdate(cs, nodeId, newIds);
            Elements(p.toAdd) !! Elements(p.toRemove)
  {
  }

  /** The current neighbours plus the additions minus the removals are exactly
      the requested neighbours. */
  lemma PlanReachesTarget(cs: seq<Connection>, nodeId: Id, newIds: seq<Id>)
    ensures var p := PlanConnectionUpdate(cs, nodeId, newIds);
            (Elements(NeighbourIds(cs, nodeId)) + Elements(p.toAdd)) - Elements(p.toRemove)
            == Elements(newIds)
  {
    var p := PlanConnectionUpdate(cs, nodeId, newIds);
    var current := Elements(NeighbourIds(cs, nodeId));
    var target := Elements(newIds);
    assert forall x :: x in Elements(p.toAdd) <==> x in target && x !in current;
    assert forall x :: x in Elements(p.toRemove) <==> x in current && x !in target;
    ReconcileSets(current, Elements(p.toAdd), Elements(p.toRemove), target);
  }

  /** Adding what is missing and removing what is unwanted reaches the target. */
  lemma ReconcileSets(current: set<Id>, add: set<Id>, remove: set<Id>, target: set<Id>)
    requires forall x :: x in add <==> x in target && x !in current
    requires forall x :: x in remove <==> x in current && x !in target
    ensures (current + add) - remove == target
  {
  }

  /** Reconciling {A, B} to {B, C}: one creation, for C, and one deletion, of
      the stored connection to A. */
  lemma ReconcileExample()
    ensures var cs := [Connection("c1", "N", "A"), Connection("c2", "B", "N")];
            var p := PlanConnectionUpdate(cs, "N", ["B", "C"]);
            p.toAdd == ["C"] && p.toRemove == ["A"]
            && p.creates == [("N", "C")] && p.deletes == [("N", "A")]
  {
    var cs := [Connection("c1", "N", "A"), Connection("c2", "B", "N")];
    ExampleSets(cs);
    ExampleDeletes(cs);
  }

  /** The one removal of the worked example deletes the stored `N→A`. */
  lemma ExampleDeletes(cs: seq<Connection>)
    requires cs == [Connection("c1", "N", "A"), Connection("c2", "B", "N")]
    ensures Adjacent(cs, "N", "A")
    ensures DeleteCalls(cs, "N", ["A"]) == [("N", "A")]
  {
    assert Joins(cs[0], "N", "A");
    FilterKeepsAll(cs, TouchesNode("N"));
    assert ["A"][1..] == [];
    assert FindJoining(cs, "N", "A") == Some(cs[0]);
  }

  /** The two set differences of the worked example. */
  lemma ExampleSets(cs: seq<Connection>)
    requires cs == [Connection("c1", "N", "A"), Connection("c2", "B", "N")]
    ensures AdditionIds(cs, "N", ["B", "C"]) == ["C"]
    ensures RemovalIds(cs, "N", ["B", "C"]) == ["A"]
  {
    FilterKeepsAll(cs, TouchesNode("N"));
    var ids := NeighbourIds(cs, "N");
    assert ids == ["A", "B"];
    assert ["B", "C"][1..] == ["C"];
    assert ["C"][1..] == [];
    assert ["A", "B"][1..] == ["B"];
    assert ["B"][1..] == [];
  }

}
