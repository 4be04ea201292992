/** The node and connection services: the bodies they send and what they make
    of the backend's answer. The backend is a parameter (the response it
    gave); for the exact-pair delete the model also states which stored rows
    the request matches. */
module NodeServices {
  import opened Wrappers
  import opened Strings
  import opened Seqs
  import opened Records
  import opened Graph
  import NodeHooks

  // ---------------------------------------------------------------------------
  // nodesService

  /** `getByTopicId`: the rows, `[]` for null data, the error thrown. */
  function NodesByTopic(r: Response<seq<NodeRow>>): (res: Result<seq<NodeRow>, BackendError>)
    ensures r.error.Some? ==> res == Err(r.error.value)
    ensures r.error.None? ==> res == Ok(r.data.GetOr([]))
  {
    DataOr(r, [])
  }

  /** `getConnectionCount`: the count, 0 for null data, the error thrown. */
  function ConnectionCount(r: Response<nat>): (res: Result<nat, BackendError>)
    ensures r.error.Some? ==> res == Err(r.error.value)
    ensures r.error.None? ==> res == Ok(r.data.GetOr(0))
  {
    DataOr(r, 0)
  }

  /** The `node` object `create` receives. */
  datatype NodeCreate = NodeCreate(topicId: Id, title: string, description: Option<string>,
                                   position: Option<Position>)

  function OptText(o: Option<string>): Value {
    if o.Some? then Text(o.value) else Null
  }

  /** `create`'s insert row: `topicId` becomes `topic_id`, and the position
      defaults to (300, 300). */
  function CreateRow(n: NodeCreate): (row: Row)
    ensures row.Keys == {"topic_id", "title", "description", "position"}
    ensures row["topic_id"] == Text(n.topicId) && row["title"] == Text(n.title)
    ensures row["description"] == OptText(n.description)
    ensures n.position.Some? ==> row["position"] == Point(n.position.value.x, n.position.value.y)
    ensures n.position.None? ==> row["position"] == Point(300, 300)
  {
    var p := n.position.GetOr(Position(300, 300));
    map["topic_id" := Text(n.topicId), "title" := Text(n.title),
        "description" := OptText(n.description), "position" := Point(p.x, p.y)]
  }

  /** A node created through the hook lands at the caller's position, or at
      (300, 300) when the caller gave none. */
  lemma HookCreateLandsAtDefault(topicId: Id, d: NodeHooks.NewNodeData)
    ensures var ins := NodeHooks.CreateNodeInsert(topicId, d);
            var row := CreateRow(NodeCreate(ins.topicId, ins.title, ins.description, Some(ins.position)));
            row["position"] == (if d.position.Some? then Point(d.position.value.x, d.position.value.y)
                                else Point(300, 300))
  {
  }

  function PositionValue(p: Position): Value {
    Point(p.x, p.y)
  }

  /** `update`'s body: exactly the defined ones of title, description and
      position, and nothing else. */
  function UpdateBody(p: NodePatch): (body: Row)
    ensures body.Keys <= {"title", "description", "position"}
    ensures "title" in body <==> p.title.Some?
    ensures "description" in body <==> p.description.Some?
    ensures "position" in body <==> p.position.Some?
    ensures p.title.Some? ==> body["title"] == Text(p.title.value)
    ensures p.description.Some? ==> body["description"] == Text(p.description.value)
    ensures p.position.Some? ==> body["position"] == PositionValue(p.position.value)
  {
    var b0: Row := map[];
    var b1 := SetIfDefined(b0, "title", if p.title.Some? then Some(Text(p.title.value)) else None);
    var b2 := SetIfDefined(b1, "description",
                           if p.description.Some? then Some(Text(p.description.value)) else None);
    SetIfDefined(b2, "position", if p.position.Some? then Some(PositionValue(p.position.value)) else None)
  }

  /** `updatePosition(id, p)` is `update(id, { position: p })`: its body holds
      the position and nothing else. */
  function UpdatePositionBody(p: Position): (body: Row)
    ensures body == map["position" := PositionValue(p)]
  {
    UpdateBody(PositionPatch(p))
  }

  /** `update` and `delete` throw the backend's error. */
  function NodeWrite<T>(r: Response<T>): (res: Result<Option<T>, BackendError>)
    ensures res.Err? <==> r.error.Some?
  {
    DataOrThrow(r)
  }

  // ---------------------------------------------------------------------------
  // connectionsService

  /** `from_node_id.in.(ids),to_node_id.in.(ids)`. */
  function TopicFilter(ids: seq<Id>): string {
    "from_node_id.in.(" + Join(ids, ",") + "),to_node_id.in.(" + Join(ids, ",") + ")"
  }

  /** The topic filter names every node id of the topic. */
  lemma TopicFilterNamesEveryNode(ids: seq<Id>, k: nat)
    requires k < |ids|
    ensures Contains(TopicFilter(ids), ids[k])
  {
    JoinContains(ids, ",", k);
    var j := Join(ids, ",");
    var q := ids[k];
    var i :| 0 <= i <= |j| - |q| && OccursAt(j, q, i);
    var pre := "from_node_id.in.(";
    var f := TopicFilter(ids);
    assert f == pre + j + ("),to_node_id.in.(" + j + ")");
    assert f[|pre| + i..|pre| + i + |q|] == j[i..i + |q|];
    assert OccursAt(f, q, |pre| + i);
  }

  /** What `getByTopicId` can throw: a backend error, or the `TypeError` of
      `nodes.map` when the node query answers null data without an error. */
  datatype Thrown = Backend(error: BackendError) | NullNodes

  /** What `getByTopicId` did: its result and the filter of the connection
      query, if it ran one. */
  datatype TopicConnections = TopicConnections(result: Result<seq<ConnectionRow>, Thrown>,
                                               filter: Option<string>)

  /** `getByTopicId`: a failed node query throws; null node data throws when
      mapped; a topic without nodes gives `[]` without a connection query;
      otherwise the connection query's error is thrown, or its rows are the
      result, `[]` for null data. */
  function ConnectionsByTopic(nodeIds: Response<seq<Id>>, conns: Response<seq<ConnectionRow>>)
    : (r: TopicConnections)
    ensures nodeIds.error.Some? ==> r == TopicConnections(Err(Backend(nodeIds.error.value)), None)
    ensures nodeIds.error.None? && nodeIds.data.None? ==> r == TopicConnections(Err(NullNodes), None)
    ensures nodeIds.error.None? && nodeIds.data == Some([]) ==> r == TopicConnections(Ok([]), None)
    ensures nodeIds.error.None? && nodeIds.data.Some? && |nodeIds.data.value| > 0 ==>
              && r.filter == Some(TopicFilter(nodeIds.data.value))
              && (conns.error.Some? ==> r.result == Err(Backend(conns.error.value)))
              && (conns.error.None? ==> r.result == Ok(conns.data.GetOr([])))
  {
    if nodeIds.error.Some? then TopicConnections(Err(Backend(nodeIds.error.value)), None)
    else if nodeIds.data.None? then TopicConnections(Err(NullNodes), None)
    else
      var ids := nodeIds.data.value;
      if |ids| == 0 then TopicConnections(Ok([]), None)
      else
        var result := match DataOr(conns, [])
                      case Ok(rows) => Ok(rows)
                      case Err(e) => Err(Backend(e));
        TopicConnections(result, Some(TopicFilter(ids)))
  }

  /** `from_node_id.eq.X,to_node_id.eq.X`, the filter of `getByNodeId` and
      `deleteByNodeId`. */
  function NodeFilter(nodeId: Id): string {
    "from_node_id.eq." + nodeId + ",to_node_id.eq." + nodeId
  }

  /** For an id without a comma, the node filter splits at its first comma
      into the `from` clause and the `to` clause. */
  lemma NodeFilterSplits(nodeId: Id)
    requires ',' !in nodeId
    ensures Before(NodeFilter(nodeId), ',') == "from_node_id.eq." + nodeId
    ensures After(NodeFilter(nodeId), ',') == "to_node_id.eq." + nodeId
  {
    var a := "from_node_id.eq." + nodeId;
    var b := "to_node_id.eq." + nodeId;
    assert ',' !in "from_node_id.eq.";
    assert forall c :: c in a ==> c in "from_node_id.eq." || c in nodeId;
    assert NodeFilter(nodeId) == a + [','] + b;
    SplitJoinRoundTrip(a, ',', b);
  }

  /** One element of `createMany`'s argument; each name may be absent. */
  datatype ConnectionInput = ConnectionInput(fromNodeId: Option<Id>, from: Option<Id>,
                                             toNodeId: Option<Id>, to: Option<Id>)

  /** `a || b` on optional ids: `a` when it is a non-empty id, `b` otherwise. */
  function Either(a: Option<Id>, b: Option<Id>): (r: Option<Id>)
    ensures PresentAndTruthy(a) ==> r == a
    ensures !PresentAndTruthy(a) ==> r == b
  {
    if PresentAndTruthy(a) then a else b
  }

  /** `createMany`'s insert rows: one per input, in order, each taking
      `fromNodeId || from` and `toNodeId || to`. */
  function CreateManyRows(items: seq<ConnectionInput>): (rows: seq<(Option<Id>, Option<Id>)>)
    ensures |rows| == |items|
    ensures forall i :: 0 <= i < |items| ==>
              rows[i] == (Either(items[i].fromNodeId, items[i].from), Either(items[i].toNodeId, items[i].to))
  {
    Map(items, (c: ConnectionInput) => (Either(c.fromNodeId, c.from), Either(c.toNodeId, c.to)))
  }

  /** The rows `delete(fromNodeId, toNodeId)` leaves: only those matching the
      ordered pair exactly are removed. */
  function DeleteExact(rows: seq<Connection>, fromId: Id, toId: Id): (r: seq<Connection>)
    ensures forall c :: c in r <==> c in rows && !(c.from == fromId && c.to == toId)
    ensures SubsequenceOf(r, rows)
  {
    Filter(rows, (c: Connection) => !(c.from == fromId && c.to == toId))
  }

  /** A connection stored in the other orientation survives an exact-pair
      delete. */
  lemma DeleteKeepsReverse(rows: seq<Connection>, a: Id, b: Id, c: Connection)
    requires a != b && c in rows && c.from == b && c.to == a
    ensures c in DeleteExact(rows, a, b)
  {
  }

  /** Deleting the orientation the reconciliation found removes that
      connection, whichever way it was stored. */
  lemma PlannedDeleteRemovesFound(cs: seq<Connection>, nodeId: Id, newIds: seq<Id>, i: nat)
    ensures var p := PlanConnectionUpdate(cs, nodeId, newIds);
            i < |p.deletes| ==>
            var d := p.deletes[i];
            exists c :: c in cs && Joins(c, nodeId, p.toRemove[i]) && c !in DeleteExact(cs, d.0, d.1)
  {
  }
}
