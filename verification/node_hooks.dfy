/** The two `useNodes` hooks around the graph state: what `createNode` sends,
    the legacy hook's state after each operation given the outcome of its
    backend call, and the optimistic cache maps of the React-Query hook with
    their rollback. Backend calls are parameters: the response they gave, or
    whether they failed. */
module NodeHooks {
  import opened Wrappers
  import opened Strings
  import opened Seqs
  import opened Graph

  /** The `nodeData` a caller passes to `createNode`; `None` is an absent key. */
  datatype NewNodeData = NewNodeData(title: string, description: Option<string>,
                                     notes: Option<string>, position: Option<Position>)

  /** The object handed to `nodesService.create`. */
  datatype NodeInsert = NodeInsert(topicId: Id, title: string, description: Option<string>,
                                   position: Position)

  /** The position a node gets when the caller gives none. */
  const DefaultPosition := Position(300, 300)

  /** `createNode`'s insert: the title as given, the description or else the
      notes (`description || notes`), the given position or else (300, 300). */
  function CreateNodeInsert(topicId: Id, d: NewNodeData): (r: NodeInsert)
    ensures r.topicId == topicId && r.title == d.title
    ensures PresentAndTruthy(d.description) ==> r.description == d.description
    ensures !PresentAndTruthy(d.description) ==> r.description == d.notes
    ensures d.position.Some? ==> r.position == d.position.value
    ensures d.position.None? ==> r.position == Position(300, 300)
  {
    NodeInsert(topicId, d.title,
               if PresentAndTruthy(d.description) then d.description else d.notes,
               d.position.GetOr(DefaultPosition))
  }

  /** The connection creations `createNode` issues once the node exists: one
      `(newNode.id, id)` per requested id, none for an empty list. */
  function ConnectionCreates(newNodeId: Id, connectionIds: seq<Id>): (r: seq<(Id, Id)>)
    ensures |r| == |connectionIds|
    ensures forall i :: 0 <= i < |r| ==> r[i].0 == newNodeId && r[i].1 == connectionIds[i]
    ensures forall id :: id in connectionIds <==> (newNodeId, id) in r
  {
    var r := Map(connectionIds, (id: Id) => (newNodeId, id));
    assert forall id :: (newNodeId, id) in r ==> exists i :: 0 <= i < |r| && r[i] == (newNodeId, id);
    r
  }

  /** The legacy test: a node created with connection ids `['node-1']` gets one
      creation, `('node-new', 'node-1')`. */
  lemma CreateNodeFixture()
    ensures ConnectionCreates("node-new", ["node-1"]) == [("node-new", "node-1")]
  {
  }

  // ---------------------------------------------------------------------------
  // Legacy hook

  /** The legacy hook's state. */
  datatype HookState = HookState(data: GraphData, loading: bool, error: Option<string>)

  /** `if (!topicId) return`: loading needs a truthy topic id. */
  predicate ShouldLoad(topicId: Option<Id>) {
    PresentAndTruthy(topicId)
  }

  /** `loadNodesAndConnections` given what the two fetches returned: nothing
      happens without a topic id; a success replaces the data with the
      transform of the rows and clears the error; a failure records the
      message and keeps the data; loading ends either way. */
  method Load(s: HookState, topicId: Option<Id>,
              response: Result<(seq<NodeRow>, seq<ConnectionRow>), string>)
    returns (r: HookState)
    ensures !ShouldLoad(topicId) ==> r == s
    ensures ShouldLoad(topicId) ==> !r.loading
    ensures ShouldLoad(topicId) && response.Ok? ==>
              r.error.None? && |r.data.nodes| == |response.value.0|
              && (forall i :: 0 <= i < |r.data.nodes| ==>
                    r.data.nodes[i].id == response.value.0[i].id
                    && r.data.nodes[i].connectionCount
                       == EndpointCount(response.value.1, response.value.0[i].id))
              && |r.data.connections| == |response.value.1|
    ensures ShouldLoad(topicId) && response.Ok? ==>
              IsView(response.value.0, response.value.1, r.data)
    ensures ShouldLoad(topicId) && response.Err? ==>
              r.error == Some(response.error) && r.data == s.data
  {
    if !ShouldLoad(topicId) {
      return s;
    }
    match response {
      case Ok((rows, conns)) =>
        var data := TransformNodesAndConnections(rows, conns);
        r := HookState(data, false, None);
      case Err(message) =>
        r := HookState(s.data, false, Some(message));
    }
  }

  /** `updateNode(id, updates)`: after the service call succeeds the updates are
      merged into the matching node only; on failure the message is recorded,
      the nodes stay as they were, and the error is rethrown. */
  function LegacyUpdateNode(s: HookState, id: Id, p: NodePatch, call: Outcome)
    : (r: (HookState, Outcome))
    ensures r.1 == call
    ensures r.0.loading == s.loading && r.0.data.connections == s.data.connections
    ensures call.Succeeded? ==>
              r.0.error == s.error && r.0.data.nodes == MergeInto(s.data.nodes, id, p)
    ensures call.Failed? ==> r.0.error == Some(call.message) && r.0.data == s.data
  {
    match call
    case Succeeded => (s.(data := s.data.(nodes := MergeInto(s.data.nodes, id, p))), call)
    case Failed(m) => (s.(error := Some(m)), call)
  }

  /** `updateNodePositionLocal`: the local change only; no backend call is
      involved, so nothing can fail. */
  function LegacyUpdateNodePositionLocal(s: HookState, id: Id, p: Position): (r: HookState)
    ensures r.data.connections == s.data.connections && r.error == s.error
    ensures |r.data.nodes| == |s.data.nodes|
    ensures forall i :: 0 <= i < |s.data.nodes| ==>
              r.data.nodes[i] == if s.data.nodes[i].id == id
                                 then s.data.nodes[i].(position := p) else s.data.nodes[i]
  {
    s.(data := UpdateNodePositionLocal(s.data, id, p))
  }

  /** `updateNodePosition`: the local change happens before the call, and a
      failed call is swallowed; the error stays as it was and nothing is
      rethrown, so the result is the same whatever the call did. */
  function LegacyUpdateNodePosition(s: HookState, id: Id, p: Position, call: Outcome): (r: HookState)
    ensures r.error == s.error
    ensures r == LegacyUpdateNodePositionLocal(s, id, p)
  {
    match call
    case Succeeded => LegacyUpdateNodePositionLocal(s, id, p)
    case Failed(_) => LegacyUpdateNodePositionLocal(s, id, p)
  }

  /** `deleteNode(id)`: after the service call succeeds the node and every
      connection touching it are removed locally; on failure the message is
      recorded, the data stays as it was, and the error is rethrown. */
  function LegacyDeleteNode(s: HookState, id: Id, call: Outcome): (r: (HookState, Outcome))
    ensures r.1 == call
    ensures call.Succeeded? ==>
              r.0.error == s.error
              && (forall n :: n in r.0.data.nodes <==> n in s.data.nodes && n.id != id)
              && (forall c :: c in r.0.data.connections <==>
                    c in s.data.connections && c.from != id && c.to != id)
              && SubsequenceOf(r.0.data.nodes, s.data.nodes)
              && SubsequenceOf(r.0.data.connections, s.data.connections)
    ensures call.Failed? ==> r.0.error == Some(call.message) && r.0.data == s.data
  {
    match call
    case Succeeded => (s.(data := DeleteNodeLocal(s.data, id)), call)
    case Failed(m) => (s.(error := Some(m)), call)
  }

  // ---------------------------------------------------------------------------
  // React-Query hook: optimistic cache maps

  /** The query function: an empty graph without a topic id, the transformed
      rows otherwise (a fetch failure surfaces as the query error). */
  method QueryNodes(topicId: Option<Id>, response: Result<(seq<NodeRow>, seq<ConnectionRow>), string>)
    returns (r: Result<GraphData, string>)
    ensures !PresentAndTruthy(topicId) ==> r == Ok(GraphData([], []))
    ensures PresentAndTruthy(topicId) ==> (r.Ok? <==> response.Ok?)
    ensures PresentAndTruthy(topicId) && response.Err? ==> r == Err(response.error)
    ensures PresentAndTruthy(topicId) && response.Ok? ==>
              |r.value.nodes| == |response.value.0| && |r.value.connections| == |response.value.1|
    ensures PresentAndTruthy(topicId) && response.Ok? ==>
              r.Ok? && IsView(response.value.0, response.value.1, r.value)
  {
    if !PresentAndTruthy(topicId) {
      return Ok(GraphData([], []));
    }
    match response {
      case Ok((rows, conns)) =>
        var data := TransformNodesAndConnections(rows, conns);
        r := Ok(data);
      case Err(message) =>
        r := Err(message);
    }
  }

  /** What `onMutate` leaves behind: the optimistic cache and the snapshot it
      returns as context. */
  datatype Mutation = Mutation(cache: GraphData, previous: GraphData)

  /** `onMutate` of the node update: snapshot the cache, then merge the updates
      into the matching node. */
  function OnMutateUpdate(cache: GraphData, id: Id, p: NodePatch): (m: Mutation)
    ensures m.previous == cache
    ensures m.cache.connections == cache.connections
    ensures m.cache.nodes == MergeInto(cache.nodes, id, p)
    ensures |m.cache.nodes| == |cache.nodes|
    ensures forall i :: 0 <= i < |cache.nodes| && cache.nodes[i].id != id ==>
              m.cache.nodes[i] == cache.nodes[i]
    ensures forall i :: 0 <= i < |cache.nodes| && cache.nodes[i].id == id ==>
              m.cache.nodes[i] == ApplyPatch(cache.nodes[i], p)
  {
    Mutation(cache.(nodes := MergeInto(cache.nodes, id, p)), cache)
  }

  /** `onMutate` of the position update: snapshot the cache, then move the
      matching node. */
  function OnMutatePosition(cache: GraphData, id: Id, pos: Position): (m: Mutation)
    ensures m.previous == cache
    ensures m.cache == UpdateNodePositionLocal(cache, id, pos)
    ensures forall i :: 0 <= i < |cache.nodes| ==>
              m.cache.nodes[i].(position := cache.nodes[i].position) == cache.nodes[i]
  {
    Mutation(UpdateNodePositionLocal(cache, id, pos), cache)
  }

  /** `onError`: the cache becomes the snapshot from the context. */
  function OnError(m: Mutation): (cache: GraphData)
    ensures cache == m.previous
  {
    m.previous
  }

  /** A failed update leaves the cache exactly as it was before the mutation. */
  lemma UpdateRollbackRestores(cache: GraphData, id: Id, p: NodePatch)
    ensures OnError(OnMutateUpdate(cache, id, p)) == cache
  {
  }

  /** A failed position update leaves the cache exactly as it was before. */
  lemma PositionRollbackRestores(cache: GraphData, id: Id, pos: Position)
    ensures OnError(OnMutatePosition(cache, id, pos)) == cache
  {
  }

  /** The optimistic update is observable only on the node it names: a lookup
      of any other id gives what it gave before. */
  lemma OptimisticUpdateOnlyTouchesTarget(cache: GraphData, id: Id, other: Id, p: NodePatch)
    requires other != id
    ensures GetNodeById(OnMutateUpdate(cache, id, p).cache.nodes, other)
         == GetNodeById(cache.nodes, other)
  {
    var after := OnMutateUpdate(cache, id, p).cache.nodes;
    if GetNodeById(cache.nodes, other).Some? {
      var k :| 0 <= k < |cache.nodes| && cache.nodes[k] == GetNodeById(cache.nodes, other).value
               && cache.nodes[k].id == other
               && forall j :: 0 <= j < k ==> cache.nodes[j].id != other;
      FindFirst(after, other, k);
    } else {
      assert forall n :: n in after ==> n.id != other by {
        forall n | n in after
          ensures n.id != other
        {
          var i :| 0 <= i < |after| && after[i] == n;
          assert cache.nodes[i] in cache.nodes;
        }
      }
    }
  }

  /** The optimistic update is observable on the node it names: a lookup of
      that id finds the node it found before, with the patch applied. */
  lemma OptimisticUpdateReachesTarget(cache: GraphData, id: Id, p: NodePatch)
    ensures var before := GetNodeById(cache.nodes, id);
            GetNodeById(OnMutateUpdate(cache, id, p).cache.nodes, id)
            == if before.Some? then Some(ApplyPatch(before.value, p)) else None
  {
    var after := OnMutateUpdate(cache, id, p).cache.nodes;
    if GetNodeById(cache.nodes, id).Some? {
      var k :| 0 <= k < |cache.nodes| && cache.nodes[k] == GetNodeById(cache.nodes, id).value
               && cache.nodes[k].id == id
               && forall j :: 0 <= j < k ==> cache.nodes[j].id != id;
      FindFirst(after, id, k);
    } else {
      assert forall n :: n in after ==> n.id != id by {
        forall n | n in after
          ensures n.id != id
        {
          var i :| 0 <= i < |after| && after[i] == n;
          assert cache.nodes[i] in cache.nodes;
        }
      }
    }
  }

  /** `error?.message || null`. */
  function ErrorMessage(error: Option<string>): (r: Option<string>)
    ensures r.Some? <==> PresentAndTruthy(error)
    ensures r.Some? ==> r == error
  {
    OrNull(error)
  }
}
