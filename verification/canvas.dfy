/** The canvas page controller (`TopicMapPage`, both versions): integer zoom,
    the edge list, the drag and drag-end handlers, click-to-select, save and
    delete of the selected node, and the keyboard shortcuts with their
    visitor-mode guards. Handlers return the next page state together with
    the hook calls they make; hook calls that can fail take their outcome as
    a parameter. */
module Canvas {
  import opened Wrappers
  import opened Strings
  import opened Seqs
  import opened Graph

  // ---------------------------------------------------------------------------
  // Zoom

  const ZoomMin := 50
  const ZoomMax := 200
  const ZoomStep := 10
  const ZoomInitial := 100

  /** `Math.min(prev + 10, 200)`. */
  function ZoomIn(z: int): (r: int)
    ensures r <= ZoomMax
    ensures r == z + ZoomStep || r == ZoomMax
    ensures z + ZoomStep <= ZoomMax ==> r == z + ZoomStep
  {
    if z + ZoomStep < ZoomMax then z + ZoomStep else ZoomMax
  }

  /** `Math.max(prev - 10, 50)`. */
  function ZoomOut(z: int): (r: int)
    ensures r >= ZoomMin
    ensures r == z - ZoomStep || r == ZoomMin
    ensures z - ZoomStep >= ZoomMin ==> r == z - ZoomStep
  {
    if z - ZoomStep > ZoomMin then z - ZoomStep else ZoomMin
  }

  /** A zoom level the page can show: within [50, 200] and a multiple of 10. */
  predicate ValidZoom(z: int) {
    ZoomMin <= z <= ZoomMax && z % ZoomStep == 0
  }

  /** Both buttons keep a valid zoom valid. */
  lemma ZoomStepsPreserveValid(z: int)
    requires ValidZoom(z)
    ensures ValidZoom(ZoomIn(z)) && ValidZoom(ZoomOut(z))
  {
  }

  /** A press of one of the zoom controls: `true` zooms in. */
  function ApplyZoom(z: int, presses: seq<bool>): int
    decreases |presses|
  {
    if |presses| == 0 then z
    else ApplyZoom(if presses[0] then ZoomIn(z) else ZoomOut(z), presses[1..])
  }

  /** Starting from 100, any sequence of presses leaves the zoom in [50, 200]
      and a multiple of 10. */
  lemma {:induction false} ZoomAlwaysValid(z: int, presses: seq<bool>)
    requires ValidZoom(z)
    ensures ValidZoom(ApplyZoom(z, presses))
    decreases |presses|
  {
    if |presses| > 0 {
      ZoomStepsPreserveValid(z);
      ZoomAlwaysValid(if presses[0] then ZoomIn(z) else ZoomOut(z), presses[1..]);
    }
  }

  lemma InitialZoomValid()
    ensures ValidZoom(ZoomInitial)
  {
  }

  // ---------------------------------------------------------------------------
  // Edge list

  /** A connection both of whose endpoints are nodes of the list. */
  predicate Resolves(nodes: seq<Node>, c: Connection) {
    GetNodeById(nodes, c.from).Some? && GetNodeById(nodes, c.to).Some?
  }

  /** A rendered edge; `key` is the connection's index in the full list
      (`connection-${index}`). */
  datatype Line = Line(key: nat, fromNode: Node, toNode: Node)

  /** `l` draws connection `l.key`, whose two endpoints resolve, between the
      nodes they resolve to. */
  predicate LineOf(nodes: seq<Node>, cs: seq<Connection>, l: Line) {
    l.key < |cs| && Resolves(nodes, cs[l.key])
    && l.fromNode == GetNodeById(nodes, cs[l.key].from).value
    && l.toNode == GetNodeById(nodes, cs[l.key].to).value
  }

  /** Some line is keyed by connection index `k`. */
  predicate HasKey(lines: seq<Line>, k: nat) {
    exists i :: 0 <= i < |lines| && lines[i].key == k
  }

  /** Appending a line keeps every key already present. */
  lemma HasKeyAppend(lines: seq<Line>, l: Line, m: nat)
    requires HasKey(lines, m)
    ensures HasKey(lines + [l], m)
  {
    var i :| 0 <= i < |lines| && lines[i].key == m;
    assert (lines + [l])[i] == lines[i];
  }

  /** The lines built from the first `k` connections: each draws a resolving
      connection below `k`, keys increase, and every resolving connection
      below `k` has its line. */
  predicate LinesUpTo(nodes: seq<Node>, cs: seq<Connection>, lines: seq<Line>, k: nat) {
    k <= |cs|
    && (forall i :: 0 <= i < |lines| ==> LineOf(nodes, cs, lines[i]) && lines[i].key < k)
    && (forall i, j :: 0 <= i < j < |lines| ==> lines[i].key < lines[j].key)
    && (forall m: nat :: m < k && Resolves(nodes, cs[m]) ==> HasKey(lines, m))
  }

  /** A resolving connection adds its line at the end. */
  lemma LinesStepDraws(nodes: seq<Node>, cs: seq<Connection>, lines: seq<Line>, k: nat)
    requires LinesUpTo(nodes, cs, lines, k) && k < |cs| && Resolves(nodes, cs[k])
    ensures LinesUpTo(nodes, cs, lines + [Line(k, GetNodeById(nodes, cs[k].from).value,
                                                  GetNodeById(nodes, cs[k].to).value)], k + 1)
  {
    var l := Line(k, GetNodeById(nodes, cs[k].from).value, GetNodeById(nodes, cs[k].to).value);
    var next := lines + [l];
    LinesOfStep(nodes, cs, lines, l, k);
    forall i, j | 0 <= i < j < |next|
      ensures next[i].key < next[j].key
    {
      assert next[i] == lines[i];
      if j < |lines| {
        assert next[j] == lines[j];
      }
    }
    KeysStepDraws(lines, l, k, nodes, cs);
  }

  /** Appending the line of connection `k` keeps every line a line of the
      connections below `k + 1`. */
  lemma LinesOfStep(nodes: seq<Node>, cs: seq<Connection>, lines: seq<Line>, l: Line, k: nat)
    requires forall i :: 0 <= i < |lines| ==> LineOf(nodes, cs, lines[i]) && lines[i].key < k
    requires LineOf(nodes, cs, l) && l.key == k
    ensures forall i :: 0 <= i < |lines + [l]| ==>
              LineOf(nodes, cs, (lines + [l])[i]) && (lines + [l])[i].key < k + 1
  {
    forall i | 0 <= i < |lines + [l]|
      ensures LineOf(nodes, cs, (lines + [l])[i]) && (lines + [l])[i].key < k + 1
    {
      if i < |lines| {
        assert (lines + [l])[i] == lines[i];
      }
    }
  }

  /** After a line keyed `k` is appended, every key below `k + 1` that had to
      be present is. */
  lemma KeysStepDraws(lines: seq<Line>, l: Line, k: nat, nodes: seq<Node>, cs: seq<Connection>)
    requires k < |cs| && l.key == k
    requires forall m: nat :: m < k && Resolves(nodes, cs[m]) ==> HasKey(lines, m)
    ensures forall m: nat :: m < k + 1 && Resolves(nodes, cs[m]) ==> HasKey(lines + [l], m)
  {
    forall m: nat | m < k + 1 && Resolves(nodes, cs[m])
      ensures HasKey(lines + [l], m)
    {
      if m < k {
        HasKeyAppend(lines, l, m);
      } else {
        assert (lines + [l])[|lines|].key == m;
      }
    }
  }

  /** A connection with a missing endpoint adds no line. */
  lemma LinesStepSkips(nodes: seq<Node>, cs: seq<Connection>, lines: seq<Line>, k: nat)
    requires LinesUpTo(nodes, cs, lines, k) && k < |cs| && !Resolves(nodes, cs[k])
    ensures LinesUpTo(nodes, cs, lines, k + 1)
  {
  }

  /** `connectionLines`: one line per connection whose two endpoints resolve,
      in connection order, keyed by the connection's original index. */
  method ConnectionLines(nodes: seq<Node>, cs: seq<Connection>) returns (lines: seq<Line>)
    ensures forall i :: 0 <= i < |lines| ==> LineOf(nodes, cs, lines[i])
    ensures forall i, j :: 0 <= i < j < |lines| ==> lines[i].key < lines[j].key
    ensures forall k: nat :: k < |cs| && Resolves(nodes, cs[k]) ==> HasKey(lines, k)
  {
    lines := [];
    var k := 0;
    while k < |cs|
      invariant LinesUpTo(nodes, cs, lines, k)
    {
      var fromNode := GetNodeById(nodes, cs[k].from);
      var toNode := GetNodeById(nodes, cs[k].to);
      if fromNode.Some? && toNode.Some? {
        LinesStepDraws(nodes, cs, lines, k);
        lines := lines + [Line(k, fromNode.value, toNode.value)];
      } else {
        LinesStepSkips(nodes, cs, lines, k);
      }
      k := k + 1;
    }
  }

  /** When every connection resolves, every connection gets its line, in
      order: the i-th line is keyed `i`. */
  lemma AllResolveAllDrawn(nodes: seq<Node>, cs: seq<Connection>, lines: seq<Line>)
    requires forall i :: 0 <= i < |lines| ==> LineOf(nodes, cs, lines[i])
    requires forall i, j :: 0 <= i < j < |lines| ==> lines[i].key < lines[j].key
    requires forall k: nat :: k < |cs| && Resolves(nodes, cs[k]) ==> HasKey(lines, k)
    requires forall k :: 0 <= k < |cs| ==> Resolves(nodes, cs[k])
    ensures |lines| == |cs|
    ensures forall i :: 0 <= i < |lines| ==> lines[i].key == i
  {
    if |lines| > 0 {
      KeyAtLeastIndex(lines, |lines| - 1);
      assert LineOf(nodes, cs, lines[|lines| - 1]);
    }
    if |cs| > 0 {
      KeyIsIndex(nodes, cs, lines, |cs| - 1);
    }
    forall i: nat | i < |cs|
      ensures i < |lines| && lines[i].key == i
    {
      KeyIsIndex(nodes, cs, lines, i);
    }
  }

  /** Under the hypotheses above, connection `i` is drawn by line `i`. */
  lemma {:induction false} KeyIsIndex(nodes: seq<Node>, cs: seq<Connection>, lines: seq<Line>, i: nat)
    requires i < |cs|
    requires forall a, b :: 0 <= a < b < |lines| ==> lines[a].key < lines[b].key
    requires forall k: nat :: k < |cs| && Resolves(nodes, cs[k]) ==> HasKey(lines, k)
    requires forall k :: 0 <= k < |cs| ==> Resolves(nodes, cs[k])
    ensures i < |lines| && lines[i].key == i
    decreases i
  {
    assert HasKey(lines, i);
    var t :| 0 <= t < |lines| && lines[t].key == i;
    if t < i {
      KeyIsIndex(nodes, cs, lines, t);
      assert false;
    } else if t > i {
      KeyAtLeastIndex(lines, i);
      assert false;
    }
  }

  /** The `i`-th of strictly increasing natural keys is at least `i`. */
  lemma {:induction false} KeyAtLeastIndex(lines: seq<Line>, i: nat)
    requires i < |lines|
    requires forall a, b :: 0 <= a < b < |lines| ==> lines[a].key < lines[b].key
    ensures lines[i].key >= i
    decreases i
  {
    if i > 0 {
      KeyAtLeastIndex(lines, i - 1);
    }
  }

  // ---------------------------------------------------------------------------
  // Page state and handlers

  /** The hook calls and alerts a handler makes. */
  datatype Call =
    | PersistPosition(id: Id, position: Position)
    | UpdateNodeCall(id: Id, patch: NodePatch)
    | UpdateConnectionsCall(id: Id, ids: seq<Id>)
    | DeleteNodeCall(id: Id)
    | CreateNodeCall(connectionIds: seq<Id>)
    | Alert(message: string)

  /** The page's own state; the graph itself lives in the nodes hook. */
  datatype Page = Page(zoom: int, addOpen: bool, selected: Option<Node>, detailsOpen: bool,
                       visitor: bool, loadingTopic: bool, nodesLoading: bool)

  /** `handleNodeDrag`: a local position update and no call at all. */
  function HandleNodeDrag(data: GraphData, id: Id, p: Position): (r: (GraphData, seq<Call>))
    ensures r.1 == []
    ensures r.0 == UpdateNodePositionLocal(data, id, p)
  {
    (UpdateNodePositionLocal(data, id, p), [])
  }

  /** `handleNodeDragEnd`: persist the node's stored position once, or do
      nothing when the id resolves to no node. */
  function HandleNodeDragEnd(data: GraphData, id: Id): (r: seq<Call>)
    ensures GetNodeById(data.nodes, id).None? ==> r == []
    ensures GetNodeById(data.nodes, id).Some? ==>
              r == [PersistPosition(id, GetNodeById(data.nodes, id).value.position)]
  {
    match GetNodeById(data.nodes, id)
    case Some(n) => [PersistPosition(id, n.position)]
    case None => []
  }

  /** The local state after a run of drag reports for one node. */
  function DragSession(data: GraphData, id: Id, ps: seq<Position>): GraphData
    decreases |ps|
  {
    if |ps| == 0 then data
    else DragSession(HandleNodeDrag(data, id, ps[0]).0, id, ps[1..])
  }

  /** During a drag only local updates happen, so the node stays where a
      lookup finds it and carries the last reported position. */
  lemma {:induction false} DragSessionKeepsNode(data: GraphData, id: Id, ps: seq<Position>)
    requires GetNodeById(data.nodes, id).Some?
    requires |ps| > 0
    ensures GetNodeById(DragSession(data, id, ps).nodes, id)
         == Some(GetNodeById(data.nodes, id).value.(position := ps[|ps| - 1]))
    decreases |ps|
  {
    var next := HandleNodeDrag(data, id, ps[0]).0;
    FindAfterPositionUpdate(data, id, ps[0]);
    if |ps| > 1 {
      DragSessionKeepsNode(next, id, ps[1..]);
    }
  }

  /** The drag protocol: after any run of drag reports for an existing node,
      drag-end issues exactly one persist call, carrying the last reported
      position. */
  lemma DragEndPersistsLastPosition(data: GraphData, id: Id, ps: seq<Position>)
    requires GetNodeById(data.nodes, id).Some?
    requires |ps| > 0
    ensures HandleNodeDragEnd(DragSession(data, id, ps), id) == [PersistPosition(id, ps[|ps| - 1])]
  {
    DragSessionKeepsNode(data, id, ps);
  }

  /** `handleNodeClick`: select the node and open its details, only for an id
      that resolves. */
  function HandleNodeClick(page: Page, nodes: seq<Node>, id: Id): (r: Page)
    ensures GetNodeById(nodes, id).None? ==> r == page
    ensures GetNodeById(nodes, id).Some? ==>
              r == page.(selected := GetNodeById(nodes, id), detailsOpen := true)
  {
    match GetNodeById(nodes, id)
    case Some(n) => page.(selected := Some(n), detailsOpen := true)
    case None => page
  }

  /** `handleAddNode(nodeData)`: create with `nodeData.connections || []`; close
      the modal on success, alert on failure. */
  function HandleAddNode(page: Page, connections: Option<seq<Id>>, call: Outcome): (r: (Page, seq<Call>))
    ensures |r.1| >= 1 && r.1[0] == CreateNodeCall(connections.GetOr([]))
    ensures call.Succeeded? ==> r.0 == page.(addOpen := false) && |r.1| == 1
    ensures call.Failed? ==> r.0 == page && r.1 == [CreateNodeCall(connections.GetOr([])),
                                                     Alert("Failed to create node. Please try again.")]
  {
    var create := CreateNodeCall(connections.GetOr([]));
    match call
    case Succeeded => (page.(addOpen := false), [create])
    case Failed(_) => (page, [create, Alert("Failed to create node. Please try again.")])
  }

  /** What the details modal hands to `handleSaveNode`; `None` is an absent
      key. */
  datatype SaveUpdates = SaveUpdates(title: Option<string>, description: Option<string>,
                                     connections: Option<seq<Id>>)

  /** The updates without `connections` (`...nodeUpdates`). */
  function NodeUpdates(u: SaveUpdates): NodePatch {
    NodePatch(u.title, u.description, None)
  }

  /** `nodeUpdates.title || nodeUpdates.description`: the condition under which
      `handleSaveNode` calls `updateNode`. */
  predicate WantsUpdate(u: SaveUpdates) {
    PresentAndTruthy(u.title) || PresentAndTruthy(u.description)
  }

  /** The result of `handleSaveNode`: the page, the calls made, and whether
      the handler rethrew. */
  datatype SaveResult = SaveResult(page: Page, calls: seq<Call>, outcome: Outcome)

  /** `handleSaveNode(updates)`: nothing without a selection; otherwise
      `updateNode` only when the title or the description is truthy, then
      `updateConnections` only when `connections` is present; a failure stops
      the handler and is rethrown; on success the selection absorbs the
      updates. */
  function HandleSaveNode(page: Page, u: SaveUpdates, updateCall: Outcome, connectionsCall: Outcome)
    : (r: SaveResult)
    ensures page.selected.None? ==> r == SaveResult(page, [], Succeeded)
    ensures page.selected.Some? ==>
              var id := page.selected.value.id;
              && (UpdateNodeCall(id, NodeUpdates(u)) in r.calls <==> WantsUpdate(u))
              && (u.connections.None? ==> forall c :: c in r.calls ==> !c.UpdateConnectionsCall?)
    ensures page.selected.Some? && r.outcome.Succeeded? ==>
              (u.connections.Some? ==>
                 UpdateConnectionsCall(page.selected.value.id, u.connections.value) in r.calls)
              && r.page == page.(selected := Some(ApplyPatch(page.selected.value, NodeUpdates(u))))
    ensures r.outcome.Failed? ==> r.page == page
    ensures page.selected.Some? && WantsUpdate(u) && updateCall.Failed? ==>
              r == SaveResult(page, [UpdateNodeCall(page.selected.value.id, NodeUpdates(u))], updateCall)
    ensures page.selected.Some? && !(WantsUpdate(u) && updateCall.Failed?)
            && u.connections.Some? && connectionsCall.Failed? ==>
              r.outcome == connectionsCall && r.page == page
    ensures page.selected.Some? && !(WantsUpdate(u) && updateCall.Failed?)
            && !(u.connections.Some? && connectionsCall.Failed?) ==>
              r.outcome.Succeeded?
  {
    if page.selected.None? then SaveResult(page, [], Succeeded)
    else
      var node := page.selected.value;
      var wantsUpdate := WantsUpdate(u);
      var first := if wantsUpdate then [UpdateNodeCall(node.id, NodeUpdates(u))] else [];
      if wantsUpdate && updateCall.Failed? then SaveResult(page, first, updateCall)
      else if u.connections.None? then
        SaveResult(page.(selected := Some(ApplyPatch(node, NodeUpdates(u)))), first, Succeeded)
      else
        var calls := first + [UpdateConnectionsCall(node.id, u.connections.value)];
        if connectionsCall.Failed? then SaveResult(page, calls, connectionsCall)
        else SaveResult(page.(selected := Some(ApplyPatch(node, NodeUpdates(u)))), calls, Succeeded)
  }

  /** `handleDeleteNode`: nothing without a selection; otherwise delete the
      selected node; on success close the details and clear the selection, on
      failure alert and leave the page as it was. */
  function HandleDeleteNode(page: Page, call: Outcome): (r: (Page, seq<Call>))
    ensures page.selected.None? ==> r == (page, [])
    ensures page.selected.Some? && call.Succeeded? ==>
              r == (page.(detailsOpen := false, selected := None), [DeleteNodeCall(page.selected.value.id)])
    ensures page.selected.Some? && call.Failed? ==>
              r == (page, [DeleteNodeCall(page.selected.value.id),
                           Alert("Failed to delete node. Please try again.")])
  {
    match page.selected
    case None => (page, [])
    case Some(n) =>
      match call
      case Succeeded => (page.(detailsOpen := false, selected := None), [DeleteNodeCall(n.id)])
      case Failed(_) => (page, [DeleteNodeCall(n.id), Alert("Failed to delete node. Please try again.")])
  }

  // ---------------------------------------------------------------------------
  // Keyboard shortcuts

  /** The combos the page registers. */
  const ShortcutCombos: set<string> := {"Ctrl+n", "+", "=", "-", "Escape", "Delete"}

  /** `!loadingTopic && !nodesLoading`: shortcuts listen only once both the topic
      and the nodes have loaded. */
  predicate ShortcutsEnabled(page: Page) {
    !page.loadingTopic && !page.nodesLoading
  }

  /** A key combo reaching the page: ignored while loading or when no handler
      is registered for it; `deleteCall` is the outcome of the delete that
      `Delete` may start. */
  function OnShortcut(page: Page, combo: string, deleteCall: Outcome): (r: (Page, seq<Call>))
    ensures !ShortcutsEnabled(page) || combo !in ShortcutCombos ==> r == (page, [])
    ensures ShortcutsEnabled(page) && combo == "Ctrl+n" ==>
              r.1 == [] && (page.visitor ==> r.0 == page)
              && (!page.visitor ==> r.0 == page.(addOpen := true))
    ensures ShortcutsEnabled(page) && (combo == "+" || combo == "=") ==>
              r == (page.(zoom := ZoomIn(page.zoom)), [])
    ensures ShortcutsEnabled(page) && combo == "-" ==> r == (page.(zoom := ZoomOut(page.zoom)), [])
    ensures ShortcutsEnabled(page) && combo == "Escape" ==>
              r == (page.(addOpen := false, detailsOpen := false,
                          selected := if page.detailsOpen then None else page.selected), [])
    ensures ShortcutsEnabled(page) && combo == "Delete" ==>
              (page.selected.None? || page.visitor ==> r == (page, []))
              && (page.selected.Some? && !page.visitor ==> r == HandleDeleteNode(page, deleteCall))
  {
    if !ShortcutsEnabled(page) then (page, [])
    else if combo == "Ctrl+n" then (if !page.visitor then page.(addOpen := true) else page, [])
    else if combo == "+" || combo == "=" then (page.(zoom := ZoomIn(page.zoom)), [])
    else if combo == "-" then (page.(zoom := ZoomOut(page.zoom)), [])
    else if combo == "Escape" then
      var p1 := if page.addOpen then page.(addOpen := false) else page;
      var p2 := if page.detailsOpen then p1.(detailsOpen := false, selected := None) else p1;
      (p2, [])
    else if combo == "Delete" then
      if page.selected.Some? && !page.visitor then HandleDeleteNode(page, deleteCall) else (page, [])
    else (page, [])
  }

  /** In visitor mode no shortcut issues a call or opens the add-node modal. */
  lemma VisitorShortcutsMakeNoCalls(page: Page, combo: string, deleteCall: Outcome)
    requires page.visitor
    ensures OnShortcut(page, combo, deleteCall).1 == []
    ensures OnShortcut(page, combo, deleteCall).0.addOpen ==> page.addOpen
  {
  }
}
