/** The drag state machines: the pointer-and-touch `MapNode`, the mouse-only
    legacy `MapNode`, and the self-contained `useDraggable` hook. Each is idle
    or dragging; pressing captures the offset between pointer and node, a move
    reports the pointer minus that offset, and releasing ends the drag.
    Coordinates are integers. */
module Drag {
  import opened Wrappers
  import opened Strings
  import opened Seqs
  import opened Graph

  /** One entry of `e.touches`. */
  datatype Touch = Touch(clientX: int, clientY: int)

  /** A mouse or touch event: `clientX`/`clientY` are absent on touch events,
      and `touches` is empty when the event has none (a mouse event, or a
      `touchend`). */
  datatype PointerEvent = PointerEvent(clientX: Option<int>, clientY: Option<int>, touches: seq<Touch>)

  /** Where a press or click landed: inside `.map-node-drag-handle` or not. */
  datatype Target = Handle | Body

  /** `e.clientX ?? e.touches?.[0]?.clientX ?? 0`, and likewise for `y`. */
  function PointerOf(e: PointerEvent): (p: Position)
    ensures e.clientX.Some? ==> p.x == e.clientX.value
    ensures e.clientX.None? && |e.touches| > 0 ==> p.x == e.touches[0].clientX
    ensures e.clientX.None? && |e.touches| == 0 ==> p.x == 0
    ensures e.clientY.Some? ==> p.y == e.clientY.value
    ensures e.clientY.None? && |e.touches| > 0 ==> p.y == e.touches[0].clientY
    ensures e.clientY.None? && |e.touches| == 0 ==> p.y == 0
  {
    var x := if e.clientX.Some? then e.clientX.value
             else if |e.touches| > 0 then e.touches[0].clientX else 0;
    var y := if e.clientY.Some? then e.clientY.value
             else if |e.touches| > 0 then e.touches[0].clientY else 0;
    Position(x, y)
  }

  function Sub(a: Position, b: Position): Position {
    Position(a.x - b.x, a.y - b.y)
  }

  // ---------------------------------------------------------------------------
  // MapNode

  /** `isDragging` and `dragOffsetRef.current`; the offset outlives the drag. */
  datatype NodeDrag = NodeDrag(dragging: bool, offset: Position)

  const InitialNodeDrag := NodeDrag(false, Position(0, 0))

  /** What a `MapNode` tells its parent. */
  datatype Emit = DragTo(id: Id, position: Position) | DragEnd(id: Id) | Clicked

  /** `!isDraggingDisabled && <handle/>`: the handle exists only when dragging
      is allowed. */
  predicate HandleRendered(disabled: bool) {
    !disabled
  }

  /** `handlePointerDown`: ignored when dragging is disabled or the press is
      off the handle; otherwise the node starts dragging with the offset
      between pointer and node position. */
  function PointerDown(s: NodeDrag, disabled: bool, target: Target, position: Position,
                       e: PointerEvent): (r: NodeDrag)
    ensures disabled || target == Body ==> r == s
    ensures !disabled && target == Handle ==>
              r.dragging && Sub(PointerOf(e), r.offset) == position
  {
    if disabled then s
    else if target == Handle then NodeDrag(true, Sub(PointerOf(e), position))
    else s
  }

  /** `handlePointerMove`, attached only while dragging: reports the pointer
      minus the offset. */
  function PointerMove(s: NodeDrag, id: Id, e: PointerEvent): (r: Option<Emit>)
    ensures r.Some? <==> s.dragging
    ensures r.Some? ==> r.value.DragTo? && r.value.id == id
                        && r.value.position.x + s.offset.x == PointerOf(e).x
                        && r.value.position.y + s.offset.y == PointerOf(e).y
  {
    if s.dragging then Some(DragTo(id, Sub(PointerOf(e), s.offset))) else None
  }

  /** `handlePointerUp`, attached only while dragging: back to idle, and one
      `onDragEnd(id)`. */
  function PointerUp(s: NodeDrag, id: Id): (r: (NodeDrag, Option<Emit>))
    ensures !r.0.dragging
    ensures r.0.offset == s.offset
    ensures r.1.Some? <==> s.dragging
    ensures r.1.Some? ==> r.1.value == DragEnd(id)
  {
    if s.dragging then (s.(dragging := false), Some(DragEnd(id))) else (s, None)
  }

  /** `handleClick`: the click reaches the parent only when not dragging, not
      on the handle, and a handler was given. */
  function Click(s: NodeDrag, target: Target, hasOnClick: bool): (r: Option<Emit>)
    ensures r.Some? <==> !s.dragging && target == Body && hasOnClick
    ensures r.Some? ==> r.value == Clicked
  {
    if !s.dragging && target == Body && hasOnClick then Some(Clicked) else None
  }

  /** Moving the pointer back to where it was pressed reports the node's
      original position. */
  lemma MoveToPressPointRestores(s: NodeDrag, id: Id, position: Position, e: PointerEvent)
    ensures var d := PointerDown(s, false, Handle, position, e);
            PointerMove(d, id, e) == Some(DragTo(id, position))
  {
  }

  /** While a drag is in progress no click gets through, and a click on the
      handle never does. */
  lemma ClickExclusiveWithDrag(s: NodeDrag, target: Target, hasOnClick: bool)
    requires s.dragging || target == Handle
    ensures Click(s, target, hasOnClick).None?
  {
  }

  /** With dragging disabled there is no handle, so no press can start a drag. */
  lemma DisabledNeverDrags(s: NodeDrag, target: Target, position: Position, e: PointerEvent)
    requires !s.dragging
    ensures !PointerDown(s, true, target, position, e).dragging
  {
  }

  /** The input a node sees between one press and the next. */
  datatype Input = Down(target: Target, e: PointerEvent) | Move(e: PointerEvent) | Up

  /** One input applied to a node: the next state and what it reports. */
  function Step(s: NodeDrag, disabled: bool, id: Id, position: Position, i: Input)
    : (r: (NodeDrag, seq<Emit>))
    ensures |r.1| <= 1
  {
    match i
    case Down(t, e) => (PointerDown(s, disabled, t, position, e), [])
    case Move(e) =>
      var m := PointerMove(s, id, e);
      (s, if m.Some? then [m.value] else [])
    case Up =>
      var u := PointerUp(s, id);
      (u.0, if u.1.Some? then [u.1.value] else [])
  }

  /** Feeds a run of inputs to one node, collecting what it reports. */
  function Run(s: NodeDrag, disabled: bool, id: Id, position: Position, inputs: seq<Input>)
    : (r: (NodeDrag, seq<Emit>))
    decreases |inputs|
  {
    if |inputs| == 0 then (s, [])
    else
      var first := Step(s, disabled, id, position, inputs[0]);
      var rest := Run(first.0, disabled, id, position, inputs[1..]);
      (rest.0, first.1 + rest.1)
  }

  predicate IsDragEnd(x: Emit) {
    x.DragEnd?
  }

  function MoveOf(e: PointerEvent): Input {
    Move(e)
  }

  /** A run of moves while dragging reports one position per move, stays
      dragging, and reports no drag end. */
  lemma {:induction false} MovesWhileDragging(s: NodeDrag, disabled: bool, id: Id,
                                              position: Position, es: seq<PointerEvent>)
    requires s.dragging
    ensures var r := Run(s, disabled, id, position, Map(es, MoveOf));
            r.0 == s && |r.1| == |es|
            && forall k :: 0 <= k < |es| ==> r.1[k] == DragTo(id, Sub(PointerOf(es[k]), s.offset))
    decreases |es|
  {
    if |es| > 0 {
      assert Map(es, MoveOf)[1..] == Map(es[1..], MoveOf);
      MovesWhileDragging(s, disabled, id, position, es[1..]);
    }
  }

  /** One gesture — a press on the handle, any number of moves, a release —
      reports every move and then exactly one drag end, and leaves the node
      idle. */
  lemma GestureEndsOnce(s: NodeDrag, id: Id, position: Position, press: PointerEvent,
                        es: seq<PointerEvent>)
    ensures var r := Run(s, false, id, position, [Down(Handle, press)] + Map(es, MoveOf) + [Up]);
            !r.0.dragging && |r.1| == |es| + 1 && r.1[|es|] == DragEnd(id)
            && Count(r.1, IsDragEnd) == 1
  {
    var inputs := [Down(Handle, press)] + Map(es, MoveOf) + [Up];
    var d := PointerDown(s, false, Handle, position, press);
    var moves := Map(es, MoveOf);
    assert inputs[1..] == moves + [Up];
    RunAppend(d, false, id, position, moves, [Up]);
    MovesWhileDragging(d, false, id, position, es);
    var emitted := Run(d, false, id, position, moves).1;
    assert forall x :: x in emitted ==> !IsDragEnd(x);
    assert Run(s, false, id, position, inputs).1 == emitted + [DragEnd(id)];
    CountAppend(emitted, [DragEnd(id)], IsDragEnd);
  }

  /** Running two input runs one after the other is running their
      concatenation. */
  lemma {:induction false} RunAppend(s: NodeDrag, disabled: bool, id: Id, position: Position,
                                     a: seq<Input>, b: seq<Input>)
    ensures var ra := Run(s, disabled, id, position, a);
            var rb := Run(ra.0, disabled, id, position, b);
            Run(s, disabled, id, position, a + b) == (rb.0, ra.1 + rb.1)
    decreases |a|
  {
    if |a| > 0 {
      assert (a + b)[1..] == a[1..] + b;
      assert (a + b)[0] == a[0];
      var first := Step(s, disabled, id, position, a[0]);
      RunAppend(first.0, disabled, id, position, a[1..], b);
      var ra' := Run(first.0, disabled, id, position, a[1..]);
      var rb := Run(ra'.0, disabled, id, position, b);
      assert first.1 + (ra'.1 + rb.1) == (first.1 + ra'.1) + rb.1;
    } else {
      assert a + b == b;
      var rb := Run(s, disabled, id, position, b);
      assert [] + rb.1 == rb.1;
    }
  }

  /** `{connectionCount} connection{connectionCount !== 1 ? 's' : ''}`, shown only
      when a count is given. */
  function ConnectionLabel(count: Option<nat>): (r: Option<string>)
    ensures r.Some? <==> count.Some?
    ensures r.Some? ==> StartsWith(r.value, NatToString(count.value))
    ensures r.Some? ==> (r.value[|r.value| - 1] == 's' <==> count.value != 1)
  {
    if count.None? then None
    else
      var n := count.value;
      var text := NatToString(n) + " connection" + (if n != 1 then "s" else "");
      assert text[..|NatToString(n)|] == NatToString(n);
      Some(text)
  }

  lemma ConnectionLabelExamples()
    ensures ConnectionLabel(Some(1)) == Some("1 connection")
    ensures ConnectionLabel(Some(0)) == Some("0 connections")
    ensures ConnectionLabel(Some(3)) == Some("3 connections")
  {
    assert NatToString(1) == [Digit(1)] == "1";
    assert NatToString(0) == [Digit(0)] == "0";
    assert NatToString(3) == [Digit(3)] == "3";
    assert "1" + " connection" + "" == "1 connection";
    assert "0" + " connection" + "s" == "0 connections";
    assert "3" + " connection" + "s" == "3 connections";
  }

  // ---------------------------------------------------------------------------
  // Legacy mouse-only MapNode

  /** `handleMouseDown`: mouse events always carry client coordinates. */
  function MouseDown(s: NodeDrag, disabled: bool, target: Target, position: Position,
                     clientX: int, clientY: int): (r: NodeDrag)
    ensures disabled || target == Body ==> r == s
    ensures !disabled && target == Handle ==>
              r == NodeDrag(true, Position(clientX - position.x, clientY - position.y))
  {
    if disabled then s
    else if target == Handle then NodeDrag(true, Position(clientX - position.x, clientY - position.y))
    else s
  }

  /** `handleMouseMove`: the client point minus the offset, while dragging. */
  function MouseMove(s: NodeDrag, id: Id, clientX: int, clientY: int): (r: Option<Emit>)
    ensures r.Some? <==> s.dragging
    ensures r.Some? ==> r.value == DragTo(id, Position(clientX - s.offset.x, clientY - s.offset.y))
  {
    if s.dragging then Some(DragTo(id, Position(clientX - s.offset.x, clientY - s.offset.y))) else None
  }

  function MouseEvent(clientX: int, clientY: int): PointerEvent {
    PointerEvent(Some(clientX), Some(clientY), [])
  }

  /** On mouse input the two `MapNode` versions behave the same. */
  lemma MouseVariantAgrees(s: NodeDrag, disabled: bool, target: Target, position: Position,
                           id: Id, x: int, y: int)
    ensures MouseDown(s, disabled, target, position, x, y)
         == PointerDown(s, disabled, target, position, MouseEvent(x, y))
    ensures MouseMove(s, id, x, y) == PointerMove(s, id, MouseEvent(x, y))
  {
  }

  // ---------------------------------------------------------------------------
  // useDraggable

  /** `isDragging`, the hook's own `position`, and the offset. */
  datatype Draggable = Draggable(dragging: bool, position: Position, offset: Position)

  function InitDraggable(initial: Position): (d: Draggable)
    ensures !d.dragging && d.position == initial
  {
    Draggable(false, initial, Position(0, 0))
  }

  /** The effect on `initialPosition`: the position follows it. */
  function ResetPosition(d: Draggable, initial: Position): (r: Draggable)
    ensures r.position == initial
    ensures r.dragging == d.dragging && r.offset == d.offset
  {
    d.(position := initial)
  }

  /** `handlePointerDown`: any press starts a drag unless disabled; there is no
      handle check. */
  function DraggableDown(d: Draggable, disabled: bool, e: PointerEvent): (r: Draggable)
    ensures disabled ==> r == d
    ensures !disabled ==> r.dragging && r.position == d.position
                          && Sub(PointerOf(e), r.offset) == d.position
  {
    if disabled then d else Draggable(true, d.position, Sub(PointerOf(e), d.position))
  }

  /** `handlePointerMove`, while dragging: the position becomes the pointer
      minus the offset. */
  function DraggableMove(d: Draggable, e: PointerEvent): (r: Draggable)
    ensures !d.dragging ==> r == d
    ensures d.dragging ==> r.dragging && r.offset == d.offset
                           && r.position.x + d.offset.x == PointerOf(e).x
                           && r.position.y + d.offset.y == PointerOf(e).y
  {
    if d.dragging then d.(position := Sub(PointerOf(e), d.offset)) else d
  }

  /** `handlePointerUp`, while dragging: back to idle, reporting the current
      position when a callback was given. */
  function DraggableUp(d: Draggable, hasOnDragEnd: bool): (r: (Draggable, Option<Position>))
    ensures !r.0.dragging && r.0.position == d.position
    ensures r.1.Some? <==> d.dragging && hasOnDragEnd
    ensures r.1.Some? ==> r.1.value == d.position
  {
    if d.dragging then (d.(dragging := false), if hasOnDragEnd then Some(d.position) else None)
    else (d, None)
  }

  /** A press followed by a move and a release reports the position the move
      put the node at; a move back to the press point reports the start. */
  lemma DraggableGesture(d: Draggable, press: PointerEvent, move: PointerEvent)
    ensures var r := DraggableUp(DraggableMove(DraggableDown(d, false, press), move), true);
            r.1 == Some(Position(d.position.x + PointerOf(move).x - PointerOf(press).x,
                                 d.position.y + PointerOf(move).y - PointerOf(press).y))
    ensures DraggableUp(DraggableMove(DraggableDown(d, false, press), press), true).1
         == Some(d.position)
  {
  }
}
