/**
 * The state-tree traversal of src/ProvenanceGraphTraverser.ts: the direction
 * classifier, the recursive path search, the selection of do/undo handlers for
 * each hop of the track, and the sequential replay of those handlers.
 *
 * Thrown errors are `Err` results. A handler call is an `Invocation` appended to
 * a log; what its promise settles to comes from `respond`, a function of the
 * invocations made before it and of the call itself.
 */
module Traverser {
  import opened Wrappers
  import opened Api
  import opened Paths

  /** The errors the traversal throws, or lets through from its collaborators. */
  datatype Error =
    | UnconnectedNodes
    | NoPathToTarget
    | GoingUpFromRoot
    | UndoIrreversible
    | GoingDownToRoot
    | NodeNotFound(id: NodeIdentifier)
    | HandlerNotRegistered(name: string)
    | HandlerRejected(reason: Value)

  /** One handler call: the handler and the argument list it is applied to. */
  datatype Invocation = Invocation(handler: Handler, arguments: Arguments)

  /** How the promise a handler returns settles. */
  datatype Outcome = Resolved(value: Value) | Rejected(reason: Value)

  /** The parallel lists the selection loop fills. */
  datatype Plan = Plan(functionsToDo: seq<Handler>, argumentsToDo: seq<Arguments>)

  // ---------------------------------------------------------------------------
  // Direction classifier
  // ---------------------------------------------------------------------------

  /**
   * Whether the hop from `currentNode` to `nextNode` goes up: it does exactly
   * when `nextNode` is the parent of `currentNode`. Otherwise the hop counts as
   * going down, unless `nextNode` has a parent other than `currentNode`, which
   * is reported as unconnected nodes. A `nextNode` without a parent counts as
   * going down.
   */
  function IsNextNodeInTrackUp(nodes: seq<StateNode>, currentNode: NodeRef, nextNode: NodeRef): (r: Result<bool, Error>)
    requires currentNode < |nodes| && nextNode < |nodes|
    ensures r == Ok(true) <==> ParentOf(nodes, currentNode) == Some(nextNode)
    ensures r == Ok(false) <==> ParentOf(nodes, currentNode) != Some(nextNode)
                                && (ParentOf(nodes, nextNode) == None || ParentOf(nodes, nextNode) == Some(currentNode))
    ensures r.Err? ==> r.error == UnconnectedNodes
  {
    if nodes[currentNode].parent.Some? && nodes[currentNode].parent.value.previous == nextNode then
      Ok(true)
    else if nodes[nextNode].parent.Some? && nodes[nextNode].parent.value.previous != currentNode then
      Err(UnconnectedNodes)
    else
      Ok(false)
  }

  /**
   * On a well-formed graph, a hop to a neighbour is never refused: it goes up
   * when the neighbour is the parent, and otherwise the neighbour is a child
   * whose parent edge leaves `a`.
   */
  lemma ClassifyNeighbor(nodes: seq<StateNode>, a: NodeRef, b: NodeRef)
    requires WellFormed(nodes) && a < |nodes| && b < |nodes|
    requires b in Neighbors(nodes, a)
    ensures IsNextNodeInTrackUp(nodes, a, b) == Ok(ParentOf(nodes, a) == Some(b))
    ensures ParentOf(nodes, a) != Some(b) ==>
      nodes[b].parent.Some? && nodes[b].parent.value.previous == a
      && nodes[b].parent.value in nodes[a].children
  {
    NeighborCases(nodes, a, b);
    if ParentOf(nodes, a) != Some(b) {
      var i :| 0 <= i < |nodes[a].children| && nodes[a].children[i].next == b;
      assert nodes[b].parent == Some(nodes[a].children[i]);
    }
  }

  /**
   * On a well-formed graph, a hop to a node that is not a neighbour is
   * reported as unconnected, except when that node is a root, which the
   * classifier lets through as a hop down.
   */
  lemma ClassifyNonNeighbor(nodes: seq<StateNode>, a: NodeRef, b: NodeRef)
    requires WellFormed(nodes) && a < |nodes| && b < |nodes|
    requires b !in Neighbors(nodes, a)
    ensures IsNextNodeInTrackUp(nodes, a, b) == if nodes[b].parent.Some? then Err(UnconnectedNodes) else Ok(false)
  {
    NeighborCases(nodes, a, b);
  }

  // ---------------------------------------------------------------------------
  // Path search
  // ---------------------------------------------------------------------------

  /** The track array the search pushes onto; the caller owns it. */
  class Track {
    var nodes: seq<NodeRef>

    constructor()
      ensures nodes == []
    {
      nodes := [];
    }

    method Push(n: NodeRef)
      modifies this
      ensures nodes == old(nodes) + [n]
    {
      nodes := nodes + [n];
    }
  }

  /**
   * The recursive search, as written. From `currentNode` it tries every child
   * and then the parent, but recurses only while `track` is non-empty and its
   * last node differs from the candidate; on success it pushes `currentNode`
   * on the way out. `fuel` bounds the depth of recursion: a candidate met with
   * no fuel left counts as a failed branch.
   */
  method FindPathToTargetNode(nodes: seq<StateNode>, currentNode: Option<NodeRef>, targetNode: NodeRef, track: Track, fuel: nat)
    returns (found: bool)
    requires Closed(nodes)
    requires currentNode.Some? ==> currentNode.value < |nodes|
    modifies track
    decreases fuel
    ensures currentNode.None? ==> !found
    ensures currentNode == Some(targetNode) ==> found && track.nodes == old(track.nodes) + [targetNode]
    ensures |old(track.nodes)| <= |track.nodes| && track.nodes[..|old(track.nodes)|] == old(track.nodes)
    ensures !found ==> track.nodes == old(track.nodes)
    ensures found ==> currentNode.Some?
                      && SearchTrack(nodes, track.nodes[|old(track.nodes)|..], targetNode, currentNode.value)
    ensures old(track.nodes) == [] ==>
      (found <==> currentNode == Some(targetNode)) && (found ==> track.nodes == [targetNode])
  {
    if currentNode.None? {
      return false;
    }
    var c := currentNode.value;
    if c == targetNode {
      track.Push(c);
      return true;
    }
    var nodesToCheck := ChildNodes(nodes, c);
    if nodes[c].parent.Some? {
      nodesToCheck := nodesToCheck + [nodes[c].parent.value.previous];
    }
    assert nodesToCheck == Neighbors(nodes, c);
    NeighborsInRange(nodes, c);
    for k := 0 to |nodesToCheck|
      invariant track.nodes == old(track.nodes)
    {
      var node := nodesToCheck[k];
      if |track.nodes| > 0 && track.nodes[|track.nodes| - 1] != node && fuel > 0 {
        var ok := FindPathToTargetNode(nodes, Some(node), targetNode, track, fuel - 1);
        if ok {
          ghost var segment := track.nodes[|old(track.nodes)|..];
          track.Push(c);
          assert track.nodes[|old(track.nodes)|..] == segment + [c];
          return true;
        }
      }
    }
    return false;
  }

  // ---------------------------------------------------------------------------
  // Selection of handlers
  // ---------------------------------------------------------------------------

  /** `getFunctionByName`: the registered handler, or an error for an unknown name. */
  function GetFunctionByName(registry: Registry, name: string): Result<Handler, Error> {
    if name in registry then Ok(registry[name]) else Err(HandlerNotRegistered(name))
  }

  /** The call that undoes `action`; an irreversible action cannot be undone. */
  function UndoCall(registry: Registry, action: Action): Result<Invocation, Error> {
    match action
    case IrreversibleAction(_, _) => Err(UndoIrreversible)
    case ReversibleAction(_, _, undo, undoArguments) =>
      match GetFunctionByName(registry, undo)
      case Err(e) => Err(e)
      case Ok(h) => Ok(Invocation(h, undoArguments))
  }

  /** The call that does `action` again. */
  function DoCall(registry: Registry, action: Action): Result<Invocation, Error> {
    match GetFunctionByName(registry, action.do)
    case Err(e) => Err(e)
    case Ok(h) => Ok(Invocation(h, action.doArguments))
  }

  /**
   * What one iteration of the selection loop pushes for the hop from
   * `thisNode` to `nextNode`: the undo of the parent edge of `thisNode` when
   * the hop goes up, the do of the parent edge of `nextNode` when it goes down.
   */
  function SelectStep(nodes: seq<StateNode>, registry: Registry, thisNode: NodeRef, nextNode: NodeRef): Result<Invocation, Error>
    requires thisNode < |nodes| && nextNode < |nodes|
  {
    match IsNextNodeInTrackUp(nodes, thisNode, nextNode)
    case Err(e) => Err(e)
    case Ok(up) =>
      if up then
        match nodes[thisNode].parent
        case None => Err(GoingUpFromRoot)
        case Some(edge) => UndoCall(registry, edge.action)
      else
        match nodes[nextNode].parent
        case None => Err(GoingDownToRoot)
        case Some(edge) => DoCall(registry, edge.action)
  }

  /** The check for going up from the root can never fire: a hop goes up only from a node that has a parent. */
  lemma StepNeverGoesUpFromRoot(nodes: seq<StateNode>, registry: Registry, thisNode: NodeRef, nextNode: NodeRef)
    requires thisNode < |nodes| && nextNode < |nodes|
    ensures SelectStep(nodes, registry, thisNode, nextNode) != Err(GoingUpFromRoot)
  {
  }

  /**
   * On a well-formed graph, the hop from `a` to a neighbour `b` undoes the
   * parent edge of `a` when `b` is its parent, and otherwise does the edge
   * from `a` to `b`, which is a child edge of `a`.
   */
  lemma StepOnNeighbor(nodes: seq<StateNode>, registry: Registry, a: NodeRef, b: NodeRef)
    requires WellFormed(nodes) && a < |nodes| && b < |nodes|
    requires b in Neighbors(nodes, a)
    ensures ParentOf(nodes, a) == Some(b) ==>
      SelectStep(nodes, registry, a, b) == UndoCall(registry, nodes[a].parent.value.action)
    ensures ParentOf(nodes, a) != Some(b) ==>
      nodes[b].parent.Some?
      && nodes[b].parent.value in nodes[a].children
      && SelectStep(nodes, registry, a, b) == DoCall(registry, nodes[b].parent.value.action)
    ensures SelectStep(nodes, registry, a, b).Err? ==>
      SelectStep(nodes, registry, a, b).error == UndoIrreversible
      || SelectStep(nodes, registry, a, b).error.HandlerNotRegistered?
  {
    ClassifyNeighbor(nodes, a, b);
  }

  /**
   * On a well-formed graph, the hop from `a` to a node that is not its
   * neighbour fails: with unconnected nodes, or, when that node is a root,
   * with going down to the root.
   */
  lemma StepOnNonNeighbor(nodes: seq<StateNode>, registry: Registry, a: NodeRef, b: NodeRef)
    requires WellFormed(nodes) && a < |nodes| && b < |nodes|
    requires b !in Neighbors(nodes, a)
    ensures SelectStep(nodes, registry, a, b) ==
      Err(if nodes[b].parent.Some? then UnconnectedNodes else GoingDownToRoot)
  {
    ClassifyNonNeighbor(nodes, a, b);
  }

  /**
   * Going up across a reversible edge and coming back down across it select
   * the edge's undo and do handlers with their own argument lists.
   */
  lemma AscentDescentInverse(nodes: seq<StateNode>, registry: Registry, a: NodeRef, b: NodeRef)
    requires WellFormed(nodes) && a < |nodes| && b < |nodes|
    requires ParentOf(nodes, a) == Some(b) && ParentOf(nodes, b) != Some(a)
    requires nodes[a].parent.value.action.ReversibleAction?
    requires nodes[a].parent.value.action.do in registry && nodes[a].parent.value.action.undo in registry
    ensures var act := nodes[a].parent.value.action;
      SelectStep(nodes, registry, a, b) == Ok(Invocation(registry[act.undo], act.undoArguments))
      && SelectStep(nodes, registry, b, a) == Ok(Invocation(registry[act.do], act.doArguments))
  {
    var e := nodes[a].parent.value;
    assert e in nodes[b].children;
    var i :| 0 <= i < |nodes[b].children| && nodes[b].children[i] == e;
    assert a in Neighbors(nodes, b) by {
      NeighborCases(nodes, b, a);
    }
    StepOnNeighbor(nodes, registry, b, a);
  }

  /** No two nodes are each other's parent (as in any tree). */
  ghost predicate NoMutualParents(nodes: seq<StateNode>) {
    forall a :: 0 <= a < |nodes| && nodes[a].parent.Some? ==>
      nodes[a].parent.value.previous < |nodes|
      && ParentOf(nodes, nodes[a].parent.value.previous) != Some(a)
  }

  /** The edge a hop from `a` to `b` crosses: the parent edge of `a` going up, that of `b` going down. */
  function Crossed(nodes: seq<StateNode>, a: NodeRef, b: NodeRef): Option<StateEdge>
    requires a < |nodes| && b < |nodes|
  {
    if ParentOf(nodes, a) == Some(b) then nodes[a].parent else nodes[b].parent
  }

  /** The hop from `a` to `b` crosses an edge whose action is reversible with both handlers registered. */
  ghost predicate UndoableHop(nodes: seq<StateNode>, registry: Registry, a: NodeRef, b: NodeRef)
    requires a < |nodes| && b < |nodes|
  {
    Crossed(nodes, a, b).Some?
    && var act := Crossed(nodes, a, b).value.action;
       act.ReversibleAction? && act.do in registry && act.undo in registry
  }

  /** Every hop of the walk `w` crosses an edge that can be undone and redone. */
  ghost predicate UndoableAlong(nodes: seq<StateNode>, registry: Registry, w: seq<NodeRef>)
    requires forall k :: 0 <= k < |w| ==> w[k] < |nodes|
  {
    forall k :: 0 <= k < |w| - 1 ==> UndoableHop(nodes, registry, w[k], w[k + 1])
  }

  /** `x` and `y` are the undo and the do call of `act`, in one order or the other. */
  ghost predicate Inverse(registry: Registry, act: Action, x: Result<Invocation, Error>, y: Result<Invocation, Error>) {
    act.ReversibleAction? && act.do in registry && act.undo in registry
    && var undo := Ok(Invocation(registry[act.undo], act.undoArguments));
       var redo := Ok(Invocation(registry[act.do], act.doArguments));
       (x == undo && y == redo) || (x == redo && y == undo)
  }

  /** In a well-formed graph the neighbour relation is symmetric. */
  lemma NeighborSymmetric(nodes: seq<StateNode>, a: NodeRef, b: NodeRef)
    requires WellFormed(nodes) && a < |nodes| && b < |nodes| && b in Neighbors(nodes, a)
    ensures a in Neighbors(nodes, b)
  {
    ClassifyNeighbor(nodes, a, b);
    NeighborCases(nodes, b, a);
    if ParentOf(nodes, a) == Some(b) {
      var e := nodes[a].parent.value;
      var i :| 0 <= i < |nodes[b].children| && nodes[b].children[i] == e;
    }
  }

  /** The hop from `c` to `d` selects the inverse of what the hop from `a` to `b` selects. */
  ghost predicate UndoneBy(nodes: seq<StateNode>, registry: Registry, a: NodeRef, b: NodeRef, c: NodeRef, d: NodeRef)
    requires a < |nodes| && b < |nodes| && c < |nodes| && d < |nodes|
  {
    Crossed(nodes, a, b).Some?
    && Inverse(registry, Crossed(nodes, a, b).value.action,
               SelectStep(nodes, registry, a, b), SelectStep(nodes, registry, c, d))
  }

  /** A hop and the hop back cross the same edge and select its undo and do calls. */
  lemma HopInverse(nodes: seq<StateNode>, registry: Registry, a: NodeRef, b: NodeRef)
    requires WellFormed(nodes) && NoMutualParents(nodes)
    requires a < |nodes| && b < |nodes| && b in Neighbors(nodes, a)
    requires UndoableHop(nodes, registry, a, b)
    ensures Crossed(nodes, a, b).Some? && Crossed(nodes, b, a) == Crossed(nodes, a, b)
    ensures UndoneBy(nodes, registry, a, b, b, a)
  {
    ClassifyNeighbor(nodes, a, b);
    if ParentOf(nodes, a) == Some(b) {
      AscentDescentInverse(nodes, registry, a, b);
    } else {
      AscentDescentInverse(nodes, registry, b, a);
    }
  }

  /** In a well-formed graph a walk read backwards is a walk. */
  lemma WalkReversed(nodes: seq<StateNode>, w: seq<NodeRef>)
    requires WellFormed(nodes) && IsWalk(nodes, w)
    ensures IsWalk(nodes, Reverse(w))
  {
    forall k | 0 <= k < |w| - 1
      ensures w[k] in Neighbors(nodes, w[k + 1])
    {
      NeighborSymmetric(nodes, w[k], w[k + 1]);
    }
    TrackReversed(nodes, w);
  }

  /**
   * Walking a route and then walking it back: hop `j` of the way back crosses
   * the edge of hop `|w| - 2 - j` of the way there and selects the inverse
   * call, so the calls of the return trip are those of the outward trip,
   * inverted and in reverse order.
   */
  lemma ReturnTripInverse(nodes: seq<StateNode>, registry: Registry, w: seq<NodeRef>)
    requires WellFormed(nodes) && NoMutualParents(nodes)
    requires IsWalk(nodes, w) && UndoableAlong(nodes, registry, w)
    ensures IsWalk(nodes, Reverse(w))
    ensures forall j :: 0 <= j < |w| - 1 ==>
      UndoneBy(nodes, registry, w[|w| - 2 - j], w[|w| - 1 - j], Reverse(w)[j], Reverse(w)[j + 1])
  {
    WalkReversed(nodes, w);
    forall j | 0 <= j < |w| - 1
      ensures UndoneBy(nodes, registry, w[|w| - 2 - j], w[|w| - 1 - j], Reverse(w)[j], Reverse(w)[j + 1])
    {
      ReturnHop(nodes, registry, w, j);
    }
  }

  /** Hop `j` of the way back undoes hop `|w| - 2 - j` of the way there. */
  lemma ReturnHop(nodes: seq<StateNode>, registry: Registry, w: seq<NodeRef>, j: nat)
    requires WellFormed(nodes) && NoMutualParents(nodes)
    requires IsWalk(nodes, w) && UndoableAlong(nodes, registry, w) && j < |w| - 1
    ensures UndoneBy(nodes, registry, w[|w| - 2 - j], w[|w| - 1 - j], Reverse(w)[j], Reverse(w)[j + 1])
  {
    var k := |w| - 2 - j;
    assert w[k + 1] in Neighbors(nodes, w[k]);
    HopInverse(nodes, registry, w[k], w[k + 1]);
  }

  /** The hop from `track[k]` is the first that fails, and it fails with `e`. */
  ghost predicate FailsFirstAt(nodes: seq<StateNode>, registry: Registry, track: seq<NodeRef>, k: nat, e: Error)
    requires forall i :: 0 <= i < |track| ==> track[i] < |nodes|
  {
    k < |track| - 1
    && SelectStep(nodes, registry, track[k], track[k + 1]) == Err(e)
    && forall j :: 0 <= j < k ==> SelectStep(nodes, registry, track[j], track[j + 1]).Ok?
  }

  /**
   * The selection loop of `toStateNode`, over a given track: for each pair of
   * consecutive nodes, in track order, it pushes one handler and one argument
   * list, and it stops at the first hop that fails.
   */
  method SelectActions(nodes: seq<StateNode>, registry: Registry, track: seq<NodeRef>) returns (r: Result<Plan, Error>)
    requires forall k :: 0 <= k < |track| ==> track[k] < |nodes|
    ensures r.Ok? ==>
      |r.value.argumentsToDo| == |r.value.functionsToDo|
      && |r.value.functionsToDo| == (if track == [] then 0 else |track| - 1)
    ensures r.Ok? ==> forall i :: 0 <= i < |track| - 1 ==>
      SelectStep(nodes, registry, track[i], track[i + 1])
        == Ok(Invocation(r.value.functionsToDo[i], r.value.argumentsToDo[i]))
    ensures r.Err? ==> exists k :: FailsFirstAt(nodes, registry, track, k, r.error)
    ensures r.Err? ==> r.error != NoPathToTarget && !r.error.NodeNotFound? && !r.error.HandlerRejected?
  {
    var functionsToDo: seq<Handler> := [];
    var argumentsToDo: seq<Arguments> := [];
    var i := 0;
    while i < |track| - 1
      invariant 0 <= i <= (if track == [] then 0 else |track| - 1)
      invariant |functionsToDo| == |argumentsToDo| == i
      invariant forall j :: 0 <= j < i ==>
        SelectStep(nodes, registry, track[j], track[j + 1]) == Ok(Invocation(functionsToDo[j], argumentsToDo[j]))
    {
      var thisNode := track[i];
      var nextNode := track[i + 1];
      var step := SelectStep(nodes, registry, thisNode, nextNode);
      if step.Err? {
        assert FailsFirstAt(nodes, registry, track, i, step.error);
        return Err(step.error);
      }
      functionsToDo := functionsToDo + [step.value.handler];
      argumentsToDo := argumentsToDo + [step.value.arguments];
      i := i + 1;
    }
    return Ok(Plan(functionsToDo, argumentsToDo));
  }

  // ---------------------------------------------------------------------------
  // Replay
  // ---------------------------------------------------------------------------

  /**
   * How a replay that made the calls `log` ended up with `r`: every call but
   * the last resolved; a success carries the value the last call resolved
   * with (`None` when no call was made); a rejection is that of the last call.
   */
  ghost predicate SettledAs(respond: (seq<Invocation>, Invocation) -> Outcome, log: seq<Invocation>,
                            r: Result<Option<Value>, Error>) {
    (forall j :: 0 <= j < |log| - 1 ==> respond(log[..j], log[j]).Resolved?)
    && (r.Ok? && log == [] ==> r.value == None)
    && (r.Ok? && log != [] ==>
          respond(log[..|log| - 1], log[|log| - 1]).Resolved?
          && r.value == Some(respond(log[..|log| - 1], log[|log| - 1]).value))
    && (r.Err? && r.error.HandlerRejected? ==>
          log != [] && respond(log[..|log| - 1], log[|log| - 1]).Rejected?
          && r.error == HandlerRejected(respond(log[..|log| - 1], log[|log| - 1]).reason))
  }

  /**
   * `executeFunctions`: calls handler `i` with argument list `i` for
   * `i = 0, 1, ...`, each after the previous one has resolved, and returns what
   * the last one resolved with (`None` for an empty list). A rejection ends the
   * loop and is passed on; the calls made before it stand.
   */
  method ExecuteFunctions(functionsToDo: seq<Handler>, argumentsToDo: seq<Arguments>,
                          respond: (seq<Invocation>, Invocation) -> Outcome)
    returns (r: Result<Option<Value>, Error>, log: seq<Invocation>)
    requires |functionsToDo| <= |argumentsToDo|
    ensures |log| <= |functionsToDo|
    ensures forall j :: 0 <= j < |log| ==> log[j] == Invocation(functionsToDo[j], argumentsToDo[j])
    ensures forall j :: 0 <= j < |log| - 1 ==> respond(log[..j], log[j]).Resolved?
    ensures r.Ok? ==> |log| == |functionsToDo|
    ensures r.Ok? && log == [] ==> r.value == None
    ensures r.Ok? && log != [] ==>
      respond(log[..|log| - 1], log[|log| - 1]).Resolved?
      && r.value == Some(respond(log[..|log| - 1], log[|log| - 1]).value)
    ensures r.Err? ==>
      log != [] && respond(log[..|log| - 1], log[|log| - 1]).Rejected?
      && r.error == HandlerRejected(respond(log[..|log| - 1], log[|log| - 1]).reason)
  {
    var result: Option<Value> := None;
    log := [];
    var i := 0;
    while i < |functionsToDo|
      invariant 0 <= i <= |functionsToDo|
      invariant |log| == i
      invariant forall j :: 0 <= j < i ==> log[j] == Invocation(functionsToDo[j], argumentsToDo[j])
      invariant forall j :: 0 <= j < i ==> respond(log[..j], log[j]).Resolved?
      invariant i == 0 ==> result == None
      invariant i > 0 ==> result == Some(respond(log[..i - 1], log[i - 1]).value)
    {
      var call := Invocation(functionsToDo[i], argumentsToDo[i]);
      var outcome := respond(log, call);
      ghost var before := log;
      log := log + [call];
      assert forall j :: 0 <= j <= i ==> log[..j] == before[..j];
      if outcome.Rejected? {
        return Err(HandlerRejected(outcome.reason)), log;
      }
      result := Some(outcome.value);
      i := i + 1;
    }
    return Ok(result), log;
  }

  /**
   * Lines 105-139 of `toStateNode` over a given track: select a handler for
   * every hop, then replay them. A selection error is thrown before any
   * handler runs; the calls made are those selected for the first hops, in
   * order. On a well-formed graph a walk can only fail on an irreversible
   * action, an unregistered handler or a rejecting handler.
   */
  method Replay(nodes: seq<StateNode>, registry: Registry, track: seq<NodeRef>,
                respond: (seq<Invocation>, Invocation) -> Outcome)
    returns (r: Result<Option<Value>, Error>, log: seq<Invocation>)
    requires forall k :: 0 <= k < |track| ==> track[k] < |nodes|
    ensures |log| <= (if track == [] then 0 else |track| - 1)
    ensures r.Ok? ==> |log| == (if track == [] then 0 else |track| - 1)
    ensures forall i :: 0 <= i < |log| ==> SelectStep(nodes, registry, track[i], track[i + 1]) == Ok(log[i])
    ensures r.Err? && !r.error.HandlerRejected? ==>
      log == [] && exists k :: FailsFirstAt(nodes, registry, track, k, r.error)
    ensures SettledAs(respond, log, r)
    ensures r.Err? ==> r.error != NoPathToTarget && !r.error.NodeNotFound?
    ensures (exists k :: 0 <= k < |track| - 1 && SelectStep(nodes, registry, track[k], track[k + 1]).Err?) ==>
      log == [] && r.Err? && !r.error.HandlerRejected?
    ensures WellFormed(nodes) && IsWalk(nodes, track) && r.Err? ==>
      r.error == UndoIrreversible || r.error.HandlerNotRegistered? || r.error.HandlerRejected?
  {
    var plan := SelectActions(nodes, registry, track);
    match plan {
      case Err(e) =>
        ghost var k: nat :| FailsFirstAt(nodes, registry, track, k, e);
        if WellFormed(nodes) && IsWalk(nodes, track) {
          StepOnNeighbor(nodes, registry, track[k], track[k + 1]);
        }
        return Err(e), [];
      case Ok(Plan(functionsToDo, argumentsToDo)) =>
        r, log := ExecuteFunctions(functionsToDo, argumentsToDo, respond);
    }
  }

  // ---------------------------------------------------------------------------
  // Entry point
  // ---------------------------------------------------------------------------

  class ProvenanceGraphTraverser {
    const functionRegistry: Registry
    const graph: ProvenanceGraph

    constructor(functionRegistry: Registry, graph: ProvenanceGraph)
      ensures this.functionRegistry == functionRegistry && this.graph == graph
    {
      this.functionRegistry := functionRegistry;
      this.graph := graph;
    }

    /**
     * `toStateNode`, as written: look up the target, search a track from the
     * current node with an empty track, select the handlers for its hops and
     * replay them. Because the search never leaves its start node, the result
     * is an error unless the current node is already the target, and then no
     * handler is called.
     */
    method ToStateNode(id: NodeIdentifier, respond: (seq<Invocation>, Invocation) -> Outcome)
      returns (r: Result<Option<Value>, Error>, log: seq<Invocation>)
      requires graph.Valid()
      ensures id !in graph.byId ==> r == Err(NodeNotFound(id)) && log == []
      ensures id in graph.byId && graph.current != Some(graph.byId[id]) ==>
        r == Err(NoPathToTarget) && log == []
      ensures id in graph.byId && graph.current == Some(graph.byId[id]) ==>
        r == Ok(None) && log == []
    {
      var currentNode := graph.current;
      if id !in graph.byId {
        return Err(NodeNotFound(id)), [];
      }
      var targetNode := graph.byId[id];
      var trackToTarget := new Track();
      var success := FindPathToTargetNode(graph.nodes, currentNode, targetNode, trackToTarget, |graph.nodes|);
      if !success {
        return Err(NoPathToTarget), [];
      }
      r, log := Replay(graph.nodes, functionRegistry, trackToTarget.nodes, respond);
    }
  }
}
