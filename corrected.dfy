/**
 * The traversal as its comments intend it: the search skips the nodes already
 * on the branch it is exploring (rather than comparing against the last node
 * of a track that is only filled on the way out), and the hops are replayed
 * from the current node towards the target (rather than in the target-first
 * order the track is filled in).
 */
module Corrected {
  import opened Wrappers
  import opened Api
  import opened Paths
  import opened Traverser

  /**
   * Depth-first search from `currentNode`, the last node of the branch
   * `visiting`. It tries every child and then the parent that is not on the
   * branch already and, on success, pushes `currentNode` on the way out. The
   * appended track runs from the target back to `currentNode` without
   * repeating a node or entering the branch; failure means that no track does.
   */
  method FindPathAvoiding(nodes: seq<StateNode>, currentNode: NodeRef, targetNode: NodeRef,
                          visiting: seq<NodeRef>, track: Track)
    returns (found: bool)
    requires Closed(nodes) && currentNode < |nodes| && currentNode in visiting
    requires Distinct(visiting) && forall i :: 0 <= i < |visiting| ==> visiting[i] < |nodes|
    modifies track
    decreases |nodes| - |visiting|
    ensures |old(track.nodes)| <= |track.nodes| && track.nodes[..|old(track.nodes)|] == old(track.nodes)
    ensures !found ==> track.nodes == old(track.nodes) && Blocked(nodes, currentNode, targetNode, visiting)
    ensures found ==>
      var segment := track.nodes[|old(track.nodes)|..];
      SearchTrack(nodes, segment, targetNode, currentNode) && Distinct(segment)
      && forall i :: 0 <= i < |segment| - 1 ==> segment[i] !in visiting
  {
    DistinctBound(visiting, |nodes|);
    if currentNode == targetNode {
      track.Push(currentNode);
      assert track.nodes[|old(track.nodes)|..] == [currentNode];
      return true;
    }
    var nodesToCheck := ChildNodes(nodes, currentNode);
    if nodes[currentNode].parent.Some? {
      nodesToCheck := nodesToCheck + [nodes[currentNode].parent.value.previous];
    }
    assert nodesToCheck == Neighbors(nodes, currentNode);
    NeighborsInRange(nodes, currentNode);
    for k := 0 to |nodesToCheck|
      invariant track.nodes == old(track.nodes)
      invariant forall j :: 0 <= j < k ==>
        nodesToCheck[j] in visiting || Blocked(nodes, nodesToCheck[j], targetNode, visiting + [nodesToCheck[j]])
    {
      var node := nodesToCheck[k];
      if node !in visiting {
        var branch := visiting + [node];
        assert Distinct(branch);
        DistinctBound(branch, |nodes|);
        var ok := FindPathAvoiding(nodes, node, targetNode, branch, track);
        if ok {
          ghost var segment := track.nodes[|old(track.nodes)|..];
          ExtendSegment(nodes, segment, targetNode, node, currentNode, visiting);
          track.Push(currentNode);
          assert track.nodes[|old(track.nodes)|..] == segment + [currentNode];
          return true;
        }
      }
    }
    forall m | m in Neighbors(nodes, currentNode)
      ensures m in visiting || Blocked(nodes, m, targetNode, visiting + [m])
    {
      var j :| 0 <= j < |nodesToCheck| && nodesToCheck[j] == m;
    }
    BlockedFromNeighbors(nodes, currentNode, targetNode, visiting);
    return false;
  }

  /**
   * A track that reaches a neighbour `node` of `currentNode` off the branch
   * extends, by pushing `currentNode`, to one that reaches `currentNode`.
   */
  lemma ExtendSegment(nodes: seq<StateNode>, segment: seq<NodeRef>, targetNode: NodeRef, node: NodeRef,
                      currentNode: NodeRef, visiting: seq<NodeRef>)
    requires currentNode < |nodes| && currentNode in visiting
    requires node in Neighbors(nodes, currentNode) && node !in visiting
    requires SearchTrack(nodes, segment, targetNode, node) && Distinct(segment)
    requires forall i :: 0 <= i < |segment| - 1 ==> segment[i] !in visiting + [node]
    ensures var longer := segment + [currentNode];
      SearchTrack(nodes, longer, targetNode, currentNode) && Distinct(longer)
      && forall i :: 0 <= i < |longer| - 1 ==> longer[i] !in visiting
  {
    var longer := segment + [currentNode];
    forall i | 0 <= i < |longer| - 1
      ensures longer[i] !in visiting
    {
      assert longer[i] == segment[i];
      if i < |segment| - 1 {
        assert segment[i] !in visiting + [node];
      }
    }
    forall i, j | 0 <= i < j < |longer|
      ensures longer[i] != longer[j]
    {
      if j == |longer| - 1 {
        assert longer[i] !in visiting;
      }
    }
  }

  /**
   * The corrected `findPathToTargetNode` at its call site: `false` for a
   * `null` start, and otherwise success exactly when the target can be reached,
   * with a repetition-free track from the target back to the start appended.
   */
  method FindPathCorrected(nodes: seq<StateNode>, currentNode: Option<NodeRef>, targetNode: NodeRef, track: Track)
    returns (found: bool)
    requires Closed(nodes)
    requires currentNode.Some? ==> currentNode.value < |nodes|
    modifies track
    ensures currentNode == Some(targetNode) ==> found && track.nodes == old(track.nodes) + [targetNode]
    ensures |old(track.nodes)| <= |track.nodes| && track.nodes[..|old(track.nodes)|] == old(track.nodes)
    ensures !found ==> track.nodes == old(track.nodes)
    ensures found <==> currentNode.Some? && Reachable(nodes, currentNode.value, targetNode)
    ensures found ==>
      SearchTrack(nodes, track.nodes[|old(track.nodes)|..], targetNode, currentNode.value)
      && Distinct(track.nodes[|old(track.nodes)|..])
  {
    if currentNode.None? {
      return false;
    }
    found := FindPathAvoiding(nodes, currentNode.value, targetNode, [currentNode.value], track);
    if !found {
      BlockedBySelf(nodes, currentNode.value, targetNode);
    } else if currentNode.value == targetNode {
      ghost var segment := track.nodes[|old(track.nodes)|..];
      assert segment[0] == targetNode && segment[|segment| - 1] == targetNode;
      assert |segment| == 1;
      assert track.nodes == track.nodes[..|old(track.nodes)|] + segment;
    }
  }

  /**
   * `toStateNode` with both corrections: the search finds the route whenever
   * the target can be reached, and the handlers are selected and replayed
   * along that route from the current node to the target. `route` is the
   * route followed.
   */
  method ToStateNodeCorrected(traverser: ProvenanceGraphTraverser, id: NodeIdentifier,
                              respond: (seq<Invocation>, Invocation) -> Outcome)
    returns (r: Result<Option<Value>, Error>, log: seq<Invocation>, ghost route: seq<NodeRef>)
    requires traverser.graph.Valid()
    ensures id !in traverser.graph.byId ==> r == Err(NodeNotFound(id)) && log == []
    ensures id in traverser.graph.byId ==>
      (r == Err(NoPathToTarget) <==>
         !(traverser.graph.current.Some?
           && Reachable(traverser.graph.nodes, traverser.graph.current.value, traverser.graph.byId[id])))
    ensures r == Err(NoPathToTarget) ==> log == []
    ensures id in traverser.graph.byId && traverser.graph.current == Some(traverser.graph.byId[id]) ==>
      r == Ok(None) && log == []
    ensures id in traverser.graph.byId && r != Err(NoPathToTarget) ==>
      traverser.graph.current.Some?
      && Route(traverser.graph.nodes, route, traverser.graph.current.value, traverser.graph.byId[id])
      && |log| <= |route| - 1
      && (forall i :: 0 <= i < |log| ==>
            SelectStep(traverser.graph.nodes, traverser.functionRegistry, route[i], route[i + 1]) == Ok(log[i]))
      && (r.Ok? ==> |log| == |route| - 1)
      && (r.Err? && !r.error.HandlerRejected? ==>
            log == [] && exists k :: FailsFirstAt(traverser.graph.nodes, traverser.functionRegistry, route, k, r.error))
    ensures id in traverser.graph.byId && r != Err(NoPathToTarget) ==>
      (forall k :: 0 <= k < |route| ==> route[k] < |traverser.graph.nodes|)
      && ((exists k :: 0 <= k < |route| - 1
             && SelectStep(traverser.graph.nodes, traverser.functionRegistry, route[k], route[k + 1]).Err?) ==>
          log == [] && r.Err? && !r.error.HandlerRejected?)
    ensures SettledAs(respond, log, r)
    ensures WellFormed(traverser.graph.nodes) && r.Err? ==>
      r.error.NodeNotFound? || r.error == NoPathToTarget || r.error == UndoIrreversible
      || r.error.HandlerNotRegistered? || r.error.HandlerRejected?
  {
    var graph := traverser.graph;
    var nodes := graph.nodes;
    var currentNode := graph.current;
    route := [];
    if id !in graph.byId {
      return Err(NodeNotFound(id)), [], route;
    }
    var targetNode := graph.byId[id];
    var trackToTarget := new Track();
    var success := FindPathCorrected(nodes, currentNode, targetNode, trackToTarget);
    if !success {
      return Err(NoPathToTarget), [], route;
    }
    TrackToRoute(nodes, trackToTarget.nodes, targetNode, currentNode.value);
    var forward := Reverse(trackToTarget.nodes);
    route := forward;
    r, log := Replay(nodes, traverser.functionRegistry, forward, respond);
  }
}
