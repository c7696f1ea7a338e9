/**
 * The three-node chain A (root) -> B -> C with two reversible edges, current
 * node C, target A: the traversal as written and as corrected.
 */
module Scenarios {
  import opened Wrappers
  import opened Api
  import opened Paths
  import opened Traverser
  import opened Corrected

  /** The argument lists of the two edges. */
  datatype ChainArguments = ChainArguments(doAB: Arguments, undoAB: Arguments, doBC: Arguments, undoBC: Arguments)

  /** The handlers registered under "doAB", "undoAB", "doBC" and "undoBC". */
  datatype ChainHandlers = ChainHandlers(doAB: Handler, undoAB: Handler, doBC: Handler, undoBC: Handler)

  function ChainEdgeAB(a: ChainArguments): StateEdge {
    StateEdge(0, 1, ReversibleAction("doAB", a.doAB, "undoAB", a.undoAB))
  }

  function ChainEdgeBC(a: ChainArguments): StateEdge {
    StateEdge(1, 2, ReversibleAction("doBC", a.doBC, "undoBC", a.undoBC))
  }

  /** Nodes 0, 1, 2 are A, B, C. */
  function ChainNodes(a: ChainArguments): seq<StateNode> {
    [ StateNode("A", None, [ChainEdgeAB(a)]),
      StateNode("B", Some(ChainEdgeAB(a)), [ChainEdgeBC(a)]),
      StateNode("C", Some(ChainEdgeBC(a)), []) ]
  }

  function ChainRegistry(h: ChainHandlers): Registry {
    map["doAB" := h.doAB, "undoAB" := h.undoAB, "doBC" := h.doBC, "undoBC" := h.undoBC]
  }

  /** The graph provider with C as the current node. */
  function ChainGraph(a: ChainArguments): ProvenanceGraph {
    ProvenanceGraph(ChainNodes(a), Some(2), map["A" := 0, "B" := 1, "C" := 2])
  }

  lemma ChainShape(a: ChainArguments)
    ensures WellFormed(ChainNodes(a)) && ChainGraph(a).Valid()
    ensures Neighbors(ChainNodes(a), 1) == [2, 0] && Neighbors(ChainNodes(a), 2) == [1]
  {
    var nodes := ChainNodes(a);
    assert ChildNodes(nodes, 1) == [2];
    assert ChildNodes(nodes, 2) == [];
  }

  /** The only repetition-free walk from C to A in the chain goes through B. */
  lemma ChainRoute(a: ChainArguments, route: seq<NodeRef>)
    requires |route| > 0 && route[0] == 2 && route[|route| - 1] == 0
    requires IsWalk(ChainNodes(a), route) && Distinct(route)
    ensures route == [2, 1, 0]
  {
    ChainShape(a);
    var nodes := ChainNodes(a);
    assert route[1] in Neighbors(nodes, route[0]);
    assert route[1] == 1;
    assert route[2] in Neighbors(nodes, route[1]);
    assert route[2] != route[0];
    assert route[2] == 0;
  }

  /**
   * As written, the traversal from C to A fails with "No path to target node
   * found in graph" and calls no handler, although A and C are connected.
   */
  method AsWrittenChainTraversal(a: ChainArguments, h: ChainHandlers, respond: (seq<Invocation>, Invocation) -> Outcome)
    returns (r: Result<Option<Value>, Error>, log: seq<Invocation>)
    ensures r == Err(NoPathToTarget) && log == []
  {
    ChainShape(a);
    var traverser := new ProvenanceGraphTraverser(ChainRegistry(h), ChainGraph(a));
    r, log := traverser.ToStateNode("A", respond);
  }

  /**
   * The selection loop as written, over the track a working search returns for
   * the move from C to A, which is filled target first: it selects the do
   * handlers of A -> B and B -> C, a replay that leads from A to C.
   */
  method TargetFirstSelectionOnChain(a: ChainArguments, h: ChainHandlers) returns (plan: Result<Plan, Error>)
    ensures plan == Ok(Plan([h.doAB, h.doBC], [a.doAB, a.doBC]))
  {
    ChainShape(a);
    var track: seq<NodeRef> := [0, 1, 2];
    plan := SelectActions(ChainNodes(a), ChainRegistry(h), track);
    assert SelectStep(ChainNodes(a), ChainRegistry(h), track[0], track[1]) == Ok(Invocation(h.doAB, a.doAB));
    assert SelectStep(ChainNodes(a), ChainRegistry(h), track[1], track[2]) == Ok(Invocation(h.doBC, a.doBC));
    assert plan.Ok?;
    assert plan.value.functionsToDo == [h.doAB, h.doBC];
    assert plan.value.argumentsToDo == [a.doAB, a.doBC];
  }

  /**
   * Corrected, the traversal from C to A undoes B -> C with its undo
   * arguments and then A -> B with its undo arguments, and returns what the
   * second undo resolved with.
   */
  method CorrectedChainTraversal(a: ChainArguments, h: ChainHandlers, respond: (seq<Invocation>, Invocation) -> Outcome)
    returns (r: Result<Option<Value>, Error>, log: seq<Invocation>)
    ensures 1 <= |log| <= 2 && log[0] == Invocation(h.undoBC, a.undoBC)
    ensures |log| == 2 ==> log[1] == Invocation(h.undoAB, a.undoAB)
    ensures respond([], Invocation(h.undoBC, a.undoBC)).Resolved? ==> |log| == 2
    ensures r.Ok? ==> |log| == 2 && respond([log[0]], log[1]).Resolved?
                      && r.value == Some(respond([log[0]], log[1]).value)
    ensures |log| == 2 && respond([log[0]], log[1]).Resolved? ==> r == Ok(Some(respond([log[0]], log[1]).value))
  {
    ChainShape(a);
    var nodes := ChainNodes(a);
    var registry := ChainRegistry(h);
    var traverser := new ProvenanceGraphTraverser(registry, ChainGraph(a));
    assert SearchTrack(nodes, [0, 1, 2], 0, 2);
    ghost var route;
    r, log, route := ToStateNodeCorrected(traverser, "A", respond);
    assert r != Err(NoPathToTarget);
    ChainRoute(a, route);
    assert route[0] == 2 && route[1] == 1;
    assert SelectStep(nodes, registry, route[0], route[1]) == Ok(log[0]);
    assert SelectStep(nodes, registry, 2, 1) == Ok(Invocation(h.undoBC, a.undoBC));
    assert SelectStep(nodes, registry, 1, 0) == Ok(Invocation(h.undoAB, a.undoAB));
    assert r.Err? ==> r.error.HandlerRejected?;
    assert |log| >= 1;
    if |log| == 2 {
      assert log[..1] == [log[0]];
    }
  }
}
