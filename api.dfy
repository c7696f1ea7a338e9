/**
 * The data model of the provenance graph (src/api.ts).
 *
 * In the library, state nodes and the edges between them are JavaScript objects
 * that refer to each other. Here the graph owns an arena of nodes, a node is named by its index
 * in that arena (`NodeRef`), and comparing two references compares indices,
 * which is what `===` on node objects does. An edge is stored by value, once as
 * the `parent` of the node it leads to and once among the `children` of the node
 * it leaves.
 */
module Api {
  import opened Wrappers

  type NodeIdentifier = string

  /** A reference to a state node: its index in the graph's node arena. */
  type NodeRef = nat

  /** The argument list an action passes to its handler; never inspected here. */
  type Arguments

  /** An executable handler as found in the function registry. */
  type Handler

  /** What a handler's promise resolves or rejects with. */
  type Value

  /** An action is either irreversible or carries the handler that undoes it. */
  datatype Action =
    | IrreversibleAction(do: string, doArguments: Arguments)
    | ReversibleAction(do: string, doArguments: Arguments, undo: string, undoArguments: Arguments)

  /** The application of an action, leading from `previous` to `next`. */
  datatype StateEdge = StateEdge(previous: NodeRef, next: NodeRef, action: Action)

  /** A recorded state; `parent` is `None` only for the root. */
  datatype StateNode = StateNode(id: NodeIdentifier, parent: Option<StateEdge>, children: seq<StateEdge>)

  /** The function registry: handlers by action name. */
  type Registry = map<string, Handler>

  /**
   * The graph provider as the traverser sees it: the node arena, the node
   * `current` names (possibly `null`) and the lookup `getStateNode`.
   */
  datatype ProvenanceGraph = ProvenanceGraph(
    nodes: seq<StateNode>,
    current: Option<NodeRef>,
    byId: map<NodeIdentifier, NodeRef>)
  {
    /** Every reference the provider hands out names a node of the arena. */
    ghost predicate Valid() {
      Closed(nodes)
      && (current.Some? ==> current.value < |nodes|)
      && forall id :: id in byId ==> byId[id] < |nodes|
    }
  }

  ghost predicate EdgeInRange(nodes: seq<StateNode>, e: StateEdge) {
    e.previous < |nodes| && e.next < |nodes|
  }

  /** No edge refers to a node outside the arena (there are no dangling references). */
  ghost predicate Closed(nodes: seq<StateNode>) {
    forall n :: 0 <= n < |nodes| ==>
      (nodes[n].parent.Some? ==> EdgeInRange(nodes, nodes[n].parent.value))
      && forall i :: 0 <= i < |nodes[n].children| ==> EdgeInRange(nodes, nodes[n].children[i])
  }

  /**
   * The links agree with each other: every child edge of `n` leaves `n` and is
   * the parent edge of the node it leads to, and every parent edge leads to its
   * node and is a child edge of the node it leaves.
   */
  ghost predicate WellFormed(nodes: seq<StateNode>) {
    Closed(nodes)
    && (forall n, i :: 0 <= n < |nodes| && 0 <= i < |nodes[n].children| ==>
          nodes[n].children[i].previous == n
          && nodes[nodes[n].children[i].next].parent == Some(nodes[n].children[i]))
    && (forall n :: 0 <= n < |nodes| && nodes[n].parent.Some? ==>
          nodes[n].parent.value.next == n
          && nodes[n].parent.value in nodes[nodes[n].parent.value.previous].children)
  }

  /** The node the parent edge of `n` comes from, if `n` has one. */
  function ParentOf(nodes: seq<StateNode>, n: NodeRef): Option<NodeRef>
    requires n < |nodes|
  {
    match nodes[n].parent
    case None => None
    case Some(e) => Some(e.previous)
  }

  /** The `next` node of every child edge of `n`, in order. */
  function ChildNodes(nodes: seq<StateNode>, n: NodeRef): seq<NodeRef>
    requires n < |nodes|
  {
    seq(|nodes[n].children|, i requires 0 <= i < |nodes[n].children| => nodes[n].children[i].next)
  }

  /** The nodes the path search considers from `n`: its children, then its parent. */
  function Neighbors(nodes: seq<StateNode>, n: NodeRef): seq<NodeRef>
    requires n < |nodes|
  {
    ChildNodes(nodes, n) + (match ParentOf(nodes, n) case None => [] case Some(p) => [p])
  }

  /** `m` is a neighbour of `n` exactly when it is the parent of `n` or the end of a child edge of `n`. */
  lemma NeighborCases(nodes: seq<StateNode>, n: NodeRef, m: NodeRef)
    requires n < |nodes|
    ensures m in Neighbors(nodes, n) <==>
      ParentOf(nodes, n) == Some(m)
      || exists i :: 0 <= i < |nodes[n].children| && nodes[n].children[i].next == m
  {
    var cs := ChildNodes(nodes, n);
    if m in cs {
      var i :| 0 <= i < |cs| && cs[i] == m;
      assert nodes[n].children[i].next == m;
    }
    if exists i :: 0 <= i < |nodes[n].children| && nodes[n].children[i].next == m {
      var i :| 0 <= i < |nodes[n].children| && nodes[n].children[i].next == m;
      assert cs[i] == m;
    }
  }

  /** In a closed arena every neighbour of a node is a node of the arena. */
  lemma NeighborsInRange(nodes: seq<StateNode>, n: NodeRef)
    requires Closed(nodes) && n < |nodes|
    ensures forall m :: m in Neighbors(nodes, n) ==> m < |nodes|
  {
    forall m | m in Neighbors(nodes, n)
      ensures m < |nodes|
    {
      NeighborCases(nodes, n, m);
      if ParentOf(nodes, n) != Some(m) {
        var i :| 0 <= i < |nodes[n].children| && nodes[n].children[i].next == m;
        assert EdgeInRange(nodes, nodes[n].children[i]);
      }
    }
  }
}
