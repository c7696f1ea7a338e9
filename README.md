# Provenance graph traversal

This project models the traversal core of a provenance-tracking library,
`src/ProvenanceGraphTraverser.ts`, together with the data types it reads from
`src/api.ts`. The library records application states as a tree:
- Each state node has an optional parent edge and a list of child edges.
- Each edge carries the action that led from one state to the next.
- An action is either irreversible, or reversible and then carries an undo handler.

`toStateNode(id)` moves the application from the graph's current node to
another node. It works in four steps:
1. It searches a path (a "track") in the tree.
2. It classifies each hop of the track as going up (towards the parent) or down.
3. It selects the undo handler of the crossed edge for an upward hop, and its do handler for a downward hop.
4. It calls the selected handlers one after the other, each after the previous one's promise has resolved.

## Structure

- `wrappers.dfy`: `Option` and `Result`. `null` becomes `None`, and a thrown error becomes `Err`.
- `api.dfy`: the data model.
  - Nodes live in an arena, and a node reference is an index into it.
  - Comparing references compares indices, as `===` compares node objects.
  - `Closed` says that no edge points outside the arena. `WellFormed` says that child and parent links agree.
  - `Neighbors` lists what the search visits from a node: the ends of its child edges, then its parent.
- `paths.dfy`: tracks, walks, routes and reachability.
  - A track is filled target first. A walk is the same path read from the start node.
  - `Reachable` is stated over tracks.
  - `Blocked` is the invariant the complete search keeps.
- `traverser.dfy`: the code, modelled as written.
  - The direction classifier.
  - The recursive search, modelled imperatively on a `Track` object that it pushes onto.
  - The selection loop over an arbitrary track.
  - `executeFunctions`.
  - The class with its entry point `ToStateNode`.
  - Lemmas on selection: on a well-formed graph, which hops succeed and which errors remain possible. Going up and coming back down select an edge's undo and do calls, and a return trip selects the outward calls inverted and in reverse order.
- `corrected.dfy`: the traversal as its comments describe it. The search is complete, and the replay runs from the current node to the target ("## Findings").
- `scenarios.dfy`: a three-node chain A(root)–B–C, with reversible edges A→B and B→C and the current node C. The traversal to A is followed through the code as written and through the corrected code.

What handlers do is left abstract. `respond(log, call)` says how the promise of `call` settles, given the calls made before it. So `log` is the exact sequence of handler invocations: the handler found by name and the argument list it was applied to.

Where the library's own comments and declarations promise more than its code does, the model follows the code:
- The doc comment of `toStateNode` (src/ProvenanceGraphTraverser.ts:83-88) says it finds the shortest path between the current node and the target and calls the do/undo functions on it. As written, the search finds no path between two different nodes, and the replay order is target first ("## Findings").
- The comment at src/ProvenanceGraphTraverser.ts:46 says that nodes already on the track are skipped. The code compares a candidate only with the last node of the track, and only when the track is non-empty.
- `toStateNode` is declared to return `Promise<StateNode>`. It returns what the last handler's promise resolved with, which need not be a state node, and nothing when no handler runs.

## Model

| member | source | states |
|---|---|---|
| Api.Neighbors | src/ProvenanceGraphTraverser.ts:39-43 | defines `nodesToCheck`: the `next` node of every child edge, in order, followed by the parent when there is one; what it contains is stated by `Api.NeighborCases` |
| Api.NeighborCases | src/ProvenanceGraphTraverser.ts:38-43 | a node is among the candidates of `n` exactly when it is the parent of `n` or the end of a child edge of `n` |
| Api.NeighborsInRange | src/api.ts:16-29 | in a closed arena every candidate the search meets is a node of the arena |
| Paths.TrackReversed | src/ProvenanceGraphTraverser.ts:108-110 | a track, in which each node was reached from the next one, read backwards is a walk; reversal keeps it repetition-free |
| Paths.TrackToRoute | src/ProvenanceGraphTraverser.ts:35-52 | a repetition-free track from the target back to the start, read backwards, is a route from the start to the target |
| Paths.BlockedFromNeighbors | src/ProvenanceGraphTraverser.ts:45-56 | if every candidate of a node is avoided or blocked, the node is blocked too: failing on all candidates means no track exists |
| Paths.BlockedBySelf | src/ProvenanceGraphTraverser.ts:32-57 | a start node blocked by itself cannot reach the target by any track |
| Traverser.IsNextNodeInTrackUp | src/ProvenanceGraphTraverser.ts:11-25 | true exactly when `nextNode` is the parent of `currentNode`; false exactly when it is not, and `nextNode` is a root or a child of `currentNode`; otherwise the error "Unconnected nodes" |
| Traverser.ClassifyNeighbor | src/ProvenanceGraphTraverser.ts:15-24 | on a well-formed tree the classifier never throws for a hop to a neighbour; a hop that does not go up crosses a child edge of `currentNode` |
| Traverser.ClassifyNonNeighbor | src/ProvenanceGraphTraverser.ts:17-24 | on a well-formed tree a hop to a non-neighbour is "Unconnected nodes", unless the target of the hop is a root, which the guard lets through as a hop down |
| Traverser.Track.Push | src/ProvenanceGraphTraverser.ts:35 | `track.push` appends exactly one node at the end |
| Traverser.FindPathToTargetNode | src/ProvenanceGraphTraverser.ts:27-58 | false on a `null` start; start equal to target pushes exactly that node and succeeds; the track only grows at its end and is unchanged on failure; a success appends a track from the target back to the start; with an empty track the result is true exactly when start equals target, and the track becomes `[target]` |
| Traverser.UndoCall | src/ProvenanceGraphTraverser.ts:117-124 | defines the call that undoes an action: "trying to undo an Irreversible action" for an irreversible one, otherwise the registered `undo` handler with `undoArguments`, or "handler not registered"; used by `Traverser.StepOnNeighbor` and `Traverser.AscentDescentInverse` |
| Traverser.DoCall | src/ProvenanceGraphTraverser.ts:131-135 | defines the call that redoes an action: the registered `do` handler with `doArguments`, or "handler not registered"; used by `Traverser.StepOnNeighbor` and `Traverser.AscentDescentInverse` |
| Traverser.SelectStep | src/ProvenanceGraphTraverser.ts:109-136 | defines one iteration of the selection loop: a classifier error is passed on; a hop up gives the undo call of `thisNode`'s parent edge ("Going up from root" without one), a hop down gives the do call of `nextNode`'s parent edge ("Going down to the root" without one); its properties are the lemmas `Traverser.StepNeverGoesUpFromRoot`, `Traverser.StepOnNeighbor`, `Traverser.StepOnNonNeighbor` |
| Traverser.StepNeverGoesUpFromRoot | src/ProvenanceGraphTraverser.ts:113-116 | the "Going up from root" error can never be raised, because a hop classified as up starts at a node with a parent |
| Traverser.StepOnNeighbor | src/ProvenanceGraphTraverser.ts:111-136 | on a well-formed tree, a hop up selects the undo call of `thisNode`'s parent edge, and a hop down selects the do call of `nextNode`'s parent edge, which is a child edge of `thisNode`; the only possible errors are undoing an irreversible action and an unregistered handler |
| Traverser.StepOnNonNeighbor | src/ProvenanceGraphTraverser.ts:111-130 | on a well-formed tree, a hop to a non-neighbour fails with "Unconnected nodes", or with "Going down to the root" when that node is the root |
| Traverser.AscentDescentInverse | src/ProvenanceGraphTraverser.ts:113-136 | going up across a reversible edge selects its `undo` with `undoArguments`, and coming back down selects its `do` with `doArguments` |
| Traverser.NeighborSymmetric | src/ProvenanceGraphTraverser.ts:38-43 | in a well-formed tree, `b` is a candidate of `a` exactly when `a` is a candidate of `b` |
| Traverser.HopInverse | src/ProvenanceGraphTraverser.ts:113-136 | a hop and the hop back cross the same edge; when that edge's action is reversible with both handlers registered, one hop selects its undo call and the other its do call |
| Traverser.WalkReversed | src/ProvenanceGraphTraverser.ts:108-110 | in a well-formed tree a walk read backwards is a walk |
| Traverser.ReturnHop | src/ProvenanceGraphTraverser.ts:108-136 | when every edge along the walk is reversible with both handlers registered, hop `j` of the way back selects the inverse of hop `len - 2 - j` of the way there |
| Traverser.ReturnTripInverse | src/ProvenanceGraphTraverser.ts:108-136 | when every edge along the walk is reversible with both handlers registered, every hop of the return trip selects the inverse call of the matching outward hop, so the calls of the return trip are the outward calls inverted, in reverse order |
| Traverser.SelectActions | src/ProvenanceGraphTraverser.ts:105-137 | on success both lists have `track.length - 1` entries, entry `i` being the handler and arguments selected for the hop from `track[i]` to `track[i + 1]`; an error is that of the first failing hop, and all earlier hops succeed; it throws only selection errors |
| Traverser.ExecuteFunctions | src/ProvenanceGraphTraverser.ts:60-69 | call `i` applies handler `i` to argument list `i`, in index order, each after the previous one resolved; the result is the last resolved value, and none for an empty list; a rejection stops the loop and is passed on |
| Traverser.Replay | src/ProvenanceGraphTraverser.ts:105-139 | every hop is selected before any handler runs: if any hop of the track fails to select, no handler is called and the result is a selection error (that of the first failing hop), never a rejection; the calls made are those selected for the first hops, in order; success means every hop was replayed; on a well-formed walk the only possible errors are an irreversible undo, an unregistered handler or a rejecting handler |
| Traverser.ProvenanceGraphTraverser.constructor | src/ProvenanceGraphTraverser.ts:75-81 | keeps the registry and the graph it is given |
| Traverser.ProvenanceGraphTraverser.ToStateNode | src/ProvenanceGraphTraverser.ts:89-140 | an unknown id fails with node-not-found; if the current node is not the target, it fails with "No path to target node found in graph" and calls nothing; if the current node is the target, it succeeds with nothing called and no value |
| Corrected.FindPathAvoiding | src/ProvenanceGraphTraverser.ts:27-58 | the search as line 46 describes it: on success it appends a repetition-free track from the target back to the start that avoids the branch; on failure the track is unchanged, and every track from the target is blocked by the branch |
| Corrected.ExtendSegment | src/ProvenanceGraphTraverser.ts:50-53 | pushing `currentNode` onto a track that reaches one of its candidates gives a track that reaches `currentNode` |
| Corrected.FindPathCorrected | src/ProvenanceGraphTraverser.ts:27-99 | at the call site: false on `null`, and otherwise true exactly when the target can be reached; a success appends a repetition-free track from the target to the start; start equal to target pushes exactly that node |
| Corrected.ToStateNodeCorrected | src/ProvenanceGraphTraverser.ts:89-140 | "No path" exactly when the target cannot be reached, with nothing called; the current node as target gives no call and no value; otherwise the route is repetition-free and runs from the current node to the target, and the calls are the selections along it in order; if any hop of the route fails to select, no handler is called and that selection error is returned; success replays every hop; on a well-formed tree the only errors are node-not-found, no path, irreversible undo, unregistered handler, or a rejection passed on |
| Scenarios.AsWrittenChainTraversal | src/ProvenanceGraphTraverser.ts:45-103 | on the chain A–B–C, moving from C to A fails with "No path to target node found in graph" and calls no handler |
| Scenarios.TargetFirstSelectionOnChain | src/ProvenanceGraphTraverser.ts:108-136 | over the target-first track `[A, B, C]` for the move from C to A, the selection loop selects do(A→B) and then do(B→C) |
| Scenarios.CorrectedChainTraversal | src/ProvenanceGraphTraverser.ts:89-140 | corrected, moving from C to A first calls undo(B→C) with its undo arguments, then, if that resolved, undo(A→B) with its own; when both resolve, the traversal succeeds with what the second call resolved with, and a success always carries that value |

## Left out

- Promises and `await`: the replay is a sequential loop. How each call settles comes from the abstract function `respond`. A handler that throws instead of returning a promise counts as a rejection.
  - `toStateNode` is not `async` (src/ProvenanceGraphTraverser.ts:89). Its own errors (lines 91-136) are thrown synchronously, and only a handler's failure rejects the promise it returns.
  - In the model, `Err(HandlerRejected(...))` stands for that rejection, and every other `Err` stands for a synchronous throw.
- The function registry and the graph provider are interfaces whose implementations are not part of this model.
  - `getFunctionByName` (`Traverser.GetFunctionByName`) is a map lookup from names to handlers. An unknown name gives an explicit "handler not registered" error, raised during selection, where the lookup happens. Its behaviour on unknown names is not shown in the source, so nothing beyond the lookup is stated about it.
  - `getStateNode` is a map from identifiers to nodes, and an unknown identifier gives a "node not found" error.
  - `current` is an optional node of the graph.
- `isReversibleAction` from `./utils` is not part of this model. The action's variant is used in its place.
- `Metadata`, `Artifacts`, `label`, `actionResult` and the contents of argument lists are never consulted by the traversal. Argument lists, handlers and values are opaque types.
- `IProvenanceGraphTracker`, `addNode` and `version` (src/api.ts:47-77) are interfaces without an implementation here.
- Object identity: nodes and edges are arena indices and edge values.
  - `Closed` and `Valid` state what a graph of live JavaScript objects has by construction: no reference points outside the graph.
  - That the graph is a tree is assumed only in the lemmas that say so (`WellFormed`, `NoMutualParents`). Acyclicity is not modelled.
- Traverser.FindPathToTargetNode: the depth of recursion is bounded by a fuel parameter, set to the number of nodes at the call site.
  - With the empty track the call site passes, recursion never starts, so the bound changes nothing there.
  - With a non-empty initial track the source can bounce between a parent and a child without end. The model instead treats a candidate met with no fuel left as a failed branch.
- Traverser.ExecuteFunctions: requires at least as many argument lists as handlers. The source would apply a handler to `undefined`, but its only caller always passes two lists of equal length.
- Corrected.ToStateNodeCorrected: proves that the route is a repetition-free walk from the current node to the target, not that it has tree-distance + 1 nodes. In a tree, the repetition-free walk between two nodes is the unique shortest path, but acyclicity is not modelled.
- Concurrency, and the advance of the graph's current node after a traversal: both are up to the caller.

## Findings

| source | as written | input that shows it | evidently intended | confidence | as-written member | corrected member |
|---|---|---|---|---|---|---|
| src/ProvenanceGraphTraverser.ts:47-50 | the search recurses only when `track.length > 0`. `toStateNode` passes an empty track (line 93), so the search never leaves its start and fails for every target other than the current node | chain A–B–C, current node C, `toStateNode("A")` | skip nodes already on the branch being explored, so that every connected target is found | high, not executed | Scenarios.AsWrittenChainTraversal | Corrected.FindPathCorrected |
| src/ProvenanceGraphTraverser.ts:108-110 | the selection loop reads the track from index 0, which is the target, because the search pushes nodes on the way out. It therefore replays the handlers that lead from the target to the current node | track `[A, B, C]` for the move from C to A selects do(A→B), do(B→C) | replay from the current node to the target: undo(B→C), then undo(A→B) | high, not executed | Scenarios.TargetFirstSelectionOnChain | Corrected.ToStateNodeCorrected |
