/**
 * Routes through the node arena: the track the path search fills (target
 * first) and the walk it stands for (current node first), with the facts the
 * search proofs need.
 */
module Paths {
  import opened Api

  /**
   * A track in the order the path search fills it: every node was reached
   * from the node after it, so `t[k]` is a neighbour of `t[k + 1]`.
   */
  ghost predicate IsTrack(nodes: seq<StateNode>, t: seq<NodeRef>) {
    (forall k :: 0 <= k < |t| ==> t[k] < |nodes|)
    && forall k :: 0 <= k < |t| - 1 ==> t[k] in Neighbors(nodes, t[k + 1])
  }

  /** A track that begins at `target` and ends at `from`: what a successful search from `from` appends. */
  ghost predicate SearchTrack(nodes: seq<StateNode>, t: seq<NodeRef>, target: NodeRef, from: NodeRef) {
    |t| > 0 && t[0] == target && t[|t| - 1] == from && IsTrack(nodes, t)
  }

  /** Some track leads from `target` back to `from`; that is, `target` can be reached from `from`. */
  ghost predicate Reachable(nodes: seq<StateNode>, from: NodeRef, target: NodeRef) {
    exists t :: SearchTrack(nodes, t, target, from)
  }

  /**
   * Every track from `target` back to `from` meets a node of `avoid` before it
   * arrives at `from`: a search that may not enter `avoid` cannot succeed.
   */
  ghost predicate Blocked(nodes: seq<StateNode>, from: NodeRef, target: NodeRef, avoid: seq<NodeRef>) {
    forall t :: SearchTrack(nodes, t, target, from) ==>
      exists i :: 0 <= i < |t| - 1 && t[i] in avoid
  }

  /** A walk from its first node to its last: each node is a neighbour of the one before it. */
  ghost predicate IsWalk(nodes: seq<StateNode>, w: seq<NodeRef>) {
    (forall k :: 0 <= k < |w| ==> w[k] < |nodes|)
    && forall k :: 0 <= k < |w| - 1 ==> w[k + 1] in Neighbors(nodes, w[k])
  }

  predicate Distinct<T(==)>(s: seq<T>) {
    forall i, j :: 0 <= i < j < |s| ==> s[i] != s[j]
  }

  function Reverse<T>(s: seq<T>): (r: seq<T>)
    ensures |r| == |s|
    ensures forall i :: 0 <= i < |s| ==> r[i] == s[|s| - 1 - i]
  {
    if s == [] then [] else Reverse(s[1..]) + [s[0]]
  }

  /** Read backwards, a track is a walk from the node it ends at to the node it begins with. */
  lemma TrackReversed(nodes: seq<StateNode>, t: seq<NodeRef>)
    requires IsTrack(nodes, t)
    ensures IsWalk(nodes, Reverse(t))
    ensures Distinct(t) ==> Distinct(Reverse(t))
  {
    var w := Reverse(t);
    forall k | 0 <= k < |w| - 1
      ensures w[k + 1] in Neighbors(nodes, w[k])
    {
      assert w[k + 1] == t[|t| - 2 - k] && w[k] == t[|t| - 1 - k];
    }
    if Distinct(t) {
      forall i, j | 0 <= i < j < |w|
        ensures w[i] != w[j]
      {
        assert w[i] == t[|t| - 1 - i] && w[j] == t[|t| - 1 - j];
      }
    }
  }

  /** A route the traversal may follow: a walk from `from` to `target` that repeats no node. */
  ghost predicate Route(nodes: seq<StateNode>, w: seq<NodeRef>, from: NodeRef, target: NodeRef) {
    |w| > 0 && w[0] == from && w[|w| - 1] == target && IsWalk(nodes, w) && Distinct(w)
  }

  /** A repetition-free track from `target` back to `from`, read backwards, is a route from `from` to `target`. */
  lemma TrackToRoute(nodes: seq<StateNode>, t: seq<NodeRef>, target: NodeRef, from: NodeRef)
    requires SearchTrack(nodes, t, target, from) && Distinct(t)
    ensures Route(nodes, Reverse(t), from, target)
  {
    TrackReversed(nodes, t);
  }

  /** The index of the first occurrence of `x` in `s`. */
  function FirstIndex<T(==)>(s: seq<T>, x: T): (r: nat)
    requires x in s
    ensures r < |s| && s[r] == x
    ensures forall i :: 0 <= i < r ==> s[i] != x
  {
    if s[0] == x then 0 else 1 + FirstIndex(s[1..], x)
  }

  /** Distinct numbers below `n` are at most `n` many. */
  lemma {:induction false} DistinctBound(s: seq<nat>, n: nat)
    requires Distinct(s)
    requires forall i :: 0 <= i < |s| ==> s[i] < n
    ensures |s| <= n
  {
    if n == 0 {
    } else if n - 1 in s {
      var j := FirstIndex(s, n - 1);
      var rest := s[..j] + s[j + 1..];
      assert |rest| == |s| - 1;
      forall i | 0 <= i < |rest|
        ensures rest[i] < n - 1
      {
        if i < j {
          assert rest[i] == s[i];
        } else {
          assert rest[i] == s[i + 1];
        }
      }
      forall a, b | 0 <= a < b < |rest|
        ensures rest[a] != rest[b]
      {
        var a' := if a < j then a else a + 1;
        var b' := if b < j then b else b + 1;
        assert rest[a] == s[a'] && rest[b] == s[b'] && a' < b';
      }
      DistinctBound(rest, n - 1);
    } else {
      forall i | 0 <= i < |s|
        ensures s[i] < n - 1
      {
        assert s[i] != n - 1;
      }
      DistinctBound(s, n - 1);
    }
  }

  /**
   * A node from which the target cannot be reached without entering `avoid`
   * through any of its neighbours is blocked itself: a track into `from`
   * arrives through some neighbour `m`, and cutting it at the first visit of
   * `m` gives a track into `m`.
   */
  lemma BlockedFromNeighbors(nodes: seq<StateNode>, from: NodeRef, target: NodeRef, avoid: seq<NodeRef>)
    requires from < |nodes| && from != target
    requires forall m :: m in Neighbors(nodes, from) ==> m in avoid || Blocked(nodes, m, target, avoid + [m])
    ensures Blocked(nodes, from, target, avoid)
  {
    forall t | SearchTrack(nodes, t, target, from)
      ensures exists i :: 0 <= i < |t| - 1 && t[i] in avoid
    {
      var last := |t| - 2;
      var m := t[last];
      assert m in Neighbors(nodes, t[last + 1]);
      if m in avoid {
        assert t[last] in avoid;
      } else {
        var f := FirstIndex(t, m);
        var cut := t[..f + 1];
        assert SearchTrack(nodes, cut, target, m) by {
          assert forall k :: 0 <= k < |cut| ==> cut[k] == t[k];
        }
        var i :| 0 <= i < |cut| - 1 && cut[i] in avoid + [m];
        assert t[i] == cut[i] && t[i] != m;
        assert t[i] in avoid;
      }
    }
  }

  /** Cutting a track at the first visit of its own last node gives a track that visits it only at the end. */
  lemma CutAtFirst(nodes: seq<StateNode>, t: seq<NodeRef>, target: NodeRef, from: NodeRef) returns (cut: seq<NodeRef>)
    requires SearchTrack(nodes, t, target, from)
    ensures SearchTrack(nodes, cut, target, from)
    ensures forall i :: 0 <= i < |cut| - 1 ==> cut[i] !in [from]
  {
    var f := FirstIndex(t, from);
    cut := t[..f + 1];
    assert forall k :: 0 <= k < |cut| ==> cut[k] == t[k];
  }

  /** A node from which the target is blocked by the node itself cannot reach the target at all. */
  lemma BlockedBySelf(nodes: seq<StateNode>, from: NodeRef, target: NodeRef)
    requires Blocked(nodes, from, target, [from])
    ensures !Reachable(nodes, from, target)
  {
    if Reachable(nodes, from, target) {
      var t :| SearchTrack(nodes, t, target, from);
      var cut := CutAtFirst(nodes, t, target, from);
    }
  }
}
