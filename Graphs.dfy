/** The graph capability the pathfinders consume: a Guava `Network` seen as
    a finite value. Edges are listed with their identity and their ordered
    endpoints; `succ` gives each node's successors in iteration order. */
module Graphs {
  import opened Wrappers

  /** One edge of a network, with its endpoints in traversal direction. */
  datatype Edge<N, E> = Edge(id: E, source: N, target: N)

  datatype Network<N, E> = Network(
    nodes: set<N>,
    succ: map<N, seq<N>>,
    edges: seq<Edge<N, E>>,
    allowsParallelEdges: bool)

  /** No two edges join the same ordered pair of nodes. */
  predicate NoParallelEdges<N(==), E>(edges: seq<Edge<N, E>>) {
    forall i, j :: 0 <= i < j < |edges| ==>
      edges[i].source != edges[j].source || edges[i].target != edges[j].target
  }

  predicate Distinct<T(==)>(s: seq<T>) {
    forall i, j :: 0 <= i < j < |s| ==> s[i] != s[j]
  }

  function Elems<T>(s: seq<T>): set<T> {
    set x | x in s
  }

  /** The elements of a prefix grow by one element at a time. */
  lemma ElemsPrefix<T>(s: seq<T>, i: nat)
    requires i < |s|
    ensures Elems(s[..i + 1]) == Elems(s[..i]) + {s[i]}
  {
    assert s[..i + 1] == s[..i] + [s[i]];
  }

  /** The prefix one longer drops back to the shorter one and ends at the new element. */
  lemma PrefixStep<T>(s: seq<T>, i: nat)
    requires i < |s|
    ensures s[..i + 1][..i] == s[..i] && s[..i + 1][i] == s[i] && |s[..i + 1]| == i + 1
  {
  }

  lemma ElemsWhole<T>(s: seq<T>)
    ensures Elems(s[..|s|]) == Elems(s) && Elems(s[..0]) == {}
  {
    assert s[..|s|] == s;
  }

  /** The position of the first edge from `u` to `v`: Guava's
      `edgeConnecting(u, v)`, which is `Optional.empty()` when there is none. */
  function EdgeIndex<N(==), E>(edges: seq<Edge<N, E>>, u: N, v: N): (r: Option<nat>)
    ensures r.Some? ==> r.value < |edges| && edges[r.value].source == u && edges[r.value].target == v
  {
    if |edges| == 0 then None
    else if edges[0].source == u && edges[0].target == v then Some(0)
    else
      match EdgeIndex(edges[1..], u, v)
      case None => None
      case Some(k) => Some(k + 1)
  }

  /** Without parallel edges, an edge from `u` to `v` is the one
      `edgeConnecting(u, v)` finds: the weight of an adjacent pair is well defined. */
  lemma EdgeIsUnique<N, E>(edges: seq<Edge<N, E>>, k: nat)
    requires NoParallelEdges(edges)
    requires k < |edges|
    ensures EdgeIndex(edges, edges[k].source, edges[k].target) == Some(k)
  {
    EdgeIndexFirst(edges, edges[k].source, edges[k].target);
  }

  /** `edgeConnecting` finds the first edge from `u` to `v`, and finds
      nothing only when there is no such edge. */
  lemma {:induction false} EdgeIndexFirst<N, E>(edges: seq<Edge<N, E>>, u: N, v: N)
    ensures var r := EdgeIndex(edges, u, v);
            && (r.Some? ==> forall k :: 0 <= k < r.value ==> edges[k].source != u || edges[k].target != v)
            && (r.None? ==> forall k :: 0 <= k < |edges| ==> edges[k].source != u || edges[k].target != v)
  {
    if |edges| > 0 && (edges[0].source != u || edges[0].target != v) {
      EdgeIndexFirst(edges[1..], u, v);
      forall k | 1 <= k < |edges| ensures edges[k] == edges[1..][k - 1] {
      }
    }
  }

  predicate Adjacent<N(==), E>(g: Network<N, E>, u: N, v: N) {
    EdgeIndex(g.edges, u, v).Some?
  }

  /** Every node has a successor list, and every listed successor is a node
      joined to its predecessor by an edge. */
  ghost predicate SuccessorsAdjacent<N, E>(g: Network<N, E>) {
    && g.succ.Keys == g.nodes
    && forall u, v :: u in g.succ && v in g.succ[u] ==> v in g.nodes && Adjacent(g, u, v)
  }

  /** Every edge joins two nodes and is listed among its source's successors. */
  ghost predicate EdgesListed<N, E>(g: Network<N, E>) {
    && g.succ.Keys == g.nodes
    && forall k :: 0 <= k < |g.edges| ==>
         && g.edges[k].source in g.nodes && g.edges[k].target in g.nodes
         && g.edges[k].target in g.succ[g.edges[k].source]
  }

  /** The invariants Guava keeps for every network. */
  ghost predicate Valid<N, E>(g: Network<N, E>) {
    && SuccessorsAdjacent(g)
    && EdgesListed(g)
    && (forall u :: u in g.succ ==> Distinct(g.succ[u]))
    && (!g.allowsParallelEdges ==> NoParallelEdges(g.edges))
  }

  /** In a valid network, adjacency and the successor lists agree. */
  lemma AdjacentIsSuccessor<N, E>(g: Network<N, E>, u: N, v: N)
    requires EdgesListed(g) && Adjacent(g, u, v)
    ensures u in g.nodes && v in g.nodes && u in g.succ && v in g.succ[u]
  {
    var k := EdgeIndex(g.edges, u, v).value;
    assert g.edges[k].source == u && g.edges[k].target == v;
  }

  /** In a valid network, a listed successor is a node joined by an edge. */
  lemma SuccessorIsAdjacent<N, E>(g: Network<N, E>, u: N, v: N)
    requires SuccessorsAdjacent(g) && u in g.succ && v in g.succ[u]
    ensures v in g.nodes && Adjacent(g, u, v)
  {
  }

  /** Every listed successor of `u` is joined to it by an edge. */
  lemma SuccessorsOfAdjacent<N, E>(g: Network<N, E>, u: N)
    requires SuccessorsAdjacent(g) && u in g.succ
    ensures forall w :: w in g.succ[u] ==> Adjacent(g, u, w)
  {
    forall w | w in g.succ[u] ensures Adjacent(g, u, w) {
      SuccessorIsAdjacent(g, u, w);
    }
  }

  /** Each consecutive pair of `p` is joined by an edge. */
  ghost predicate Linked<N, E>(g: Network<N, E>, p: seq<N>) {
    forall i :: 0 <= i < |p| - 1 ==> Adjacent(g, p[i], p[i + 1])
  }

  /** Every slice of a linked sequence is linked. */
  lemma LinkedSlice<N, E>(g: Network<N, E>, p: seq<N>, a: nat, b: nat)
    requires Linked(g, p) && a <= b <= |p|
    ensures Linked(g, p[a..b])
  {
    forall k | 0 <= k < b - a - 1 ensures Adjacent(g, p[a..b][k], p[a..b][k + 1]) {
      assert p[a..b][k] == p[a + k] && p[a..b][k + 1] == p[a + k + 1];
    }
  }

  /** A node joined by an edge to the head of a linked sequence links onto it. */
  lemma LinkedCons<N, E>(g: Network<N, E>, u: N, p: seq<N>)
    requires |p| > 0 && Adjacent(g, u, p[0]) && Linked(g, p)
    ensures Linked(g, [u] + p)
  {
    forall k | 0 <= k < |p| ensures Adjacent(g, ([u] + p)[k], ([u] + p)[k + 1]) {
      if k > 0 {
        assert ([u] + p)[k] == p[k - 1] && ([u] + p)[k + 1] == p[k];
      }
    }
  }

  ghost predicate IsPath<N, E>(g: Network<N, E>, p: seq<N>) {
    |p| > 0 && p[0] in g.nodes && Linked(g, p)
  }

  ghost predicate IsPathBetween<N, E>(g: Network<N, E>, p: seq<N>, a: N, b: N) {
    IsPath(g, p) && p[0] == a && p[|p| - 1] == b
  }

  /** Removing the cycles of a path leaves a path with no repeated node
      between the same endpoints. */
  lemma {:induction false} SimplePathExists<N, E>(g: Network<N, E>, p: seq<N>, a: N, b: N)
    requires IsPathBetween(g, p, a, b)
    ensures exists q :: IsPathBetween(g, q, a, b) && Distinct(q) && |q| <= |p|
    decreases |p|
  {
    if Distinct(p) {
      assert IsPathBetween(g, p, a, b) && Distinct(p) && |p| <= |p|;
    } else {
      var i, j :| 0 <= i < j < |p| && p[i] == p[j];
      var q := p[..i] + p[j..];
      assert |q| < |p|;
      assert q[0] == a by { if i == 0 { assert q[0] == p[j] == p[0]; } }
      assert q[|q| - 1] == b;
      forall k | 0 <= k < |q| - 1 ensures Adjacent(g, q[k], q[k + 1]) {
        if k < i - 1 {
          assert q[k] == p[k] && q[k + 1] == p[k + 1];
        } else if k == i - 1 {
          assert q[k] == p[i - 1] && q[k + 1] == p[j] == p[i];
        } else {
          assert q[k] == p[k - i + j] && q[k + 1] == p[k - i + j + 1];
        }
      }
      SimplePathExists(g, q, a, b);
    }
  }
}
