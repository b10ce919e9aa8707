/** The state every pathfinder shares: the network it searches and the
    function that gives an edge its weight. Both are final in the Java class,
    so the model is a value. */
module Base {
  import opened Wrappers
  import opened Graphs

  /** The exceptions the constructors and `setHeuristic` throw. */
  datatype Error = NullPointer | IllegalArgument

  datatype AbstractPathfinder<N, !E> = AbstractPathfinder(graph: Network<N, E>, edgeWeight: E -> real) {

    function GetGraph(): Network<N, E> {
      graph
    }

    function WeightOf(edge: E): real {
      edgeWeight(edge)
    }

    /** The weight of the edge from `u` to `v`, as found by
        `weightOf(edgeConnecting(u, v).orElseThrow())`. */
    function Weight(u: N, v: N): real
      requires Adjacent(graph, u, v)
    {
      WeightOf(graph.edges[EdgeIndex(graph.edges, u, v).value].id)
    }
  }

  /** The constructor's checks, in the order the Java code runs them:
      `requireNonNull(graph)`, the parallel-edge test, `requireNonNull(edgeWeight)`. */
  function Create<N, E>(graph: Option<Network<N, E>>, edgeWeight: Option<E -> real>)
    : (r: Result<AbstractPathfinder<N, E>, Error>)
    ensures graph.None? ==> r.Failure? && r.error == NullPointer
    ensures graph.Some? && graph.value.allowsParallelEdges ==> r.Failure? && r.error == IllegalArgument
    ensures graph.Some? && !graph.value.allowsParallelEdges && edgeWeight.None? ==>
              r.Failure? && r.error == NullPointer
    ensures r.Success? <==> graph.Some? && !graph.value.allowsParallelEdges && edgeWeight.Some?
    ensures r.Success? ==> r.value.GetGraph() == graph.value
    ensures r.Success? ==> r.value.edgeWeight == edgeWeight.value
  {
    if graph.None? then Failure(NullPointer)
    else if graph.value.allowsParallelEdges then Failure(IllegalArgument)
    else if edgeWeight.None? then Failure(NullPointer)
    else Success(AbstractPathfinder(graph.value, edgeWeight.value))
  }

  /** With parallel edges rejected, the weight of an adjacent ordered pair
      is that of any edge joining them. */
  lemma WeightIsFunction<N, E>(pf: AbstractPathfinder<N, E>, k: nat)
    requires Valid(pf.graph) && !pf.graph.allowsParallelEdges
    requires k < |pf.graph.edges|
    ensures Adjacent(pf.graph, pf.graph.edges[k].source, pf.graph.edges[k].target)
    ensures pf.Weight(pf.graph.edges[k].source, pf.graph.edges[k].target) == pf.WeightOf(pf.graph.edges[k].id)
  {
    EdgeIsUnique(pf.graph.edges, k);
  }

  /** Every edge weighs at least zero. */
  ghost predicate NonNegativeWeights<N, E>(pf: AbstractPathfinder<N, E>) {
    forall k :: 0 <= k < |pf.graph.edges| ==> pf.WeightOf(pf.graph.edges[k].id) >= 0.0
  }

  lemma WeightNonNegative<N, E>(pf: AbstractPathfinder<N, E>, u: N, v: N)
    requires NonNegativeWeights(pf) && Adjacent(pf.graph, u, v)
    ensures pf.Weight(u, v) >= 0.0
  {
  }

  /** The total weight of a path, summed from its last edge backwards. */
  ghost function PathCost<N, E>(pf: AbstractPathfinder<N, E>, p: seq<N>): real
    requires Linked(pf.graph, p)
    decreases |p|
  {
    if |p| <= 1 then 0.0
    else PathCost(pf, p[..|p| - 1]) + pf.Weight(p[|p| - 2], p[|p| - 1])
  }

  /** Extending a path by one edge adds that edge's weight. */
  lemma PathCostAppend<N, E>(pf: AbstractPathfinder<N, E>, p: seq<N>, v: N)
    requires |p| > 0 && Linked(pf.graph, p) && Adjacent(pf.graph, p[|p| - 1], v)
    ensures Linked(pf.graph, p + [v])
    ensures PathCost(pf, p + [v]) == PathCost(pf, p) + pf.Weight(p[|p| - 1], v)
  {
    LinkedAppend(pf.graph, p, v);
    AppendSlices(p, v);
  }

  lemma LinkedAppend<N, E>(g: Network<N, E>, p: seq<N>, v: N)
    requires |p| > 0 && Linked(g, p) && Adjacent(g, p[|p| - 1], v)
    ensures Linked(g, p + [v])
  {
    var z := p + [v];
    forall k | 0 <= k < |z| - 1 ensures Adjacent(g, z[k], z[k + 1]) {
      if k < |p| - 1 {
        assert z[k] == p[k] && z[k + 1] == p[k + 1];
      } else {
        assert z[k] == p[|p| - 1] && z[k + 1] == v;
      }
    }
  }

  lemma AppendSlices<T>(p: seq<T>, v: T)
    requires |p| > 0
    ensures (p + [v])[..|p|] == p && (p + [v])[|p| - 1] == p[|p| - 1] && (p + [v])[|p|] == v
  {
  }

  lemma {:induction false} PathCostNonNegative<N, E>(pf: AbstractPathfinder<N, E>, p: seq<N>)
    requires NonNegativeWeights(pf) && Linked(pf.graph, p)
    ensures PathCost(pf, p) >= 0.0
    decreases |p|
  {
    if |p| > 1 {
      PathCostNonNegative(pf, p[..|p| - 1]);
      WeightNonNegative(pf, p[|p| - 2], p[|p| - 1]);
    }
  }

  /** Cutting a path at node `i` splits its cost between the two halves. */
  lemma {:induction false} PathCostSplit<N, E>(pf: AbstractPathfinder<N, E>, p: seq<N>, i: nat)
    requires Linked(pf.graph, p) && i < |p|
    ensures Linked(pf.graph, p[..i + 1]) && Linked(pf.graph, p[i..])
    ensures PathCost(pf, p) == PathCost(pf, p[..i + 1]) + PathCost(pf, p[i..])
    decreases |p|
  {
    SplitSlices(p, i);
    LinkedSlice(pf.graph, p, 0, i + 1);
    LinkedSlice(pf.graph, p, i, |p|);
    if i < |p| - 1 {
      var q := p[..|p| - 1];
      var tail := p[i..];
      LinkedSlice(pf.graph, p, 0, |p| - 1);
      PathCostSplit(pf, q, i);
      assert PathCost(pf, tail) == PathCost(pf, q[i..]) + pf.Weight(p[|p| - 2], p[|p| - 1]);
      assert PathCost(pf, p) == PathCost(pf, q) + pf.Weight(p[|p| - 2], p[|p| - 1]);
    } else {
      assert |p[i..]| == 1;
    }
  }

  lemma SplitSlices<T>(p: seq<T>, i: nat)
    requires i < |p|
    ensures p[0..i + 1] == p[..i + 1] && p[i..|p|] == p[i..] && p[..|p|] == p
    ensures i < |p| - 1 ==>
              && p[0..|p| - 1] == p[..|p| - 1]
              && p[..|p| - 1][..i + 1] == p[..i + 1]
              && p[i..][..|p| - i - 1] == p[..|p| - 1][i..]
              && p[i..][|p| - i - 2] == p[|p| - 2] && p[i..][|p| - i - 1] == p[|p| - 1]
  {
  }

  /** Joining two paths that meet at a node costs the sum of their costs. */
  lemma PathCostJoin<N, E>(pf: AbstractPathfinder<N, E>, x: seq<N>, y: seq<N>)
    requires |x| > 0 && |y| > 0 && x[|x| - 1] == y[0] && Linked(pf.graph, x) && Linked(pf.graph, y)
    ensures Linked(pf.graph, x[..|x| - 1] + y)
    ensures PathCost(pf, x[..|x| - 1] + y) == PathCost(pf, x) + PathCost(pf, y)
  {
    var z := x[..|x| - 1] + y;
    LinkedJoin(pf.graph, x, y);
    JoinSlices(x, y);
    PathCostSplit(pf, z, |x| - 1);
  }

  lemma LinkedJoin<N, E>(g: Network<N, E>, x: seq<N>, y: seq<N>)
    requires |x| > 0 && |y| > 0 && x[|x| - 1] == y[0] && Linked(g, x) && Linked(g, y)
    ensures Linked(g, x[..|x| - 1] + y)
  {
    var z := x[..|x| - 1] + y;
    forall k | 0 <= k < |z| - 1 ensures Adjacent(g, z[k], z[k + 1]) {
      if k < |x| - 1 {
        assert z[k] == x[k] && z[k + 1] == x[k + 1];
      } else {
        assert z[k] == y[k - |x| + 1] && z[k + 1] == y[k - |x| + 2];
      }
    }
  }

  lemma JoinSlices<T>(x: seq<T>, y: seq<T>)
    requires |x| > 0 && |y| > 0 && x[|x| - 1] == y[0]
    ensures (x[..|x| - 1] + y)[..|x|] == x && (x[..|x| - 1] + y)[|x| - 1..] == y
  {
  }

  /** With weights that are not negative, cutting out the cycle between two
      visits of the same node leaves a path that costs no more. */
  lemma CycleCheaper<N, E>(pf: AbstractPathfinder<N, E>, p: seq<N>, i: nat, j: nat)
    requires NonNegativeWeights(pf) && Linked(pf.graph, p) && i < j < |p| && p[i] == p[j]
    ensures Linked(pf.graph, p[..i] + p[j..])
    ensures PathCost(pf, p[..i] + p[j..]) <= PathCost(pf, p)
  {
    var pre, tail, post := p[..i + 1], p[i..], p[j..];
    CycleSlices(p, i, j);
    PathCostSplit(pf, p, i);
    PathCostSplit(pf, tail, j - i);
    PathCostNonNegative(pf, tail[..j - i + 1]);
    LinkedSlice(pf.graph, p, 0, i + 1);
    PathCostJoin(pf, pre, post);
    assert PathCost(pf, p) == PathCost(pf, pre) + PathCost(pf, tail);
    assert PathCost(pf, tail) == PathCost(pf, tail[..j - i + 1]) + PathCost(pf, post);
    assert PathCost(pf, p[..i] + p[j..]) == PathCost(pf, pre) + PathCost(pf, post);
  }

  lemma CycleSlices<T>(p: seq<T>, i: nat, j: nat)
    requires i < j < |p|
    ensures p[0..i + 1] == p[..i + 1]
    ensures p[i..][j - i..] == p[j..]
    ensures p[..i + 1][..i] + p[j..] == p[..i] + p[j..]
  {
  }

  /** With weights that are not negative, removing the cycles of a path
      leaves a path between the same nodes, with no repeated node, that
      costs no more. */
  lemma {:induction false} SimplePathCheaper<N, E>(pf: AbstractPathfinder<N, E>, p: seq<N>, a: N, b: N)
    requires NonNegativeWeights(pf) && IsPathBetween(pf.graph, p, a, b)
    ensures exists q :: IsPathBetween(pf.graph, q, a, b) && Distinct(q) && PathCost(pf, q) <= PathCost(pf, p)
    decreases |p|
  {
    if Distinct(p) {
      assert IsPathBetween(pf.graph, p, a, b) && Distinct(p) && PathCost(pf, p) <= PathCost(pf, p);
    } else {
      var i, j :| 0 <= i < j < |p| && p[i] == p[j];
      var q := p[..i] + p[j..];
      CycleCheaper(pf, p, i, j);
      assert q[0] == a by { if i == 0 { assert q[0] == p[j] == p[0]; } }
      assert q[|q| - 1] == b;
      assert q[0] in pf.graph.nodes by { if i == 0 { assert q[0] == p[0]; } }
      SimplePathCheaper(pf, q, a, b);
    }
  }
}
