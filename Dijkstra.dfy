/** Dijkstra's algorithm as A* under the heuristic that is zero everywhere.
    The pathfinder holds an A* pathfinder that nobody else can reach, so
    its heuristic stays the zero heuristic. */
module Dijkstra {
  import opened Wrappers
  import opened Graphs
  import opened Base
  import opened AStarInvariants
  import AStar

  /** The zero heuristic `(s, t) -> 0.0`. */
  function Zero<N>(s: N, t: N): real {
    0.0
  }

  /** Under a heuristic that is zero everywhere, consistency is exactly
      non-negative edge weights. */
  lemma ZeroConsistent<N, E>(pf: AbstractPathfinder<N, E>, h: (N, N) -> real, d: N)
    requires forall s, t :: h(s, t) == Zero(s, t)
    ensures Consistent(pf, h, d) <==> NonNegativeWeights(pf)
  {
    if Consistent(pf, h, d) {
      forall k | 0 <= k < |pf.graph.edges| ensures pf.WeightOf(pf.graph.edges[k].id) >= 0.0 {
        assert h(pf.graph.edges[k].source, d) <= pf.WeightOf(pf.graph.edges[k].id) + h(pf.graph.edges[k].target, d);
      }
    }
    if NonNegativeWeights(pf) {
      forall k | 0 <= k < |pf.graph.edges|
        ensures h(pf.graph.edges[k].source, d) <= pf.WeightOf(pf.graph.edges[k].id) + h(pf.graph.edges[k].target, d)
      {
        assert pf.WeightOf(pf.graph.edges[k].id) >= 0.0;
      }
    }
  }

  class DijkstraPathfinder<N(==,!new), !E> {
    const aStar: AStar.AStarPathfinder<N, E>

    constructor (aStar: AStar.AStarPathfinder<N, E>)
      ensures this.aStar == aStar
    {
      this.aStar := aStar;
    }

    function Graph(): Network<N, E> {
      aStar.Graph()
    }

    /** The wrapped pathfinder still searches with the zero heuristic. */
    ghost predicate Valid()
      reads aStar.hp
    {
      forall s, t :: aStar.hp.heuristicFunc(s, t) == Zero(s, t)
    }

    /** `findPath` delegates to the wrapped A* pathfinder. With weights that
        are not negative every path it returns is one of least cost. */
    method FindPath(source: N, destination: N) returns (r: Result<seq<N>, Error>)
      requires Valid() && Graphs.Valid(Graph()) && NonNegativeWeights(aStar.hp.base)
      modifies aStar
      ensures Valid()
      ensures source !in Graph().nodes ==>
                r == (if source == destination then Success([source]) else Failure(IllegalArgument))
      ensures source in Graph().nodes ==> r.Success?
      ensures source == destination ==> r == Success([source])
      ensures source in Graph().nodes && r.Success? && r.value != [] ==>
                && IsPathBetween(Graph(), r.value, source, destination)
                && forall p :: IsPathBetween(Graph(), p, source, destination) ==>
                     PathCost(aStar.hp.base, r.value) <= PathCost(aStar.hp.base, p)
      ensures source in Graph().nodes && r == Success([]) ==>
                forall p :: !IsPathBetween(Graph(), p, source, destination)
    {
      ZeroConsistent(aStar.hp.base, aStar.hp.heuristicFunc, destination);
      r := aStar.FindPath(source, destination);
    }
  }

  /** Construction as in Java: an A* pathfinder over the network and the
      weights, with the zero heuristic, so only the checks of the
      network and the weight function can fail. */
  method Create<N(==,!new), E>(graph: Option<Network<N, E>>, edgeWeight: Option<E -> real>)
    returns (r: Result<DijkstraPathfinder<N, E>, Error>)
    ensures r.Success? <==> Base.Create(graph, edgeWeight).Success?
    ensures r.Failure? ==> r.error == Base.Create(graph, edgeWeight).error
    ensures r.Success? ==> && fresh(r.value) && fresh(r.value.aStar) && fresh(r.value.aStar.hp)
                           && r.value.aStar.hp.base == Base.Create(graph, edgeWeight).value
                           && r.value.Valid()
  {
    var a := AStar.Create(graph, edgeWeight, Some(Zero));
    if a.Failure? {
      return Failure(a.error);
    }
    var d := new DijkstraPathfinder(a.value);
    return Success(d);
  }
}
