/** A pathfinder guided by a heuristic. The network and the weight function
    are fixed at construction; the heuristic is the only piece of
    configuration that can change afterwards. */
module HeuristicBase {
  import opened Wrappers
  import opened Base

  class AbstractHeuristicPathfinder<N(==), !E> {
    const base: AbstractPathfinder<N, E>
    var heuristicFunc: (N, N) -> real

    constructor (base: AbstractPathfinder<N, E>, heuristicFunc: (N, N) -> real)
      ensures this.base == base && this.heuristicFunc == heuristicFunc
    {
      this.base := base;
      this.heuristicFunc := heuristicFunc;
    }

    /** The estimated distance from `node` to `target` under the current heuristic. */
    function Heuristic(node: N, target: N): real
      reads this
    {
      heuristicFunc(node, target)
    }

    /** Replaces the heuristic for every later search. A `null` argument throws
        before the assignment, so the old heuristic stays in place. */
    method SetHeuristic(newHeuristic: Option<(N, N) -> real>) returns (err: Option<Error>)
      modifies this
      ensures newHeuristic.None? ==> err == Some(NullPointer) && heuristicFunc == old(heuristicFunc)
      ensures newHeuristic.Some? ==> err == None && heuristicFunc == newHeuristic.value
      ensures newHeuristic.Some? ==> forall n, t :: Heuristic(n, t) == newHeuristic.value(n, t)
    {
      if newHeuristic.None? {
        return Some(NullPointer);
      }
      heuristicFunc := newHeuristic.value;
      return None;
    }
  }

  /** Construction: the graph and edge-weight checks of `AbstractPathfinder`
      first, then `requireNonNull(heuristicFunc)`. */
  method Create<N(==), E>(graph: Option<Graphs.Network<N, E>>, edgeWeight: Option<E -> real>,
                      heuristicFunc: Option<(N, N) -> real>)
    returns (r: Result<AbstractHeuristicPathfinder<N, E>, Error>)
    ensures r.Failure? && Base.Create(graph, edgeWeight).Failure? ==>
              r.error == Base.Create(graph, edgeWeight).error
    ensures r.Success? <==> Base.Create(graph, edgeWeight).Success? && heuristicFunc.Some?
    ensures r.Failure? && Base.Create(graph, edgeWeight).Success? ==> r.error == NullPointer
    ensures r.Success? ==> fresh(r.value) && r.value.base == Base.Create(graph, edgeWeight).value
                           && r.value.heuristicFunc == heuristicFunc.value
  {
    var b := Base.Create(graph, edgeWeight);
    if b.Failure? {
      return Failure(b.error);
    }
    if heuristicFunc.None? {
      return Failure(NullPointer);
    }
    var hp := new AbstractHeuristicPathfinder(b.value, heuristicFunc.value);
    return Success(hp);
  }
}
