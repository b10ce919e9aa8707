/** The IDA* pathfinder: repeated depth-first searches from the source, each
    bounded by a cost threshold that the previous search raised to the
    cheapest total it had to cut off. The only state is the path stack,
    a deque that every recursive call shares. */
module IDAStar {
  import opened Wrappers
  import opened Graphs
  import opened Base
  import HeuristicBase
  import opened IDAStarSearch
  import opened IDAStarDeepening

  /** The `ArrayDeque` holding the path being explored, bottom first. */
  class Deque<N(==)> {
    var items: seq<N>

    constructor ()
      ensures items == []
    {
      items := [];
    }

    method AddLast(x: N)
      modifies this
      ensures items == old(items) + [x]
    {
      items := items + [x];
    }

    /** `removeLast`, which throws on an empty deque. */
    method RemoveLast() returns (r: Option<N>)
      modifies this
      ensures old(items) == [] ==> r == None && items == []
      ensures old(items) != [] ==> r == Some(old(items)[|old(items)| - 1]) && items == old(items)[..|old(items)| - 1]
    {
      if items == [] {
        return None;
      }
      r := Some(items[|items| - 1]);
      items := items[..|items| - 1];
    }

    /** `peekLast`: the top of the stack, or `null` when it is empty. */
    function PeekLast(): (r: Option<N>)
      reads this
      ensures r.Some? <==> |items| > 0
      ensures r.Some? ==> r.value == items[|items| - 1]
    {
      if items == [] then None else Some(items[|items| - 1])
    }

    function Contains(x: N): bool
      reads this
    {
      x in items
    }
  }

  class IDAStarPathfinder<N(==,!new), !E> {
    const hp: HeuristicBase.AbstractHeuristicPathfinder<N, E>

    constructor (hp: HeuristicBase.AbstractHeuristicPathfinder<N, E>)
      ensures this.hp == hp
    {
      this.hp := hp;
    }

    function Graph(): Network<N, E> {
      hp.base.graph
    }

    /** `idaSearch`: the recursive search from the path on the deque. It
        reports the score and leaves the deque holding the stack that the
        search model gives: the path to the destination when it is found,
        the path it started from otherwise. */
    method IdaSearch(path: Deque<N>, destination: N, currentDepth: real, threshold: real) returns (r: Score)
      requires SuccessorsAdjacent(Graph()) && StackOk(Graph(), path.items)
      modifies path
      ensures r == Search(hp.base, hp.heuristicFunc, destination, DestinationFirst, old(path.items), currentDepth, threshold).score
      ensures path.items == Search(hp.base, hp.heuristicFunc, destination, DestinationFirst, old(path.items), currentDepth, threshold).stack
      decreases Room(Graph(), path.items), 2
    {
      SearchStep(hp.base, hp.heuristicFunc, destination, DestinationFirst, path.items, currentDepth, threshold);
      var current := path.PeekLast().value;
      var totalCost := currentDepth + hp.Heuristic(current, destination);
      if current == destination {
        return Found;
      }
      if totalCost <= threshold {
        r := ScanSuccessors(path, current, destination, currentDepth, threshold);
        return;
      }
      return Cost(totalCost);
    }

    /** The loop of `idaSearch` over the successors of `current`, the top of
        the path: the least score of the successors not on the path, or the
        find that ends the loop early. */
    method ScanSuccessors(path: Deque<N>, current: N, destination: N, currentDepth: real, threshold: real)
      returns (r: Score)
      requires SuccessorsAdjacent(Graph()) && StackOk(Graph(), path.items) && path.items[|path.items| - 1] == current
      modifies path
      ensures var o := Scan(hp.base, hp.heuristicFunc, destination, DestinationFirst, old(path.items), currentDepth, threshold,
                            Graph().succ[current], Inf);
              r == o.score && path.items == o.stack
      decreases Room(Graph(), path.items), 1
    {
      ghost var pf := hp.base;
      ghost var h := hp.heuristicFunc;
      ghost var items := path.items;
      var minimumCost := Inf;
      var successors := Graph().succ[current];
      for i := 0 to |successors|
        invariant path.items == items
        invariant Pending(pf.graph, items, successors[i..])
        invariant Scan(pf, h, destination, DestinationFirst, items, currentDepth, threshold, successors[i..], minimumCost)
                  == Scan(pf, h, destination, DestinationFirst, items, currentDepth, threshold, successors, Inf)
      {
        var successor := successors[i];
        ghost var rest := successors[i..];
        assert rest[0] == successor && rest[1..] == successors[i + 1..];
        ghost var wd := ScanStep(pf, h, destination, DestinationFirst, items, currentDepth, threshold, rest, minimumCost);
        if !path.Contains(successor) {
          var childDepth := currentDepth + hp.base.Weight(current, successor);
          var pathCost := Descend(path, successor, destination, childDepth, threshold);
          if pathCost == Found {
            return Found;
          }
          if Below(pathCost, minimumCost) {
            minimumCost := pathCost;
          }
        }
      }
      return minimumCost;
    }

    /** The body of the loop for a successor not on the path: pushes it,
        searches from it at the depth of the edge to it, and pops it again
        unless the destination was found. */
    method Descend(path: Deque<N>, successor: N, destination: N, childDepth: real, threshold: real)
      returns (r: Score)
      requires SuccessorsAdjacent(Graph()) && successor in Graph().nodes && successor !in path.items
      modifies path
      ensures var child := Search(hp.base, hp.heuristicFunc, destination, DestinationFirst, old(path.items) + [successor],
                                  childDepth, threshold);
              && r == child.score
              && path.items == if r == Found then child.stack else old(path.items)
      decreases Room(Graph(), path.items + [successor]), 3
    {
      ghost var items := path.items;
      Push(Graph(), items, successor);
      path.AddLast(successor);
      r := IdaSearch(path, destination, childDepth, threshold);
      if r == Found {
        return;
      }
      SearchKeeps(hp.base, hp.heuristicFunc, destination, DestinationFirst, items + [successor], childDepth, threshold);
      var _ := path.RemoveLast();
      assert path.items == (items + [successor])[..|items|] == items;
    }

    /** Searches from `source` to `destination`, raising the threshold from
        the heuristic estimate at the source until a search finds the
        destination or cuts nothing off. An unknown source is returned as
        its own path when it is the destination; otherwise asking the
        network for its successors fails. From a source in the network the
        result is what the deepening loop with the destination checked first
        returns: a path with no repeated node, or the empty list when no
        path exists. */
    method FindPath(source: N, destination: N) returns (r: Result<seq<N>, Error>)
      requires Valid(Graph())
      ensures source !in Graph().nodes ==>
                r == (if source == destination then Success([source]) else Failure(IllegalArgument))
      ensures source in Graph().nodes ==>
                r == Success(Deepen(hp.base, hp.heuristicFunc, source, destination, DestinationFirst,
                                    hp.heuristicFunc(source, destination)))
      ensures source == destination ==> r == Success([source])
      ensures source in Graph().nodes && r.Success? && r.value != [] ==>
                IsPathBetween(Graph(), r.value, source, destination) && Distinct(r.value)
      ensures source in Graph().nodes && r == Success([]) ==>
                forall p :: !IsPathBetween(Graph(), p, source, destination)
    {
      ghost var pf := hp.base;
      ghost var h := hp.heuristicFunc;
      var path := new Deque<N>();
      var threshold := hp.Heuristic(source, destination);
      path.AddLast(source);
      assert path.items == [source];
      if source !in Graph().nodes {
        // The first search finds a source that is the destination, and
        // otherwise asks the network for the successors of an unknown node.
        if source == destination {
          return Success(path.items);
        }
        return Failure(IllegalArgument);
      }
      ghost var result := Deepen(pf, h, source, destination, DestinationFirst, threshold);
      DeepenSound(pf, h, source, destination, DestinationFirst, threshold);
      ghost var totals := Totals(pf, h, destination, [source], 0.0);
      while true
        invariant path.items == [source]
        invariant h == hp.heuristicFunc
        invariant Deepen(pf, h, source, destination, DestinationFirst, threshold) == result
        decreases set x | x in totals && x > threshold
      {
        ghost var above := set x | x in totals && x > threshold;
        var score := IdaSearch(path, destination, 0.0, threshold);
        if score == Found {
          return Success(path.items);
        }
        SearchKeeps(pf, h, destination, DestinationFirst, [source], 0.0, threshold);
        if !score.Cost? {
          return Success([]);
        }
        SearchAbove(pf, h, destination, DestinationFirst, [source], 0.0, threshold);
        SearchTotal(pf, h, destination, DestinationFirst, [source], 0.0, threshold);
        threshold := score.value;
        assert threshold in above && threshold !in set x | x in totals && x > threshold;
      }
    }
  }

  /** Construction as in Java: the checks of the base classes, in their order. */
  method Create<N(==,!new), E>(graph: Option<Network<N, E>>, edgeWeight: Option<E -> real>,
                              heuristicFunc: Option<(N, N) -> real>)
    returns (r: Result<IDAStarPathfinder<N, E>, Error>)
    ensures r.Success? <==> Base.Create(graph, edgeWeight).Success? && heuristicFunc.Some?
    ensures r.Failure? && Base.Create(graph, edgeWeight).Failure? ==> r.error == Base.Create(graph, edgeWeight).error
    ensures r.Failure? && Base.Create(graph, edgeWeight).Success? ==> r.error == NullPointer
    ensures r.Success? ==> && fresh(r.value) && r.value.hp.base == Base.Create(graph, edgeWeight).value
                           && r.value.hp.heuristicFunc == heuristicFunc.value
  {
    var hp := HeuristicBase.Create(graph, edgeWeight, heuristicFunc);
    if hp.Failure? {
      return Failure(hp.error);
    }
    var a := new IDAStarPathfinder(hp.value);
    return Success(a);
  }
}
