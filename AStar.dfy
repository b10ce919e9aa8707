/** The A* pathfinder: a priority queue of (node, fScore) entries, a closed
    set, a parents tree and a gScore map, all fields of the object that every
    search reuses. */
module AStar {
  import opened Wrappers
  import opened Graphs
  import opened Base
  import HeuristicBase
  import opened Pathfinders
  import opened AStarInvariants
  import opened AStarLemmas

  class AStarPathfinder<N(==,!new), !E> {
    const hp: HeuristicBase.AbstractHeuristicPathfinder<N, E>
    /** The open set; `poll` takes an entry of least fScore. */
    var fringe: multiset<(N, real)>
    /** The closed set. */
    var visited: set<N>
    /** The parents tree; never cleared, only overwritten entry by entry. */
    var parents: map<N, N>
    var gScore: map<N, real>
    /** Proof bookkeeping: a logical clock, the time each gScore entry was
        last written, and for each scored node a path from the source that
        costs no more than its score. */
    ghost var stamp: map<N, nat>
    ghost var clock: nat
    ghost var route: map<N, seq<N>>

    ghost function State(): SearchState<N>
      reads this
    {
      SearchState(fringe, visited, parents, gScore, stamp, clock, route)
    }

    function Graph(): Network<N, E> {
      hp.base.graph
    }

    constructor (hp: HeuristicBase.AbstractHeuristicPathfinder<N, E>)
      ensures this.hp == hp
      ensures fringe == multiset{} && visited == {} && parents == map[] && gScore == map[]
    {
      this.hp := hp;
      fringe := multiset{};
      visited := {};
      parents := map[];
      gScore := map[];
      stamp := map[];
      clock := 0;
      route := map[];
    }

    /** Clears the closed set, the scores and the fringe (but not the
        parents), makes the source its own parent with score 0 and pushes it
        with its heuristic estimate as priority. */
    method Initialize(source: N, destination: N)
      modifies this
      ensures State() == Initial(hp.heuristicFunc, source, destination, old(parents))
    {
      // Each collection is cleared and then given its one entry.
      visited := {};
      parents := parents[source := source];
      gScore := map[source := 0.0];
      fringe := multiset{(source, hp.Heuristic(source, destination))};
      stamp := map[source := 0];
      clock := 1;
      route := map[source := [source]];
    }

    /** The body run for each successor of the node being expanded: a
        strictly better tentative score (an absent score counts as
        infinite) replaces the parent and the score, and pushes the
        successor with its new fScore. */
    method Relax(current: N, successor: N, destination: N)
      requires current in gScore && current in route && Adjacent(Graph(), current, successor)
      modifies this
      ensures State() == Relaxed(hp.base, hp.heuristicFunc, destination, old(State()), current, successor)
    {
      var tentativeGScore := gScore[current] + hp.base.Weight(current, successor);
      if successor !in gScore || tentativeGScore < gScore[successor] {
        parents, gScore := parents[successor := current], gScore[successor := tentativeGScore];
        fringe := fringe + multiset{(successor, tentativeGScore + hp.heuristicFunc(successor, destination))};
        stamp, clock, route := stamp[successor := clock], clock + 1, route[successor := route[current] + [successor]];
      }
    }

    /** Expands `current`: relaxes the edge to each of its successors. */
    method Expand(current: N, ghost source: N, destination: N)
      requires InvExpanding(hp.base, hp.heuristicFunc, source, destination, State(), current, {})
      requires Consistent(hp.base, hp.heuristicFunc, destination) ==>
                 forall q :: OptimalFor(hp.base, source, State(), q)
      modifies this
      ensures Inv(hp.base, hp.heuristicFunc, source, destination, State())
      ensures Consistent(hp.base, hp.heuristicFunc, destination) ==>
                forall q :: OptimalFor(hp.base, source, State(), q)
      ensures visited == old(visited)
      ensures State() == RelaxAll(hp.base, hp.heuristicFunc, destination, old(State()), current, Graph().succ[current])
    {
      ghost var pf := hp.base;
      ghost var h := hp.heuristicFunc;
      var successors := Graph().succ[current];
      ElemsWhole(successors);
      ghost var st := State();
      ghost var st0 := st;
      SuccessorsOfAdjacent(pf.graph, current);
      FoldedStart(pf, h, destination, st0, current, successors);
      for i := 0 to |successors|
        invariant st == State()
        invariant Folded(pf, h, destination, st0, current, successors, i, st)
        invariant InvExpanding(pf, h, source, destination, st, current, Elems(successors[..i]))
        invariant Consistent(pf, h, destination) ==> forall q :: OptimalFor(pf, source, st, q)
        invariant visited == old(visited)
      {
        RelaxPreserves(pf, h, source, destination, st, current, Elems(successors[..i]), successors[i]);
        ElemsPrefix(successors, i);
        FoldedStep(pf, h, destination, st0, current, successors, i, st);
        Relax(current, successors[i], destination);
        st := Relaxed(pf, h, destination, st, current, successors[i]);
      }
      FoldedAll(pf, h, destination, st0, current, successors, st);
      FinishExpanding(pf, h, source, destination, State(), current);
    }

    /** `poll`: removes and returns an entry of least priority. */
    method Poll() returns (entry: (N, real))
      requires fringe != multiset{}
      modifies this
      ensures Least(old(fringe), entry) && fringe == old(fringe) - multiset{entry}
      ensures visited == old(visited) && parents == old(parents) && gScore == old(gScore)
      ensures stamp == old(stamp) && clock == old(clock) && route == old(route)
    {
      LeastExists(fringe);
      entry :| entry in fringe && forall e :: e in fringe ==> entry.1 <= e.1;
      assert Least(fringe, entry);
      fringe := fringe - multiset{entry};
    }

    /** One turn of the search loop: polls an entry of least priority and
        either returns the path to the destination, expands a node visited
        for the first time, or drops a stale entry. */
    method Step(ghost source: N, destination: N) returns (found: bool, path: seq<N>, ghost polled: (N, real))
      requires fringe != multiset{}
      requires Inv(hp.base, hp.heuristicFunc, source, destination, State())
      requires Consistent(hp.base, hp.heuristicFunc, destination) ==>
                 forall q :: OptimalFor(hp.base, source, State(), q)
      modifies this
      ensures Least(old(fringe), polled) && (found <==> polled.0 == destination)
      ensures found ==> State() == old(State()).(fringe := old(fringe) - multiset{polled})
      ensures !found ==> State() == Turn(hp.base, hp.heuristicFunc, destination, old(State()), polled)
      ensures found ==>
                destination in gScore && Answer(hp.base, hp.heuristicFunc, source, destination, gScore[destination], path)
      ensures !found ==> Inv(hp.base, hp.heuristicFunc, source, destination, State())
      ensures !found && Consistent(hp.base, hp.heuristicFunc, destination) ==>
                forall q :: OptimalFor(hp.base, source, State(), q)
      ensures !found ==>
                || Graph().nodes - visited < old(Graph().nodes - visited)
                || (visited == old(visited) && |fringe| < old(|fringe|))
    {
      ghost var pf := hp.base;
      ghost var h := hp.heuristicFunc;
      ghost var st := State();
      var entry := Poll();
      polled := entry;
      var current := entry.0;
      if current == destination {
        path := Conclude(source, destination, st, entry);
        return true, path, entry;
      }
      Visit(entry, source, destination, st);
      found, path := false, [];
    }

    /** The turn that polls the destination: the path read off the parents tree. */
    method Conclude(ghost source: N, destination: N, ghost st: SearchState<N>, ghost entry: (N, real))
      returns (path: seq<N>)
      requires Inv(hp.base, hp.heuristicFunc, source, destination, st)
      requires Consistent(hp.base, hp.heuristicFunc, destination) ==>
                 forall q :: OptimalFor(hp.base, source, st, q)
      requires Least(st.fringe, entry) && entry.0 == destination
      requires parents == st.parents && gScore == st.gScore
      ensures destination in gScore && Answer(hp.base, hp.heuristicFunc, source, destination, gScore[destination], path)
    {
      ChainRooted(hp.base, source, st, destination);
      path := ReconstructPath(parents, destination);
      Found(hp.base, hp.heuristicFunc, source, destination, st, entry, path);
    }

    /** The rest of a turn whose polled node is not the destination: a node
        visited for the first time is marked visited and expanded; an entry
        for a node already visited is dropped. */
    method Visit(entry: (N, real), ghost source: N, destination: N, ghost st: SearchState<N>)
      requires Inv(hp.base, hp.heuristicFunc, source, destination, st)
      requires Consistent(hp.base, hp.heuristicFunc, destination) ==>
                 forall q :: OptimalFor(hp.base, source, st, q)
      requires Least(st.fringe, entry) && entry.0 != destination
      requires State() == st.(fringe := st.fringe - multiset{entry})
      modifies this
      ensures Inv(hp.base, hp.heuristicFunc, source, destination, State())
      ensures Consistent(hp.base, hp.heuristicFunc, destination) ==>
                forall q :: OptimalFor(hp.base, source, State(), q)
      ensures State() == Turn(hp.base, hp.heuristicFunc, destination, st, entry)
      ensures || Graph().nodes - visited < Graph().nodes - st.visited
              || (visited == st.visited && fringe == st.fringe - multiset{entry})
    {
      var current := entry.0;
      if current !in visited {
        PopFresh(hp.base, hp.heuristicFunc, source, destination, st, entry);
        Visits(Graph().nodes, visited, current);
        visited := visited + {current};
        assert State() == Popped(st, entry);
        Expand(current, source, destination);
      } else {
        PopStale(hp.base, hp.heuristicFunc, source, destination, st, entry);
      }
    }

    /** Searches from `source` to `destination`. An unknown source is
        returned as its own path when it is the destination; otherwise
        asking the network for its successors fails. From a source in the
        network the result is a path from the source to the destination
        costing at most the destination's score, or the empty list only when
        no path exists; when the heuristic is consistent the path costs
        exactly that score and no path costs less. */
    method FindPath(source: N, destination: N) returns (r: Result<seq<N>, Error>)
      requires Valid(Graph()) && NonNegativeWeights(hp.base)
      modifies this
      ensures source !in Graph().nodes ==>
                r == (if source == destination then Success([source]) else Failure(IllegalArgument))
      ensures source in Graph().nodes ==> r.Success?
      ensures source == destination ==> r == Success([source])
      ensures source in Graph().nodes && r.Success? && r.value != [] ==>
                && IsPathBetween(Graph(), r.value, source, destination)
                && destination in gScore && PathCost(hp.base, r.value) <= gScore[destination]
      ensures source in Graph().nodes && r == Success([]) ==>
                forall p :: !IsPathBetween(Graph(), p, source, destination)
      ensures source in Graph().nodes && r.Success? && r.value != [] && Consistent(hp.base, hp.heuristicFunc, destination) ==>
                && PathCost(hp.base, r.value) == gScore[destination]
                && forall p :: IsPathBetween(Graph(), p, source, destination) ==> PathCost(hp.base, r.value) <= PathCost(hp.base, p)
    {
      Initialize(source, destination);
      if source !in Graph().nodes {
        // The first poll returns the source itself.
        fringe := multiset{};
        if source == destination {
          assert RootedWithin(parents, destination, 0);
          var path := ReconstructPath(parents, destination);
          return Success(path);
        }
        visited := visited + {source};
        return Failure(IllegalArgument);
      }
      ghost var h := hp.heuristicFunc;
      ghost var pf := hp.base;
      InitialInv(pf, h, source, destination, old(parents));
      while fringe != multiset{}
        invariant Inv(pf, h, source, destination, State())
        invariant Consistent(pf, h, destination) ==> forall q :: OptimalFor(pf, source, State(), q)
        decreases Graph().nodes - visited, |fringe|
      {
        var found, path, _ := Step(source, destination);
        if found {
          return Success(path);
        }
      }
      forall p ensures !IsPathBetween(Graph(), p, source, destination) {
        Unreachable(pf, h, source, destination, State(), p);
      }
      assert source == destination ==> IsPathBetween(Graph(), [source], source, destination);
      return Success([]);
    }
  }

  /** Construction as in Java: the checks of the base classes, in their
      order, then empty search fields. */
  method Create<N(==,!new), E>(graph: Option<Network<N, E>>, edgeWeight: Option<E -> real>,
                          heuristicFunc: Option<(N, N) -> real>)
    returns (r: Result<AStarPathfinder<N, E>, Error>)
    ensures r.Success? <==> Base.Create(graph, edgeWeight).Success? && heuristicFunc.Some?
    ensures r.Failure? && Base.Create(graph, edgeWeight).Failure? ==> r.error == Base.Create(graph, edgeWeight).error
    ensures r.Failure? && Base.Create(graph, edgeWeight).Success? ==> r.error == NullPointer
    ensures r.Success? ==> && fresh(r.value) && fresh(r.value.hp) && r.value.hp.base == Base.Create(graph, edgeWeight).value
                           && r.value.hp.heuristicFunc == heuristicFunc.value
                           && r.value.fringe == multiset{} && r.value.visited == {}
                           && r.value.parents == map[] && r.value.gScore == map[]
  {
    var hp := HeuristicBase.Create(graph, edgeWeight, heuristicFunc);
    if hp.Failure? {
      return Failure(hp.error);
    }
    var a := new AStarPathfinder(hp.value);
    return Success(a);
  }
}
