/** The lemmas showing that each step of the A* search loop keeps the
    invariants of `AStarInvariants`. */
module AStarLemmas {
  import opened Graphs
  import opened Base
  import opened Pathfinders
  import opened AStarInvariants

  lemma ConsistentStep<N, E>(pf: AbstractPathfinder<N, E>, h: (N, N) -> real, dest: N, u: N, v: N)
    requires Consistent(pf, h, dest) && Adjacent(pf.graph, u, v)
    ensures h(u, dest) <= pf.Weight(u, v) + h(v, dest)
  {
    var k := EdgeIndex(pf.graph.edges, u, v).value;
    assert pf.graph.edges[k].source == u && pf.graph.edges[k].target == v;
  }

  /** Along any path the heuristic drops by at most the path's cost. */
  lemma {:induction false} ConsistentAlongPath<N, E>(pf: AbstractPathfinder<N, E>, h: (N, N) -> real, dest: N, p: seq<N>)
    requires Consistent(pf, h, dest) && |p| > 0 && Linked(pf.graph, p)
    ensures h(p[0], dest) <= PathCost(pf, p) + h(p[|p| - 1], dest)
    decreases |p|
  {
    if |p| > 1 {
      var q := p[..|p| - 1];
      LinkedSlice(pf.graph, p, 0, |p| - 1);
      assert p[0..|p| - 1] == q;
      ConsistentAlongPath(pf, h, dest, q);
      ConsistentStep(pf, h, dest, p[|p| - 2], p[|p| - 1]);
    }
  }

  lemma InitialInv<N, E>(pf: AbstractPathfinder<N, E>, h: (N, N) -> real, s: N, d: N, parents: map<N, N>)
    requires Valid(pf.graph) && NonNegativeWeights(pf) && s in pf.graph.nodes
    ensures Inv(pf, h, s, d, Initial(h, s, d, parents))
  {
    var st := Initial(h, s, d, parents);
    assert Witnessed(pf, s, st) by {
      assert PathCost(pf, [s]) == 0.0;
    }
  }

  /** A non-empty fringe holds an entry of least priority. */
  lemma {:induction false} LeastExists<N>(m: multiset<(N, real)>)
    requires m != multiset{}
    ensures exists e :: Least(m, e)
    decreases |m|
  {
    var x :| x in m;
    var rest := m - multiset{x};
    forall e' | e' in m && e' != x ensures e' in rest {
      KeepOther(m, x, e');
    }
    if rest == multiset{} {
      assert Least(m, x);
    } else {
      LeastExists(rest);
      var y :| Least(rest, y);
      if x.1 <= y.1 {
        assert Least(m, x);
      } else {
        assert Least(m, y);
      }
    }
  }

  lemma KeepOther<T>(m: multiset<T>, e: T, t: T)
    requires t in m && t != e
    ensures t in m - multiset{e}
  {
  }

  /** Removing an entry whose node is (now) visited keeps every unvisited
      scored node pending, and the fringe sound. */
  lemma PoppedPending<N>(h: (N, N) -> real, d: N, st: SearchState<N>, e: (N, real), vis: set<N>)
    requires Pending(h, d, st) && FringeSound(h, d, st) && e.0 in vis && st.visited <= vis
    ensures Pending(h, d, st.(fringe := st.fringe - multiset{e}, visited := vis))
    ensures FringeSound(h, d, st.(fringe := st.fringe - multiset{e}, visited := vis))
  {
    var st' := st.(fringe := st.fringe - multiset{e}, visited := vis);
    forall x | x in st'.gScore && x !in st'.visited
      ensures (x, st'.gScore[x] + h(x, d)) in st'.fringe
    {
      KeepOther(st.fringe, e, (x, st.gScore[x] + h(x, d)));
    }
  }

  /** Discarding a stale entry, one for a node already visited, keeps the invariant. */
  lemma PopStale<N, E>(pf: AbstractPathfinder<N, E>, h: (N, N) -> real, s: N, d: N, st: SearchState<N>, e: (N, real))
    requires Inv(pf, h, s, d, st) && e in st.fringe && e.0 in st.visited
    requires Consistent(pf, h, d) ==> forall q :: OptimalFor(pf, s, st, q)
    ensures Inv(pf, h, s, d, st.(fringe := st.fringe - multiset{e}))
    ensures Consistent(pf, h, d) ==> forall q :: OptimalFor(pf, s, st.(fringe := st.fringe - multiset{e}), q)
  {
    PoppedPending(h, d, st, e, st.visited);
    assert st.(fringe := st.fringe - multiset{e}, visited := st.visited) == st.(fringe := st.fringe - multiset{e});
    if Consistent(pf, h, d) {
      forall q ensures OptimalFor(pf, s, st.(fringe := st.fringe - multiset{e}), q) {
        assert OptimalFor(pf, s, st, q);
      }
    }
  }

  /** The first unvisited node on a sequence that ends unvisited. */
  lemma FirstUnvisited<N>(visited: set<N>, p: seq<N>) returns (i: nat)
    requires |p| > 0 && p[|p| - 1] !in visited
    ensures i < |p| && p[i] !in visited && (i > 0 ==> p[i - 1] in visited)
  {
    i := 0;
    while p[i] in visited
      invariant 0 <= i < |p|
      invariant i > 0 ==> p[i - 1] in visited
      decreases |p| - i
    {
      i := i + 1;
    }
  }

  /** A successor of a visited node on a path from the source is scored no
      higher than the path up to it, when the heuristic is consistent. */
  lemma FrontierScore<N, E>(pf: AbstractPathfinder<N, E>, s: N, st: SearchState<N>, p: seq<N>, i: nat)
    requires Valid(pf.graph) && st.visited <= st.gScore.Keys && Expanded(pf, st, true)
    requires IsPath(pf.graph, p) && 0 < i < |p| && p[i - 1] in st.visited
    requires OptimalFor(pf, s, st, p[..i]) && p[0] == s
    ensures p[i] in st.gScore && Linked(pf.graph, p[..i + 1]) && st.gScore[p[i]] <= PathCost(pf, p[..i + 1])
  {
    var pre := p[..i];
    LinkedSlice(pf.graph, p, 0, i);
    assert p[0..i] == pre;
    assert Adjacent(pf.graph, p[i - 1], p[i]);
    AdjacentIsSuccessor(pf.graph, p[i - 1], p[i]);
    PathCostAppend(pf, pre, p[i]);
    assert pre + [p[i]] == p[..i + 1];
  }

  lemma PendingEntry<N>(h: (N, N) -> real, d: N, st: SearchState<N>, x: N)
    requires Pending(h, d, st) && x in st.gScore && x !in st.visited
    ensures (x, st.gScore[x] + h(x, d)) in st.fringe
  {
  }

  /** The chain of inequalities behind `PopOptimal`: the least priority
      `f` lies between the popped node's score plus heuristic and the score
      plus heuristic of the first unvisited node `p[i]` on the path. */
  lemma CostChain<N, E>(pf: AbstractPathfinder<N, E>, h: (N, N) -> real, d: N, p: seq<N>, i: nat,
                        gz: real, gu: real, f: real)
    requires Consistent(pf, h, d) && Linked(pf.graph, p) && i < |p|
    requires gu + h(p[|p| - 1], d) <= f <= gz + h(p[i], d)
    requires Linked(pf.graph, p[..i + 1]) && gz <= PathCost(pf, p[..i + 1])
    ensures gu <= PathCost(pf, p)
  {
    var tail := p[i..];
    assert tail[0] == p[i] && tail[|tail| - 1] == p[|p| - 1];
    PathCostSplit(pf, p, i);
    ConsistentAlongPath(pf, h, d, tail);
    RealChain(gu, f, gz, h(p[i], d), h(p[|p| - 1], d), PathCost(pf, p[..i + 1]), PathCost(pf, tail), PathCost(pf, p));
  }

  lemma RealChain(gu: real, f: real, gz: real, hz: real, hu: real, head: real, tail: real, total: real)
    requires gu + hu <= f <= gz + hz && gz <= head && hz <= tail + hu && total == head + tail
    ensures gu <= total
  {
  }

  /** Under a consistent heuristic, the node of a least-priority entry, when
      not yet visited, already has its optimal score: the first unvisited
      node on any path to it has an up-to-date entry whose priority bounds
      the path's cost plus the heuristic. */
  lemma PopOptimal<N, E>(pf: AbstractPathfinder<N, E>, h: (N, N) -> real, s: N, d: N, st: SearchState<N>,
                         e: (N, real), p: seq<N>)
    requires Valid(pf.graph) && Consistent(pf, h, d) && Rooted(s, st) && st.visited <= st.gScore.Keys
    requires Expanded(pf, st, Consistent(pf, h, d)) && FringeSound(h, d, st) && Pending(h, d, st)
    requires forall q :: OptimalFor(pf, s, st, q)
    requires Least(st.fringe, e) && e.0 !in st.visited
    requires IsPathBetween(pf.graph, p, s, e.0)
    ensures e.0 in st.gScore && st.gScore[e.0] <= PathCost(pf, p)
  {
    var i := FirstUnvisited(st.visited, p);
    if i > 0 {
      assert OptimalFor(pf, s, st, p[..i]);
      FrontierScore(pf, s, st, p, i);
    } else {
      assert p[..1] == [s];
    }
    PendingEntry(h, d, st, p[i]);
    CostChain(pf, h, d, p, i, st.gScore[p[i]], st.gScore[e.0], e.1);
  }

  /** The state after popping `e` and marking its node visited. */
  ghost function Popped<N>(st: SearchState<N>, e: (N, real)): SearchState<N> {
    st.(fringe := st.fringe - multiset{e}, visited := st.visited + {e.0})
  }

  lemma PoppedExpanding<N, E>(pf: AbstractPathfinder<N, E>, st: SearchState<N>, e: (N, real), consistent: bool)
    requires Expanded(pf, st, consistent)
    ensures ExpandedExcept(pf, Popped(st, e), e.0, {}, consistent)
  {
  }

  lemma PoppedOptimal<N, E>(pf: AbstractPathfinder<N, E>, h: (N, N) -> real, s: N, d: N, st: SearchState<N>, e: (N, real))
    requires Inv(pf, h, s, d, st) && Consistent(pf, h, d)
    requires forall q :: OptimalFor(pf, s, st, q)
    requires Least(st.fringe, e) && e.0 !in st.visited
    ensures forall q :: OptimalFor(pf, s, Popped(st, e), q)
  {
    forall q ensures OptimalFor(pf, s, Popped(st, e), q) {
      if IsPath(pf.graph, q) && q[0] == s && q[|q| - 1] == e.0 {
        PopOptimal(pf, h, s, d, st, e, q);
      } else {
        assert OptimalFor(pf, s, st, q);
      }
    }
  }

  /** Popping a least entry for an unvisited node other than the destination
      and marking it visited starts its expansion with the invariant intact;
      under a consistent heuristic the node's score is final. */
  lemma PopFresh<N, E>(pf: AbstractPathfinder<N, E>, h: (N, N) -> real, s: N, d: N, st: SearchState<N>, e: (N, real))
    requires Inv(pf, h, s, d, st)
    requires Consistent(pf, h, d) ==> forall q :: OptimalFor(pf, s, st, q)
    requires Least(st.fringe, e) && e.0 !in st.visited && e.0 != d
    ensures InvExpanding(pf, h, s, d, Popped(st, e), e.0, {}) && e.0 in pf.graph.nodes
    ensures Consistent(pf, h, d) ==> forall q :: OptimalFor(pf, s, Popped(st, e), q)
  {
    PoppedPending(h, d, st, e, st.visited + {e.0});
    PoppedExpanding(pf, st, e, Consistent(pf, h, d));
    if Consistent(pf, h, d) {
      PoppedOptimal(pf, h, s, d, st, e);
    }
  }

  /** Visiting a new node of the network shrinks the set of unvisited nodes. */
  lemma Visits<N>(nodes: set<N>, visited: set<N>, x: N)
    requires x in nodes && x !in visited
    ensures nodes - (visited + {x}) < nodes - visited
  {
    assert x in nodes - visited;
  }

  /** An improving relaxation targets neither the source nor the node being
      expanded, and its new score is non-negative. */
  lemma ImprovesFacts<N, E>(pf: AbstractPathfinder<N, E>, s: N, st: SearchState<N>, cur: N, w: N)
    requires NonNegativeWeights(pf) && Rooted(s, st) && Scored(pf, st)
    requires cur in st.gScore && Adjacent(pf.graph, cur, w) && Improves(pf, st, cur, w)
    ensures w != s && w != cur && st.gScore[cur] + pf.Weight(cur, w) >= 0.0
  {
    WeightNonNegative(pf, cur, w);
  }

  lemma RelaxScored<N, E>(pf: AbstractPathfinder<N, E>, h: (N, N) -> real, s: N, d: N, st: SearchState<N>, cur: N, w: N)
    requires Valid(pf.graph) && NonNegativeWeights(pf) && Rooted(s, st) && Scored(pf, st)
    requires cur in st.gScore && Adjacent(pf.graph, cur, w)
    ensures Rooted(s, Relaxed(pf, h, d, st, cur, w)) && Scored(pf, Relaxed(pf, h, d, st, cur, w))
  {
    if Improves(pf, st, cur, w) {
      ImprovesFacts(pf, s, st, cur, w);
      AdjacentIsSuccessor(pf.graph, cur, w);
    }
  }

  lemma RelaxLinks<N, E>(pf: AbstractPathfinder<N, E>, h: (N, N) -> real, s: N, d: N, st: SearchState<N>, cur: N, w: N)
    requires NonNegativeWeights(pf) && Rooted(s, st) && Scored(pf, st) && Links(pf, s, st)
    requires cur in st.gScore && Adjacent(pf.graph, cur, w)
    ensures Links(pf, s, Relaxed(pf, h, d, st, cur, w))
  {
    if Improves(pf, st, cur, w) {
      ImprovesFacts(pf, s, st, cur, w);
      var st' := Relaxed(pf, h, d, st, cur, w);
      forall x | x in st'.gScore && x in st'.parents && x != s
        ensures LinkOk(pf, st', x, st'.parents[x])
      {
        if x != w {
          var p := st.parents[x];
          assert LinkOk(pf, st, x, p);
          if p == w {
            WeightNonNegative(pf, w, x);
          }
        }
      }
    }
  }

  lemma RelaxWitnessed<N, E>(pf: AbstractPathfinder<N, E>, h: (N, N) -> real, s: N, d: N, st: SearchState<N>, cur: N, w: N)
    requires Witnessed(pf, s, st) && Scored(pf, st)
    requires cur in st.gScore && Adjacent(pf.graph, cur, w)
    ensures Witnessed(pf, s, Relaxed(pf, h, d, st, cur, w))
  {
    if Improves(pf, st, cur, w) {
      var r := st.route[cur];
      assert IsPathBetween(pf.graph, r, s, cur);
      PathCostAppend(pf, r, w);
    }
  }

  lemma InAddedOther<T>(m: multiset<T>, n: T, t: T)
    requires t in m + multiset{n} && t != n
    ensures t in m
  {
  }

  lemma RelaxFringeSound<N, E>(pf: AbstractPathfinder<N, E>, h: (N, N) -> real, d: N, st: SearchState<N>, cur: N, w: N)
    requires FringeSound(h, d, st) && cur in st.gScore && cur in st.route && Adjacent(pf.graph, cur, w)
    ensures FringeSound(h, d, Relaxed(pf, h, d, st, cur, w))
  {
    if Improves(pf, st, cur, w) {
      var st' := Relaxed(pf, h, d, st, cur, w);
      var n := (w, st.gScore[cur] + pf.Weight(cur, w) + h(w, d));
      assert st'.fringe == st.fringe + multiset{n};
      forall e | e in st'.fringe ensures e.0 in st'.gScore && e.1 >= st'.gScore[e.0] + h(e.0, d) {
        if e != n {
          InAddedOther(st.fringe, n, e);
        }
      }
    }
  }

  lemma RelaxPending<N, E>(pf: AbstractPathfinder<N, E>, h: (N, N) -> real, d: N, st: SearchState<N>, cur: N, w: N)
    requires Pending(h, d, st) && cur in st.gScore && cur in st.route && Adjacent(pf.graph, cur, w)
    ensures Pending(h, d, Relaxed(pf, h, d, st, cur, w))
  {
    if Improves(pf, st, cur, w) {
      var st' := Relaxed(pf, h, d, st, cur, w);
      forall x | x in st'.gScore && x !in st'.visited ensures (x, st'.gScore[x] + h(x, d)) in st'.fringe {
        if x != w {
          assert (x, st.gScore[x] + h(x, d)) in st.fringe;
        }
      }
    }
  }

  /** Under a consistent heuristic a visited node's score never improves:
      the route to `cur` extended by the edge is a path to it. */
  lemma VisitedNotImproved<N, E>(pf: AbstractPathfinder<N, E>, s: N, st: SearchState<N>, cur: N, w: N)
    requires Witnessed(pf, s, st) && Scored(pf, st) && st.visited <= st.gScore.Keys
    requires forall q :: OptimalFor(pf, s, st, q)
    requires cur in st.gScore && Adjacent(pf.graph, cur, w) && w in st.visited
    ensures !Improves(pf, st, cur, w)
  {
    var r := st.route[cur];
    assert IsPathBetween(pf.graph, r, s, cur);
    PathCostAppend(pf, r, w);
    assert OptimalFor(pf, s, st, r + [w]);
  }

  lemma RelaxExpanding<N, E>(pf: AbstractPathfinder<N, E>, h: (N, N) -> real, s: N, d: N, st: SearchState<N>,
                             cur: N, done: set<N>, w: N, consistent: bool)
    requires NonNegativeWeights(pf) && Rooted(s, st) && Scored(pf, st)
    requires ExpandedExcept(pf, st, cur, done, consistent)
    requires cur in st.visited && cur in st.gScore && Adjacent(pf.graph, cur, w)
    requires consistent && w in st.visited ==> !Improves(pf, st, cur, w)
    ensures ExpandedExcept(pf, Relaxed(pf, h, d, st, cur, w), cur, done + {w}, consistent)
  {
    var st' := Relaxed(pf, h, d, st, cur, w);
    if Improves(pf, st, cur, w) {
      ImprovesFacts(pf, s, st, cur, w);
    }
    forall v, y | && v in st'.visited && v in pf.graph.succ && y in pf.graph.succ[v] && Adjacent(pf.graph, v, y)
                  && (v == cur ==> y in done + {w})
      ensures y in st'.gScore && (consistent && v in st'.gScore ==> st'.gScore[y] <= st'.gScore[v] + pf.Weight(v, y))
    {
      if v == cur && y == w {
      } else {
        assert Adjacent(pf.graph, v, y);
      }
    }
  }

  lemma RelaxOptimal<N, E>(pf: AbstractPathfinder<N, E>, h: (N, N) -> real, s: N, d: N, st: SearchState<N>, cur: N, w: N)
    requires cur in st.gScore && cur in st.route && Adjacent(pf.graph, cur, w)
    requires forall q :: OptimalFor(pf, s, st, q)
    requires w in st.visited ==> !Improves(pf, st, cur, w)
    ensures forall q :: OptimalFor(pf, s, Relaxed(pf, h, d, st, cur, w), q)
  {
    forall q ensures OptimalFor(pf, s, Relaxed(pf, h, d, st, cur, w), q) {
      assert OptimalFor(pf, s, st, q);
    }
  }

  /** Relaxing one successor of the node being expanded keeps the invariant
      and marks that successor as done. */
  lemma RelaxPreserves<N, E>(pf: AbstractPathfinder<N, E>, h: (N, N) -> real, s: N, d: N,
                             st: SearchState<N>, cur: N, done: set<N>, w: N)
    requires InvExpanding(pf, h, s, d, st, cur, done)
    requires Consistent(pf, h, d) ==> forall q :: OptimalFor(pf, s, st, q)
    requires cur in pf.graph.succ && w in pf.graph.succ[cur]
    ensures cur in st.gScore && cur in st.route && Adjacent(pf.graph, cur, w)
    ensures InvExpanding(pf, h, s, d, Relaxed(pf, h, d, st, cur, w), cur, done + {w})
    ensures Consistent(pf, h, d) ==> forall q :: OptimalFor(pf, s, Relaxed(pf, h, d, st, cur, w), q)
    ensures Relaxed(pf, h, d, st, cur, w).visited == st.visited
  {
    AdjacentIsSuccessor(pf.graph, cur, w);
    var consistent := Consistent(pf, h, d);
    if consistent && w in st.visited {
      VisitedNotImproved(pf, s, st, cur, w);
    }
    RelaxScored(pf, h, s, d, st, cur, w);
    RelaxLinks(pf, h, s, d, st, cur, w);
    RelaxWitnessed(pf, h, s, d, st, cur, w);
    RelaxFringeSound(pf, h, d, st, cur, w);
    RelaxPending(pf, h, d, st, cur, w);
    RelaxExpanding(pf, h, s, d, st, cur, done, w, consistent);
    if consistent {
      RelaxOptimal(pf, h, s, d, st, cur, w);
    }
  }

  /** `st` is the state after relaxing the edges from `cur` to the first
      `i` nodes of `ws`, starting from `st0`. */
  ghost predicate Folded<N, E>(pf: AbstractPathfinder<N, E>, h: (N, N) -> real, d: N,
                               st0: SearchState<N>, cur: N, ws: seq<N>, i: nat, st: SearchState<N>) {
    && cur in st0.gScore && cur in st0.route && i <= |ws|
    && (forall w :: w in ws ==> Adjacent(pf.graph, cur, w))
    && st == RelaxAll(pf, h, d, st0, cur, ws[..i])
  }

  lemma FoldedStart<N, E>(pf: AbstractPathfinder<N, E>, h: (N, N) -> real, d: N,
                          st0: SearchState<N>, cur: N, ws: seq<N>)
    requires cur in st0.gScore && cur in st0.route
    requires forall w :: w in ws ==> Adjacent(pf.graph, cur, w)
    ensures Folded(pf, h, d, st0, cur, ws, 0, st0)
  {
    assert ws[..0] == [];
  }

  /** Relaxing the next successor extends the fold by that successor. */
  lemma FoldedStep<N, E>(pf: AbstractPathfinder<N, E>, h: (N, N) -> real, d: N,
                         st0: SearchState<N>, cur: N, ws: seq<N>, i: nat, st: SearchState<N>)
    requires Folded(pf, h, d, st0, cur, ws, i, st) && i < |ws|
    ensures cur in st.gScore && cur in st.route && Adjacent(pf.graph, cur, ws[i])
    ensures Folded(pf, h, d, st0, cur, ws, i + 1, Relaxed(pf, h, d, st, cur, ws[i]))
  {
    PrefixStep(ws, i);
  }

  /** A fold over every successor is the fold over the whole list. */
  lemma FoldedAll<N, E>(pf: AbstractPathfinder<N, E>, h: (N, N) -> real, d: N,
                        st0: SearchState<N>, cur: N, ws: seq<N>, st: SearchState<N>)
    requires Folded(pf, h, d, st0, cur, ws, |ws|, st)
    ensures st == RelaxAll(pf, h, d, st0, cur, ws)
  {
    assert ws[..|ws|] == ws;
  }

  /** Once every successor of `cur` is relaxed its expansion is complete. */
  lemma FinishExpanding<N, E>(pf: AbstractPathfinder<N, E>, h: (N, N) -> real, s: N, d: N,
                              st: SearchState<N>, cur: N)
    requires cur in pf.graph.succ
    requires InvExpanding(pf, h, s, d, st, cur, Elems(pf.graph.succ[cur]))
    ensures Inv(pf, h, s, d, st)
  {
  }

  /** The scored nodes strictly before `x` in (score, stamp) order. */
  ghost function Older<N>(st: SearchState<N>, x: N): set<N>
    requires x in st.gScore && x in st.stamp
  {
    set y | y in st.gScore && y in st.stamp &&
            (st.gScore[y] < st.gScore[x] || (st.gScore[y] == st.gScore[x] && st.stamp[y] < st.stamp[x]))
  }

  lemma {:induction false} RootedMonotone<N>(parents: map<N, N>, x: N, n: nat, m: nat)
    requires RootedWithin(parents, x, n) && n <= m
    ensures RootedWithin(parents, x, m)
    decreases n
  {
    if parents[x] != x {
      RootedMonotone(parents, parents[x], n - 1, m - 1);
    }
  }

  lemma ProperSubsetSmaller<T>(a: set<T>, b: set<T>)
    requires a < b
    ensures |a| < |b|
  {
    var c := b - a;
    assert b == a + c && a !! c;
    assert c != {};
  }

  lemma OlderShrinks<N, E>(pf: AbstractPathfinder<N, E>, st: SearchState<N>, x: N, p: N)
    requires NonNegativeWeights(pf) && LinkOk(pf, st, x, p)
    ensures |Older(st, p)| < |Older(st, x)|
  {
    WeightNonNegative(pf, p, x);
    assert p in Older(st, x) && p !in Older(st, p);
    ProperSubsetSmaller(Older(st, p), Older(st, x));
  }

  /** Only the source is its own parent. */
  lemma SelfParentIsSource<N, E>(pf: AbstractPathfinder<N, E>, s: N, st: SearchState<N>, x: N)
    requires Links(pf, s, st) && x in st.gScore && x in st.parents
    ensures st.parents[x] == x ==> x == s
  {
    if x != s {
      assert LinkOk(pf, st, x, st.parents[x]);
    }
  }

  /** Parent links never form a cycle: from every scored node they lead back
      to the source, which is its own parent, in fewer steps than there are
      scored nodes older than it. */
  lemma {:induction false} ChainRooted<N, E>(pf: AbstractPathfinder<N, E>, s: N, st: SearchState<N>, x: N)
    requires NonNegativeWeights(pf) && Rooted(s, st) && Scored(pf, st) && Links(pf, s, st)
    requires x in st.gScore
    ensures RootedWithin(st.parents, x, |Older(st, x)|)
    decreases |Older(st, x)|
  {
    if x != s {
      var p := st.parents[x];
      assert LinkOk(pf, st, x, p);
      OlderShrinks(pf, st, x, p);
      ChainRooted(pf, s, st, p);
      RootedMonotone(st.parents, p, |Older(st, p)|, |Older(st, x)| - 1);
    }
  }

  /** A parent path ending at a scored node starts at the source, is a path
      of the network through scored nodes, and costs at most the end's score. */
  lemma {:induction false} ParentPathFacts<N, E>(pf: AbstractPathfinder<N, E>, s: N, st: SearchState<N>, r: seq<N>)
    requires NonNegativeWeights(pf) && Rooted(s, st) && Scored(pf, st) && Links(pf, s, st)
    requires ParentPath(st.parents, r) && r[|r| - 1] in st.gScore
    ensures forall i :: 0 <= i < |r| ==> r[i] in st.gScore
    ensures IsPathBetween(pf.graph, r, s, r[|r| - 1])
    ensures PathCost(pf, r) <= st.gScore[r[|r| - 1]]
    decreases |r|
  {
    var k := |r| - 1;
    var y := r[k];
    if k == 0 {
      SelfParentIsSource(pf, s, st, y);
    } else {
      assert st.parents[r[k]] == r[k - 1] && r[k] != r[k - 1];
      assert y != s;
      assert LinkOk(pf, st, y, r[k - 1]);
      var q := r[..k];
      assert ParentPath(st.parents, q);
      ParentPathFacts(pf, s, st, q);
      PathCostAppend(pf, q, y);
      assert q + [y] == r;
    }
  }

  lemma ScoredIsVisited<N>(h: (N, N) -> real, d: N, st: SearchState<N>, x: N)
    requires Pending(h, d, st) && st.fringe == multiset{} && x in st.gScore
    ensures x in st.visited
  {
  }

  /** When the fringe runs dry every node reachable from the source is visited. */
  lemma ReachableVisited<N, E>(pf: AbstractPathfinder<N, E>, h: (N, N) -> real, s: N, d: N, st: SearchState<N>, p: seq<N>)
    requires Valid(pf.graph) && Rooted(s, st) && Pending(h, d, st) && Expanded(pf, st, Consistent(pf, h, d))
    requires st.fringe == multiset{}
    requires IsPath(pf.graph, p) && p[0] == s
    ensures p[|p| - 1] in st.visited
  {
    var i := 0;
    ScoredIsVisited(h, d, st, s);
    while i < |p| - 1
      invariant 0 <= i < |p| && p[i] in st.visited
    {
      assert Adjacent(pf.graph, p[i], p[i + 1]);
      AdjacentIsSuccessor(pf.graph, p[i], p[i + 1]);
      ScoredIsVisited(h, d, st, p[i + 1]);
      i := i + 1;
    }
  }

  /** When the fringe runs dry without reaching the destination, no path
      from the source reaches it. */
  lemma Unreachable<N, E>(pf: AbstractPathfinder<N, E>, h: (N, N) -> real, s: N, d: N, st: SearchState<N>, p: seq<N>)
    requires Inv(pf, h, s, d, st) && st.fringe == multiset{}
    ensures !IsPathBetween(pf.graph, p, s, d)
  {
    if IsPathBetween(pf.graph, p, s, d) {
      ReachableVisited(pf, h, s, d, st, p);
      assert false;
    }
  }

  /** When the destination is popped, the path read off the parents tree
      runs from the source to it and costs at most its score; under a
      consistent heuristic it costs exactly its score and no path costs less. */
  lemma Found<N, E>(pf: AbstractPathfinder<N, E>, h: (N, N) -> real, s: N, d: N, st: SearchState<N>,
                    e: (N, real), path: seq<N>)
    requires Inv(pf, h, s, d, st)
    requires Consistent(pf, h, d) ==> forall q :: OptimalFor(pf, s, st, q)
    requires Least(st.fringe, e) && e.0 == d
    requires ParentPath(st.parents, path) && path[|path| - 1] == d
    ensures IsPathBetween(pf.graph, path, s, d) && d in st.gScore && PathCost(pf, path) <= st.gScore[d]
    ensures Consistent(pf, h, d) ==>
              && PathCost(pf, path) == st.gScore[d]
              && forall p :: IsPathBetween(pf.graph, p, s, d) ==> PathCost(pf, path) <= PathCost(pf, p)
  {
    ParentPathFacts(pf, s, st, path);
    if Consistent(pf, h, d) {
      forall p | IsPathBetween(pf.graph, p, s, d)
        ensures PathCost(pf, path) <= PathCost(pf, p)
      {
        PopOptimal(pf, h, s, d, st, e, p);
      }
      PopOptimal(pf, h, s, d, st, e, path);
    }
  }
}

