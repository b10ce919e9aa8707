/** The facts the A* search loop keeps, stated over a snapshot of the
    pathfinder's fields, and the two state updates of the loop: the state
    `initialize` leaves and the relaxation of one edge. */
module AStarInvariants {
  import opened Graphs
  import opened Base
  import opened Pathfinders

  /** The pathfinder's search fields, plus three ghost fields: a logical clock
      with the time each gScore entry was last written, and for each scored
      node a path from the source that costs no more than its gScore. */
  datatype SearchState<N> = SearchState(
    fringe: multiset<(N, real)>,
    visited: set<N>,
    parents: map<N, N>,
    gScore: map<N, real>,
    stamp: map<N, nat>,
    clock: nat,
    route: map<N, seq<N>>)

  /** The heuristic never drops by more than the weight of an edge. */
  ghost predicate Consistent<N, E>(pf: AbstractPathfinder<N, E>, h: (N, N) -> real, dest: N) {
    forall k :: 0 <= k < |pf.graph.edges| ==>
      h(pf.graph.edges[k].source, dest) <= pf.WeightOf(pf.graph.edges[k].id) + h(pf.graph.edges[k].target, dest)
  }

  /** The source is its own parent and costs nothing. */
  ghost predicate Rooted<N>(s: N, st: SearchState<N>) {
    s in st.gScore && st.gScore[s] == 0.0 && s in st.parents && st.parents[s] == s
  }

  /** Every scored node is a network node with a parent, a stamp older
      than the clock, a route path and a non-negative score. */
  ghost predicate Scored<N, E>(pf: AbstractPathfinder<N, E>, st: SearchState<N>) {
    forall x :: x in st.gScore ==>
      && x in st.parents && x in pf.graph.nodes && x in st.stamp && x in st.route
      && st.stamp[x] < st.clock && st.gScore[x] >= 0.0
  }

  /** `p`, the parent of `x`, is scored, joined to `x` by an edge, its score
      plus that edge's weight is at most `x`'s, and it is older than `x` in
      (score, stamp) order. */
  ghost predicate LinkOk<N, E>(pf: AbstractPathfinder<N, E>, st: SearchState<N>, x: N, p: N) {
    && x in st.gScore && p in st.gScore
    && Adjacent(pf.graph, p, x)
    && st.gScore[p] + pf.Weight(p, x) <= st.gScore[x]
    && p in st.stamp && x in st.stamp
    && (st.gScore[p] < st.gScore[x] || st.stamp[p] < st.stamp[x])
  }

  /** Each scored node other than the source is linked to its parent. */
  ghost predicate Links<N, E>(pf: AbstractPathfinder<N, E>, s: N, st: SearchState<N>) {
    forall x {:trigger st.parents[x]} :: x in st.gScore && x in st.parents && x != s ==>
      LinkOk(pf, st, x, st.parents[x])
  }

  /** Every scored node is reached from the source by a path costing at most its score. */
  ghost predicate Witnessed<N, E>(pf: AbstractPathfinder<N, E>, s: N, st: SearchState<N>) {
    forall x {:trigger st.route[x]} :: x in st.gScore && x in st.route ==>
      IsPathBetween(pf.graph, st.route[x], s, x) && PathCost(pf, st.route[x]) <= st.gScore[x]
  }

  /** Every fringe entry is for a scored node, with a priority no less than
      its current score plus heuristic (scores only fall after a push). */
  ghost predicate FringeSound<N>(h: (N, N) -> real, d: N, st: SearchState<N>) {
    forall e {:trigger st.fringe[e]} :: e in st.fringe ==> e.0 in st.gScore && e.1 >= st.gScore[e.0] + h(e.0, d)
  }

  /** Every scored, unvisited node has an up-to-date fringe entry. */
  ghost predicate Pending<N>(h: (N, N) -> real, d: N, st: SearchState<N>) {
    forall x {:trigger x in st.gScore} :: x in st.gScore && x !in st.visited ==> (x, st.gScore[x] + h(x, d)) in st.fringe
  }

  ghost predicate Core<N, E>(pf: AbstractPathfinder<N, E>, h: (N, N) -> real, s: N, d: N, st: SearchState<N>) {
    && Valid(pf.graph) && NonNegativeWeights(pf)
    && Rooted(s, st) && Scored(pf, st) && Links(pf, s, st) && Witnessed(pf, s, st)
    && st.visited <= st.gScore.Keys && d !in st.visited
    && FringeSound(h, d, st) && Pending(h, d, st)
  }

  /** Every successor of a visited node is scored, except the successors of
      `cur` not yet in `done`; under a consistent heuristic each is scored no
      higher than its visited predecessor plus the edge. */
  ghost predicate ExpandedExcept<N, E>(pf: AbstractPathfinder<N, E>, st: SearchState<N>, cur: N, done: set<N>, consistent: bool) {
    forall v, w {:trigger Adjacent(pf.graph, v, w)} ::
      (&& v in st.visited && v in pf.graph.succ && w in pf.graph.succ[v] && Adjacent(pf.graph, v, w)
       && (v == cur ==> w in done)) ==>
      w in st.gScore && (consistent && v in st.gScore ==> st.gScore[w] <= st.gScore[v] + pf.Weight(v, w))
  }

  ghost predicate Expanded<N, E>(pf: AbstractPathfinder<N, E>, st: SearchState<N>, consistent: bool) {
    forall v, w {:trigger Adjacent(pf.graph, v, w)} :: v in st.visited && v in pf.graph.succ && w in pf.graph.succ[v] && Adjacent(pf.graph, v, w) ==>
      w in st.gScore && (consistent && v in st.gScore ==> st.gScore[w] <= st.gScore[v] + pf.Weight(v, w))
  }

  /** Path `p` does not reach a visited node more cheaply than that node's score. */
  ghost predicate OptimalFor<N, E>(pf: AbstractPathfinder<N, E>, s: N, st: SearchState<N>, p: seq<N>) {
    IsPath(pf.graph, p) && p[0] == s && p[|p| - 1] in st.visited && p[|p| - 1] in st.gScore ==>
      st.gScore[p[|p| - 1]] <= PathCost(pf, p)
  }

  /** The loop invariant between two pops, apart from optimality, which is
      stated path by path with `OptimalFor`. */
  ghost predicate Inv<N, E>(pf: AbstractPathfinder<N, E>, h: (N, N) -> real, s: N, d: N, st: SearchState<N>) {
    && Core(pf, h, s, d, st)
    && Expanded(pf, st, Consistent(pf, h, d))
  }

  /** The invariant while the successors of `cur` are relaxed. */
  ghost predicate InvExpanding<N, E>(pf: AbstractPathfinder<N, E>, h: (N, N) -> real, s: N, d: N,
                                      st: SearchState<N>, cur: N, done: set<N>) {
    && Core(pf, h, s, d, st)
    && cur in st.visited
    && ExpandedExcept(pf, st, cur, done, Consistent(pf, h, d))
  }

  /** The state `initialize` leaves: only `parents` keeps older entries. */
  ghost function Initial<N>(h: (N, N) -> real, s: N, d: N, parents: map<N, N>): SearchState<N> {
    SearchState(multiset{(s, h(s, d))}, {}, parents[s := s], map[s := 0.0], map[s := 0], 1, map[s := [s]])
  }

  /** Whether relaxing the edge from `cur` to `w` strictly improves `w`'s
      score; an absent score counts as infinite. */
  ghost predicate Improves<N, E>(pf: AbstractPathfinder<N, E>, st: SearchState<N>, cur: N, w: N)
    requires cur in st.gScore && Adjacent(pf.graph, cur, w)
  {
    w !in st.gScore || st.gScore[cur] + pf.Weight(cur, w) < st.gScore[w]
  }

  /** Relaxing the edge from `cur` to `w`: on a strict improvement `w` gets
      `cur` as parent, the new score, a fringe entry with the new score plus
      its heuristic, and bookkeeping; otherwise nothing changes. */
  ghost function Relaxed<N, E>(pf: AbstractPathfinder<N, E>, h: (N, N) -> real, d: N,
                              st: SearchState<N>, cur: N, w: N): SearchState<N>
    requires cur in st.gScore && cur in st.route && Adjacent(pf.graph, cur, w)
  {
    var tentative := st.gScore[cur] + pf.Weight(cur, w);
    if Improves(pf, st, cur, w) then
      st.(parents := st.parents[w := cur],
          gScore := st.gScore[w := tentative],
          fringe := st.fringe + multiset{(w, tentative + h(w, d))},
          stamp := st.stamp[w := st.clock],
          clock := st.clock + 1,
          route := st.route[w := st.route[cur] + [w]])
    else st
  }

  /** Relaxing the edges from `cur` to each node of `ws`, in order. */
  ghost function RelaxAll<N, E>(pf: AbstractPathfinder<N, E>, h: (N, N) -> real, d: N,
                               st: SearchState<N>, cur: N, ws: seq<N>): (r: SearchState<N>)
    requires cur in st.gScore && cur in st.route
    requires forall w :: w in ws ==> Adjacent(pf.graph, cur, w)
    ensures cur in r.gScore && cur in r.route && r.visited == st.visited
    decreases |ws|
  {
    if ws == [] then st
    else Relaxed(pf, h, d, RelaxAll(pf, h, d, st, cur, ws[..|ws| - 1]), cur, ws[|ws| - 1])
  }

  /** One turn of the search loop after polling `e`, an entry for a node
      other than the destination: a node not yet visited is marked and its
      successors relaxed in their order; an entry for a visited node is
      only dropped. */
  ghost function Turn<N, E>(pf: AbstractPathfinder<N, E>, h: (N, N) -> real, d: N,
                           st: SearchState<N>, e: (N, real)): SearchState<N>
    requires e.0 in st.visited || (e.0 in st.gScore && e.0 in st.route && e.0 in pf.graph.succ)
    requires SuccessorsAdjacent(pf.graph)
  {
    if e.0 in st.visited then st.(fringe := st.fringe - multiset{e})
    else RelaxAll(pf, h, d, st.(fringe := st.fringe - multiset{e}, visited := st.visited + {e.0}),
                  e.0, pf.graph.succ[e.0])
  }

  /** What a search returns on reaching the destination `d` with score
      `gd`: a path from `s` to `d` costing at most `gd`, the one-node path
      when `s` is `d`, and under a consistent heuristic a path costing
      exactly `gd` that no path from `s` to `d` undercuts. */
  ghost predicate Answer<N(!new), E>(pf: AbstractPathfinder<N, E>, h: (N, N) -> real, s: N, d: N, gd: real, path: seq<N>) {
    && IsPathBetween(pf.graph, path, s, d) && PathCost(pf, path) <= gd
    && (s == d ==> path == [s])
    && (Consistent(pf, h, d) ==>
          && PathCost(pf, path) == gd
          && forall p :: IsPathBetween(pf.graph, p, s, d) ==> PathCost(pf, path) <= PathCost(pf, p))
  }

  /** An entry of least priority in the fringe. */
  ghost predicate Least<N>(m: multiset<(N, real)>, e: (N, real)) {
    e in m && forall e' {:trigger m[e']} :: e' in m ==> e.1 <= e'.1
  }
}
