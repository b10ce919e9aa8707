/** The deepening loop of IDA*'s `findPath` as a function of the threshold,
    for either order of the tests in `idaSearch`, and what it promises: the
    result is a path without repeated nodes or the proof that none exists;
    with the threshold checked first and a heuristic that never
    overestimates, it is a path of least cost. With the destination checked
    first, as the Java code does, it need not be. */
module IDAStarDeepening {
  import opened Wrappers
  import opened Graphs
  import opened Base
  import opened IDAStarSearch

  /** `findPath`'s `do`/`while` loop from threshold `t`: search from `[s]`;
      a find returns the stack, `Double.MAX_VALUE` returns the empty list,
      and any other score becomes the next threshold. */
  ghost function Deepen<N, E>(pf: AbstractPathfinder<N, E>, h: (N, N) -> real, s: N, d: N, ord: Order, t: real): seq<N>
    requires Valid(pf.graph) && s in pf.graph.nodes
    decreases set x | x in Totals(pf, h, d, [s], 0.0) && x > t
  {
    var o := Search(pf, h, d, ord, [s], 0.0, t);
    if o.score == Found then o.stack
    else if o.score == Inf then []
    else
      SearchAbove(pf, h, d, ord, [s], 0.0, t);
      SearchTotal(pf, h, d, ord, [s], 0.0, t);
      var next := o.score.value;
      ThresholdRises(Totals(pf, h, d, [s], 0.0), t, next);
      Deepen(pf, h, s, d, ord, next)
  }

  /** Raising the threshold to a candidate above it leaves fewer candidates above it. */
  lemma ThresholdRises(totals: set<real>, t: real, next: real)
    requires next in totals && next > t
    ensures (set x | x in totals && x > next) < (set x | x in totals && x > t)
  {
    var above, rest := set x | x in totals && x > t, set x | x in totals && x > next;
    assert rest <= above;
    assert next in above && next !in rest;
  }

  /** A search from the source that finds the destination leaves a path
      from the source to the destination with no repeated node, and only
      the one-node path when the source is the destination. */
  lemma Reached<N, E>(pf: AbstractPathfinder<N, E>, h: (N, N) -> real, s: N, d: N, ord: Order, t: real)
    requires Valid(pf.graph) && s in pf.graph.nodes
    requires Search(pf, h, d, ord, [s], 0.0, t).score == Found
    ensures var q := Search(pf, h, d, ord, [s], 0.0, t).stack;
            IsPathBetween(pf.graph, q, s, d) && Distinct(q) && (s == d ==> q == [s])
  {
    var q := Search(pf, h, d, ord, [s], 0.0, t).stack;
    SearchStep(pf, h, d, ord, [s], 0.0, t);
    SearchFinds(pf, h, d, ord, [s], 0.0, t);
    SearchEnds(pf, h, d, ord, [s], 0.0, t);
    if |q| > 1 {
      ExtendsFirst(pf.graph, [s], q);
    }
    assert q[0] == s;
    ExtendsSource(pf.graph, s, q);
  }

  /** A search from the source that cuts nothing off and does not find the
      destination rules out every path to it. */
  lemma Unreachable<N, E>(pf: AbstractPathfinder<N, E>, h: (N, N) -> real, s: N, d: N, ord: Order, t: real, p: seq<N>)
    requires Valid(pf.graph) && s in pf.graph.nodes
    requires Search(pf, h, d, ord, [s], 0.0, t).score == Inf
    ensures !IsPathBetween(pf.graph, p, s, d)
  {
    if IsPathBetween(pf.graph, p, s, d) {
      SimplePathExists(pf.graph, p, s, d);
      var q :| IsPathBetween(pf.graph, q, s, d) && Distinct(q) && |q| <= |p|;
      ExtendsSource(pf.graph, s, q);
      SearchInf(pf, h, d, ord, [s], 0.0, t, q);
    }
  }

  /** Whatever the order of the tests, the loop returns a path from the
      source to the destination with no repeated node, the one-node path
      when they are the same node, and the empty list only when no path
      exists. */
  lemma {:induction false} DeepenSound<N, E>(pf: AbstractPathfinder<N, E>, h: (N, N) -> real, s: N, d: N, ord: Order, t: real)
    requires Valid(pf.graph) && s in pf.graph.nodes
    ensures var r := Deepen(pf, h, s, d, ord, t);
            && (r != [] ==> IsPathBetween(pf.graph, r, s, d) && Distinct(r))
            && (r == [] ==> forall p :: !IsPathBetween(pf.graph, p, s, d))
            && (s == d ==> r == [s])
    decreases set x | x in Totals(pf, h, d, [s], 0.0) && x > t
  {
    var o := Search(pf, h, d, ord, [s], 0.0, t);
    SearchStep(pf, h, d, ord, [s], 0.0, t);
    if o.score == Found {
      Reached(pf, h, s, d, ord, t);
    } else if o.score == Inf {
      forall p ensures !IsPathBetween(pf.graph, p, s, d) {
        Unreachable(pf, h, s, d, ord, t, p);
      }
    } else {
      SearchAbove(pf, h, d, ord, [s], 0.0, t);
      SearchTotal(pf, h, d, ord, [s], 0.0, t);
      var next := o.score.value;
      ThresholdRises(Totals(pf, h, d, [s], 0.0), t, next);
      DeepenSound(pf, h, s, d, ord, next);
    }
  }

  /** The heuristic never goes below zero and never overestimates: at the
      start of a path to `d` it is at most the cost of the path. */
  ghost predicate Admissible<N(!new), E>(pf: AbstractPathfinder<N, E>, h: (N, N) -> real, d: N) {
    && (forall v :: 0.0 <= h(v, d))
    && forall p :: IsPath(pf.graph, p) && p[|p| - 1] == d ==> h(p[0], d) <= PathCost(pf, p)
  }

  /** The weight of the edges an extension adds on top of the stack. */
  ghost function ExtCost<N, E>(pf: AbstractPathfinder<N, E>, path: seq<N>, q: seq<N>): real
    requires Extends(pf.graph, path, q)
    decreases |q|
  {
    if |q| == |path| then 0.0
    else ExtCost(pf, path, q[..|q| - 1]) + pf.Weight(q[|q| - 2], q[|q| - 1])
  }

  /** The cost an extension adds is the weight of its first edge plus what
      it adds on top of the stack pushed with its first node. */
  lemma {:induction false} ExtCostFirst<N, E>(pf: AbstractPathfinder<N, E>, path: seq<N>, q: seq<N>)
    requires Extends(pf.graph, path, q) && |q| > |path|
    ensures Adjacent(pf.graph, path[|path| - 1], q[|path|]) && q[|path|] !in path
    ensures Extends(pf.graph, path + [q[|path|]], q)
    ensures ExtCost(pf, path, q) == pf.Weight(path[|path| - 1], q[|path|]) + ExtCost(pf, path + [q[|path|]], q)
    decreases |q|
  {
    ExtendsFirst(pf.graph, path, q);
    var r := q[..|q| - 1];
    if |q| > |path| + 1 {
      ExtCostFirst(pf, path, r);
      assert r[|path|] == q[|path|];
    }
  }

  /** The cost an extension adds is the cost of the path from the top of
      the stack to the end of the extension. */
  lemma {:induction false} ExtCostSuffix<N, E>(pf: AbstractPathfinder<N, E>, path: seq<N>, q: seq<N>)
    requires Extends(pf.graph, path, q)
    ensures Linked(pf.graph, q[|path| - 1..])
    ensures PathCost(pf, q[|path| - 1..]) == ExtCost(pf, path, q)
    decreases |q|
  {
    SuffixLinked(pf.graph, path, q);
    if |q| > |path| {
      var r := q[..|q| - 1];
      SuffixLinked(pf.graph, path, r);
      ExtCostSuffix(pf, path, r);
      SuffixSlices(q, |path| - 1);
      PathCostAppended(pf, r[|path| - 1..], q[|q| - 1], q[|path| - 1..]);
    } else {
      assert |q[|path| - 1..]| == 1;
    }
  }

  lemma {:induction false} SuffixLinked<N, E>(g: Network<N, E>, path: seq<N>, q: seq<N>)
    requires Extends(g, path, q)
    ensures Linked(g, q[|path| - 1..])
    decreases |q|
  {
    if |q| > |path| {
      var r := q[..|q| - 1];
      SuffixLinked(g, path, r);
      SuffixSlices(q, |path| - 1);
      LinkedAppended(g, r[|path| - 1..], q[|q| - 1], q[|path| - 1..]);
    }
  }

  lemma AdmissibleAt<N(!new), E>(pf: AbstractPathfinder<N, E>, h: (N, N) -> real, d: N, r: seq<N>)
    requires Admissible(pf, h, d) && IsPath(pf.graph, r) && r[|r| - 1] == d
    ensures h(r[0], d) <= PathCost(pf, r)
  {
  }

  lemma LinkedAppended<N, E>(g: Network<N, E>, a: seq<N>, v: N, b: seq<N>)
    requires |a| > 0 && Linked(g, a) && Adjacent(g, a[|a| - 1], v) && b == a + [v]
    ensures Linked(g, b)
  {
    LinkedAppend(g, a, v);
  }

  lemma PathCostAppended<N, E>(pf: AbstractPathfinder<N, E>, a: seq<N>, v: N, b: seq<N>)
    requires |a| > 0 && Linked(pf.graph, a) && Adjacent(pf.graph, a[|a| - 1], v) && b == a + [v]
    ensures Linked(pf.graph, b) && PathCost(pf, b) == PathCost(pf, a) + pf.Weight(a[|a| - 1], v)
  {
    PathCostAppend(pf, a, v);
  }

  lemma SuffixSlices<T>(q: seq<T>, i: nat)
    requires i < |q| - 1
    ensures q[i..] == q[..|q| - 1][i..] + [q[|q| - 1]]
    ensures |q[..|q| - 1][i..]| > 0 && q[..|q| - 1][i..][|q[..|q| - 1][i..]| - 1] == q[|q| - 2]
  {
  }

  /** Under an admissible heuristic a search that finds nothing reports a
      cost, and no more than the depth plus the cost that any extension of
      the stack, without repeated nodes, adds on the way to the destination:
      the reported cost never overshoots the cheapest path still to be
      found. This holds for both orders of the tests. */
  lemma {:induction false} SearchUnderPaths<N(!new), E>(pf: AbstractPathfinder<N, E>, h: (N, N) -> real, d: N, ord: Order,
                                                        path: seq<N>, depth: real, t: real, q: seq<N>)
    requires Valid(pf.graph) && StackOk(pf.graph, path) && Admissible(pf, h, d)
    requires Search(pf, h, d, ord, path, depth, t).score != Found
    requires Extends(pf.graph, path, q) && q[|q| - 1] == d
    ensures var score := Search(pf, h, d, ord, path, depth, t).score;
            score.Cost? && score.value <= depth + ExtCost(pf, path, q)
    decreases Room(pf.graph, path)
  {
    var cur := path[|path| - 1];
    if cur != d && depth + h(cur, d) <= t {
      var w := q[|path|];
      ExtCostFirst(pf, path, q);
      var wd := LeastChild(pf, h, d, ord, path, depth, t, w);
      SearchUnderPaths(pf, h, d, ord, path + [w], wd, t, q);
      NotBelow(Search(pf, h, d, ord, path, depth, t).score, Search(pf, h, d, ord, path + [w], wd, t).score,
               depth + ExtCost(pf, path, q));
    } else {
      CutUnderPaths(pf, h, d, ord, path, depth, t, q);
    }
  }

  /** Below a search that expands its top and finds nothing, the search
      from each successor not on the stack finds nothing either and reports
      no less. */
  lemma LeastChild<N, E>(pf: AbstractPathfinder<N, E>, h: (N, N) -> real, d: N, ord: Order,
                         path: seq<N>, depth: real, t: real, w: N) returns (wd: real)
    requires Valid(pf.graph) && StackOk(pf.graph, path)
    requires path[|path| - 1] != d && depth + h(path[|path| - 1], d) <= t
    requires Search(pf, h, d, ord, path, depth, t).score != Found
    requires Adjacent(pf.graph, path[|path| - 1], w) && w !in path
    ensures StackOk(pf.graph, path + [w]) && Room(pf.graph, path + [w]) < Room(pf.graph, path)
    ensures wd == depth + pf.Weight(path[|path| - 1], w)
    ensures var child := Search(pf, h, d, ord, path + [w], wd, t).score;
            child != Found && !Below(child, Search(pf, h, d, ord, path, depth, t).score)
  {
    wd := depth + pf.Weight(path[|path| - 1], w);
    AdjacentIsSuccessor(pf.graph, path[|path| - 1], w);
    SearchLeast(pf, h, d, ord, path, depth, t, w);
    Push(pf.graph, path, w);
  }

  /** A score no child undercuts, other than `FOUND`, is a cost no more than
      the child's. */
  lemma NotBelow(score: Score, child: Score, bound: real)
    requires score != Found && child.Cost? && child.value <= bound && !Below(child, score)
    ensures score.Cost? && score.value <= bound
  {
  }

  /** A search that cuts off its top reports the top's total, which an
      admissible heuristic keeps within the cost of any extension. */
  lemma CutUnderPaths<N(!new), E>(pf: AbstractPathfinder<N, E>, h: (N, N) -> real, d: N, ord: Order,
                                  path: seq<N>, depth: real, t: real, q: seq<N>)
    requires Valid(pf.graph) && StackOk(pf.graph, path) && Admissible(pf, h, d)
    requires Search(pf, h, d, ord, path, depth, t).score != Found
    requires !(path[|path| - 1] != d && depth + h(path[|path| - 1], d) <= t)
    requires Extends(pf.graph, path, q) && q[|q| - 1] == d
    ensures var score := Search(pf, h, d, ord, path, depth, t).score;
            score.Cost? && score.value <= depth + ExtCost(pf, path, q)
  {
    var cur := path[|path| - 1];
    SearchStep(pf, h, d, ord, path, depth, t);
    ExtCostSuffix(pf, path, q);
    var r := q[|path| - 1..];
    assert q[|path| - 1] == cur by {
      if |q| > |path| {
        ExtendsFirst(pf.graph, path, q);
        assert q[..|path|][|path| - 1] == cur;
      }
    }
    assert r[0] == cur && r[|r| - 1] == d;
    AdmissibleAt(pf, h, d, r);
  }

  /** With the threshold checked first, a search that finds the destination
      leaves an extension of the stack whose added cost, on top of the
      depth, plus the heuristic at the destination is within the threshold. */
  lemma {:induction false} SearchFoundCost<N, E>(pf: AbstractPathfinder<N, E>, h: (N, N) -> real, d: N,
                                                 path: seq<N>, depth: real, t: real)
    requires SuccessorsAdjacent(pf.graph) && StackOk(pf.graph, path)
    ensures var o := Search(pf, h, d, ThresholdFirst, path, depth, t);
            o.score == Found ==> Extends(pf.graph, path, o.stack) && depth + ExtCost(pf, path, o.stack) + h(d, d) <= t
    decreases Room(pf.graph, path), 1, 0
  {
    var cur := path[|path| - 1];
    SearchStep(pf, h, d, ThresholdFirst, path, depth, t);
    if cur != d && depth + h(cur, d) <= t {
      ScanFoundCost(pf, h, d, path, depth, t, pf.graph.succ[cur], Inf);
    }
  }

  lemma {:induction false} ScanFoundCost<N, E>(pf: AbstractPathfinder<N, E>, h: (N, N) -> real, d: N,
                                               path: seq<N>, depth: real, t: real, rest: seq<N>, min: Score)
    requires SuccessorsAdjacent(pf.graph) && StackOk(pf.graph, path) && Pending(pf.graph, path, rest) && min != Found
    ensures var o := Scan(pf, h, d, ThresholdFirst, path, depth, t, rest, min);
            o.score == Found ==> Extends(pf.graph, path, o.stack) && depth + ExtCost(pf, path, o.stack) + h(d, d) <= t
    decreases Room(pf.graph, path), 0, |rest|
  {
    if rest == [] {
      assert Scan(pf, h, d, ThresholdFirst, path, depth, t, rest, min).score == min;
    } else {
      var w := rest[0];
      var wd := ScanStep(pf, h, d, ThresholdFirst, path, depth, t, rest, min);
      if w in path {
        ScanFoundCost(pf, h, d, path, depth, t, rest[1..], min);
      } else {
        var child := Search(pf, h, d, ThresholdFirst, path + [w], wd, t);
        if child.score == Found {
          SearchFoundCost(pf, h, d, path + [w], wd, t);
          ExtendsBack(pf.graph, path, w, child.stack);
          assert child.stack[|path|] == w by {
            if |child.stack| > |path| + 1 {
              ExtendsFirst(pf.graph, path + [w], child.stack);
              assert child.stack[..|path| + 1][|path|] == w;
            }
          }
          ExtCostFirst(pf, path, child.stack);
        } else {
          var next := if Below(child.score, min) then child.score else min;
          ScanFoundCost(pf, h, d, path, depth, t, rest[1..], next);
        }
      }
    }
  }

  /** One search from `[s]` with the threshold checked first, at a threshold
      no path to the destination undercuts: a find is a path of least cost. */
  lemma SearchFoundOptimal<N(!new), E>(pf: AbstractPathfinder<N, E>, h: (N, N) -> real, s: N, d: N, t: real)
    requires Valid(pf.graph) && Admissible(pf, h, d) && s in pf.graph.nodes
    requires forall p :: IsPathBetween(pf.graph, p, s, d) ==> t <= PathCost(pf, p)
    ensures var o := Search(pf, h, d, ThresholdFirst, [s], 0.0, t);
            o.score == Found ==>
              && Linked(pf.graph, o.stack)
              && forall p :: IsPathBetween(pf.graph, p, s, d) ==> PathCost(pf, o.stack) <= PathCost(pf, p)
  {
    var o := Search(pf, h, d, ThresholdFirst, [s], 0.0, t);
    if o.score == Found {
      SearchFoundCost(pf, h, d, [s], 0.0, t);
      ExtCostSuffix(pf, [s], o.stack);
      assert o.stack[0..] == o.stack;
      assert 0.0 <= h(d, d);
    }
  }

  /** The same search, when it reports a cost, reports one that no path to
      the destination undercuts either. */
  lemma SearchCostBound<N(!new), E>(pf: AbstractPathfinder<N, E>, h: (N, N) -> real, s: N, d: N, t: real)
    requires Valid(pf.graph) && NonNegativeWeights(pf) && Admissible(pf, h, d) && s in pf.graph.nodes
    ensures var o := Search(pf, h, d, ThresholdFirst, [s], 0.0, t);
            o.score != Found ==>
              o.score.Cost? || forall p :: !IsPathBetween(pf.graph, p, s, d)
    ensures var o := Search(pf, h, d, ThresholdFirst, [s], 0.0, t);
            o.score.Cost? ==> forall p :: IsPathBetween(pf.graph, p, s, d) ==> o.score.value <= PathCost(pf, p)
  {
    var o := Search(pf, h, d, ThresholdFirst, [s], 0.0, t);
    if o.score != Found {
      forall p | IsPathBetween(pf.graph, p, s, d) ensures o.score.Cost? && o.score.value <= PathCost(pf, p) {
        SimplePathCheaper(pf, p, s, d);
        var q :| IsPathBetween(pf.graph, q, s, d) && Distinct(q) && PathCost(pf, q) <= PathCost(pf, p);
        ExtendsSource(pf.graph, s, q);
        SearchUnderPaths(pf, h, d, ThresholdFirst, [s], 0.0, t, q);
        ExtCostSuffix(pf, [s], q);
        assert q[0..] == q;
      }
    }
  }

  /** The deepening loop with the threshold checked first, from a threshold
      no path undercuts, returns a path that no path from the source to the
      destination undercuts. */
  lemma {:induction false} DeepenOptimal<N(!new), E>(pf: AbstractPathfinder<N, E>, h: (N, N) -> real, s: N, d: N, t: real)
    requires Valid(pf.graph) && NonNegativeWeights(pf) && Admissible(pf, h, d) && s in pf.graph.nodes
    requires forall p :: IsPathBetween(pf.graph, p, s, d) ==> t <= PathCost(pf, p)
    ensures var r := Deepen(pf, h, s, d, ThresholdFirst, t);
            r != [] ==> Linked(pf.graph, r) && forall p :: IsPathBetween(pf.graph, p, s, d) ==> PathCost(pf, r) <= PathCost(pf, p)
    decreases set x | x in Totals(pf, h, d, [s], 0.0) && x > t
  {
    var o := Search(pf, h, d, ThresholdFirst, [s], 0.0, t);
    if o.score == Found {
      SearchFoundOptimal(pf, h, s, d, t);
    } else if o.score.Cost? {
      SearchAbove(pf, h, d, ThresholdFirst, [s], 0.0, t);
      SearchTotal(pf, h, d, ThresholdFirst, [s], 0.0, t);
      var next := o.score.value;
      ThresholdRises(Totals(pf, h, d, [s], 0.0), t, next);
      SearchCostBound(pf, h, s, d, t);
      DeepenOptimal(pf, h, s, d, next);
    }
  }

  /** IDA* with the threshold checked first, started as `findPath` starts it
      from the heuristic estimate at the source, returns a path of least
      cost whenever the heuristic is admissible and no weight is negative. */
  lemma ThresholdFirstOptimal<N(!new), E>(pf: AbstractPathfinder<N, E>, h: (N, N) -> real, s: N, d: N)
    requires Valid(pf.graph) && NonNegativeWeights(pf) && Admissible(pf, h, d) && s in pf.graph.nodes
    ensures var r := Deepen(pf, h, s, d, ThresholdFirst, h(s, d));
            && (r != [] ==> IsPathBetween(pf.graph, r, s, d) && Distinct(r))
            && (r != [] ==> forall p :: IsPathBetween(pf.graph, p, s, d) ==> PathCost(pf, r) <= PathCost(pf, p))
            && (r == [] ==> forall p :: !IsPathBetween(pf.graph, p, s, d))
  {
    DeepenSound(pf, h, s, d, ThresholdFirst, h(s, d));
    DeepenOptimal(pf, h, s, d, h(s, d));
  }

  /** Three nodes: the edge 0→2 weighs 10 and is listed first among the
      successors of 0; the edges 0→1 and 1→2 weigh 1. */
  function Detour(): AbstractPathfinder<int, int> {
    AbstractPathfinder(DetourNetwork(), DetourWeight)
  }

  function DetourNetwork(): Network<int, int> {
    Network({0, 1, 2}, map[0 := [2, 1], 1 := [2], 2 := []], [Edge(0, 0, 2), Edge(1, 0, 1), Edge(2, 1, 2)], false)
  }

  function DetourWeight(e: int): real {
    if e == 0 then 10.0 else 1.0
  }

  function Zero(u: int, v: int): real {
    0.0
  }

  /** With the destination checked first the loop can return a path that
      costs more than another: on `Detour` under the zero heuristic, which
      is admissible and consistent with every weight at least zero, the
      first search pushes 2 straight after 0 and accepts it although its
      total of 10 exceeds the threshold 0, while the path through 1 costs 2. */
  lemma DestinationFirstCostlier()
    ensures Valid(Detour().graph) && NonNegativeWeights(Detour()) && Admissible(Detour(), Zero, 2)
    ensures Deepen(Detour(), Zero, 0, 2, DestinationFirst, Zero(0, 2)) == [0, 2]
    ensures Undercut(Detour(), [0, 2], 0, 2)
  {
    DetourValid();
    ZeroAdmissible();
    DetourFound();
    DetourCosts();
    assert IsPathBetween(Detour().graph, [0, 1, 2], 0, 2);
  }

  /** Some path from `s` to `d` costs less than `r`. */
  ghost predicate Undercut<N(!new), E>(pf: AbstractPathfinder<N, E>, r: seq<N>, s: N, d: N) {
    Linked(pf.graph, r) && exists p :: IsPathBetween(pf.graph, p, s, d) && PathCost(pf, p) < PathCost(pf, r)
  }

  lemma DetourValid()
    ensures Valid(Detour().graph) && NonNegativeWeights(Detour())
  {
    DetourAdjacent();
    DetourListed();
    DetourSimple();
    DetourWeights();
  }

  /** The successor lists of `Detour` follow its edges. */
  lemma DetourAdjacent()
    ensures SuccessorsAdjacent(DetourNetwork())
  {
    var g := DetourNetwork();
    assert g.succ.Keys == g.nodes;
    forall u, v | u in g.succ && v in g.succ[u] ensures v in g.nodes && Adjacent(g, u, v) {
      assert u in {0, 1, 2};
      if u == 0 {
        assert g.succ[0] == [2, 1];
        assert v == 2 || v == 1;
      } else if u == 1 {
        assert g.succ[1] == [2];
        assert v == 2;
      }
    }
  }

  lemma DetourListed()
    ensures EdgesListed(DetourNetwork())
  {
  }

  lemma DetourSimple()
    ensures (forall u :: u in DetourNetwork().succ ==> Distinct(DetourNetwork().succ[u]))
    ensures NoParallelEdges(DetourNetwork().edges)
  {
  }

  lemma DetourWeights()
    ensures NonNegativeWeights(Detour())
  {
    forall k | 0 <= k < |Detour().graph.edges| ensures Detour().WeightOf(Detour().graph.edges[k].id) >= 0.0 {
      var e := Detour().graph.edges[k].id;
      assert DetourWeight(e) >= 0.0;
    }
  }

  lemma ZeroAdmissible()
    ensures Admissible(Detour(), Zero, 2)
  {
    DetourValid();
    forall p | IsPath(Detour().graph, p) && p[|p| - 1] == 2 ensures Zero(p[0], 2) <= PathCost(Detour(), p) {
      PathCostNonNegative(Detour(), p);
    }
  }

  /** The first search pushes 2 straight after 0 and finds it. */
  lemma DetourFound()
    ensures Valid(Detour().graph)
    ensures Deepen(Detour(), Zero, 0, 2, DestinationFirst, Zero(0, 2)) == [0, 2]
  {
    var pf := Detour();
    DetourValid();
    SearchStep(pf, Zero, 2, DestinationFirst, [0], 0.0, 0.0);
    var wd := ScanStep(pf, Zero, 2, DestinationFirst, [0], 0.0, 0.0, [2, 1], Inf);
    SearchStep(pf, Zero, 2, DestinationFirst, [0, 2], wd, 0.0);
    assert [0] + [2] == [0, 2];
  }

  /** The path through 1 costs 2 and the edge from 0 to 2 costs 10. */
  lemma DetourCosts()
    ensures IsPathBetween(Detour().graph, [0, 1, 2], 0, 2) && Linked(Detour().graph, [0, 2])
    ensures PathCost(Detour(), [0, 2]) == 10.0 && PathCost(Detour(), [0, 1, 2]) == 2.0
  {
    DirectCost();
    AroundCost();
  }

  lemma DirectCost()
    ensures Linked(Detour().graph, [0, 2]) && PathCost(Detour(), [0, 2]) == 10.0
  {
    EdgeZeroTwo();
    PairCost(Detour(), 0, 2);
  }

  lemma AroundCost()
    ensures IsPathBetween(Detour().graph, [0, 1, 2], 0, 2) && PathCost(Detour(), [0, 1, 2]) == 2.0
  {
    EdgeZeroOne();
    EdgeOneTwo();
    TwoEdgeCost(Detour(), 0, 1, 2);
  }

  lemma TwoEdgeCost<N, E>(pf: AbstractPathfinder<N, E>, u: N, v: N, w: N)
    requires Adjacent(pf.graph, u, v) && Adjacent(pf.graph, v, w)
    ensures Linked(pf.graph, [u, v, w]) && PathCost(pf, [u, v, w]) == pf.Weight(u, v) + pf.Weight(v, w)
  {
    PairCost(pf, u, v);
    PathCostAppended(pf, [u, v], w, [u, v, w]);
  }

  lemma PairCost<N, E>(pf: AbstractPathfinder<N, E>, u: N, v: N)
    requires Adjacent(pf.graph, u, v)
    ensures Linked(pf.graph, [u, v]) && PathCost(pf, [u, v]) == pf.Weight(u, v)
  {
    PathCostAppended(pf, [u], v, [u, v]);
  }

  // One edge of the literal network per lemma keeps each proof small.

  lemma EdgeZeroTwo()
    ensures Adjacent(Detour().graph, 0, 2) && Detour().Weight(0, 2) == 10.0
  {
    DetourEdge(0);
  }

  lemma EdgeZeroOne()
    ensures Adjacent(Detour().graph, 0, 1) && Detour().Weight(0, 1) == 1.0
  {
    DetourEdge(1);
  }

  lemma EdgeOneTwo()
    ensures Adjacent(Detour().graph, 1, 2) && Detour().Weight(1, 2) == 1.0
  {
    DetourEdge(2);
  }

  /** `edgeConnecting` finds edge `k` of `Detour` for its endpoints. */
  lemma DetourEdge(k: nat)
    requires k < 3
    ensures var e := DetourNetwork().edges[k];
            Adjacent(Detour().graph, e.source, e.target) && Detour().Weight(e.source, e.target) == DetourWeight(e.id)
  {
    DetourSimple();
    EdgeIsUnique(DetourNetwork().edges, k);
  }
}
