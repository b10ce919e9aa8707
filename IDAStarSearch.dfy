/** The depth-first, threshold-bounded search of IDA*, as a function of the
    path stack it starts from, and what it promises: the stack it leaves,
    the bound on the cost it reports, the finitely many costs it can report,
    and that a search running dry rules out every path. */
module IDAStarSearch {
  import opened Graphs
  import opened Base

  /** The double `idaSearch` returns: the `FOUND` marker (-1.0), the total
      cost of the cheapest branch cut off, or `Double.MAX_VALUE` when no
      branch was cut off. */
  datatype Score = Found | Cost(value: real) | Inf

  /** `a < b` on the doubles the scores stand for, for the scores that are
      compared: `FOUND` is returned before any comparison. */
  predicate Below(a: Score, b: Score) {
    match (a, b)
    case (Cost(x), Cost(y)) => x < y
    case (Cost(_), Inf) => true
    case _ => false
  }

  /** The score a search reports and the stack it leaves behind. */
  datatype Outcome<N> = Outcome(score: Score, stack: seq<N>)

  /** A path stack as the search keeps it: non-empty, with a network node on top. */
  ghost predicate StackOk<N, E>(g: Network<N, E>, path: seq<N>) {
    |path| > 0 && path[|path| - 1] in g.nodes
  }

  /** `q` is `path` followed by further nodes, each joined to the one before
      it by an edge and not already on `q` below it. */
  ghost predicate Extends<N, E>(g: Network<N, E>, path: seq<N>, q: seq<N>)
    decreases |q|
  {
    && 0 < |path| <= |q|
    && (|q| == |path| ==> q == path)
    && (|q| > |path| ==>
          && Extends(g, path, q[..|q| - 1])
          && Adjacent(g, q[|q| - 2], q[|q| - 1])
          && q[|q| - 1] !in q[..|q| - 1])
  }

  /** An extension of the stack pushed with `w`, a successor of the top not
      on the stack, extends the stack. */
  lemma {:induction false} ExtendsBack<N, E>(g: Network<N, E>, path: seq<N>, w: N, q: seq<N>)
    requires |path| > 0 && Adjacent(g, path[|path| - 1], w) && w !in path && Extends(g, path + [w], q)
    ensures Extends(g, path, q)
    decreases |q|
  {
    if |q| == |path| + 1 {
      assert q[..|q| - 1] == path;
    } else {
      ExtendsBack(g, path, w, q[..|q| - 1]);
    }
  }

  /** The first node an extension pushes is a successor of the top not on
      the stack, and the extension extends the stack pushed with it. */
  lemma {:induction false} ExtendsFirst<N, E>(g: Network<N, E>, path: seq<N>, q: seq<N>)
    requires Extends(g, path, q) && |q| > |path|
    ensures q[..|path|] == path
    ensures Adjacent(g, path[|path| - 1], q[|path|]) && q[|path|] !in path
    ensures Extends(g, path + [q[|path|]], q)
    decreases |q|
  {
    var r := q[..|q| - 1];
    if |q| == |path| + 1 {
      assert r == path;
      assert q == path + [q[|path|]];
    } else {
      ExtendsFirst(g, path, r);
      assert r[..|path|] == q[..|path|] && r[|path|] == q[|path|];
      assert q[..|q| - 1] == r;
    }
  }

  /** Over the one-node stack `[s]`, the extensions are the paths from `s`
      without a repeated node. */
  lemma {:induction false} ExtendsSource<N, E>(g: Network<N, E>, s: N, q: seq<N>)
    requires |q| > 0 && q[0] == s
    ensures Extends(g, [s], q) <==> Linked(g, q) && Distinct(q)
    decreases |q|
  {
    var r := q[..|q| - 1];
    if |q| == 1 {
      assert q == [s];
    } else {
      ExtendsSource(g, s, r);
      assert Linked(g, q) <==> Linked(g, r) && Adjacent(g, q[|q| - 2], q[|q| - 1]) by {
        if Linked(g, q) {
          LinkedSlice(g, q, 0, |q| - 1);
          assert r == q[0..|q| - 1];
        }
        if Linked(g, r) && Adjacent(g, q[|q| - 2], q[|q| - 1]) {
          forall k | 0 <= k < |q| - 1 ensures Adjacent(g, q[k], q[k + 1]) {
            if k < |q| - 2 {
              assert q[k] == r[k] && q[k + 1] == r[k + 1];
            }
          }
        }
      }
      assert Distinct(q) <==> Distinct(r) && q[|q| - 1] !in r by {
        if Distinct(q) {
          forall i | 0 <= i < |r| ensures r[i] != q[|q| - 1] {
            assert r[i] == q[i];
          }
        }
        if Distinct(r) && q[|q| - 1] !in r {
          forall i, j | 0 <= i < j < |q| ensures q[i] != q[j] {
            if j < |q| - 1 {
              assert q[i] == r[i] && q[j] == r[j];
            } else {
              assert q[i] == r[i];
            }
          }
        }
      }
    }
  }

  /** The nodes the search can still push. */
  ghost function Room<N, E>(g: Network<N, E>, path: seq<N>): nat {
    |g.nodes - Elems(path)|
  }

  lemma Push<N, E>(g: Network<N, E>, path: seq<N>, w: N)
    requires w in g.nodes && w !in path
    ensures StackOk(g, path + [w]) && Room(g, path + [w]) < Room(g, path)
  {
    var free := g.nodes - Elems(path);
    assert Elems(path + [w]) == Elems(path) + {w};
    assert g.nodes - Elems(path + [w]) == free - {w};
    assert w in free;
    assert |free - {w}| == |free| - 1;
  }

  /** The successors still to be scanned are successors of the top node. */
  ghost predicate Pending<N, E>(g: Network<N, E>, path: seq<N>, rest: seq<N>)
    requires |path| > 0
  {
    path[|path| - 1] in g.succ && forall w :: w in rest ==> w in g.succ[path[|path| - 1]]
  }

  lemma Successor<N, E>(g: Network<N, E>, path: seq<N>, rest: seq<N>)
    requires SuccessorsAdjacent(g) && StackOk(g, path) && |rest| > 0 && Pending(g, path, rest)
    ensures rest[0] in g.nodes && Adjacent(g, path[|path| - 1], rest[0]) && Pending(g, path, rest[1..])
    ensures rest[0] !in path ==> StackOk(g, path + [rest[0]]) && Room(g, path + [rest[0]]) < Room(g, path)
  {
    assert rest[0] in rest;
    SuccessorIsAdjacent(g, path[|path| - 1], rest[0]);
    forall w | w in rest[1..] ensures w in g.succ[path[|path| - 1]] {
      assert w in rest;
    }
    if rest[0] !in path {
      Push(g, path, rest[0]);
    }
  }

  /** Which test `idaSearch` applies first to the top of the stack. The
      Java code tests for the destination first, so a destination is found
      however far its total lies above the threshold; the textbook search
      tests the threshold first. */
  datatype Order = DestinationFirst | ThresholdFirst

  /** `idaSearch(path, d, depth, t)`: the destination on top is found, under
      `ThresholdFirst` only when its total is within the threshold; a top
      whose depth plus heuristic exceeds the threshold is cut off with that
      total; otherwise its successors are scanned. */
  ghost function Search<N, E>(pf: AbstractPathfinder<N, E>, h: (N, N) -> real, d: N, ord: Order,
                              path: seq<N>, depth: real, t: real): Outcome<N>
    requires SuccessorsAdjacent(pf.graph) && StackOk(pf.graph, path)
    decreases Room(pf.graph, path), 1, 0
  {
    var cur := path[|path| - 1];
    if cur == d && (ord == DestinationFirst || depth + h(cur, d) <= t) then Outcome(Found, path)
    else if cur != d && depth + h(cur, d) <= t then Scan(pf, h, d, ord, path, depth, t, pf.graph.succ[cur], Inf)
    else Outcome(Cost(depth + h(cur, d)), path)
  }

  /** The loop over the successors in `rest`: each one not on the stack is
      pushed and searched; a find ends the scan with the stack as the find
      left it; otherwise the least score so far is kept and the successor
      popped again. */
  ghost function Scan<N, E>(pf: AbstractPathfinder<N, E>, h: (N, N) -> real, d: N, ord: Order,
                            path: seq<N>, depth: real, t: real, rest: seq<N>, min: Score): Outcome<N>
    requires SuccessorsAdjacent(pf.graph) && StackOk(pf.graph, path) && Pending(pf.graph, path, rest)
    decreases Room(pf.graph, path), 0, |rest|
  {
    if rest == [] then Outcome(min, path)
    else
      var w := rest[0];
      Successor(pf.graph, path, rest);
      if w in path then Scan(pf, h, d, ord, path, depth, t, rest[1..], min)
      else
        var child := Search(pf, h, d, ord, path + [w], depth + pf.Weight(path[|path| - 1], w), t);
        if child.score == Found then child
        else Scan(pf, h, d, ord, path, depth, t, rest[1..], if Below(child.score, min) then child.score else min)
  }

  /** The three outcomes of one call, as the search loop meets them. */
  lemma SearchStep<N, E>(pf: AbstractPathfinder<N, E>, h: (N, N) -> real, d: N, ord: Order,
                         path: seq<N>, depth: real, t: real)
    requires SuccessorsAdjacent(pf.graph) && StackOk(pf.graph, path)
    ensures path[|path| - 1] in pf.graph.succ && Pending(pf.graph, path, pf.graph.succ[path[|path| - 1]])
    ensures path[|path| - 1] == d && (ord == DestinationFirst || depth + h(d, d) <= t) ==>
              Search(pf, h, d, ord, path, depth, t) == Outcome(Found, path)
    ensures path[|path| - 1] != d && depth + h(path[|path| - 1], d) <= t ==>
              Search(pf, h, d, ord, path, depth, t) == Scan(pf, h, d, ord, path, depth, t, pf.graph.succ[path[|path| - 1]], Inf)
    ensures (path[|path| - 1] != d || ord == ThresholdFirst) && depth + h(path[|path| - 1], d) > t ==>
              Search(pf, h, d, ord, path, depth, t) == Outcome(Cost(depth + h(path[|path| - 1], d)), path)
  {
  }

  /** One turn of the scan: a successor on the stack is skipped; any other is
      searched at the depth `wd` of the edge to it, and ends the scan on a
      find or else updates the least score. */
  lemma ScanStep<N, E>(pf: AbstractPathfinder<N, E>, h: (N, N) -> real, d: N, ord: Order,
                       path: seq<N>, depth: real, t: real, rest: seq<N>, min: Score) returns (wd: real)
    requires SuccessorsAdjacent(pf.graph) && StackOk(pf.graph, path) && |rest| > 0 && Pending(pf.graph, path, rest)
    ensures rest[0] in pf.graph.nodes && Adjacent(pf.graph, path[|path| - 1], rest[0]) && Pending(pf.graph, path, rest[1..])
    ensures wd == depth + pf.Weight(path[|path| - 1], rest[0])
    ensures rest[0] in path ==> Scan(pf, h, d, ord, path, depth, t, rest, min) == Scan(pf, h, d, ord, path, depth, t, rest[1..], min)
    ensures rest[0] !in path ==>
              && StackOk(pf.graph, path + [rest[0]]) && Room(pf.graph, path + [rest[0]]) < Room(pf.graph, path)
              && var child := Search(pf, h, d, ord, path + [rest[0]], wd, t);
                 Scan(pf, h, d, ord, path, depth, t, rest, min)
                 == if child.score == Found then child
                    else Scan(pf, h, d, ord, path, depth, t, rest[1..], if Below(child.score, min) then child.score else min)
  {
    Successor(pf.graph, path, rest);
    wd := depth + pf.Weight(path[|path| - 1], rest[0]);
  }

  /** Every total the search from `path` at `depth` can compute: one per
      stack it can reach, the depth of the stack plus the heuristic at its top. */
  ghost function Totals<N, E>(pf: AbstractPathfinder<N, E>, h: (N, N) -> real, d: N,
                              path: seq<N>, depth: real): set<real>
    requires SuccessorsAdjacent(pf.graph) && StackOk(pf.graph, path)
    decreases Room(pf.graph, path), 1, 0
  {
    var cur := path[|path| - 1];
    {depth + h(cur, d)} + TotalsScan(pf, h, d, path, depth, pf.graph.succ[cur])
  }

  ghost function TotalsScan<N, E>(pf: AbstractPathfinder<N, E>, h: (N, N) -> real, d: N,
                                  path: seq<N>, depth: real, rest: seq<N>): set<real>
    requires SuccessorsAdjacent(pf.graph) && StackOk(pf.graph, path) && Pending(pf.graph, path, rest)
    decreases Room(pf.graph, path), 0, |rest|
  {
    if rest == [] then {}
    else
      var w := rest[0];
      Successor(pf.graph, path, rest);
      TotalsScan(pf, h, d, path, depth, rest[1..])
        + (if w in path then {} else Totals(pf, h, d, path + [w], depth + pf.Weight(path[|path| - 1], w)))
  }

  /** A search that does not find the destination leaves the stack as it was. */
  lemma {:induction false} SearchKeeps<N, E>(pf: AbstractPathfinder<N, E>, h: (N, N) -> real, d: N, ord: Order,
                                             path: seq<N>, depth: real, t: real)
    requires SuccessorsAdjacent(pf.graph) && StackOk(pf.graph, path)
    ensures Search(pf, h, d, ord, path, depth, t).score != Found ==> Search(pf, h, d, ord, path, depth, t).stack == path
    decreases Room(pf.graph, path), 1, 0
  {
    var cur := path[|path| - 1];
    if cur != d && depth + h(cur, d) <= t {
      ScanKeeps(pf, h, d, ord, path, depth, t, pf.graph.succ[cur], Inf);
    }
  }

  lemma {:induction false} ScanKeeps<N, E>(pf: AbstractPathfinder<N, E>, h: (N, N) -> real, d: N, ord: Order,
                                           path: seq<N>, depth: real, t: real, rest: seq<N>, min: Score)
    requires SuccessorsAdjacent(pf.graph) && StackOk(pf.graph, path) && Pending(pf.graph, path, rest)
    ensures Scan(pf, h, d, ord, path, depth, t, rest, min).score != Found ==> Scan(pf, h, d, ord, path, depth, t, rest, min).stack == path
    decreases Room(pf.graph, path), 0, |rest|
  {
    if rest != [] {
      var w := rest[0];
      Successor(pf.graph, path, rest);
      if w in path {
        ScanKeeps(pf, h, d, ord, path, depth, t, rest[1..], min);
      } else {
        var wd := depth + pf.Weight(path[|path| - 1], w);
        var child := Search(pf, h, d, ord, path + [w], wd, t);
        if child.score != Found {
          var next := if Below(child.score, min) then child.score else min;
          assert Scan(pf, h, d, ord, path, depth, t, rest, min) == Scan(pf, h, d, ord, path, depth, t, rest[1..], next);
          ScanKeeps(pf, h, d, ord, path, depth, t, rest[1..], next);
        }
      }
    }
  }

  /** A search that finds the destination leaves on the stack an extension
      of the old stack. */
  lemma {:induction false} SearchFinds<N, E>(pf: AbstractPathfinder<N, E>, h: (N, N) -> real, d: N, ord: Order,
                                             path: seq<N>, depth: real, t: real)
    requires SuccessorsAdjacent(pf.graph) && StackOk(pf.graph, path)
    ensures var o := Search(pf, h, d, ord, path, depth, t);
            o.score == Found ==> Extends(pf.graph, path, o.stack)
    decreases Room(pf.graph, path), 1, 0
  {
    var cur := path[|path| - 1];
    if cur != d && depth + h(cur, d) <= t {
      ScanFinds(pf, h, d, ord, path, depth, t, pf.graph.succ[cur], Inf);
    }
  }

  lemma {:induction false} ScanFinds<N, E>(pf: AbstractPathfinder<N, E>, h: (N, N) -> real, d: N, ord: Order,
                                           path: seq<N>, depth: real, t: real, rest: seq<N>, min: Score)
    requires SuccessorsAdjacent(pf.graph) && StackOk(pf.graph, path) && Pending(pf.graph, path, rest) && min != Found
    ensures var o := Scan(pf, h, d, ord, path, depth, t, rest, min);
            o.score == Found ==> Extends(pf.graph, path, o.stack)
    decreases Room(pf.graph, path), 0, |rest|
  {
    if rest == [] {
      assert Scan(pf, h, d, ord, path, depth, t, rest, min).score == min;
    } else {
      var w := rest[0];
      var wd := ScanStep(pf, h, d, ord, path, depth, t, rest, min);
      if w in path {
        ScanFinds(pf, h, d, ord, path, depth, t, rest[1..], min);
      } else {
        var child := Search(pf, h, d, ord, path + [w], wd, t);
        if child.score == Found {
          SearchFinds(pf, h, d, ord, path + [w], wd, t);
          ExtendsBack(pf.graph, path, w, child.stack);
        } else {
          var next := if Below(child.score, min) then child.score else min;
          ScanFinds(pf, h, d, ord, path, depth, t, rest[1..], next);
        }
      }
    }
  }

  /** A search that finds the destination leaves it on top of the stack. */
  lemma {:induction false} SearchEnds<N, E>(pf: AbstractPathfinder<N, E>, h: (N, N) -> real, d: N, ord: Order,
                                             path: seq<N>, depth: real, t: real)
    requires SuccessorsAdjacent(pf.graph) && StackOk(pf.graph, path)
    ensures var o := Search(pf, h, d, ord, path, depth, t);
            o.score == Found ==> |o.stack| > 0 && o.stack[|o.stack| - 1] == d
    decreases Room(pf.graph, path), 1, 0
  {
    var cur := path[|path| - 1];
    if cur != d && depth + h(cur, d) <= t {
      ScanEnds(pf, h, d, ord, path, depth, t, pf.graph.succ[cur], Inf);
    }
  }

  lemma {:induction false} ScanEnds<N, E>(pf: AbstractPathfinder<N, E>, h: (N, N) -> real, d: N, ord: Order,
                                           path: seq<N>, depth: real, t: real, rest: seq<N>, min: Score)
    requires SuccessorsAdjacent(pf.graph) && StackOk(pf.graph, path) && Pending(pf.graph, path, rest) && min != Found
    ensures var o := Scan(pf, h, d, ord, path, depth, t, rest, min);
            o.score == Found ==> |o.stack| > 0 && o.stack[|o.stack| - 1] == d
    decreases Room(pf.graph, path), 0, |rest|
  {
    if rest == [] {
      assert Scan(pf, h, d, ord, path, depth, t, rest, min).score == min;
    } else {
      var w := rest[0];
      var wd := ScanStep(pf, h, d, ord, path, depth, t, rest, min);
      if w in path {
        ScanEnds(pf, h, d, ord, path, depth, t, rest[1..], min);
      } else {
        var child := Search(pf, h, d, ord, path + [w], wd, t);
        if child.score == Found {
          SearchEnds(pf, h, d, ord, path + [w], wd, t);
        } else {
          var next := if Below(child.score, min) then child.score else min;
          ScanEnds(pf, h, d, ord, path, depth, t, rest[1..], next);
        }
      }
    }
  }

  /** A score other than `FOUND` is above the threshold: a cut-off total
      exceeds it, and so does the least of the children's scores. */
  lemma {:induction false} SearchAbove<N, E>(pf: AbstractPathfinder<N, E>, h: (N, N) -> real, d: N, ord: Order,
                                             path: seq<N>, depth: real, t: real)
    requires SuccessorsAdjacent(pf.graph) && StackOk(pf.graph, path)
    ensures Search(pf, h, d, ord, path, depth, t).score.Cost? ==> Search(pf, h, d, ord, path, depth, t).score.value > t
    decreases Room(pf.graph, path), 1, 0
  {
    var cur := path[|path| - 1];
    if cur != d && depth + h(cur, d) <= t {
      ScanAbove(pf, h, d, ord, path, depth, t, pf.graph.succ[cur], Inf);
    }
  }

  lemma {:induction false} ScanAbove<N, E>(pf: AbstractPathfinder<N, E>, h: (N, N) -> real, d: N, ord: Order,
                                           path: seq<N>, depth: real, t: real, rest: seq<N>, min: Score)
    requires SuccessorsAdjacent(pf.graph) && StackOk(pf.graph, path) && Pending(pf.graph, path, rest)
    requires min.Cost? ==> min.value > t
    ensures Scan(pf, h, d, ord, path, depth, t, rest, min).score.Cost? ==> Scan(pf, h, d, ord, path, depth, t, rest, min).score.value > t
    decreases Room(pf.graph, path), 0, |rest|
  {
    if rest != [] {
      var w := rest[0];
      Successor(pf.graph, path, rest);
      if w in path {
        ScanAbove(pf, h, d, ord, path, depth, t, rest[1..], min);
      } else {
        var child := Search(pf, h, d, ord, path + [w], depth + pf.Weight(path[|path| - 1], w), t);
        SearchAbove(pf, h, d, ord, path + [w], depth + pf.Weight(path[|path| - 1], w), t);
        if child.score != Found {
          ScanAbove(pf, h, d, ord, path, depth, t, rest[1..], if Below(child.score, min) then child.score else min);
        }
      }
    }
  }

  /** A reported cost is one of the totals of the search. */
  lemma {:induction false} SearchTotal<N, E>(pf: AbstractPathfinder<N, E>, h: (N, N) -> real, d: N, ord: Order,
                                             path: seq<N>, depth: real, t: real)
    requires SuccessorsAdjacent(pf.graph) && StackOk(pf.graph, path)
    ensures Search(pf, h, d, ord, path, depth, t).score.Cost? ==>
              Search(pf, h, d, ord, path, depth, t).score.value in Totals(pf, h, d, path, depth)
    decreases Room(pf.graph, path), 1, 0
  {
    var cur := path[|path| - 1];
    if cur != d && depth + h(cur, d) <= t {
      ScanTotal(pf, h, d, ord, path, depth, t, pf.graph.succ[cur], Inf);
    }
  }

  lemma {:induction false} ScanTotal<N, E>(pf: AbstractPathfinder<N, E>, h: (N, N) -> real, d: N, ord: Order,
                                           path: seq<N>, depth: real, t: real, rest: seq<N>, min: Score)
    requires SuccessorsAdjacent(pf.graph) && StackOk(pf.graph, path) && Pending(pf.graph, path, rest)
    ensures var s := Scan(pf, h, d, ord, path, depth, t, rest, min).score;
            s.Cost? ==> s == min || s.value in TotalsScan(pf, h, d, path, depth, rest)
    decreases Room(pf.graph, path), 0, |rest|
  {
    if rest != [] {
      var w := rest[0];
      Successor(pf.graph, path, rest);
      if w in path {
        ScanTotal(pf, h, d, ord, path, depth, t, rest[1..], min);
      } else {
        var wd := depth + pf.Weight(path[|path| - 1], w);
        var child := Search(pf, h, d, ord, path + [w], wd, t);
        SearchTotal(pf, h, d, ord, path + [w], wd, t);
        if child.score != Found {
          ScanTotal(pf, h, d, ord, path, depth, t, rest[1..], if Below(child.score, min) then child.score else min);
        }
      }
    }
  }

  /** A scan that starts from a cost reports a cost. */
  lemma {:induction false} ScanKeepsCost<N, E>(pf: AbstractPathfinder<N, E>, h: (N, N) -> real, d: N, ord: Order,
                                               path: seq<N>, depth: real, t: real, rest: seq<N>, min: Score)
    requires SuccessorsAdjacent(pf.graph) && StackOk(pf.graph, path) && Pending(pf.graph, path, rest)
    requires min.Cost?
    ensures Scan(pf, h, d, ord, path, depth, t, rest, min).score != Inf
    decreases |rest|
  {
    if rest != [] {
      var w := rest[0];
      Successor(pf.graph, path, rest);
      if w in path {
        ScanKeepsCost(pf, h, d, ord, path, depth, t, rest[1..], min);
      } else {
        var child := Search(pf, h, d, ord, path + [w], depth + pf.Weight(path[|path| - 1], w), t);
        if child.score != Found {
          ScanKeepsCost(pf, h, d, ord, path, depth, t, rest[1..], if Below(child.score, min) then child.score else min);
        }
      }
    }
  }

  /** A scan reporting `MAX_VALUE` searched every successor off the stack in
      `rest` and each of those searches reported `MAX_VALUE`. */
  lemma {:induction false} ScanInf<N, E>(pf: AbstractPathfinder<N, E>, h: (N, N) -> real, d: N, ord: Order,
                                         path: seq<N>, depth: real, t: real, rest: seq<N>, min: Score, w: N)
    requires SuccessorsAdjacent(pf.graph) && StackOk(pf.graph, path) && Pending(pf.graph, path, rest)
    requires min != Found && Scan(pf, h, d, ord, path, depth, t, rest, min).score == Inf
    requires w in rest && w !in path && Adjacent(pf.graph, path[|path| - 1], w) && w in pf.graph.nodes
    ensures StackOk(pf.graph, path + [w])
    ensures Search(pf, h, d, ord, path + [w], depth + pf.Weight(path[|path| - 1], w), t).score == Inf
    decreases |rest|
  {
    Push(pf.graph, path, w);
    var v := rest[0];
    var vd := ScanStep(pf, h, d, ord, path, depth, t, rest, min);
    if v in path {
      assert w in rest[1..];
      ScanInf(pf, h, d, ord, path, depth, t, rest[1..], min, w);
    } else {
      var child := Search(pf, h, d, ord, path + [v], vd, t);
      var next := if Below(child.score, min) then child.score else min;
      if next.Cost? {
        ScanKeepsCost(pf, h, d, ord, path, depth, t, rest[1..], next);
        assert false;
      }
      if v != w {
        assert w in rest[1..];
        ScanInf(pf, h, d, ord, path, depth, t, rest[1..], next, w);
      }
    }
  }

  /** The least score so far never rises during a scan that finds nothing. */
  lemma {:induction false} ScanAtMost<N, E>(pf: AbstractPathfinder<N, E>, h: (N, N) -> real, d: N, ord: Order,
                                            path: seq<N>, depth: real, t: real, rest: seq<N>, min: Score)
    requires SuccessorsAdjacent(pf.graph) && StackOk(pf.graph, path) && Pending(pf.graph, path, rest)
    requires min != Found && Scan(pf, h, d, ord, path, depth, t, rest, min).score != Found
    ensures !Below(min, Scan(pf, h, d, ord, path, depth, t, rest, min).score)
    decreases |rest|
  {
    if rest != [] {
      var v := rest[0];
      var vd := ScanStep(pf, h, d, ord, path, depth, t, rest, min);
      if v in path {
        ScanAtMost(pf, h, d, ord, path, depth, t, rest[1..], min);
      } else {
        var child := Search(pf, h, d, ord, path + [v], vd, t);
        var next := if Below(child.score, min) then child.score else min;
        ScanAtMost(pf, h, d, ord, path, depth, t, rest[1..], next);
      }
    }
  }

  /** A scan that finds nothing reports a score no greater than that of any
      successor off the stack in `rest`: the least of their scores. */
  lemma {:induction false} ScanLeast<N, E>(pf: AbstractPathfinder<N, E>, h: (N, N) -> real, d: N, ord: Order,
                                           path: seq<N>, depth: real, t: real, rest: seq<N>, min: Score, w: N)
    requires SuccessorsAdjacent(pf.graph) && StackOk(pf.graph, path) && Pending(pf.graph, path, rest)
    requires min != Found && Scan(pf, h, d, ord, path, depth, t, rest, min).score != Found
    requires w in rest && w !in path && Adjacent(pf.graph, path[|path| - 1], w) && w in pf.graph.nodes
    ensures StackOk(pf.graph, path + [w])
    ensures var child := Search(pf, h, d, ord, path + [w], depth + pf.Weight(path[|path| - 1], w), t).score;
            child != Found && !Below(child, Scan(pf, h, d, ord, path, depth, t, rest, min).score)
    decreases |rest|
  {
    Push(pf.graph, path, w);
    var v := rest[0];
    var vd := ScanStep(pf, h, d, ord, path, depth, t, rest, min);
    if v in path {
      assert w in rest[1..];
      ScanLeast(pf, h, d, ord, path, depth, t, rest[1..], min, w);
    } else {
      var child := Search(pf, h, d, ord, path + [v], vd, t);
      var next := if Below(child.score, min) then child.score else min;
      if v != w {
        assert w in rest[1..];
        ScanLeast(pf, h, d, ord, path, depth, t, rest[1..], next, w);
      } else {
        ScanAtMost(pf, h, d, ord, path, depth, t, rest[1..], next);
      }
    }
  }

  /** A search that expands its top and finds nothing reports the least
      score of the searches from the successors off the stack, and
      `MAX_VALUE` when there are none. */
  lemma SearchLeast<N, E>(pf: AbstractPathfinder<N, E>, h: (N, N) -> real, d: N, ord: Order,
                          path: seq<N>, depth: real, t: real, w: N)
    requires SuccessorsAdjacent(pf.graph) && StackOk(pf.graph, path)
    requires path[|path| - 1] != d && depth + h(path[|path| - 1], d) <= t
    requires Search(pf, h, d, ord, path, depth, t).score != Found
    requires path[|path| - 1] in pf.graph.succ && w in pf.graph.succ[path[|path| - 1]] && w !in path
    ensures Adjacent(pf.graph, path[|path| - 1], w) && StackOk(pf.graph, path + [w])
    ensures var child := Search(pf, h, d, ord, path + [w], depth + pf.Weight(path[|path| - 1], w), t).score;
            child != Found && !Below(child, Search(pf, h, d, ord, path, depth, t).score)
  {
    SuccessorIsAdjacent(pf.graph, path[|path| - 1], w);
    SearchStep(pf, h, d, ord, path, depth, t);
    ScanLeast(pf, h, d, ord, path, depth, t, pf.graph.succ[path[|path| - 1]], Inf, w);
  }

  /** A search reporting `MAX_VALUE` never reached the destination: no
      extension of the stack without repeated nodes ends there. */
  lemma {:induction false} SearchInf<N, E>(pf: AbstractPathfinder<N, E>, h: (N, N) -> real, d: N, ord: Order,
                                           path: seq<N>, depth: real, t: real, q: seq<N>)
    requires SuccessorsAdjacent(pf.graph) && EdgesListed(pf.graph) && StackOk(pf.graph, path)
    requires Search(pf, h, d, ord, path, depth, t).score == Inf
    requires Extends(pf.graph, path, q)
    ensures q[|q| - 1] != d
    decreases Room(pf.graph, path)
  {
    if |q| > |path| {
      var w := q[|path|];
      ExtendsFirst(pf.graph, path, q);
      var wd := InfChild(pf, h, d, ord, path, depth, t, w);
      SearchInf(pf, h, d, ord, path + [w], wd, t, q);
    }
  }

  /** Below a search reporting `MAX_VALUE`, the search from each successor
      not on the stack reports `MAX_VALUE` too. */
  lemma InfChild<N, E>(pf: AbstractPathfinder<N, E>, h: (N, N) -> real, d: N, ord: Order,
                       path: seq<N>, depth: real, t: real, w: N) returns (wd: real)
    requires SuccessorsAdjacent(pf.graph) && EdgesListed(pf.graph) && StackOk(pf.graph, path)
    requires Search(pf, h, d, ord, path, depth, t).score == Inf
    requires Adjacent(pf.graph, path[|path| - 1], w) && w !in path
    ensures StackOk(pf.graph, path + [w]) && Room(pf.graph, path + [w]) < Room(pf.graph, path)
    ensures wd == depth + pf.Weight(path[|path| - 1], w)
    ensures Search(pf, h, d, ord, path + [w], wd, t).score == Inf
  {
    wd := depth + pf.Weight(path[|path| - 1], w);
    var cur := path[|path| - 1];
    AdjacentIsSuccessor(pf.graph, cur, w);
    ScanInf(pf, h, d, ord, path, depth, t, pf.graph.succ[cur], Inf, w);
    Push(pf.graph, path, w);
  }
}
