/** Rebuilding a path from a tree of parent pointers. */
module Pathfinders {

  /** Following parent links from `x` reaches, within `n` steps, a node that
      is its own parent, and every node met on the way has an entry. */
  ghost predicate RootedWithin<N>(parents: map<N, N>, x: N, n: nat)
    decreases n
  {
    x in parents && (parents[x] == x || (n > 0 && RootedWithin(parents, parents[x], n - 1)))
  }

  /** `path` starts at a self-parented root, each later node's parent is its
      predecessor, and no later node is its own parent. */
  ghost predicate ParentPath<N>(parents: map<N, N>, path: seq<N>) {
    && |path| > 0
    && (forall i :: 0 <= i < |path| ==> path[i] in parents)
    && parents[path[0]] == path[0]
    && (forall i :: 0 < i < |path| ==> parents[path[i]] == path[i - 1] && path[i] != path[i - 1])
  }

  function Reversed<T>(s: seq<T>): (r: seq<T>)
    ensures |r| == |s|
    ensures forall i :: 0 <= i < |s| ==> r[i] == s[|s| - 1 - i]
  {
    if |s| == 0 then [] else [s[|s| - 1]] + Reversed(s[..|s| - 1])
  }

  /** The path from the root of `target`'s parent chain to `target`, or the
      empty path when `target` has no parent entry. The loop stops at the first
      node that is its own parent; the chain must reach one. */
  method ReconstructPath<N(==)>(parents: map<N, N>, target: N) returns (path: seq<N>)
    requires target in parents ==> exists n :: RootedWithin(parents, target, n)
    ensures path == [] <==> target !in parents
    ensures path != [] ==> ParentPath(parents, path) && path[|path| - 1] == target
    ensures target in parents && parents[target] == target ==> path == [target]
  {
    if target !in parents {
      return [];
    }
    ghost var n: nat :| RootedWithin(parents, target, n);
    var walk := [target];
    var parent := parents[target];
    while parent != walk[|walk| - 1]
      invariant 1 <= |walk| <= n + 1 && walk[0] == target
      invariant forall i :: 0 <= i < |walk| ==> walk[i] in parents
      invariant forall i :: 0 <= i < |walk| - 1 ==> parents[walk[i]] == walk[i + 1] && walk[i + 1] != walk[i]
      invariant parent == parents[walk[|walk| - 1]]
      invariant parents[target] == target ==> |walk| == 1
      invariant RootedWithin(parents, walk[|walk| - 1], n + 1 - |walk|)
      decreases n + 1 - |walk|
    {
      walk := walk + [parent];
      parent := parents[parent];
    }
    path := Reversed(walk);
    assert |walk| == 1 ==> path == walk;
  }
}
