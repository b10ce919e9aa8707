/** Distance estimates for nodes that are arrays of coordinates. Only the
    first two entries are read, so both arrays need at least two. */
module TwoDimensionalHeuristics {
  import opened Heuristics

  predicate Point(s: seq<real>) {
    |s| >= 2
  }

  function Manhattan2D(s: seq<real>, t: seq<real>): (r: real)
    requires Point(s) && Point(t)
    ensures r >= 0.0
    ensures s[0] == t[0] && s[1] == t[1] ==> r == 0.0
    ensures r >= Abs(t[0] - s[0]) && r >= Abs(t[1] - s[1])
  {
    Abs(t[0] - s[0]) + Abs(t[1] - s[1])
  }

  function Chebyshev2D(s: seq<real>, t: seq<real>): (r: real)
    requires Point(s) && Point(t)
    ensures r >= 0.0
    ensures s[0] == t[0] && s[1] == t[1] ==> r == 0.0
    ensures r == Abs(s[0] - t[0]) || r == Abs(s[1] - t[1])
    ensures r >= Abs(s[0] - t[0]) && r >= Abs(s[1] - t[1])
  {
    var dx := Abs(s[0] - t[0]);
    var dy := Abs(s[1] - t[1]);
    Max(dx, dy)
  }

  function Octile2D(s: seq<real>, t: seq<real>): (r: real)
    requires Point(s) && Point(t)
    ensures r >= 0.0
    ensures s[0] == t[0] && s[1] == t[1] ==> r == 0.0
    ensures Chebyshev2D(s, t) <= r <= Manhattan2D(s, t)
  {
    var dx := Abs(s[0] - t[0]);
    var dy := Abs(s[1] - t[1]);
    Max(dx, dy) + SQRT_2 * Min(dx, dy)
  }

  /** The three estimates are symmetric and read only the first two coordinates. */
  lemma Symmetric2D(s: seq<real>, t: seq<real>)
    requires Point(s) && Point(t)
    ensures Manhattan2D(s, t) == Manhattan2D(t, s)
    ensures Chebyshev2D(s, t) == Chebyshev2D(t, s)
    ensures Octile2D(s, t) == Octile2D(t, s)
    ensures Manhattan2D(s, t) == Manhattan2D(s[..2], t[..2])
    ensures Chebyshev2D(s, t) == Chebyshev2D(s[..2], t[..2])
    ensures Octile2D(s, t) == Octile2D(s[..2], t[..2])
  {
    assert s[..2][0] == s[0] && s[..2][1] == s[1] && t[..2][0] == t[0] && t[..2][1] == t[1];
    assert Abs(t[0] - s[0]) == Abs(s[0] - t[0]);
    assert Abs(t[1] - s[1]) == Abs(s[1] - t[1]);
  }
}
