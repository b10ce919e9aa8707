/** Distance estimates between nodes whose coordinates are read through two
    accessor functions. Each Java method returns a lambda; here the lambda's
    body is a function of the accessors and the two nodes, and the method is
    a function returning that lambda. */
module Heuristics {

  /** The constant the Java code names SQRT_2; its value is sqrt(2) - 1. */
  const SQRT_2: real := 0.41421356237

  function Abs(r: real): real {
    if r < 0.0 then -r else r
  }

  function Min(a: real, b: real): real {
    if a <= b then a else b
  }

  function Max(a: real, b: real): real {
    if a >= b then a else b
  }

  function Manhattan<N>(x: N -> real, y: N -> real, a: N, b: N): (r: real)
    ensures r >= 0.0
    ensures x(a) == x(b) && y(a) == y(b) ==> r == 0.0
    ensures r >= Abs(x(b) - x(a)) && r >= Abs(y(b) - y(a))
  {
    Abs(x(b) - x(a)) + Abs(y(b) - y(a))
  }

  function Chebyshev<N>(x: N -> real, y: N -> real, a: N, b: N): (r: real)
    ensures r >= 0.0
    ensures x(a) == x(b) && y(a) == y(b) ==> r == 0.0
    ensures r <= Manhattan(x, y, a, b)
    ensures r == Abs(x(b) - x(a)) || r == Abs(y(b) - y(a))
    ensures r >= Abs(x(b) - x(a)) && r >= Abs(y(b) - y(a))
  {
    var dx := Abs(x(b) - x(a));
    var dy := Abs(y(b) - y(a));
    Max(dx, dy)
  }

  /** The octile distance exactly as the Java code computes it:
      SQRT_2 * min(dx, dy) + |dx - dy|, which equals
      max(dx, dy) - (1 - SQRT_2) * min(dx, dy). */
  function OctileAsWritten<N>(x: N -> real, y: N -> real, a: N, b: N): (r: real)
    ensures r >= 0.0
    ensures r <= Chebyshev(x, y, a, b)
    ensures x(a) == x(b) && y(a) == y(b) ==> r == 0.0
  {
    var dx := Abs(x(b) - x(a));
    var dy := Abs(y(b) - y(a));
    SQRT_2 * Min(dx, dy) + Abs(dx - dy)
  }

  /** The standard octile distance, as `TwoDimensionalHeuristics.octileDistance`
      computes it: a diagonal step costs SQRT_2 + 1 and a straight one 1, so
      max(dx, dy) + SQRT_2 * min(dx, dy). */
  function Octile<N>(x: N -> real, y: N -> real, a: N, b: N): (r: real)
    ensures Chebyshev(x, y, a, b) <= r <= Manhattan(x, y, a, b)
    ensures x(a) == x(b) && y(a) == y(b) ==> r == 0.0
  {
    var dx := Abs(x(b) - x(a));
    var dy := Abs(y(b) - y(a));
    Max(dx, dy) + SQRT_2 * Min(dx, dy)
  }

  /** On a pure diagonal move the octile distance as written falls below the
      Chebyshev distance, while the intended one lies above it. */
  lemma OctileAsWrittenDiffers<N>(x: N -> real, y: N -> real, a: N, b: N)
    requires Abs(x(b) - x(a)) == Abs(y(b) - y(a)) > 0.0
    ensures OctileAsWritten(x, y, a, b) < Chebyshev(x, y, a, b) < Octile(x, y, a, b)
  {
  }

  /** All the distances are symmetric in their two nodes. */
  lemma Symmetric<N>(x: N -> real, y: N -> real, a: N, b: N)
    ensures Manhattan(x, y, a, b) == Manhattan(x, y, b, a)
    ensures Chebyshev(x, y, a, b) == Chebyshev(x, y, b, a)
    ensures OctileAsWritten(x, y, a, b) == OctileAsWritten(x, y, b, a)
    ensures Octile(x, y, a, b) == Octile(x, y, b, a)
  {
    assert Abs(x(b) - x(a)) == Abs(x(a) - x(b));
    assert Abs(y(b) - y(a)) == Abs(y(a) - y(b));
  }

  /** `manhattanDistance`: the lambda the Java method returns. */
  function ManhattanDistance<N(!new)>(x: N -> real, y: N -> real): (r: (N, N) -> real)
    ensures forall a, b :: r(a, b) == Manhattan(x, y, a, b) && r(a, b) >= 0.0
  {
    (a, b) => Manhattan(x, y, a, b)
  }

  /** `octileDistance`, computing the formula as written, which never
      exceeds the Chebyshev distance. */
  function OctileDistance<N(!new)>(x: N -> real, y: N -> real): (r: (N, N) -> real)
    ensures forall a, b :: r(a, b) == OctileAsWritten(x, y, a, b) && 0.0 <= r(a, b) <= Chebyshev(x, y, a, b)
  {
    (a, b) => OctileAsWritten(x, y, a, b)
  }

  /** `octileDistance` with the corrected formula: never below the
      Chebyshev distance, never above the Manhattan distance. */
  function OctileDistanceCorrected<N(!new)>(x: N -> real, y: N -> real): (r: (N, N) -> real)
    ensures forall a, b :: r(a, b) == Octile(x, y, a, b) && Chebyshev(x, y, a, b) <= r(a, b) <= Manhattan(x, y, a, b)
  {
    (a, b) => Octile(x, y, a, b)
  }

  /** `chebyshevDistance`: the lambda the Java method returns. */
  function ChebyshevDistance<N(!new)>(x: N -> real, y: N -> real): (r: (N, N) -> real)
    ensures forall a, b :: r(a, b) == Chebyshev(x, y, a, b) && 0.0 <= r(a, b) <= Manhattan(x, y, a, b)
  {
    (a, b) => Chebyshev(x, y, a, b)
  }
}
