// Distances of the weighted Floyd-Warshall files: an integer, or the INF
// sentinel (`math.inf` in the source) that absorbs addition and is larger
// than every integer.

module ExtInt {

  datatype Dist = Fin(v: int) | Inf

  /** `x + y`, with INF absorbing. */
  function Add(x: Dist, y: Dist): Dist
  {
    if x.Fin? && y.Fin? then Fin(x.v + y.v) else Inf
  }

  /** `x <= y`, with INF above every integer. */
  predicate Le(x: Dist, y: Dist)
  {
    y.Inf? || (x.Fin? && x.v <= y.v)
  }

  /** `x < y`, with INF above every integer (and not below itself). */
  predicate Less(x: Dist, y: Dist)
  {
    x.Fin? && (y.Inf? || x.v < y.v)
  }

  /** Python's `min(x, y)`: the first argument unless the second is strictly smaller. */
  function Min(x: Dist, y: Dist): Dist
  {
    if Less(y, x) then y else x
  }

  /** `x < 0`; INF is not negative. */
  predicate IsNegative(x: Dist)
  {
    x.Fin? && x.v < 0
  }

  lemma LeTrans(x: Dist, y: Dist, z: Dist)
    requires Le(x, y) && Le(y, z)
    ensures Le(x, z)
  {
  }

  lemma MinIsGlb(x: Dist, y: Dist)
    ensures Le(Min(x, y), x) && Le(Min(x, y), y)
    ensures Min(x, y) == x || Min(x, y) == y
  {
  }

  lemma AddMono(a: Dist, b: Dist, c: Dist, d: Dist)
    requires Le(a, c) && Le(b, d)
    ensures Le(Add(a, b), Add(c, d))
  {
  }

  lemma MinMono(a: Dist, b: Dist, c: Dist, d: Dist)
    requires Le(a, c) && Le(b, d)
    ensures Le(Min(a, b), Min(c, d))
  {
  }
}
