/** Two-dimensional vector primitives of the tracer (src/Utils/VectorOps.hpp).
    Every `float` of the source is read as a `real`; rounding is not modelled. */
module VectorOps {

  /** An `sf::Vector2f`: a position or a direction in the plane. */
  datatype Vec2 = Vec2(x: real, y: real)

  function Zero(): Vec2 { Vec2(0.0, 0.0) }

  /** The fallback direction `norm` returns for a (near-)zero vector. */
  function UnitX(): Vec2 { Vec2(1.0, 0.0) }

  function Add(a: Vec2, b: Vec2): Vec2 { Vec2(a.x + b.x, a.y + b.y) }

  function Sub(a: Vec2, b: Vec2): Vec2 { Vec2(a.x - b.x, a.y - b.y) }

  function Neg(a: Vec2): Vec2 { Vec2(-a.x, -a.y) }

  function Scale(a: Vec2, k: real): Vec2 { Vec2(a.x * k, a.y * k) }

  function Div(a: Vec2, k: real): Vec2
    requires k != 0.0
  {
    Vec2(a.x / k, a.y / k)
  }

  function Abs(x: real): real { if x < 0.0 then -x else x }

  /** `std::sqrt` is not part of the model: every member that needs it takes the
      square root as a parameter. This is everything the model assumes of it. */
  ghost predicate IsSqrt(sqrt: real -> real) {
    forall x: real :: 0.0 <= x ==> 0.0 <= sqrt(x) && sqrt(x) * sqrt(x) == x
  }

  /** A non-negative number whose square is `x * x` is `|x|`. */
  lemma SquareRootUnique(r: real, x: real)
    requires 0.0 <= r && r * r == x * x
    ensures r == Abs(x)
  {
    var a := Abs(x);
    assert a * a == x * x;
    if r + a != 0.0 {
      var d, k := r - a, r + a;
      assert d * k == r * r - a * a;
      assert d * k == 0.0;
      ZeroFactor(d, k);
    }
  }

  /** A product with a non-zero factor is zero only when the other factor is. */
  lemma ZeroFactor(d: real, k: real)
    requires k != 0.0 && d * k == 0.0
    ensures d == 0.0
  {
  }

  /** `sqrt(x * x) == |x|`, the only fact about `std::sqrt` that refraction needs. */
  lemma SqrtOfSquare(sqrt: real -> real, x: real)
    requires IsSqrt(sqrt)
    ensures sqrt(x * x) == Abs(x)
  {
    assert 0.0 <= x * x;
    SquareRootUnique(sqrt(x * x), x);
  }

  /** dot (VectorOps.hpp:15-17). */
  function Dot(a: Vec2, b: Vec2): real { a.x * b.x + a.y * b.y }

  /** The 2D cross product; `rayLineIntersect` calls it `denom`. */
  function Cross(a: Vec2, b: Vec2): real { a.x * b.y - a.y * b.x }

  lemma DotSymmetric(a: Vec2, b: Vec2)
    ensures Dot(a, b) == Dot(b, a)
  {
  }

  /** `v` has length one: its squared length `Dot(v, v)` is one. */
  predicate IsUnit(v: Vec2) {
    v.x * v.x + v.y * v.y == 1.0
  }

  lemma DotNeg(a: Vec2, b: Vec2)
    ensures Dot(Neg(a), b) == -Dot(a, b)
    ensures Dot(a, Neg(b)) == -Dot(a, b)
  {
  }

  lemma DotSelfNonNegative(v: Vec2)
    ensures 0.0 <= Dot(v, v)
  {
    assert 0.0 <= v.x * v.x && 0.0 <= v.y * v.y;
  }

  /** Cauchy-Schwarz for unit vectors: the cosine of the angle between them. */
  lemma {:induction false} UnitDotBound(a: Vec2, b: Vec2)
    requires IsUnit(a) && IsUnit(b)
    ensures -1.0 <= Dot(a, b) <= 1.0
  {
    // Lagrange's identity: |a|^2 |b|^2 == (a . b)^2 + (a x b)^2.
    var d, c := Dot(a, b), Cross(a, b);
    assert Dot(a, a) * Dot(b, b) == d * d + c * c;
    assert d * d <= 1.0 by { assert 0.0 <= c * c; }
    assert d * d - 1.0 == (d - 1.0) * (d + 1.0);
  }

  /** len (VectorOps.hpp:8): the Euclidean length. */
  function Len(v: Vec2, sqrt: real -> real): (l: real)
    requires IsSqrt(sqrt)
    ensures 0.0 <= l && l * l == Dot(v, v)
  {
    DotSelfNonNegative(v);
    sqrt(v.x * v.x + v.y * v.y)
  }

  /** A length is determined by the squared length it has. */
  lemma LenOfUnit(v: Vec2, sqrt: real -> real)
    requires IsSqrt(sqrt)
    requires IsUnit(v)
    ensures Len(v, sqrt) == 1.0
  {
    var l := Len(v, sqrt);
    assert l * l == 1.0 * 1.0;
    SquareRootUnique(l, 1.0);
  }

  lemma MulPos(a: real, b: real)
    requires 0.0 < a && 0.0 < b
    ensures 0.0 < a * b
  {
  }

  /** A positive factor squared cancels: `s * l^2 == l^2` forces `s == 1`. */
  lemma CancelSquare(s: real, l: real)
    requires 0.0 < l && s * (l * l) == l * l
    ensures s == 1.0
  {
    MulPos(l, l);
    assert (s - 1.0) * (l * l) == 0.0;
  }

  lemma QuotientTimes(a: real, l: real)
    requires l != 0.0
    ensures (a / l) * l == a
  {
  }

  /** The zero vector has length zero. */
  lemma LenZero(sqrt: real -> real)
    requires IsSqrt(sqrt)
    ensures Len(Zero(), sqrt) == 0.0
  {
    var l := Len(Zero(), sqrt);
    assert l * l == 0.0;
    SquareZero(l);
  }

  /** A non-negative number whose square is zero is zero. */
  lemma SquareZero(l: real)
    requires 0.0 <= l && l * l == 0.0
    ensures l == 0.0
  {
    ProductZero(l, l);
  }

  /** Stated for two factors: the solver does not refute `0 < l` next to `l * l == 0`
      when the two factors of the product are the same term. */
  lemma ProductZero(a: real, b: real)
    requires 0.0 <= a <= b && a * b == 0.0
    ensures a == 0.0
  {
    if a > 0.0 {
      MulPos(a, b);
    }
  }

  /** Dividing a vector by its length gives a unit vector pointing the same way. */
  lemma UnitAfterDivision(v: Vec2, l: real)
    requires 0.0 < l && l * l == Dot(v, v)
    ensures IsUnit(Div(v, l))
    ensures Scale(Div(v, l), l) == v
  {
    var u := Div(v, l);
    QuotientTimes(v.x, l);
    QuotientTimes(v.y, l);
    calc {
      Dot(u, u) * (l * l);
      u.x * u.x * (l * l) + u.y * u.y * (l * l);
      (u.x * l) * (u.x * l) + (u.y * l) * (u.y * l);
      v.x * v.x + v.y * v.y;
      l * l;
    }
    CancelSquare(Dot(u, u), l);
  }

  /** norm (VectorOps.hpp:10-13): `v / len(v)`, or `(1,0)` when `len(v) <= 0.001`
      (the test is `l > 0.001`, so the boundary takes the fallback). What the result
      is otherwise is stated by the lemmas below, which keeps the nonlinear facts
      about it out of every context that merely mentions a normalised vector. */
  function Norm(v: Vec2, sqrt: real -> real): (u: Vec2)
    requires IsSqrt(sqrt)
    ensures Len(v, sqrt) <= 0.001 ==> u == UnitX()
  {
    var l := Len(v, sqrt);
    if l > 0.001 then Div(v, l) else UnitX()
  }

  /** The result of `norm` is always a unit vector... */
  lemma NormIsUnit(v: Vec2, sqrt: real -> real)
    requires IsSqrt(sqrt)
    ensures IsUnit(Norm(v, sqrt))
  {
    var l := Len(v, sqrt);
    if l > 0.001 {
      UnitAfterDivision(v, l);
    }
  }

  /** ...and for a long enough `v` it points the way `v` does: scaled back by
      `len(v)` it is `v`. */
  lemma NormAlong(v: Vec2, sqrt: real -> real)
    requires IsSqrt(sqrt)
    ensures Len(v, sqrt) > 0.001 ==> Scale(Norm(v, sqrt), Len(v, sqrt)) == v
  {
    var l := Len(v, sqrt);
    if l > 0.001 {
      UnitAfterDivision(v, l);
    }
  }

  /** Over the reals `norm` always returns a vector of length exactly 1. */
  lemma NormHasUnitLength(v: Vec2, sqrt: real -> real)
    requires IsSqrt(sqrt)
    ensures Len(Norm(v, sqrt), sqrt) == 1.0
  {
    NormIsUnit(v, sqrt);
    LenOfUnit(Norm(v, sqrt), sqrt);
  }

  /** What `rayLineIntersect` returns: its flag, and the final values of its
      reference out-parameters `hit` and `param`. */
  datatype Crossing = Crossing(found: bool, hit: Vec2, param: real)

  /** `denom` of rayLineIntersect: zero exactly when ray and edge are parallel. */
  function Denom(dir: Vec2, p1: Vec2, p2: Vec2): real { Cross(dir, Sub(p2, p1)) }

  /** Cramer's rule for `t` in `origin + t*dir == p1 + s*(p2 - p1)`. */
  function RayParam(origin: Vec2, dir: Vec2, p1: Vec2, p2: Vec2): real
    requires Denom(dir, p1, p2) != 0.0
  {
    var edge, diff := Sub(p2, p1), Sub(origin, p1);
    (diff.y * edge.x - diff.x * edge.y) / Denom(dir, p1, p2)
  }

  /** Cramer's rule for `s` in `origin + t*dir == p1 + s*(p2 - p1)`. */
  function EdgeParam(origin: Vec2, dir: Vec2, p1: Vec2, p2: Vec2): real
    requires Denom(dir, p1, p2) != 0.0
  {
    var diff := Sub(origin, p1);
    (diff.y * dir.x - diff.x * dir.y) / Denom(dir, p1, p2)
  }

  /** The two Cramer parameters solve the system: both parametrisations meet. */
  lemma CramerSolves(origin: Vec2, dir: Vec2, p1: Vec2, p2: Vec2)
    requires Denom(dir, p1, p2) != 0.0
    ensures Add(origin, Scale(dir, RayParam(origin, dir, p1, p2)))
         == Add(p1, Scale(Sub(p2, p1), EdgeParam(origin, dir, p1, p2)))
  {
    var edge, diff, den := Sub(p2, p1), Sub(origin, p1), Denom(dir, p1, p2);
    var t, s := RayParam(origin, dir, p1, p2), EdgeParam(origin, dir, p1, p2);
    var nt, ns := diff.y * edge.x - diff.x * edge.y, diff.y * dir.x - diff.x * dir.y;
    assert t * den == nt && s * den == ns;
    // (t*dir - s*edge) * den == -diff * den, componentwise.
    assert (t * dir.x - s * edge.x) * den == nt * dir.x - ns * edge.x;
    assert nt * dir.x - ns * edge.x == -diff.x * den;
    assert (t * dir.y - s * edge.y) * den == nt * dir.y - ns * edge.y;
    assert nt * dir.y - ns * edge.y == -diff.y * den;
    MulCancel(t * dir.x - s * edge.x, -diff.x, den);
    MulCancel(t * dir.y - s * edge.y, -diff.y, den);
  }

  lemma MulCancel(a: real, b: real, k: real)
    requires k != 0.0 && a * k == b * k
    ensures a == b
  {
    assert (a - b) * k == 0.0;
  }

  /** When the system has a solution, the Cramer parameters are that solution. */
  lemma CramerUnique(origin: Vec2, dir: Vec2, p1: Vec2, p2: Vec2, t: real, s: real)
    requires Denom(dir, p1, p2) != 0.0
    requires Add(origin, Scale(dir, t)) == Add(p1, Scale(Sub(p2, p1), s))
    ensures RayParam(origin, dir, p1, p2) == t
    ensures EdgeParam(origin, dir, p1, p2) == s
  {
    var edge, diff, den := Sub(p2, p1), Sub(origin, p1), Denom(dir, p1, p2);
    assert diff.x == s * edge.x - t * dir.x && diff.y == s * edge.y - t * dir.y;
    assert diff.y * edge.x - diff.x * edge.y == t * den;
    assert diff.y * dir.x - diff.x * dir.y == s * den;
    MulCancel(RayParam(origin, dir, p1, p2), t, den);
    MulCancel(EdgeParam(origin, dir, p1, p2), s, den);
  }

  /** rayLineIntersect (VectorOps.hpp:19-37). `hit` and `param` are the values the
      reference out-parameters hold on entry; they are returned unchanged on a miss. */
  function RayLineIntersect(origin: Vec2, dir: Vec2, p1: Vec2, p2: Vec2, hit: Vec2, param: real): (r: Crossing)
    ensures Abs(Denom(dir, p1, p2)) < 0.001 ==> !r.found
    ensures !r.found ==> r.hit == hit && r.param == param
    ensures r.found ==> 0.0 <= r.param <= 1.0 && r.hit == Add(p1, Scale(Sub(p2, p1), r.param))
    ensures r.found ==> Denom(dir, p1, p2) != 0.0 && RayParam(origin, dir, p1, p2) > 0.01
    ensures r.found ==> r.hit == Add(origin, Scale(dir, RayParam(origin, dir, p1, p2)))
  {
    var denom := Denom(dir, p1, p2);
    if Abs(denom) < 0.001 then
      Crossing(false, hit, param)
    else
      var t := RayParam(origin, dir, p1, p2);
      var s := EdgeParam(origin, dir, p1, p2);
      if t > 0.01 && s >= 0.0 && s <= 1.0 then
        CramerSolves(origin, dir, p1, p2);
        Crossing(true, Add(p1, Scale(Sub(p2, p1), s)), s)
      else
        Crossing(false, hit, param)
  }

  /** The converse: every crossing of the ray (beyond 0.01) with the closed segment
      is reported, unless ray and edge are (near-)parallel. With the ensures of
      RayLineIntersect this makes the flag an if-and-only-if. */
  lemma RayLineIntersectComplete(origin: Vec2, dir: Vec2, p1: Vec2, p2: Vec2, hit: Vec2, param: real, t: real, s: real)
    requires Abs(Denom(dir, p1, p2)) >= 0.001
    requires t > 0.01 && 0.0 <= s <= 1.0
    requires Add(origin, Scale(dir, t)) == Add(p1, Scale(Sub(p2, p1), s))
    ensures RayLineIntersect(origin, dir, p1, p2, hit, param) == Crossing(true, Add(p1, Scale(Sub(p2, p1), s)), s)
  {
    CramerUnique(origin, dir, p1, p2, t, s);
  }
}
