/** Optics of the tracer (src/Utils/Physics.hpp): the Cauchy dispersion law and
    vector refraction by Snell's law. */
module Physics {
  import opened VectorOps

  /** getN (Physics.hpp:5-8): the refractive index of the glass at wavelength `wl`
      nanometres, by Cauchy's law with the wavelength taken in micrometres. */
  function GetN(wl: real): (n: real)
    requires wl != 0.0
    ensures n > 1.5046
  {
    var l := wl / 1000.0;
    assert l * l > 0.0 by {
      if l < 0.0 {
        MulPos(-l, -l);
      } else {
        MulPos(l, l);
      }
    }
    1.5046 + 0.012 / (l * l)
  }

  /** The same law with the wavelength kept in nanometres. */
  lemma GetNClosedForm(wl: real)
    requires wl != 0.0
    ensures GetN(wl) == 1.5046 + 12000.0 / (wl * wl)
  {
    var l := wl / 1000.0;
    assert l * 1000.0 == wl;
    calc {
      l * l * 1000000.0;
      (l * 1000.0) * (l * 1000.0);
      wl * wl;
    }
    assert 0.012 / (l * l) == 12000.0 / (wl * wl) by {
      QuotientScaled(0.012, l * l, 1000000.0);
    }
  }

  /** `c / d` does not change when both are scaled by the same `k > 0`. */
  lemma QuotientScaled(c: real, d: real, k: real)
    requires d != 0.0 && 0.0 < k
    ensures c / d == (c * k) / (d * k)
  {
  }

  lemma MulStrict(k: real, a: real, b: real)
    requires 0.0 < k && a < b
    ensures k * a < k * b
  {
    MulPos(k, b - a);
  }

  /** The dispersion term `0.012 / l^2` shrinks as `l` grows. */
  lemma DispersionAntitone(l1: real, l2: real)
    requires 0.0 < l1 < l2
    ensures 0.012 / (l2 * l2) < 0.012 / (l1 * l1)
  {
    MulPos(l1, l1);
    MulStrict(l1, l1, l2);
    MulStrict(l2, l1, l2);
  }

  /** Cauchy dispersion: the index strictly decreases as the wavelength grows, which
      is what fans white light out into a spectrum. */
  lemma GetNDecreasing(wl1: real, wl2: real)
    requires 0.0 < wl1 < wl2
    ensures GetN(wl1) > GetN(wl2)
  {
    DispersionAntitone(wl1 / 1000.0, wl2 / 1000.0);
  }

  /** `cosI` of refractDir. */
  function CosI(incident: Vec2, normal: Vec2): real { -Dot(incident, normal) }

  /** `ratio` of refractDir. */
  function Ratio(n1: real, n2: real): real
    requires n2 != 0.0
  {
    n1 / n2
  }

  /** `sinT2` of refractDir: the squared sine of the refraction angle. */
  function SinT2(incident: Vec2, normal: Vec2, n1: real, n2: real): real
    requires n2 != 0.0
  {
    var cosI, ratio := CosI(incident, normal), Ratio(n1, n2);
    ratio * ratio * (1.0 - cosI * cosI)
  }

  /** Total internal reflection: Snell's law has no real refraction angle. */
  predicate IsTir(incident: Vec2, normal: Vec2, n1: real, n2: real)
    requires n2 != 0.0
  {
    SinT2(incident, normal, n1, n2) > 1.0
  }

  /** `cosT` of refractDir, the cosine of the refraction angle, when there is one. */
  function CosT(incident: Vec2, normal: Vec2, n1: real, n2: real, sqrt: real -> real): real
    requires n2 != 0.0
  {
    sqrt(1.0 - SinT2(incident, normal, n1, n2))
  }

  /** refractDir (Physics.hpp:10-19). `normal` points against the incident ray. On
      total internal reflection the result is the zero vector, the sentinel the tracer
      tests for; otherwise the tangential part of the direction scales by `n1/n2`
      (Snell's law) and, for a unit normal, the normal part is `-cosT`, so the ray
      passes through the surface. */
  function RefractDir(incident: Vec2, normal: Vec2, n1: real, n2: real, sqrt: real -> real): (r: Vec2)
    requires n2 != 0.0 && IsSqrt(sqrt)
    ensures IsTir(incident, normal, n1, n2) ==> r == Zero()
    ensures !IsTir(incident, normal, n1, n2) ==>
              Cross(normal, r) == Ratio(n1, n2) * Cross(normal, incident)
    ensures !IsTir(incident, normal, n1, n2) && IsUnit(normal) ==>
              Dot(r, normal) == -CosT(incident, normal, n1, n2, sqrt) <= 0.0
  {
    var cosI := CosI(incident, normal);
    var ratio := Ratio(n1, n2);
    if IsTir(incident, normal, n1, n2) then
      Zero()
    else
      var cosT := CosT(incident, normal, n1, n2, sqrt);
      var r := Add(Scale(incident, ratio), Scale(normal, ratio * cosI - cosT));
      SnellTangent(incident, normal, ratio, ratio * cosI - cosT);
      NormalComponent(incident, normal, ratio, cosT);
      r
  }

  /** Adding a multiple of `n` leaves the cross product with `n` unchanged. */
  lemma SnellTangent(i: Vec2, n: Vec2, ratio: real, k: real)
    ensures Cross(n, Add(Scale(i, ratio), Scale(n, k))) == ratio * Cross(n, i)
  {
  }

  /** Against a unit normal `n`, the refracted direction has normal part `-cosT`. */
  lemma NormalComponent(i: Vec2, n: Vec2, ratio: real, cosT: real)
    ensures IsUnit(n) ==>
              Dot(Add(Scale(i, ratio), Scale(n, ratio * -Dot(i, n) - cosT)), n) == -cosT
  {
    var k := ratio * -Dot(i, n) - cosT;
    if IsUnit(n) {
      calc {
        Dot(Add(Scale(i, ratio), Scale(n, k)), n);
        (i.x * ratio + n.x * k) * n.x + (i.y * ratio + n.y * k) * n.y;
        ratio * Dot(i, n) + k * Dot(n, n);
        ratio * Dot(i, n) + k;
        -cosT;
      }
    }
  }

  /** Light entering a medium at least as dense (`0 < n1 <= n2`) is never totally
      reflected, whatever the angle of incidence. */
  lemma NoTirIntoDenser(incident: Vec2, normal: Vec2, n1: real, n2: real)
    requires 0.0 < n1 <= n2
    requires -1.0 <= CosI(incident, normal) <= 1.0
    ensures !IsTir(incident, normal, n1, n2)
  {
    var cosI, ratio := CosI(incident, normal), Ratio(n1, n2);
    QuotientAtMostOne(n1, n2);
    var c2 := 1.0 - cosI * cosI;
    assert 0.0 <= c2 <= 1.0 by {
      if cosI < 0.0 {
        MulWeakBoth(-cosI, -cosI);
      } else {
        MulWeakBoth(cosI, cosI);
      }
    }
    MulWeakBoth(ratio, ratio);
    MulWeakBoth(ratio * ratio, c2);
  }

  lemma QuotientAtMostOne(a: real, b: real)
    requires 0.0 < a <= b
    ensures 0.0 < a / b <= 1.0
  {
    var q := a / b;
    assert q * b == a;
    if q <= 0.0 {
      MulWeak(q, 0.0, b);
    } else if q > 1.0 {
      MulStrict(b, 1.0, q);
    }
  }

  lemma MulWeak(x: real, y: real, a: real)
    requires x <= y && 0.0 < a
    ensures x * a <= y * a
  {
    if x < y {
      MulPos(y - x, a);
    }
  }

  /** Two factors in [0, 1] have their product in [0, 1]. */
  lemma MulWeakBoth(a: real, b: real)
    requires 0.0 <= a <= 1.0 && 0.0 <= b <= 1.0
    ensures 0.0 <= a * b <= 1.0
  {
    if 0.0 < a && 0.0 < b {
      MulPos(a, b);
      if b < 1.0 {
        MulStrict(a, b, 1.0);
      } else {
        assert a * b == a * 1.0;
      }
    }
  }

  lemma SelfRatio(n: real)
    requires n != 0.0
    ensures Ratio(n, n) == 1.0
  {
  }

  /** Across a boundary between equal indices the ray goes on undeflected, provided
      the normal points against it. */
  lemma SameIndexPassesStraight(incident: Vec2, normal: Vec2, n: real, sqrt: real -> real)
    requires n != 0.0 && IsSqrt(sqrt)
    requires Dot(incident, normal) <= 0.0
    ensures RefractDir(incident, normal, n, n, sqrt) == incident
  {
    var cosI := CosI(incident, normal);
    SelfRatio(n);
    assert SinT2(incident, normal, n, n) == 1.0 - cosI * cosI;
    assert 1.0 - SinT2(incident, normal, n, n) == cosI * cosI;
    SqrtOfSquare(sqrt, cosI);
    assert CosT(incident, normal, n, n, sqrt) == cosI;
    assert !IsTir(incident, normal, n, n) by {
      assert 0.0 <= cosI * cosI;
    }
  }

  /** For a unit incident direction and a unit normal, a refracted direction is again
      a unit vector. */
  lemma RefractUnit(incident: Vec2, normal: Vec2, n1: real, n2: real, sqrt: real -> real)
    requires n2 != 0.0 && IsSqrt(sqrt)
    requires IsUnit(incident) && IsUnit(normal)
    requires !IsTir(incident, normal, n1, n2)
    ensures IsUnit(RefractDir(incident, normal, n1, n2, sqrt))
  {
    var cosI, ratio := CosI(incident, normal), Ratio(n1, n2);
    var cosT := CosT(incident, normal, n1, n2, sqrt);
    var k := ratio * cosI - cosT;
    var sinT2 := SinT2(incident, normal, n1, n2);
    SinT2Unfold(incident, normal, n1, n2);
    assert 0.0 <= 1.0 - sinT2;
    assert cosT * cosT == 1.0 - sinT2;
    UnitCombination(incident, normal, ratio, k, cosI);
    RefractedSquare(ratio, cosI, cosT, sinT2);
  }

  lemma SinT2Unfold(incident: Vec2, normal: Vec2, n1: real, n2: real)
    requires n2 != 0.0
    ensures SinT2(incident, normal, n1, n2)
            == Ratio(n1, n2) * Ratio(n1, n2) * (1.0 - CosI(incident, normal) * CosI(incident, normal))
  {
  }

  /** The squared length of `a i + k n` for unit `i` and `n` with `i . n == -c`. */
  lemma UnitCombination(i: Vec2, n: Vec2, a: real, k: real, c: real)
    requires IsUnit(i) && IsUnit(n) && Dot(i, n) == -c
    ensures Dot(Add(Scale(i, a), Scale(n, k)), Add(Scale(i, a), Scale(n, k))) == a * a - 2.0 * a * k * c + k * k
  {
    calc {
      Dot(Add(Scale(i, a), Scale(n, k)), Add(Scale(i, a), Scale(n, k)));
      a * a * (i.x * i.x + i.y * i.y) + 2.0 * a * k * Dot(i, n) + k * k * (n.x * n.x + n.y * n.y);
      a * a * 1.0 + 2.0 * a * k * -c + k * k * 1.0;
    }
  }

  /** The algebra behind RefractUnit: with `k == ratio cosI - cosT`, `sinT2` the
      squared sine of refraction and `cosT^2 + sinT2 == 1`, the refracted direction
      has squared length one. */
  lemma RefractedSquare(ratio: real, cosI: real, cosT: real, sinT2: real)
    requires sinT2 == ratio * ratio * (1.0 - cosI * cosI) && cosT * cosT == 1.0 - sinT2
    ensures ratio * ratio - 2.0 * ratio * (ratio * cosI - cosT) * cosI + (ratio * cosI - cosT) * (ratio * cosI - cosT) == 1.0
  {
    calc {
      ratio * ratio - 2.0 * ratio * (ratio * cosI - cosT) * cosI + (ratio * cosI - cosT) * (ratio * cosI - cosT);
      ratio * ratio - ratio * ratio * cosI * cosI + cosT * cosT;
      sinT2 + cosT * cosT;
    }
  }

  /** For unit vectors the zero-vector sentinel is returned exactly on total internal
      reflection, so the tracer's test on the result's length detects nothing else. */
  lemma RefractZeroIffTir(incident: Vec2, normal: Vec2, n1: real, n2: real, sqrt: real -> real)
    requires n2 != 0.0 && IsSqrt(sqrt)
    requires IsUnit(incident) && IsUnit(normal)
    ensures RefractDir(incident, normal, n1, n2, sqrt) == Zero() <==> IsTir(incident, normal, n1, n2)
    ensures Len(RefractDir(incident, normal, n1, n2, sqrt), sqrt) < 0.1 <==> IsTir(incident, normal, n1, n2)
  {
    var r := RefractDir(incident, normal, n1, n2, sqrt);
    if IsTir(incident, normal, n1, n2) {
      LenZero(sqrt);
    } else {
      RefractUnit(incident, normal, n1, n2, sqrt);
      LenOfUnit(r, sqrt);
      assert Dot(Zero(), Zero()) == 0.0;
    }
  }
}
