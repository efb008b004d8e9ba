/** The per-ray trace of the dispersion simulator (src/main.cpp:71-148): starting at
    the light source, a ray repeatedly finds the nearest prism edge it crosses,
    refracts there, and stops when it leaves the scene, is totally internally
    reflected, or has used up its bounces. */
module Tracer {
  import opened VectorOps
  import opened Physics
  import opened Scene
  import opened NearestHit

  /** `MAX_BOUNCES` (main.cpp:77). */
  const MaxBounces: nat := 10

  /** Length of the final segment of a ray that leaves the scene (main.cpp:116). */
  const EscapeLength: real := 2000.0

  /** How far a refracted ray starts past its hit point (main.cpp:146). */
  const Bias: real := 0.1

  /** A refracted direction shorter than this is the TIR sentinel (main.cpp:142). */
  const TirLength: real := 0.1

  // ------------------------------------------------------------ one boundary

  /** The indices and the normal handed to refractDir at a hit (main.cpp:121-140). */
  datatype Interface = Interface(n1: real, n2: real, nVec: Vec2)

  /** Entering or exiting (main.cpp:125-140): a ray heading the way the outward
      normal points is inside the glass and leaves it (from `nRay` into air, against
      the flipped normal); any other ray enters it. Either way the normal handed on
      faces the incident ray. */
  function Boundary(dir: Vec2, normal: Vec2, nRay: real): (f: Interface)
    ensures Dot(dir, f.nVec) <= 0.0
    ensures Dot(dir, normal) > 0.0 ==> f == Interface(nRay, 1.0, Neg(normal))
    ensures Dot(dir, normal) <= 0.0 ==> f == Interface(1.0, nRay, normal)
  {
    DotNeg(dir, normal);
    if Dot(dir, normal) > 0.0 then Interface(nRay, 1.0, Neg(normal)) else Interface(1.0, nRay, normal)
  }

  /** A unit ray entering glass that is at least as dense as air is never totally
      reflected at a unit normal, so TIR can stop a ray only when it is leaving. */
  lemma EnteringNeverTir(dir: Vec2, normal: Vec2, nRay: real)
    requires IsUnit(dir) && IsUnit(normal) && 1.0 <= nRay
    requires Dot(dir, normal) <= 0.0
    ensures Boundary(dir, normal, nRay).n1 == 1.0
    ensures !IsTir(dir, Boundary(dir, normal, nRay).nVec, 1.0, nRay)
  {
    UnitDotBound(dir, normal);
    NoTirIntoDenser(dir, normal, 1.0, nRay);
  }

  // ------------------------------------------------------------ the bounces

  /** How the bounce loop ends: through the no-hit branch, at the TIR stop, or by
      running out of bounces. */
  datatype Ending = Escaped | TotalReflection | Exhausted

  /** What the bounce loop appends from some bounce on, how it ends, and the
      position and direction of the ray at its last bounce. */
  datatype Path = Path(points: seq<Vec2>, ending: Ending, pos: Vec2, dir: Vec2)

  /** Bounces `b` to `MaxBounces - 1` of the loop (main.cpp:79-147) for a ray of
      wavelength `wl` at `pos` heading along `dir`. In each, the no-hit branch
      appends the escape point; a hit appends the hit point and refracts there,
      stopping on the TIR sentinel and otherwise going on from just past the hit
      along the normalised new direction. */
  function Run(prisms: seq<Prism>, wl: real, pos: Vec2, dir: Vec2, b: nat, sqrt: real -> real): Path
    requires wl != 0.0 && IsSqrt(sqrt) && b <= MaxBounces
    decreases MaxBounces - b
  {
    if b == MaxBounces then Path([], Exhausted, pos, dir)
    else
      var c := Nearest(prisms, pos, dir, sqrt);
      if c.NoHit? then Path([Add(pos, Scale(dir, EscapeLength))], Escaped, pos, dir)
      else
        var f := Boundary(dir, c.normal, GetN(wl));
        var newDir := RefractDir(dir, f.nVec, f.n1, f.n2, sqrt);
        if Len(newDir, sqrt) < TirLength then Path([c.hit], TotalReflection, pos, dir)
        else
          var d := Norm(newDir, sqrt);
          var rest := Run(prisms, wl, Add(c.hit, Scale(d, Bias)), d, b + 1, sqrt);
          rest.(points := [c.hit] + rest.points)
  }

  /** `r` with the points of `o` appended, made valid if `o` escaped. */
  function Extend(r: Ray, o: Path): Ray {
    r.(points := r.points + o.points, valid := r.valid || o.ending == Escaped)
  }

  /** The ray after the trace (main.cpp:72-148): its points are the source and what
      the loop appends; it becomes valid when it escapes and otherwise keeps the flag
      it had. */
  function Traced(ray: Ray, prisms: seq<Prism>, srcPos: Vec2, srcDir: Vec2, sqrt: real -> real): Ray
    requires ray.wavelength != 0.0 && IsSqrt(sqrt)
  {
    Extend(ray.(points := [srcPos]), Run(prisms, ray.wavelength, srcPos, srcDir, 0, sqrt))
  }

  // ------------------------------------------------------------ properties

  /** Each bounce appends exactly one point, so the loop from bounce `b` on appends
      between one point and one per remaining bounce, and all of them when it runs
      out of bounces. */
  lemma {:induction false} RunLength(prisms: seq<Prism>, wl: real, pos: Vec2, dir: Vec2, b: nat, sqrt: real -> real)
    requires wl != 0.0 && IsSqrt(sqrt) && b <= MaxBounces
    ensures |Run(prisms, wl, pos, dir, b, sqrt).points| <= MaxBounces - b
    ensures b < MaxBounces ==> 1 <= |Run(prisms, wl, pos, dir, b, sqrt).points|
    ensures Run(prisms, wl, pos, dir, b, sqrt).ending == Exhausted ==>
              |Run(prisms, wl, pos, dir, b, sqrt).points| == MaxBounces - b
    decreases MaxBounces - b
  {
    if b < MaxBounces {
      var c := Nearest(prisms, pos, dir, sqrt);
      if c.Hit? {
        var f := Boundary(dir, c.normal, GetN(wl));
        var newDir := RefractDir(dir, f.nVec, f.n1, f.n2, sqrt);
        if Len(newDir, sqrt) >= TirLength {
          var d := Norm(newDir, sqrt);
          RunLength(prisms, wl, Add(c.hit, Scale(d, Bias)), d, b + 1, sqrt);
        }
      }
    }
  }

  /** The loop ends in the no-hit branch exactly when, at its last bounce, no edge is
      hit; the point appended there lies `2000` along the direction. A TIR stop
      appends the hit that caused it. */
  lemma {:induction false} RunEnds(prisms: seq<Prism>, wl: real, pos: Vec2, dir: Vec2, b: nat, sqrt: real -> real)
    requires wl != 0.0 && IsSqrt(sqrt) && b < MaxBounces
    ensures var o := Run(prisms, wl, pos, dir, b, sqrt);
      && |o.points| >= 1
      && (o.ending == Escaped ==>
            Nearest(prisms, o.pos, o.dir, sqrt).NoHit?
            && o.points[|o.points| - 1] == Add(o.pos, Scale(o.dir, EscapeLength)))
      && (o.ending == TotalReflection ==>
            Nearest(prisms, o.pos, o.dir, sqrt).Hit?
            && o.points[|o.points| - 1] == Nearest(prisms, o.pos, o.dir, sqrt).hit)
    decreases MaxBounces - b
  {
    var c := Nearest(prisms, pos, dir, sqrt);
    if c.Hit? {
      var f := Boundary(dir, c.normal, GetN(wl));
      var newDir := RefractDir(dir, f.nVec, f.n1, f.n2, sqrt);
      if Len(newDir, sqrt) >= TirLength {
        var d := Norm(newDir, sqrt);
        if b + 1 < MaxBounces {
          RunEnds(prisms, wl, Add(c.hit, Scale(d, Bias)), d, b + 1, sqrt);
        }
      }
    }
  }

  /** Starting with a unit direction, the loop only ever moves along unit vectors,
      and a TIR stop happens only where the ray leaves a prism: the ray heads the way
      the outward normal of the hit edge points. */
  lemma {:induction false} ReflectionOnlyOnExit(prisms: seq<Prism>, wl: real, pos: Vec2, dir: Vec2, b: nat, sqrt: real -> real)
    requires wl != 0.0 && IsSqrt(sqrt) && b <= MaxBounces
    requires IsUnit(dir)
    ensures IsUnit(Run(prisms, wl, pos, dir, b, sqrt).dir)
    ensures var o := Run(prisms, wl, pos, dir, b, sqrt);
      o.ending == TotalReflection ==>
        Nearest(prisms, o.pos, o.dir, sqrt).Hit? && Dot(o.dir, Nearest(prisms, o.pos, o.dir, sqrt).normal) > 0.0
    decreases MaxBounces - b
  {
    if b < MaxBounces {
      var c := Nearest(prisms, pos, dir, sqrt);
      if c.Hit? {
        var nRay := GetN(wl);
        var f := Boundary(dir, c.normal, nRay);
        var newDir := RefractDir(dir, f.nVec, f.n1, f.n2, sqrt);
        if Len(newDir, sqrt) < TirLength {
          if Dot(dir, c.normal) <= 0.0 {
            NearestInRange(prisms, pos, dir, sqrt);
            EnteringNeverTir(dir, c.normal, nRay);
            RefractZeroIffTir(dir, c.normal, 1.0, nRay, sqrt);
            assert false;
          }
        } else {
          var d := Norm(newDir, sqrt);
          NormIsUnit(newDir, sqrt);
          ReflectionOnlyOnExit(prisms, wl, Add(c.hit, Scale(d, Bias)), d, b + 1, sqrt);
        }
      }
    }
  }

  /** A traced ray starts at the source and has from 2 to `MaxBounces + 1` points;
      its colour and wavelength are untouched. */
  lemma TracedShape(ray: Ray, prisms: seq<Prism>, srcPos: Vec2, srcDir: Vec2, sqrt: real -> real)
    requires ray.wavelength != 0.0 && IsSqrt(sqrt)
    ensures var r := Traced(ray, prisms, srcPos, srcDir, sqrt);
      && 2 <= |r.points| <= MaxBounces + 1
      && r.points[0] == srcPos
      && r.color == ray.color && r.wavelength == ray.wavelength
  {
    RunLength(prisms, ray.wavelength, srcPos, srcDir, 0, sqrt);
  }

  /** A ray that was not valid before the trace is valid after it exactly when it
      left through the no-hit branch; rays stopped by TIR or by the bounce limit
      stay invalid. */
  lemma TracedValidIffEscaped(ray: Ray, prisms: seq<Prism>, srcPos: Vec2, srcDir: Vec2, sqrt: real -> real)
    requires ray.wavelength != 0.0 && IsSqrt(sqrt) && !ray.valid
    ensures var o := Run(prisms, ray.wavelength, srcPos, srcDir, 0, sqrt);
      && (Traced(ray, prisms, srcPos, srcDir, sqrt).valid <==> o.ending == Escaped)
      && (o.ending == Escaped ==> Nearest(prisms, o.pos, o.dir, sqrt).NoHit?)
      && (o.ending == Escaped ==>
            Last(Traced(ray, prisms, srcPos, srcDir, sqrt).points) == Add(o.pos, Scale(o.dir, EscapeLength)))
  {
    RunEnds(prisms, ray.wavelength, srcPos, srcDir, 0, sqrt);
  }

  function Last(s: seq<Vec2>): Vec2
    requires |s| > 0
  {
    s[|s| - 1]
  }

  /** With no prisms every ray is valid and is the one segment from the source
      `2000` along the source direction. */
  lemma TracedInEmptyScene(ray: Ray, srcPos: Vec2, srcDir: Vec2, sqrt: real -> real)
    requires ray.wavelength != 0.0 && IsSqrt(sqrt)
    ensures Traced(ray, [], srcPos, srcDir, sqrt)
         == ray.(points := [srcPos, Add(srcPos, Scale(srcDir, EscapeLength))], valid := true)
  {
    NearestInEmptyScene(srcPos, srcDir, sqrt);
  }

  // ------------------------------------------------------------ the loops

  /** Appending a point to the ray before the rest of the path changes nothing. */
  lemma ExtendByPoint(r: Ray, h: Vec2, o: Path)
    ensures Extend(r.(points := r.points + [h]), o) == Extend(r, o.(points := [h] + o.points))
  {
    assert (r.points + [h]) + o.points == r.points + ([h] + o.points);
  }

  /** A path of one point appends that point and makes the ray valid if it escaped. */
  lemma ExtendByLast(r: Ray, h: Vec2, e: Ending, pos: Vec2, dir: Vec2)
    ensures Extend(r, Path([h], e, pos, dir)) == r.(points := r.points + [h], valid := r.valid || e == Escaped)
  {
  }

  /** An empty path that ran out of bounces leaves the ray as it is. */
  lemma ExtendByNothing(r: Ray, pos: Vec2, dir: Vec2)
    ensures Extend(r, Path([], Exhausted, pos, dir)) == r
  {
    assert r.points + [] == r.points;
  }

  /** One pass of the bounce loop (main.cpp:80-147) on the ray `r` at `currPos`
      heading along `currDir`: the point appended, the next position and direction,
      and whether the loop stops here. */
  method Bounce(prisms: seq<Prism>, r: Ray, currPos: Vec2, currDir: Vec2, b: nat, sqrt: real -> real)
    returns (r': Ray, nextPos: Vec2, nextDir: Vec2, stop: bool)
    requires r.wavelength != 0.0 && IsSqrt(sqrt) && b < MaxBounces
    ensures r'.wavelength == r.wavelength
    ensures stop ==> r' == Extend(r, Run(prisms, r.wavelength, currPos, currDir, b, sqrt))
    ensures !stop ==>
              Extend(r', Run(prisms, r.wavelength, nextPos, nextDir, b + 1, sqrt))
              == Extend(r, Run(prisms, r.wavelength, currPos, currDir, b, sqrt))
  {
    ghost var o := Run(prisms, r.wavelength, currPos, currDir, b, sqrt);
    nextPos, nextDir, stop := currPos, currDir, true;
    var closest := FindNearest(prisms, currPos, currDir, sqrt);
    if closest.NoHit? {
      ExtendByLast(r, Add(currPos, Scale(currDir, EscapeLength)), Escaped, currPos, currDir);
      r' := r.(points := r.points + [Add(currPos, Scale(currDir, EscapeLength))]);
      r' := r'.(valid := true);
      return;
    }
    r' := r.(points := r.points + [closest.hit]);

    var nRay := GetN(r'.wavelength);
    var n1, n2, nVec := 1.0, nRay, closest.normal;
    if Dot(currDir, closest.normal) > 0.0 {
      n1, n2, nVec := nRay, 1.0, Neg(closest.normal);
    } else {
      n1, n2, nVec := 1.0, nRay, closest.normal;
    }
    assert Interface(n1, n2, nVec) == Boundary(currDir, closest.normal, nRay);
    var newDir := RefractDir(currDir, nVec, n1, n2, sqrt);
    if Len(newDir, sqrt) < TirLength {
      ExtendByLast(r, closest.hit, TotalReflection, currPos, currDir);
      return;
    }
    nextDir := Norm(newDir, sqrt);
    nextPos := Add(closest.hit, Scale(nextDir, Bias));
    stop := false;
    ghost var rest := Run(prisms, r.wavelength, nextPos, nextDir, b + 1, sqrt);
    assert o == rest.(points := [closest.hit] + rest.points);
    ExtendByPoint(r, closest.hit, rest);
  }

  /** The body of the ray loop (main.cpp:72-147) for one ray. */
  method TraceRay(ray: Ray, prisms: seq<Prism>, srcPos: Vec2, srcDir: Vec2, sqrt: real -> real)
    returns (r: Ray)
    requires ray.wavelength != 0.0 && IsSqrt(sqrt)
    ensures r == Traced(ray, prisms, srcPos, srcDir, sqrt)
  {
    r := ray.(points := []);
    r := r.(points := r.points + [srcPos]);
    assert r.wavelength == ray.wavelength && r.points == [srcPos];
    ghost var traced := Traced(ray, prisms, srcPos, srcDir, sqrt);
    var currPos, currDir := srcPos, srcDir;
    for b := 0 to MaxBounces
      invariant r.wavelength == ray.wavelength
      invariant Extend(r, Run(prisms, r.wavelength, currPos, currDir, b, sqrt)) == traced
    {
      var stop;
      r, currPos, currDir, stop := Bounce(prisms, r, currPos, currDir, b, sqrt);
      if stop {
        return;
      }
    }
    ExtendByNothing(r, currPos, currDir);
  }

  /** The ray loop (main.cpp:71-148): every ray of the scene is traced in place. */
  method TraceAll(rays: array<Ray>, prisms: seq<Prism>, srcPos: Vec2, srcDir: Vec2, sqrt: real -> real)
    requires IsSqrt(sqrt)
    requires forall k :: 0 <= k < rays.Length ==> rays[k].wavelength != 0.0
    modifies rays
    ensures forall k :: 0 <= k < rays.Length ==> rays[k] == Traced(old(rays[k]), prisms, srcPos, srcDir, sqrt)
  {
    ghost var input := rays[..];
    for k := 0 to rays.Length
      invariant forall m :: 0 <= m < k ==> rays[m] == Traced(input[m], prisms, srcPos, srcDir, sqrt)
      invariant forall m :: k <= m < rays.Length ==> rays[m] == input[m]
    {
      rays[k] := TraceRay(rays[k], prisms, srcPos, srcDir, sqrt);
    }
  }
}
