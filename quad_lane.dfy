/** The Möller–Trumbore hit predicate of the quad intersector for one lane
    (one ray against one triangle), and its geometric meaning: a lane passes
    exactly when the ray meets the triangle inside its interval. */
module QuadLane {
  import opened Lanes
  import opened QuadHit

  /** A ray: origin, direction, the open or closed parameter interval that the
      kernels test against, and the hit record an epilogue writes. */
  datatype Ray = Ray(org: Vec3, dir: Vec3, tnear: real, tfar: real,
                     u: real, v: real, Ng: Vec3, geomID: int, primID: int)

  /** One lane of the edge form of a triangle: the first vertex, the edges
      e1 = v0 - v1 and e2 = v2 - v0, and the unnormalised normal e1 x e2. */
  datatype Tri = Tri(v0: Vec3, e1: Vec3, e2: Vec3, Ng: Vec3)

  /** The right-handed normal of the vertex triple as the kernels compute it. */
  function Normal(p0: Vec3, p1: Vec3, p2: Vec3): Vec3
  {
    Cross(Sub(p0, p1), Sub(p2, p0))
  }

  /** The vertex-form overloads: edges and normal from three vertices. The
      vertices can be read back from the edge form. */
  function FromVertices(p0: Vec3, p1: Vec3, p2: Vec3): (tri: Tri)
    ensures tri.v0 == p0 && Sub(tri.v0, tri.e1) == p1 && Add(tri.v0, tri.e2) == p2
    ensures tri.Ng == Normal(p0, p1, p2)
  {
    var e1 := Sub(p0, p1);
    var e2 := Sub(p2, p0);
    Tri(p0, e1, e2, Cross(e1, e2))
  }

  /** Per-lane triangles of the vertex form. */
  function Triangles(v0: seq<Vec3>, v1: seq<Vec3>, v2: seq<Vec3>): (tris: seq<Tri>)
    requires |v1| == |v0| && |v2| == |v0|
    ensures |tris| == |v0| && forall i :: 0 <= i < |v0| ==> tris[i] == FromVertices(v0[i], v1[i], v2[i])
  {
    seq(|v0|, i requires 0 <= i < |v0| => FromVertices(v0[i], v1[i], v2[i]))
  }

  // ----- the lane arithmetic -----

  /** x with the sign bit of den folded in (signmsk and xor): negated when den
      is negative, kept otherwise (also when den is zero). */
  function FoldSign(x: real, den: real): real
  {
    if den < 0.0 then -x else x
  }

  /** The quantities the kernels compute for one ray and one triangle lane. */
  datatype Terms = Terms(den: real, absDen: real, U: real, V: real, T: real)

  function LaneTerms(org: Vec3, dir: Vec3, tri: Tri): (r: Terms)
    ensures r.absDen == Abs(r.den) && r.den == Dot(tri.Ng, dir)
  {
    var C := Sub(tri.v0, org);
    var R := Cross(dir, C);
    var den := Dot(tri.Ng, dir);
    Terms(den, Abs(den), FoldSign(Dot(R, tri.e2), den), FoldSign(Dot(R, tri.e1), den),
          FoldSign(Dot(tri.Ng, C), den))
  }

  /** The back-face test: with culling only lanes the ray meets from the front
      (den > 0) pass, without it every lane not parallel to the ray. */
  predicate Facing(cull: bool, den: real)
  {
    if cull then den > 0.0 else den != 0.0
  }

  /** The three edge tests U >= 0, V >= 0 and U + V <= |den|. */
  predicate EdgesPass(tm: Terms)
  {
    tm.U >= 0.0 && tm.V >= 0.0 && tm.U + tm.V <= tm.absDen
  }

  /** The depth test against the ray interval, scaled by |den|: strict in the
      single-ray kernels, inclusive in the packet kernel. */
  predicate InDepth(closed: bool, tm: Terms, tnear: real, tfar: real)
  {
    if closed then tm.absDen * tnear <= tm.T <= tm.absDen * tfar
    else tm.absDen * tnear < tm.T < tm.absDen * tfar
  }

  /** All tests of one lane. */
  predicate Accepts(cull: bool, closed: bool, tm: Terms, tnear: real, tfar: real)
  {
    Facing(cull, tm.den) && EdgesPass(tm) && InDepth(closed, tm, tnear, tfar)
  }

  // ----- the geometric reference -----

  function PointAt(org: Vec3, dir: Vec3, t: real): Vec3
  {
    Add(org, Scale(t, dir))
  }

  /** The point p0 + b1 (p1 - p0) + b2 (p2 - p0). */
  function Barycentric(p0: Vec3, p1: Vec3, p2: Vec3, b1: real, b2: real): Vec3
  {
    Add(p0, Add(Scale(b1, Sub(p1, p0)), Scale(b2, Sub(p2, p0))))
  }

  predicate InInterval(closed: bool, lo: real, t: real, hi: real)
  {
    if closed then lo <= t <= hi else lo < t < hi
  }

  /** (t, b1, b2) witnesses a hit: the point at parameter t lies in the triangle
      with barycentric coordinates (b1, b2) and t lies in the ray interval. */
  predicate IsHit(closed: bool, org: Vec3, dir: Vec3, lo: real, hi: real,
                  p0: Vec3, p1: Vec3, p2: Vec3, t: real, b1: real, b2: real)
  {
    && 0.0 <= b1 && 0.0 <= b2 && b1 + b2 <= 1.0
    && InInterval(closed, lo, t, hi)
    && PointAt(org, dir, t) == Barycentric(p0, p1, p2, b1, b2)
  }

  ghost predicate RayHitsTriangle(closed: bool, org: Vec3, dir: Vec3, lo: real, hi: real,
                                  p0: Vec3, p1: Vec3, p2: Vec3)
  {
    exists t, b1, b2 :: IsHit(closed, org, dir, lo, hi, p0, p1, p2, t, b1, b2)
  }

  /** What a lane of the kernel should report: the ray meets the triangle and
      passes the back-face test on the triangle's own normal. */
  ghost predicate TriangleHit(cull: bool, closed: bool, org: Vec3, dir: Vec3, lo: real, hi: real,
                              p0: Vec3, p1: Vec3, p2: Vec3)
  {
    Facing(cull, Dot(Normal(p0, p1, p2), dir)) && RayHitsTriangle(closed, org, dir, lo, hi, p0, p1, p2)
  }

  // ----- scalar steps of the equivalence proof -----

  lemma FoldOfMultiple(b: real, den: real)
    ensures FoldSign(b * den, den) == b * Abs(den)
  {
  }

  lemma FoldRatio(x: real, den: real)
    requires den != 0.0
    ensures FoldSign(x, den) * Rcp(Abs(den)) == x / den
  {
  }

  lemma SolveCoordinate(den: real, c: real, T: real, U: real, V: real, d: real, e: real, f: real)
    requires den != 0.0 && den * c == T * d + U * e - V * f
    ensures c == (T / den) * d + (U / den) * e - (V / den) * f
  {
    assert (T / den) * d + (U / den) * e - (V / den) * f == (T * d + U * e - V * f) / den;
  }

  /** Comparing against |den|-scaled bounds is comparing t. */
  lemma ScaledInterval(closed: bool, a: real, t: real, lo: real, hi: real)
    requires a > 0.0
    ensures InInterval(closed, lo, t, hi) <==>
            (if closed then a * lo <= t * a <= a * hi else a * lo < t * a < a * hi)
  {
    if closed {
      assert lo <= t <==> a * lo <= t * a;
      assert t <= hi <==> t * a <= a * hi;
    } else {
      assert lo < t <==> a * lo < t * a;
      assert t < hi <==> t * a < a * hi;
    }
  }

  lemma HitCoordinate(o: real, d: real, q0: real, q1: real, q2: real, t: real, b1: real, b2: real)
    ensures o + t * d == q0 + (b1 * (q1 - q0) + b2 * (q2 - q0)) <==> q0 - o == t * d + b1 * (q0 - q1) - b2 * (q2 - q0)
  {
    assert b1 * (q0 - q1) == -(b1 * (q1 - q0));
  }

  /** The hit equation, rearranged around C = p0 - org. */
  lemma HitEquation(org: Vec3, dir: Vec3, p0: Vec3, p1: Vec3, p2: Vec3, t: real, b1: real, b2: real)
    ensures PointAt(org, dir, t) == Barycentric(p0, p1, p2, b1, b2) <==>
            Sub(p0, org) == Sub(Add(Scale(t, dir), Scale(b1, Sub(p0, p1))), Scale(b2, Sub(p2, p0)))
  {
    var P := PointAt(org, dir, t);
    var B := Barycentric(p0, p1, p2, b1, b2);
    var C := Sub(p0, org);
    var W := Sub(Add(Scale(t, dir), Scale(b1, Sub(p0, p1))), Scale(b2, Sub(p2, p0)));
    assert P == Vec3(org.x + t * dir.x, org.y + t * dir.y, org.z + t * dir.z);
    assert B == Vec3(p0.x + (b1 * (p1.x - p0.x) + b2 * (p2.x - p0.x)),
                     p0.y + (b1 * (p1.y - p0.y) + b2 * (p2.y - p0.y)),
                     p0.z + (b1 * (p1.z - p0.z) + b2 * (p2.z - p0.z)));
    assert W == Vec3(t * dir.x + b1 * (p0.x - p1.x) - b2 * (p2.x - p0.x),
                     t * dir.y + b1 * (p0.y - p1.y) - b2 * (p2.y - p0.y),
                     t * dir.z + b1 * (p0.z - p1.z) - b2 * (p2.z - p0.z));
    HitCoordinate(org.x, dir.x, p0.x, p1.x, p2.x, t, b1, b2);
    HitCoordinate(org.y, dir.y, p0.y, p1.y, p2.y, t, b1, b2);
    HitCoordinate(org.z, dir.z, p0.z, p1.z, p2.z, t, b1, b2);
  }

  /** With den != 0 the finalised lane is the raw ratio to den: folding the
      sign into numerator and denominator cancels. */
  lemma FinalisedRatios(Ur: real, Vr: real, Tr: real, den: real)
    requires den != 0.0
    ensures FinalLane(FoldSign(Ur, den), FoldSign(Vr, den), FoldSign(Tr, den), Abs(den), false)
         == Uvt(Ur / den, Vr / den, Tr / den)
  {
    FoldRatio(Ur, den);
    FoldRatio(Vr, den);
    FoldRatio(Tr, den);
  }

  /** A point whose coordinates, scaled by det != 0, are T d + U e1 - V e2
      is (T / det) d + (U / det) e1 - (V / det) e2. */
  lemma SolveByCramer(det: real, T: real, U: real, V: real, d: Vec3, e1: Vec3, e2: Vec3, C: Vec3)
    requires det != 0.0
    requires det * C.x == T * d.x + U * e1.x - V * e2.x
    requires det * C.y == T * d.y + U * e1.y - V * e2.y
    requires det * C.z == T * d.z + U * e1.z - V * e2.z
    ensures C == Sub(Add(Scale(T / det, d), Scale(U / det, e1)), Scale(V / det, e2))
  {
    SolveCoordinate(det, C.x, T, U, V, d.x, e1.x, e2.x);
    SolveCoordinate(det, C.y, T, U, V, d.y, e1.y, e2.y);
    SolveCoordinate(det, C.z, T, U, V, d.z, e1.z, e2.z);
  }

  /** Solving C = t d + b1 e1 - b2 e2 by Cramer's rule. */
  lemma SolveEdgeForm(e1: Vec3, e2: Vec3, d: Vec3, C: Vec3)
    requires Dot(Cross(e1, e2), d) != 0.0
    ensures var det := Dot(Cross(e1, e2), d);
            C == Sub(Add(Scale(Dot(Cross(e1, e2), C) / det, d), Scale(Dot(Cross(d, C), e2) / det, e1)),
                     Scale(Dot(Cross(d, C), e1) / det, e2))
  {
    CramerX(e1, e2, d, C);
    CramerY(e1, e2, d, C);
    CramerZ(e1, e2, d, C);
    SolveByCramer(Dot(Cross(e1, e2), d), Dot(Cross(e1, e2), C), Dot(Cross(d, C), e2), Dot(Cross(d, C), e1), d, e1, e2, C);
  }

  /** The scalar half of AcceptedEdgeForm: the lane tests on the sign-folded
      numerators bound the ratios to den. */
  lemma AcceptedScalars(cull: bool, closed: bool, Ur: real, Vr: real, Tr: real, den: real, lo: real, hi: real)
    requires Accepts(cull, closed, Terms(den, Abs(den), FoldSign(Ur, den), FoldSign(Vr, den), FoldSign(Tr, den)), lo, hi)
    ensures var r := FinalLane(FoldSign(Ur, den), FoldSign(Vr, den), FoldSign(Tr, den), Abs(den), false);
            && r == Uvt(Ur / den, Vr / den, Tr / den)
            && 0.0 <= r.u && 0.0 <= r.v && r.u + r.v <= 1.0 && InInterval(closed, lo, r.t, hi)
  {
    FinalisedRatios(Ur, Vr, Tr, den);
    FinalLaneBounds(FoldSign(Ur, den), FoldSign(Vr, den), FoldSign(Tr, den), Abs(den), false, lo, hi);
  }

  /** Edge form of AcceptedLaneIsHit: for a lane whose normal is e1 x e2, the
      finalised (t, u, v) of an accepted lane lie in the ray interval and the
      unit triangle and solve C = t d + u e1 - v e2 with C = v0 - org. */
  lemma AcceptedEdgeForm(cull: bool, closed: bool, org: Vec3, dir: Vec3, lo: real, hi: real, tri: Tri)
    requires tri.Ng == Cross(tri.e1, tri.e2)
    requires Accepts(cull, closed, LaneTerms(org, dir, tri), lo, hi)
    ensures var tm := LaneTerms(org, dir, tri);
            var r := FinalLane(tm.U, tm.V, tm.T, tm.absDen, false);
            && 0.0 <= r.u && 0.0 <= r.v && r.u + r.v <= 1.0 && InInterval(closed, lo, r.t, hi)
            && Sub(tri.v0, org) == Sub(Add(Scale(r.t, dir), Scale(r.u, tri.e1)), Scale(r.v, tri.e2))
  {
    var tm := LaneTerms(org, dir, tri);
    var r := FinalLane(tm.U, tm.V, tm.T, tm.absDen, false);
    var C := Sub(tri.v0, org);
    var den := Dot(Cross(tri.e1, tri.e2), dir);
    var Ur, Vr, Tr := Dot(Cross(dir, C), tri.e2), Dot(Cross(dir, C), tri.e1), Dot(Cross(tri.e1, tri.e2), C);
    assert tm == Terms(den, Abs(den), FoldSign(Ur, den), FoldSign(Vr, den), FoldSign(Tr, den));
    AcceptedScalars(cull, closed, Ur, Vr, Tr, den, lo, hi);
    SolveEdgeForm(tri.e1, tri.e2, dir, C);
  }

  /** An accepted lane is a hit, and the deferred finalisation of the lane
      (unflagged) yields its witness: t, and the barycentric coordinates u, v. */
  lemma AcceptedLaneIsHit(cull: bool, closed: bool, org: Vec3, dir: Vec3, lo: real, hi: real,
                          p0: Vec3, p1: Vec3, p2: Vec3)
    requires Accepts(cull, closed, LaneTerms(org, dir, FromVertices(p0, p1, p2)), lo, hi)
    ensures var tm := LaneTerms(org, dir, FromVertices(p0, p1, p2));
            var r := FinalLane(tm.U, tm.V, tm.T, tm.absDen, false);
            IsHit(closed, org, dir, lo, hi, p0, p1, p2, r.t, r.u, r.v)
  {
    var tri := FromVertices(p0, p1, p2);
    var tm := LaneTerms(org, dir, tri);
    var r := FinalLane(tm.U, tm.V, tm.T, tm.absDen, false);
    AcceptedEdgeForm(cull, closed, org, dir, lo, hi, tri);
    HitEquation(org, dir, p0, p1, p2, r.t, r.u, r.v);
  }

  /** Edge form of HitIsAccepted. */
  lemma HitEdgeForm(cull: bool, closed: bool, org: Vec3, dir: Vec3, lo: real, hi: real, tri: Tri,
                    t: real, b1: real, b2: real)
    requires tri.Ng == Cross(tri.e1, tri.e2) && Facing(cull, Dot(tri.Ng, dir))
    requires 0.0 <= b1 && 0.0 <= b2 && b1 + b2 <= 1.0 && InInterval(closed, lo, t, hi)
    requires Sub(tri.v0, org) == Sub(Add(Scale(t, dir), Scale(b1, tri.e1)), Scale(b2, tri.e2))
    ensures var tm := LaneTerms(org, dir, tri);
            && Accepts(cull, closed, tm, lo, hi)
            && FinalLane(tm.U, tm.V, tm.T, tm.absDen, false) == Uvt(b1, b2, t)
  {
    var tm := LaneTerms(org, dir, tri);
    var C := Sub(tri.v0, org);
    var den := Dot(Cross(tri.e1, tri.e2), dir);
    var Ur, Vr, Tr := Dot(Cross(dir, C), tri.e2), Dot(Cross(dir, C), tri.e1), Dot(Cross(tri.e1, tri.e2), C);
    assert tm == Terms(den, Abs(den), FoldSign(Ur, den), FoldSign(Vr, den), FoldSign(Tr, den));
    assert Tr == t * den && Ur == b1 * den && Vr == b2 * den by {
      TripleProductsOfCombination(tri.e1, tri.e2, dir, t, b1, b2);
    }
    HitScalars(cull, closed, Ur, Vr, Tr, den, t, b1, b2, lo, hi);
  }

  /** The scalar half of HitEdgeForm. */
  lemma HitScalars(cull: bool, closed: bool, Ur: real, Vr: real, Tr: real, den: real,
                   t: real, b1: real, b2: real, lo: real, hi: real)
    requires Facing(cull, den) && Tr == t * den && Ur == b1 * den && Vr == b2 * den
    requires 0.0 <= b1 && 0.0 <= b2 && b1 + b2 <= 1.0 && InInterval(closed, lo, t, hi)
    ensures var tm := Terms(den, Abs(den), FoldSign(Ur, den), FoldSign(Vr, den), FoldSign(Tr, den));
            && Accepts(cull, closed, tm, lo, hi)
            && FinalLane(tm.U, tm.V, tm.T, tm.absDen, false) == Uvt(b1, b2, t)
  {
    FoldOfMultiple(t, den);
    FoldOfMultiple(b1, den);
    FoldOfMultiple(b2, den);
    HitLaneScalars(closed, Abs(den), FoldSign(Ur, den), FoldSign(Vr, den), FoldSign(Tr, den), t, b1, b2, lo, hi);
  }

  /** A front-facing hit is accepted, and the lane's finalisation recovers the
      hit's own parameters: the solution of the hit equation is unique. */
  lemma HitIsAccepted(cull: bool, closed: bool, org: Vec3, dir: Vec3, lo: real, hi: real,
                      p0: Vec3, p1: Vec3, p2: Vec3, t: real, b1: real, b2: real)
    requires Facing(cull, Dot(Normal(p0, p1, p2), dir))
    requires IsHit(closed, org, dir, lo, hi, p0, p1, p2, t, b1, b2)
    ensures var tm := LaneTerms(org, dir, FromVertices(p0, p1, p2));
            && Accepts(cull, closed, tm, lo, hi)
            && FinalLane(tm.U, tm.V, tm.T, tm.absDen, false) == Uvt(b1, b2, t)
  {
    HitEquation(org, dir, p0, p1, p2, t, b1, b2);
    HitEdgeForm(cull, closed, org, dir, lo, hi, FromVertices(p0, p1, p2), t, b1, b2);
  }

  /** The scalar half of HitIsAccepted: U, V, T are the hit's parameters
      scaled by |den| > 0. */
  lemma HitLaneScalars(closed: bool, absDen: real, U: real, V: real, T: real,
                       t: real, b1: real, b2: real, lo: real, hi: real)
    requires absDen > 0.0 && U == b1 * absDen && V == b2 * absDen && T == t * absDen
    requires 0.0 <= b1 && 0.0 <= b2 && b1 + b2 <= 1.0 && InInterval(closed, lo, t, hi)
    ensures U >= 0.0 && V >= 0.0 && U + V <= absDen
    ensures if closed then absDen * lo <= T <= absDen * hi else absDen * lo < T < absDen * hi
    ensures FinalLane(U, V, T, absDen, false) == Uvt(b1, b2, t)
  {
    assert U + V == (b1 + b2) * absDen;
    ScaledInterval(closed, absDen, t, lo, hi);
    var r := FinalLane(U, V, T, absDen, false);
    assert r.u * absDen == b1 * absDen && r.v * absDen == b2 * absDen && r.t * absDen == t * absDen;
  }

  /** The lane mask is the geometric predicate: a lane passes the kernel's tests
      exactly when the ray meets the triangle inside its interval and, under
      culling, from the front. */
  lemma AcceptsIffHit(cull: bool, closed: bool, org: Vec3, dir: Vec3, lo: real, hi: real,
                      p0: Vec3, p1: Vec3, p2: Vec3)
    ensures Accepts(cull, closed, LaneTerms(org, dir, FromVertices(p0, p1, p2)), lo, hi)
        <==> TriangleHit(cull, closed, org, dir, lo, hi, p0, p1, p2)
  {
    var tm := LaneTerms(org, dir, FromVertices(p0, p1, p2));
    if Accepts(cull, closed, tm, lo, hi) {
      AcceptedLaneIsHit(cull, closed, org, dir, lo, hi, p0, p1, p2);
      var r := FinalLane(tm.U, tm.V, tm.T, tm.absDen, false);
      assert IsHit(closed, org, dir, lo, hi, p0, p1, p2, r.t, r.u, r.v);
    }
    if TriangleHit(cull, closed, org, dir, lo, hi, p0, p1, p2) {
      var t, b1, b2 :| IsHit(closed, org, dir, lo, hi, p0, p1, p2, t, b1, b2);
      HitIsAccepted(cull, closed, org, dir, lo, hi, p0, p1, p2, t, b1, b2);
    }
  }

  /** Lane-wise form of AcceptsIffHit for the triangles of the vertex form. */
  lemma LanesAcceptIffHit(cull: bool, closed: bool, org: Vec3, dir: Vec3, lo: real, hi: real,
                          v0: seq<Vec3>, v1: seq<Vec3>, v2: seq<Vec3>)
    requires |v1| == |v0| && |v2| == |v0|
    ensures forall i :: 0 <= i < |v0| ==>
              (Accepts(cull, closed, LaneTerms(org, dir, Triangles(v0, v1, v2)[i]), lo, hi)
               <==> TriangleHit(cull, closed, org, dir, lo, hi, v0[i], v1[i], v2[i]))
  {
    forall i | 0 <= i < |v0|
      ensures Accepts(cull, closed, LaneTerms(org, dir, Triangles(v0, v1, v2)[i]), lo, hi)
              <==> TriangleHit(cull, closed, org, dir, lo, hi, v0[i], v1[i], v2[i])
    {
      AcceptsIffHit(cull, closed, org, dir, lo, hi, v0[i], v1[i], v2[i]);
    }
  }

  // ----- the culling switch and the two depth tests -----

  /** Back-face culling only removes lanes: a lane accepted with culling is
      accepted without it, and the lanes it removes are exactly those the ray
      meets from the back (den < 0). */
  lemma CullingNarrows(closed: bool, tm: Terms, tnear: real, tfar: real)
    ensures Accepts(true, closed, tm, tnear, tfar) ==> Accepts(false, closed, tm, tnear, tfar)
    ensures Accepts(false, closed, tm, tnear, tfar) && !Accepts(true, closed, tm, tnear, tfar) <==>
            Accepts(false, closed, tm, tnear, tfar) && tm.den < 0.0
  {
  }

  /** The strict depth test of the single-ray kernels accepts a subset of what
      the inclusive test of the packet kernel accepts; they differ only on hits
      exactly at tnear or tfar. */
  lemma StrictDepthWithinInclusive(cull: bool, tm: Terms, tnear: real, tfar: real)
    ensures Accepts(cull, false, tm, tnear, tfar) ==> Accepts(cull, true, tm, tnear, tfar)
    ensures Accepts(cull, true, tm, tnear, tfar) && !Accepts(cull, false, tm, tnear, tfar) ==>
            tm.T == tm.absDen * tnear || tm.T == tm.absDen * tfar
  {
  }

  // ----- quads as two triangles -----

  /** A planar parallelogram quad: v0 + v2 == v1 + v3. */
  predicate Parallelogram(q0: Vec3, q1: Vec3, q2: Vec3, q3: Vec3)
  {
    Add(q0, q2) == Add(q1, q3)
  }

  /** The two halves of a parallelogram quad as the SSE path splits it,
      (v0, v1, v3) and (v2, v3, v1), have the same normal; the wide layout's
      second half (v2, v1, v3) has the opposite one. */
  lemma HalvesNormals(q0: Vec3, q1: Vec3, q2: Vec3, q3: Vec3)
    requires Parallelogram(q0, q1, q2, q3)
    ensures Normal(q2, q3, q1) == Normal(q0, q1, q3)
    ensures Normal(q2, q1, q3) == Neg(Normal(q0, q1, q3))
  {
    assert Sub(q2, q3) == Sub(q1, q0) && Sub(q1, q2) == Sub(q0, q3);
    assert Sub(q2, q1) == Sub(q3, q0) && Sub(q3, q2) == Sub(q0, q1);
  }

  /** Listing a triangle's last two vertices the other way round negates its normal. */
  lemma ReversedNormal(p0: Vec3, p1: Vec3, p2: Vec3)
    ensures Normal(p0, p2, p1) == Neg(Normal(p0, p1, p2))
  {
    assert Sub(p0, p2) == Neg(Sub(p2, p0)) && Sub(p1, p0) == Neg(Sub(p0, p1));
  }

  /** ... and exchanges the barycentric coordinates of each of its points. */
  lemma ReversedBarycentric(p0: Vec3, p1: Vec3, p2: Vec3, b1: real, b2: real)
    ensures Barycentric(p0, p2, p1, b2, b1) == Barycentric(p0, p1, p2, b1, b2)
  {
  }

  /** The ray meets a triangle exactly when it meets it listed the other way round. */
  lemma ReversedRayHits(closed: bool, org: Vec3, dir: Vec3, lo: real, hi: real, p0: Vec3, p1: Vec3, p2: Vec3)
    ensures RayHitsTriangle(closed, org, dir, lo, hi, p0, p2, p1) <==> RayHitsTriangle(closed, org, dir, lo, hi, p0, p1, p2)
  {
    if RayHitsTriangle(closed, org, dir, lo, hi, p0, p1, p2) {
      var t, b1, b2 :| IsHit(closed, org, dir, lo, hi, p0, p1, p2, t, b1, b2);
      ReversedBarycentric(p0, p1, p2, b1, b2);
      assert IsHit(closed, org, dir, lo, hi, p0, p2, p1, t, b2, b1);
    }
    if RayHitsTriangle(closed, org, dir, lo, hi, p0, p2, p1) {
      var t, b1, b2 :| IsHit(closed, org, dir, lo, hi, p0, p2, p1, t, b1, b2);
      ReversedBarycentric(p0, p2, p1, b1, b2);
      assert IsHit(closed, org, dir, lo, hi, p0, p1, p2, t, b2, b1);
    }
  }

  /** Without culling the winding of a triangle does not matter; with culling
      the reversed winding accepts exactly the hits from the back. */
  lemma ReversedWindingHit(closed: bool, org: Vec3, dir: Vec3, lo: real, hi: real, p0: Vec3, p1: Vec3, p2: Vec3)
    ensures TriangleHit(false, closed, org, dir, lo, hi, p0, p2, p1) <==> TriangleHit(false, closed, org, dir, lo, hi, p0, p1, p2)
    ensures TriangleHit(true, closed, org, dir, lo, hi, p0, p2, p1) <==>
            RayHitsTriangle(closed, org, dir, lo, hi, p0, p1, p2) && Dot(Normal(p0, p1, p2), dir) < 0.0
  {
    ReversedNormal(p0, p1, p2);
    ReversedRayHits(closed, org, dir, lo, hi, p0, p1, p2);
    var n := Normal(p0, p1, p2);
    assert Dot(Neg(n), dir) == -Dot(n, dir);
  }

  /** A hit that passes the culling test is a hit without it. */
  lemma CulledHitIsHit(closed: bool, org: Vec3, dir: Vec3, lo: real, hi: real, p0: Vec3, p1: Vec3, p2: Vec3)
    ensures TriangleHit(true, closed, org, dir, lo, hi, p0, p1, p2) ==> TriangleHit(false, closed, org, dir, lo, hi, p0, p1, p2)
  {
  }

  /** The point with coordinates (u, v) on the quad: v0 + u (v1 - v0) + v (v3 - v0). */
  function QuadPoint(q0: Vec3, q1: Vec3, q3: Vec3, u: real, v: real): Vec3
  {
    Barycentric(q0, q1, q3, u, v)
  }

  lemma SecondHalfCoordinate(a0: real, a1: real, a2: real, a3: real, b1: real, b2: real)
    requires a0 + a2 == a1 + a3
    ensures a2 + (b1 * (a3 - a2) + b2 * (a1 - a2)) == a0 + ((1.0 - b1) * (a1 - a0) + (1.0 - b2) * (a3 - a0))
  {
    assert a3 - a2 == a0 - a1 && a1 - a2 == a0 - a3;
  }

  /** On a parallelogram, barycentric coordinates (b1, b2) of the second half
      (v2, v3, v1) name the quad point (1 - b1, 1 - b2). */
  lemma SecondHalfPoints(q0: Vec3, q1: Vec3, q2: Vec3, q3: Vec3, b1: real, b2: real)
    requires Parallelogram(q0, q1, q2, q3)
    ensures Barycentric(q2, q3, q1, b1, b2) == QuadPoint(q0, q1, q3, 1.0 - b1, 1.0 - b2)
  {
    SecondHalfCoordinate(q0.x, q1.x, q2.x, q3.x, b1, b2);
    SecondHalfCoordinate(q0.y, q1.y, q2.y, q3.y, b1, b2);
    SecondHalfCoordinate(q0.z, q1.z, q2.z, q3.z, b1, b2);
  }

  /** On a parallelogram, barycentric coordinates (b1, b2) of the wide
      layout's second half (v2, v1, v3) name the quad point (1 - b2, 1 - b1). */
  lemma WideSecondHalfPoints(q0: Vec3, q1: Vec3, q2: Vec3, q3: Vec3, b1: real, b2: real)
    requires Parallelogram(q0, q1, q2, q3)
    ensures Barycentric(q2, q1, q3, b1, b2) == QuadPoint(q0, q1, q3, 1.0 - b2, 1.0 - b1)
  {
    SecondHalfCoordinate(q0.x, q3.x, q2.x, q1.x, b1, b2);
    SecondHalfCoordinate(q0.y, q3.y, q2.y, q1.y, b1, b2);
    SecondHalfCoordinate(q0.z, q3.z, q2.z, q1.z, b1, b2);
  }

  /** What a finalised hit on a quad should report: t inside the ray interval
      and (u, v) in the unit square naming the hit point on the quad. */
  predicate ReportsQuadPoint(closed: bool, org: Vec3, dir: Vec3, lo: real, hi: real,
                             q0: Vec3, q1: Vec3, q3: Vec3, r: Uvt)
  {
    && 0.0 <= r.u <= 1.0 && 0.0 <= r.v <= 1.0 && InInterval(closed, lo, r.t, hi)
    && PointAt(org, dir, r.t) == QuadPoint(q0, q1, q3, r.u, r.v)
  }

  /** Both halves of a parallelogram quad report the quad's own (u, v): the
      first half (v0, v1, v3) unflagged; the second half (v2, v3, v1) flagged
      with the plain finalisation, which maps (u, v) to (1 - u, 1 - v); and the
      wide layout's second half (v2, v1, v3) flagged with the AVX finalisation,
      which maps them to (1 - v, 1 - u). */
  lemma QuadHalvesFinalize(cull: bool, closed: bool, org: Vec3, dir: Vec3, lo: real, hi: real,
                           q0: Vec3, q1: Vec3, q2: Vec3, q3: Vec3)
    requires Parallelogram(q0, q1, q2, q3)
    ensures var tm := LaneTerms(org, dir, FromVertices(q0, q1, q3));
            Accepts(cull, closed, tm, lo, hi) ==>
              ReportsQuadPoint(closed, org, dir, lo, hi, q0, q1, q3, FinalLane(tm.U, tm.V, tm.T, tm.absDen, false))
    ensures var tm := LaneTerms(org, dir, FromVertices(q2, q3, q1));
            Accepts(cull, closed, tm, lo, hi) ==>
              ReportsQuadPoint(closed, org, dir, lo, hi, q0, q1, q3, FinalLane(tm.U, tm.V, tm.T, tm.absDen, true))
    ensures var tm := LaneTerms(org, dir, FromVertices(q2, q1, q3));
            Accepts(cull, closed, tm, lo, hi) ==>
              ReportsQuadPoint(closed, org, dir, lo, hi, q0, q1, q3, FinalLaneAvx(tm.U, tm.V, tm.T, tm.absDen, true))
  {
    var tm1 := LaneTerms(org, dir, FromVertices(q0, q1, q3));
    if Accepts(cull, closed, tm1, lo, hi) {
      AcceptedLaneIsHit(cull, closed, org, dir, lo, hi, q0, q1, q3);
    }
    var tm2 := LaneTerms(org, dir, FromVertices(q2, q3, q1));
    if Accepts(cull, closed, tm2, lo, hi) {
      AcceptedLaneIsHit(cull, closed, org, dir, lo, hi, q2, q3, q1);
      var r := FinalLane(tm2.U, tm2.V, tm2.T, tm2.absDen, false);
      assert FinalLane(tm2.U, tm2.V, tm2.T, tm2.absDen, true) == Uvt(1.0 - r.u, 1.0 - r.v, r.t);
      SecondHalfPoints(q0, q1, q2, q3, r.u, r.v);
    }
    var tm3 := LaneTerms(org, dir, FromVertices(q2, q1, q3));
    if Accepts(cull, closed, tm3, lo, hi) {
      AcceptedLaneIsHit(cull, closed, org, dir, lo, hi, q2, q1, q3);
      var r := FinalLane(tm3.U, tm3.V, tm3.T, tm3.absDen, false);
      assert FinalLaneAvx(tm3.U, tm3.V, tm3.T, tm3.absDen, true) == Uvt(1.0 - r.v, 1.0 - r.u, r.t);
      WideSecondHalfPoints(q0, q1, q2, q3, r.u, r.v);
    }
  }
}
