/** Concrete witnesses for the winding of the wide quad layout: the unit
    square A, B, C, D in the plane z = 0, hit straight from above and
    straight from below at (3/4, 3/4). Each step of the arithmetic is a lemma
    of its own, stated on literal vectors. */
module SquareExample {
  import opened Lanes
  import opened QuadLane
  import opened QuadKernels
  import opened QuadDrivers

  const A := Vec3(0.0, 0.0, 0.0)
  const B := Vec3(1.0, 0.0, 0.0)
  const C := Vec3(1.0, 1.0, 0.0)
  const D := Vec3(0.0, 1.0, 0.0)

  /** The unit square, as a batch of one quad. */
  function UnitSquare(): (q: QuadMv)
    ensures q.WellFormed() && q.Size() == 1
    ensures q.v0[0] == A && q.v1[0] == B && q.v2[0] == C && q.v3[0] == D
  {
    QuadMv([A], [B], [C], [D], [0], [0], [true])
  }

  /** A ray straight down onto (3/4, 3/4) over the interval (0, 10). */
  function DownRay(): (ray: Ray)
    ensures ray.org == Vec3(0.75, 0.75, 1.0) && ray.dir == Vec3(0.0, 0.0, -1.0)
    ensures ray.tnear == 0.0 && ray.tfar == 10.0
  {
    Ray(Vec3(0.75, 0.75, 1.0), Vec3(0.0, 0.0, -1.0), 0.0, 10.0, 0.0, 0.0, Vec3(0.0, 0.0, 0.0), 0, 0)
  }

  lemma SquareIsParallelogram() ensures Parallelogram(A, B, C, D) { }

  // ----- the first half (A, B, D): e1 = (-1, 0, 0), e2 = (0, 1, 0), Ng = (0, 0, -1) -----

  lemma EdgeAB() ensures Sub(A, B) == Vec3(-1.0, 0.0, 0.0) { }
  lemma EdgeDA() ensures Sub(D, A) == Vec3(0.0, 1.0, 0.0) { }
  lemma NormalABD() ensures Cross(Vec3(-1.0, 0.0, 0.0), Vec3(0.0, 1.0, 0.0)) == Vec3(0.0, 0.0, -1.0) { }

  lemma FirstHalfTri()
    ensures FromVertices(A, B, D) == Tri(A, Vec3(-1.0, 0.0, 0.0), Vec3(0.0, 1.0, 0.0), Vec3(0.0, 0.0, -1.0))
  {
    EdgeAB();
    EdgeDA();
    NormalABD();
  }

  lemma FirstHalfU()
    ensures LaneTerms(Vec3(0.75, 0.75, 1.0), Vec3(0.0, 0.0, -1.0),
                      Tri(A, Vec3(-1.0, 0.0, 0.0), Vec3(0.0, 1.0, 0.0), Vec3(0.0, 0.0, -1.0))).U == 0.75
  { }

  lemma FirstHalfV()
    ensures LaneTerms(Vec3(0.75, 0.75, 1.0), Vec3(0.0, 0.0, -1.0),
                      Tri(A, Vec3(-1.0, 0.0, 0.0), Vec3(0.0, 1.0, 0.0), Vec3(0.0, 0.0, -1.0))).V == 0.75
  { }

  lemma FirstHalfDen()
    ensures LaneTerms(Vec3(0.75, 0.75, 1.0), Vec3(0.0, 0.0, -1.0),
                      Tri(A, Vec3(-1.0, 0.0, 0.0), Vec3(0.0, 1.0, 0.0), Vec3(0.0, 0.0, -1.0))).absDen == 1.0
  { }

  /** The first half rejects DownRay: U + V = 3/2 exceeds |den| = 1, the
      point it reaches lies beyond the diagonal. */
  lemma FirstHalfRejects()
    ensures !Accepts(true, false, LaneTerms(DownRay().org, DownRay().dir, FromVertices(A, B, D)), 0.0, 10.0)
  {
    FirstHalfTri();
    FirstHalfU();
    FirstHalfV();
    FirstHalfDen();
  }

  // ----- the second half as the wide layout writes it, (C, B, D): Ng = (0, 0, 1) -----

  lemma EdgeCB() ensures Sub(C, B) == Vec3(0.0, 1.0, 0.0) { }
  lemma EdgeDC() ensures Sub(D, C) == Vec3(-1.0, 0.0, 0.0) { }
  lemma NormalCBD() ensures Cross(Vec3(0.0, 1.0, 0.0), Vec3(-1.0, 0.0, 0.0)) == Vec3(0.0, 0.0, 1.0) { }

  lemma AsWrittenSecondHalfTri()
    ensures FromVertices(C, B, D) == Tri(C, Vec3(0.0, 1.0, 0.0), Vec3(-1.0, 0.0, 0.0), Vec3(0.0, 0.0, 1.0))
  {
    EdgeCB();
    EdgeDC();
    NormalCBD();
  }

  lemma AsWrittenSecondHalfDen()
    ensures LaneTerms(Vec3(0.75, 0.75, 1.0), Vec3(0.0, 0.0, -1.0),
                      Tri(C, Vec3(0.0, 1.0, 0.0), Vec3(-1.0, 0.0, 0.0), Vec3(0.0, 0.0, 1.0))).den == -1.0
  { }

  /** DownRay meets (C, B, D) from the back, den = -1. */
  lemma AsWrittenSecondHalfBackFacing()
    ensures LaneTerms(DownRay().org, DownRay().dir, FromVertices(C, B, D)).den == -1.0
  {
    AsWrittenSecondHalfTri();
    AsWrittenSecondHalfDen();
  }

  // ----- the second half with the SSE winding, (C, D, B): e1 = (1, 0, 0), e2 = (0, -1, 0), Ng = (0, 0, -1) -----

  lemma EdgeCD() ensures Sub(C, D) == Vec3(1.0, 0.0, 0.0) { }
  lemma EdgeBC() ensures Sub(B, C) == Vec3(0.0, -1.0, 0.0) { }
  lemma NormalCDB() ensures Cross(Vec3(1.0, 0.0, 0.0), Vec3(0.0, -1.0, 0.0)) == Vec3(0.0, 0.0, -1.0) { }

  lemma SecondHalfTri()
    ensures FromVertices(C, D, B) == Tri(C, Vec3(1.0, 0.0, 0.0), Vec3(0.0, -1.0, 0.0), Vec3(0.0, 0.0, -1.0))
  {
    EdgeCD();
    EdgeBC();
    NormalCDB();
  }

  lemma SecondHalfDen()
    ensures LaneTerms(Vec3(0.75, 0.75, 1.0), Vec3(0.0, 0.0, -1.0),
                      Tri(C, Vec3(1.0, 0.0, 0.0), Vec3(0.0, -1.0, 0.0), Vec3(0.0, 0.0, -1.0))).den == 1.0
  { }

  lemma SecondHalfU()
    ensures LaneTerms(Vec3(0.75, 0.75, 1.0), Vec3(0.0, 0.0, -1.0),
                      Tri(C, Vec3(1.0, 0.0, 0.0), Vec3(0.0, -1.0, 0.0), Vec3(0.0, 0.0, -1.0))).U == 0.25
  { }

  lemma SecondHalfV()
    ensures LaneTerms(Vec3(0.75, 0.75, 1.0), Vec3(0.0, 0.0, -1.0),
                      Tri(C, Vec3(1.0, 0.0, 0.0), Vec3(0.0, -1.0, 0.0), Vec3(0.0, 0.0, -1.0))).V == 0.25
  { }

  lemma SecondHalfT()
    ensures LaneTerms(Vec3(0.75, 0.75, 1.0), Vec3(0.0, 0.0, -1.0),
                      Tri(C, Vec3(1.0, 0.0, 0.0), Vec3(0.0, -1.0, 0.0), Vec3(0.0, 0.0, -1.0))).T == 1.0
  { }

  /** (C, D, B) accepts DownRay: den = 1, U = V = 1/4, T = 1 inside (0, 10). */
  lemma SecondHalfAccepts()
    ensures Accepts(true, false, LaneTerms(DownRay().org, DownRay().dir, FromVertices(C, D, B)), 0.0, 10.0)
  {
    SecondHalfTri();
    SecondHalfDen();
    SecondHalfU();
    SecondHalfV();
    SecondHalfT();
  }

  /** The three facts the wide-layout finding rests on, for the unit square
      and DownRay. */
  lemma SquareSplitsHalves()
    ensures Parallelogram(UnitSquare().v0[0], UnitSquare().v1[0], UnitSquare().v2[0], UnitSquare().v3[0])
    ensures !Accepts(true, false, LaneTerms(DownRay().org, DownRay().dir,
                     FromVertices(UnitSquare().v0[0], UnitSquare().v1[0], UnitSquare().v3[0])), DownRay().tnear, DownRay().tfar)
    ensures Accepts(true, false, LaneTerms(DownRay().org, DownRay().dir,
                    FromVertices(UnitSquare().v2[0], UnitSquare().v3[0], UnitSquare().v1[0])), DownRay().tnear, DownRay().tfar)
  {
    SquareIsParallelogram();
    FirstHalfRejects();
    SecondHalfAccepts();
  }

  /** With back-face culling, DownRay meets the unit square from the front, on
      its second half, yet the wide layout as written accepts neither of its
      lanes; the corrected layout accepts the lane of the second half. */
  lemma SquareWideAsWrittenMisses(ray: Ray, q: QuadMv)
    requires ray == DownRay() && q == UnitSquare()
    ensures QuadHitAt(true, false, ray, q, 0)
    ensures var w := WideLayoutAsWritten(q);
            None(Intersect1Mask(true, ray, Triangles(w.p0, w.p1, w.p2)))
    ensures var w := WideLayout(q);
            Intersect1Mask(true, ray, Triangles(w.p0, w.p1, w.p2))[1]
  {
    SquareSplitsHalves();
    WideAsWrittenMissesFrontHit(ray, q);
  }

  // ----- the back of the square: UpRay, straight up onto (3/4, 3/4) -----

  /** A ray straight up onto (3/4, 3/4) over the interval (0, 10): it meets the
      square from the back of its first half's winding. */
  function UpRay(): (ray: Ray)
    ensures ray.org == Vec3(0.75, 0.75, -1.0) && ray.dir == Vec3(0.0, 0.0, 1.0)
    ensures ray.tnear == 0.0 && ray.tfar == 10.0
  {
    Ray(Vec3(0.75, 0.75, -1.0), Vec3(0.0, 0.0, 1.0), 0.0, 10.0, 0.0, 0.0, Vec3(0.0, 0.0, 0.0), 0, 0)
  }

  lemma UpSecondHalfDen()
    ensures LaneTerms(Vec3(0.75, 0.75, -1.0), Vec3(0.0, 0.0, 1.0),
                      Tri(C, Vec3(1.0, 0.0, 0.0), Vec3(0.0, -1.0, 0.0), Vec3(0.0, 0.0, -1.0))).den == -1.0
  { }

  lemma UpSecondHalfU()
    ensures LaneTerms(Vec3(0.75, 0.75, -1.0), Vec3(0.0, 0.0, 1.0),
                      Tri(C, Vec3(1.0, 0.0, 0.0), Vec3(0.0, -1.0, 0.0), Vec3(0.0, 0.0, -1.0))).U == 0.25
  { }

  lemma UpSecondHalfV()
    ensures LaneTerms(Vec3(0.75, 0.75, -1.0), Vec3(0.0, 0.0, 1.0),
                      Tri(C, Vec3(1.0, 0.0, 0.0), Vec3(0.0, -1.0, 0.0), Vec3(0.0, 0.0, -1.0))).V == 0.25
  { }

  lemma UpSecondHalfT()
    ensures LaneTerms(Vec3(0.75, 0.75, -1.0), Vec3(0.0, 0.0, 1.0),
                      Tri(C, Vec3(1.0, 0.0, 0.0), Vec3(0.0, -1.0, 0.0), Vec3(0.0, 0.0, -1.0))).T == 1.0
  { }

  /** Without culling (C, D, B) accepts UpRay: den = -1, U = V = 1/4, T = 1. */
  lemma UpSecondHalfAccepts()
    ensures Accepts(false, false, LaneTerms(UpRay().org, UpRay().dir, FromVertices(C, D, B)), 0.0, 10.0)
  {
    SecondHalfTri();
    UpSecondHalfDen();
    UpSecondHalfU();
    UpSecondHalfV();
    UpSecondHalfT();
  }

  /** So UpRay meets (C, D, B), from either side. */
  lemma UpRayMeetsSecondHalf()
    ensures RayHitsTriangle(false, UpRay().org, UpRay().dir, UpRay().tnear, UpRay().tfar, C, D, B)
  {
    UpSecondHalfAccepts();
    AcceptsIffHit(false, false, UpRay().org, UpRay().dir, UpRay().tnear, UpRay().tfar, C, D, B);
  }

  /** UpRay runs against the normal (0, 0, -1) of the first half (A, B, D). */
  lemma UpRayFacesBack()
    ensures Dot(Normal(A, B, D), UpRay().dir) == -1.0
  {
    EdgeAB();
    EdgeDA();
    NormalABD();
  }

  /** With back-face culling, UpRay meets the unit square only from the back,
      so culling rejects both of its halves, yet the wide layout as written
      accepts the lane of its second half. */
  lemma SquareWideAsWrittenAcceptsBackHit(ray: Ray, q: QuadMv)
    requires ray == UpRay() && q == UnitSquare()
    ensures !QuadHitAt(true, false, ray, q, 0)
    ensures HitLanes(true, ray, WideLayoutAsWritten(q))[q.Size()]
  {
    SquareIsParallelogram();
    UpRayFacesBack();
    UpRayMeetsSecondHalf();
    hide LaneTerms, WideLayoutAsWritten, HitLanes, Dot, Cross, Normal, Sub, QuadHitAt, HalfHit, TriangleHit, RayHitsTriangle, IsHit;
    assert Dot(Normal(q.v0[0], q.v1[0], q.v3[0]), ray.dir) < 0.0;
    assert RayHitsTriangle(false, ray.org, ray.dir, ray.tnear, ray.tfar, q.v2[0], q.v3[0], q.v1[0]);
    WideAsWrittenAcceptsBackHit(ray, q, 0);
  }
}
