/** The quad drivers: QuadMvIntersector1MoellerTrumbore (one ray against a
    batch of M quads, in the SSE layout and in the wide layout) and
    QuadMvIntersectorKMoellerTrumbore (a packet of K rays against the batch,
    and ray k of a packet against it). Each quad (v0, v1, v2, v3) is tested as
    two triangles that share the diagonal v1-v3. */
module QuadDrivers {
  import opened Lanes
  import opened QuadHit
  import opened QuadLane
  import opened QuadKernels

  /** A batch of M quads (QuadMv<M>): vertex lanes, identifiers and the slot
      validity the packet loops stop at. */
  datatype QuadMv = QuadMv(v0: seq<Vec3>, v1: seq<Vec3>, v2: seq<Vec3>, v3: seq<Vec3>,
                           geomIDs: seq<int>, primIDs: seq<int>, valid: seq<bool>)
  {
    function Size(): nat { |v0| }

    predicate WellFormed()
    {
      && |v1| == |v0| && |v2| == |v0| && |v3| == |v0|
      && |geomIDs| == |v0| && |primIDs| == |v0| && |valid| == |v0|
    }
  }

  /** The ray meets the triangle (p0, p1, p2) inside its interval, and from the
      front under culling. */
  ghost predicate HalfHit(cull: bool, closed: bool, ray: Ray, p0: Vec3, p1: Vec3, p2: Vec3)
  {
    TriangleHit(cull, closed, ray.org, ray.dir, ray.tnear, ray.tfar, p0, p1, p2)
  }

  /** The ray meets quad i: its first half (v0, v1, v3) or its second half (v2, v3, v1). */
  ghost predicate QuadHitAt(cull: bool, closed: bool, ray: Ray, q: QuadMv, i: nat)
    requires q.WellFormed() && i < q.Size()
  {
    HalfHit(cull, closed, ray, q.v0[i], q.v1[i], q.v3[i]) || HalfHit(cull, closed, ray, q.v2[i], q.v3[i], q.v1[i])
  }

  /** The ray meets none of the first n quads: neither half of any of them. */
  ghost predicate MissesQuads(cull: bool, closed: bool, ray: Ray, q: QuadMv, n: nat)
    requires q.WellFormed() && n <= q.Size()
  {
    forall i :: 0 <= i < n ==>
      !HalfHit(cull, closed, ray, q.v0[i], q.v1[i], q.v3[i]) && !HalfHit(cull, closed, ray, q.v2[i], q.v3[i], q.v1[i])
  }

  /** A hit on a half of some quad is a hit on that quad. */
  lemma QuadHitOfHalf(cull: bool, closed: bool, ray: Ray, q: QuadMv)
    requires q.WellFormed()
    ensures (exists i :: 0 <= i < q.Size() && HalfHit(cull, closed, ray, q.v0[i], q.v1[i], q.v3[i])) ==>
              exists i :: 0 <= i < q.Size() && QuadHitAt(cull, closed, ray, q, i)
    ensures (exists i :: 0 <= i < q.Size() && HalfHit(cull, closed, ray, q.v2[i], q.v3[i], q.v1[i])) ==>
              exists i :: 0 <= i < q.Size() && QuadHitAt(cull, closed, ray, q, i)
  {
    if i :| 0 <= i < q.Size() && HalfHit(cull, closed, ray, q.v0[i], q.v1[i], q.v3[i]) {
      assert QuadHitAt(cull, closed, ray, q, i);
    }
    if i :| 0 <= i < q.Size() && HalfHit(cull, closed, ray, q.v2[i], q.v3[i], q.v1[i]) {
      assert QuadHitAt(cull, closed, ray, q, i);
    }
  }

  /** The single-ray drivers build their epilogue from the lanes' identifiers. */
  type Epilog1For<!S> = (seq<int>, seq<int>) -> Epilog1<S>

  /** The lanes one kernel call of a single-ray driver is given: per lane a
      triangle (p0, p1, p2) in vertex form, its flag and its identifiers. */
  datatype Layout = Layout(p0: seq<Vec3>, p1: seq<Vec3>, p2: seq<Vec3>, flags: seq<bool>,
                           geomIDs: seq<int>, primIDs: seq<int>)
  {
    function Width(): nat { |p0| }

    predicate WellFormed()
    {
      |p1| == |p0| && |p2| == |p0| && |flags| == |p0| && |geomIDs| == |p0| && |primIDs| == |p0|
    }
  }

  /** The lanes of a layout whose triangle the ray meets inside its open
      interval, from the front of the lane's own winding under culling. */
  function HitLanes(cull: bool, ray: Ray, w: Layout): (m: seq<bool>)
    requires w.WellFormed()
    ensures |m| == w.Width()
    ensures forall j :: 0 <= j < w.Width() ==> (m[j] <==> HalfHit(cull, false, ray, w.p0[j], w.p1[j], w.p2[j]))
  {
    Intersect1MaskIsGeometric(cull, ray, w.p0, w.p1, w.p2);
    Intersect1Mask(cull, ray, Triangles(w.p0, w.p1, w.p2))
  }

  /** A lane in HitLanes passes every test of the kernel. */
  lemma HitLanesAccept(cull: bool, ray: Ray, w: Layout, j: nat)
    requires w.WellFormed() && j < w.Width() && HitLanes(cull, ray, w)[j]
    ensures Accepts(cull, false, LaneTerms(ray.org, ray.dir, FromVertices(w.p0[j], w.p1[j], w.p2[j])), ray.tnear, ray.tfar)
  {
  }

  /** The deferred hit a kernel call on the layout hands its epilogue: lane j
      carries the terms of the ray against triangle j, its normal and its flag. */
  function LaneCandidate(ray: Ray, w: Layout): (c: Candidate)
    requires w.WellFormed()
    ensures c.WellFormed() && c.Width() == w.Width() && c.flags == w.flags
    ensures forall j :: 0 <= j < w.Width() ==>
              var tm := LaneTerms(ray.org, ray.dir, FromVertices(w.p0[j], w.p1[j], w.p2[j]));
              && c.U[j] == tm.U && c.V[j] == tm.V && c.T[j] == tm.T && c.absDen[j] == tm.absDen
              && c.Ng[j] == Normal(w.p0[j], w.p1[j], w.p2[j])
  {
    var tris := Triangles(w.p0, w.p1, w.p2);
    CandidateOf(RayTerms(ray, tris), Normals(tris), w.flags)
  }

  /** One kernel call of a single-ray driver (MoellerTrumboreIntersectorQuad1::
      intersect on vertex lanes): false with the state untouched when the ray
      meets no lane; otherwise the epilogue built from the lanes' identifiers,
      handed exactly the lanes the ray meets and the deferred hit of the lanes. */
  function Call1<S>(cull: bool, ray: Ray, w: Layout, epilogFor: Epilog1For<S>, s: S): (r: (bool, S))
    requires w.WellFormed()
    ensures None(HitLanes(cull, ray, w)) ==> r == (false, s)
    ensures Any(HitLanes(cull, ray, w)) ==>
              r == epilogFor(w.geomIDs, w.primIDs)(HitLanes(cull, ray, w), LaneCandidate(ray, w), s)
  {
    Intersect1Vertices(cull, ray, w.p0, w.p1, w.p2, w.flags, epilogFor(w.geomIDs, w.primIDs), s)
  }

  /** intersect1 of the packet kernel: ray k of the packet against the layout
      is the single-ray call on that ray, with the whole packet as the state. */
  function CallInPacket(cull: bool, rays: seq<Ray>, k: nat, w: Layout, epilogFor: Epilog1For<seq<Ray>>): (r: (bool, seq<Ray>))
    requires w.WellFormed() && k < |rays|
    ensures r == Call1(cull, rays[k], w, epilogFor, rays)
  {
    Intersect1InPacket(cull, rays, k, w.p0, w.p1, w.p2, w.flags, epilogFor(w.geomIDs, w.primIDs), rays)
  }

  // ----- one ray, SSE layout -----

  /** The lanes of the SSE drivers' two calls: the first halves (v0, v1, v3)
      unflagged, or the second halves (v2, v3, v1) flagged, both with the
      batch's identifiers. */
  function SseHalves(q: QuadMv, second: bool): (w: Layout)
    requires q.WellFormed()
    ensures w.WellFormed() && w.Width() == q.Size() && w.flags == Splat(q.Size(), second)
    ensures w.geomIDs == q.geomIDs && w.primIDs == q.primIDs
    ensures forall i :: 0 <= i < q.Size() ==>
              if second then w.p0[i] == q.v2[i] && w.p1[i] == q.v3[i] && w.p2[i] == q.v1[i]
              else w.p0[i] == q.v0[i] && w.p1[i] == q.v1[i] && w.p2[i] == q.v3[i]
  {
    if second then Layout(q.v2, q.v3, q.v1, Splat(q.Size(), true), q.geomIDs, q.primIDs)
    else Layout(q.v0, q.v1, q.v3, Splat(q.Size(), false), q.geomIDs, q.primIDs)
  }

  /** A lane of either SSE call that the ray meets is a half of a quad it
      meets, so a ray that meets no quad meets no lane. */
  lemma SseHalvesHitQuads(cull: bool, ray: Ray, q: QuadMv, second: bool)
    requires q.WellFormed()
    ensures Any(HitLanes(cull, ray, SseHalves(q, second))) ==> exists i :: 0 <= i < q.Size() && QuadHitAt(cull, false, ray, q, i)
    ensures MissesQuads(cull, false, ray, q, q.Size()) ==> None(HitLanes(cull, ray, SseHalves(q, second)))
  {
    var m := HitLanes(cull, ray, SseHalves(q, second));
    if i :| 0 <= i < q.Size() && m[i] {
      assert QuadHitAt(cull, false, ray, q, i);
    }
  }

  /** Every lane either SSE call hands its epilogue reports, once QuadHitK
      finalises it, the point where the ray meets the quad in the quad's own
      (u, v), a t inside the ray interval, and the quad's normal. */
  lemma SseHalvesReportQuadPoints(cull: bool, ray: Ray, q: QuadMv, second: bool)
    requires q.WellFormed() && forall i :: 0 <= i < q.Size() ==> Parallelogram(q.v0[i], q.v1[i], q.v2[i], q.v3[i])
    ensures var w := SseHalves(q, second);
            var f := FinalizeK(LaneCandidate(ray, w));
            forall i :: 0 <= i < q.Size() && HitLanes(cull, ray, w)[i] ==>
              && ReportsQuadPoint(false, ray.org, ray.dir, ray.tnear, ray.tfar, q.v0[i], q.v1[i], q.v3[i], LaneOf(f, i))
              && f.Ng[i] == Normal(q.v0[i], q.v1[i], q.v3[i])
  {
    var w := SseHalves(q, second);
    var c := LaneCandidate(ray, w);
    forall i | 0 <= i < q.Size() && HitLanes(cull, ray, w)[i]
      ensures ReportsQuadPoint(false, ray.org, ray.dir, ray.tnear, ray.tfar, q.v0[i], q.v1[i], q.v3[i], LaneOf(FinalizeK(c), i))
      ensures FinalizeK(c).Ng[i] == Normal(q.v0[i], q.v1[i], q.v3[i])
    {
      HitLanesAccept(cull, ray, w, i);
      FinalizeKLane(c, i);
      QuadHalvesFinalize(cull, false, ray.org, ray.dir, ray.tnear, ray.tfar, q.v0[i], q.v1[i], q.v2[i], q.v3[i]);
      HalvesNormals(q.v0[i], q.v1[i], q.v2[i], q.v3[i]);
    }
  }

  /** Finalised by the AVX branch instead, a second-half lane of the SSE
      layout would report the quad's (u, v) exchanged, and the negated quad
      normal: the SSE halves go together with the non-AVX finalisation. */
  lemma SseHalvesUnderAvx(cull: bool, ray: Ray, q: QuadMv, i: nat)
    requires q.WellFormed() && i < q.Size() && Parallelogram(q.v0[i], q.v1[i], q.v2[i], q.v3[i])
    requires HitLanes(cull, ray, SseHalves(q, true))[i]
    ensures var f := LaneOf(AvxFinalized(LaneCandidate(ray, SseHalves(q, true))), i);
            ReportsQuadPoint(false, ray.org, ray.dir, ray.tnear, ray.tfar, q.v0[i], q.v1[i], q.v3[i], Uvt(f.v, f.u, f.t))
    ensures AvxFinalized(LaneCandidate(ray, SseHalves(q, true))).Ng[i] == Neg(Normal(q.v0[i], q.v1[i], q.v3[i]))
  {
    var w := SseHalves(q, true);
    var c := LaneCandidate(ray, w);
    var tm := LaneTerms(ray.org, ray.dir, FromVertices(q.v2[i], q.v3[i], q.v1[i]));
    HitLanesAccept(cull, ray, w, i);
    AvxFinalizedLane(c, i);
    assert LaneOf(AvxFinalized(c), i) == FinalLaneAvx(tm.U, tm.V, tm.T, tm.absDen, true);
    AvxExchangesFlaggedUv(tm.U, tm.V, tm.T, tm.absDen, true);
    hide SseHalves, LaneCandidate, HitLanes;
    QuadHalvesFinalize(cull, false, ray.org, ray.dir, ray.tnear, ray.tfar, q.v0[i], q.v1[i], q.v2[i], q.v3[i]);
    HalvesNormals(q.v0[i], q.v1[i], q.v2[i], q.v3[i]);
  }

  /** The SSE nearest-hit driver: the first halves, then the second halves
      against the ray as the first call's epilogue left it. A ray that meets
      no quad of the batch comes back unchanged. */
  function Quad1Intersect(cull: bool, ray: Ray, q: QuadMv, epilogFor: Epilog1For<Ray>): (r: Ray)
    requires q.WellFormed()
    ensures var first := Call1(cull, ray, SseHalves(q, false), epilogFor, ray).1;
            r == Call1(cull, first, SseHalves(q, true), epilogFor, first).1
    ensures MissesQuads(cull, false, ray, q, q.Size()) ==> r == ray
  {
    SseHalvesHitQuads(cull, ray, q, false);
    SseHalvesHitQuads(cull, ray, q, true);
    var first := Call1(cull, ray, SseHalves(q, false), epilogFor, ray).1;
    Call1(cull, first, SseHalves(q, true), epilogFor, first).1
  }

  /** The SSE occlusion driver: the first call's result when it is true,
      otherwise the second call's against the ray the first left. A ray that
      meets no quad yields false and is unchanged; true is only reported for a
      ray that meets some quad (before or after the first call's epilogue). */
  function Quad1Occluded(cull: bool, ray: Ray, q: QuadMv, epilogFor: Epilog1For<Ray>): (r: (bool, Ray))
    requires q.WellFormed()
    ensures var first := Call1(cull, ray, SseHalves(q, false), epilogFor, ray);
            r == if first.0 then first else Call1(cull, first.1, SseHalves(q, true), epilogFor, first.1)
    ensures MissesQuads(cull, false, ray, q, q.Size()) ==> r == (false, ray)
    ensures r.0 ==> var after := Call1(cull, ray, SseHalves(q, false), epilogFor, ray).1;
                    exists i :: 0 <= i < q.Size() && (QuadHitAt(cull, false, ray, q, i) || QuadHitAt(cull, false, after, q, i))
  {
    var first := Call1(cull, ray, SseHalves(q, false), epilogFor, ray);
    SseHalvesHitQuads(cull, ray, q, false);
    SseHalvesHitQuads(cull, ray, q, true);
    SseHalvesHitQuads(cull, first.1, q, true);
    if first.0 then first
    else Call1(cull, first.1, SseHalves(q, true), epilogFor, first.1)
  }

  // ----- one ray, wide layout -----

  /** The wide layout as the AVX and ray-k drivers build it: lane j is the
      first half of quad j, unflagged, and lane M + j is (v2, v1, v3) of quad j,
      flagged; both lanes carry the identifiers of quad j. */
  function WideLayoutAsWritten(q: QuadMv): (w: Layout)
    requires q.WellFormed()
    ensures w.WellFormed() && w.Width() == 2 * q.Size()
    ensures forall j :: 0 <= j < q.Size() ==>
              && w.p0[j] == q.v0[j] && w.p1[j] == q.v1[j] && w.p2[j] == q.v3[j] && !w.flags[j]
              && w.geomIDs[j] == q.geomIDs[j] && w.primIDs[j] == q.primIDs[j]
    ensures forall j :: q.Size() <= j < 2 * q.Size() ==>
              && w.p0[j] == q.v2[j - q.Size()] && w.p1[j] == q.v1[j - q.Size()] && w.p2[j] == q.v3[j - q.Size()]
              && w.flags[j]
              && w.geomIDs[j] == q.geomIDs[j - q.Size()] && w.primIDs[j] == q.primIDs[j - q.Size()]
  {
    var M := q.Size();
    Layout(q.v0 + q.v2, q.v1 + q.v1, q.v3 + q.v3, Splat(M, false) + Splat(M, true),
           q.geomIDs + q.geomIDs, q.primIDs + q.primIDs)
  }

  /** A lane of the wide layout as written that the ray meets, under either
      culling mode, lies on a quad that the ray meets when culling is off. */
  lemma WideAsWrittenLaneOnQuad(cull: bool, ray: Ray, q: QuadMv, j: nat)
    requires q.WellFormed() && j < 2 * q.Size() && HitLanes(cull, ray, WideLayoutAsWritten(q))[j]
    ensures QuadHitAt(false, false, ray, q, if j < q.Size() then j else j - q.Size())
  {
    var w := WideLayoutAsWritten(q);
    CulledHitIsHit(false, ray.org, ray.dir, ray.tnear, ray.tfar, w.p0[j], w.p1[j], w.p2[j]);
    if j >= q.Size() {
      var i := j - q.Size();
      ReversedWindingHit(false, ray.org, ray.dir, ray.tnear, ray.tfar, q.v2[i], q.v3[i], q.v1[i]);
    }
  }

  /** Without culling, a quad the ray meets has a lane of the wide layout as
      written that the ray meets. */
  lemma QuadOnWideAsWrittenLane(ray: Ray, q: QuadMv, i: nat)
    requires q.WellFormed() && i < q.Size() && QuadHitAt(false, false, ray, q, i)
    ensures var m := HitLanes(false, ray, WideLayoutAsWritten(q));
            m[i] || m[q.Size() + i]
  {
    ReversedWindingHit(false, ray.org, ray.dir, ray.tnear, ray.tfar, q.v2[i], q.v3[i], q.v1[i]);
  }

  /** The wide layout as written: whatever the culling mode, the ray meets a
      lane only if it meets some quad (from either side); without culling it
      meets a lane exactly when it meets some quad. */
  lemma WideAsWrittenHits(cull: bool, ray: Ray, q: QuadMv)
    requires q.WellFormed()
    ensures Any(HitLanes(cull, ray, WideLayoutAsWritten(q))) ==> exists i :: 0 <= i < q.Size() && QuadHitAt(false, false, ray, q, i)
    ensures MissesQuads(false, false, ray, q, q.Size()) ==> None(HitLanes(cull, ray, WideLayoutAsWritten(q)))
    ensures !cull ==> (Any(HitLanes(cull, ray, WideLayoutAsWritten(q))) <==> exists i :: 0 <= i < q.Size() && QuadHitAt(false, false, ray, q, i))
  {
    var m := HitLanes(cull, ray, WideLayoutAsWritten(q));
    if j :| 0 <= j < |m| && m[j] {
      WideAsWrittenLaneOnQuad(cull, ray, q, j);
    }
    if !cull {
      if i :| 0 <= i < q.Size() && QuadHitAt(false, false, ray, q, i) {
        QuadOnWideAsWrittenLane(ray, q, i);
      }
    }
  }

  /** Under back-face culling the wide layout as written accepts the lane of
      a second half that the ray meets from the back, although culling
      rejects both halves of that quad. */
  lemma WideAsWrittenAcceptsBackHit(ray: Ray, q: QuadMv, i: nat)
    requires q.WellFormed() && i < q.Size() && Parallelogram(q.v0[i], q.v1[i], q.v2[i], q.v3[i])
    requires Dot(Normal(q.v0[i], q.v1[i], q.v3[i]), ray.dir) < 0.0
    requires RayHitsTriangle(false, ray.org, ray.dir, ray.tnear, ray.tfar, q.v2[i], q.v3[i], q.v1[i])
    ensures !QuadHitAt(true, false, ray, q, i)
    ensures HitLanes(true, ray, WideLayoutAsWritten(q))[q.Size() + i]
  {
    HalvesNormals(q.v0[i], q.v1[i], q.v2[i], q.v3[i]);
    ReversedWindingHit(false, ray.org, ray.dir, ray.tnear, ray.tfar, q.v2[i], q.v3[i], q.v1[i]);
  }

  /** Every lane of the wide layout as written that a call hands its epilogue
      reports, once finalize runs its AVX branch, the point where the ray
      meets the quad in the quad's own (u, v), a t inside the ray interval,
      and the quad's normal. */
  lemma WideAsWrittenReportsQuadPoints(cull: bool, ray: Ray, q: QuadMv)
    requires q.WellFormed() && forall i :: 0 <= i < q.Size() ==> Parallelogram(q.v0[i], q.v1[i], q.v2[i], q.v3[i])
    ensures var w := WideLayoutAsWritten(q);
            var f := AvxFinalized(LaneCandidate(ray, w));
            forall j :: 0 <= j < 2 * q.Size() && HitLanes(cull, ray, w)[j] ==>
              var i := if j < q.Size() then j else j - q.Size();
              && ReportsQuadPoint(false, ray.org, ray.dir, ray.tnear, ray.tfar, q.v0[i], q.v1[i], q.v3[i], LaneOf(f, j))
              && f.Ng[j] == Normal(q.v0[i], q.v1[i], q.v3[i])
  {
    forall j | 0 <= j < 2 * q.Size() && HitLanes(cull, ray, WideLayoutAsWritten(q))[j] {
      WideAsWrittenLaneReports(cull, ray, q, j);
    }
  }

  /** One lane of WideAsWrittenReportsQuadPoints. */
  lemma WideAsWrittenLaneReports(cull: bool, ray: Ray, q: QuadMv, j: nat)
    requires q.WellFormed() && j < 2 * q.Size() && HitLanes(cull, ray, WideLayoutAsWritten(q))[j]
    requires var i := if j < q.Size() then j else j - q.Size();
             Parallelogram(q.v0[i], q.v1[i], q.v2[i], q.v3[i])
    ensures var f := AvxFinalized(LaneCandidate(ray, WideLayoutAsWritten(q)));
            var i := if j < q.Size() then j else j - q.Size();
            && ReportsQuadPoint(false, ray.org, ray.dir, ray.tnear, ray.tfar, q.v0[i], q.v1[i], q.v3[i], LaneOf(f, j))
            && f.Ng[j] == Normal(q.v0[i], q.v1[i], q.v3[i])
  {
    var w := WideLayoutAsWritten(q);
    var c := LaneCandidate(ray, w);
    var i := if j < q.Size() then j else j - q.Size();
    var tm := LaneTerms(ray.org, ray.dir, FromVertices(w.p0[j], w.p1[j], w.p2[j]));
    HitLanesAccept(cull, ray, w, j);
    AvxFinalizedLane(c, j);
    assert LaneOf(AvxFinalized(c), j) == FinalLaneAvx(tm.U, tm.V, tm.T, tm.absDen, j >= q.Size());
    hide WideLayoutAsWritten, LaneCandidate, AvxFinalized, HitLanes;
    QuadHalvesFinalize(cull, false, ray.org, ray.dir, ray.tnear, ray.tfar, q.v0[i], q.v1[i], q.v2[i], q.v3[i]);
    HalvesNormals(q.v0[i], q.v1[i], q.v2[i], q.v3[i]);
    assert Neg(Neg(Normal(q.v0[i], q.v1[i], q.v3[i]))) == Normal(q.v0[i], q.v1[i], q.v3[i]);
  }

  /** The AVX single-ray nearest-hit driver (lines as written): the epilogue
      is handed exactly the lanes of the wide layout as written that the ray
      meets. A ray that meets no quad, from either side, comes back unchanged. */
  function Quad1IntersectWide(cull: bool, ray: Ray, q: QuadMv, epilogFor: Epilog1For<Ray>): (r: Ray)
    requires q.WellFormed()
    ensures var w := WideLayoutAsWritten(q);
            Any(HitLanes(cull, ray, w)) ==> r == epilogFor(w.geomIDs, w.primIDs)(HitLanes(cull, ray, w), LaneCandidate(ray, w), ray).1
    ensures MissesQuads(false, false, ray, q, q.Size()) ==> r == ray
  {
    WideAsWrittenHits(cull, ray, q);
    Call1(cull, ray, WideLayoutAsWritten(q), epilogFor, ray).1
  }

  /** The AVX single-ray occlusion driver: the epilogue is handed exactly the
      lanes of the wide layout as written that the ray meets; false and the
      ray unchanged for a ray that meets no quad; true only for a ray that
      meets a quad, from the front or, under culling, possibly from the back. */
  function Quad1OccludedWide(cull: bool, ray: Ray, q: QuadMv, epilogFor: Epilog1For<Ray>): (r: (bool, Ray))
    requires q.WellFormed()
    ensures var w := WideLayoutAsWritten(q);
            Any(HitLanes(cull, ray, w)) ==> r == epilogFor(w.geomIDs, w.primIDs)(HitLanes(cull, ray, w), LaneCandidate(ray, w), ray)
    ensures MissesQuads(false, false, ray, q, q.Size()) ==> r == (false, ray)
    ensures r.0 ==> exists i :: 0 <= i < q.Size() && QuadHitAt(false, false, ray, q, i)
  {
    WideAsWrittenHits(cull, ray, q);
    Call1(cull, ray, WideLayoutAsWritten(q), epilogFor, ray)
  }

  /** The wide layout with the second halves wound as in the SSE drivers: lane
      j is the first half of quad j and lane M + j its second half (v2, v3, v1),
      flagged; both lanes carry the identifiers of quad j. */
  function WideLayout(q: QuadMv): (w: Layout)
    requires q.WellFormed()
    ensures w.WellFormed() && w.Width() == 2 * q.Size()
    ensures forall j :: 0 <= j < q.Size() ==>
              && w.p0[j] == q.v0[j] && w.p1[j] == q.v1[j] && w.p2[j] == q.v3[j] && !w.flags[j]
              && w.geomIDs[j] == q.geomIDs[j] && w.primIDs[j] == q.primIDs[j]
    ensures forall j :: q.Size() <= j < 2 * q.Size() ==>
              && w.p0[j] == q.v2[j - q.Size()] && w.p1[j] == q.v3[j - q.Size()] && w.p2[j] == q.v1[j - q.Size()]
              && w.flags[j]
              && w.geomIDs[j] == q.geomIDs[j - q.Size()] && w.primIDs[j] == q.primIDs[j - q.Size()]
  {
    var M := q.Size();
    Layout(q.v0 + q.v2, q.v1 + q.v3, q.v3 + q.v1, Splat(M, false) + Splat(M, true),
           q.geomIDs + q.geomIDs, q.primIDs + q.primIDs)
  }

  /** A lane of the wide layout that the ray meets is a half of some quad. */
  lemma WideLaneHitIsQuadHit(cull: bool, closed: bool, ray: Ray, q: QuadMv, j: nat)
    requires q.WellFormed() && j < 2 * q.Size()
    requires HalfHit(cull, closed, ray, WideLayout(q).p0[j], WideLayout(q).p1[j], WideLayout(q).p2[j])
    ensures QuadHitAt(cull, closed, ray, q, if j < q.Size() then j else j - q.Size())
  {
  }

  /** A quad the ray meets has a lane of the wide layout the ray meets. */
  lemma QuadHitIsWideLaneHit(cull: bool, closed: bool, ray: Ray, q: QuadMv, i: nat)
    requires q.WellFormed() && i < q.Size() && QuadHitAt(cull, closed, ray, q, i)
    ensures var w := WideLayout(q);
            var j := if HalfHit(cull, closed, ray, q.v0[i], q.v1[i], q.v3[i]) then i else q.Size() + i;
            HalfHit(cull, closed, ray, w.p0[j], w.p1[j], w.p2[j])
  {
  }

  /** The ray meets some lane of the wide layout exactly when it meets some quad. */
  lemma WideLayoutHits(cull: bool, closed: bool, ray: Ray, q: QuadMv)
    requires q.WellFormed()
    ensures var w := WideLayout(q);
            (exists j :: 0 <= j < |w.p0| && HalfHit(cull, closed, ray, w.p0[j], w.p1[j], w.p2[j]))
            <==> (exists i :: 0 <= i < q.Size() && QuadHitAt(cull, closed, ray, q, i))
  {
    var w := WideLayout(q);
    var M := q.Size();
    if j :| 0 <= j < |w.p0| && HalfHit(cull, closed, ray, w.p0[j], w.p1[j], w.p2[j]) {
      WideLaneHitIsQuadHit(cull, closed, ray, q, j);
    }
    if i :| 0 <= i < M && QuadHitAt(cull, closed, ray, q, i) {
      QuadHitIsWideLaneHit(cull, closed, ray, q, i);
    }
  }

  /** Every lane of the corrected wide layout that a call hands its epilogue
      reports, once finalised by the non-AVX branch (as QuadHitK does), the
      point where the ray meets the quad in the quad's own (u, v), a t inside
      the ray interval, and the quad's normal. */
  lemma WideLayoutReportsQuadPoints(cull: bool, ray: Ray, q: QuadMv)
    requires q.WellFormed() && forall i :: 0 <= i < q.Size() ==> Parallelogram(q.v0[i], q.v1[i], q.v2[i], q.v3[i])
    ensures var w := WideLayout(q);
            var f := FinalizeK(LaneCandidate(ray, w));
            forall j :: 0 <= j < 2 * q.Size() && HitLanes(cull, ray, w)[j] ==>
              var i := if j < q.Size() then j else j - q.Size();
              && ReportsQuadPoint(false, ray.org, ray.dir, ray.tnear, ray.tfar, q.v0[i], q.v1[i], q.v3[i], LaneOf(f, j))
              && f.Ng[j] == Normal(q.v0[i], q.v1[i], q.v3[i])
  {
    forall j | 0 <= j < 2 * q.Size() && HitLanes(cull, ray, WideLayout(q))[j] {
      WideLayoutLaneReports(cull, ray, q, j);
    }
  }

  /** One lane of WideLayoutReportsQuadPoints. */
  lemma WideLayoutLaneReports(cull: bool, ray: Ray, q: QuadMv, j: nat)
    requires q.WellFormed() && j < 2 * q.Size() && HitLanes(cull, ray, WideLayout(q))[j]
    requires var i := if j < q.Size() then j else j - q.Size();
             Parallelogram(q.v0[i], q.v1[i], q.v2[i], q.v3[i])
    ensures var f := FinalizeK(LaneCandidate(ray, WideLayout(q)));
            var i := if j < q.Size() then j else j - q.Size();
            && ReportsQuadPoint(false, ray.org, ray.dir, ray.tnear, ray.tfar, q.v0[i], q.v1[i], q.v3[i], LaneOf(f, j))
            && f.Ng[j] == Normal(q.v0[i], q.v1[i], q.v3[i])
  {
    var w := WideLayout(q);
    var c := LaneCandidate(ray, w);
    var i := if j < q.Size() then j else j - q.Size();
    var tm := LaneTerms(ray.org, ray.dir, FromVertices(w.p0[j], w.p1[j], w.p2[j]));
    HitLanesAccept(cull, ray, w, j);
    FinalizeKLane(c, j);
    assert LaneOf(FinalizeK(c), j) == FinalLane(tm.U, tm.V, tm.T, tm.absDen, j >= q.Size());
    hide WideLayout, LaneCandidate, FinalizeK, HitLanes;
    QuadHalvesFinalize(cull, false, ray.org, ray.dir, ray.tnear, ray.tfar, q.v0[i], q.v1[i], q.v2[i], q.v3[i]);
    HalvesNormals(q.v0[i], q.v1[i], q.v2[i], q.v3[i]);
  }

  /** Finalised by the AVX branch instead, the second-half lanes of the
      corrected layout would report the negated quad normal: the corrected
      winding goes together with the non-AVX finalisation. */
  lemma WideLayoutAvxFlipsNormals(ray: Ray, q: QuadMv, i: nat)
    requires q.WellFormed() && i < q.Size() && Parallelogram(q.v0[i], q.v1[i], q.v2[i], q.v3[i])
    ensures AvxFinalized(LaneCandidate(ray, WideLayout(q))).Ng[q.Size() + i] == Neg(Normal(q.v0[i], q.v1[i], q.v3[i]))
  {
    HalvesNormals(q.v0[i], q.v1[i], q.v2[i], q.v3[i]);
  }

  /** The corrected wide nearest-hit driver: the epilogue is handed exactly the
      lanes of the corrected layout that the ray meets; a ray that meets no
      quad comes back unchanged. */
  function Quad1IntersectWideCorrected(cull: bool, ray: Ray, q: QuadMv, epilogFor: Epilog1For<Ray>): (r: Ray)
    requires q.WellFormed()
    ensures var w := WideLayout(q);
            Any(HitLanes(cull, ray, w)) ==> r == epilogFor(w.geomIDs, w.primIDs)(HitLanes(cull, ray, w), LaneCandidate(ray, w), ray).1
    ensures MissesQuads(cull, false, ray, q, q.Size()) ==> r == ray
  {
    WideLayoutHits(cull, false, ray, q);
    Call1(cull, ray, WideLayout(q), epilogFor, ray).1
  }

  /** The corrected wide occlusion driver: false and the ray unchanged for a
      ray that meets no quad; true only for a ray that meets one, from the
      front under culling. */
  function Quad1OccludedWideCorrected(cull: bool, ray: Ray, q: QuadMv, epilogFor: Epilog1For<Ray>): (r: (bool, Ray))
    requires q.WellFormed()
    ensures var w := WideLayout(q);
            Any(HitLanes(cull, ray, w)) ==> r == epilogFor(w.geomIDs, w.primIDs)(HitLanes(cull, ray, w), LaneCandidate(ray, w), ray)
    ensures MissesQuads(cull, false, ray, q, q.Size()) ==> r == (false, ray)
    ensures r.0 ==> exists i :: 0 <= i < q.Size() && QuadHitAt(cull, false, ray, q, i)
  {
    WideLayoutHits(cull, false, ray, q);
    Call1(cull, ray, WideLayout(q), epilogFor, ray)
  }

  /** Under back-face culling the (v2, v1, v3) winding of the wide layout as
      written culls the second half of a parallelogram exactly when the first
      half faces the ray, while the (v2, v3, v1) winding faces the ray whenever
      the first half does. */
  lemma WideAsWrittenCullsFrontFacing(org: Vec3, dir: Vec3, tnear: real, tfar: real,
                                      q0: Vec3, q1: Vec3, q2: Vec3, q3: Vec3)
    requires Parallelogram(q0, q1, q2, q3) && Dot(Normal(q0, q1, q3), dir) > 0.0
    ensures !Accepts(true, false, LaneTerms(org, dir, FromVertices(q2, q1, q3)), tnear, tfar)
    ensures Facing(true, LaneTerms(org, dir, FromVertices(q2, q3, q1)).den)
  {
    HalvesNormals(q0, q1, q2, q3);
    var n := Normal(q0, q1, q3);
    assert Dot(Neg(n), dir) == -Dot(n, dir);
  }

  /** Under back-face culling, the wide layout as written rejects both lanes
      of a one-quad parallelogram batch when the ray misses the first half and
      meets the second half from the front. */
  lemma WideAsWrittenRejectsBothLanes(ray: Ray, q: QuadMv)
    requires q.WellFormed() && q.Size() == 1 && Parallelogram(q.v0[0], q.v1[0], q.v2[0], q.v3[0])
    requires !Accepts(true, false, LaneTerms(ray.org, ray.dir, FromVertices(q.v0[0], q.v1[0], q.v3[0])), ray.tnear, ray.tfar)
    requires Facing(true, LaneTerms(ray.org, ray.dir, FromVertices(q.v2[0], q.v3[0], q.v1[0])).den)
    ensures var w := WideLayoutAsWritten(q);
            None(Intersect1Mask(true, ray, Triangles(w.p0, w.p1, w.p2)))
  {
    var v0, v1, v2, v3 := q.v0[0], q.v1[0], q.v2[0], q.v3[0];
    assert Dot(Normal(v0, v1, v3), ray.dir) > 0.0 by {
      HalvesNormals(v0, v1, v2, v3);
    }
    WideAsWrittenCullsFrontFacing(ray.org, ray.dir, ray.tnear, ray.tfar, v0, v1, v2, v3);
    var w := WideLayoutAsWritten(q);
    var tris := Triangles(w.p0, w.p1, w.p2);
    assert tris[0] == FromVertices(v0, v1, v3) && tris[1] == FromVertices(v2, v1, v3);
    var m := Intersect1Mask(true, ray, tris);
    assert !m[0] && !m[1];
  }

  /** The corrected wide layout accepts the lane of a second half that passes
      every test. */
  lemma WideLayoutAcceptsSecondHalf(cull: bool, ray: Ray, q: QuadMv)
    requires q.WellFormed() && q.Size() == 1
    requires Accepts(cull, false, LaneTerms(ray.org, ray.dir, FromVertices(q.v2[0], q.v3[0], q.v1[0])), ray.tnear, ray.tfar)
    ensures var w := WideLayout(q);
            Intersect1Mask(cull, ray, Triangles(w.p0, w.p1, w.p2))[1]
  {
    var w := WideLayout(q);
    assert Triangles(w.p0, w.p1, w.p2)[1] == FromVertices(q.v2[0], q.v3[0], q.v1[0]);
  }

  /** A ray that misses the first half of a one-quad parallelogram batch but
      meets its second half from the front is a hit of the quad, yet under
      back-face culling the wide layout as written accepts neither of its two
      lanes, so the wide drivers never reach their epilogue; the corrected
      layout accepts the lane of the second half. */
  lemma WideAsWrittenMissesFrontHit(ray: Ray, q: QuadMv)
    requires q.WellFormed() && q.Size() == 1 && Parallelogram(q.v0[0], q.v1[0], q.v2[0], q.v3[0])
    requires !Accepts(true, false, LaneTerms(ray.org, ray.dir, FromVertices(q.v0[0], q.v1[0], q.v3[0])), ray.tnear, ray.tfar)
    requires Accepts(true, false, LaneTerms(ray.org, ray.dir, FromVertices(q.v2[0], q.v3[0], q.v1[0])), ray.tnear, ray.tfar)
    ensures QuadHitAt(true, false, ray, q, 0)
    ensures var w := WideLayoutAsWritten(q);
            None(Intersect1Mask(true, ray, Triangles(w.p0, w.p1, w.p2)))
    ensures var w := WideLayout(q);
            Intersect1Mask(true, ray, Triangles(w.p0, w.p1, w.p2))[1]
  {
    AcceptsIffHit(true, false, ray.org, ray.dir, ray.tnear, ray.tfar, q.v2[0], q.v3[0], q.v1[0]);
    WideAsWrittenRejectsBothLanes(ray, q);
    WideLayoutAcceptsSecondHalf(true, ray, q);
  }

  // ----- ray k of a packet, wide layout -----

  /** The ray-k nearest-hit driver: intersect1 on the wide layout as written,
      so its epilogue is handed exactly the lanes ray k meets; a packet whose
      ray k meets no quad, from either side, comes back unchanged. */
  function QuadKIntersectRay(cull: bool, rays: seq<Ray>, k: nat, q: QuadMv, epilogFor: Epilog1For<seq<Ray>>): (r: seq<Ray>)
    requires q.WellFormed() && k < |rays|
    ensures var w := WideLayoutAsWritten(q);
            Any(HitLanes(cull, rays[k], w)) ==>
              r == epilogFor(w.geomIDs, w.primIDs)(HitLanes(cull, rays[k], w), LaneCandidate(rays[k], w), rays).1
    ensures MissesQuads(false, false, rays[k], q, q.Size()) ==> r == rays
  {
    WideAsWrittenHits(cull, rays[k], q);
    CallInPacket(cull, rays, k, WideLayoutAsWritten(q), epilogFor).1
  }

  /** The ray-k occlusion driver, on the wide layout as written: false and the
      packet unchanged when ray k meets no quad; true only when ray k meets a
      quad, from the front or, under culling, possibly from the back. */
  function QuadKOccludedRay(cull: bool, rays: seq<Ray>, k: nat, q: QuadMv, epilogFor: Epilog1For<seq<Ray>>): (r: (bool, seq<Ray>))
    requires q.WellFormed() && k < |rays|
    ensures var w := WideLayoutAsWritten(q);
            Any(HitLanes(cull, rays[k], w)) ==>
              r == epilogFor(w.geomIDs, w.primIDs)(HitLanes(cull, rays[k], w), LaneCandidate(rays[k], w), rays)
    ensures MissesQuads(false, false, rays[k], q, q.Size()) ==> r == (false, rays)
    ensures r.0 ==> exists i :: 0 <= i < q.Size() && QuadHitAt(false, false, rays[k], q, i)
  {
    WideAsWrittenHits(cull, rays[k], q);
    CallInPacket(cull, rays, k, WideLayoutAsWritten(q), epilogFor)
  }

  /** The ray-k occlusion driver on the corrected layout: true only when ray k
      meets a quad, from the front under culling. */
  function QuadKOccludedRayCorrected(cull: bool, rays: seq<Ray>, k: nat, q: QuadMv, epilogFor: Epilog1For<seq<Ray>>): (r: (bool, seq<Ray>))
    requires q.WellFormed() && k < |rays|
    ensures var w := WideLayout(q);
            Any(HitLanes(cull, rays[k], w)) ==>
              r == epilogFor(w.geomIDs, w.primIDs)(HitLanes(cull, rays[k], w), LaneCandidate(rays[k], w), rays)
    ensures MissesQuads(cull, false, rays[k], q, q.Size()) ==> r == (false, rays)
    ensures r.0 ==> exists i :: 0 <= i < q.Size() && QuadHitAt(cull, false, rays[k], q, i)
  {
    WideLayoutHits(cull, false, rays[k], q);
    CallInPacket(cull, rays, k, WideLayout(q), epilogFor)
  }

  // ----- a packet of K rays against the batch -----

  /** The packet drivers build their epilogue from the identifiers and the quad index. */
  type EpilogKFor<!S> = (seq<int>, seq<int>, nat) -> EpilogK<S>

  /** A packet epilogue keeps the packet width (RayK<K> has K lanes). */
  ghost predicate KeepsPacketWidth(epilogFor: EpilogKFor<seq<Ray>>)
  {
    forall g, p, i, m, h, s :: |epilogFor(g, p, i)(m, h, s).1| == |s|
  }

  /** Slots 0 .. FirstInvalid(valid) - 1 are valid, and the slot at
      FirstInvalid(valid), if any, is not. */
  function FirstInvalid(valid: seq<bool>): (n: nat)
    ensures n <= |valid|
    ensures forall i :: 0 <= i < n ==> valid[i]
    ensures n < |valid| ==> !valid[n]
  {
    if |valid| == 0 || !valid[0] then 0 else 1 + FirstInvalid(valid[1..])
  }

  /** A valid slot before FirstInvalid(valid) is followed by at most
      FirstInvalid(valid) slots, so the loop index stays within it. */
  lemma FirstInvalidStep(valid: seq<bool>, i: nat)
    requires i <= FirstInvalid(valid) && i < |valid| && valid[i]
    ensures i + 1 <= FirstInvalid(valid)
  {
  }

  /** A ray that misses the first n quads misses the first m <= n of them. */
  lemma MissesFewerQuads(cull: bool, closed: bool, ray: Ray, q: QuadMv, m: nat, n: nat)
    requires q.WellFormed() && m <= n <= q.Size() && MissesQuads(cull, closed, ray, q, n)
    ensures MissesQuads(cull, closed, ray, q, m)
  {
  }

  /** The primitive identifiers the packet driver hands with the second halves,
      as written: primIDs + 1 on every lane. */
  function SecondHalfIdsAsWritten(q: QuadMv): (ids: seq<int>)
    requires q.WellFormed()
    ensures |ids| == q.Size() && forall i :: 0 <= i < q.Size() ==> ids[i] == q.primIDs[i] + 1
  {
    seq(q.Size(), i requires 0 <= i < q.Size() => q.primIDs[i] + 1)
  }

  /** As written, the packet nearest-hit driver reports the second half of
      quad i with another identifier than the wide drivers give the same half. */
  lemma SecondHalfIdsDisagree(q: QuadMv)
    requires q.WellFormed()
    ensures forall i :: 0 <= i < q.Size() ==> SecondHalfIdsAsWritten(q)[i] != WideLayoutAsWritten(q).primIDs[q.Size() + i]
  {
  }

  /** The identifiers the packet occlusion driver hands with both halves, and
      the corrected nearest-hit step with its second halves, are the batch's
      own: the ones the wide drivers give lanes i and M + i. */
  lemma HalfIdsAgreeWithWide(q: QuadMv)
    requires q.WellFormed()
    ensures forall i :: 0 <= i < q.Size() ==>
              q.primIDs[i] == WideLayoutAsWritten(q).primIDs[i] && q.primIDs[i] == WideLayoutAsWritten(q).primIDs[q.Size() + i]
  {
  }

  /** The lanes one intersectK call of a packet loop hands its epilogue, on
      half `second` of quad i: the active rays that meet the half inside their
      closed interval, from the front under culling. */
  function HalfMaskK(cull: bool, valid0: seq<bool>, rays: seq<Ray>, q: QuadMv, i: nat, second: bool): (m: seq<bool>)
    requires q.WellFormed() && i < q.Size() && |valid0| == |rays|
    ensures |m| == |rays|
    ensures forall k :: 0 <= k < |rays| ==>
              (m[k] <==> valid0[k] && HalfHit(cull, true, rays[k], HalfVertex(q, i, second, 0), HalfVertex(q, i, second, 1), HalfVertex(q, i, second, 2)))
  {
    var p0, p1, p2 := HalfVertex(q, i, second, 0), HalfVertex(q, i, second, 1), HalfVertex(q, i, second, 2);
    IntersectKMaskIsGeometric(cull, valid0, rays, p0, p1, p2);
    IntersectKMask(cull, valid0, rays, FromVertices(p0, p1, p2))
  }

  /** The deferred hit that call builds: lane k carries the terms of ray k
      against the half, the half's normal and the half's flag. */
  function HalfCandidateK(rays: seq<Ray>, q: QuadMv, i: nat, second: bool): (c: Candidate)
    requires q.WellFormed() && i < q.Size()
    ensures c.WellFormed() && c.Width() == |rays| && c.flags == Splat(|rays|, second)
    ensures forall k :: 0 <= k < |rays| ==>
              var tm := LaneTerms(rays[k].org, rays[k].dir,
                                  FromVertices(HalfVertex(q, i, second, 0), HalfVertex(q, i, second, 1), HalfVertex(q, i, second, 2)));
              && c.U[k] == tm.U && c.V[k] == tm.V && c.T[k] == tm.T && c.absDen[k] == tm.absDen
              && c.Ng[k] == Normal(HalfVertex(q, i, second, 0), HalfVertex(q, i, second, 1), HalfVertex(q, i, second, 2))
  {
    var tri := FromVertices(HalfVertex(q, i, second, 0), HalfVertex(q, i, second, 1), HalfVertex(q, i, second, 2));
    CandidateOf(PacketTerms(rays, tri), Splat(|rays|, tri.Ng), Splat(|rays|, second))
  }

  /** One intersectK call of a packet loop on half `second` of quad i: the
      empty mask with the state untouched when no active ray meets the half;
      otherwise the epilogue, handed exactly the lanes of those rays and the
      deferred hit. */
  function HalfCallK<S>(cull: bool, valid0: seq<bool>, rays: seq<Ray>, q: QuadMv, i: nat, second: bool,
                        epilog: EpilogK<S>, s: S): (r: (seq<bool>, S))
    requires q.WellFormed() && i < q.Size() && |valid0| == |rays|
    ensures None(HalfMaskK(cull, valid0, rays, q, i, second)) ==> r == (Splat(|rays|, false), s)
    ensures Any(HalfMaskK(cull, valid0, rays, q, i, second)) ==>
              r == epilog(HalfMaskK(cull, valid0, rays, q, i, second), HalfCandidateK(rays, q, i, second), s)
  {
    IntersectKVertices(cull, valid0, rays, HalfVertex(q, i, second, 0), HalfVertex(q, i, second, 1), HalfVertex(q, i, second, 2),
                       Splat(|rays|, second), epilog, s)
  }

  /** One iteration of the packet nearest-hit loop: intersectK on the first
      half of quad i, then on the second half against the packet as the first
      epilogue left it. */
  function IntersectStepK(cull: bool, valid_i: seq<bool>, rays: seq<Ray>, q: QuadMv, i: nat,
                          epilogFor: EpilogKFor<seq<Ray>>): (r: seq<Ray>)
    requires q.WellFormed() && i < q.Size() && |valid_i| == |rays| && KeepsPacketWidth(epilogFor)
    ensures |r| == |rays|
    ensures var first := HalfCallK(cull, valid_i, rays, q, i, false, epilogFor(q.geomIDs, q.primIDs, i), rays).1;
            r == HalfCallK(cull, valid_i, first, q, i, true, epilogFor(q.geomIDs, SecondHalfIdsAsWritten(q), i), first).1
  {
    var first := HalfCallK(cull, valid_i, rays, q, i, false, epilogFor(q.geomIDs, q.primIDs, i), rays).1;
    HalfCallK(cull, valid_i, first, q, i, true, epilogFor(q.geomIDs, SecondHalfIdsAsWritten(q), i), first).1
  }

  /** The nearest-hit step with the batch's own identifiers on both halves. */
  function IntersectStepKIntended(cull: bool, valid_i: seq<bool>, rays: seq<Ray>, q: QuadMv, i: nat,
                                  epilogFor: EpilogKFor<seq<Ray>>): (r: seq<Ray>)
    requires q.WellFormed() && i < q.Size() && |valid_i| == |rays| && KeepsPacketWidth(epilogFor)
    ensures |r| == |rays|
    ensures var first := HalfCallK(cull, valid_i, rays, q, i, false, epilogFor(q.geomIDs, q.primIDs, i), rays).1;
            r == HalfCallK(cull, valid_i, first, q, i, true, epilogFor(q.geomIDs, q.primIDs, i), first).1
    ensures (forall k :: 0 <= k < |rays| && valid_i[k] ==>
               !HalfHit(cull, true, rays[k], q.v0[i], q.v1[i], q.v3[i]) && !HalfHit(cull, true, rays[k], q.v2[i], q.v3[i], q.v1[i]))
            ==> r == rays
  {
    var first := HalfCallK(cull, valid_i, rays, q, i, false, epilogFor(q.geomIDs, q.primIDs, i), rays).1;
    HalfCallK(cull, valid_i, first, q, i, true, epilogFor(q.geomIDs, q.primIDs, i), first).1
  }

  /** The as-written step and the intended one differ only in the primitive
      identifiers the second epilogue is built from: for an epilogue that
      does not look at them they agree. */
  lemma IntersectStepKIdsOnly(cull: bool, valid_i: seq<bool>, rays: seq<Ray>, q: QuadMv, i: nat,
                              epilogFor: EpilogKFor<seq<Ray>>)
    requires q.WellFormed() && i < q.Size() && |valid_i| == |rays| && KeepsPacketWidth(epilogFor)
    requires epilogFor(q.geomIDs, SecondHalfIdsAsWritten(q), i) == epilogFor(q.geomIDs, q.primIDs, i)
    ensures IntersectStepK(cull, valid_i, rays, q, i, epilogFor) == IntersectStepKIntended(cull, valid_i, rays, q, i, epilogFor)
  {
  }

  /** A packet none of whose active rays meets quad i comes out of one
      iteration unchanged. */
  lemma IntersectStepKMisses(cull: bool, valid_i: seq<bool>, rays: seq<Ray>, q: QuadMv, i: nat,
                             epilogFor: EpilogKFor<seq<Ray>>)
    requires q.WellFormed() && i < q.Size() && |valid_i| == |rays| && KeepsPacketWidth(epilogFor)
    requires forall k :: 0 <= k < |rays| && valid_i[k] ==>
               !HalfHit(cull, true, rays[k], q.v0[i], q.v1[i], q.v3[i]) && !HalfHit(cull, true, rays[k], q.v2[i], q.v3[i], q.v1[i])
    ensures IntersectStepK(cull, valid_i, rays, q, i, epilogFor) == rays
  {
    HalfMaskKNone(cull, valid_i, rays, q, i, false);
    HalfMaskKNone(cull, valid_i, rays, q, i, true);
    hide HalfMaskK, HalfCandidateK, HalfCallK, HalfHit;
  }

  /** No lane is handed to the epilogue when no active ray meets the half. */
  lemma HalfMaskKNone(cull: bool, valid0: seq<bool>, rays: seq<Ray>, q: QuadMv, i: nat, second: bool)
    requires q.WellFormed() && i < q.Size() && |valid0| == |rays|
    requires forall k :: 0 <= k < |rays| && valid0[k] ==>
               !HalfHit(cull, true, rays[k], HalfVertex(q, i, second, 0), HalfVertex(q, i, second, 1), HalfVertex(q, i, second, 2))
    ensures None(HalfMaskK(cull, valid0, rays, q, i, second))
  {
  }

  /** The packet after the nearest-hit loop has processed quads 0 .. n - 1 in order. */
  function IntersectPrefixK(cull: bool, valid_i: seq<bool>, rays: seq<Ray>, q: QuadMv,
                            epilogFor: EpilogKFor<seq<Ray>>, n: nat): (r: seq<Ray>)
    requires q.WellFormed() && n <= q.Size() && |valid_i| == |rays| && KeepsPacketWidth(epilogFor)
    ensures |r| == |rays|
  {
    if n == 0 then rays
    else IntersectStepK(cull, valid_i, IntersectPrefixK(cull, valid_i, rays, q, epilogFor, n - 1), q, n - 1, epilogFor)
  }

  /** The loop's next iteration extends the prefix by quad n. */
  lemma IntersectPrefixKNext(cull: bool, valid_i: seq<bool>, rays: seq<Ray>, q: QuadMv,
                             epilogFor: EpilogKFor<seq<Ray>>, n: nat)
    requires q.WellFormed() && n < q.Size() && |valid_i| == |rays| && KeepsPacketWidth(epilogFor)
    ensures IntersectPrefixK(cull, valid_i, rays, q, epilogFor, n + 1)
         == IntersectStepK(cull, valid_i, IntersectPrefixK(cull, valid_i, rays, q, epilogFor, n), q, n, epilogFor)
  {
  }

  /** A packet none of whose active rays meets any of the first n quads comes
      out of the nearest-hit loop unchanged. */
  lemma {:induction false} IntersectPrefixKMisses(cull: bool, valid_i: seq<bool>, rays: seq<Ray>, q: QuadMv,
                                                  epilogFor: EpilogKFor<seq<Ray>>, n: nat)
    requires q.WellFormed() && n <= q.Size() && |valid_i| == |rays| && KeepsPacketWidth(epilogFor)
    requires forall k :: 0 <= k < |rays| && valid_i[k] ==> MissesQuads(cull, true, rays[k], q, n)
    ensures IntersectPrefixK(cull, valid_i, rays, q, epilogFor, n) == rays
  {
    hide IntersectStepK, HalfMaskK, HalfCandidateK, HalfCallK;
    if n > 0 {
      PacketMissesFewerQuads(cull, valid_i, rays, q, n);
      IntersectPrefixKMisses(cull, valid_i, rays, q, epilogFor, n - 1);
      PacketMissesLastQuad(cull, valid_i, rays, q, n);
      IntersectStepKMisses(cull, valid_i, rays, q, n - 1, epilogFor);
      assert IntersectPrefixK(cull, valid_i, rays, q, epilogFor, n)
          == IntersectStepK(cull, valid_i, IntersectPrefixK(cull, valid_i, rays, q, epilogFor, n - 1), q, n - 1, epilogFor);
    }
  }

  /** Active rays that miss the first n quads miss the first n - 1 of them. */
  lemma PacketMissesFewerQuads(cull: bool, valid_i: seq<bool>, rays: seq<Ray>, q: QuadMv, n: nat)
    requires q.WellFormed() && 0 < n <= q.Size() && |valid_i| == |rays|
    requires forall k :: 0 <= k < |rays| && valid_i[k] ==> MissesQuads(cull, true, rays[k], q, n)
    ensures forall k :: 0 <= k < |rays| && valid_i[k] ==> MissesQuads(cull, true, rays[k], q, n - 1)
  {
    forall k | 0 <= k < |rays| && valid_i[k]
      ensures MissesQuads(cull, true, rays[k], q, n - 1)
    {
      MissesFewerQuads(cull, true, rays[k], q, n - 1, n);
    }
  }

  /** Active rays that miss the first n quads miss both halves of quad n - 1. */
  lemma PacketMissesLastQuad(cull: bool, valid_i: seq<bool>, rays: seq<Ray>, q: QuadMv, n: nat)
    requires q.WellFormed() && 0 < n <= q.Size() && |valid_i| == |rays|
    requires forall k :: 0 <= k < |rays| && valid_i[k] ==> MissesQuads(cull, true, rays[k], q, n)
    ensures forall k :: 0 <= k < |rays| && valid_i[k] ==>
              !HalfHit(cull, true, rays[k], q.v0[n - 1], q.v1[n - 1], q.v3[n - 1])
              && !HalfHit(cull, true, rays[k], q.v2[n - 1], q.v3[n - 1], q.v1[n - 1])
  {
  }

  /** The loop stops at FirstInvalid(valid): at the end of the slots or at an
      invalid slot reached without passing it. */
  lemma FirstInvalidExit(valid: seq<bool>, i: nat)
    requires i <= FirstInvalid(valid) && (i == |valid| || (i < |valid| && !valid[i]))
    ensures i == FirstInvalid(valid)
  {
  }

  /** QuadMvIntersectorKMoellerTrumbore::intersect: the quads in order, up to
      the first invalid slot. */
  method IntersectBatchK(cull: bool, valid_i: seq<bool>, rays: seq<Ray>, q: QuadMv,
                         epilogFor: EpilogKFor<seq<Ray>>) returns (r: seq<Ray>)
    requires q.WellFormed() && |valid_i| == |rays| && KeepsPacketWidth(epilogFor)
    ensures r == IntersectPrefixK(cull, valid_i, rays, q, epilogFor, FirstInvalid(q.valid))
  {
    // The loop only chains iterations: what one iteration does is not needed here.
    hide IntersectStepK;
    r := rays;
    var i := 0;
    while i < q.Size()
      invariant i <= FirstInvalid(q.valid) && |r| == |rays|
      invariant r == IntersectPrefixK(cull, valid_i, rays, q, epilogFor, i)
    {
      if !q.valid[i] {
        break;
      }
      FirstInvalidStep(q.valid, i);
      IntersectPrefixKNext(cull, valid_i, rays, q, epilogFor, i);
      r := IntersectStepK(cull, valid_i, r, q, i, epilogFor);
      i := i + 1;
    }
    FirstInvalidExit(q.valid, i);
  }

  /** The occlusion loop's state: the active mask valid0 and the packet. */
  datatype Occlusion = Occlusion(active: seq<bool>, rays: seq<Ray>)

  /** An occlusion epilogue keeps the widths of the mask and of the packet. */
  ghost predicate KeepsOcclusionWidth(epilogFor: EpilogKFor<Occlusion>)
  {
    forall g, p, i, m, h, s ::
      |epilogFor(g, p, i)(m, h, s).1.active| == |s.active| && |epilogFor(g, p, i)(m, h, s).1.rays| == |s.rays|
  }

  /** One intersectK call of the occlusion loop, on the first or the second
      half of quad i, with valid0 as the kernel's mask. A state none of whose
      active rays meets that half is unchanged. */
  function OccludeHalfK(cull: bool, st: Occlusion, q: QuadMv, i: nat, second: bool,
                        epilogFor: EpilogKFor<Occlusion>): (r: Occlusion)
    requires q.WellFormed() && i < q.Size() && |st.active| == |st.rays| && KeepsOcclusionWidth(epilogFor)
    ensures |r.active| == |st.active| && |r.rays| == |st.rays|
    ensures None(HalfMaskK(cull, st.active, st.rays, q, i, second)) ==> r == st
    ensures Any(HalfMaskK(cull, st.active, st.rays, q, i, second)) ==>
              r == epilogFor(q.geomIDs, q.primIDs, i)(HalfMaskK(cull, st.active, st.rays, q, i, second),
                                                       HalfCandidateK(st.rays, q, i, second), st).1
  {
    HalfCallK(cull, st.active, st.rays, q, i, second, epilogFor(q.geomIDs, q.primIDs, i), st).1
  }

  /** A state none of whose active rays meets the half is unchanged. */
  lemma OccludeHalfKMisses(cull: bool, st: Occlusion, q: QuadMv, i: nat, second: bool,
                           epilogFor: EpilogKFor<Occlusion>)
    requires q.WellFormed() && i < q.Size() && |st.active| == |st.rays| && KeepsOcclusionWidth(epilogFor)
    requires forall k :: 0 <= k < |st.rays| && st.active[k] ==>
               !HalfHit(cull, true, st.rays[k], HalfVertex(q, i, second, 0), HalfVertex(q, i, second, 1), HalfVertex(q, i, second, 2))
    ensures OccludeHalfK(cull, st, q, i, second, epilogFor) == st
  {
    HalfMaskKNone(cull, st.active, st.rays, q, i, second);
  }

  /** after keeps only lanes of before, and clears only lanes set in hit. */
  predicate ClearedBy(before: seq<bool>, after: seq<bool>, hit: seq<bool>)
  {
    && |after| == |before|
    && forall k :: 0 <= k < |before| ==> (after[k] ==> before[k]) && (before[k] && !after[k] ==> k < |hit| && hit[k])
  }

  /** An occlusion epilogue that leaves the rays alone and deactivates only
      lanes of the mask it is handed. */
  ghost predicate ClearsOnlyHitLanes(epilogFor: EpilogKFor<Occlusion>)
  {
    forall g, p, i, m, h, s ::
      epilogFor(g, p, i)(m, h, s).1.rays == s.rays && ClearedBy(s.active, epilogFor(g, p, i)(m, h, s).1.active, m)
  }

  /** With such an epilogue, one intersectK call of the occlusion loop keeps
      the rays and deactivates only active lanes whose ray meets the half. */
  lemma OccludeHalfKClears(cull: bool, st: Occlusion, q: QuadMv, i: nat, second: bool,
                           epilogFor: EpilogKFor<Occlusion>)
    requires q.WellFormed() && i < q.Size() && |st.active| == |st.rays| && KeepsOcclusionWidth(epilogFor)
    requires ClearsOnlyHitLanes(epilogFor)
    ensures var r := OccludeHalfK(cull, st, q, i, second, epilogFor);
            && r.rays == st.rays
            && forall k :: 0 <= k < |st.active| ==>
                 && (r.active[k] ==> st.active[k])
                 && (st.active[k] && !r.active[k] ==>
                       HalfHit(cull, true, st.rays[k], HalfVertex(q, i, second, 0), HalfVertex(q, i, second, 1), HalfVertex(q, i, second, 2)))
  {
    var p0, p1, p2 := HalfVertex(q, i, second, 0), HalfVertex(q, i, second, 1), HalfVertex(q, i, second, 2);
    var tri := FromVertices(p0, p1, p2);
    var mask := IntersectKMask(cull, st.active, st.rays, tri);
    IntersectKMaskIsGeometric(cull, st.active, st.rays, p0, p1, p2);
    var r := OccludeHalfK(cull, st, q, i, second, epilogFor);
    if Any(mask) {
      var epilog := epilogFor(q.geomIDs, q.primIDs, i);
      var hit := CandidateOf(PacketTerms(st.rays, tri), Splat(|st.rays|, tri.Ng), Splat(|st.rays|, second));
      assert r == epilog(mask, hit, st).1;
      assert ClearedBy(st.active, r.active, mask);
    } else {
      assert r == st;
    }
  }

  /** Vertex c of the first half (v0, v1, v3) or the second half (v2, v3, v1) of quad i. */
  function HalfVertex(q: QuadMv, i: nat, second: bool, c: nat): Vec3
    requires q.WellFormed() && i < q.Size() && c < 3
  {
    if !second then (if c == 0 then q.v0[i] else if c == 1 then q.v1[i] else q.v3[i])
    else (if c == 0 then q.v2[i] else if c == 1 then q.v3[i] else q.v1[i])
  }

  /** A ray meets quad i exactly when it meets one of its two halves. */
  lemma QuadHitAtHalves(cull: bool, ray: Ray, q: QuadMv, i: nat)
    requires q.WellFormed() && i < q.Size()
    ensures QuadHitAt(cull, true, ray, q, i) <==>
              || HalfHit(cull, true, ray, HalfVertex(q, i, false, 0), HalfVertex(q, i, false, 1), HalfVertex(q, i, false, 2))
              || HalfHit(cull, true, ray, HalfVertex(q, i, true, 0), HalfVertex(q, i, true, 1), HalfVertex(q, i, true, 2))
  {
  }

  /** The occlusion loop from quad i up to quad n - 1: each half in turn, with
      a stop as soon as no lane is active. */
  function OccludedFromK(cull: bool, q: QuadMv, epilogFor: EpilogKFor<Occlusion>, i: nat, n: nat, st: Occlusion): (r: Occlusion)
    requires q.WellFormed() && i <= n <= q.Size() && |st.active| == |st.rays| && KeepsOcclusionWidth(epilogFor)
    ensures |r.active| == |st.active| && |r.rays| == |st.rays|
    decreases n - i
  {
    if i == n then st
    else
      var s1 := OccludeHalfK(cull, st, q, i, false, epilogFor);
      if None(s1.active) then s1
      else
        var s2 := OccludeHalfK(cull, s1, q, i, true, epilogFor);
        if None(s2.active) then s2
        else OccludedFromK(cull, q, epilogFor, i + 1, n, s2)
  }

  /** One step of the occlusion loop function. */
  lemma OccludedFromKUnfold(cull: bool, q: QuadMv, epilogFor: EpilogKFor<Occlusion>, i: nat, n: nat, st: Occlusion)
    requires q.WellFormed() && i <= n <= q.Size() && |st.active| == |st.rays| && KeepsOcclusionWidth(epilogFor)
    ensures i == n ==> OccludedFromK(cull, q, epilogFor, i, n, st) == st
    ensures i < n ==>
              var s1 := OccludeHalfK(cull, st, q, i, false, epilogFor);
              var s2 := OccludeHalfK(cull, s1, q, i, true, epilogFor);
              OccludedFromK(cull, q, epilogFor, i, n, st)
                == if None(s1.active) then s1 else if None(s2.active) then s2 else OccludedFromK(cull, q, epilogFor, i + 1, n, s2)
  {
  }

  /** The active rays that meet none of quads i .. n - 1 come out of the
      occlusion loop as they went in. */
  lemma {:induction false} OccludedFromKMisses(cull: bool, q: QuadMv, epilogFor: EpilogKFor<Occlusion>,
                                               i: nat, n: nat, st: Occlusion)
    requires q.WellFormed() && i <= n <= q.Size() && |st.active| == |st.rays| && KeepsOcclusionWidth(epilogFor)
    requires forall k, j :: 0 <= k < |st.rays| && st.active[k] && i <= j < n ==> !QuadHitAt(cull, true, st.rays[k], q, j)
    ensures OccludedFromK(cull, q, epilogFor, i, n, st) == st
    decreases n - i
  {
    hide OccludeHalfK, HalfMaskK, HalfCandidateK, HalfCallK, LaneTerms, FromVertices, Normal, Cross, Dot, Sub;
    if i < n {
      forall k | 0 <= k < |st.rays| && st.active[k]
        ensures !HalfHit(cull, true, st.rays[k], HalfVertex(q, i, false, 0), HalfVertex(q, i, false, 1), HalfVertex(q, i, false, 2))
        ensures !HalfHit(cull, true, st.rays[k], HalfVertex(q, i, true, 0), HalfVertex(q, i, true, 1), HalfVertex(q, i, true, 2))
      {
        assert !QuadHitAt(cull, true, st.rays[k], q, i);
      }
      OccludeHalfKMisses(cull, st, q, i, false, epilogFor);
      OccludeHalfKMisses(cull, st, q, i, true, epilogFor);
      if !None(st.active) {
        OccludedFromKMisses(cull, q, epilogFor, i + 1, n, st);
      }
    }
  }

  /** With an epilogue that deactivates only lanes it is handed, the
      occlusion loop keeps the rays, never reactivates a lane, and a lane it
      deactivates has a ray that meets one of quads i .. n - 1. */
  lemma {:induction false} OccludedFromKClears(cull: bool, q: QuadMv, epilogFor: EpilogKFor<Occlusion>,
                                               i: nat, n: nat, st: Occlusion)
    requires q.WellFormed() && i <= n <= q.Size() && |st.active| == |st.rays| && KeepsOcclusionWidth(epilogFor)
    requires ClearsOnlyHitLanes(epilogFor)
    ensures var r := OccludedFromK(cull, q, epilogFor, i, n, st);
            && r.rays == st.rays
            && forall k :: 0 <= k < |st.active| ==>
                 && (r.active[k] ==> st.active[k])
                 && (st.active[k] && !r.active[k] ==> exists j :: i <= j < n && QuadHitAt(cull, true, st.rays[k], q, j))
    decreases n - i
  {
    hide OccludeHalfK, HalfMaskK, HalfCandidateK, HalfCallK, LaneTerms, FromVertices, Normal, Cross, Dot, Sub;
    hide QuadHitAt, HalfHit;
    if i < n {
      var r := OccludedFromK(cull, q, epilogFor, i, n, st);
      var s1 := OccludeHalfK(cull, st, q, i, false, epilogFor);
      OccludeHalfKClears(cull, st, q, i, false, epilogFor);
      var s2 := OccludeHalfK(cull, s1, q, i, true, epilogFor);
      OccludeHalfKClears(cull, s1, q, i, true, epilogFor);
      if !None(s1.active) && !None(s2.active) {
        OccludedFromKClears(cull, q, epilogFor, i + 1, n, s2);
      }
      forall k | 0 <= k < |st.active| && st.active[k] && !r.active[k]
        ensures exists j :: i <= j < n && QuadHitAt(cull, true, st.rays[k], q, j)
      {
        if !s1.active[k] || !s2.active[k] {
          QuadHitAtHalves(cull, st.rays[k], q, i);
          assert QuadHitAt(cull, true, st.rays[k], q, i);
        }
      }
    }
  }

  /** What occluded reports, with an epilogue that deactivates only lanes it
      is handed: an active lane reported occluded has a ray that meets one of
      the valid quads. */
  lemma OccludedLanesHit(cull: bool, valid_i: seq<bool>, rays: seq<Ray>, q: QuadMv, epilogFor: EpilogKFor<Occlusion>)
    requires q.WellFormed() && |valid_i| == |rays| && KeepsOcclusionWidth(epilogFor) && ClearsOnlyHitLanes(epilogFor)
    ensures var occluded := Not(OccludedFromK(cull, q, epilogFor, 0, FirstInvalid(q.valid), Occlusion(valid_i, rays)).active);
            forall k :: 0 <= k < |rays| && valid_i[k] && occluded[k] ==>
              exists j :: 0 <= j < FirstInvalid(q.valid) && QuadHitAt(cull, true, rays[k], q, j)
  {
    OccludedFromKClears(cull, q, epilogFor, 0, FirstInvalid(q.valid), Occlusion(valid_i, rays));
  }

  /** after has every lane set in hit cleared. */
  predicate ClearsMask(before: seq<bool>, after: seq<bool>, hit: seq<bool>)
  {
    && |after| == |before|
    && forall k :: 0 <= k < |after| && k < |hit| && hit[k] ==> !after[k]
  }

  /** An occlusion epilogue that deactivates every lane of the mask it is
      handed. */
  ghost predicate ClearsHitLanes(epilogFor: EpilogKFor<Occlusion>)
  {
    forall g, p, i, m, h, s: Occlusion :: ClearsMask(s.active, epilogFor(g, p, i)(m, h, s).1.active, m)
  }

  /** With such an epilogue, one intersectK call of the occlusion loop
      deactivates every active lane whose ray meets the half. */
  lemma OccludeHalfKClearsHits(cull: bool, st: Occlusion, q: QuadMv, i: nat, second: bool,
                               epilogFor: EpilogKFor<Occlusion>)
    requires q.WellFormed() && i < q.Size() && |st.active| == |st.rays| && KeepsOcclusionWidth(epilogFor)
    requires ClearsHitLanes(epilogFor)
    ensures var r := OccludeHalfK(cull, st, q, i, second, epilogFor);
            forall k :: 0 <= k < |st.active| && st.active[k] &&
                        HalfHit(cull, true, st.rays[k], HalfVertex(q, i, second, 0), HalfVertex(q, i, second, 1), HalfVertex(q, i, second, 2))
                        ==> !r.active[k]
  {
    var m := HalfMaskK(cull, st.active, st.rays, q, i, second);
    var r := OccludeHalfK(cull, st, q, i, second, epilogFor);
    hide HalfMaskK, HalfCandidateK, HalfCallK, OccludeHalfK, LaneTerms, FromVertices, Normal, Cross, Dot, Sub;
    forall k | 0 <= k < |st.active| && st.active[k] &&
               HalfHit(cull, true, st.rays[k], HalfVertex(q, i, second, 0), HalfVertex(q, i, second, 1), HalfVertex(q, i, second, 2))
      ensures !r.active[k]
    {
      assert m[k];
      assert Any(m);
      assert ClearsMask(st.active, r.active, m);
    }
  }

  /** With an epilogue that deactivates exactly the lanes it is handed, the
      two intersectK calls on quad i keep the rays, never reactivate a lane,
      and deactivate every active lane whose ray meets the quad. */
  lemma OccludeQuadKReports(cull: bool, st: Occlusion, q: QuadMv, i: nat, epilogFor: EpilogKFor<Occlusion>)
    requires q.WellFormed() && i < q.Size() && |st.active| == |st.rays| && KeepsOcclusionWidth(epilogFor)
    requires ClearsOnlyHitLanes(epilogFor) && ClearsHitLanes(epilogFor)
    ensures var s1 := OccludeHalfK(cull, st, q, i, false, epilogFor);
            var s2 := OccludeHalfK(cull, s1, q, i, true, epilogFor);
            && s1.rays == st.rays && s2.rays == st.rays
            && (forall k :: 0 <= k < |st.active| && s1.active[k] ==> st.active[k])
            && (forall k :: 0 <= k < |st.active| && s2.active[k] ==> s1.active[k])
            && forall k :: 0 <= k < |st.active| && st.active[k] && QuadHitAt(cull, true, st.rays[k], q, i) ==> !s2.active[k]
  {
    hide OccludeHalfK, HalfMaskK, HalfCandidateK, HalfCallK, LaneTerms, FromVertices, Normal, Cross, Dot, Sub;
    var s1 := OccludeHalfK(cull, st, q, i, false, epilogFor);
    OccludeHalfKClears(cull, st, q, i, false, epilogFor);
    OccludeHalfKClearsHits(cull, st, q, i, false, epilogFor);
    var s2 := OccludeHalfK(cull, s1, q, i, true, epilogFor);
    OccludeHalfKClears(cull, s1, q, i, true, epilogFor);
    OccludeHalfKClearsHits(cull, s1, q, i, true, epilogFor);
    hide HalfHit, ClearsOnlyHitLanes, ClearsHitLanes;
    forall k | 0 <= k < |st.active| && st.active[k] && QuadHitAt(cull, true, st.rays[k], q, i)
      ensures !s2.active[k]
    {
      QuadHitAtHalves(cull, st.rays[k], q, i);
    }
  }

  /** With an epilogue that deactivates exactly the lanes it is handed, every
      active lane whose ray meets one of quads i .. n - 1 is inactive after
      the occlusion loop. */
  lemma {:induction false} OccludedFromKReports(cull: bool, q: QuadMv, epilogFor: EpilogKFor<Occlusion>,
                                                i: nat, n: nat, st: Occlusion)
    requires q.WellFormed() && i <= n <= q.Size() && |st.active| == |st.rays| && KeepsOcclusionWidth(epilogFor)
    requires ClearsOnlyHitLanes(epilogFor) && ClearsHitLanes(epilogFor)
    ensures var r := OccludedFromK(cull, q, epilogFor, i, n, st);
            forall k, j :: 0 <= k < |st.active| && st.active[k] && i <= j < n && QuadHitAt(cull, true, st.rays[k], q, j)
                           ==> !r.active[k]
    decreases n - i
  {
    hide OccludeHalfK, HalfMaskK, HalfCandidateK, HalfCallK, LaneTerms, FromVertices, Normal, Cross, Dot, Sub;
    hide OccludedFromK, QuadHitAt, HalfHit, ClearsOnlyHitLanes, ClearsHitLanes;
    if i < n {
      var r := OccludedFromK(cull, q, epilogFor, i, n, st);
      OccludedFromKUnfold(cull, q, epilogFor, i, n, st);
      var s1 := OccludeHalfK(cull, st, q, i, false, epilogFor);
      var s2 := OccludeHalfK(cull, s1, q, i, true, epilogFor);
      OccludeQuadKReports(cull, st, q, i, epilogFor);
      if !None(s1.active) && !None(s2.active) {
        OccludedFromKClears(cull, q, epilogFor, i + 1, n, s2);
        OccludedFromKReports(cull, q, epilogFor, i + 1, n, s2);
        forall k, j | 0 <= k < |st.active| && st.active[k] && i <= j < n && QuadHitAt(cull, true, st.rays[k], q, j)
          ensures !r.active[k]
        {
          if j > i && s2.active[k] {
            assert QuadHitAt(cull, true, s2.rays[k], q, j);
          }
        }
      }
    }
  }

  /** The converse of OccludedLanesHit, with an epilogue that deactivates
      exactly the lanes it is handed: an active lane whose ray meets one of
      the valid quads is reported occluded. */
  lemma OccludedReportsHits(cull: bool, valid_i: seq<bool>, rays: seq<Ray>, q: QuadMv, epilogFor: EpilogKFor<Occlusion>)
    requires q.WellFormed() && |valid_i| == |rays| && KeepsOcclusionWidth(epilogFor)
    requires ClearsOnlyHitLanes(epilogFor) && ClearsHitLanes(epilogFor)
    ensures var occluded := Not(OccludedFromK(cull, q, epilogFor, 0, FirstInvalid(q.valid), Occlusion(valid_i, rays)).active);
            forall k, j :: 0 <= k < |rays| && valid_i[k] && 0 <= j < FirstInvalid(q.valid) && QuadHitAt(cull, true, rays[k], q, j) ==>
              occluded[k]
  {
    OccludedFromKReports(cull, q, epilogFor, 0, FirstInvalid(q.valid), Occlusion(valid_i, rays));
  }

  /** QuadMvIntersectorKMoellerTrumbore::occluded: the quads in order up to
      the first invalid slot, stopping once no lane is active; the result is
      the complement of the lanes still active. */
  method OccludedBatchK(cull: bool, valid_i: seq<bool>, rays: seq<Ray>, q: QuadMv,
                        epilogFor: EpilogKFor<Occlusion>) returns (occluded: seq<bool>)
    requires q.WellFormed() && |valid_i| == |rays| && KeepsOcclusionWidth(epilogFor)
    ensures occluded == Not(OccludedFromK(cull, q, epilogFor, 0, FirstInvalid(q.valid), Occlusion(valid_i, rays)).active)
  {
    // As in the nearest-hit loop, what one intersectK call does is not needed
    // here, and the loop function is unfolded one quad at a time.
    hide OccludeHalfK, OccludedFromK;
    var n := FirstInvalid(q.valid);
    ghost var result := OccludedFromK(cull, q, epilogFor, 0, n, Occlusion(valid_i, rays));
    var st := Occlusion(valid_i, rays);
    var i := 0;
    while i < q.Size()
      invariant i <= n && |st.active| == |st.rays| == |rays|
      invariant OccludedFromK(cull, q, epilogFor, i, n, st) == result
    {
      OccludedFromKUnfold(cull, q, epilogFor, i, n, st);
      if !q.valid[i] {
        FirstInvalidExit(q.valid, i);
        break;
      }
      FirstInvalidStep(q.valid, i);
      var s1 := OccludeHalfK(cull, st, q, i, false, epilogFor);
      if None(s1.active) {
        st := s1;
        break;
      }
      st := OccludeHalfK(cull, s1, q, i, true, epilogFor);
      if None(st.active) {
        break;
      }
      i := i + 1;
    }
    if i == q.Size() {
      FirstInvalidExit(q.valid, i);
      OccludedFromKUnfold(cull, q, epilogFor, i, n, st);
    }
    occluded := Not(st.active);
  }
}
