/** The kernels of MoellerTrumboreIntersectorQuad1 (one ray against M triangle
    lanes) and MoellerTrumboreIntersectorQuadMvK (K rays against one broadcast
    triangle, or ray k of a packet against M lanes). Each narrows a lane mask
    with early returns and hands the surviving lanes to an epilogue. */
module QuadKernels {
  import opened Lanes
  import opened QuadHit
  import opened QuadLane

  /** Whether a kernel reached its epilogue, and with which mask and hit. */
  datatype EpilogCall = Skipped | Invoked(mask: seq<bool>, hit: Candidate)

  /** The epilogue of a single-ray kernel: from the valid mask and the deferred
      hit it decides the kernel's result and may update the caller's state. */
  type Epilog1<!S> = (seq<bool>, Candidate, S) -> (bool, S)

  /** The epilogue of the packet kernel: it returns a lane mask. */
  type EpilogK<!S> = (seq<bool>, Candidate, S) -> (seq<bool>, S)

  /** The per-lane quantities for one ray against each triangle lane. */
  function RayTerms(ray: Ray, tris: seq<Tri>): (r: seq<Terms>)
    ensures |r| == |tris| && forall i :: 0 <= i < |tris| ==> r[i] == LaneTerms(ray.org, ray.dir, tris[i])
  {
    seq(|tris|, i requires 0 <= i < |tris| => LaneTerms(ray.org, ray.dir, tris[i]))
  }

  /** The per-lane quantities for each ray of a packet against one triangle. */
  function PacketTerms(rays: seq<Ray>, tri: Tri): (r: seq<Terms>)
    ensures |r| == |rays| && forall k :: 0 <= k < |rays| ==> r[k] == LaneTerms(rays[k].org, rays[k].dir, tri)
  {
    seq(|rays|, k requires 0 <= k < |rays| => LaneTerms(rays[k].org, rays[k].dir, tri))
  }

  /** The QuadHitM / QuadHitK constructor arguments built from the lanes. */
  function CandidateOf(terms: seq<Terms>, Ng: seq<Vec3>, flags: seq<bool>): (c: Candidate)
    requires |Ng| == |terms| && |flags| == |terms|
    ensures c.WellFormed() && c.Width() == |terms| && c.Ng == Ng && c.flags == flags
    ensures forall i :: 0 <= i < |terms| ==>
              c.U[i] == terms[i].U && c.V[i] == terms[i].V && c.T[i] == terms[i].T && c.absDen[i] == terms[i].absDen
  {
    var n := |terms|;
    Candidate(seq(n, i requires 0 <= i < n => terms[i].U), seq(n, i requires 0 <= i < n => terms[i].V),
              seq(n, i requires 0 <= i < n => terms[i].T), seq(n, i requires 0 <= i < n => terms[i].absDen),
              Ng, flags)
  }

  function Normals(tris: seq<Tri>): (r: seq<Vec3>)
    ensures |r| == |tris| && forall i :: 0 <= i < |tris| ==> r[i] == tris[i].Ng
  {
    seq(|tris|, i requires 0 <= i < |tris| => tris[i].Ng)
  }

  // ----- single ray, M lanes -----

  /** The outcome of a kernel's mask narrowing: no lane left (the kernel
      returned early), or the lanes that survived every test. */
  datatype Narrowed = Exhausted | Surviving(mask: seq<bool>)

  /** The lanes of precomputed terms that pass every test of a single-ray kernel. */
  function AcceptMask1(cull: bool, terms: seq<Terms>, tnear: real, tfar: real): (m: seq<bool>)
    ensures |m| == |terms| && forall i :: 0 <= i < |terms| ==> (m[i] <==> Accepts(cull, false, terms[i], tnear, tfar))
  {
    seq(|terms|, i requires 0 <= i < |terms| => Accepts(cull, false, terms[i], tnear, tfar))
  }

  /** The two narrowing steps of the single-ray kernels: the facing and edge
      tests, an early return if no lane is left, then the strict depth test and
      another early return. Some lane survives exactly when some lane passes
      every test, and the survivors are exactly those lanes. */
  function Narrow1(cull: bool, terms: seq<Terms>, tnear: real, tfar: real): (r: Narrowed)
    ensures r.Surviving? <==> Any(AcceptMask1(cull, terms, tnear, tfar))
    ensures r.Surviving? ==> r.mask == AcceptMask1(cull, terms, tnear, tfar)
  {
    var n := |terms|;
    var accept := AcceptMask1(cull, terms, tnear, tfar);
    var valid := seq(n, i requires 0 <= i < n => Facing(cull, terms[i].den) && EdgesPass(terms[i]));
    if None(valid) then SubMaskOfNone(accept, valid); Exhausted
    else
      var depth := seq(n, i requires 0 <= i < n => valid[i] && InDepth(false, terms[i], tnear, tfar));
      if None(depth) then SubMaskOfNone(accept, depth); Exhausted
      else
        assert depth == accept;
        Surviving(depth)
  }

  /** The lanes a single-ray kernel accepts: every test, with the strict depth test. */
  function Intersect1Mask(cull: bool, ray: Ray, tris: seq<Tri>): (m: seq<bool>)
    ensures |m| == |tris|
    ensures forall i :: 0 <= i < |tris| ==> (m[i] <==> Accepts(cull, false, LaneTerms(ray.org, ray.dir, tris[i]), ray.tnear, ray.tfar))
  {
    AcceptMask1(cull, RayTerms(ray, tris), ray.tnear, ray.tfar)
  }

  /** MoellerTrumboreIntersectorQuad1::intersect (edge form) up to its epilogue.
      The epilogue is reached exactly when some lane passes every test, and it
      gets exactly those lanes. */
  function Intersect1Call(cull: bool, ray: Ray, tris: seq<Tri>, flags: seq<bool>): (c: EpilogCall)
    requires |flags| == |tris|
    ensures c.Invoked? <==> Any(Intersect1Mask(cull, ray, tris))
    ensures c.Invoked? ==> c.mask == Intersect1Mask(cull, ray, tris)
    ensures c.Invoked? ==> c.hit == CandidateOf(RayTerms(ray, tris), Normals(tris), flags)
  {
    var terms := RayTerms(ray, tris);
    match Narrow1(cull, terms, ray.tnear, ray.tfar)
    case Exhausted => Skipped
    case Surviving(mask) => Invoked(mask, CandidateOf(terms, Normals(tris), flags))
  }

  /** The single-ray kernel with its epilogue: when no lane passes, the result
      is false and the caller's state is untouched; otherwise the result is the
      epilogue's on the accepted lanes. */
  function Intersect1<S>(cull: bool, ray: Ray, tris: seq<Tri>, flags: seq<bool>, epilog: Epilog1<S>, s: S): (r: (bool, S))
    requires |flags| == |tris|
    ensures None(Intersect1Mask(cull, ray, tris)) ==> r == (false, s)
    ensures Any(Intersect1Mask(cull, ray, tris)) ==>
              r == epilog(Intersect1Mask(cull, ray, tris), CandidateOf(RayTerms(ray, tris), Normals(tris), flags), s)
  {
    match Intersect1Call(cull, ray, tris, flags)
    case Skipped => (false, s)
    case Invoked(mask, hit) => epilog(mask, hit, s)
  }

  /** The lanes a single-ray kernel on vertex-form triangles accepts are those
      the ray meets, with the strict interval test. */
  lemma Intersect1MaskIsGeometric(cull: bool, ray: Ray, v0: seq<Vec3>, v1: seq<Vec3>, v2: seq<Vec3>)
    requires |v1| == |v0| && |v2| == |v0|
    ensures forall i :: 0 <= i < |v0| ==>
              (Intersect1Mask(cull, ray, Triangles(v0, v1, v2))[i]
               <==> TriangleHit(cull, false, ray.org, ray.dir, ray.tnear, ray.tfar, v0[i], v1[i], v2[i]))
  {
    LanesAcceptIffHit(cull, false, ray.org, ray.dir, ray.tnear, ray.tfar, v0, v1, v2);
  }

  /** The vertex-form overload: a ray that meets none of the triangles leaves
      the state untouched and yields false, so a true result is only ever
      reported for a ray that meets some triangle. */
  function Intersect1Vertices<S>(cull: bool, ray: Ray, v0: seq<Vec3>, v1: seq<Vec3>, v2: seq<Vec3>,
                                 flags: seq<bool>, epilog: Epilog1<S>, s: S): (r: (bool, S))
    requires |v1| == |v0| && |v2| == |v0| && |flags| == |v0|
    ensures (forall i :: 0 <= i < |v0| ==> !TriangleHit(cull, false, ray.org, ray.dir, ray.tnear, ray.tfar, v0[i], v1[i], v2[i]))
            ==> r == (false, s)
    ensures r.0 ==> exists i :: 0 <= i < |v0| && TriangleHit(cull, false, ray.org, ray.dir, ray.tnear, ray.tfar, v0[i], v1[i], v2[i])
    ensures r == Intersect1(cull, ray, Triangles(v0, v1, v2), flags, epilog, s)
  {
    Intersect1MaskIsGeometric(cull, ray, v0, v1, v2);
    Intersect1(cull, ray, Triangles(v0, v1, v2), flags, epilog, s)
  }

  /** Back-face culling narrows the single-ray mask to its front-facing lanes. */
  lemma Intersect1CullingNarrows(ray: Ray, tris: seq<Tri>)
    ensures SubMask(Intersect1Mask(true, ray, tris), Intersect1Mask(false, ray, tris))
    ensures forall i :: 0 <= i < |tris| ==>
              (Intersect1Mask(false, ray, tris)[i] && !Intersect1Mask(true, ray, tris)[i] <==>
               Intersect1Mask(false, ray, tris)[i] && LaneTerms(ray.org, ray.dir, tris[i]).den < 0.0)
  {
    forall i | 0 <= i < |tris|
      ensures Intersect1Mask(true, ray, tris)[i] ==> Intersect1Mask(false, ray, tris)[i]
      ensures Intersect1Mask(false, ray, tris)[i] && !Intersect1Mask(true, ray, tris)[i] <==>
              Intersect1Mask(false, ray, tris)[i] && LaneTerms(ray.org, ray.dir, tris[i]).den < 0.0
    {
      CullingNarrows(false, LaneTerms(ray.org, ray.dir, tris[i]), ray.tnear, ray.tfar);
    }
  }

  // ----- K rays, one broadcast triangle -----

  /** The lanes of precomputed terms that are active in valid0 and pass every
      test of intersectK (inclusive depth test, per-ray interval). */
  function AcceptMaskK(cull: bool, valid0: seq<bool>, terms: seq<Terms>, rays: seq<Ray>): (m: seq<bool>)
    requires |valid0| == |terms| && |rays| == |terms|
    ensures |m| == |terms| && forall k :: 0 <= k < |terms| ==>
              (m[k] <==> valid0[k] && Accepts(cull, true, terms[k], rays[k].tnear, rays[k].tfar))
  {
    seq(|terms|, k requires 0 <= k < |terms| => valid0[k] && Accepts(cull, true, terms[k], rays[k].tnear, rays[k].tfar))
  }

  /** The lane tests of intersectK, each as a mask over the packet. */
  function UPass(terms: seq<Terms>): (m: seq<bool>)
    ensures |m| == |terms| && forall k :: 0 <= k < |terms| ==> m[k] == (terms[k].U >= 0.0)
  {
    seq(|terms|, k requires 0 <= k < |terms| => terms[k].U >= 0.0)
  }

  function VPass(terms: seq<Terms>): (m: seq<bool>)
    ensures |m| == |terms| && forall k :: 0 <= k < |terms| ==> m[k] == (terms[k].V >= 0.0)
  {
    seq(|terms|, k requires 0 <= k < |terms| => terms[k].V >= 0.0)
  }

  function WPass(terms: seq<Terms>): (m: seq<bool>)
    ensures |m| == |terms| && forall k :: 0 <= k < |terms| ==> m[k] == (terms[k].absDen - terms[k].U - terms[k].V >= 0.0)
  {
    seq(|terms|, k requires 0 <= k < |terms| => terms[k].absDen - terms[k].U - terms[k].V >= 0.0)
  }

  function DepthPass(terms: seq<Terms>, rays: seq<Ray>): (m: seq<bool>)
    requires |rays| == |terms|
    ensures |m| == |terms| && forall k :: 0 <= k < |terms| ==> m[k] == InDepth(true, terms[k], rays[k].tnear, rays[k].tfar)
  {
    seq(|terms|, k requires 0 <= k < |terms| => InDepth(true, terms[k], rays[k].tnear, rays[k].tfar))
  }

  function FacingPass(cull: bool, terms: seq<Terms>): (m: seq<bool>)
    ensures |m| == |terms| && forall k :: 0 <= k < |terms| ==> m[k] == Facing(cull, terms[k].den)
  {
    seq(|terms|, k requires 0 <= k < |terms| => Facing(cull, terms[k].den))
  }

  /** Every lane the packet kernel accepts survives each narrowing step, and
      the lanes left after the last step are exactly the accepted ones. */
  lemma NarrowKStages(cull: bool, valid0: seq<bool>, terms: seq<Terms>, rays: seq<Ray>)
    requires |valid0| == |terms| && |rays| == |terms|
    ensures var accept := AcceptMaskK(cull, valid0, terms, rays);
            var validU := And(valid0, UPass(terms));
            var validV := And(validU, VPass(terms));
            var validW := And(validV, WPass(terms));
            var validT := And(validW, DepthPass(terms, rays));
            && SubMask(accept, validU) && SubMask(accept, validV) && SubMask(accept, validW) && SubMask(accept, validT)
            && And(validT, FacingPass(cull, terms)) == accept
  {
    var accept := AcceptMaskK(cull, valid0, terms, rays);
    var validT := And(And(And(And(valid0, UPass(terms)), VPass(terms)), WPass(terms)), DepthPass(terms, rays));
    assert And(validT, FacingPass(cull, terms)) == accept;
  }

  /** The five narrowing steps of intersectK, each followed by an early return
      when no lane is left: U >= 0, V >= 0, W = |den| - U - V >= 0, the inclusive
      depth test, and the facing test. */
  function NarrowK(cull: bool, valid0: seq<bool>, terms: seq<Terms>, rays: seq<Ray>): (r: Narrowed)
    requires |valid0| == |terms| && |rays| == |terms|
    ensures r.Surviving? <==> Any(AcceptMaskK(cull, valid0, terms, rays))
    ensures r.Surviving? ==> r.mask == AcceptMaskK(cull, valid0, terms, rays)
  {
    NarrowKStages(cull, valid0, terms, rays);
    var accept := AcceptMaskK(cull, valid0, terms, rays);
    var validU := And(valid0, UPass(terms));
    if None(validU) then SubMaskOfNone(accept, validU); Exhausted else
    var validV := And(validU, VPass(terms));
    if None(validV) then SubMaskOfNone(accept, validV); Exhausted else
    var validW := And(validV, WPass(terms));
    if None(validW) then SubMaskOfNone(accept, validW); Exhausted else
    var validT := And(validW, DepthPass(terms, rays));
    if None(validT) then SubMaskOfNone(accept, validT); Exhausted else
    var valid := And(validT, FacingPass(cull, terms));
    if None(valid) then SubMaskOfNone(accept, valid); Exhausted
    else Surviving(valid)
  }

  /** The lanes intersectK accepts: active in valid0 and passing every test,
      with the inclusive depth test. */
  function IntersectKMask(cull: bool, valid0: seq<bool>, rays: seq<Ray>, tri: Tri): (m: seq<bool>)
    requires |valid0| == |rays|
    ensures |m| == |rays|
    ensures forall k :: 0 <= k < |rays| ==>
              (m[k] <==> valid0[k] && Accepts(cull, true, LaneTerms(rays[k].org, rays[k].dir, tri), rays[k].tnear, rays[k].tfar))
  {
    AcceptMaskK(cull, valid0, PacketTerms(rays, tri), rays)
  }

  /** MoellerTrumboreIntersectorQuadMvK::intersectK (edge form) up to its
      epilogue. The mask it hands on is a sub-mask of valid0 that keeps no lane
      with den = 0 and no hit outside the closed interval. */
  function IntersectKCall(cull: bool, valid0: seq<bool>, rays: seq<Ray>, tri: Tri, flags: seq<bool>): (c: EpilogCall)
    requires |valid0| == |rays| && |flags| == |rays|
    ensures c.Invoked? <==> Any(IntersectKMask(cull, valid0, rays, tri))
    ensures c.Invoked? ==> c.mask == IntersectKMask(cull, valid0, rays, tri) && SubMask(c.mask, valid0)
    ensures c.Invoked? ==> c.hit == CandidateOf(PacketTerms(rays, tri), Splat(|rays|, tri.Ng), flags)
  {
    var terms := PacketTerms(rays, tri);
    match NarrowK(cull, valid0, terms, rays)
    case Exhausted => Skipped
    case Surviving(mask) => Invoked(mask, CandidateOf(terms, Splat(|rays|, tri.Ng), flags))
  }

  /** intersectK with its epilogue: when no lane survives the result is the
      empty mask and the state is untouched. */
  function IntersectK<S>(cull: bool, valid0: seq<bool>, rays: seq<Ray>, tri: Tri, flags: seq<bool>,
                         epilog: EpilogK<S>, s: S): (r: (seq<bool>, S))
    requires |valid0| == |rays| && |flags| == |rays|
    ensures None(IntersectKMask(cull, valid0, rays, tri)) ==> r == (Splat(|rays|, false), s)
    ensures Any(IntersectKMask(cull, valid0, rays, tri)) ==>
              r == epilog(IntersectKMask(cull, valid0, rays, tri),
                          CandidateOf(PacketTerms(rays, tri), Splat(|rays|, tri.Ng), flags), s)
  {
    match IntersectKCall(cull, valid0, rays, tri, flags)
    case Skipped => (Splat(|rays|, false), s)
    case Invoked(mask, hit) => epilog(mask, hit, s)
  }

  /** With an epilogue that reports only lanes of the mask it is handed, the
      mask intersectK returns is a sub-mask of valid0. */
  lemma IntersectKWithinValid<S>(cull: bool, valid0: seq<bool>, rays: seq<Ray>, tri: Tri, flags: seq<bool>,
                                 epilog: EpilogK<S>, s: S)
    requires |valid0| == |rays| && |flags| == |rays|
    requires forall m, h, s' :: SubMask(epilog(m, h, s').0, m)
    ensures SubMask(IntersectK(cull, valid0, rays, tri, flags, epilog, s).0, valid0)
  {
    var c := IntersectKCall(cull, valid0, rays, tri, flags);
    if c.Invoked? {
      assert SubMask(epilog(c.mask, c.hit, s).0, c.mask);
    }
  }

  /** The lanes intersectK accepts on a vertex-form triangle are the active
      rays that meet it, with the closed interval test. */
  lemma IntersectKMaskIsGeometric(cull: bool, valid0: seq<bool>, rays: seq<Ray>, p0: Vec3, p1: Vec3, p2: Vec3)
    requires |valid0| == |rays|
    ensures forall k :: 0 <= k < |rays| ==>
              (IntersectKMask(cull, valid0, rays, FromVertices(p0, p1, p2))[k]
               <==> valid0[k] && TriangleHit(cull, true, rays[k].org, rays[k].dir, rays[k].tnear, rays[k].tfar, p0, p1, p2))
  {
    forall k | 0 <= k < |rays|
      ensures IntersectKMask(cull, valid0, rays, FromVertices(p0, p1, p2))[k]
              <==> valid0[k] && TriangleHit(cull, true, rays[k].org, rays[k].dir, rays[k].tnear, rays[k].tfar, p0, p1, p2)
    {
      AcceptsIffHit(cull, true, rays[k].org, rays[k].dir, rays[k].tnear, rays[k].tfar, p0, p1, p2);
    }
  }

  /** The vertex-form overload of intersectK: if no active ray meets the
      triangle the result is the empty mask and the state is untouched; in any
      case a lane of the result comes from the epilogue only if some active ray
      meets the triangle. */
  function IntersectKVertices<S>(cull: bool, valid0: seq<bool>, rays: seq<Ray>, p0: Vec3, p1: Vec3, p2: Vec3,
                                 flags: seq<bool>, epilog: EpilogK<S>, s: S): (r: (seq<bool>, S))
    requires |valid0| == |rays| && |flags| == |rays|
    ensures (forall k :: 0 <= k < |rays| && valid0[k] ==>
               !TriangleHit(cull, true, rays[k].org, rays[k].dir, rays[k].tnear, rays[k].tfar, p0, p1, p2))
            ==> r == (Splat(|rays|, false), s)
    ensures r == IntersectK(cull, valid0, rays, FromVertices(p0, p1, p2), flags, epilog, s)
  {
    IntersectKMaskIsGeometric(cull, valid0, rays, p0, p1, p2);
    IntersectK(cull, valid0, rays, FromVertices(p0, p1, p2), flags, epilog, s)
  }

  // ----- ray k of a packet, M lanes -----

  /** MoellerTrumboreIntersectorQuadMvK::intersect: ray k of the packet against
      M lanes, with the same tests as the single-ray kernel (strict depth). */
  function IntersectInPacket<S>(cull: bool, rays: seq<Ray>, k: nat, tris: seq<Tri>, flags: seq<bool>,
                                epilog: Epilog1<S>, s: S): (r: (bool, S))
    requires k < |rays| && |flags| == |tris|
    ensures None(Intersect1Mask(cull, rays[k], tris)) ==> r == (false, s)
    ensures Any(Intersect1Mask(cull, rays[k], tris)) ==>
              r == epilog(Intersect1Mask(cull, rays[k], tris), CandidateOf(RayTerms(rays[k], tris), Normals(tris), flags), s)
  {
    Intersect1(cull, rays[k], tris, flags, epilog, s)
  }

  /** MoellerTrumboreIntersectorQuadMvK::intersect1, the vertex form for ray k. */
  function Intersect1InPacket<S>(cull: bool, rays: seq<Ray>, k: nat, v0: seq<Vec3>, v1: seq<Vec3>, v2: seq<Vec3>,
                                 flags: seq<bool>, epilog: Epilog1<S>, s: S): (r: (bool, S))
    requires k < |rays| && |v1| == |v0| && |v2| == |v0| && |flags| == |v0|
    ensures (forall i :: 0 <= i < |v0| ==>
               !TriangleHit(cull, false, rays[k].org, rays[k].dir, rays[k].tnear, rays[k].tfar, v0[i], v1[i], v2[i]))
            ==> r == (false, s)
    ensures r.0 ==> exists i :: 0 <= i < |v0| && TriangleHit(cull, false, rays[k].org, rays[k].dir,
                                                             rays[k].tnear, rays[k].tfar, v0[i], v1[i], v2[i])
    ensures r == IntersectInPacket(cull, rays, k, Triangles(v0, v1, v2), flags, epilog, s)
  {
    Intersect1MaskIsGeometric(cull, rays[k], v0, v1, v2);
    IntersectInPacket(cull, rays, k, Triangles(v0, v1, v2), flags, epilog, s)
  }
}
