# Quad ray intersection and hair-traversal stack items, modelled in Dafny

This project models two self-contained parts of Embree's ray-query kernels.
Arithmetic is exact: reals stand for floats, a sequence of reals for a SIMD
lane vector and a sequence of booleans for a lane mask.

1. **The Möller–Trumbore quad intersector** (`quad_intersector_moeller.h`). A
   quad `(v0, v1, v2, v3)` is tested as two triangles that share the diagonal
   `v1-v3`: first `(v0, v1, v3)` unflagged, then `(v2, v3, v1)` flagged. For
   each lane the kernels compute `den = Ng·D` and fold its sign into `U`, `V`
   and `T`. They narrow a lane mask with the edge, depth and back-face tests,
   returning early when no lane is left, and hand the survivors to an
   epilogue together with a deferred hit (`QuadHitM` / `QuadHitK`). Finalising
   that hit divides by `|den|` and remaps `(u, v)` on flagged lanes. Around the
   kernels sit the drivers:
   - the single-ray SSE drivers;
   - the wide single-ray drivers (AVX, and ray k of a packet), which put both
     halves in one 2M-lane call;
   - the packet loops, which stop at the first invalid slot; the occlusion loop
     also stops once no ray is left active.
2. **The BVH4Hair traversal stack items** (`bvh4hair_intersector1.h`): the
   `StackItem` record, the whole-item exchange `swap2`, the 2-, 3- and 4-item
   compare-and-swap networks that order children by `tNear`, and the capacity
   `stackSize = 1 + 3·maxDepth`.

Modules:

- `Lanes` (lanes.dfy): `Vec3` arithmetic and lane masks.
- `QuadHit` (quad_hit.dfy): the deferred hit and both finalisations. `QuadHitM`
  is a class whose `finalize` writes its fields.
- `QuadLane` (quad_lane.dfy): the per-lane test and its geometric meaning.
- `QuadKernels` (quad_kernels.dfy): the single-ray and packet kernels.
- `QuadDrivers` (quad_drivers.dfy): the drivers. Every single-ray driver is
  one or two `Call1`s on a lane layout; the contract of `Call1` says which
  lanes reach the epilogue and with which deferred hit. The drivers are
  modelled as written. Where a finding shows a fault, a corrected version
  sits beside them. The two packet loops are methods with loops.
- `SquareExample` (unit_square.dfy): concrete inputs for Finding 1.
- `StackItems` (stack_item.dfy): the stack items and sorting networks, as
  methods on an array of items.

The central theorem is `QuadLane.AcceptsIffHit`. A lane passes the kernel's
tests exactly when the ray meets the triangle inside its interval and, under
back-face culling, meets it from the front. Each kernel and driver is then
stated in terms of ray/quad hits rather than lane arithmetic.

## Model

Source paths are relative to the repository root.

| member | source | states |
|---|---|---|
| QuadHit.Rcp | kernels/xeon/geometry/quad_intersector_moeller.h:47 | rcp is the exact reciprocal on every non-zero lane |
| QuadHit.FinalLane | kernels/xeon/geometry/quad_intersector_moeller.h:104-111 | for a lane with absDen ≠ 0: t·\|den\| = T; unflagged, u·\|den\| = U and v·\|den\| = V; flagged, (1−u)·\|den\| = U and (1−v)·\|den\| = V |
| QuadHit.FinalLaneAvx | kernels/xeon/geometry/quad_intersector_moeller.h:47-61 | the same relations, except that on flagged lanes (1−v)·\|den\| = U and (1−u)·\|den\| = V |
| QuadHit.AvxExchangesFlaggedUv | kernels/xeon/geometry/quad_intersector_moeller.h:53-61 | the two finalisations agree on unflagged lanes; on flagged lanes the AVX one is the plain one with u and v exchanged |
| QuadHit.FinalLaneBounds | kernels/xeon/geometry/quad_intersector_moeller.h:45-52 | a lane that passed the edge tests finalises into the unit square: u + v ≤ 1 when unflagged, u + v ≥ 1 when flagged; t inherits the strict or the inclusive depth interval |
| QuadHit.FinalizeK | kernels/xeon/geometry/quad_intersector_moeller.h:102-114 | QuadHitK::operator(): on every lane with absDen ≠ 0 the finalised u, v, t relate to U, V, T as in FinalLane; the normal passes through unchanged |
| QuadHit.AvxFinalized | kernels/xeon/geometry/quad_intersector_moeller.h:45-63 | the AVX finalize: flagged lanes negate the normal and exchange the remapped u and v; unflagged lanes keep both |
| QuadHit.FinalizeKLane | kernels/xeon/geometry/quad_intersector_moeller.h:54-56 | lane i of the QuadHitK result is the plain finalisation of lane i of the deferred hit |
| QuadHit.AvxFinalizedLane | kernels/xeon/geometry/quad_intersector_moeller.h:57-61 | lane i of the AVX result is the AVX finalisation of lane i of the deferred hit |
| QuadHit.PlainFromScaled | kernels/xeon/geometry/quad_intersector_moeller.h:104-111 | selecting between u and 1−u (and v, 1−v) by flag from the lane-wise scaled values is the QuadHitK result |
| QuadHit.AvxFromScaled | kernels/xeon/geometry/quad_intersector_moeller.h:58-60 | selecting 1−v / u for vu and 1−u / v for vv by flag is the AVX result |
| QuadHit.AvxFlipsNormals | kernels/xeon/geometry/quad_intersector_moeller.h:58-61 | scaling each normal by flip = −1 (flagged) or 1 is the AVX normal |
| QuadHit.QuadHitM.constructor | kernels/xeon/geometry/quad_intersector_moeller.h:37-43 | the object holds the constructor's U, V, T, absDen, Ng and flags; the finalised fields are still empty |
| QuadHit.QuadHitM.Finalize | kernels/xeon/geometry/quad_intersector_moeller.h:45-56 | finalize without AVX writes vu, vv, vt, vNg equal to the QuadHitK finalisation of the held inputs |
| QuadHit.QuadHitM.FinalizeAvx | kernels/xeon/geometry/quad_intersector_moeller.h:57-61 | finalize with AVX writes vu, vv, vt, vNg equal to AvxFinalized of the held inputs |
| QuadLane.FromVertices | kernels/xeon/geometry/quad_intersector_moeller.h:184-186 | the vertex form builds e1 = v0−v1, e2 = v2−v0 and Ng = e1×e2; the three vertices can be read back from the edge form |
| QuadLane.Triangles | kernels/xeon/geometry/quad_intersector_moeller.h:184-187 | lane i of the vertex-form overload is the edge form of (v0[i], v1[i], v2[i]) |
| QuadLane.LaneTerms | kernels/xeon/geometry/quad_intersector_moeller.h:146-156 | den = Ng·D and absDen = \|den\| |
| QuadLane.AcceptedLaneIsHit | kernels/xeon/geometry/quad_intersector_moeller.h:160-172 | a lane that passes every test is a hit of the triangle, and its finalised (t, u, v) is the hit's parameter and barycentric coordinates |
| QuadLane.HitIsAccepted | kernels/xeon/geometry/quad_intersector_moeller.h:160-168 | a hit that passes the facing test is accepted by the lane tests, and finalisation recovers exactly that hit's (t, u, v) |
| QuadLane.AcceptsIffHit | kernels/xeon/geometry/quad_intersector_moeller.h:144-169 | a lane passes the tests exactly when the ray meets the triangle inside its interval and passes the facing test on the triangle's own normal |
| QuadLane.LanesAcceptIffHit | kernels/xeon/geometry/quad_intersector_moeller.h:160-168 | AcceptsIffHit lane by lane over the triangles of the vertex form |
| QuadLane.AcceptedScalars | kernels/xeon/geometry/quad_intersector_moeller.h:160-168 | the accepted sign-folded values, finalised, are the raw ratios to den, within the unit triangle and the ray interval |
| QuadLane.CullingNarrows | kernels/xeon/geometry/quad_intersector_moeller.h:159-163 | with culling a lane is accepted only if it is accepted without culling; the lanes culling removes are exactly those with den < 0 |
| QuadLane.StrictDepthWithinInclusive | kernels/xeon/geometry/quad_intersector_moeller.h:168 | the strict depth test accepts a subset of what the inclusive test (line 344) accepts; they differ only at T = \|den\|·tnear or T = \|den\|·tfar |
| QuadLane.HalvesNormals | kernels/xeon/geometry/quad_intersector_moeller.h:205-206 | on a parallelogram the halves (v0,v1,v3) and (v2,v3,v1) have the same normal; (v2,v1,v3), as at lines 232-234, has the opposite one |
| QuadLane.SecondHalfPoints | kernels/xeon/geometry/quad_intersector_moeller.h:206 | barycentric (b1, b2) on (v2,v3,v1) is the quad point (1−b1, 1−b2) |
| QuadLane.WideSecondHalfPoints | kernels/xeon/geometry/quad_intersector_moeller.h:232-234 | barycentric (b1, b2) on (v2,v1,v3) is the quad point (1−b2, 1−b1) |
| QuadLane.ReversedNormal | kernels/xeon/geometry/quad_intersector_moeller.h:232-234 | reversing the winding (p0, p1, p2) to (p0, p2, p1) negates the triangle normal |
| QuadLane.ReversedBarycentric | kernels/xeon/geometry/quad_intersector_moeller.h:232-234 | the same point has barycentric (b1, b2) on one winding and (b2, b1) on the reversed one |
| QuadLane.ReversedRayHits | kernels/xeon/geometry/quad_intersector_moeller.h:232-234 | a ray meets a triangle exactly when it meets the reversed winding |
| QuadLane.ReversedWindingHit | kernels/xeon/geometry/quad_intersector_moeller.h:232-234 | without culling a hit on a winding is a hit on the reversed one; with culling the reversed winding is met exactly when the ray meets the triangle from the back of the original winding |
| QuadLane.CulledHitIsHit | kernels/xeon/geometry/quad_intersector_moeller.h:159-163 | a hit under culling is a hit without it |
| QuadLane.QuadHalvesFinalize | kernels/xeon/geometry/quad_intersector_moeller.h:45-63 | an accepted lane of either half reports t in the interval and (u, v) in the unit square naming the hit point on the quad. This holds for the first half unflagged, for (v2,v3,v1) with the plain flagged finalisation and for (v2,v1,v3) with the AVX flagged one |
| QuadKernels.RayTerms | kernels/xeon/geometry/quad_intersector_moeller.h:146-156 | lane i holds the terms of the one ray against triangle lane i |
| QuadKernels.PacketTerms | kernels/xeon/geometry/quad_intersector_moeller.h:320-343 | lane k holds the terms of ray k against the broadcast triangle |
| QuadKernels.CandidateOf | kernels/xeon/geometry/quad_intersector_moeller.h:172 | the deferred hit carries each lane's U, V, T, absDen, the normal and the flags |
| QuadKernels.AcceptMask1 | kernels/xeon/geometry/quad_intersector_moeller.h:159-168 | a lane is set exactly when it passes facing, edge and strict depth tests |
| QuadKernels.Narrow1 | kernels/xeon/geometry/quad_intersector_moeller.h:159-169 | the two early returns: some lane survives exactly when some lane passes every test, and the survivors are exactly those lanes |
| QuadKernels.Intersect1Mask | kernels/xeon/geometry/quad_intersector_moeller.h:144-168 | the accepted lanes of one ray against M lanes: every test, strict depth |
| QuadKernels.Intersect1Call | kernels/xeon/geometry/quad_intersector_moeller.h:136-174 | the epilogue is reached exactly when some lane is accepted, with exactly the accepted lanes and the hit built from the lanes' values |
| QuadKernels.Intersect1 | kernels/xeon/geometry/quad_intersector_moeller.h:136-174 | no accepted lane: false, state untouched; otherwise the epilogue's result on the accepted lanes |
| QuadKernels.Intersect1MaskIsGeometric | kernels/xeon/geometry/quad_intersector_moeller.h:177-188 | on vertex-form triangles, the accepted lanes are those the ray meets (strict interval, facing under culling) |
| QuadKernels.Intersect1Vertices | kernels/xeon/geometry/quad_intersector_moeller.h:177-188 | a ray meeting no triangle yields false with the state untouched; true only when it meets one; delegates unchanged to the edge form |
| QuadKernels.Intersect1CullingNarrows | kernels/xeon/geometry/quad_intersector_moeller.h:159-163 | the culling mask is a sub-mask of the non-culling one, smaller by exactly the accepted lanes with den < 0 |
| QuadKernels.UPass | kernels/xeon/geometry/quad_intersector_moeller.h:328-329 | lane k set exactly when U ≥ 0 |
| QuadKernels.VPass | kernels/xeon/geometry/quad_intersector_moeller.h:333-334 | lane k set exactly when V ≥ 0 |
| QuadKernels.WPass | kernels/xeon/geometry/quad_intersector_moeller.h:338-339 | lane k set exactly when W = \|den\| − U − V ≥ 0 |
| QuadKernels.DepthPass | kernels/xeon/geometry/quad_intersector_moeller.h:343-344 | lane k set exactly when the inclusive depth test holds for ray k |
| QuadKernels.FacingPass | kernels/xeon/geometry/quad_intersector_moeller.h:347-353 | lane k set exactly when den > 0 (culling) or den ≠ 0 |
| QuadKernels.AcceptMaskK | kernels/xeon/geometry/quad_intersector_moeller.h:320-354 | lane k set exactly when active in valid0 and accepted with the inclusive depth test and ray k's interval |
| QuadKernels.NarrowKStages | kernels/xeon/geometry/quad_intersector_moeller.h:327-354 | every accepted lane survives each of the five narrowing steps, and the last step leaves exactly the accepted lanes |
| QuadKernels.NarrowK | kernels/xeon/geometry/quad_intersector_moeller.h:327-354 | the five early returns: some lane survives exactly when some lane is accepted, and the survivors are exactly those lanes |
| QuadKernels.IntersectKMask | kernels/xeon/geometry/quad_intersector_moeller.h:307-354 | the lanes intersectK accepts: active, every test, inclusive depth |
| QuadKernels.IntersectKCall | kernels/xeon/geometry/quad_intersector_moeller.h:307-358 | the epilogue is reached exactly when some lane is accepted; its mask is a sub-mask of valid0 holding exactly the accepted lanes |
| Lanes.Splat | kernels/xeon/geometry/quad_intersector_moeller.h:357 | a broadcast holds the same value in every one of its lanes |
| QuadKernels.IntersectK | kernels/xeon/geometry/quad_intersector_moeller.h:307-359 | no accepted lane: the empty mask with the state untouched; otherwise the epilogue's result |
| QuadKernels.IntersectKWithinValid | kernels/xeon/geometry/quad_intersector_moeller.h:307-359 | with an epilogue that only narrows the mask it is handed, the mask intersectK returns lies within valid0 |
| QuadKernels.IntersectKMaskIsGeometric | kernels/xeon/geometry/quad_intersector_moeller.h:363-376 | on a vertex-form triangle the accepted lanes are the active rays that meet it (closed interval, facing under culling) |
| QuadKernels.IntersectKVertices | kernels/xeon/geometry/quad_intersector_moeller.h:363-376 | if no active ray meets the triangle: the empty mask, state untouched; delegates unchanged to the edge form |
| QuadKernels.IntersectInPacket | kernels/xeon/geometry/quad_intersector_moeller.h:380-419 | ray k against M lanes behaves as the single-ray kernel on ray k (strict depth, ray k's interval) |
| QuadKernels.Intersect1InPacket | kernels/xeon/geometry/quad_intersector_moeller.h:422-434 | ray k meeting no triangle yields false, state untouched; true only when it meets one; delegates unchanged to the edge form |
| QuadDrivers.QuadHitOfHalf | kernels/xeon/geometry/quad_intersector_moeller.h:205-206 | a hit on either half of some quad is a hit on that quad |
| QuadDrivers.HitLanes | kernels/xeon/geometry/quad_intersector_moeller.h:136-188 | lane j is set exactly when the ray meets lane j's triangle inside its strict interval, from the front of that winding under culling |
| QuadDrivers.HitLanesAccept | kernels/xeon/geometry/quad_intersector_moeller.h:159-168 | a lane in HitLanes passes the facing, edge and depth tests |
| QuadDrivers.LaneCandidate | kernels/xeon/geometry/quad_intersector_moeller.h:146-172 | the deferred hit a call builds: lane j holds U, V, T, absDen of the ray against lane j's triangle, that triangle's normal, and lane j's flag |
| QuadDrivers.Call1 | kernels/xeon/geometry/quad_intersector_moeller.h:177-188 | one call on vertex lanes: false with the state untouched when no lane is met; otherwise the epilogue built from the lanes' identifiers, handed exactly HitLanes and LaneCandidate |
| QuadDrivers.CallInPacket | kernels/xeon/geometry/quad_intersector_moeller.h:422-434 | intersect1 for ray k is Call1 on ray k with the packet as the state |
| QuadDrivers.SseHalves | kernels/xeon/geometry/quad_intersector_moeller.h:205-206 | the lanes of the two SSE calls: (v0,v1,v3) with flags false, (v2,v3,v1) with flags true, both with quad.geomIDs and quad.primIDs |
| QuadDrivers.SseHalvesHitQuads | kernels/xeon/geometry/quad_intersector_moeller.h:205-206 | a lane either SSE call meets is a half of a quad the ray meets; a ray meeting no quad meets no lane |
| QuadDrivers.SseHalvesUnderAvx | kernels/xeon/geometry/quad_intersector_moeller.h:57-61 | finalised by the AVX branch, a second-half lane of the SSE layout would report the quad's (u, v) exchanged and the negated quad normal |
| QuadDrivers.SseHalvesReportQuadPoints | kernels/xeon/geometry/quad_intersector_moeller.h:45-56 | on parallelograms, every lane either SSE call hands the epilogue finalises (QuadHitK) to the quad's own (u, v) of the hit point, t in the interval, and the quad normal |
| QuadDrivers.Quad1Intersect | kernels/xeon/geometry/quad_intersector_moeller.h:202-207 | the second call runs on the ray the first call's epilogue returned; a ray meeting no quad comes back unchanged |
| QuadDrivers.Quad1Occluded | kernels/xeon/geometry/quad_intersector_moeller.h:210-216 | the first call's result when true, else the second call on the ray the first left; false and unchanged for a ray meeting no quad; true only for a ray meeting a quad |
| QuadDrivers.WideLayoutAsWritten | kernels/xeon/geometry/quad_intersector_moeller.h:229-236 | lane j is (v0,v1,v3) of quad j unflagged, lane M+j is (v2,v1,v3) of quad j flagged; both carry quad j's geomID and primID (also lines 486-497) |
| QuadDrivers.WideAsWrittenLaneOnQuad | kernels/xeon/geometry/quad_intersector_moeller.h:232-234 | a lane of the layout as written that the ray meets, culling or not, lies on a quad the ray meets without culling |
| QuadDrivers.QuadOnWideAsWrittenLane | kernels/xeon/geometry/quad_intersector_moeller.h:232-234 | without culling a quad the ray meets has a lane (j or M+j) of the layout as written that the ray meets |
| QuadDrivers.WideAsWrittenHits | kernels/xeon/geometry/quad_intersector_moeller.h:229-236 | the ray meets a lane of the layout as written only if it meets a quad from either side; without culling exactly when it meets a quad |
| QuadDrivers.WideAsWrittenAcceptsBackHit | kernels/xeon/geometry/quad_intersector_moeller.h:232-236 | Finding 1: with culling, a ray meeting the second half of a parallelogram from the back is accepted on lane M+i although culling rejects both halves |
| QuadDrivers.WideAsWrittenReportsQuadPoints | kernels/xeon/geometry/quad_intersector_moeller.h:57-61 | on parallelograms, every lane of the layout as written handed to the epilogue finalises (AVX branch) to the quad's own (u, v) of the hit point, t in the interval, and the quad normal |
| QuadDrivers.WideAsWrittenLaneReports | kernels/xeon/geometry/quad_intersector_moeller.h:57-61 | the same, for one lane |
| QuadDrivers.Quad1IntersectWide | kernels/xeon/geometry/quad_intersector_moeller.h:229-237 | the epilogue is handed exactly the lanes of the layout as written that the ray meets; a ray meeting no quad from either side comes back unchanged |
| QuadDrivers.Quad1OccludedWide | kernels/xeon/geometry/quad_intersector_moeller.h:240-248 | the same hand-over; false and unchanged for a ray meeting no quad; true only for a ray meeting a quad without culling |
| QuadDrivers.WideLayout | kernels/xeon/geometry/quad_intersector_moeller.h:205-206 | corrected layout: lane M+j is (v2,v3,v1) of quad j, flagged, with quad j's identifiers |
| QuadDrivers.WideLaneHitIsQuadHit | kernels/xeon/geometry/quad_intersector_moeller.h:232-236 | a wide lane the ray meets is a half of quad j mod M |
| QuadDrivers.QuadHitIsWideLaneHit | kernels/xeon/geometry/quad_intersector_moeller.h:232-236 | a quad the ray meets has a wide lane (j or M+j) the ray meets |
| QuadDrivers.WideLayoutHits | kernels/xeon/geometry/quad_intersector_moeller.h:232-236 | the ray meets some wide lane exactly when it meets some quad |
| QuadDrivers.WideLayoutReportsQuadPoints | kernels/xeon/geometry/quad_intersector_moeller.h:54-56 | on parallelograms, every lane of the corrected layout handed to the epilogue finalises (non-AVX branch) to the quad's own (u, v), t in the interval, and the quad normal |
| QuadDrivers.WideLayoutLaneReports | kernels/xeon/geometry/quad_intersector_moeller.h:54-56 | the same, for one lane |
| QuadDrivers.WideLayoutAvxFlipsNormals | kernels/xeon/geometry/quad_intersector_moeller.h:57-61 | finalised by the AVX branch, the corrected layout's second-half lanes would report the negated quad normal |
| QuadDrivers.Quad1IntersectWideCorrected | kernels/xeon/geometry/quad_intersector_moeller.h:229-237 | corrected driver: the epilogue gets exactly the lanes met; a ray meeting no quad (with culling, from the front) comes back unchanged |
| QuadDrivers.Quad1OccludedWideCorrected | kernels/xeon/geometry/quad_intersector_moeller.h:240-248 | corrected driver: false and unchanged for a ray meeting no quad; true only for a ray meeting one, from the front with culling |
| QuadDrivers.WideAsWrittenCullsFrontFacing | kernels/xeon/geometry/quad_intersector_moeller.h:232-234 | with culling, when the first half faces the ray the (v2,v1,v3) lane is always rejected, while (v2,v3,v1) faces the ray |
| QuadDrivers.WideAsWrittenRejectsBothLanes | kernels/xeon/geometry/quad_intersector_moeller.h:232-236 | with culling, a ray that misses the first half of a parallelogram and faces its second half gets no accepted lane from the layout as written |
| QuadDrivers.WideLayoutAcceptsSecondHalf | kernels/xeon/geometry/quad_intersector_moeller.h:206 | in the corrected layout, the lane of a second half that passes every test is accepted |
| QuadDrivers.WideAsWrittenMissesFrontHit | kernels/xeon/geometry/quad_intersector_moeller.h:229-236 | Finding 1: with culling, a front hit on the second half of a parallelogram is a quad hit that the layout as written rejects on both lanes; the corrected layout accepts it |
| QuadDrivers.QuadKIntersectRay | kernels/xeon/geometry/quad_intersector_moeller.h:483-499 | the epilogue is handed exactly the lanes of the layout as written that ray k meets; the packet is unchanged when ray k meets no quad from either side |
| QuadDrivers.QuadKOccludedRay | kernels/xeon/geometry/quad_intersector_moeller.h:502-518 | the same hand-over; false and the packet unchanged when ray k meets no quad; true only when ray k meets a quad without culling |
| QuadDrivers.QuadKOccludedRayCorrected | kernels/xeon/geometry/quad_intersector_moeller.h:502-518 | on the corrected layout: when ray k meets some lane, the epilogue's result on exactly those lanes and their candidate; false and the packet unchanged when it meets no quad; true only when ray k meets a quad, from the front with culling |
| QuadDrivers.FirstInvalid | kernels/xeon/geometry/quad_intersector_moeller.h:448-450 | the slots before the loop's stopping index are valid and the slot at it, if any, is not |
| QuadDrivers.FirstInvalidExit | kernels/xeon/geometry/quad_intersector_moeller.h:448-450 | the loop index at an invalid slot or at the end is the stopping index |
| QuadDrivers.SecondHalfIdsAsWritten | kernels/xeon/geometry/quad_intersector_moeller.h:457 | Finding 2, as written: the second half's epilogue gets primIDs + 1 on every lane |
| QuadDrivers.SecondHalfIdsDisagree | kernels/xeon/geometry/quad_intersector_moeller.h:457 | those identifiers differ, on every quad, from the primID the wide drivers give lane M+i (line 236) |
| QuadDrivers.HalfIdsAgreeWithWide | kernels/xeon/geometry/quad_intersector_moeller.h:474-476 | quad.primIDs, used by the occlusion loop for both halves, are the identifiers the wide drivers give lanes i and M+i |
| QuadDrivers.HalfMaskK | kernels/xeon/geometry/quad_intersector_moeller.h:363-376 | the lanes one intersectK call on half (v0, v1, v3) or (v2, v3, v1) of quad i hands its epilogue are exactly the active rays that meet that half (closed interval, facing under culling) |
| QuadDrivers.HalfCandidateK | kernels/xeon/geometry/quad_intersector_moeller.h:363-376 | the deferred hit of that call: per lane the ray's U, V, T, absDen against the half, the half's normal, and the half's flag |
| QuadDrivers.HalfCallK | kernels/xeon/geometry/quad_intersector_moeller.h:363-376 | that call: the empty mask with the state untouched when no active ray meets the half, otherwise the epilogue's result on HalfMaskK and HalfCandidateK |
| QuadDrivers.IntersectStepK | kernels/xeon/geometry/quad_intersector_moeller.h:452-457 | one loop iteration as written: the first half's epilogue (primIDs) gets the half's hit lanes and candidate; the second half's epilogue, built with primIDs + 1, gets those of the packet the first returned; the packet width is kept |
| QuadDrivers.IntersectStepKIntended | kernels/xeon/geometry/quad_intersector_moeller.h:452-457 | the iteration with quad.primIDs on both halves: the same hand-over of hit lanes and candidate to each epilogue in turn; a packet meeting neither half is unchanged |
| QuadDrivers.IntersectStepKIdsOnly | kernels/xeon/geometry/quad_intersector_moeller.h:456-457 | the two iterations agree whenever the epilogue factory does not look at the primitive identifiers |
| QuadDrivers.HalfMaskKNone | kernels/xeon/geometry/quad_intersector_moeller.h:363-376 | no lane is handed to the epilogue when no active ray meets the half |
| QuadDrivers.IntersectStepKMisses | kernels/xeon/geometry/quad_intersector_moeller.h:452-457 | a packet whose active rays meet neither half of quad i leaves the iteration unchanged |
| QuadDrivers.IntersectPrefixK | kernels/xeon/geometry/quad_intersector_moeller.h:448-458 | quads 0..n−1 in order keep the packet width |
| QuadDrivers.IntersectPrefixKNext | kernels/xeon/geometry/quad_intersector_moeller.h:448-458 | the next iteration extends the processed prefix by one quad |
| QuadDrivers.IntersectPrefixKMisses | kernels/xeon/geometry/quad_intersector_moeller.h:446-459 | a packet whose active rays meet none of the first n quads is unchanged by them (induction on n) |
| QuadDrivers.IntersectBatchK | kernels/xeon/geometry/quad_intersector_moeller.h:446-459 | the nearest-hit loop's result is the quads processed in order up to the first invalid slot |
| QuadDrivers.OccludeHalfK | kernels/xeon/geometry/quad_intersector_moeller.h:474-476 | one intersectK call of the occlusion loop with valid0 as the mask: the state untouched when no active ray meets the half; otherwise the state the epilogue (quad.primIDs for both halves) returns when handed the active rays that meet the half and their candidate; widths kept |
| QuadDrivers.OccludeHalfKMisses | kernels/xeon/geometry/quad_intersector_moeller.h:474-476 | a state none of whose active rays meets the half is unchanged |
| QuadDrivers.OccludeHalfKClears | kernels/xeon/geometry/quad_intersector_moeller.h:474-476 | with an epilogue that only deactivates lanes it is handed: the rays are kept, no lane is reactivated, and a deactivated lane's ray meets the half |
| QuadDrivers.OccludedFromK | kernels/xeon/geometry/quad_intersector_moeller.h:466-478 | the loop from quad i to n−1, stopping once no lane is active, keeps the widths |
| QuadDrivers.OccludedFromKUnfold | kernels/xeon/geometry/quad_intersector_moeller.h:468-477 | one iteration: stop at the end, after a half that empties the mask, or go on to quad i+1 |
| QuadDrivers.OccludedFromKMisses | kernels/xeon/geometry/quad_intersector_moeller.h:464-479 | active rays that meet none of quads i..n−1 leave the loop as they came in (induction) |
| QuadDrivers.OccludedFromKClears | kernels/xeon/geometry/quad_intersector_moeller.h:464-479 | with such an epilogue the loop keeps the rays, never reactivates a lane, and a lane it deactivates has a ray that meets one of quads i..n−1 (induction) |
| QuadDrivers.OccludedLanesHit | kernels/xeon/geometry/quad_intersector_moeller.h:462-480 | an active lane that occluded reports has a ray that meets one of the valid quads |
| QuadDrivers.QuadHitAtHalves | kernels/xeon/geometry/quad_intersector_moeller.h:474-476 | a ray meets quad i exactly when it meets (v0, v1, v3) or (v2, v3, v1) |
| QuadDrivers.OccludeHalfKClearsHits | kernels/xeon/geometry/quad_intersector_moeller.h:474-476 | with an epilogue that deactivates every lane it is handed, every active lane whose ray meets the half is inactive after the call |
| QuadDrivers.OccludeQuadKReports | kernels/xeon/geometry/quad_intersector_moeller.h:474-476 | with an epilogue that deactivates exactly the lanes it is handed, the two calls on quad i keep the rays, never reactivate a lane, and deactivate every active lane whose ray meets the quad |
| QuadDrivers.OccludedFromKReports | kernels/xeon/geometry/quad_intersector_moeller.h:464-479 | with such an epilogue, every active lane whose ray meets one of quads i..n−1 is inactive after the loop, early exits included (induction) |
| QuadDrivers.OccludedReportsHits | kernels/xeon/geometry/quad_intersector_moeller.h:462-480 | the converse of OccludedLanesHit: an active lane whose ray meets one of the valid quads (closed interval, facing under culling) is reported occluded |
| QuadDrivers.OccludedBatchK | kernels/xeon/geometry/quad_intersector_moeller.h:462-480 | the occlusion loop's result is the complement of the lanes still active after the quads in order up to the first invalid slot, stopping once none is active |
| SquareExample.SquareSplitsHalves | kernels/xeon/geometry/quad_intersector_moeller.h:205-206 | the unit square is a parallelogram; DownRay misses its first half and passes every test, culling included, on its second half |
| SquareExample.SquareWideAsWrittenMisses | kernels/xeon/geometry/quad_intersector_moeller.h:229-236 | Finding 1 on concrete input: DownRay hits the unit square, yet with culling the layout as written accepts neither lane; the corrected layout accepts lane 1 |
| SquareExample.UpSecondHalfAccepts | kernels/xeon/geometry/quad_intersector_moeller.h:206 | without culling (C, D, B) accepts UpRay: den = −1, U = V = 1/4, T = 1 |
| SquareExample.UpRayMeetsSecondHalf | kernels/xeon/geometry/quad_intersector_moeller.h:206 | UpRay meets the second half of the unit square |
| SquareExample.UpRayFacesBack | kernels/xeon/geometry/quad_intersector_moeller.h:205 | UpRay runs against the first half's normal: Normal(A, B, D)·dir = −1 |
| SquareExample.SquareWideAsWrittenAcceptsBackHit | kernels/xeon/geometry/quad_intersector_moeller.h:229-236 | Finding 1 on concrete input: with culling UpRay meets neither half of the unit square, yet lane 1 of the layout as written accepts it |
| StackItems.CompareSwap | kernels/xeon/bvh4hair/bvh4hair_intersector1.h:59 | one comparator: afterwards the item at i is not farther than the one at j; the two items are exchanged or kept, whole; nothing else changes; a permutation; an ordered pair is kept |
| StackItems.Sort2Sorts | kernels/xeon/bvh4hair/bvh4hair_intersector1.h:58-60 | after sort(s1, s2): s1.tNear ≤ s2.tNear, a permutation, no other item touched |
| StackItems.Sort3Sorts | kernels/xeon/bvh4hair/bvh4hair_intersector1.h:63-68 | after the 3-item network: ascending tNear, a permutation, no other item touched |
| StackItems.Sort4Sorts | kernels/xeon/bvh4hair/bvh4hair_intersector1.h:71-78 | after the 5-comparator network: ascending tNear for every input, a permutation, no other item touched |
| StackItems.Sort2KeepsOrdered | kernels/xeon/bvh4hair/bvh4hair_intersector1.h:59 | an ordered pair, ties included, is left unchanged |
| StackItems.Sort3KeepsOrdered | kernels/xeon/bvh4hair/bvh4hair_intersector1.h:65-67 | an ordered triple, ties included, is left unchanged |
| StackItems.Sort4KeepsOrdered | kernels/xeon/bvh4hair/bvh4hair_intersector1.h:73-77 | an ordered quadruple, ties included, is left unchanged |
| StackItems.Sort2Idempotent | kernels/xeon/bvh4hair/bvh4hair_intersector1.h:58-60 | sorting two items twice is sorting them once |
| StackItems.Sort3Idempotent | kernels/xeon/bvh4hair/bvh4hair_intersector1.h:63-68 | sorting three items twice is sorting them once |
| StackItems.Sort4Idempotent | kernels/xeon/bvh4hair/bvh4hair_intersector1.h:71-78 | sorting four items twice is sorting them once |
| StackItems.Swap2 | kernels/xeon/bvh4hair/bvh4hair_intersector1.h:45-55 | the items at i and j exchange places whole (ref, tNear, tFar together); every other item is unchanged |
| StackItems.CompareExchange | kernels/xeon/bvh4hair/bvh4hair_intersector1.h:59 | one comparator in place: the array becomes CompareSwap of its old contents |
| StackItems.Sort2 | kernels/xeon/bvh4hair/bvh4hair_intersector1.h:58-60 | sort(s1, s2) in place: the array becomes the 2-item network applied to its old contents |
| StackItems.Sort3 | kernels/xeon/bvh4hair/bvh4hair_intersector1.h:63-68 | sort(s1, s2, s3) in place: the array becomes the 3-item network applied to its old contents |
| StackItems.Sort4 | kernels/xeon/bvh4hair/bvh4hair_intersector1.h:71-78 | sort(s1, s2, s3, s4) in place: the array becomes the 4-item network applied to its old contents |
| StackItems.StackSize | kernels/xeon/bvh4hair/bvh4hair_intersector1.h:39 | the capacity is 1 + 3·maxDepth |
| StackItems.PushedBound | kernels/xeon/bvh4hair/bvh4hair_intersector1.h:39 | at most k pushes on each level make at most k per level in total (induction) |
| StackItems.StackFits | kernels/xeon/bvh4hair/bvh4hair_intersector1.h:39 | the root entry plus at most 3 deferred siblings on each of at most maxDepth levels never exceeds the capacity |

## Left out

- Floating point. Every value is an exact real. rcp is exact division, and rcp(0) is taken as 0; only masked-off lanes can have absDen = 0. NaN comparisons and rounding are not modelled. The signmsk/xor sign fold is multiplication by −1 when den < 0 and by 1 otherwise.
- The epilogues (Intersect1Epilog, Occluded1Epilog, IntersectKEpilog, OccludedKEpilog, Intersect1KEpilog, Occluded1KEpilog) are defined in files that are not part of this model. So are their Scene and geomID_to_instID lookups and the filter template switch. Each is a function parameter from (mask, deferred hit, state) to (result, state). The packet drivers build theirs from the geometry identifiers, the primitive identifiers and the quad index.
- QuadDrivers.OccludedLanesHit: holds only for occlusion epilogues that keep the rays and deactivate only lanes they are handed (ClearsOnlyHitLanes), because OccludedKEpilog is not part of this model.
- QuadDrivers.OccludedReportsHits: holds only for occlusion epilogues that, in addition, deactivate every lane they are handed (ClearsHitLanes), because OccludedKEpilog and the filter callbacks are not part of this model.
- The SIMD lane layout. Lane widths are generic sequences. The AVX-512 specialisations (lines 253-292 and 521-601) use select(0x0f0f, …) with flags 0xf0f0, so the halves interleave in groups of four lanes rather than splitting at M. They are not modelled separately. Their packet loops repeat lines 446-480, including the primIDs + 1 at line 545.
- The RTCORE_BACKFACE_CULLING compile-time switch becomes a `cull` parameter. The __AVX__ switch selects the finalize branch (lines 54-56 or 57-61). The wide drivers (lines 219-251) exist only in AVX builds, so they always run with lines 57-61. The SSE driver QuadMvIntersector1MoellerTrumbore<4,4,filter> (lines 195-217) is under no #if, and this header does not say which specialisation an AVX build instantiates for M = 4. The model assumes that the SSE drivers run with the plain branch (lines 54-56). QuadDrivers.SseHalvesUnderAvx states what an AVX build would report if it instantiated <4,4>: the second halves with (u, v) exchanged and the negated normal. The model keeps both branches (QuadHitM.Finalize and QuadHitM.FinalizeAvx).
- QuadDrivers.SseHalvesReportQuadPoints, QuadDrivers.WideAsWrittenReportsQuadPoints, QuadDrivers.WideLayoutReportsQuadPoints: stated for parallelogram quads only. Only for those do the two halves share one (u, v) parametrisation, and that parametrisation is what the reported coordinates refer to.
- QuadDrivers.Quad1IntersectWide: the miss guarantee is stated for rays that meet no quad from either side, not under culling, because with culling the layout as written both rejects front hits and accepts back hits (Finding 1).
- QuadDrivers.Quad1OccludedWide: true is only tied to a quad hit without culling, for the same reason.
- QuadDrivers.QuadKIntersectRay: the same weakening as Quad1IntersectWide.
- QuadDrivers.QuadKOccludedRay: the same weakening as Quad1OccludedWide.
- The corrected ray-k nearest-hit driver is not written out. It is CallInPacket on WideLayout, and the lemmas behind Quad1IntersectWideCorrected cover it.
- STAT3 statistics counters are not modelled; they do not affect results.
- The validity of quad slots is a boolean per slot. QuadMv's storage and max_size() are a sequence and its length.
- The AVX branch of swap2 moves each item as one 16-byte load and store; this model exchanges the two items directly. The non-AVX branch names a type, StackItemInt32<T>, that is not part of this model.
- The BVH4Hair traversal bodies (intersect, occluded, intersectBox, intersectBezier, occludedBezier) are declared but not shown, so the stack discipline is modelled only as counts of pushes per level. BVH4Hair::maxDepth is a parameter.
- The tutorial host application and multi-threaded use of the acceleration structure are not modelled.

## Findings

| source | as written | input that shows it | evidently intended | confidence | as-written member | corrected member |
|---|---|---|---|---|---|---|
| kernels/xeon/geometry/quad_intersector_moeller.h:232-236 | The wide drivers (AVX lines 232-236 and ray k lines 486-497) test the second half as (v2, v1, v3). That winding is the reverse of the first half's. With back-face culling, den > 0 is then tested on the reversed normal. The result is two faults: a front-facing hit on the second half is culled, and a hit on the second half from the back is accepted although culling should reject it. | Front: the unit square (0,0,0), (1,0,0), (1,1,0), (0,1,0) and a ray from (3/4, 3/4, 1) in direction (0, 0, −1) over (0, 10), with culling; the ray meets the second half from the front, yet both lanes are rejected. Back: the same square and a ray from (3/4, 3/4, −1) in direction (0, 0, 1); the ray meets the square only from the back, yet lane 1 accepts it. | Test the second half as (v2, v3, v1), the winding of the SSE drivers (line 206), and finalise it with the plain branch (lines 54-56). The culling test then sees one facing for both halves. The AVX branch's u/v exchange and normal flip only undo the (v2, v1, v3) winding; on (v2, v3, v1) they would report the negated normal. An equivalent alternative keeps (v2, v1, v3) and the AVX branch, and culls on flip·den > 0. | not executed; high that the lanes are rejected or accepted as stated under culling, low on whether culling builds ever reach this path | SquareExample.SquareWideAsWrittenMisses, SquareExample.SquareWideAsWrittenAcceptsBackHit, QuadDrivers.WideAsWrittenMissesFrontHit, QuadDrivers.WideAsWrittenAcceptsBackHit, QuadDrivers.WideLayoutAvxFlipsNormals | QuadDrivers.WideLayout, QuadDrivers.WideLayoutHits, QuadDrivers.WideLayoutReportsQuadPoints, QuadDrivers.Quad1IntersectWideCorrected, QuadDrivers.Quad1OccludedWideCorrected, QuadDrivers.QuadKOccludedRayCorrected |
| kernels/xeon/geometry/quad_intersector_moeller.h:457 | The packet nearest-hit loop hands the second half's epilogue primIDs + 1 (also at line 545). The occlusion loop (lines 474, 476) and the wide drivers (lines 236, 496) use primIDs for both halves. | Any batch: for quad 0 with primIDs[0] = 7, a hit on the second half is reported with primitive 8 by the packet loop and 7 by every other path. | primIDs for both halves | not executed; medium, since IntersectKEpilog is not part of this model | QuadDrivers.SecondHalfIdsAsWritten, QuadDrivers.SecondHalfIdsDisagree, QuadDrivers.IntersectStepK | QuadDrivers.IntersectStepKIntended, QuadDrivers.IntersectStepKIdsOnly, QuadDrivers.HalfIdsAgreeWithWide |
