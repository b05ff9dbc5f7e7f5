/** Deferred hit finalisation of the quad intersector: the kernels hand an
    epilogue the unnormalised edge and depth values of every lane, and the
    division by |den| happens only when the epilogue asks for it. */
module QuadHit {
  import opened Lanes

  /** The constructor arguments of QuadHitM / QuadHitK: per lane the sign-folded
      edge values U and V, depth T, |den|, the geometry normal and the flag that
      marks lanes holding the second triangle of a quad. */
  datatype Candidate = Candidate(U: seq<real>, V: seq<real>, T: seq<real>, absDen: seq<real>,
                                 Ng: seq<Vec3>, flags: seq<bool>)
  {
    function Width(): nat { |U| }

    predicate WellFormed()
    {
      |V| == |U| && |T| == |U| && |absDen| == |U| && |Ng| == |U| && |flags| == |U|
    }
  }

  /** Finalised attributes of one lane. */
  datatype Uvt = Uvt(u: real, v: real, t: real)

  /** Finalised attributes of all lanes (the fields vu, vv, vt, vNg). */
  datatype Finalized = Finalized(u: seq<real>, v: seq<real>, t: seq<real>, Ng: seq<Vec3>)

  /** Exact reciprocal. rcp(0) is infinite in the source; only lanes the kernel
      masked off can have absDen = 0, so the value chosen there is immaterial. */
  function Rcp(x: real): (r: real)
    ensures x != 0.0 ==> r * x == 1.0
  {
    if x == 0.0 then 0.0 else 1.0 / x
  }

  function Select<T>(flags: seq<bool>, a: seq<T>, b: seq<T>): (r: seq<T>)
    requires |a| == |flags| && |b| == |flags|
    ensures |r| == |flags| && forall i :: 0 <= i < |flags| ==> r[i] == if flags[i] then a[i] else b[i]
  {
    seq(|flags|, i requires 0 <= i < |flags| => if flags[i] then a[i] else b[i])
  }

  /** One lane of QuadHitK::operator() (and of QuadHitM::finalize without AVX):
      t = T/|den|, and (u, v) = (U, V)/|den|, replaced by (1-u, 1-v) on flagged lanes. */
  function FinalLane(U: real, V: real, T: real, absDen: real, flag: bool): (r: Uvt)
    ensures absDen != 0.0 ==> r.t * absDen == T
    ensures absDen != 0.0 && !flag ==> r.u * absDen == U && r.v * absDen == V
    ensures absDen != 0.0 && flag ==> (1.0 - r.u) * absDen == U && (1.0 - r.v) * absDen == V
  {
    var rcpAbsDen := Rcp(absDen);
    var u, v := U * rcpAbsDen, V * rcpAbsDen;
    Uvt(if flag then 1.0 - u else u, if flag then 1.0 - v else v, T * rcpAbsDen)
  }

  /** One lane of QuadHitM::finalize with AVX: flagged lanes get u = 1-v and v = 1-u. */
  function FinalLaneAvx(U: real, V: real, T: real, absDen: real, flag: bool): (r: Uvt)
    ensures absDen != 0.0 ==> r.t * absDen == T
    ensures absDen != 0.0 && !flag ==> r.u * absDen == U && r.v * absDen == V
    ensures absDen != 0.0 && flag ==> (1.0 - r.v) * absDen == U && (1.0 - r.u) * absDen == V
  {
    var rcpAbsDen := Rcp(absDen);
    var u, v := U * rcpAbsDen, V * rcpAbsDen;
    Uvt(if flag then 1.0 - v else u, if flag then 1.0 - u else v, T * rcpAbsDen)
  }

  /** The two finalisations agree on unflagged lanes; on flagged lanes the AVX one
      is the plain one with u and v exchanged. */
  lemma AvxExchangesFlaggedUv(U: real, V: real, T: real, absDen: real, flag: bool)
    ensures var p, a := FinalLane(U, V, T, absDen, flag), FinalLaneAvx(U, V, T, absDen, flag);
            a == if flag then Uvt(p.v, p.u, p.t) else p
  {
  }

  /** A lane that passed the edge tests (U, V >= 0, U + V <= |den| != 0) finalises
      into the unit square: below the diagonal u + v = 1 when unflagged, on or above
      it when flagged; and t inherits the depth test's interval. */
  lemma FinalLaneBounds(U: real, V: real, T: real, absDen: real, flag: bool, tnear: real, tfar: real)
    requires absDen > 0.0 && U >= 0.0 && V >= 0.0 && U + V <= absDen
    ensures var r := FinalLane(U, V, T, absDen, flag);
            && 0.0 <= r.u <= 1.0 && 0.0 <= r.v <= 1.0
            && (if flag then r.u + r.v >= 1.0 else r.u + r.v <= 1.0)
            && (absDen * tnear < T < absDen * tfar ==> tnear < r.t < tfar)
            && (absDen * tnear <= T <= absDen * tfar ==> tnear <= r.t <= tfar)
  {
    var r := FinalLane(U, V, T, absDen, flag);
    var u, v := U / absDen, V / absDen;
    assert u * absDen == U && v * absDen == V && r.t * absDen == T;
    assert (u + v) * absDen == U + V;
    assert 0.0 <= u && 0.0 <= v && u + v <= 1.0;
    assert r.u == if flag then 1.0 - u else u;
    assert r.v == if flag then 1.0 - v else v;
    if absDen * tnear < T { assert absDen * tnear < absDen * r.t; }
    if T < absDen * tfar { assert absDen * r.t < absDen * tfar; }
    if absDen * tnear <= T { assert absDen * tnear <= absDen * r.t; }
    if T <= absDen * tfar { assert absDen * r.t <= absDen * tfar; }
  }

  /** QuadHitK::operator(): finalise every lane; the normal is passed through. */
  function FinalizeK(c: Candidate): (r: Finalized)
    requires c.WellFormed()
    ensures |r.u| == c.Width() && |r.v| == c.Width() && |r.t| == c.Width() && r.Ng == c.Ng
    ensures forall i :: 0 <= i < c.Width() && c.absDen[i] != 0.0 ==>
              && r.t[i] * c.absDen[i] == c.T[i]
              && (!c.flags[i] ==> r.u[i] * c.absDen[i] == c.U[i] && r.v[i] * c.absDen[i] == c.V[i])
              && (c.flags[i] ==> (1.0 - r.u[i]) * c.absDen[i] == c.U[i] && (1.0 - r.v[i]) * c.absDen[i] == c.V[i])
  {
    var n := c.Width();
    var lanes := seq(n, i requires 0 <= i < n => FinalLane(c.U[i], c.V[i], c.T[i], c.absDen[i], c.flags[i]));
    Finalized(seq(n, i requires 0 <= i < n => lanes[i].u),
              seq(n, i requires 0 <= i < n => lanes[i].v),
              seq(n, i requires 0 <= i < n => lanes[i].t),
              c.Ng)
  }

  /** QuadHitM::finalize as compiled with AVX: flagged lanes exchange the remapped
      u and v and negate the normal. */
  function AvxFinalized(c: Candidate): (r: Finalized)
    requires c.WellFormed()
    ensures |r.u| == c.Width() && |r.v| == c.Width() && |r.t| == c.Width() && |r.Ng| == c.Width()
    ensures forall i :: 0 <= i < c.Width() ==> r.Ng[i] == if c.flags[i] then Neg(c.Ng[i]) else c.Ng[i]
    ensures forall i :: 0 <= i < c.Width() && c.absDen[i] != 0.0 ==>
              && r.t[i] * c.absDen[i] == c.T[i]
              && (!c.flags[i] ==> r.u[i] * c.absDen[i] == c.U[i] && r.v[i] * c.absDen[i] == c.V[i])
              && (c.flags[i] ==> (1.0 - r.v[i]) * c.absDen[i] == c.U[i] && (1.0 - r.u[i]) * c.absDen[i] == c.V[i])
  {
    var n := c.Width();
    var lanes := seq(n, i requires 0 <= i < n => FinalLaneAvx(c.U[i], c.V[i], c.T[i], c.absDen[i], c.flags[i]));
    Finalized(seq(n, i requires 0 <= i < n => lanes[i].u),
              seq(n, i requires 0 <= i < n => lanes[i].v),
              seq(n, i requires 0 <= i < n => lanes[i].t),
              seq(n, i requires 0 <= i < n => if c.flags[i] then Neg(c.Ng[i]) else c.Ng[i]))
  }

  /** Lane i of a finalised hit. */
  function LaneOf(f: Finalized, i: nat): Uvt
    requires i < |f.u| && i < |f.v| && i < |f.t|
  {
    Uvt(f.u[i], f.v[i], f.t[i])
  }

  /** Lane i of QuadHitK's result is that lane finalised on its own. */
  lemma FinalizeKLane(c: Candidate, i: nat)
    requires c.WellFormed() && i < c.Width()
    ensures LaneOf(FinalizeK(c), i) == FinalLane(c.U[i], c.V[i], c.T[i], c.absDen[i], c.flags[i])
  {
  }

  /** Lane i of the AVX finalisation is that lane finalised on its own. */
  lemma AvxFinalizedLane(c: Candidate, i: nat)
    requires c.WellFormed() && i < c.Width()
    ensures LaneOf(AvxFinalized(c), i) == FinalLaneAvx(c.U[i], c.V[i], c.T[i], c.absDen[i], c.flags[i])
  {
  }

  /** Scaled lanes: s[i] is x[i] / |den| with the exact reciprocal. */
  predicate Scaled(s: seq<real>, x: seq<real>, absDen: seq<real>)
  {
    |s| == |x| == |absDen| && forall i :: 0 <= i < |s| ==> s[i] == x[i] * Rcp(absDen[i])
  }

  /** s[i] == 1 - x[i] lane by lane. */
  predicate Complement(s: seq<real>, x: seq<real>)
  {
    |s| == |x| && forall i :: 0 <= i < |s| ==> s[i] == 1.0 - x[i]
  }

  /** Lane-wise rcp. */
  function RcpLanes(a: seq<real>): (r: seq<real>)
    ensures |r| == |a| && forall i :: 0 <= i < |a| ==> r[i] == Rcp(a[i])
  {
    seq(|a|, i requires 0 <= i < |a| => Rcp(a[i]))
  }

  /** Lane-wise product. */
  function Mul(a: seq<real>, b: seq<real>): (r: seq<real>)
    requires |a| == |b|
    ensures |r| == |a| && forall i :: 0 <= i < |a| ==> r[i] == a[i] * b[i]
  {
    seq(|a|, i requires 0 <= i < |a| => a[i] * b[i])
  }

  /** Lane-wise 1 - a. */
  function OneMinus(a: seq<real>): (r: seq<real>)
    ensures Complement(r, a)
  {
    seq(|a|, i requires 0 <= i < |a| => 1.0 - a[i])
  }

  /** Multiplying by the lane-wise rcp of absDen scales each lane. */
  lemma MulByRcpIsScaled(x: seq<real>, absDen: seq<real>)
    requires |x| == |absDen|
    ensures Scaled(Mul(x, RcpLanes(absDen)), x, absDen)
  {
  }

  /** Assembling QuadHitK's result from the scaled lanes. */
  lemma PlainFromScaled(c: Candidate, u: seq<real>, v: seq<real>, t: seq<real>, u1: seq<real>, v1: seq<real>)
    requires c.WellFormed() && Scaled(u, c.U, c.absDen) && Scaled(v, c.V, c.absDen) && Scaled(t, c.T, c.absDen)
    requires Complement(u1, u) && Complement(v1, v)
    ensures var r := FinalizeK(c);
            r.u == Select(c.flags, u1, u) && r.v == Select(c.flags, v1, v) && r.t == t
  {
  }

  /** Assembling the AVX finalisation from the scaled lanes. */
  lemma AvxFromScaled(c: Candidate, u: seq<real>, v: seq<real>, t: seq<real>, u1: seq<real>, v1: seq<real>)
    requires c.WellFormed() && Scaled(u, c.U, c.absDen) && Scaled(v, c.V, c.absDen) && Scaled(t, c.T, c.absDen)
    requires Complement(u1, u) && Complement(v1, v)
    ensures var r := AvxFinalized(c);
            r.u == Select(c.flags, v1, u) && r.v == Select(c.flags, u1, v) && r.t == t
  {
  }

  /** The AVX normals are the triangle normals scaled by -1 on flagged lanes and 1 elsewhere. */
  lemma AvxFlipsNormals(c: Candidate, flip: seq<real>, ng: seq<Vec3>)
    requires c.WellFormed() && |flip| == c.Width() && |ng| == c.Width()
    requires forall i :: 0 <= i < |flip| ==> flip[i] == if c.flags[i] then -1.0 else 1.0
    requires forall i :: 0 <= i < |ng| ==> ng[i] == Scale(flip[i], c.Ng[i])
    ensures ng == AvxFinalized(c).Ng
  {
  }

  /** QuadHitM: the candidate plus the fields finalize() writes. */
  class QuadHitM {
    const U: seq<real>
    const V: seq<real>
    const T: seq<real>
    const absDen: seq<real>
    const flags: seq<bool>
    const triNg: seq<Vec3>

    var vu: seq<real>
    var vv: seq<real>
    var vt: seq<real>
    var vNg: seq<Vec3>

    function Input(): Candidate
    {
      Candidate(U, V, T, absDen, triNg, flags)
    }

    constructor (U: seq<real>, V: seq<real>, T: seq<real>, absDen: seq<real>, Ng: seq<Vec3>, flags: seq<bool>)
      ensures Input() == Candidate(U, V, T, absDen, Ng, flags)
      ensures vu == [] && vv == [] && vt == [] && vNg == []
    {
      this.U, this.V, this.T, this.absDen, this.flags, this.triNg := U, V, T, absDen, flags, Ng;
      vu, vv, vt, vNg := [], [], [], [];
    }

    /** finalize() as compiled without AVX: writes vu, vv, vt and vNg. */
    method Finalize()
      requires Input().WellFormed()
      modifies this
      ensures Finalized(vu, vv, vt, vNg) == FinalizeK(Input())
    {
      hide FinalizeK, Scaled, Complement, Mul, RcpLanes;
      MulByRcpIsScaled(T, absDen);
      MulByRcpIsScaled(U, absDen);
      MulByRcpIsScaled(V, absDen);
      var rcpAbsDen := RcpLanes(absDen);
      var t := Mul(T, rcpAbsDen);
      var u := Mul(U, rcpAbsDen);
      var v := Mul(V, rcpAbsDen);
      var u1 := OneMinus(u);
      var v1 := OneMinus(v);
      PlainFromScaled(Input(), u, v, t, u1, v1);
      vu, vv, vt, vNg := Select(flags, u1, u), Select(flags, v1, v), t, triNg;
    }

    /** finalize() as compiled with AVX: flagged lanes exchange the remapped u
        and v and flip the normal. */
    method FinalizeAvx()
      requires Input().WellFormed()
      modifies this
      ensures Finalized(vu, vv, vt, vNg) == AvxFinalized(Input())
    {
      hide AvxFinalized, Scaled, Complement, Mul, RcpLanes;
      MulByRcpIsScaled(T, absDen);
      MulByRcpIsScaled(U, absDen);
      MulByRcpIsScaled(V, absDen);
      var n := |U|;
      var rcpAbsDen := RcpLanes(absDen);
      var t := Mul(T, rcpAbsDen);
      var u := Mul(U, rcpAbsDen);
      var v := Mul(V, rcpAbsDen);
      var u1 := OneMinus(u);
      var v1 := OneMinus(v);
      var flip := Select(flags, seq(n, _ => -1.0), seq(n, _ => 1.0));
      var ng := seq(n, i requires 0 <= i < n => Scale(flip[i], triNg[i]));
      AvxFromScaled(Input(), u, v, t, u1, v1);
      AvxFlipsNormals(Input(), flip, ng);
      vu, vv, vt, vNg := Select(flags, v1, u), Select(flags, u1, v), t, ng;
    }
  }
}
