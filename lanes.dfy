/** Exact-arithmetic stand-ins for the SIMD vocabulary the kernels are written in:
    one lane of a Vec3<vfloat> is a Vec3 of reals, a vbool<N> is a seq<bool> of width N. */
module Lanes {

  datatype Vec3 = Vec3(x: real, y: real, z: real)

  function Add(a: Vec3, b: Vec3): Vec3 { Vec3(a.x + b.x, a.y + b.y, a.z + b.z) }

  function Sub(a: Vec3, b: Vec3): Vec3 { Vec3(a.x - b.x, a.y - b.y, a.z - b.z) }

  function Scale(s: real, a: Vec3): Vec3 { Vec3(s * a.x, s * a.y, s * a.z) }

  function Neg(a: Vec3): Vec3 { Vec3(-a.x, -a.y, -a.z) }

  function Dot(a: Vec3, b: Vec3): real { a.x * b.x + a.y * b.y + a.z * b.z }

  function Cross(a: Vec3, b: Vec3): Vec3
  {
    Vec3(a.y * b.z - a.z * b.y, a.z * b.x - a.x * b.z, a.x * b.y - a.y * b.x)
  }

  /** The cross product is orthogonal to both its arguments. */
  lemma CrossOrthogonal(a: Vec3, b: Vec3)
    ensures Dot(Cross(a, b), a) == 0.0 && Dot(Cross(a, b), b) == 0.0
  {
  }

  function Abs(x: real): real { if x < 0.0 then -x else x }

  /** Scalar triple product, cyclic form: (a x b).c == (b x c).a. */
  lemma TripleCyclic(a: Vec3, b: Vec3, c: Vec3)
    ensures Dot(Cross(a, b), c) == Dot(Cross(b, c), a)
  {
  }

  /** Swapping the two factors of a cross product negates the triple product. */
  lemma TripleSwap(a: Vec3, b: Vec3, c: Vec3)
    ensures Dot(Cross(b, a), c) == -Dot(Cross(a, b), c)
  {
  }

  /** Cramer's rule, coordinate by coordinate: with det = (e1 x e2).d,
      det * c == ((e1 x e2).c) d + ((d x c).e2) e1 - ((d x c).e1) e2. */
  lemma CramerX(e1: Vec3, e2: Vec3, d: Vec3, c: Vec3)
    ensures Dot(Cross(e1, e2), d) * c.x == Dot(Cross(e1, e2), c) * d.x + Dot(Cross(d, c), e2) * e1.x - Dot(Cross(d, c), e1) * e2.x
  {
  }

  lemma CramerY(e1: Vec3, e2: Vec3, d: Vec3, c: Vec3)
    ensures Dot(Cross(e1, e2), d) * c.y == Dot(Cross(e1, e2), c) * d.y + Dot(Cross(d, c), e2) * e1.y - Dot(Cross(d, c), e1) * e2.y
  {
  }

  lemma CramerZ(e1: Vec3, e2: Vec3, d: Vec3, c: Vec3)
    ensures Dot(Cross(e1, e2), d) * c.z == Dot(Cross(e1, e2), c) * d.z + Dot(Cross(d, c), e2) * e1.z - Dot(Cross(d, c), e1) * e2.z
  {
  }

  lemma CrossComponent(dy: real, dz: real, cy: real, cz: real, t: real, b1: real, b2: real,
                        e1y: real, e1z: real, e2y: real, e2z: real, px: real, qx: real)
    requires cy == t * dy + b1 * e1y - b2 * e2y && cz == t * dz + b1 * e1z - b2 * e2z
    requires px == dy * e1z - dz * e1y && qx == dy * e2z - dz * e2y
    ensures dy * cz - dz * cy == b1 * px - b2 * qx
  {
  }

  /** The x, y and z components of d x (t d + b1 e1 - b2 e2). */
  lemma CrossOfCombinationX(d: Vec3, t: real, b1: real, e1: Vec3, b2: real, e2: Vec3)
    ensures Cross(d, Sub(Add(Scale(t, d), Scale(b1, e1)), Scale(b2, e2))).x
         == b1 * Cross(d, e1).x - b2 * Cross(d, e2).x
  {
    var c := Sub(Add(Scale(t, d), Scale(b1, e1)), Scale(b2, e2));
    CrossComponent(d.y, d.z, c.y, c.z, t, b1, b2, e1.y, e1.z, e2.y, e2.z, Cross(d, e1).x, Cross(d, e2).x);
  }

  lemma CrossOfCombinationY(d: Vec3, t: real, b1: real, e1: Vec3, b2: real, e2: Vec3)
    ensures Cross(d, Sub(Add(Scale(t, d), Scale(b1, e1)), Scale(b2, e2))).y
         == b1 * Cross(d, e1).y - b2 * Cross(d, e2).y
  {
    var c := Sub(Add(Scale(t, d), Scale(b1, e1)), Scale(b2, e2));
    CrossComponent(d.z, d.x, c.z, c.x, t, b1, b2, e1.z, e1.x, e2.z, e2.x, Cross(d, e1).y, Cross(d, e2).y);
  }

  lemma CrossOfCombinationZ(d: Vec3, t: real, b1: real, e1: Vec3, b2: real, e2: Vec3)
    ensures Cross(d, Sub(Add(Scale(t, d), Scale(b1, e1)), Scale(b2, e2))).z
         == b1 * Cross(d, e1).z - b2 * Cross(d, e2).z
  {
    var c := Sub(Add(Scale(t, d), Scale(b1, e1)), Scale(b2, e2));
    CrossComponent(d.x, d.y, c.x, c.y, t, b1, b2, e1.x, e1.y, e2.x, e2.y, Cross(d, e1).z, Cross(d, e2).z);
  }

  /** d x (t d + b1 e1 - b2 e2) == b1 (d x e1) - b2 (d x e2). */
  lemma CrossOfCombination(d: Vec3, t: real, b1: real, e1: Vec3, b2: real, e2: Vec3)
    ensures Cross(d, Sub(Add(Scale(t, d), Scale(b1, e1)), Scale(b2, e2)))
         == Sub(Scale(b1, Cross(d, e1)), Scale(b2, Cross(d, e2)))
  {
    CrossOfCombinationX(d, t, b1, e1, b2, e2);
    CrossOfCombinationY(d, t, b1, e1, b2, e2);
    CrossOfCombinationZ(d, t, b1, e1, b2, e2);
  }

  /** The dot product is linear in its first argument. */
  lemma DotOfDifference(s: real, a: Vec3, r: real, b: Vec3, c: Vec3)
    ensures Dot(Sub(Scale(s, a), Scale(r, b)), c) == s * Dot(a, c) - r * Dot(b, c)
  {
    assert Sub(Scale(s, a), Scale(r, b)) == Vec3(s * a.x - r * b.x, s * a.y - r * b.y, s * a.z - r * b.z);
  }

  lemma DotCombinationScalars(n1: real, n2: real, n3: real, t: real, a1: real, a2: real, a3: real,
                              s: real, b1: real, b2: real, b3: real, r: real, c1: real, c2: real, c3: real)
    ensures n1 * (t * a1 + s * b1 - r * c1) + n2 * (t * a2 + s * b2 - r * c2) + n3 * (t * a3 + s * b3 - r * c3)
         == t * (n1 * a1 + n2 * a2 + n3 * a3) + s * (n1 * b1 + n2 * b2 + n3 * b3) - r * (n1 * c1 + n2 * c2 + n3 * c3)
  {
  }

  /** The dot product is linear in its second argument. */
  lemma DotOfCombination(n: Vec3, t: real, a: Vec3, s: real, b: Vec3, r: real, c: Vec3)
    ensures Dot(n, Sub(Add(Scale(t, a), Scale(s, b)), Scale(r, c))) == t * Dot(n, a) + s * Dot(n, b) - r * Dot(n, c)
  {
    DotCombinationScalars(n.x, n.y, n.z, t, a.x, a.y, a.z, s, b.x, b.y, b.z, r, c.x, c.y, c.z);
  }

  /** The triple products of a point c = t*d + b1*e1 - b2*e2 are the coordinates
      (t, b1, b2) scaled by det = (e1 x e2).d. */
  lemma TripleProductsOfCombination(e1: Vec3, e2: Vec3, d: Vec3, t: real, b1: real, b2: real)
    ensures var c := Sub(Add(Scale(t, d), Scale(b1, e1)), Scale(b2, e2));
            var det := Dot(Cross(e1, e2), d);
            && Dot(Cross(e1, e2), c) == t * det
            && Dot(Cross(d, c), e2) == b1 * det
            && Dot(Cross(d, c), e1) == b2 * det
  {
    var c := Sub(Add(Scale(t, d), Scale(b1, e1)), Scale(b2, e2));
    var det := Dot(Cross(e1, e2), d);
    var p, q := Cross(d, e1), Cross(d, e2);
    assert Dot(Cross(e1, e2), c) == t * det by {
      DotOfCombination(Cross(e1, e2), t, d, b1, e1, b2, e2);
      CrossOrthogonal(e1, e2);
    }
    assert Cross(d, c) == Sub(Scale(b1, p), Scale(b2, q)) by {
      CrossOfCombination(d, t, b1, e1, b2, e2);
    }
    assert Dot(p, e2) == det && Dot(q, e2) == 0.0 by {
      TripleCyclic(d, e1, e2);
      CrossOrthogonal(d, e2);
    }
    assert Dot(p, e1) == 0.0 && Dot(q, e1) == -det by {
      CrossOrthogonal(d, e1);
      TripleCyclic(d, e2, e1);
      TripleSwap(e1, e2, d);
    }
    DotOfDifference(b1, p, b2, q, e2);
    DotOfDifference(b1, p, b2, q, e1);
  }

  // ----- lane masks (vbool) -----

  predicate Any(m: seq<bool>) { exists i :: 0 <= i < |m| && m[i] }

  /** The SIMD none(): no lane is set. */
  predicate None(m: seq<bool>) { forall i :: 0 <= i < |m| ==> !m[i] }

  /** A broadcast: the same value in every one of n lanes. */
  function Splat<T>(n: nat, x: T): (r: seq<T>)
    ensures |r| == n && forall i :: 0 <= i < n ==> r[i] == x
  {
    seq(n, i => x)
  }

  function Not(m: seq<bool>): (r: seq<bool>)
    ensures |r| == |m| && forall i :: 0 <= i < |m| ==> r[i] == !m[i]
  {
    seq(|m|, i requires 0 <= i < |m| => !m[i])
  }

  /** Lane-wise conjunction, the & of two vbool masks. */
  function And(a: seq<bool>, b: seq<bool>): (r: seq<bool>)
    requires |a| == |b|
    ensures |r| == |a| && forall i :: 0 <= i < |a| ==> r[i] == (a[i] && b[i])
  {
    seq(|a|, i requires 0 <= i < |a| => a[i] && b[i])
  }

  /** a is a sub-mask of b: every lane set in a is set in b. */
  predicate SubMask(a: seq<bool>, b: seq<bool>)
  {
    |a| == |b| && forall i :: 0 <= i < |a| && a[i] ==> b[i]
  }

  /** A sub-mask of an empty mask is empty. */
  lemma SubMaskOfNone(a: seq<bool>, b: seq<bool>)
    requires SubMask(a, b) && None(b)
    ensures !Any(a)
  {
  }
}
