/** Rigid poses as 4x4 homogeneous matrices over the reals, and their
    composition, which in the pipeline is plain matrix multiplication. */
module Poses {

  type Matrix = seq<seq<real>>

  predicate Is4x4(m: Matrix)
  {
    |m| == 4 && forall i :: 0 <= i < 4 ==> |m[i]| == 4
  }

  function Identity(): (m: Matrix)
    ensures Is4x4(m)
  {
    [[1.0, 0.0, 0.0, 0.0],
     [0.0, 1.0, 0.0, 0.0],
     [0.0, 0.0, 1.0, 0.0],
     [0.0, 0.0, 0.0, 1.0]]
  }

  /** The matrix product `a * b`. */
  function Mul(a: Matrix, b: Matrix): (c: Matrix)
    requires Is4x4(a) && Is4x4(b)
    ensures Is4x4(c)
  {
    seq(4, i requires 0 <= i < 4 =>
      seq(4, j requires 0 <= j < 4 =>
        a[i][0] * b[0][j] + a[i][1] * b[1][j] + a[i][2] * b[2][j] + a[i][3] * b[3][j]))
  }

  /** The matrix `m` applied to the homogeneous point `p`. */
  function Apply(m: Matrix, p: seq<real>): (q: seq<real>)
    requires Is4x4(m) && |p| == 4
    ensures |q| == 4
  {
    seq(4, i requires 0 <= i < 4 =>
      m[i][0] * p[0] + m[i][1] * p[1] + m[i][2] * p[2] + m[i][3] * p[3])
  }

  /** Composing with the identity on the left leaves a pose as it was. */
  lemma MulIdentityLeft(m: Matrix)
    requires Is4x4(m)
    ensures Mul(Identity(), m) == m
  {
    var c := Mul(Identity(), m);
    forall i | 0 <= i < 4
      ensures c[i] == m[i]
    {
      assert |c[i]| == |m[i]|;
    }
  }

  /** The product `a * b` moves a point first by `b`, then by `a`: the
      left factor is the transform applied after the right one. */
  lemma ApplyMul(a: Matrix, b: Matrix, p: seq<real>)
    requires Is4x4(a) && Is4x4(b) && |p| == 4
    ensures Apply(Mul(a, b), p) == Apply(a, Apply(b, p))
  {
    var l := Apply(Mul(a, b), p);
    var r := Apply(a, Apply(b, p));
    forall i | 0 <= i < 4
      ensures l[i] == r[i]
    {
      RowTimesColumns(a[i][0], a[i][1], a[i][2], a[i][3], b[0], b[1], b[2], b[3], p);
    }
  }

  /** One row of `(a * b) p` equals the same row of `a (b p)`. */
  lemma RowTimesColumns(x0: real, x1: real, x2: real, x3: real,
                        b0: seq<real>, b1: seq<real>, b2: seq<real>, b3: seq<real>, p: seq<real>)
    requires |b0| == 4 && |b1| == 4 && |b2| == 4 && |b3| == 4 && |p| == 4
    ensures (x0 * b0[0] + x1 * b1[0] + x2 * b2[0] + x3 * b3[0]) * p[0]
          + (x0 * b0[1] + x1 * b1[1] + x2 * b2[1] + x3 * b3[1]) * p[1]
          + (x0 * b0[2] + x1 * b1[2] + x2 * b2[2] + x3 * b3[2]) * p[2]
          + (x0 * b0[3] + x1 * b1[3] + x2 * b2[3] + x3 * b3[3]) * p[3]
         == x0 * (b0[0] * p[0] + b0[1] * p[1] + b0[2] * p[2] + b0[3] * p[3])
          + x1 * (b1[0] * p[0] + b1[1] * p[1] + b1[2] * p[2] + b1[3] * p[3])
          + x2 * (b2[0] * p[0] + b2[1] * p[1] + b2[2] * p[2] + b2[3] * p[3])
          + x3 * (b3[0] * p[0] + b3[1] * p[1] + b3[2] * p[2] + b3[3] * p[3])
  {
  }
}
