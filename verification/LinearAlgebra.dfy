/**
Vectors and matrices over the field: dot products, linear combinations of
blocks, and kernels. A row of coefficients applied to the source blocks gives
the payload of a packet, so `Combine` is the meaning of a row everywhere in
the code: in the encoder, in the decoding matrix and in the inverse.
 */
module LinearAlgebra {
  import opened Field

  type Vec = seq<Byte>
  type Mat = seq<Vec>

  function Zeros(n: nat): (w: Vec)
    ensures |w| == n
  {
    seq(n, _ => 0)
  }

  /** A row or block padded with zeros to its full width. */
  function Padded(row: Vec, width: nat): (p: Vec)
    requires |row| <= width
    ensures |p| == width
  {
    row + Zeros(width - |row|)
  }

  /** The `i`-th row of the identity matrix. */
  function Unit(n: nat, i: nat): (w: Vec)
    ensures |w| == n
  {
    seq(n, j => if j == i then 1 else 0)
  }

  function VAdd(u: Vec, v: Vec): (w: Vec)
    requires |u| == |v|
    ensures |w| == |u|
  {
    seq(|u|, i requires 0 <= i < |u| => Add(u[i], v[i]))
  }

  function VScale(c: Byte, u: Vec): (w: Vec)
    ensures |w| == |u|
  {
    seq(|u|, i requires 0 <= i < |u| => Mul(c, u[i]))
  }

  ghost predicate IsMat(m: Mat, rows: nat, cols: nat) {
    |m| == rows && forall r :: 0 <= r < rows ==> |m[r]| == cols
  }

  function Dot(u: Vec, v: Vec): Byte
    requires |u| == |v|
  {
    if |u| == 0 then 0 else
      var n := |u| - 1;
      Add(Dot(u[..n], v[..n]), Mul(u[n], v[n]))
  }

  function Col(x: Mat, b: nat): (c: Vec)
    requires forall i :: 0 <= i < |x| ==> b < |x[i]|
    ensures |c| == |x|
  {
    seq(|x|, i requires 0 <= i < |x| => x[i][b])
  }

  /** The linear combination of the rows of `x` with coefficients `u`. */
  function Combine(u: Vec, x: Mat, width: nat): (w: Vec)
    requires IsMat(x, |u|, width)
    ensures |w| == width
  {
    seq(width, b requires 0 <= b < width => Dot(u, Col(x, b)))
  }

  // ----- Dot products -----

  lemma {:induction false} DotZeroLeft(v: Vec)
    ensures Dot(Zeros(|v|), v) == 0
  {
    hide Add;
    hide Mul;
    if |v| > 0 {
      var n := |v| - 1;
      assert Zeros(|v|)[..n] == Zeros(n);
      DotZeroLeft(v[..n]);
      MulZero(v[n]);
      AddZero(0);
    }
  }

  lemma {:induction false} DotComm(u: Vec, v: Vec)
    requires |u| == |v|
    ensures Dot(u, v) == Dot(v, u)
  {
    hide Add;
    hide Mul;
    if |u| > 0 {
      var n := |u| - 1;
      DotComm(u[..n], v[..n]);
      MulComm(u[n], v[n]);
    }
  }

  lemma {:induction false} DotAddLeft(u: Vec, v: Vec, x: Vec)
    requires |u| == |v| == |x|
    ensures Dot(VAdd(u, v), x) == Add(Dot(u, x), Dot(v, x))
  {
    hide Add;
    hide Mul;
    if |u| == 0 {
      AddZero(0);
    } else {
      var n := |u| - 1;
      assert VAdd(u, v)[..n] == VAdd(u[..n], v[..n]);
      DotAddLeft(u[..n], v[..n], x[..n]);
      MulAddLeft(u[n], v[n], x[n]);
      AddSwap(Dot(u[..n], x[..n]), Dot(v[..n], x[..n]), Mul(u[n], x[n]), Mul(v[n], x[n]));
    }
  }

  lemma {:induction false} DotScaleLeft(c: Byte, u: Vec, x: Vec)
    requires |u| == |x|
    ensures Dot(VScale(c, u), x) == Mul(c, Dot(u, x))
  {
    hide Add;
    hide Mul;
    if |u| == 0 {
      MulZero(c);
    } else {
      var n := |u| - 1;
      assert VScale(c, u)[..n] == VScale(c, u[..n]);
      DotScaleLeft(c, u[..n], x[..n]);
      MulAssoc(c, u[n], x[n]);
      MulAddRight(c, Dot(u[..n], x[..n]), Mul(u[n], x[n]));
    }
  }

  lemma {:induction false} DotUnit(n: nat, i: nat, x: Vec)
    requires i < n == |x|
    ensures Dot(Unit(n, i), x) == x[i]
    decreases n
  {
    hide Add;
    hide Mul;
    var m := n - 1;
    if i == m {
      assert Unit(n, i)[..m] == Zeros(m);
      DotZeroLeft(x[..m]);
      MulOne(x[m]);
      AddZero(x[m]);
    } else {
      assert Unit(n, i)[..m] == Unit(m, i);
      DotUnit(m, i, x[..m]);
      MulZero(x[m]);
      AddZero(x[i]);
    }
  }

  lemma {:induction false} DotConcat(u: Vec, v: Vec, x: Vec, y: Vec)
    requires |u| == |x| && |v| == |y|
    ensures Dot(u + v, x + y) == Add(Dot(u, x), Dot(v, y))
    decreases |v|
  {
    hide Add;
    hide Mul;
    if |v| == 0 {
      assert u + v == u && x + y == x;
      AddZero(Dot(u, x));
    } else {
      var n := |v| - 1;
      assert (u + v)[..|u| + n] == u + v[..n] && (x + y)[..|u| + n] == x + y[..n];
      DotConcat(u, v[..n], x, y[..n]);
      AddAssoc(Dot(u, x), Dot(v[..n], y[..n]), Mul(v[n], y[n]));
    }
  }

  lemma AddZeroRow(t: Vec, s: Vec)
    requires |s| == |t|
    ensures VAdd(t, VScale(0, s)) == t
  {
    hide Add;
    hide Mul;
    forall i | 0 <= i < |t|
      ensures VAdd(t, VScale(0, s))[i] == t[i]
    {
      MulZero(s[i]);
      AddZero(t[i]);
    }
  }

  // ----- Combinations of blocks -----

  lemma CombineAdd(u: Vec, v: Vec, x: Mat, width: nat)
    requires |u| == |v| && IsMat(x, |u|, width)
    ensures Combine(VAdd(u, v), x, width) == VAdd(Combine(u, x, width), Combine(v, x, width))
  {
    hide Add;
    hide Mul;
    hide Dot;
    forall b | 0 <= b < width
      ensures Combine(VAdd(u, v), x, width)[b] == VAdd(Combine(u, x, width), Combine(v, x, width))[b]
    {
      DotAddLeft(u, v, Col(x, b));
    }
  }

  lemma CombineScale(c: Byte, u: Vec, x: Mat, width: nat)
    requires IsMat(x, |u|, width)
    ensures Combine(VScale(c, u), x, width) == VScale(c, Combine(u, x, width))
  {
    hide Add;
    hide Mul;
    hide Dot;
    forall b | 0 <= b < width
      ensures Combine(VScale(c, u), x, width)[b] == VScale(c, Combine(u, x, width))[b]
    {
      DotScaleLeft(c, u, Col(x, b));
    }
  }

  lemma CombineUnit(i: nat, x: Mat, width: nat)
    requires i < |x| && IsMat(x, |x|, width)
    ensures Combine(Unit(|x|, i), x, width) == x[i]
  {
    hide Add;
    hide Mul;
    hide Dot;
    forall b | 0 <= b < width
      ensures Combine(Unit(|x|, i), x, width)[b] == x[i][b]
    {
      DotUnit(|x|, i, Col(x, b));
    }
  }

  lemma CombineZero(x: Mat, width: nat)
    requires IsMat(x, |x|, width)
    ensures Combine(Zeros(|x|), x, width) == Zeros(width)
  {
    hide Add;
    hide Mul;
    hide Dot;
    forall b | 0 <= b < width
      ensures Combine(Zeros(|x|), x, width)[b] == 0
    {
      DotZeroLeft(Col(x, b));
    }
  }

  lemma CombineStep(u: Vec, x: Mat, width: nat, i: nat)
    requires i < |u| && IsMat(x, |u|, width)
    ensures Combine(u[..i + 1], x[..i + 1], width)
         == VAdd(Combine(u[..i], x[..i], width), VScale(u[i], x[i]))
  {
    hide Add;
    hide Mul;
    forall b | 0 <= b < width
      ensures Combine(u[..i + 1], x[..i + 1], width)[b]
           == VAdd(Combine(u[..i], x[..i], width), VScale(u[i], x[i]))[b]
    {
      assert u[..i + 1][..i] == u[..i];
      assert Col(x[..i + 1], b)[..i] == Col(x[..i], b);
    }
  }

  // ----- Kernels -----

  ghost predicate InKernel(m: Mat, v: Vec)
    requires IsMat(m, |m|, |v|)
  {
    forall r :: 0 <= r < |m| ==> Dot(m[r], v) == 0
  }

  /** The matrix sends only the zero vector to zero. */
  ghost predicate TrivialKernel(m: Mat, cols: nat)
    requires IsMat(m, |m|, cols)
  {
    forall v: Vec :: |v| == cols && InKernel(m, v) ==> v == Zeros(cols)
  }

  function Identity(n: nat): Mat {
    seq(n, i requires 0 <= i < n => Unit(n, i))
  }

  lemma IdentityKernel(n: nat)
    ensures TrivialKernel(Identity(n), n)
  {
    hide Dot;
    forall v: Vec | |v| == n && InKernel(Identity(n), v)
      ensures v == Zeros(n)
    {
      forall i | 0 <= i < n
        ensures v[i] == 0
      {
        DotUnit(n, i, v);
        assert Dot(Identity(n)[i], v) == 0;
      }
    }
  }
}
