/**
Products and sums of matrices over the field: associativity, distributivity,
identities, and products of matrices cut into blocks.
 */
module MatrixAlgebra {
  import opened Field
  import opened LinearAlgebra

  /** The matrix product; row i combines the rows of `b` with the coefficients `a[i]`. */
  function Product(a: Mat, b: Mat, cols: nat): (m: Mat)
    requires IsMat(a, |a|, |b|) && IsMat(b, |b|, cols)
    ensures IsMat(m, |a|, cols)
  {
    seq(|a|, i requires 0 <= i < |a| => Combine(a[i], b, cols))
  }

  function Sum(a: Mat, b: Mat, cols: nat): (m: Mat)
    requires IsMat(a, |a|, cols) && IsMat(b, |a|, cols)
    ensures IsMat(m, |a|, cols)
  {
    seq(|a|, i requires 0 <= i < |a| => VAdd(a[i], b[i]))
  }

  function ZeroMat(rows: nat, cols: nat): (m: Mat)
    ensures IsMat(m, rows, cols)
  {
    var row := Zeros(cols);
    seq(rows, _ => row)
  }

  /** A matrix applied to a column vector. */
  function Image(m: Mat, v: Vec): (w: Vec)
    requires IsMat(m, |m|, |v|)
    ensures |w| == |m|
  {
    seq(|m|, r requires 0 <= r < |m| => Dot(m[r], v))
  }

  lemma IdentityShape(n: nat)
    ensures IsMat(Identity(n), n, n)
  {
  }

  // ----- Associativity -----

  lemma {:induction false} DotCombine(u: Vec, b: Mat, v: Vec)
    requires IsMat(b, |u|, |v|)
    ensures Dot(Combine(u, b, |v|), v) == Dot(u, Image(b, v))
    decreases |u|
  {
    hide Add;
    hide Mul;
    hide Combine;
    if |u| == 0 {
      assert u == Zeros(0) && b == [];
      CombineZero(b, |v|);
      DotZeroLeft(v);
    } else {
      var n := |u| - 1;
      CombineStep(u, b, |v|, n);
      assert u[..n + 1] == u && b[..n + 1] == b;
      DotCombine(u[..n], b[..n], v);
      DotAddLeft(Combine(u[..n], b[..n], |v|), VScale(u[n], b[n]), v);
      DotScaleLeft(u[n], b[n], v);
      assert Image(b, v)[..n] == Image(b[..n], v);
    }
  }

  lemma CombineProduct(u: Vec, b: Mat, c: Mat, cols: nat)
    requires |b| == |u| && IsMat(b, |u|, |c|) && IsMat(c, |c|, cols)
    ensures Combine(Combine(u, b, |c|), c, cols) == Combine(u, Product(b, c, cols), cols)
  {
    hide Dot;
    forall j | 0 <= j < cols
      ensures Combine(Combine(u, b, |c|), c, cols)[j] == Combine(u, Product(b, c, cols), cols)[j]
    {
      DotCombine(u, b, Col(c, j));
      assert Col(Product(b, c, cols), j) == Image(b, Col(c, j));
    }
  }

  lemma ProductAssoc(a: Mat, b: Mat, c: Mat, cols: nat)
    requires IsMat(a, |a|, |b|) && IsMat(b, |b|, |c|) && IsMat(c, |c|, cols)
    ensures Product(Product(a, b, |c|), c, cols) == Product(a, Product(b, c, cols), cols)
  {
    hide Combine;
    forall i | 0 <= i < |a|
      ensures Combine(Combine(a[i], b, |c|), c, cols) == Combine(a[i], Product(b, c, cols), cols)
    {
      CombineProduct(a[i], b, c, cols);
    }
  }

  lemma ImageProduct(a: Mat, b: Mat, v: Vec)
    requires IsMat(a, |a|, |b|) && IsMat(b, |b|, |v|)
    ensures Image(Product(a, b, |v|), v) == Image(a, Image(b, v))
  {
    hide Combine;
    hide Dot;
    forall i | 0 <= i < |a|
      ensures Dot(Combine(a[i], b, |v|), v) == Dot(a[i], Image(b, v))
    {
      DotCombine(a[i], b, v);
    }
  }

  // ----- Distributivity -----

  lemma ProductSumLeft(a: Mat, b: Mat, c: Mat, cols: nat)
    requires IsMat(a, |a|, |c|) && IsMat(b, |a|, |c|) && IsMat(c, |c|, cols)
    ensures Product(Sum(a, b, |c|), c, cols) == Sum(Product(a, c, cols), Product(b, c, cols), cols)
  {
    hide Combine;
    hide VAdd;
    forall i | 0 <= i < |a|
      ensures Combine(VAdd(a[i], b[i]), c, cols) == VAdd(Combine(a[i], c, cols), Combine(b[i], c, cols))
    {
      CombineAdd(a[i], b[i], c, cols);
    }
  }

  lemma CombineSum(u: Vec, x: Mat, y: Mat, cols: nat)
    requires IsMat(x, |u|, cols) && IsMat(y, |u|, cols)
    ensures Combine(u, Sum(x, y, cols), cols) == VAdd(Combine(u, x, cols), Combine(u, y, cols))
  {
    hide Dot;
    hide Add;
    forall j | 0 <= j < cols
      ensures Combine(u, Sum(x, y, cols), cols)[j] == VAdd(Combine(u, x, cols), Combine(u, y, cols))[j]
    {
      var cx, cy := Col(x, j), Col(y, j);
      assert Col(Sum(x, y, cols), j) == VAdd(cx, cy);
      DotComm(u, VAdd(cx, cy));
      DotAddLeft(cx, cy, u);
      DotComm(u, cx);
      DotComm(u, cy);
    }
  }

  lemma ProductSumRight(a: Mat, b: Mat, c: Mat, cols: nat)
    requires IsMat(a, |a|, |b|) && IsMat(b, |b|, cols) && IsMat(c, |b|, cols)
    ensures Product(a, Sum(b, c, cols), cols) == Sum(Product(a, b, cols), Product(a, c, cols), cols)
  {
    hide Combine;
    hide VAdd;
    forall i | 0 <= i < |a|
      ensures Combine(a[i], Sum(b, c, cols), cols) == VAdd(Combine(a[i], b, cols), Combine(a[i], c, cols))
    {
      CombineSum(a[i], b, c, cols);
    }
  }

  // ----- Sums -----

  lemma SumSelf(a: Mat, cols: nat)
    requires IsMat(a, |a|, cols)
    ensures Sum(a, a, cols) == ZeroMat(|a|, cols)
  {
    hide Add;
    forall i | 0 <= i < |a|
      ensures VAdd(a[i], a[i]) == Zeros(cols)
    {
      forall c | 0 <= c < cols
        ensures VAdd(a[i], a[i])[c] == 0
      {
        AddSelf(a[i][c]);
      }
    }
  }

  lemma SumComm(a: Mat, b: Mat, cols: nat)
    requires IsMat(a, |a|, cols) && IsMat(b, |a|, cols)
    ensures Sum(a, b, cols) == Sum(b, a, cols)
  {
    hide Add;
    forall i | 0 <= i < |a|
      ensures VAdd(a[i], b[i]) == VAdd(b[i], a[i])
    {
      forall c | 0 <= c < cols
        ensures VAdd(a[i], b[i])[c] == VAdd(b[i], a[i])[c]
      {
        AddComm(a[i][c], b[i][c]);
      }
    }
  }

  /** Adding the same matrix twice changes nothing. */
  lemma SumCancel(a: Mat, b: Mat, cols: nat)
    requires IsMat(a, |a|, cols) && IsMat(b, |a|, cols)
    ensures Sum(Sum(a, b, cols), b, cols) == a
  {
    hide Add;
    forall i | 0 <= i < |a|
      ensures VAdd(VAdd(a[i], b[i]), b[i]) == a[i]
    {
      forall c | 0 <= c < cols
        ensures VAdd(VAdd(a[i], b[i]), b[i])[c] == a[i][c]
      {
        AddComm(a[i][c], b[i][c]);
        AddComm(b[i][c], Add(a[i][c], b[i][c]));
        AddCancel(b[i][c], a[i][c]);
      }
    }
  }

  // ----- Identity -----

  lemma ProductIdentityLeft(m: Mat, cols: nat)
    requires IsMat(m, |m|, cols)
    ensures IsMat(Identity(|m|), |m|, |m|) && Product(Identity(|m|), m, cols) == m
  {
    hide Combine;
    forall i | 0 <= i < |m|
      ensures Combine(Unit(|m|, i), m, cols) == m[i]
    {
      CombineUnit(i, m, cols);
    }
  }

  lemma CombineIdentity(u: Vec)
    ensures IsMat(Identity(|u|), |u|, |u|) && Combine(u, Identity(|u|), |u|) == u
  {
    hide Dot;
    var n := |u|;
    forall b | 0 <= b < n
      ensures Combine(u, Identity(n), n)[b] == u[b]
    {
      assert Col(Identity(n), b) == Unit(n, b);
      DotComm(u, Unit(n, b));
      DotUnit(n, b, u);
    }
  }

  lemma ProductIdentityRight(m: Mat, cols: nat)
    requires IsMat(m, |m|, cols)
    ensures IsMat(Identity(cols), cols, cols) && Product(m, Identity(cols), cols) == m
  {
    hide Combine;
    IdentityShape(cols);
    forall i | 0 <= i < |m|
      ensures Combine(m[i], Identity(cols), cols) == m[i]
    {
      CombineIdentity(m[i]);
    }
  }

  // ----- Blocks -----

  /** Two matrices side by side. */
  function Beside(a: Mat, b: Mat): (m: Mat)
    requires |a| == |b|
    ensures |m| == |a|
  {
    seq(|a|, i requires 0 <= i < |a| => a[i] + b[i])
  }

  /** Four blocks put together. */
  function Blocks(a: Mat, b: Mat, c: Mat, d: Mat): (m: Mat)
    requires |a| == |b| && |c| == |d|
    ensures |m| == |a| + |c|
  {
    Beside(a, b) + Beside(c, d)
  }

  lemma BlocksShape(a: Mat, b: Mat, c: Mat, d: Mat, p: nat, q: nat)
    requires IsMat(a, |a|, p) && IsMat(b, |a|, q) && IsMat(c, |c|, p) && IsMat(d, |c|, q)
    ensures IsMat(Blocks(a, b, c, d), |a| + |c|, p + q)
  {
  }

  lemma CombineBeside(u: Vec, x: Mat, y: Mat, p: nat, q: nat)
    requires IsMat(x, |u|, p) && IsMat(y, |u|, q)
    ensures IsMat(Beside(x, y), |u|, p + q)
    ensures Combine(u, Beside(x, y), p + q) == Combine(u, x, p) + Combine(u, y, q)
  {
    hide Dot;
    forall j | 0 <= j < p + q
      ensures Combine(u, Beside(x, y), p + q)[j] == (Combine(u, x, p) + Combine(u, y, q))[j]
    {
      if j < p {
        assert Col(Beside(x, y), j) == Col(x, j);
      } else {
        assert Col(Beside(x, y), j) == Col(y, j - p);
      }
    }
  }

  lemma CombineAbove(u: Vec, v: Vec, x: Mat, y: Mat, cols: nat)
    requires IsMat(x, |u|, cols) && IsMat(y, |v|, cols)
    ensures IsMat(x + y, |u + v|, cols)
    ensures Combine(u + v, x + y, cols) == VAdd(Combine(u, x, cols), Combine(v, y, cols))
  {
    hide Dot;
    forall j | 0 <= j < cols
      ensures Combine(u + v, x + y, cols)[j] == VAdd(Combine(u, x, cols), Combine(v, y, cols))[j]
    {
      assert Col(x + y, j) == Col(x, j) + Col(y, j);
      DotConcat(u, v, Col(x, j), Col(y, j));
    }
  }
}
