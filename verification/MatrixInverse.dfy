/**
Block-recursive inversion of dense matrices: invert the leading block, form its
Schur complement, invert that, and put the four blocks of the inverse together.
The recursion never pivots, so it succeeds exactly on the matrices all of whose
leading blocks are nonsingular.
 */
module MatrixInverse {
  import opened Field
  import opened LinearAlgebra
  import opened MatrixAlgebra

  /** The inverse, or why there is none: an empty matrix, or the panic on a zero pivot. */
  datatype Outcome = Inverse(matrix: Mat) | Empty | ZeroPivot

  // ----- Cutting and joining -----

  function Cut(m: Mat, fromRow: nat, toRow: nat, fromCol: nat, toCol: nat): (b: Mat)
    requires fromRow <= toRow <= |m| && fromCol <= toCol
    requires forall i :: 0 <= i < |m| ==> toCol <= |m[i]|
    ensures IsMat(b, toRow - fromRow, toCol - fromCol)
  {
    seq(toRow - fromRow, i requires 0 <= i < toRow - fromRow => m[fromRow + i][fromCol..toCol])
  }

  lemma CutJoin(m: Mat, n: nat, mid: nat)
    requires IsMat(m, n, n) && mid <= n
    ensures Blocks(Cut(m, 0, mid, 0, mid), Cut(m, 0, mid, mid, n), Cut(m, mid, n, 0, mid), Cut(m, mid, n, mid, n)) == m
  {
    var a, b := Cut(m, 0, mid, 0, mid), Cut(m, 0, mid, mid, n);
    var c, d := Cut(m, mid, n, 0, mid), Cut(m, mid, n, mid, n);
    forall i | 0 <= i < n
      ensures Blocks(a, b, c, d)[i] == m[i]
    {
      assert m[i] == m[i][0..mid] + m[i][mid..n];
    }
  }

  // ----- The recursion as a function -----

  /** The Schur complement d + (c * a^-1) * b. */
  function Schur(ai: Mat, b: Mat, c: Mat, d: Mat, p: nat, q: nat): (s: Mat)
    requires IsMat(ai, p, p) && IsMat(b, p, q) && IsMat(c, q, p) && IsMat(d, q, q)
    ensures IsMat(s, q, q)
  {
    Sum(d, Product(Product(c, ai, p), b, q), q)
  }

  /** The inverse of the block matrix from the inverses of `a` and of its Schur complement. */
  function Assembled(ai: Mat, b: Mat, c: Mat, si: Mat, p: nat, q: nat): (m: Mat)
    requires IsMat(ai, p, p) && IsMat(b, p, q) && IsMat(c, q, p) && IsMat(si, q, q)
    ensures IsMat(m, p + q, p + q)
  {
    var cai := Product(c, ai, p);
    var upperRight := Product(Product(ai, b, q), si, q);
    var lowerLeft := Product(si, cai, p);
    var upperLeft := Sum(ai, Product(upperRight, cai, p), p);
    BlocksShape(upperLeft, upperRight, lowerLeft, si, p, q);
    Blocks(upperLeft, upperRight, lowerLeft, si)
  }

  function Inverted(m: Mat, n: nat): (r: Outcome)
    requires IsMat(m, n, n)
    ensures r.Inverse? ==> IsMat(r.matrix, n, n)
    ensures r.Empty? <==> n == 0
    decreases n
  {
    if n == 0 then Empty
    else if n == 1 then (if m[0][0] == 0 then ZeroPivot else Inverse([[Inv(m[0][0])]]))
    else
      var mid := n / 2;
      var b, c, d := Cut(m, 0, mid, mid, n), Cut(m, mid, n, 0, mid), Cut(m, mid, n, mid, n);
      var left := Inverted(Cut(m, 0, mid, 0, mid), mid);
      if !left.Inverse? then left else
        var right := Inverted(Schur(left.matrix, b, c, d, mid, n - mid), n - mid);
        if !right.Inverse? then right
        else Inverse(Assembled(left.matrix, b, c, right.matrix, mid, n - mid))
  }

  // ----- The result is a two-sided inverse -----

  ghost predicate TwoSided(m: Mat, w: Mat, n: nat)
    requires IsMat(m, n, n) && IsMat(w, n, n)
  {
    Product(m, w, n) == Identity(n) && Product(w, m, n) == Identity(n)
  }

  /** The product of two block matrices, block by block. */
  lemma BlockProduct(a: Mat, b: Mat, c: Mat, d: Mat, e: Mat, f: Mat, g: Mat, h: Mat, p: nat, q: nat)
    requires IsMat(a, p, p) && IsMat(b, p, q) && IsMat(c, q, p) && IsMat(d, q, q)
    requires IsMat(e, p, p) && IsMat(f, p, q) && IsMat(g, q, p) && IsMat(h, q, q)
    ensures IsMat(Blocks(a, b, c, d), p + q, p + q) && IsMat(Blocks(e, f, g, h), p + q, p + q)
    ensures Product(Blocks(a, b, c, d), Blocks(e, f, g, h), p + q)
         == Blocks(Sum(Product(a, e, p), Product(b, g, p), p), Sum(Product(a, f, q), Product(b, h, q), q),
                   Sum(Product(c, e, p), Product(d, g, p), p), Sum(Product(c, f, q), Product(d, h, q), q))
  {
    hide Combine;
    hide VAdd;
    BlocksShape(a, b, c, d, p, q);
    BlocksShape(e, f, g, h, p, q);
    forall i | 0 <= i < p
      ensures Combine(a[i] + b[i], Blocks(e, f, g, h), p + q)
           == VAdd(Combine(a[i], e, p), Combine(b[i], g, p)) + VAdd(Combine(a[i], f, q), Combine(b[i], h, q))
    {
      BlockRow(a[i], b[i], e, f, g, h, p, q);
    }
    forall i | 0 <= i < q
      ensures Combine(c[i] + d[i], Blocks(e, f, g, h), p + q)
           == VAdd(Combine(c[i], e, p), Combine(d[i], g, p)) + VAdd(Combine(c[i], f, q), Combine(d[i], h, q))
    {
      BlockRow(c[i], d[i], e, f, g, h, p, q);
    }
  }

  lemma BlockRow(u: Vec, v: Vec, e: Mat, f: Mat, g: Mat, h: Mat, p: nat, q: nat)
    requires |u| == p && |v| == q
    requires IsMat(e, p, p) && IsMat(f, p, q) && IsMat(g, q, p) && IsMat(h, q, q)
    ensures IsMat(Blocks(e, f, g, h), p + q, p + q)
    ensures Combine(u + v, Blocks(e, f, g, h), p + q)
         == VAdd(Combine(u, e, p), Combine(v, g, p)) + VAdd(Combine(u, f, q), Combine(v, h, q))
  {
    hide Combine;
    BlocksShape(e, f, g, h, p, q);
    CombineBeside(u, e, f, p, q);
    CombineBeside(v, g, h, p, q);
    CombineAbove(u, v, Beside(e, f), Beside(g, h), p + q);
    var x, y, z, w := Combine(u, e, p), Combine(u, f, q), Combine(v, g, p), Combine(v, h, q);
    assert VAdd(x + y, z + w) == VAdd(x, z) + VAdd(y, w);
  }

  lemma IdentityBlocks(p: nat, q: nat)
    ensures Blocks(Identity(p), ZeroMat(p, q), ZeroMat(q, p), Identity(q)) == Identity(p + q)
  {
    var m := Blocks(Identity(p), ZeroMat(p, q), ZeroMat(q, p), Identity(q));
    forall i | 0 <= i < p + q
      ensures m[i] == Unit(p + q, i)
    {
      if i < p {
        assert m[i] == Unit(p, i) + Zeros(q);
      } else {
        assert m[i] == Zeros(p) + Unit(q, i - p);
      }
    }
  }

  /** Everything the assembly needs to know, with the names of the code. */
  ghost predicate Pieces(a: Mat, b: Mat, c: Mat, d: Mat, ai: Mat, si: Mat, p: nat, q: nat) {
    && IsMat(a, p, p) && IsMat(b, p, q) && IsMat(c, q, p) && IsMat(d, q, q)
    && IsMat(ai, p, p) && IsMat(si, q, q)
    && TwoSided(a, ai, p)
    && TwoSided(Schur(ai, b, c, d, p, q), si, q)
  }

  /** v * a = c and a * u = b, for v = c * a^-1 and u = a^-1 * b. */
  lemma Quotients(a: Mat, b: Mat, c: Mat, ai: Mat, p: nat, q: nat)
    requires IsMat(a, p, p) && IsMat(b, p, q) && IsMat(c, q, p) && IsMat(ai, p, p) && TwoSided(a, ai, p)
    ensures Product(Product(c, ai, p), a, p) == c
    ensures Product(a, Product(ai, b, q), q) == b
  {
    hide Product;
    ProductAssoc(c, ai, a, p);
    ProductIdentityRight(c, p);
    ProductAssoc(a, ai, b, q);
    ProductIdentityLeft(b, q);
  }

  lemma RightTop(a: Mat, b: Mat, c: Mat, d: Mat, ai: Mat, si: Mat, p: nat, q: nat)
    requires Pieces(a, b, c, d, ai, si, p, q)
    ensures
      var cai := Product(c, ai, p);
      var ur := Product(Product(ai, b, q), si, q);
      var ll := Product(si, cai, p);
      var ul := Sum(ai, Product(ur, cai, p), p);
      && Sum(Product(a, ul, p), Product(b, ll, p), p) == Identity(p)
      && Sum(Product(a, ur, q), Product(b, si, q), q) == ZeroMat(p, q)
  {
    hide Product;
    hide Sum;
    hide Identity;
    var u, cai := Product(ai, b, q), Product(c, ai, p);
    var ur, ll := Product(u, si, q), Product(si, cai, p);
    Quotients(a, b, c, ai, p, q);
    ProductAssoc(a, u, si, q);
    assert Product(a, ur, q) == Product(b, si, q);
    SumSelf(Product(b, si, q), q);
    var w := Product(ur, cai, p);
    ProductSumRight(a, ai, w, p);
    ProductAssoc(a, ur, cai, p);
    ProductAssoc(b, si, cai, p);
    assert Product(a, w, p) == Product(b, ll, p);
    SumCancel(Product(a, ai, p), Product(b, ll, p), p);
  }

  lemma RightBottom(a: Mat, b: Mat, c: Mat, d: Mat, ai: Mat, si: Mat, p: nat, q: nat)
    requires Pieces(a, b, c, d, ai, si, p, q)
    ensures
      var cai := Product(c, ai, p);
      var ur := Product(Product(ai, b, q), si, q);
      var ll := Product(si, cai, p);
      var ul := Sum(ai, Product(ur, cai, p), p);
      && Sum(Product(c, ul, p), Product(d, ll, p), p) == ZeroMat(q, p)
      && Sum(Product(c, ur, q), Product(d, si, q), q) == Identity(q)
  {
    hide Product;
    hide Sum;
    hide Identity;
    var u, cai := Product(ai, b, q), Product(c, ai, p);
    var ur, ll := Product(u, si, q), Product(si, cai, p);
    var cb := Product(cai, b, q);
    // c * ur + d * si = (cb + d) * si = identity
    ProductAssoc(c, u, si, q);
    ProductAssoc(c, ai, b, q);
    assert Product(c, ur, q) == Product(cb, si, q);
    ProductSumLeft(d, cb, si, q);
    SumComm(Product(d, si, q), Product(cb, si, q), q);
    // c * ul + d * ll = cai + (c * ur + d * si) * cai = 0
    var w := Product(ur, cai, p);
    ProductSumRight(c, ai, w, p);
    ProductAssoc(c, ur, cai, p);
    ProductAssoc(d, si, cai, p);
    var x, y := Product(c, w, p), Product(d, ll, p);
    ProductSumLeft(Product(c, ur, q), Product(d, si, q), cai, p);
    ProductIdentityLeft(cai, p);
    assert Sum(x, y, p) == cai;
    SumThree(x, y, p);
  }

  /** If x + y = s then (s + x) + y = 0. */
  lemma SumThree(x: Mat, y: Mat, cols: nat)
    requires IsMat(x, |x|, cols) && IsMat(y, |x|, cols)
    ensures Sum(Sum(Sum(x, y, cols), x, cols), y, cols) == ZeroMat(|x|, cols)
  {
    hide Sum;
    SumComm(x, y, cols);
    SumCancel(y, x, cols);
    SumSelf(y, cols);
  }

  lemma LeftColumns(a: Mat, b: Mat, c: Mat, d: Mat, ai: Mat, si: Mat, p: nat, q: nat)
    requires Pieces(a, b, c, d, ai, si, p, q)
    ensures
      var cai := Product(c, ai, p);
      var ur := Product(Product(ai, b, q), si, q);
      var ll := Product(si, cai, p);
      var ul := Sum(ai, Product(ur, cai, p), p);
      && Sum(Product(ul, a, p), Product(ur, c, p), p) == Identity(p)
      && Sum(Product(ll, a, p), Product(si, c, p), p) == ZeroMat(q, p)
  {
    hide Product;
    hide Sum;
    hide Identity;
    var u, cai := Product(ai, b, q), Product(c, ai, p);
    var ur, ll := Product(u, si, q), Product(si, cai, p);
    Quotients(a, b, c, ai, p, q);
    var w := Product(ur, cai, p);
    ProductSumLeft(ai, w, a, p);
    ProductAssoc(ur, cai, a, p);
    SumCancel(Product(ai, a, p), Product(ur, c, p), p);
    ProductAssoc(si, cai, a, p);
    SumSelf(Product(si, c, p), p);
  }

  lemma RightColumns(a: Mat, b: Mat, c: Mat, d: Mat, ai: Mat, si: Mat, p: nat, q: nat)
    requires Pieces(a, b, c, d, ai, si, p, q)
    ensures
      var cai := Product(c, ai, p);
      var ur := Product(Product(ai, b, q), si, q);
      var ll := Product(si, cai, p);
      var ul := Sum(ai, Product(ur, cai, p), p);
      && Sum(Product(ul, b, q), Product(ur, d, q), q) == ZeroMat(p, q)
      && Sum(Product(ll, b, q), Product(si, d, q), q) == Identity(q)
  {
    hide Product;
    hide Sum;
    hide Identity;
    var u, cai := Product(ai, b, q), Product(c, ai, p);
    var ur, ll := Product(u, si, q), Product(si, cai, p);
    var cb := Product(cai, b, q);
    var s := Schur(ai, b, c, d, p, q);
    // ll * b + si * d = si * (cb + d) = identity
    ProductAssoc(si, cai, b, q);
    ProductSumRight(si, d, cb, q);
    SumComm(Product(si, d, q), Product(si, cb, q), q);
    // ul * b + ur * d = u + ur * s = u + u = 0
    var w := Product(ur, cai, p);
    ProductSumLeft(ai, w, b, q);
    ProductAssoc(ur, cai, b, q);
    ProductSumRight(ur, d, cb, q);
    ProductAssoc(u, si, s, q);
    ProductIdentityRight(u, q);
    var x, y := Product(ur, cb, q), Product(ur, d, q);
    SumComm(y, x, q);
    assert Sum(x, y, q) == u;
    SumThree(x, y, q);
  }

  lemma AssembledInverse(a: Mat, b: Mat, c: Mat, d: Mat, ai: Mat, si: Mat, p: nat, q: nat)
    requires Pieces(a, b, c, d, ai, si, p, q)
    ensures IsMat(Blocks(a, b, c, d), p + q, p + q)
    ensures TwoSided(Blocks(a, b, c, d), Assembled(ai, b, c, si, p, q), p + q)
  {
    hide Product;
    hide Sum;
    hide Identity;
    hide Blocks;
    var cai := Product(c, ai, p);
    var ur := Product(Product(ai, b, q), si, q);
    var ll := Product(si, cai, p);
    var ul := Sum(ai, Product(ur, cai, p), p);
    RightTop(a, b, c, d, ai, si, p, q);
    RightBottom(a, b, c, d, ai, si, p, q);
    LeftColumns(a, b, c, d, ai, si, p, q);
    RightColumns(a, b, c, d, ai, si, p, q);
    BlockProduct(a, b, c, d, ul, ur, ll, si, p, q);
    BlockProduct(ul, ur, ll, si, a, b, c, d, p, q);
    IdentityBlocks(p, q);
  }

  lemma SingleInverse(a: Byte)
    requires a != 0
    ensures TwoSided([[a]], [[Inv(a)]], 1)
  {
    hide Add;
    hide Mul;
    hide Inv;
    MulInv(a);
    SingleProduct(a, Inv(a));
    SingleProduct(Inv(a), a);
    assert Unit(1, 0) == [1];
    assert Identity(1) == [[1]];
  }

  lemma SingleProduct(a: Byte, b: Byte)
    ensures Product([[a]], [[b]], 1) == [[Mul(a, b)]]
  {
    hide Add;
    hide Mul;
    assert Col([[b]], 0) == [b];
    assert Dot([a][..0], [b][..0]) == 0;
    AddZero(Mul(a, b));
    assert Combine([a], [[b]], 1) == [Mul(a, b)];
  }

  /** Whatever the recursion returns is a left and a right inverse. */
  lemma {:induction false} InvertedIsInverse(m: Mat, n: nat)
    requires IsMat(m, n, n) && Inverted(m, n).Inverse?
    ensures TwoSided(m, Inverted(m, n).matrix, n)
    decreases n
  {
    hide Schur;
    hide Assembled;
    hide TwoSided;
    hide Cut;
    if n == 1 {
      SingleInverse(m[0][0]);
      assert m[0] == [m[0][0]];
      assert m == [m[0]];
    } else {
      var mid := n / 2;
      var a, b := Cut(m, 0, mid, 0, mid), Cut(m, 0, mid, mid, n);
      var c, d := Cut(m, mid, n, 0, mid), Cut(m, mid, n, mid, n);
      var left := Inverted(a, mid);
      InvertedIsInverse(a, mid);
      var s := Schur(left.matrix, b, c, d, mid, n - mid);
      InvertedIsInverse(s, n - mid);
      AssembledInverse(a, b, c, d, left.matrix, Inverted(s, n - mid).matrix, mid, n - mid);
      CutJoin(m, n, mid);
    }
  }

  // ----- When the recursion succeeds -----

  /** The leading j by j block. */
  function Leading(m: Mat, j: nat): (b: Mat)
    requires j <= |m| && forall i :: 0 <= i < |m| ==> j <= |m[i]|
    ensures IsMat(b, j, j)
  {
    Cut(m, 0, j, 0, j)
  }

  ghost predicate LeadingNonsingular(m: Mat, n: nat)
    requires IsMat(m, n, n)
  {
    forall j :: 1 <= j <= n ==> TrivialKernel(Leading(m, j), j)
  }

  lemma BlocksKernel(a: Mat, b: Mat, c: Mat, d: Mat, p: nat, q: nat, v: Vec, w: Vec)
    requires IsMat(a, p, p) && IsMat(b, p, q) && IsMat(c, q, p) && IsMat(d, q, q) && |v| == p && |w| == q
    ensures IsMat(Blocks(a, b, c, d), p + q, p + q)
    ensures InKernel(Blocks(a, b, c, d), v + w) <==> Image(a, v) == Image(b, w) && Image(c, v) == Image(d, w)
  {
    hide Dot;
    hide Add;
    BlocksShape(a, b, c, d, p, q);
    var m := Blocks(a, b, c, d);
    forall r | 0 <= r < p
      ensures Dot(m[r], v + w) == 0 <==> Image(a, v)[r] == Image(b, w)[r]
    {
      DotConcat(a[r], b[r], v, w);
      AddCancel(Dot(a[r], v), Dot(b[r], w));
    }
    forall r | 0 <= r < q
      ensures Dot(m[p + r], v + w) == 0 <==> Image(c, v)[r] == Image(d, w)[r]
    {
      DotConcat(c[r], d[r], v, w);
      AddCancel(Dot(c[r], v), Dot(d[r], w));
    }
    if InKernel(m, v + w) {
      assert forall r :: 0 <= r < p ==> Image(a, v)[r] == Image(b, w)[r];
      forall r | 0 <= r < q
        ensures Image(c, v)[r] == Image(d, w)[r]
      {
        assert Dot(m[p + r], v + w) == 0;
      }
    }
    if Image(a, v) == Image(b, w) && Image(c, v) == Image(d, w) {
      forall r | 0 <= r < p + q
        ensures Dot(m[r], v + w) == 0
      {
        if r >= p {
          assert m[p + (r - p)] == m[r];
          assert Image(c, v)[r - p] == Image(d, w)[r - p];
        }
      }
    }
  }

  lemma SchurImage(ai: Mat, b: Mat, c: Mat, d: Mat, p: nat, q: nat, w: Vec)
    requires IsMat(ai, p, p) && IsMat(b, p, q) && IsMat(c, q, p) && IsMat(d, q, q) && |w| == q
    ensures InKernel(Schur(ai, b, c, d, p, q), w) <==> Image(d, w) == Image(c, Image(ai, Image(b, w)))
  {
    hide Dot;
    hide Add;
    hide Product;
    var cb := Product(Product(c, ai, p), b, q);
    ImageProduct(Product(c, ai, p), b, w);
    ImageProduct(c, ai, Image(b, w));
    var s := Sum(d, cb, q);
    forall r | 0 <= r < q
      ensures Dot(s[r], w) == 0 <==> Image(d, w)[r] == Image(cb, w)[r]
    {
      DotAddLeft(d[r], cb[r], w);
      AddCancel(Dot(d[r], w), Dot(cb[r], w));
    }
    if InKernel(s, w) {
      assert forall r :: 0 <= r < q ==> Image(d, w)[r] == Image(cb, w)[r];
    }
  }

  lemma ImageInverse(a: Mat, ai: Mat, p: nat, v: Vec)
    requires IsMat(a, p, p) && IsMat(ai, p, p) && TwoSided(a, ai, p) && |v| == p
    ensures Image(a, Image(ai, v)) == v && Image(ai, Image(a, v)) == v
  {
    hide Product;
    hide Dot;
    ImageProduct(a, ai, v);
    ImageProduct(ai, a, v);
    forall i | 0 <= i < p
      ensures Image(Identity(p), v)[i] == v[i]
    {
      DotUnit(p, i, v);
    }
    assert Image(Identity(p), v) == v;
  }

  lemma ImageZero(m: Mat, cols: nat)
    requires IsMat(m, |m|, cols)
    ensures Image(m, Zeros(cols)) == Zeros(|m|)
  {
    hide Dot;
    forall r | 0 <= r < |m|
      ensures Dot(m[r], Zeros(cols)) == 0
    {
      DotComm(m[r], Zeros(cols));
      DotZeroLeft(m[r]);
    }
  }

  /** A block matrix with an invertible leading block is nonsingular exactly when its Schur complement is. */
  lemma SchurKernel(a: Mat, b: Mat, c: Mat, d: Mat, ai: Mat, p: nat, q: nat)
    requires IsMat(a, p, p) && IsMat(b, p, q) && IsMat(c, q, p) && IsMat(d, q, q) && IsMat(ai, p, p)
    requires TwoSided(a, ai, p)
    ensures IsMat(Blocks(a, b, c, d), p + q, p + q)
    ensures TrivialKernel(Blocks(a, b, c, d), p + q) <==> TrivialKernel(Schur(ai, b, c, d, p, q), q)
  {
    hide Dot;
    hide Image;
    hide InKernel;
    hide TwoSided;
    hide Schur;
    hide Blocks;
    BlocksShape(a, b, c, d, p, q);
    var m, s := Blocks(a, b, c, d), Schur(ai, b, c, d, p, q);
    if TrivialKernel(m, p + q) {
      forall w: Vec | |w| == q && InKernel(s, w)
        ensures w == Zeros(q)
      {
        var v := Image(ai, Image(b, w));
        ImageInverse(a, ai, p, Image(b, w));
        SchurImage(ai, b, c, d, p, q, w);
        BlocksKernel(a, b, c, d, p, q, v, w);
        assert (v + w)[p..] == w;
      }
    }
    if TrivialKernel(s, q) {
      forall x: Vec | |x| == p + q && InKernel(m, x)
        ensures x == Zeros(p + q)
      {
        var v, w := x[..p], x[p..];
        assert x == v + w;
        BlocksKernel(a, b, c, d, p, q, v, w);
        ImageInverse(a, ai, p, v);
        SchurImage(ai, b, c, d, p, q, w);
        assert w == Zeros(q);
        ImageZero(b, q);
        ImageZero(ai, p);
      }
    }
  }

  /** Leading blocks of the Schur complement are Schur complements of leading blocks. */
  lemma SchurLeading(ai: Mat, b: Mat, c: Mat, d: Mat, p: nat, q: nat, j: nat)
    requires IsMat(ai, p, p) && IsMat(b, p, q) && IsMat(c, q, p) && IsMat(d, q, q) && j <= q
    ensures Leading(Schur(ai, b, c, d, p, q), j)
         == Schur(ai, Cut(b, 0, p, 0, j), Cut(c, 0, j, 0, p), Leading(d, j), p, j)
  {
    hide Dot;
    hide Add;
    var bj, cj, dj := Cut(b, 0, p, 0, j), Cut(c, 0, j, 0, p), Leading(d, j);
    var left, right := Leading(Schur(ai, b, c, d, p, q), j), Schur(ai, bj, cj, dj, p, j);
    forall r, e | 0 <= r < j && 0 <= e < j
      ensures left[r][e] == right[r][e]
    {
      assert cj[r] == c[r];
      assert Col(bj, e) == Col(b, e);
    }
    forall r | 0 <= r < j
      ensures left[r] == right[r]
    {
    }
  }

  lemma LeadingBlocks(m: Mat, n: nat, mid: nat, j: nat)
    requires IsMat(m, n, n) && mid <= n && j <= n - mid
    ensures Leading(m, mid + j)
         == Blocks(Cut(m, 0, mid, 0, mid), Cut(Cut(m, 0, mid, mid, n), 0, mid, 0, j),
                   Cut(Cut(m, mid, n, 0, mid), 0, j, 0, mid), Leading(Cut(m, mid, n, mid, n), j))
  {
    var a, b := Cut(m, 0, mid, 0, mid), Cut(Cut(m, 0, mid, mid, n), 0, mid, 0, j);
    var c, d := Cut(Cut(m, mid, n, 0, mid), 0, j, 0, mid), Leading(Cut(m, mid, n, mid, n), j);
    forall i | 0 <= i < mid + j
      ensures Leading(m, mid + j)[i] == Blocks(a, b, c, d)[i]
    {
      assert m[i][0..mid + j] == m[i][0..mid] + m[i][mid..n][0..j];
    }
  }

  lemma LeadingOfLeading(m: Mat, n: nat, mid: nat, j: nat)
    requires IsMat(m, n, n) && j <= mid <= n
    ensures Leading(Cut(m, 0, mid, 0, mid), j) == Leading(m, j)
  {
    forall i | 0 <= i < j
      ensures Leading(Cut(m, 0, mid, 0, mid), j)[i] == Leading(m, j)[i]
    {
      assert m[i][0..mid][0..j] == m[i][0..j];
    }
  }

  lemma LeadingShift(m: Mat, n: nat, mid: nat, ai: Mat, j: nat)
    requires IsMat(m, n, n) && mid <= n && j <= n - mid && IsMat(ai, mid, mid)
    requires TwoSided(Cut(m, 0, mid, 0, mid), ai, mid)
    ensures
      var s := Schur(ai, Cut(m, 0, mid, mid, n), Cut(m, mid, n, 0, mid), Cut(m, mid, n, mid, n), mid, n - mid);
      TrivialKernel(Leading(m, mid + j), mid + j) <==> TrivialKernel(Leading(s, j), j)
  {
    hide TwoSided;
    hide TrivialKernel;
    hide Schur;
    hide Blocks;
    var a, b := Cut(m, 0, mid, 0, mid), Cut(m, 0, mid, mid, n);
    var c, d := Cut(m, mid, n, 0, mid), Cut(m, mid, n, mid, n);
    LeadingBlocks(m, n, mid, j);
    SchurLeading(ai, b, c, d, mid, n - mid, j);
    SchurKernel(a, Cut(b, 0, mid, 0, j), Cut(c, 0, j, 0, mid), Leading(d, j), ai, mid, j);
  }

  lemma SingleKernel(m: Mat)
    requires IsMat(m, 1, 1)
    ensures TrivialKernel(m, 1) <==> m[0][0] != 0
  {
    hide Add;
    hide Mul;
    forall v: Vec | |v| == 1
      ensures Dot(m[0], v) == Mul(m[0][0], v[0])
    {
      assert Dot(m[0][..0], v[..0]) == 0;
      AddZero(Mul(m[0][0], v[0]));
    }
    if m[0][0] == 0 {
      MulZero(1);
      assert InKernel(m, [1]);
    } else {
      forall v: Vec | |v| == 1 && InKernel(m, v)
        ensures v == Zeros(1)
      {
        assert Dot(m[0], v) == 0;
        NoZeroDivisors(m[0][0], v[0]);
      }
    }
  }

  /**
  The recursion inverts exactly the matrices all of whose leading blocks, the
  matrix itself among them, have only the trivial kernel.
   */
  lemma {:induction false} InvertsExactly(m: Mat, n: nat)
    requires IsMat(m, n, n) && n > 0
    ensures Inverted(m, n).Inverse? <==> LeadingNonsingular(m, n)
    decreases n
  {
    hide TwoSided;
    hide TrivialKernel;
    hide Schur;
    hide Assembled;
    hide Cut;
    if n == 1 {
      WholeLeading(m, 1);
      SingleKernel(m);
    } else {
      var mid := n / 2;
      var a, b := Cut(m, 0, mid, 0, mid), Cut(m, 0, mid, mid, n);
      var c, d := Cut(m, mid, n, 0, mid), Cut(m, mid, n, mid, n);
      InvertsExactly(a, mid);
      forall j | 1 <= j <= mid
        ensures Leading(a, j) == Leading(m, j)
      {
        LeadingOfLeading(m, n, mid, j);
      }
      var left := Inverted(a, mid);
      if left.Inverse? {
        InvertedIsInverse(a, mid);
        var s := Schur(left.matrix, b, c, d, mid, n - mid);
        InvertsExactly(s, n - mid);
        forall j | 1 <= j <= n - mid
          ensures TrivialKernel(Leading(m, mid + j), mid + j) <==> TrivialKernel(Leading(s, j), j)
        {
          LeadingShift(m, n, mid, left.matrix, j);
        }
        JoinRanges(m, n, mid, s);
      }
    }
  }

  lemma WholeLeading(m: Mat, n: nat)
    requires IsMat(m, n, n)
    ensures Leading(m, n) == m
  {
    forall i | 0 <= i < n
      ensures m[i][0..n] == m[i]
    {
    }
  }

  lemma JoinRanges(m: Mat, n: nat, mid: nat, s: Mat)
    requires IsMat(m, n, n) && mid <= n && IsMat(s, n - mid, n - mid)
    requires forall j :: 1 <= j <= mid ==> TrivialKernel(Leading(m, j), j)
    requires forall j :: 1 <= j <= n - mid ==>
      (TrivialKernel(Leading(m, mid + j), mid + j) <==> TrivialKernel(Leading(s, j), j))
    ensures LeadingNonsingular(m, n) <==> LeadingNonsingular(s, n - mid)
  {
    hide TrivialKernel;
    hide Leading;
    if LeadingNonsingular(s, n - mid) {
      forall j | 1 <= j <= n
        ensures TrivialKernel(Leading(m, j), j)
      {
        if j > mid {
          assert TrivialKernel(Leading(s, j - mid), j - mid);
          assert mid + (j - mid) == j;
        }
      }
    }
  }

  /** Without pivoting an invertible matrix may be refused. */
  lemma SwapMatrixRefused()
    ensures Inverted([[0, 1], [1, 0]], 2) == ZeroPivot
    ensures TwoSided([[0, 1], [1, 0]], [[0, 1], [1, 0]], 2)
  {
    hide Add;
    hide Mul;
    hide Dot;
    var m: Mat := [[0, 1], [1, 0]];
    assert Cut(m, 0, 1, 0, 1)[0][0] == m[0][0];
    assert [0, 1] == Unit(2, 1) && [1, 0] == Unit(2, 0);
    CombineUnit(0, m, 2);
    CombineUnit(1, m, 2);
    assert Product(m, m, 2) == Identity(2) by {
      assert Identity(2)[0] == [1, 0] && Identity(2)[1] == [0, 1];
      assert Product(m, m, 2)[0] == m[1] && Product(m, m, 2)[1] == m[0];
    }
  }

  // ----- The computation in place -----

  /** Copies a block of a matrix, entry by entry. */
  method CopyBlock(m: Mat, fromRow: nat, toRow: nat, fromCol: nat, toCol: nat) returns (b: Mat)
    requires fromRow <= toRow <= |m| && fromCol <= toCol
    requires forall i :: 0 <= i < |m| ==> toCol <= |m[i]|
    ensures b == Cut(m, fromRow, toRow, fromCol, toCol)
  {
    b := ZeroMat(toRow - fromRow, toCol - fromCol);
    for i := fromRow to toRow
      invariant IsMat(b, toRow - fromRow, toCol - fromCol)
      invariant forall r :: 0 <= r < i - fromRow ==> b[r] == m[fromRow + r][fromCol..toCol]
    {
      var row := b[i - fromRow];
      for j := fromCol to toCol
        invariant |row| == toCol - fromCol
        invariant forall e :: 0 <= e < j - fromCol ==> row[e] == m[i][fromCol + e]
      {
        row := row[j - fromCol := m[i][j]];
      }
      assert row == m[i][fromCol..toCol];
      b := b[i - fromRow := row];
    }
  }

  /** One row of a product: accumulate the rows of `b`, skipping zero coefficients. */
  method ProductRow(u: Vec, b: Mat, cols: nat) returns (out: Vec)
    requires IsMat(b, |u|, cols)
    ensures out == Combine(u, b, cols)
  {
    hide Combine;
    hide Add;
    hide Mul;
    out := Zeros(cols);
    assert u[..0] == Zeros(0) && b[..0] == [];
    CombineZero([], cols);
    for k := 0 to |b|
      invariant |out| == cols && out == Combine(u[..k], b[..k], cols)
    {
      CombineStep(u, b, cols, k);
      if u[k] == 0 {
        AddZeroRow(out, b[k]);
        continue;
      }
      ghost var before := out;
      for j := 0 to cols
        invariant |out| == cols
        invariant forall e :: 0 <= e < cols ==>
          out[e] == if e < j then Add(before[e], Mul(u[k], b[k][e])) else before[e]
      {
        out := out[j := Add(out[j], Mul(u[k], b[k][j]))];
      }
      assert out == VAdd(before, VScale(u[k], b[k]));
    }
    assert u[..|b|] == u && b[..|b|] == b;
  }

  method MatMul(a: Mat, b: Mat) returns (out: Mat)
    requires |b| > 0 && IsMat(b, |b|, |b[0]|) && IsMat(a, |a|, |b|)
    ensures out == Product(a, b, |b[0]|)
  {
    hide Combine;
    var cols := |b[0]|;
    out := ZeroMat(|a|, cols);
    for i := 0 to |a|
      invariant IsMat(out, |a|, cols)
      invariant forall r :: 0 <= r < i ==> out[r] == Combine(a[r], b, cols)
    {
      var row := ProductRow(a[i], b, cols);
      out := out[i := row];
    }
  }

  /** Entrywise exclusive-or. */
  method MatAdd(a: Mat, b: Mat, cols: nat) returns (out: Mat)
    requires IsMat(a, |a|, cols) && IsMat(b, |a|, cols)
    ensures out == Sum(a, b, cols)
  {
    hide Add;
    out := ZeroMat(|a|, cols);
    for i := 0 to |a|
      invariant IsMat(out, |a|, cols)
      invariant forall r :: 0 <= r < i ==> out[r] == VAdd(a[r], b[r])
    {
      var row := out[i];
      for j := 0 to cols
        invariant |row| == cols
        invariant forall e :: 0 <= e < j ==> row[e] == Add(a[i][e], b[i][e])
      {
        row := row[j := Add(a[i][j], b[i][j])];
      }
      assert row == VAdd(a[i], b[i]);
      out := out[i := row];
    }
  }

  /** Writes four blocks into one matrix. */
  method Join(a: Mat, b: Mat, c: Mat, d: Mat, p: nat, q: nat) returns (out: Mat)
    requires IsMat(a, p, p) && IsMat(b, p, q) && IsMat(c, q, p) && IsMat(d, q, q)
    ensures out == Blocks(a, b, c, d)
  {
    var n := p + q;
    out := ZeroMat(n, n);
    for i := 0 to n
      invariant IsMat(out, n, n)
      invariant forall r :: 0 <= r < i ==> out[r] == if r < p then a[r] + b[r] else c[r - p] + d[r - p]
    {
      var row := out[i];
      for j := 0 to n
        invariant |row| == n
        invariant forall e :: 0 <= e < j ==>
          row[e] == if i < p then (a[i] + b[i])[e] else (c[i - p] + d[i - p])[e]
      {
        if i < p {
          row := row[j := if j < p then a[i][j] else b[i][j - p]];
        } else {
          row := row[j := if j < p then c[i - p][j] else d[i - p][j - p]];
        }
      }
      assert row == if i < p then a[i] + b[i] else c[i - p] + d[i - p];
      out := out[i := row];
    }
  }

  method SchurComplement(aInv: Mat, b: Mat, c: Mat, d: Mat, p: nat, q: nat) returns (schur: Mat)
    requires p > 0 && q > 0
    requires IsMat(aInv, p, p) && IsMat(b, p, q) && IsMat(c, q, p) && IsMat(d, q, q)
    ensures schur == Schur(aInv, b, c, d, p, q)
  {
    hide Product;
    hide Sum;
    var caInv := MatMul(c, aInv);
    var temp := MatMul(caInv, b);
    schur := MatAdd(d, temp, q);
  }

  method AssembleInverse(aInv: Mat, b: Mat, c: Mat, schurInv: Mat, p: nat, q: nat) returns (out: Mat)
    requires p > 0 && q > 0
    requires IsMat(aInv, p, p) && IsMat(b, p, q) && IsMat(c, q, p) && IsMat(schurInv, q, q)
    ensures out == Assembled(aInv, b, c, schurInv, p, q)
  {
    hide Product;
    hide Sum;
    hide Blocks;
    var caInv := MatMul(c, aInv);
    var upperRight := MatMul(aInv, b);
    upperRight := MatMul(upperRight, schurInv);
    var lowerLeft := MatMul(schurInv, caInv);
    var upperLeft := MatMul(aInv, b);
    upperLeft := MatMul(upperLeft, schurInv);
    upperLeft := MatMul(upperLeft, caInv);
    var resA := MatAdd(aInv, upperLeft, p);
    out := Join(resA, upperRight, lowerLeft, schurInv, p, q);
  }

  method RecursiveInverse(m: Mat) returns (r: Outcome)
    requires IsMat(m, |m|, |m|)
    ensures r == Inverted(m, |m|)
    decreases |m|
  {
    hide Cut;
    hide Schur;
    hide Assembled;
    var n := |m|;
    if n == 0 {
      return Empty;
    }
    if n == 1 {
      if m[0][0] == 0 {
        return ZeroPivot;
      }
      return Inverse([[Inv(m[0][0])]]);
    }
    var mid := n / 2;
    var a := CopyBlock(m, 0, mid, 0, mid);
    var b := CopyBlock(m, 0, mid, mid, n);
    var c := CopyBlock(m, mid, n, 0, mid);
    var d := CopyBlock(m, mid, n, mid, n);
    var left := RecursiveInverse(a);
    if !left.Inverse? {
      return left;
    }
    var schur := SchurComplement(left.matrix, b, c, d, mid, n - mid);
    var right := RecursiveInverse(schur);
    if !right.Inverse? {
      return right;
    }
    var out := AssembleInverse(left.matrix, b, c, right.matrix, mid, n - mid);
    r := Inverse(out);
  }
}
