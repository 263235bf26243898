/**
The Cauchy code. A repair row has the coefficients 1 / (i + y) for the source
indices i below k, where y = k + j for the j-th repair packet. The theorem of
this module is the one the code relies on: any k rows, systematic or repair,
with distinct slots and distinct repair indices, are linearly independent.
 */
module Cauchy {
  import opened Field
  import opened LinearAlgebra

  /** The row of a Cauchy matrix for the column parameters `xs` and the row parameter `y`. */
  function CauchyRow(xs: seq<Byte>, y: Byte): (row: Vec) {
    seq(|xs|, i requires 0 <= i < |xs| => Inv(Add(xs[i], y)))
  }

  ghost predicate Distinct(s: seq<Byte>) {
    forall i, j :: 0 <= i < j < |s| ==> s[i] != s[j]
  }

  // ----- Scalar identities -----

  /** With a = z + y and p = x + y: a * (v / p) = v + (v * (z + x)) / p. */
  lemma ScaleTerm(v: Byte, x: Byte, y: Byte, z: Byte)
    requires x != y
    ensures Mul(Add(z, y), Mul(v, Inv(Add(x, y)))) == Add(v, Mul(Mul(v, Add(z, x)), Inv(Add(x, y))))
  {
    hide *;
    var p := Add(x, y);
    var t := Mul(v, Inv(p));
    AddCancel(x, y);
    MulInv(p);
    assert Add(z, y) == Add(p, Add(z, x)) by {
      AddComm(x, y);
      AddComm(z, x);
      AddAssoc(y, x, Add(x, z));
      AddCancel(x, z);
      AddComm(y, z);
    }
    MulAddLeft(p, Add(z, x), t);
    assert Mul(p, t) == v by {
      MulComm(p, t);
      MulAssoc(v, Inv(p), p);
      MulOne(v);
    }
    assert Mul(Add(z, x), t) == Mul(Mul(v, Add(z, x)), Inv(p)) by {
      MulAssoc(Add(z, x), v, Inv(p));
      MulComm(Add(z, x), v);
    }
  }

  /** 1/p + 1/q = (p + q) / (p * q). */
  lemma InverseSum(p: Byte, q: Byte)
    requires p != 0 && q != 0
    ensures Add(Inv(p), Inv(q)) == Mul(Add(p, q), Mul(Inv(q), Inv(p)))
  {
    hide *;
    var t := Mul(Inv(q), Inv(p));
    MulAddLeft(p, q, t);
    MulInv(p);
    MulInv(q);
    assert Mul(p, t) == Inv(q) by {
      MulComm(p, t);
      MulAssoc(Inv(q), Inv(p), p);
      MulOne(Inv(q));
    }
    assert Mul(q, t) == Inv(p) by {
      MulAssoc(q, Inv(q), Inv(p));
      MulOne(Inv(p));
    }
    AddComm(Inv(q), Inv(p));
  }

  // ----- Sums whose terms are related one by one -----

  function Ones(n: nat): (w: Vec)
    ensures |w| == n
  {
    seq(n, _ => 1)
  }

  lemma {:induction false} DotShifted(a: Byte, v: Vec, u: Vec, c: Vec)
    requires |v| == |u| == |c|
    requires forall i :: 0 <= i < |v| ==> Mul(a, Mul(v[i], c[i])) == Add(v[i], Mul(u[i], c[i]))
    ensures Mul(a, Dot(v, c)) == Add(Dot(v, Ones(|v|)), Dot(u, c))
  {
    hide Add;
    hide Mul;
    if |v| == 0 {
      MulZero(a);
      AddZero(0);
    } else {
      var n := |v| - 1;
      DotShifted(a, v[..n], u[..n], c[..n]);
      assert Ones(|v|)[..n] == Ones(n);
      MulAddRight(a, Dot(v[..n], c[..n]), Mul(v[n], c[n]));
      MulOne(v[n]);
      AddSwap(Dot(v[..n], Ones(n)), Dot(u[..n], c[..n]), v[n], Mul(u[n], c[n]));
    }
  }

  lemma {:induction false} DotFactored(s: Byte, u: Vec, d: Vec, w: Vec, c: Vec)
    requires |u| == |d| == |w| == |c|
    requires forall i :: 0 <= i < |u| ==> Mul(u[i], d[i]) == Mul(s, Mul(w[i], c[i]))
    ensures Dot(u, d) == Mul(s, Dot(w, c))
  {
    hide Add;
    hide Mul;
    if |u| == 0 {
      MulZero(s);
    } else {
      var n := |u| - 1;
      DotFactored(s, u[..n], d[..n], w[..n], c[..n]);
      MulAddRight(s, Dot(w[..n], c[..n]), Mul(w[n], c[n]));
    }
  }

  // ----- One elimination step on a Cauchy system -----

  /** v_i * (z + x_i), the numerators after multiplying by (z + y). */
  function Numerators(v: Vec, xs: seq<Byte>, z: Byte): (u: Vec)
    requires |v| == |xs|
  {
    seq(|v|, i requires 0 <= i < |v| => Mul(v[i], Add(z, xs[i])))
  }

  function Reduced(u: Vec, xs: seq<Byte>, y: Byte): (w: Vec)
    requires |u| == |xs|
  {
    seq(|u|, i requires 0 <= i < |u| => Mul(u[i], Inv(Add(xs[i], y))))
  }

  /** If the equation for `y` holds, the numerators sum to the same value whatever `y` is. */
  lemma NumeratorEquation(v: Vec, xs: seq<Byte>, y: Byte)
    requires |v| == |xs| > 0 && y !in xs
    requires Dot(v, CauchyRow(xs, y)) == 0
    ensures
      var m := |v| - 1;
      Dot(Numerators(v[..m], xs[..m], xs[m]), CauchyRow(xs[..m], y)) == Dot(v, Ones(|v|))
  {
    hide Add;
    hide Mul;
    hide Inv;
    hide Dot;
    var m := |v| - 1;
    var z := xs[m];
    var a := Add(z, y);
    var c := CauchyRow(xs, y);
    var u := Numerators(v, xs, z);
    forall i | 0 <= i < |v|
      ensures Mul(a, Mul(v[i], c[i])) == Add(v[i], Mul(u[i], c[i]))
    {
      ScaleTerm(v[i], xs[i], y, z);
    }
    DotShifted(a, v, u, c);
    MulZero(a);
    AddCancel(Dot(v, Ones(|v|)), Dot(u, c));
    assert u[m] == 0 by {
      AddSelf(z);
      MulZero(v[m]);
    }
    DropZeroTerm(u, c);
    assert u[..m] == Numerators(v[..m], xs[..m], z);
    assert c[..m] == CauchyRow(xs[..m], y);
  }

  lemma DropZeroTerm(u: Vec, c: Vec)
    requires |u| == |c| > 0 && u[|u| - 1] == 0
    ensures Dot(u, c) == Dot(u[..|u| - 1], c[..|u| - 1])
  {
    hide Add;
    hide Mul;
    var m := |u| - 1;
    MulZero(c[m]);
    AddZero(Dot(u[..m], c[..m]));
  }

  /** Subtracting the equations for `y` and `last` leaves a Cauchy equation for `y`. */
  lemma ReducedEquation(u: Vec, xs: seq<Byte>, y: Byte, last: Byte)
    requires |u| == |xs| && y !in xs && last !in xs && y != last
    requires Dot(u, CauchyRow(xs, y)) == Dot(u, CauchyRow(xs, last))
    ensures Dot(Reduced(u, xs, last), CauchyRow(xs, y)) == 0
  {
    hide Add;
    hide Mul;
    hide Inv;
    hide Dot;
    var c, e := CauchyRow(xs, y), CauchyRow(xs, last);
    var d := VAdd(c, e);
    var w := Reduced(u, xs, last);
    var s := Add(y, last);
    forall i | 0 <= i < |u|
      ensures Mul(u[i], d[i]) == Mul(s, Mul(w[i], c[i]))
    {
      ReducedTerm(u[i], xs[i], y, last);
    }
    DotFactored(s, u, d, w, c);
    DotAddLeft(c, e, u);
    DotComm(c, u);
    DotComm(e, u);
    DotComm(d, u);
    AddSelf(Dot(u, c));
    AddCancel(y, last);
    NoZeroDivisors(s, Dot(w, c));
  }

  lemma ReducedTerm(u: Byte, x: Byte, y: Byte, last: Byte)
    requires x != y && x != last
    ensures Mul(u, Add(Inv(Add(x, y)), Inv(Add(x, last))))
         == Mul(Add(y, last), Mul(Mul(u, Inv(Add(x, last))), Inv(Add(x, y))))
  {
    hide *;
    var p, q := Add(x, y), Add(x, last);
    AddCancel(x, y);
    AddCancel(x, last);
    InverseSum(p, q);
    AddSwap(x, y, x, last);
    AddSelf(x);
    AddZero(Add(y, last));
    var t := Mul(Inv(q), Inv(p));
    MulAssoc(u, Add(y, last), t);
    MulComm(u, Add(y, last));
    MulAssoc(Add(y, last), u, t);
    MulAssoc(u, Inv(q), Inv(p));
  }

  lemma ReducedVanishes(v: Byte, x: Byte, z: Byte, last: Byte)
    requires x != z && x != last
    requires Mul(Mul(v, Add(z, x)), Inv(Add(x, last))) == 0
    ensures v == 0
  {
    hide *;
    AddCancel(z, x);
    AddCancel(x, last);
    MulInv(Add(x, last));
    NoZeroDivisors(Mul(v, Add(z, x)), Inv(Add(x, last)));
    NoZeroDivisors(v, Add(z, x));
  }

  /**
  Square Cauchy systems have only the trivial solution. Each step removes one
  unknown and one equation and leaves a smaller Cauchy system.
   */
  lemma {:induction false} CauchyNonsingular(xs: seq<Byte>, ys: seq<Byte>, v: Vec)
    requires |v| == |xs| == |ys|
    requires Distinct(xs) && Distinct(ys)
    requires forall j :: 0 <= j < |ys| ==> ys[j] !in xs
    requires forall j :: 0 <= j < |ys| ==> Dot(v, CauchyRow(xs, ys[j])) == 0
    ensures v == Zeros(|v|)
    decreases |v|
  {
    hide Add;
    hide Mul;
    hide Inv;
    if |v| > 0 {
      var m := |v| - 1;
      var z, last := xs[m], ys[m];
      var u := Numerators(v[..m], xs[..m], z);
      var w := Reduced(u, xs[..m], last);
      assert ys[m] !in xs;
      NumeratorEquation(v, xs, last);
      forall j | 0 <= j < m
        ensures Dot(w, CauchyRow(xs[..m], ys[j])) == 0
      {
        assert ys[j] !in xs;
        NumeratorEquation(v, xs, ys[j]);
        ReducedEquation(u, xs[..m], ys[j], last);
      }
      CauchyNonsingular(xs[..m], ys[..m], w);
      forall i | 0 <= i < m
        ensures v[i] == 0
      {
        assert w[i] == 0;
        ReducedVanishes(v[i], xs[i], z, last);
      }
      AddCancel(z, last);
      MulInv(Add(z, last));
      LastVanishes(v, CauchyRow(xs, last));
    }
  }

  lemma LastVanishes(v: Vec, c: Vec)
    requires |v| == |c| > 0 && Dot(v, c) == 0
    requires forall i :: 0 <= i < |v| - 1 ==> v[i] == 0
    requires c[|c| - 1] != 0
    ensures v == Zeros(|v|)
  {
    hide Add;
    hide Mul;
    var m := |v| - 1;
    assert v[..m] == Zeros(m);
    DotZeroLeft(c[..m]);
    AddZero(Mul(v[m], c[m]));
    NoZeroDivisors(v[m], c[m]);
  }

  // ----- Rows of the code -----

  /** Where a row of the decoding matrix comes from. */
  datatype RowKind = Systematic(slot: nat) | Repair(y: Byte)

  function SourceIds(k: nat): (ids: seq<Byte>)
    requires k <= 256
  {
    seq(k, i requires 0 <= i < k => i)
  }

  predicate ValidKind(k: nat, kind: RowKind) {
    match kind
    case Systematic(slot) => slot < k
    case Repair(y) => k <= y
  }

  function RowOf(k: nat, kind: RowKind): (row: Vec)
    requires k <= 256
    ensures |row| == k
  {
    match kind
    case Systematic(slot) => Unit(k, slot)
    case Repair(y) => CauchyRow(SourceIds(k), y)
  }

  /** Every coefficient of a repair row is the inverse of source index xor parameter. */
  lemma CoefficientIsInverse(k: nat, y: Byte, i: nat)
    requires i < k <= 256 && k <= y
    ensures Mul(RowOf(k, Repair(y))[i], Xor(i, y)) == 1
    ensures RowOf(k, Repair(y))[i] != 0
  {
    hide Inv, Mul, Xor;
    AddIsXor(i, y);
    AddCancel(i, y);
    MulInv(Add(i, y));
  }

  ghost predicate DistinctKinds(kinds: seq<RowKind>) {
    forall i, j :: 0 <= i < j < |kinds| ==> kinds[i] != kinds[j]
  }

  /** The source indices below `n` outside `slots`, in order. */
  function Missing(n: nat, slots: set<nat>): (rest: seq<Byte>)
    requires n <= 256
  {
    if n == 0 then [] else Missing(n - 1, slots) + if n - 1 in slots then [] else [n - 1]
  }

  function Restrict(v: Vec, slots: set<nat>): (w: Vec) {
    if |v| == 0 then [] else
      var n := |v| - 1;
      Restrict(v[..n], slots) + if n in slots then [] else [v[n]]
  }

  ghost function Below(slots: set<nat>, n: nat): set<nat> {
    set s | s in slots && s < n
  }

  lemma {:induction false} MissingMembers(n: nat, slots: set<nat>)
    requires n <= 256
    ensures forall b :: b in Missing(n, slots) <==> 0 <= b < n && b !in slots
    ensures Distinct(Missing(n, slots))
    ensures |Missing(n, slots)| == n - |Below(slots, n)|
  {
    if n == 0 {
      assert Below(slots, 0) == {};
    } else {
      MissingMembers(n - 1, slots);
      if n - 1 in slots {
        assert Below(slots, n) == Below(slots, n - 1) + {n - 1};
      } else {
        assert Below(slots, n) == Below(slots, n - 1);
      }
    }
  }

  lemma DotLast(u: Vec, a: Byte, v: Vec, b: Byte)
    requires |u| == |v|
    ensures Dot(u + [a], v + [b]) == Add(Dot(u, v), Mul(a, b))
  {
    assert (u + [a])[..|u|] == u && (v + [b])[..|v|] == v;
  }

  lemma CauchyLast(n: nat, xs: seq<Byte>, y: Byte)
    requires n < 256
    ensures CauchyRow(SourceIds(n + 1), y) == CauchyRow(SourceIds(n), y) + [Inv(Add(n, y))]
    ensures CauchyRow(xs + [n], y) == CauchyRow(xs, y) + [Inv(Add(n, y))]
  {
    hide Inv, Add;
  }

  /** Coordinates that vanish may be left out of a sum. */
  lemma {:induction false} DotRestrict(v: Vec, slots: set<nat>, y: Byte)
    requires |v| <= 256
    requires forall i :: 0 <= i < |v| && i in slots ==> v[i] == 0
    ensures |Restrict(v, slots)| == |Missing(|v|, slots)|
    ensures Dot(v, CauchyRow(SourceIds(|v|), y)) == Dot(Restrict(v, slots), CauchyRow(Missing(|v|, slots), y))
    decreases |v|
  {
    if |v| > 0 {
      hide Add, Mul, Inv, Dot, SourceIds;
      var n := |v| - 1;
      DotRestrict(v[..n], slots, y);
      var w, xs, last := Restrict(v[..n], slots), Missing(n, slots), Inv(Add(n, y));
      CauchyLast(n, xs, y);
      assert v == v[..n] + [v[n]];
      DotLast(v[..n], v[n], CauchyRow(SourceIds(n), y), last);
      if n in slots {
        MulZero(last);
        AddZero(Dot(w, CauchyRow(xs, y)));
        assert Restrict(v, slots) == w && Missing(|v|, slots) == xs;
      } else {
        assert Restrict(v, slots) == w + [v[n]] && Missing(|v|, slots) == xs + [n];
        DotLast(w, v[n], CauchyRow(xs, y), last);
      }
    }
  }

  lemma {:induction false} RestrictZero(v: Vec, slots: set<nat>, i: nat)
    requires i < |v| && i !in slots
    requires Restrict(v, slots) == Zeros(|Restrict(v, slots)|)
    ensures v[i] == 0
    decreases |v|
  {
    var n := |v| - 1;
    var w := Restrict(v[..n], slots);
    assert w == Restrict(v, slots)[..|w|];
    if i == n {
      assert Restrict(v, slots)[|w|] == v[n];
    } else {
      assert w == Zeros(|w|);
      RestrictZero(v[..n], slots, i);
    }
  }

  /**
  A vector that vanishes on m slots and satisfies k - m repair equations with
  distinct parameters is zero.
   */
  lemma MixedSystem(k: nat, slots: set<nat>, ys: seq<Byte>, v: Vec)
    requires k <= 256 && |v| == k
    requires slots == Below(slots, k) && |slots| + |ys| == k
    requires Distinct(ys) && forall j :: 0 <= j < |ys| ==> k <= ys[j]
    requires forall i :: i in slots ==> v[i] == 0
    requires forall j :: 0 <= j < |ys| ==> Dot(v, CauchyRow(SourceIds(k), ys[j])) == 0
    ensures v == Zeros(k)
  {
    hide Dot;
    hide Restrict;
    hide Missing;
    var xs, w := Missing(k, slots), Restrict(v, slots);
    MissingMembers(k, slots);
    DotRestrict(v, slots, 0);
    forall j | 0 <= j < |ys|
      ensures Dot(w, CauchyRow(xs, ys[j])) == 0 && ys[j] !in xs
    {
      DotRestrict(v, slots, ys[j]);
    }
    CauchyNonsingular(xs, ys, w);
    forall i | 0 <= i < k
      ensures v[i] == 0
    {
      if i !in slots {
        RestrictZero(v, slots, i);
      }
    }
  }

  function Rows(k: nat, kinds: seq<RowKind>): (m: Mat)
    requires k <= 256
    ensures |m| == |kinds|
  {
    seq(|kinds|, r requires 0 <= r < |kinds| => RowOf(k, kinds[r]))
  }

  ghost function Slots(kinds: seq<RowKind>): set<nat> {
    set r | 0 <= r < |kinds| && kinds[r].Systematic? :: kinds[r].slot
  }

  function Params(kinds: seq<RowKind>): seq<Byte> {
    if |kinds| == 0 then [] else
      var n := |kinds| - 1;
      Params(kinds[..n]) + if kinds[n].Repair? then [kinds[n].y] else []
  }

  lemma {:induction false} KindsSplit(kinds: seq<RowKind>)
    requires DistinctKinds(kinds)
    ensures |Slots(kinds)| + |Params(kinds)| == |kinds|
    ensures Distinct(Params(kinds))
    ensures forall y :: y in Params(kinds) <==> Repair(y) in kinds
    decreases |kinds|
  {
    if |kinds| == 0 {
      assert Slots(kinds) == {};
    } else {
      var n := |kinds| - 1;
      var rest, last := kinds[..n], kinds[n];
      KindsSplit(rest);
      assert kinds == rest + [last];
      if last.Systematic? {
        assert last.slot !in Slots(rest);
        assert Slots(kinds) == Slots(rest) + {last.slot};
      } else {
        assert Slots(kinds) == Slots(rest);
      }
    }
  }

  /**
  Any k rows of the code with distinct slots and distinct repair parameters,
  in any mix and any order, have only the trivial kernel.
   */
  lemma AnyKRowsIndependent(k: nat, kinds: seq<RowKind>)
    requires k <= 256 && |kinds| == k && DistinctKinds(kinds)
    requires forall r :: 0 <= r < k ==> ValidKind(k, kinds[r])
    ensures TrivialKernel(Rows(k, kinds), k)
  {
    hide Dot;
    var m := Rows(k, kinds);
    var slots, ys := Slots(kinds), Params(kinds);
    KindsSplit(kinds);
    assert slots == Below(slots, k);
    forall v: Vec | |v| == k && InKernel(m, v)
      ensures v == Zeros(k)
    {
      forall s | s in slots
        ensures v[s] == 0
      {
        var r :| 0 <= r < |kinds| && kinds[r] == Systematic(s);
        assert Dot(m[r], v) == 0;
        DotUnit(k, s, v);
      }
      forall j | 0 <= j < |ys|
        ensures k <= ys[j] && Dot(v, CauchyRow(SourceIds(k), ys[j])) == 0
      {
        assert ys[j] in ys;
        var r :| 0 <= r < |kinds| && kinds[r] == Repair(ys[j]);
        assert Dot(m[r], v) == 0;
        DotComm(v, m[r]);
      }
      MixedSystem(k, slots, ys, v);
    }
  }
}
