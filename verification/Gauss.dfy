/**
The elimination algorithm of `Decoder.gaussian_elimination` on dense systems,
column by column: find a pivot, swap it up, normalise its row, and clear its
column in every other row. A column without a pivot is skipped and costs one
in the rank.
 */
module Gauss {
  import opened Field
  import opened Options
  import opened LinearAlgebra
  import opened Elimination

  /** The first row from `from` on with a nonzero entry in `col`; the row count if there is none. */
  function FindPivot(rows: Mat, col: nat, from: nat): (p: nat)
    requires from <= |rows| && forall r :: 0 <= r < |rows| ==> col < |rows[r]|
    ensures from <= p <= |rows|
    ensures p < |rows| ==> rows[p][col] != 0
    ensures forall r :: from <= r < p ==> rows[r][col] == 0
    decreases |rows| - from
  {
    if from == |rows| || rows[from][col] != 0 then from else FindPivot(rows, col, from + 1)
  }

  /** Clears column `i` with row `i` in the rows from `r` on. */
  function ClearFrom(s: System, k: nat, i: nat, r: nat): (t: System)
    requires WellFormed(s, k) && i < |s.rows| && i < k && r <= |s.rows|
    ensures WellFormed(t, k) && |t.rows| == |s.rows|
    decreases |s.rows| - r
  {
    if r == |s.rows| then s
    else if r == i || s.rows[r][i] == 0 then ClearFrom(s, k, i, r + 1)
    else ClearFrom(Apply(s, AddScaled(r, i, s.rows[r][i])), k, i, r + 1)
  }

  function Normalised(s: System, k: nat, i: nat, p: nat): (t: System)
    requires WellFormed(s, k) && i < |s.rows| && i < k && p < |s.rows| && s.rows[p][i] != 0
    ensures WellFormed(t, k) && |t.rows| == |s.rows|
  {
    var swapped := Apply(s, Swap(i, p));
    assert swapped.rows[i] == s.rows[p];
    MulInv(s.rows[p][i]);
    Apply(swapped, Scale(i, Inv(swapped.rows[i][i])))
  }

  function ElimFrom(s: System, k: nat, i: nat, rank: nat): (result: (System, nat))
    requires WellFormed(s, k) && k <= |s.rows| && i <= k
    ensures WellFormed(result.0, k) && |result.0.rows| == |s.rows|
    decreases k - i
  {
    if i == k then (s, rank) else
      var p := FindPivot(s.rows, i, i);
      if p == |s.rows| then ElimFrom(s, k, i + 1, rank)
      else ElimFrom(ClearFrom(Normalised(s, k, i, p), k, i, 0), k, i + 1, rank + 1)
  }

  /** The eliminated system, and whether every column had a pivot. */
  function Eliminate(s: System, k: nat): (result: (System, bool))
    requires WellFormed(s, k) && k <= |s.rows|
    ensures WellFormed(result.0, k) && |result.0.rows| == |s.rows|
  {
    var (t, rank) := ElimFrom(s, k, 0, 0);
    (t, rank == k)
  }

  // ----- Rows that are too long -----

  /** Clearing column `i` adds to or from a row with entries beyond the matrix. */
  predicate ClearRunsOut(s: System, long: seq<bool>, k: nat, i: nat, r: nat)
    requires WellFormed(s, k) && i < |s.rows| && i < k && r <= |s.rows| == |long|
    decreases |s.rows| - r
  {
    if r == |s.rows| then false
    else if r == i || s.rows[r][i] == 0 then ClearRunsOut(s, long, k, i, r + 1)
    else long[r] || long[i] || ClearRunsOut(Apply(s, AddScaled(r, i, s.rows[r][i])), long, k, i, r + 1)
  }

  /** Elimination from column `i` on meets a row with entries beyond the matrix where it adds rows. */
  predicate RunsOut(s: System, long: seq<bool>, k: nat, i: nat)
    requires WellFormed(s, k) && k <= |s.rows| == |long| && i <= k
    decreases k - i
  {
    if i == k then false else
      var p := FindPivot(s.rows, i, i);
      if p == |s.rows| then RunsOut(s, long, k, i + 1)
      else
        var t, moved := Normalised(s, k, i, p), SwapAt(long, i, p);
        ClearRunsOut(t, moved, k, i, 0) || RunsOut(ClearFrom(t, k, i, 0), moved, k, i + 1)
  }

  // ----- Elimination is a sequence of row operations -----

  lemma {:induction false} ReachesTrans(s: System, m: System, t: System, k: nat, ops: seq<RowOp>)
    requires WellFormed(s, k) && ValidOps(|s.rows|, ops) && Run(s, k, ops) == m && Reaches(m, t, k)
    ensures Reaches(s, t, k)
    decreases |ops|
  {
    hide Apply;
    if |ops| > 0 {
      ApplyShape(s, k, ops[0]);
      ReachesTrans(Apply(s, ops[0]), m, t, k, ops[1..]);
      ReachesStep(s, k, ops[0], t);
    }
  }

  lemma ReachesChain(s: System, m: System, t: System, k: nat)
    requires WellFormed(s, k) && Reaches(s, m, k) && WellFormed(m, k) && Reaches(m, t, k)
    ensures Reaches(s, t, k)
  {
    hide Run;
    var ops :| ValidOps(|s.rows|, ops) && Run(s, k, ops) == m;
    ReachesTrans(s, m, t, k, ops);
  }

  lemma {:induction false} ClearReaches(s: System, k: nat, i: nat, r: nat)
    requires WellFormed(s, k) && i < |s.rows| && i < k && r <= |s.rows|
    ensures Reaches(s, ClearFrom(s, k, i, r), k)
    decreases |s.rows| - r
  {
    hide Apply;
    hide Reaches;
    if r == |s.rows| {
      ReachesSelf(s, k);
    } else if r == i || s.rows[r][i] == 0 {
      ClearReaches(s, k, i, r + 1);
    } else {
      var op := AddScaled(r, i, s.rows[r][i]);
      ApplyShape(s, k, op);
      ClearReaches(Apply(s, op), k, i, r + 1);
      ReachesStep(s, k, op, ClearFrom(s, k, i, r));
    }
  }

  lemma PivotReaches(s: System, k: nat, i: nat, p: nat)
    requires WellFormed(s, k) && i < |s.rows| && i < k && p < |s.rows| && s.rows[p][i] != 0
    ensures Reaches(s, ClearFrom(Normalised(s, k, i, p), k, i, 0), k)
  {
    hide Reaches;
    hide ClearFrom;
    var swapped := Apply(s, Swap(i, p));
    var scale := Scale(i, Inv(swapped.rows[i][i]));
    MulInv(s.rows[p][i]);
    var t := ClearFrom(Normalised(s, k, i, p), k, i, 0);
    ClearReaches(Normalised(s, k, i, p), k, i, 0);
    ReachesStep(swapped, k, scale, t);
    ReachesStep(s, k, Swap(i, p), t);
  }

  lemma {:induction false} ElimReaches(s: System, k: nat, i: nat, rank: nat)
    requires WellFormed(s, k) && k <= |s.rows| && i <= k
    ensures Reaches(s, ElimFrom(s, k, i, rank).0, k)
    decreases k - i
  {
    hide Reaches;
    hide ClearFrom;
    hide Normalised;
    if i == k {
      ReachesSelf(s, k);
    } else {
      var p := FindPivot(s.rows, i, i);
      if p == |s.rows| {
        ElimReaches(s, k, i + 1, rank);
      } else {
        var m := ClearFrom(Normalised(s, k, i, p), k, i, 0);
        PivotReaches(s, k, i, p);
        ElimReaches(m, k, i + 1, rank + 1);
        ReachesChain(s, m, ElimFrom(s, k, i, rank).0, k);
      }
    }
  }

  // ----- Pivot columns become unit columns -----

  ghost predicate UnitColumns(rows: Mat, k: nat, i: nat)
    requires i <= k && IsMat(rows, |rows|, k)
  {
    forall r, c :: 0 <= r < |rows| && 0 <= c < i ==> rows[r][c] == if r == c then 1 else 0
  }

  /** Column `i` is the unit column in the rows before `r`; the pivot row is already in place. */
  ghost predicate Cleared(rows: Mat, k: nat, i: nat, r: nat)
    requires i < k && i < |rows| && r <= |rows| && IsMat(rows, |rows|, k)
  {
    && UnitColumns(rows, k, i)
    && rows[i][i] == 1
    && forall q :: 0 <= q < r && q != i ==> rows[q][i] == 0
  }

  lemma NormalisedCleared(s: System, k: nat, i: nat, p: nat)
    requires WellFormed(s, k) && i < |s.rows| && i < k && i <= p < |s.rows| && s.rows[p][i] != 0
    requires UnitColumns(s.rows, k, i)
    ensures Cleared(Normalised(s, k, i, p).rows, k, i, 0)
  {
    hide Mul;
    hide Inv;
    var swapped := Apply(s, Swap(i, p));
    var f := Inv(swapped.rows[i][i]);
    MulInv(s.rows[p][i]);
    assert UnitColumns(swapped.rows, k, i);
    MulZero(f);
    var t := Normalised(s, k, i, p);
    assert t.rows == swapped.rows[i := VScale(f, swapped.rows[i])];
    assert forall c :: 0 <= c < i ==> t.rows[i][c] == 0;
  }

  lemma ClearStep(s: System, k: nat, i: nat, r: nat)
    requires WellFormed(s, k) && i < |s.rows| && i < k && r < |s.rows| && r != i
    requires Cleared(s.rows, k, i, r)
    ensures Cleared(Apply(s, AddScaled(r, i, s.rows[r][i])).rows, k, i, r + 1)
  {
    hide Mul;
    hide Add;
    var f := s.rows[r][i];
    var t := Apply(s, AddScaled(r, i, f)).rows;
    assert t[r] == VAdd(s.rows[r], VScale(f, s.rows[i]));
    MulOne(f);
    AddSelf(f);
    MulZero(f);
    forall c | 0 <= c < i
      ensures t[r][c] == s.rows[r][c]
    {
      AddZero(s.rows[r][c]);
    }
  }

  lemma {:induction false} ClearFromCleared(s: System, k: nat, i: nat, r: nat)
    requires WellFormed(s, k) && i < |s.rows| && i < k && r <= |s.rows|
    requires Cleared(s.rows, k, i, r)
    ensures Cleared(ClearFrom(s, k, i, r).rows, k, i, |s.rows|)
    decreases |s.rows| - r
  {
    hide Apply;
    if r == |s.rows| {
    } else if r == i || s.rows[r][i] == 0 {
      ClearFromCleared(s, k, i, r + 1);
    } else {
      var op := AddScaled(r, i, s.rows[r][i]);
      ApplyShape(s, k, op);
      ClearStep(s, k, i, r);
      ClearFromCleared(Apply(s, op), k, i, r + 1);
    }
  }

  lemma PivotUnitColumns(s: System, k: nat, i: nat, p: nat)
    requires WellFormed(s, k) && i < |s.rows| && i < k && i <= p < |s.rows| && s.rows[p][i] != 0
    requires UnitColumns(s.rows, k, i)
    ensures UnitColumns(ClearFrom(Normalised(s, k, i, p), k, i, 0).rows, k, i + 1)
  {
    hide ClearFrom;
    hide Normalised;
    NormalisedCleared(s, k, i, p);
    ClearFromCleared(Normalised(s, k, i, p), k, i, 0);
  }

  // ----- A column without a pivot gives a kernel vector -----

  /** The kernel vector read off a pivotless column `i` behind `i` unit columns. */
  function Witness(rows: Mat, k: nat, i: nat): (v: Vec)
    requires i < k == |rows| && IsMat(rows, k, k)
    ensures |v| == k
  {
    seq(k, c requires 0 <= c < k => if c < i then rows[c][i] else if c == i then 1 else 0)
  }

  lemma WitnessRow(rows: Mat, k: nat, i: nat, r: nat)
    requires i < k == |rows| && IsMat(rows, k, k) && UnitColumns(rows, k, i) && r < k
    requires forall q :: i <= q < k ==> rows[q][i] == 0
    ensures Dot(rows[r], Witness(rows, k, i)) == 0
  {
    hide Add;
    hide Mul;
    hide Dot;
    var v := Witness(rows, k, i);
    var row := rows[r];
    assert row == row[..i] + row[i..] && v == v[..i] + v[i..];
    DotConcat(row[..i], row[i..], v[..i], v[i..]);
    assert row[i..] == [row[i]] + row[i + 1..] && v[i..] == [1] + Zeros(k - i - 1);
    DotConcat([row[i]], row[i + 1..], [1], Zeros(k - i - 1));
    DotComm(row[i + 1..], Zeros(k - i - 1));
    DotZeroLeft(row[i + 1..]);
    DotSingle(row[i], 1);
    MulOne(row[i]);
    AddZero(row[i]);
    if r < i {
      assert row[..i] == Unit(i, r);
      DotUnit(i, r, v[..i]);
      AddSelf(row[i]);
    } else {
      assert row[..i] == Zeros(i);
      DotZeroLeft(v[..i]);
      AddZero(0);
    }
  }

  lemma DotSingle(a: Byte, b: Byte)
    ensures Dot([a], [b]) == Mul(a, b)
  {
    hide Add;
    hide Mul;
    assert Dot([a][..0], [b][..0]) == 0;
    AddZero(Mul(a, b));
  }

  lemma NoPivotKernel(rows: Mat, k: nat, i: nat)
    requires i < k == |rows| && IsMat(rows, k, k) && UnitColumns(rows, k, i)
    requires forall q :: i <= q < k ==> rows[q][i] == 0
    ensures !TrivialKernel(rows, k)
  {
    hide Dot;
    var v := Witness(rows, k, i);
    forall r | 0 <= r < k
      ensures Dot(rows[r], v) == 0
    {
      WitnessRow(rows, k, i, r);
    }
    assert InKernel(rows, v) && v[i] == 1;
  }

  // ----- The result of elimination -----

  lemma {:induction false} ElimRank(s: System, k: nat, i: nat, rank: nat)
    requires WellFormed(s, k) && k <= |s.rows| && i <= k
    ensures ElimFrom(s, k, i, rank).1 <= rank + k - i
    decreases k - i
  {
    hide ClearFrom;
    hide Normalised;
    if i < k {
      var p := FindPivot(s.rows, i, i);
      if p == |s.rows| {
        ElimRank(s, k, i + 1, rank);
      } else {
        ElimRank(ClearFrom(Normalised(s, k, i, p), k, i, 0), k, i + 1, rank + 1);
      }
    }
  }

  lemma {:induction false} ElimOutcome(s: System, k: nat, i: nat)
    requires WellFormed(s, k) && k == |s.rows| && i <= k && UnitColumns(s.rows, k, i)
    ensures
      var (t, rank) := ElimFrom(s, k, i, i);
      && (rank == k ==> t.rows == Identity(k))
      && (rank == k <==> TrivialKernel(s.rows, k))
    decreases k - i
  {
    hide ClearFrom;
    hide Normalised;
    hide TrivialKernel;
    if i == k {
      UnitColumnsAreIdentity(s.rows, k);
      IdentityKernel(k);
    } else {
      var p := FindPivot(s.rows, i, i);
      if p == |s.rows| {
        ElimRank(s, k, i + 1, i);
        NoPivotKernel(s.rows, k, i);
      } else {
        var m := ClearFrom(Normalised(s, k, i, p), k, i, 0);
        PivotUnitColumns(s, k, i, p);
        PivotReaches(s, k, i, p);
        KernelPreserved(s, m, k);
        ElimOutcome(m, k, i + 1);
      }
    }
  }

  lemma UnitColumnsAreIdentity(rows: Mat, k: nat)
    requires |rows| == k && IsMat(rows, k, k) && UnitColumns(rows, k, k)
    ensures rows == Identity(k)
  {
    forall r | 0 <= r < k
      ensures rows[r] == Unit(k, r)
    {
    }
  }

  /**
  Elimination of a k by k system succeeds exactly when the coefficient matrix
  has only the trivial kernel, and success leaves the identity matrix.
   */
  lemma EliminationDecides(s: System, k: nat)
    requires WellFormed(s, k) && |s.rows| == k
    ensures Eliminate(s, k).1 <==> TrivialKernel(s.rows, k)
    ensures Eliminate(s, k).1 ==> Eliminate(s, k).0.rows == Identity(k)
    ensures Reaches(s, Eliminate(s, k).0, k)
  {
    hide ElimFrom;
    ElimOutcome(s, k, 0);
    ElimReaches(s, k, 0, 0);
  }

  /**
  If every row carries a payload explained by the blocks `x` and elimination
  succeeds, row i ends with exactly block i.
   */
  lemma EliminationSolves(s: System, k: nat, x: Mat, width: nat)
    requires WellFormed(s, k) && |s.rows| == k && IsMat(x, k, width)
    requires AllCarried(s) && PayloadWidth(s, width) && Solves(s, x, k, width)
    requires Eliminate(s, k).1
    ensures forall i :: 0 <= i < k ==> Eliminate(s, k).0.payloads[i] == Some(x[i])
  {
    hide Eliminate;
    hide Combine;
    EliminationDecides(s, k);
    var t := Eliminate(s, k).0;
    SolutionsPreserved(s, t, k, x, width);
    forall i | 0 <= i < k
      ensures t.payloads[i] == Some(x[i])
    {
      assert RowSolved(t.rows[i], t.payloads[i], x, width);
      CombineUnit(i, x, width);
    }
  }
}
