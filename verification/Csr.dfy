/**
Compressed-sparse-row matrices as values: the layout invariant, the dense
matrix a layout stands for, and the two splices (removing and inserting the
entries of a row) from which every in-place update is built.
 */
module Csr {
  import opened Field
  import opened LinearAlgebra
  import opened Elimination

  /** A stored entry: its column and its value. */
  type Entry = (nat, Byte)

  datatype Layout = Layout(values: seq<Byte>, cols: seq<nat>, ptr: seq<nat>)

  /** Row pointers start at zero, never decrease, and end at the number of entries. */
  ghost predicate Shaped(l: Layout) {
    && |l.ptr| >= 1
    && l.ptr[0] == 0
    && l.ptr[|l.ptr| - 1] == |l.values| == |l.cols|
    && forall i, j :: 0 <= i <= j < |l.ptr| ==> l.ptr[i] <= l.ptr[j]
  }

  ghost function NumRows(l: Layout): nat
    requires Shaped(l)
  {
    |l.ptr| - 1
  }

  ghost function Slice(l: Layout, lo: nat, hi: nat): (e: seq<Entry>)
    requires lo <= hi <= |l.values| == |l.cols|
    ensures |e| == hi - lo
  {
    seq(hi - lo, i requires 0 <= i < hi - lo => (l.cols[lo + i], l.values[lo + i]))
  }

  lemma PtrInRange(l: Layout, r: nat)
    requires Shaped(l) && r < |l.ptr|
    ensures l.ptr[r] <= |l.values|
  {
    assert l.ptr[r] <= l.ptr[|l.ptr| - 1];
  }

  ghost function Entries(l: Layout, r: nat): (e: seq<Entry>)
    requires Shaped(l) && r < NumRows(l)
    ensures l.ptr[r] <= l.ptr[r + 1] <= |l.values| && |e| == l.ptr[r + 1] - l.ptr[r]
  {
    PtrInRange(l, r + 1);
    Slice(l, l.ptr[r], l.ptr[r + 1])
  }

  // ----- Rows -----

  /** The value a row of entries gives to a column; zero where nothing is stored. */
  function Lookup(e: seq<Entry>, c: nat): Byte {
    if |e| == 0 then 0 else
      var n := |e| - 1;
      if e[n].0 == c then e[n].1 else Lookup(e[..n], c)
  }

  function DenseOf(e: seq<Entry>, width: nat): (row: Vec)
    ensures |row| == width
  {
    seq(width, c requires 0 <= c < width => Lookup(e, c))
  }

  /** Columns strictly increase, and no zero is stored. */
  ghost predicate GoodRow(e: seq<Entry>) {
    && (forall i, j :: 0 <= i < j < |e| ==> e[i].0 < e[j].0)
    && (forall i :: 0 <= i < |e| ==> e[i].1 != 0)
  }

  /** The row has an entry in a column the matrix does not have. */
  predicate Overhangs(e: seq<Entry>, width: nat) {
    |e| > 0 && e[|e| - 1].0 >= width
  }

  /** A coefficient row with a nonzero coefficient beyond the width. */
  predicate TooLong(row: Vec, width: nat) {
    exists j :: width <= j < |row| && row[j] != 0
  }

  lemma {:induction false} LookupAbsent(e: seq<Entry>, c: nat)
    requires forall i :: 0 <= i < |e| ==> e[i].0 != c
    ensures Lookup(e, c) == 0
  {
    if |e| > 0 {
      LookupAbsent(e[..|e| - 1], c);
    }
  }

  lemma {:induction false} LookupPresent(e: seq<Entry>, i: nat)
    requires GoodRow(e) && i < |e|
    ensures Lookup(e, e[i].0) == e[i].1
    decreases |e|
  {
    if i < |e| - 1 {
      assert e[i].0 < e[|e| - 1].0;
      LookupPresent(e[..|e| - 1], i);
    }
  }

  /** The nonzero entries of a dense row, in column order. */
  function SparseOf(row: Vec): seq<Entry> {
    if |row| == 0 then [] else
      var n := |row| - 1;
      SparseOf(row[..n]) + if row[n] != 0 then [(n, row[n])] else []
  }

  lemma {:induction false} SparseGood(row: Vec)
    ensures GoodRow(SparseOf(row)) && forall i :: 0 <= i < |SparseOf(row)| ==> SparseOf(row)[i].0 < |row|
    decreases |row|
  {
    if |row| > 0 {
      SparseGood(row[..|row| - 1]);
    }
  }

  lemma {:induction false} SparseOverhangs(row: Vec, width: nat)
    ensures Overhangs(SparseOf(row), width) <==> TooLong(row, width)
    decreases |row|
  {
    if |row| > 0 {
      var n := |row| - 1;
      SparseOverhangs(row[..n], width);
      if row[n] == 0 {
        assert forall j :: width <= j < |row| && row[j] != 0 ==> row[..n][j] != 0;
        assert forall j :: width <= j < n && row[..n][j] != 0 ==> row[j] != 0;
      } else if n >= width {
        assert row[n] != 0;
      }
    }
  }

  lemma {:induction false} SparseLookup(row: Vec, c: nat)
    ensures Lookup(SparseOf(row), c) == if c < |row| then row[c] else 0
    decreases |row|
  {
    if |row| > 0 {
      hide Lookup;
      var n := |row| - 1;
      var e := SparseOf(row[..n]);
      SparseLookup(row[..n], c);
      if row[n] != 0 {
        LookupLast(e, (n, row[n]), c);
      } else {
        assert SparseOf(row) == e;
      }
    } else {
      LookupAbsent([], c);
    }
  }

  lemma LookupLast(e: seq<Entry>, last: Entry, c: nat)
    ensures Lookup(e + [last], c) == if last.0 == c then last.1 else Lookup(e, c)
  {
    assert (e + [last])[..|e|] == e;
  }

  /** The part of a row that the matrix has columns for, padded with zeros. */
  function Fitted(row: Vec, width: nat): (p: Vec)
    ensures |p| == width
  {
    if |row| <= width then Padded(row, width) else row[..width]
  }

  /** The stored entries give a row back, as far as the matrix has columns for it. */
  lemma SparseRoundTrip(row: Vec, width: nat)
    ensures GoodRow(SparseOf(row))
    ensures DenseOf(SparseOf(row), width) == Fitted(row, width)
    ensures Overhangs(SparseOf(row), width) <==> TooLong(row, width)
  {
    hide SparseOf;
    SparseGood(row);
    SparseOverhangs(row, width);
    forall c | 0 <= c < width
      ensures DenseOf(SparseOf(row), width)[c] == Fitted(row, width)[c]
    {
      SparseLookup(row, c);
    }
  }

  // ----- The dense matrix a layout stands for -----

  ghost predicate GoodLayout(l: Layout) {
    Shaped(l) && forall r :: 0 <= r < NumRows(l) ==> GoodRow(Entries(l, r))
  }

  ghost function DenseRows(l: Layout, width: nat): (m: Mat)
    requires Shaped(l)
    ensures IsMat(m, NumRows(l), width)
  {
    seq(NumRows(l), r requires 0 <= r < NumRows(l) => DenseOf(Entries(l, r), width))
  }

  /** Which rows have entries beyond the width. */
  ghost function LongRows(l: Layout, width: nat): (long: seq<bool>)
    requires Shaped(l)
    ensures |long| == NumRows(l)
  {
    seq(NumRows(l), r requires 0 <= r < NumRows(l) => Overhangs(Entries(l, r), width))
  }

  /** Two layouts that agree except on the entries of one row. */
  lemma ReplaceRow(l: Layout, l': Layout, width: nat, row: nat, e: seq<Entry>)
    requires GoodLayout(l) && Shaped(l') && NumRows(l') == NumRows(l) && row < NumRows(l)
    requires forall q :: 0 <= q < NumRows(l) && q != row ==> Entries(l', q) == Entries(l, q)
    requires Entries(l', row) == e && GoodRow(e)
    ensures GoodLayout(l')
    ensures DenseRows(l', width) == DenseRows(l, width)[row := DenseOf(e, width)]
    ensures LongRows(l', width) == LongRows(l, width)[row := Overhangs(e, width)]
  {
    hide Entries, Shaped, GoodRow, DenseOf, Overhangs;
  }

  // ----- Splices -----

  function ShiftDown(ptr: seq<nat>, row: nat, diff: nat): (p: seq<nat>)
    requires forall i :: row < i < |ptr| ==> diff <= ptr[i]
    ensures |p| == |ptr|
  {
    seq(|ptr|, i requires 0 <= i < |ptr| => if i <= row then ptr[i] else ptr[i] - diff)
  }

  function ShiftUp(ptr: seq<nat>, row: nat, diff: nat): (p: seq<nat>)
    ensures |p| == |ptr|
  {
    seq(|ptr|, i requires 0 <= i < |ptr| => if i <= row then ptr[i] else ptr[i] + diff)
  }

  lemma RowFits(l: Layout, row: nat)
    requires Shaped(l) && row < NumRows(l)
    ensures l.ptr[row] <= l.ptr[row + 1] <= |l.values|
    ensures forall i :: row < i < |l.ptr| ==> l.ptr[row + 1] <= l.ptr[i]
  {
    PtrInRange(l, row + 1);
  }

  /** The layout with the entries of `row` removed. */
  ghost function WithoutRow(l: Layout, row: nat): Layout
    requires Shaped(l) && row < NumRows(l)
  {
    RowFits(l, row);
    var start, end := l.ptr[row], l.ptr[row + 1];
    Layout(l.values[..start] + l.values[end..], l.cols[..start] + l.cols[end..],
           ShiftDown(l.ptr, row, end - start))
  }

  function Columns(e: seq<Entry>): (c: seq<nat>)
    ensures |c| == |e|
  {
    seq(|e|, i requires 0 <= i < |e| => e[i].0)
  }

  function Values(e: seq<Entry>): (v: seq<Byte>)
    ensures |v| == |e|
  {
    seq(|e|, i requires 0 <= i < |e| => e[i].1)
  }

  /** The layout with `e` put in front of the entries of `row`. */
  ghost function WithEntries(l: Layout, row: nat, e: seq<Entry>): Layout
    requires Shaped(l) && row < NumRows(l)
  {
    RowFits(l, row);
    var start := l.ptr[row];
    Layout(l.values[..start] + Values(e) + l.values[start..], l.cols[..start] + Columns(e) + l.cols[start..],
           ShiftUp(l.ptr, row, |e|))
  }

  lemma WithoutRowShaped(l: Layout, row: nat)
    requires Shaped(l) && row < NumRows(l)
    ensures Shaped(WithoutRow(l, row)) && NumRows(WithoutRow(l, row)) == NumRows(l)
  {
    RowFits(l, row);
  }

  lemma WithoutRowEntries(l: Layout, row: nat, q: nat)
    requires Shaped(l) && row < NumRows(l) && q < NumRows(l)
    ensures Shaped(WithoutRow(l, row)) && NumRows(WithoutRow(l, row)) == NumRows(l)
    ensures Entries(WithoutRow(l, row), q) == if q == row then [] else Entries(l, q)
  {
    WithoutRowShaped(l, row);
    RowFits(l, row);
    RowFits(l, q);
    var t := WithoutRow(l, row);
    var start, end := l.ptr[row], l.ptr[row + 1];
    if q < row {
      assert l.ptr[q + 1] <= start;
    } else if q > row {
      assert end <= l.ptr[q];
      forall i | 0 <= i < l.ptr[q + 1] - l.ptr[q]
        ensures Entries(t, q)[i] == Entries(l, q)[i]
      {
        var at := l.ptr[q] + i;
        assert t.values[at - (end - start)] == l.values[at];
        assert t.cols[at - (end - start)] == l.cols[at];
      }
    }
  }

  lemma WithEntriesShaped(l: Layout, row: nat, e: seq<Entry>)
    requires Shaped(l) && row < NumRows(l)
    ensures Shaped(WithEntries(l, row, e)) && NumRows(WithEntries(l, row, e)) == NumRows(l)
  {
    RowFits(l, row);
  }

  lemma EntriesBefore(l: Layout, row: nat, e: seq<Entry>, q: nat)
    requires Shaped(l) && row < NumRows(l) && q < row
    requires Shaped(WithEntries(l, row, e))
    ensures Entries(WithEntries(l, row, e), q) == Entries(l, q)
  {
    RowFits(l, row);
    RowFits(l, q);
    assert l.ptr[q + 1] <= l.ptr[row];
  }

  lemma EntriesFrom(l: Layout, row: nat, e: seq<Entry>, q: nat)
    requires Shaped(l) && row <= q < NumRows(l)
    requires Shaped(WithEntries(l, row, e))
    ensures
      var f, g := Entries(WithEntries(l, row, e), q), Entries(l, q);
      var shift := if q == row then |e| else 0;
      |f| == |g| + shift && forall i :: 0 <= i < |g| ==> f[i + shift] == g[i]
  {
    hide WithEntries, Shaped, Entries;
    PointersFrom(l, row, e, q);
    WithEntriesShaped(l, row, e);
    var t := WithEntries(l, row, e);
    var shift := if q == row then |e| else 0;
    forall i | 0 <= i < |Entries(l, q)|
      ensures Entries(t, q)[i + shift] == Entries(l, q)[i]
    {
      MovedEntry(l, row, e, l.ptr[q] + i);
      EntryAt(l, q, i);
      EntryAt(t, q, i + shift);
    }
  }

  lemma EntryAt(l: Layout, r: nat, i: nat)
    requires Shaped(l) && r < NumRows(l) && i < |Entries(l, r)|
    ensures l.ptr[r] + i < |l.cols| == |l.values|
    ensures Entries(l, r)[i] == (l.cols[l.ptr[r] + i], l.values[l.ptr[r] + i])
  {
  }

  /** Later rows move on by the number of entries. */
  lemma PointersFrom(l: Layout, row: nat, e: seq<Entry>, q: nat)
    requires Shaped(l) && row <= q < NumRows(l)
    ensures
      var t, shift := WithEntries(l, row, e), if q == row then |e| else 0;
      && |t.ptr| == |l.ptr| && q + 1 < |l.ptr|
      && t.ptr[q] + shift == l.ptr[q] + |e| && t.ptr[q + 1] == l.ptr[q + 1] + |e|
      && l.ptr[row] <= l.ptr[q] <= l.ptr[q + 1] <= |l.values| == |l.cols|
      && |t.values| == |l.values| + |e| == |t.cols|
  {
    RowFits(l, row);
    RowFits(l, q);
    assert l.ptr[row] <= l.ptr[q];
  }

  lemma MovedEntry(l: Layout, row: nat, e: seq<Entry>, at: nat)
    requires Shaped(l) && row < NumRows(l) && l.ptr[row] <= at < |l.values|
    ensures
      var t := WithEntries(l, row, e);
      && at + |e| < |t.values| == |t.cols|
      && t.values[at + |e|] == l.values[at] && t.cols[at + |e|] == l.cols[at]
  {
    RowFits(l, row);
    SpliceAt(l.values, l.ptr[row], Values(e), at);
    SpliceAt(l.cols, l.ptr[row], Columns(e), at);
  }

  lemma SpliceAt<T>(s: seq<T>, start: nat, mid: seq<T>, at: nat)
    requires start <= at < |s|
    ensures (s[..start] + mid + s[start..])[at + |mid|] == s[at]
  {
  }

  lemma EntriesAt(l: Layout, row: nat, e: seq<Entry>)
    requires Shaped(l) && row < NumRows(l)
    requires Shaped(WithEntries(l, row, e))
    ensures Entries(WithEntries(l, row, e), row)[..|e|] == e
  {
    RowFits(l, row);
  }

  lemma WithEntriesEntries(l: Layout, row: nat, e: seq<Entry>, q: nat)
    requires Shaped(l) && row < NumRows(l) && q < NumRows(l)
    ensures Shaped(WithEntries(l, row, e)) && NumRows(WithEntries(l, row, e)) == NumRows(l)
    ensures Entries(WithEntries(l, row, e), q) == (if q == row then e else []) + Entries(l, q)
  {
    WithEntriesShaped(l, row, e);
    hide *;
    if q < row {
      EntriesBefore(l, row, e, q);
    } else {
      EntriesFrom(l, row, e, q);
      if q == row {
        EntriesAt(l, row, e);
      }
    }
  }

  // ----- Whole-row updates -----

  ghost function WithNewRow(l: Layout, e: seq<Entry>): Layout {
    Layout(l.values + Values(e), l.cols + Columns(e), l.ptr + [|l.values| + |e|])
  }

  lemma NewRowEntries(l: Layout, e: seq<Entry>, q: nat)
    requires Shaped(l) && q <= NumRows(l)
    ensures Shaped(WithNewRow(l, e)) && NumRows(WithNewRow(l, e)) == NumRows(l) + 1
    ensures Entries(WithNewRow(l, e), q) == if q == NumRows(l) then e else Entries(l, q)
  {
    var t := WithNewRow(l, e);
    assert forall i :: 0 <= i < |l.ptr| ==> l.ptr[i] <= |l.values|;
    if q < NumRows(l) {
      RowFits(l, q);
    }
  }

  lemma NewRowDense(l: Layout, e: seq<Entry>, width: nat)
    requires GoodLayout(l) && GoodRow(e)
    ensures GoodLayout(WithNewRow(l, e))
    ensures DenseRows(WithNewRow(l, e), width) == DenseRows(l, width) + [DenseOf(e, width)]
    ensures LongRows(WithNewRow(l, e), width) == LongRows(l, width) + [Overhangs(e, width)]
  {
    hide Entries, GoodRow, DenseOf, Overhangs, Shaped, WithNewRow, DenseRows, LongRows;
    var t := WithNewRow(l, e);
    NewRowEntries(l, e, NumRows(l));
    forall q | 0 <= q < NumRows(l)
      ensures Entries(t, q) == Entries(l, q)
    {
      NewRowEntries(l, e, q);
    }
    OneMoreRow(l, t, width);
  }

  /** Two layouts that agree except that one has a row more. */
  lemma OneMoreRow(l: Layout, l': Layout, width: nat)
    requires GoodLayout(l) && Shaped(l') && NumRows(l') == NumRows(l) + 1
    requires forall q :: 0 <= q < NumRows(l) ==> Entries(l', q) == Entries(l, q)
    requires GoodRow(Entries(l', NumRows(l)))
    ensures
      var e := Entries(l', NumRows(l));
      && GoodLayout(l') && DenseRows(l', width) == DenseRows(l, width) + [DenseOf(e, width)]
      && LongRows(l', width) == LongRows(l, width) + [Overhangs(e, width)]
  {
    hide Entries, GoodRow, DenseOf, Overhangs, Shaped;
  }

  function ScaleEntries(e: seq<Entry>, factor: Byte): (f: seq<Entry>)
    ensures |f| == |e|
  {
    seq(|e|, i requires 0 <= i < |e| => (e[i].0, Mul(e[i].1, factor)))
  }

  lemma {:induction false} ScaledLookup(e: seq<Entry>, factor: Byte, c: nat)
    ensures Lookup(ScaleEntries(e, factor), c) == Mul(factor, Lookup(e, c))
  {
    hide Mul;
    if |e| == 0 {
      MulZero(factor);
    } else {
      var n := |e| - 1;
      assert ScaleEntries(e, factor)[..n] == ScaleEntries(e[..n], factor);
      ScaledLookup(e[..n], factor, c);
      MulComm(factor, e[n].1);
    }
  }

  lemma ScaledRow(e: seq<Entry>, factor: Byte, width: nat)
    requires GoodRow(e) && factor != 0
    ensures GoodRow(ScaleEntries(e, factor))
    ensures DenseOf(ScaleEntries(e, factor), width) == VScale(factor, DenseOf(e, width))
    ensures Overhangs(ScaleEntries(e, factor), width) <==> Overhangs(e, width)
  {
    hide Mul;
    hide Lookup;
    forall i | 0 <= i < |e|
      ensures Mul(e[i].1, factor) != 0
    {
      NoZeroDivisors(e[i].1, factor);
    }
    forall c | 0 <= c < width
      ensures DenseOf(ScaleEntries(e, factor), width)[c] == VScale(factor, DenseOf(e, width))[c]
    {
      ScaledLookup(e, factor, c);
    }
  }

  /** Only the values between the pointers of `row` were multiplied. */
  lemma ScaledEntries(l: Layout, l': Layout, row: nat, factor: Byte, q: nat)
    requires Shaped(l) && row < NumRows(l) && q < NumRows(l)
    requires l'.cols == l.cols && l'.ptr == l.ptr && |l'.values| == |l.values|
    requires forall i :: 0 <= i < |l.values| ==>
      l'.values[i] == if l.ptr[row] <= i < l.ptr[row + 1] then Mul(l.values[i], factor) else l.values[i]
    ensures Shaped(l') && NumRows(l') == NumRows(l)
    ensures Entries(l', q) == if q == row then ScaleEntries(Entries(l, q), factor) else Entries(l, q)
  {
    hide Mul;
    RowFits(l, row);
    RowFits(l, q);
    if q < row {
      assert l.ptr[q + 1] <= l.ptr[row];
    } else if q > row {
      assert l.ptr[row + 1] <= l.ptr[q];
    }
  }

  /** Replacing the entries of a row: remove them, then insert the new ones. */
  ghost function Replaced(l: Layout, row: nat, e: seq<Entry>): (t: Layout)
    requires Shaped(l) && row < NumRows(l)
    ensures Shaped(t) && NumRows(t) == NumRows(l)
  {
    WithoutRowShaped(l, row);
    WithEntriesShaped(WithoutRow(l, row), row, e);
    WithEntries(WithoutRow(l, row), row, e)
  }

  lemma ReplacedEntries(l: Layout, row: nat, e: seq<Entry>, q: nat)
    requires Shaped(l) && row < NumRows(l) && q < NumRows(l)
    ensures Entries(Replaced(l, row, e), q) == if q == row then e else Entries(l, q)
  {
    WithoutRowShaped(l, row);
    WithoutRowEntries(l, row, q);
    WithEntriesEntries(WithoutRow(l, row), row, e, q);
  }

  lemma ReplacedDense(l: Layout, width: nat, row: nat, e: seq<Entry>)
    requires GoodLayout(l) && row < NumRows(l) && GoodRow(e)
    ensures GoodLayout(Replaced(l, row, e))
    ensures DenseRows(Replaced(l, row, e), width) == DenseRows(l, width)[row := DenseOf(e, width)]
    ensures LongRows(Replaced(l, row, e), width) == LongRows(l, width)[row := Overhangs(e, width)]
  {
    hide Replaced;
    hide Entries;
    hide GoodRow;
    hide Shaped;
    var t := Replaced(l, row, e);
    forall q | 0 <= q < NumRows(l)
      ensures Entries(t, q) == if q == row then e else Entries(l, q)
    {
      ReplacedEntries(l, row, e, q);
    }
    ReplaceRow(l, t, width, row, e);
  }

  /** Clearing two rows and inserting each one's entries into the other. */
  ghost function Exchanged(l: Layout, hi: nat, lo: nat): (t: Layout)
    requires Shaped(l) && lo < NumRows(l) && hi < NumRows(l)
    ensures Shaped(t) && NumRows(t) == NumRows(l)
  {
    WithoutRowShaped(l, hi);
    var l1 := WithoutRow(l, hi);
    WithoutRowShaped(l1, lo);
    var l2 := WithoutRow(l1, lo);
    WithEntriesShaped(l2, hi, Entries(l, lo));
    var l3 := WithEntries(l2, hi, Entries(l, lo));
    WithEntriesShaped(l3, lo, Entries(l, hi));
    WithEntries(l3, lo, Entries(l, hi))
  }

  lemma ExchangedEntries(l: Layout, hi: nat, lo: nat, q: nat)
    requires Shaped(l) && lo < NumRows(l) && hi < NumRows(l) && lo != hi && q < NumRows(l)
    ensures Entries(Exchanged(l, hi, lo), q)
         == if q == hi then Entries(l, lo) else if q == lo then Entries(l, hi) else Entries(l, q)
  {
    hide Entries;
    hide Shaped;
    hide WithoutRow;
    hide WithEntries;
    WithoutRowEntries(l, hi, q);
    var l1 := WithoutRow(l, hi);
    WithoutRowEntries(l1, lo, q);
    var l2 := WithoutRow(l1, lo);
    WithEntriesEntries(l2, hi, Entries(l, lo), q);
    var l3 := WithEntries(l2, hi, Entries(l, lo));
    WithEntriesEntries(l3, lo, Entries(l, hi), q);
  }

  lemma ExchangedDense(l: Layout, width: nat, hi: nat, lo: nat)
    requires GoodLayout(l) && lo < NumRows(l) && hi < NumRows(l) && lo != hi
    ensures GoodLayout(Exchanged(l, hi, lo))
    ensures DenseRows(Exchanged(l, hi, lo), width) == SwapAt(DenseRows(l, width), hi, lo)
    ensures LongRows(Exchanged(l, hi, lo), width) == SwapAt(LongRows(l, width), hi, lo)
  {
    hide Exchanged;
    hide Entries;
    hide GoodRow;
    hide Shaped;
    var t := Exchanged(l, hi, lo);
    forall q | 0 <= q < NumRows(l)
      ensures Entries(t, q)
           == if q == hi then Entries(l, lo) else if q == lo then Entries(l, hi) else Entries(l, q)
    {
      ExchangedEntries(l, hi, lo, q);
    }
  }
}
