/**
The sparse matrix of the decoder, updated in place. Every operation keeps the
layout invariant and acts on the dense system it stands for exactly as the
corresponding elementary row operation. A row may be longer than the matrix is
wide: it is stored whole, and only adding it to another row, or another row to
it, would index past the columns.
 */
module CsrMatrices {
  import opened Field
  import opened Options
  import opened LinearAlgebra
  import opened Elimination
  import opened Csr

  class CsrMatrix {
    var values: seq<Byte>
    var colIndices: seq<nat>
    var rowPtr: seq<nat>
    var payloads: seq<Option<Vec>>
    const numCols: nat

    ghost function View(): Layout
      reads this
    {
      Layout(values, colIndices, rowPtr)
    }

    ghost predicate Shape()
      reads this
    {
      Shaped(View()) && |payloads| == NumRows(View())
    }

    ghost predicate Valid()
      reads this
    {
      Shape() && GoodLayout(View())
    }

    /** The dense system the matrix stands for. */
    ghost function Dense(): (s: System)
      requires Shape()
      reads this
      ensures WellFormed(s, numCols)
    {
      System(DenseRows(View(), numCols), payloads)
    }

    /** Which rows were stored with entries beyond the last column. */
    ghost function Long(): (long: seq<bool>)
      requires Shape()
      reads this
      ensures |long| == |payloads|
    {
      LongRows(View(), numCols)
    }

    constructor (numCols: nat)
      ensures Valid() && this.numCols == numCols
      ensures Dense() == System([], []) && Long() == []
    {
      values := [];
      colIndices := [];
      rowPtr := [0];
      payloads := [];
      this.numCols := numCols;
    }

    method GetVal(row: nat, col: nat) returns (v: Byte)
      requires Valid() && row < |rowPtr| - 1
      ensures v == Lookup(Entries(View(), row), col)
      ensures col < numCols ==> v == Dense().rows[row][col]
    {
      ghost var e := Entries(View(), row);
      assert GoodRow(e);
      RowFits(View(), row);
      for i := rowPtr[row] to rowPtr[row + 1]
        invariant forall j :: 0 <= j < i - rowPtr[row] ==> e[j].0 != col
      {
        assert e[i - rowPtr[row]] == (colIndices[i], values[i]);
        if colIndices[i] == col {
          LookupPresent(e, i - rowPtr[row]);
          return values[i];
        }
      }
      LookupAbsent(e, col);
      v := 0;
    }

    method RowEntries(row: nat) returns (e: seq<Entry>)
      requires Shape() && row < |rowPtr| - 1
      ensures e == Entries(View(), row)
    {
      RowFits(View(), row);
      e := [];
      for i := rowPtr[row] to rowPtr[row + 1]
        invariant e == Slice(View(), rowPtr[row], i)
      {
        e := e + [(colIndices[i], values[i])];
      }
    }

    /** Appends a dense row; columns beyond its length stay zero, and a longer row is stored whole. */
    method AppendRow(row: Vec, payload: Option<Vec>)
      requires Valid()
      modifies this
      ensures Valid()
      ensures Dense() == System(old(Dense().rows) + [Fitted(row, numCols)], old(payloads) + [payload])
      ensures Long() == old(Long()) + [TooLong(row, numCols)]
    {
      ghost var before := View();
      for col := 0 to |row|
        invariant rowPtr == before.ptr && payloads == old(payloads)
        invariant values == before.values + Values(SparseOf(row[..col]))
        invariant colIndices == before.cols + Columns(SparseOf(row[..col]))
      {
        assert row[..col + 1][..col] == row[..col];
        if row[col] != 0 {
          values := values + [row[col]];
          colIndices := colIndices + [col];
        }
      }
      assert row[..|row|] == row;
      rowPtr := rowPtr + [|values|];
      payloads := payloads + [payload];
      SparseRoundTrip(row, numCols);
      assert View() == WithNewRow(before, SparseOf(row));
      NewRowDense(before, SparseOf(row), numCols);
    }

    /** Drains the entries of a row and pulls the later row pointers back. */
    method ClearRow(row: nat)
      requires Shape() && row < |rowPtr| - 1
      modifies this
      ensures View() == WithoutRow(old(View()), row) && payloads == old(payloads)
    {
      ghost var before := View();
      RowFits(before, row);
      var start, end := rowPtr[row], rowPtr[row + 1];
      var diff := end - start;
      if diff == 0 {
        assert before.values[..start] + before.values[end..] == before.values;
        assert before.cols[..start] + before.cols[end..] == before.cols;
        assert ShiftDown(before.ptr, row, 0) == before.ptr;
        return;
      }
      values := values[..start] + values[end..];
      colIndices := colIndices[..start] + colIndices[end..];
      for i := row + 1 to |rowPtr|
        invariant values == before.values[..start] + before.values[end..]
        invariant colIndices == before.cols[..start] + before.cols[end..]
        invariant payloads == old(payloads) && |rowPtr| == |before.ptr|
        invariant forall j :: 0 <= j < |rowPtr| ==>
          rowPtr[j] == if row < j < i then before.ptr[j] - diff else before.ptr[j]
      {
        rowPtr := rowPtr[i := rowPtr[i] - diff];
      }
      assert rowPtr == ShiftDown(before.ptr, row, diff);
    }

    /** Inserts entries at the start of a row and pushes the later row pointers on. */
    method InsertRow(row: nat, entries: seq<Entry>)
      requires Shape() && row < |rowPtr| - 1
      modifies this
      ensures View() == WithEntries(old(View()), row, entries) && payloads == old(payloads)
    {
      ghost var before := View();
      RowFits(before, row);
      var start := rowPtr[row];
      var n := |entries|;
      while n > 0
        invariant 0 <= n <= |entries|
        invariant values == before.values[..start] + Values(entries[n..]) + before.values[start..]
        invariant colIndices == before.cols[..start] + Columns(entries[n..]) + before.cols[start..]
        invariant rowPtr == before.ptr && payloads == old(payloads)
      {
        n := n - 1;
        var (col, val) := entries[n];
        assert Values(entries[n..]) == [val] + Values(entries[n + 1..]);
        assert Columns(entries[n..]) == [col] + Columns(entries[n + 1..]);
        InsertInFront(before.values, start, val, Values(entries[n + 1..]));
        InsertInFront(before.cols, start, col, Columns(entries[n + 1..]));
        values := values[..start] + [val] + values[start..];
        colIndices := colIndices[..start] + [col] + colIndices[start..];
      }
      assert entries[0..] == entries;
      var diff := |entries|;
      for i := row + 1 to |rowPtr|
        invariant values == before.values[..start] + Values(entries) + before.values[start..]
        invariant colIndices == before.cols[..start] + Columns(entries) + before.cols[start..]
        invariant payloads == old(payloads) && |rowPtr| == |before.ptr|
        invariant forall j :: 0 <= j < |rowPtr| ==>
          rowPtr[j] == if row < j < i then before.ptr[j] + diff else before.ptr[j]
      {
        rowPtr := rowPtr[i := rowPtr[i] + diff];
      }
      assert rowPtr == ShiftUp(before.ptr, row, diff);
    }

    method SwapRows(r1: nat, r2: nat)
      requires Valid() && r1 < |rowPtr| - 1 && r2 < |rowPtr| - 1
      modifies this
      ensures Valid() && Dense() == Apply(old(Dense()), Swap(r1, r2))
      ensures Long() == SwapAt(old(Long()), r1, r2)
    {
      hide Entries;
      hide GoodRow;
      hide WithoutRow;
      hide WithEntries;
      hide Shaped;
      if r1 == r2 {
        return;
      }
      ghost var before := View();
      var row1 := RowEntries(r1);
      var row2 := RowEntries(r2);
      var hi, lo, hiRow, loRow := r2, r1, row2, row1;
      if r1 > r2 {
        hi, lo, hiRow, loRow := r1, r2, row1, row2;
      }
      WithoutRowShaped(before, hi);
      ClearRow(hi);
      WithoutRowShaped(View(), lo);
      ClearRow(lo);
      WithEntriesShaped(View(), hi, loRow);
      InsertRow(hi, loRow);
      InsertRow(lo, hiRow);
      payloads := SwapAt(payloads, r1, r2);
      assert View() == Exchanged(before, hi, lo);
      ExchangedDense(before, numCols, hi, lo);
      assert SwapAt(DenseRows(before, numCols), hi, lo) == SwapAt(DenseRows(before, numCols), r1, r2);
      assert SwapAt(LongRows(before, numCols), hi, lo) == SwapAt(LongRows(before, numCols), r1, r2);
    }

    /** Multiplies the entries and the payload of a row by a nonzero factor. */
    method ScaleRow(row: nat, factor: Byte)
      requires Valid() && row < |rowPtr| - 1 && factor != 0
      modifies this
      ensures Valid() && Dense() == Apply(old(Dense()), Scale(row, factor)) && Long() == old(Long())
    {
      hide Mul;
      ghost var before := View();
      RowFits(before, row);
      for i := rowPtr[row] to rowPtr[row + 1]
        invariant colIndices == before.cols && rowPtr == before.ptr && payloads == old(payloads)
        invariant |values| == |before.values|
        invariant forall j :: 0 <= j < |values| ==>
          values[j] == if rowPtr[row] <= j < i then Mul(before.values[j], factor) else before.values[j]
      {
        values := values[i := Mul(values[i], factor)];
      }
      ghost var after := View();
      if payloads[row].Some? {
        var p := payloads[row].value;
        for j := 0 to |p|
          invariant View() == after && payloads == old(payloads)
          invariant |p| == |payloads[row].value|
          invariant forall m :: 0 <= m < |p| ==>
            p[m] == if m < j then Mul(payloads[row].value[m], factor) else payloads[row].value[m]
        {
          p := p[j := Mul(p[j], factor)];
        }
        ScaledBlock(payloads[row].value, p, factor);
        payloads := payloads[row := Some(p)];
      }
      ScaledDense(before, after, numCols, row, factor);
      assert payloads == old(payloads)[row := ScalePayload(old(payloads)[row], factor)];
    }

    /** Scatters the entries of a row; an entry beyond the columns is out of bounds. */
    method ScatterRow(row: nat) returns (dense: Vec, inBounds: bool)
      requires Valid() && row < |rowPtr| - 1
      ensures inBounds == !Long()[row]
      ensures inBounds ==> dense == Dense().rows[row]
    {
      var e := RowEntries(row);
      assert GoodRow(e);
      dense := seq(numCols, _ => 0);
      for i := 0 to |e|
        invariant |dense| == numCols && dense == DenseOf(e[..i], numCols)
        invariant i > 0 ==> e[i - 1].0 < numCols
      {
        if e[i].0 >= numCols {
          assert e[i].0 <= e[|e| - 1].0;
          return dense, false;
        }
        assert e[..i + 1][..i] == e[..i];
        dense := dense[e[i].0 := e[i].1];
      }
      assert e[..|e|] == e;
      inBounds := true;
    }

    /** The dense sum of a row and a multiple of another, unless one of them is out of bounds. */
    method MergedRow(target: nat, source: nat, factor: Byte) returns (dense: Vec, inBounds: bool)
      requires Valid() && target < |rowPtr| - 1 && source < |rowPtr| - 1
      ensures inBounds == (!Long()[target] && !Long()[source])
      ensures inBounds ==> dense == VAdd(Dense().rows[target], VScale(factor, Dense().rows[source]))
    {
      hide Mul;
      hide Add;
      dense, inBounds := ScatterRow(target);
      if !inBounds {
        return;
      }
      var se := RowEntries(source);
      assert GoodRow(se);
      ghost var t := dense;
      AddZeroEach(t);
      for i := 0 to |se|
        invariant |dense| == numCols && dense == VAdd(t, VScale(factor, DenseOf(se[..i], numCols)))
        invariant i > 0 ==> se[i - 1].0 < numCols
      {
        if se[i].0 >= numCols {
          assert se[i].0 <= se[|se| - 1].0;
          return dense, false;
        }
        MergeStep(t, se, factor, numCols, i, dense);
        dense := dense[se[i].0 := Add(dense[se[i].0], Mul(se[i].1, factor))];
      }
      assert se[..|se|] == se;
    }

    /** Adds `factor` times the source row to the target row, payload included, unless it is out of bounds. */
    method AddScaledRow(target: nat, source: nat, factor: Byte) returns (inBounds: bool)
      requires Valid() && target < |rowPtr| - 1 && source < |rowPtr| - 1 && target != source
      modifies this
      ensures Valid() && Long() == old(Long()) && inBounds == (!Long()[target] && !Long()[source])
      ensures Dense() == if inBounds then Apply(old(Dense()), AddScaled(target, source, factor)) else old(Dense())
    {
      hide Entries;
      hide GoodRow;
      hide WithoutRow;
      hide WithEntries;
      hide Shaped;
      ghost var before := View();
      var dense;
      dense, inBounds := MergedRow(target, source, factor);
      if !inBounds {
        return;
      }
      WithoutRowShaped(before, target);
      ClearRow(target);
      var entries := NonZeroEntries(dense);
      InsertRow(target, entries);
      SparseRoundTrip(dense, numCols);
      assert Fitted(dense, numCols) == dense && !TooLong(dense, numCols);
      assert View() == Replaced(before, target, entries);
      ReplacedDense(before, numCols, target, entries);
      if payloads[source].Some? && payloads[target].Some? {
        var p := AddScaledBytes(payloads[target].value, payloads[source].value, factor);
        payloads := payloads[target := Some(p)];
      }
      assert payloads == old(payloads)[target := AddPayload(old(payloads)[target], old(payloads)[source], factor)];
    }
  }

  lemma AddZeroEach(t: Vec)
    ensures forall factor: Byte :: VAdd(t, VScale(factor, DenseOf([], |t|))) == t
  {
    hide Mul;
    hide Add;
    forall factor: Byte
      ensures VAdd(t, VScale(factor, DenseOf([], |t|))) == t
    {
      MulZero(factor);
      forall c | 0 <= c < |t|
        ensures VAdd(t, VScale(factor, DenseOf([], |t|)))[c] == t[c]
      {
        AddZero(t[c]);
      }
    }
  }

  lemma MergeStep(t: Vec, se: seq<Entry>, factor: Byte, width: nat, i: nat, dense: Vec)
    requires |t| == width && GoodRow(se) && i < |se| && se[i].0 < width
    requires dense == VAdd(t, VScale(factor, DenseOf(se[..i], width)))
    ensures VAdd(t, VScale(factor, DenseOf(se[..i + 1], width)))
         == dense[se[i].0 := Add(dense[se[i].0], Mul(se[i].1, factor))]
  {
    hide Mul;
    hide Add;
    var col := se[i].0;
    var next := VAdd(t, VScale(factor, DenseOf(se[..i + 1], width)));
    assert se[..i + 1][..i] == se[..i];
    LookupAbsent(se[..i], col);
    MulZero(factor);
    AddZero(t[col]);
    MulComm(factor, se[i].1);
    assert next[col] == Add(dense[col], Mul(se[i].1, factor));
    forall c | 0 <= c < width && c != col
      ensures next[c] == dense[c]
    {
    }
  }

  method NonZeroEntries(dense: Vec) returns (e: seq<Entry>)
    ensures e == SparseOf(dense)
  {
    e := [];
    for c := 0 to |dense|
      invariant e == SparseOf(dense[..c])
    {
      assert dense[..c + 1][..c] == dense[..c];
      if dense[c] != 0 {
        e := e + [(c, dense[c])];
      }
    }
    assert dense[..|dense|] == dense;
  }

  /** The payload loop, unrolled by four, over the shorter of the two blocks. */
  method AddScaledBytes(target: Vec, source: Vec, factor: Byte) returns (t: Vec)
    ensures t == AddBlock(target, source, factor)
  {
    hide Mul;
    hide Add;
    t := target;
    var max := if |t| <= |source| then |t| else |source|;
    var i := 0;
    while i + 4 <= max
      invariant 0 <= i <= max && |t| == |target|
      invariant AddedTo(target, source, factor, t, i)
    {
      t := t[i := Add(Mul(factor, source[i]), t[i])];
      t := t[i + 1 := Add(Mul(factor, source[i + 1]), t[i + 1])];
      t := t[i + 2 := Add(Mul(factor, source[i + 2]), t[i + 2])];
      t := t[i + 3 := Add(Mul(factor, source[i + 3]), t[i + 3])];
      i := i + 4;
    }
    while i < max
      invariant 0 <= i <= max && |t| == |target|
      invariant AddedTo(target, source, factor, t, i)
    {
      t := t[i := Add(Mul(factor, source[i]), t[i])];
      i := i + 1;
    }
  }

  ghost predicate AddedTo(target: Vec, source: Vec, factor: Byte, t: Vec, n: nat)
    requires |t| == |target| && n <= |source|
  {
    forall j :: 0 <= j < |t| ==> t[j] == if j < n then Add(Mul(factor, source[j]), target[j]) else target[j]
  }

  lemma ScaledBlock(p: Vec, q: Vec, factor: Byte)
    requires |p| == |q| && forall m :: 0 <= m < |p| ==> q[m] == Mul(p[m], factor)
    ensures q == VScale(factor, p)
  {
    hide Mul;
    forall m | 0 <= m < |p|
      ensures q[m] == VScale(factor, p)[m]
    {
      MulComm(p[m], factor);
    }
  }

  lemma ScaledDense(l: Layout, l': Layout, width: nat, row: nat, factor: Byte)
    requires GoodLayout(l) && row < NumRows(l) && factor != 0
    requires l'.cols == l.cols && l'.ptr == l.ptr && |l'.values| == |l.values|
    requires forall i :: 0 <= i < |l.values| ==>
      l'.values[i] == if l.ptr[row] <= i < l.ptr[row + 1] then Mul(l.values[i], factor) else l.values[i]
    ensures GoodLayout(l')
    ensures DenseRows(l', width) == DenseRows(l, width)[row := VScale(factor, DenseRows(l, width)[row])]
    ensures LongRows(l', width) == LongRows(l, width)
  {
    hide Mul;
    hide GoodRow;
    forall q | 0 <= q < NumRows(l)
      ensures Shaped(l') && NumRows(l') == NumRows(l)
      ensures Entries(l', q) == if q == row then ScaleEntries(Entries(l, q), factor) else Entries(l, q)
    {
      ScaledEntries(l, l', row, factor, q);
    }
    hide Entries;
    ScaledRow(Entries(l, row), factor, width);
    ReplaceRow(l, l', width, row, ScaleEntries(Entries(l, row), factor));
  }

  lemma InsertInFront<T>(s: seq<T>, start: nat, x: T, mid: seq<T>)
    requires start <= |s|
    ensures
      var t := s[..start] + mid + s[start..];
      t[..start] + [x] + t[start..] == s[..start] + ([x] + mid) + s[start..]
  {
  }
}
