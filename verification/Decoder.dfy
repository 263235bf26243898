/**
The decoder: it collects coefficient rows until it has k of them and then
eliminates. `Accept` is the decoder's step as a function of its state; the
class works in place on the sparse matrix and is proved to take exactly that
step.
 */
module Decoding {
  import opened Field
  import opened Options
  import opened LinearAlgebra
  import opened Elimination
  import opened Gauss
  import opened Csr
  import opened CsrMatrices

  /** A packet as the codec sees it; `data` and `coefficients` are whole pool blocks. */
  datatype Packet = Packet(
    id: nat,
    data: Option<Vec>,
    len: nat,
    isSystematic: bool,
    coefficients: Option<Vec>,
    coeffLen: nat
  )

  datatype Result<+T> = Ok(value: T) | Err(error: string)

  datatype State = State(
    k: nat,
    blockSize: nat,
    system: System,
    slots: seq<Option<Packet>>,
    decoded: bool
  )

  ghost predicate ValidState(st: State) {
    && WellFormed(st.system, st.k)
    && |st.system.rows| <= st.k
    && |st.slots| == st.k
    && PayloadsFit(st.system.payloads, st.blockSize)
  }

  ghost predicate PayloadsFit(payloads: seq<Option<Vec>>, bound: nat) {
    forall r :: 0 <= r < |payloads| && payloads[r].Some? ==> |payloads[r].value| <= bound
  }

  function Fresh(k: nat, blockSize: nat): (st: State)
    ensures ValidState(st)
  {
    State(k, blockSize, System([], []), seq(k, _ => None), false)
  }

  // ----- The step as a function -----

  function RecoveredPacket(i: nat, p: Vec, blockSize: nat): Packet
    requires |p| <= blockSize
  {
    Packet(i, Some(Padded(p, blockSize)), |p|, true, None, 0)
  }

  function FillSlot(i: nat, slot: Option<Packet>, payload: Option<Vec>, blockSize: nat): Option<Packet>
    requires payload.Some? ==> |payload.value| <= blockSize
  {
    if slot.None? && payload.Some? then Some(RecoveredPacket(i, payload.value, blockSize)) else slot
  }

  function FillSlots(slots: seq<Option<Packet>>, payloads: seq<Option<Vec>>, blockSize: nat): (filled: seq<Option<Packet>>)
    requires |slots| == |payloads| && PayloadsFit(payloads, blockSize)
    ensures |filled| == |slots|
  {
    seq(|slots|, i requires 0 <= i < |slots| => FillSlot(i, slots[i], payloads[i], blockSize))
  }

  lemma ApplyFits(s: System, op: RowOp, k: nat, bound: nat)
    requires WellFormed(s, k) && ValidOp(|s.rows|, op) && PayloadsFit(s.payloads, bound)
    ensures PayloadsFit(Apply(s, op).payloads, bound)
  {
  }

  lemma {:induction false} RunFits(s: System, k: nat, ops: seq<RowOp>, bound: nat)
    requires WellFormed(s, k) && ValidOps(|s.rows|, ops) && PayloadsFit(s.payloads, bound)
    ensures PayloadsFit(Run(s, k, ops).payloads, bound)
    decreases |ops|
  {
    hide Apply;
    hide PayloadsFit;
    if |ops| > 0 {
      ApplyShape(s, k, ops[0]);
      ApplyFits(s, ops[0], k, bound);
      RunFits(Apply(s, ops[0]), k, ops[1..], bound);
    }
  }

  /** Payload lengths survive elimination. */
  lemma EliminateFits(s: System, k: nat, bound: nat)
    requires WellFormed(s, k) && k == |s.rows| && PayloadsFit(s.payloads, bound)
    ensures PayloadsFit(Eliminate(s, k).0.payloads, bound)
  {
    hide Eliminate;
    hide Run;
    EliminationDecides(s, k);
    var ops :| ValidOps(|s.rows|, ops) && Run(s, k, ops) == Eliminate(s, k).0;
    RunFits(s, k, ops, bound);
  }

  function TryDecode(st: State): (result: (State, bool))
    requires ValidState(st)
    ensures ValidState(result.0)
  {
    if st.decoded then (st, true)
    else if |st.system.rows| < st.k then (st, false)
    else
      var (t, ok) := Eliminate(st.system, st.k);
      EliminateFits(st.system, st.k, st.blockSize);
      if !ok then (st.(system := t), false)
      else
        (st.(system := t, slots := FillSlots(st.slots, t.payloads, st.blockSize), decoded := true), true)
  }

  lemma DecodeKeepsRows(st: State)
    requires ValidState(st)
    ensures |TryDecode(st).0.system.rows| == |st.system.rows|
    ensures |st.system.rows| < st.k ==> TryDecode(st).0 == st
  {
  }

  /** The decoder takes no more rows. */
  predicate Closed(st: State) {
    st.decoded || |st.system.rows| >= st.k
  }

  /** A repair packet that fits the decoder: its coefficients the matrix, its payload a block. */
  predicate Admissible(st: State, p: Packet) {
    !Closed(st) && !p.isSystematic && p.coefficients.Some? ==>
      && p.coeffLen <= |p.coefficients.value|
      && p.coeffLen <= st.k
      && (p.data.Some? ==> |p.data.value| <= st.blockSize)
  }

  function AppendedRow(st: State, row: Vec, payload: Option<Vec>): (t: State)
    requires ValidState(st) && !Closed(st) && |row| <= st.k
    requires payload.Some? ==> |payload.value| <= st.blockSize
    ensures ValidState(t)
  {
    st.(system := System(st.system.rows + [Padded(row, st.k)], st.system.payloads + [payload]))
  }

  function Accept(st: State, p: Packet): (result: (State, Result<bool>))
    requires ValidState(st) && Admissible(st, p)
    ensures ValidState(result.0)
  {
    if Closed(st) then (st, Ok(st.decoded))
    else if p.isSystematic then
      var index := p.id % st.k;
      if st.slots[index].Some? then (st, Ok(st.decoded)) else
        var filled := st.(slots := st.slots[index := Some(p)]);
        var (t, ok) := TryDecode(AppendedRow(filled, Unit(st.k, index), None));
        (t, Ok(ok))
    else if p.coefficients.Some? then
      var (t, ok) := TryDecode(AppendedRow(st, p.coefficients.value[..p.coeffLen], p.data));
      (t, Ok(ok))
    else (st, Err("Repair packet missing coefficients."))
  }

  // ----- Packets with more coefficients than the matrix has columns -----

  /** What the code needs of a repair packet: its coefficients are there, its payload fits a block. */
  predicate Storable(p: Packet, blockSize: nat) {
    !p.isSystematic && p.coefficients.Some? ==>
      p.coeffLen <= |p.coefficients.value| && (p.data.Some? ==> |p.data.value| <= blockSize)
  }

  /** The packet as far as the matrix has columns for it. */
  function Clipped(p: Packet, k: nat): Packet {
    if !p.isSystematic && p.coeffLen > k then p.(coeffLen := k) else p
  }

  /** Whether a packet adds a row. */
  predicate Adds(st: State, p: Packet)
    requires |st.slots| == st.k
  {
    !Closed(st) && if p.isSystematic then st.slots[p.id % st.k].None? else p.coefficients.Some?
  }

  /** Whether the row of a packet has entries beyond the matrix. */
  predicate LongPacket(p: Packet, k: nat) {
    !p.isSystematic && p.coefficients.Some? && p.coeffLen <= |p.coefficients.value|
    && TooLong(p.coefficients.value[..p.coeffLen], k)
  }

  function LongAfter(st: State, long: seq<bool>, p: Packet): seq<bool>
    requires |st.slots| == st.k
  {
    if Adds(st, p) then long + [LongPacket(p, st.k)] else long
  }

  /** The system with the row of a packet added. */
  function Extended(st: State, p: Packet): (s: System)
    requires ValidState(st) && Storable(p, st.blockSize) && Adds(st, p)
    ensures WellFormed(s, st.k)
  {
    if p.isSystematic then System(st.system.rows + [Unit(st.k, p.id % st.k)], st.system.payloads + [None])
    else System(st.system.rows + [Fitted(p.coefficients.value[..p.coeffLen], st.k)], st.system.payloads + [p.data])
  }

  /** The packet brings the last row, and the elimination that follows indexes past the columns. */
  predicate Crashes(st: State, long: seq<bool>, p: Packet)
    requires ValidState(st) && Storable(p, st.blockSize) && |long| == |st.system.rows|
  {
    Adds(st, p) && |st.system.rows| + 1 == st.k && RunsOut(Extended(st, p), LongAfter(st, long, p), st.k, 0)
  }

  /** The answer to a packet: a result, or a panic on an index beyond the columns. */
  datatype Answer = Told(result: Result<bool>) | OutOfBounds

  // ----- The decoder in place -----

  class Decoder {
    const k: nat
    const blockSize: nat
    const matrix: CsrMatrix
    var systematicPackets: seq<Option<Packet>>
    var isDecoded: bool
    /** Which rows were added with entries beyond the matrix. */
    ghost var long: seq<bool>

    ghost predicate Valid()
      reads this, matrix
    {
      && MatrixValid() && ValidState(StateView()) && |long| == |matrix.Dense().rows|
      && (!Closed(StateView()) ==> matrix.Long() == long)
    }

    ghost predicate MatrixValid()
      reads this, matrix
    {
      matrix.Valid() && matrix.numCols == k
    }

    ghost function StateView(): State
      requires matrix.Shape()
      reads this, matrix
    {
      State(k, blockSize, matrix.Dense(), systematicPackets, isDecoded)
    }

    constructor (k: nat, blockSize: nat)
      requires k <= 256
      ensures Valid() && fresh(matrix) && StateView() == Fresh(k, blockSize) && long == []
    {
      this.k := k;
      this.blockSize := blockSize;
      matrix := new CsrMatrix(k);
      systematicPackets := seq(k, _ => None);
      isDecoded := false;
      long := [];
    }

    method FindPivotRow(i: nat) returns (p: nat)
      requires MatrixValid() && i < k <= |matrix.Dense().rows|
      ensures p == FindPivot(matrix.Dense().rows, i, i)
    {
      hide DenseRows;
      p := i;
      var n := |matrix.rowPtr| - 1;
      while p < n
        invariant i <= p <= n
        invariant FindPivot(matrix.Dense().rows, i, p) == FindPivot(matrix.Dense().rows, i, i)
      {
        var v := matrix.GetVal(p, i);
        if v != 0 {
          return;
        }
        p := p + 1;
      }
    }

    /** Clears column `i` in every row but the pivot row. */
    method ClearColumn(i: nat) returns (inBounds: bool)
      requires MatrixValid() && i < k <= |matrix.Dense().rows|
      modifies matrix
      ensures matrix.Valid() && matrix.Long() == old(matrix.Long())
      ensures inBounds == !ClearRunsOut(old(matrix.Dense()), old(matrix.Long()), k, i, 0)
      ensures inBounds ==> matrix.Dense() == ClearFrom(old(matrix.Dense()), k, i, 0)
    {
      hide DenseRows, LongRows, GoodLayout, Apply;
      var n := |matrix.rowPtr| - 1;
      ghost var goal := ClearFrom(matrix.Dense(), k, i, 0);
      ghost var out := ClearRunsOut(matrix.Dense(), matrix.Long(), k, i, 0);
      for r := 0 to n
        invariant matrix.Valid() && matrix.numCols == k && |matrix.rowPtr| - 1 == n && matrix.Long() == old(matrix.Long())
        invariant ClearFrom(matrix.Dense(), k, i, r) == goal
        invariant ClearRunsOut(matrix.Dense(), matrix.Long(), k, i, r) == out
      {
        if r != i {
          var factor := matrix.GetVal(r, i);
          if factor != 0 {
            ApplyShape(matrix.Dense(), k, AddScaled(r, i, factor));
            inBounds := matrix.AddScaledRow(r, i, factor);
            if !inBounds {
              return;
            }
          }
        }
      }
      inBounds := true;
    }

    /** Sparse Gauss-Jordan elimination; fills the missing slots when it succeeds. */
    method GaussianElimination() returns (ok: bool, inBounds: bool)
      requires MatrixValid() && ValidState(StateView()) && !isDecoded && |matrix.Dense().rows| == k
      modifies this`systematicPackets, this`isDecoded, matrix
      ensures inBounds == !RunsOut(old(matrix.Dense()), old(matrix.Long()), k, 0)
      ensures inBounds ==> MatrixValid() && (StateView(), ok) == TryDecode(old(StateView()))
    {
      hide DenseRows, LongRows, GoodLayout, ClearFrom, ClearRunsOut, Normalised, FillSlots, FindPivot;
      ghost var start := matrix.Dense();
      ghost var goal := ElimFrom(start, k, 0, 0);
      ghost var out := RunsOut(start, matrix.Long(), k, 0);
      var rank := 0;
      for i := 0 to k
        invariant MatrixValid() && |matrix.Dense().rows| == k
        invariant unchanged(this)
        invariant rank <= i
        invariant ElimFrom(matrix.Dense(), k, i, rank) == goal
        invariant RunsOut(matrix.Dense(), matrix.Long(), k, i) == out
      {
        var p := FindPivotRow(i);
        if p < |matrix.rowPtr| - 1 {
          inBounds := Pivot(i, p);
          if !inBounds {
            return false, false;
          }
          rank := rank + 1;
          if rank == k {
            break;
          }
        }
      }
      EliminateFits(start, k, blockSize);
      if rank < k {
        return false, true;
      }
      isDecoded := true;
      RecoverSlots();
      return true, true;
    }

    method Pivot(i: nat, p: nat) returns (inBounds: bool)
      requires MatrixValid() && |matrix.Dense().rows| == k && i < k && i <= p < k
      requires matrix.Dense().rows[p][i] != 0
      modifies matrix
      ensures matrix.Valid() && matrix.Long() == SwapAt(old(matrix.Long()), i, p)
      ensures inBounds ==
        !ClearRunsOut(Normalised(old(matrix.Dense()), k, i, p), SwapAt(old(matrix.Long()), i, p), k, i, 0)
      ensures inBounds ==> matrix.Dense() == ClearFrom(Normalised(old(matrix.Dense()), k, i, p), k, i, 0)
    {
      hide DenseRows, LongRows, GoodLayout, ClearFrom, ClearRunsOut, Inv;
      MulInv(matrix.Dense().rows[p][i]);
      matrix.SwapRows(i, p);
      var pivot := matrix.GetVal(i, i);
      matrix.ScaleRow(i, Inv(pivot));
      inBounds := ClearColumn(i);
    }

    /** Rebuilds the packets of the slots that were not received. */
    method RecoverSlots()
      requires matrix.Shape() && matrix.numCols == k && |matrix.payloads| == k == |systematicPackets|
      requires PayloadsFit(matrix.payloads, blockSize)
      modifies this`systematicPackets
      ensures systematicPackets == FillSlots(old(systematicPackets), matrix.payloads, blockSize)
    {
      ghost var before := systematicPackets;
      for i := 0 to k
        invariant |systematicPackets| == k
        invariant forall j :: 0 <= j < k ==>
          systematicPackets[j] == if j < i then FillSlot(j, before[j], matrix.payloads[j], blockSize) else before[j]
      {
        if systematicPackets[i].None? {
          if matrix.payloads[i].Some? {
            var payload := matrix.payloads[i].value;
            var block := seq(blockSize, _ => 0);
            block := payload + block[|payload|..];
            assert block == Padded(payload, blockSize);
            systematicPackets := systematicPackets[i := Some(Packet(i, Some(block), |payload|, true, None, 0))];
          }
        }
      }
    }

    method TryDecodeNow() returns (ok: bool, inBounds: bool)
      requires MatrixValid() && ValidState(StateView())
      modifies this`systematicPackets, this`isDecoded, matrix
      ensures inBounds == (old(isDecoded) || |old(matrix.Dense()).rows| < k
                           || !RunsOut(old(matrix.Dense()), old(matrix.Long()), k, 0))
      ensures inBounds ==> MatrixValid() && (StateView(), ok) == TryDecode(old(StateView()))
      ensures inBounds && !Closed(old(StateView())) ==> matrix.Long() == old(matrix.Long())
    {
      hide RunsOut;
      if isDecoded {
        return true, true;
      }
      if |matrix.rowPtr| - 1 < k {
        return false, true;
      }
      ok, inBounds := GaussianElimination();
    }

    /** Appends a row, of whatever length, and decodes once there are k rows. */
    method AddRow(row: Vec, payload: Option<Vec>) returns (answer: Answer)
      requires Valid() && !Closed(StateView()) && (payload.Some? ==> |payload.value| <= blockSize)
      modifies this`systematicPackets, this`isDecoded, this`long, matrix
      ensures
        var s := System(old(matrix.Dense().rows) + [Fitted(row, k)], old(matrix.Dense().payloads) + [payload]);
        var flags := old(long) + [TooLong(row, k)];
        && (answer.OutOfBounds? <==> |s.rows| == k && RunsOut(s, flags, k, 0))
        && (answer.Told? ==>
              && Valid() && long == flags && answer.result.Ok? && ValidState(old(StateView()).(system := s))
              && (StateView(), answer.result.value) == TryDecode(old(StateView()).(system := s)))
    {
      hide DenseRows, LongRows, GoodLayout, TryDecode, RunsOut, Fitted, TooLong;
      matrix.AppendRow(row, payload);
      long := long + [TooLong(row, k)];
      DecodeKeepsRows(StateView());
      var ok, inBounds := TryDecodeNow();
      answer := if inBounds then Told(Ok(ok)) else OutOfBounds;
    }

    /**
    Adds a packet. A repair packet may have more coefficients than the matrix
    has columns: it is stored, and once k rows are in, elimination may index past
    the columns.
     */
    method AddPacket(packet: Packet) returns (answer: Answer)
      requires Valid() && Storable(packet, blockSize)
      modifies this, matrix
      ensures answer.OutOfBounds? <==> Crashes(old(StateView()), old(long), packet)
      ensures answer.Told? ==>
        && Valid() && (StateView(), answer.result) == Accept(old(StateView()), Clipped(packet, k))
        && long == LongAfter(old(StateView()), old(long), packet)
    {
      hide DenseRows, LongRows, GoodLayout, TryDecode, RunsOut;
      ghost var before := StateView();
      if isDecoded || |matrix.rowPtr| - 1 >= k {
        return Told(Ok(isDecoded));
      }
      if packet.isSystematic {
        var index := packet.id % k;
        var identityRow := seq(k, _ => 0);
        identityRow := identityRow[index := 1];
        assert identityRow == Unit(k, index);
        if systematicPackets[index].None? {
          systematicPackets := systematicPackets[index := Some(packet)];
        } else {
          return Told(Ok(isDecoded));
        }
        assert !TooLong(identityRow, k) && Fitted(identityRow, k) == identityRow == Padded(identityRow, k);
        answer := AddRow(identityRow, None);
      } else if packet.coefficients.Some? {
        var row := packet.coefficients.value[..packet.coeffLen];
        assert Fitted(row, k) == Padded(packet.coefficients.value[..Clipped(packet, k).coeffLen], k);
        answer := AddRow(row, packet.data);
      } else {
        return Told(Err("Repair packet missing coefficients."));
      }
    }

    /** Hands out every packet held in a slot and empties the slots. */
    method GetDecodedPackets() returns (out: seq<Packet>)
      requires Valid()
      modifies this`systematicPackets
      ensures Valid() && systematicPackets == seq(k, _ => None) && long == old(long)
      ensures out == Present(old(systematicPackets))
      ensures exists places :: InSlotOrder(old(systematicPackets), out, places)
    {
      out := [];
      for i := 0 to k
        invariant |systematicPackets| == k
        invariant forall j :: 0 <= j < k ==>
          systematicPackets[j] == if j < i then None else old(systematicPackets)[j]
        invariant out == Present(old(systematicPackets)[..i])
      {
        assert old(systematicPackets)[..i + 1][..i] == old(systematicPackets)[..i];
        if systematicPackets[i].Some? {
          out := out + [systematicPackets[i].value];
          systematicPackets := systematicPackets[i := None];
        }
      }
      assert old(systematicPackets)[..k] == old(systematicPackets);
      ghost var places := PresentInOrder(old(systematicPackets));
    }
  }

  /** The packets present in the slots, in slot order. */
  function Present(slots: seq<Option<Packet>>): seq<Packet> {
    if |slots| == 0 then [] else
      var n := |slots| - 1;
      Present(slots[..n]) + if slots[n].Some? then [slots[n].value] else []
  }

  /** `out` is what the slots hold, in slot order: the slots at the strictly increasing `places`, which are all filled ones. */
  ghost predicate InSlotOrder(slots: seq<Option<Packet>>, out: seq<Packet>, places: seq<nat>) {
    && |places| == |out|
    && (forall j :: 0 <= j < |places| ==> places[j] < |slots| && slots[places[j]] == Some(out[j]))
    && (forall i, j :: 0 <= i < j < |places| ==> places[i] < places[j])
    && (forall i: nat :: i < |slots| && slots[i].Some? ==> i in places)
  }

  /** Every packet in a slot is handed out exactly once, in slot order, and nothing else is. */
  lemma {:induction false} PresentInOrder(slots: seq<Option<Packet>>) returns (places: seq<nat>)
    ensures InSlotOrder(slots, Present(slots), places)
  {
    if |slots| == 0 {
      places := [];
    } else {
      hide InSlotOrder;
      var n := |slots| - 1;
      var before := PresentInOrder(slots[..n]);
      OneMoreSlot(slots, Present(slots[..n]), before);
      places := before + if slots[n].Some? then [n] else [];
    }
  }

  lemma OneMoreSlot(slots: seq<Option<Packet>>, out: seq<Packet>, places: seq<nat>)
    requires |slots| > 0 && InSlotOrder(slots[..|slots| - 1], out, places)
    ensures
      var n := |slots| - 1;
      if slots[n].Some? then InSlotOrder(slots, out + [slots[n].value], places + [n])
      else InSlotOrder(slots, out + [], places + [])
  {
    var n := |slots| - 1;
    forall i: nat | i < |slots| && slots[i].Some?
      ensures i in places + if slots[n].Some? then [n] else []
    {
      if i < n {
        assert slots[..n][i] == slots[i];
      }
    }
  }

  /** When every slot is filled, the output is slot by slot. */
  lemma {:induction false} PresentAll(slots: seq<Option<Packet>>)
    requires forall i :: 0 <= i < |slots| ==> slots[i].Some?
    ensures |Present(slots)| == |slots| && forall i :: 0 <= i < |slots| ==> slots[i] == Some(Present(slots)[i])
  {
    if |slots| > 0 {
      PresentAll(slots[..|slots| - 1]);
    }
  }
}
