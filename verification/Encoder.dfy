/**
The encoder: a sliding window of the last k source packets, and repair packets
that combine the window with a row of the Cauchy matrix. The closing theorem is
the round trip through the decoder.
 */
module Encoding {
  import opened Basics
  import opened Field
  import opened Options
  import opened LinearAlgebra
  import opened Elimination
  import opened Cauchy
  import opened CsrMatrices
  import opened Decoding
  import opened DecoderRuns
  import opened Recovery
  import opened DataRecovery

  // ----- The window -----

  function Push(window: seq<Packet>, k: nat, p: Packet): seq<Packet> {
    (if |window| == k && k > 0 then window[1..] else window) + [p]
  }

  function PushAll(k: nat, pkts: seq<Packet>): seq<Packet>
    decreases |pkts|
  {
    if |pkts| == 0 then [] else
      var n := |pkts| - 1;
      Push(PushAll(k, pkts[..n]), k, pkts[n])
  }

  /** The window holds the last k packets; with k = 0 nothing is ever dropped. */
  lemma {:induction false} WindowIsLastK(k: nat, pkts: seq<Packet>)
    ensures PushAll(k, pkts) == if k == 0 || |pkts| <= k then pkts else pkts[|pkts| - k..]
    decreases |pkts|
  {
    if |pkts| > 0 {
      var n := |pkts| - 1;
      var before, last := pkts[..n], [pkts[n]];
      WindowIsLastK(k, before);
      assert pkts == before + last;
      if 0 < k <= n {
        assert before[n - k..] == [before[n - k]] + before[n - k + 1..];
        assert pkts[n + 1 - k..] == before[n + 1 - k..] + last;
      }
    }
  }

  // ----- Window positions and decoder slots -----

  /**
  The encoder numbers source packets by window position, the decoder by id
  modulo k. For consecutive ids the two agree exactly when the window starts at
  a multiple of k.
   */
  lemma SlotsAligned(window: seq<Packet>, k: nat)
    requires |window| == k > 0 && forall i :: 0 <= i < k ==> window[i].id == window[0].id + i
    ensures (forall i :: 0 <= i < k ==> window[i].id % k == i) <==> window[0].id % k == 0
  {
    var first := window[0].id;
    if first % k == 0 {
      forall i | 0 <= i < k
        ensures window[i].id % k == i
      {
        assert first == (first / k) * k;
        QuotientOf(first + i, k, first / k, i);
      }
    } else {
      assert window[0].id % k != 0;
    }
  }

  // ----- Coefficients -----

  /** The row parameter of a repair index, as an unsigned byte. */
  function Param(k: nat, index: nat): Byte {
    (k + index) % 256
  }

  /** No coefficient of the row asks for the inverse of zero. */
  ghost predicate Invertible(k: nat, index: nat) {
    forall i: nat :: i < k ==> ByteOf(i) != Param(k, index)
  }

  function ByteOf(i: nat): Byte {
    i % 256
  }

  /** A row can be generated exactly when its parameter lies outside the source indices. */
  lemma InvertibleIff(k: nat, index: nat)
    ensures Invertible(k, index) <==> k <= Param(k, index) || k == 0
  {
    var y: nat := Param(k, index);
    if y < k {
      assert ByteOf(y) == y;
    }
  }

  function RepairKind(k: nat, index: nat): RowKind {
    Repair(Param(k, index))
  }

  /** Rows of different indices coincide only when the indices wrap around the byte. */
  lemma DistinctParams(k: nat, i: nat, j: nat)
    ensures Param(k, i) == Param(k, j) <==> i % 256 == j % 256
  {
    ParamValue(k, i);
    ParamValue(k, j);
    hide Param;
  }

  lemma ParamValue(k: nat, i: nat)
    ensures
      var r := k % 256 + i % 256;
      Param(k, i) == if r < 256 then r else r - 256
  {
    var q, r := k / 256 + i / 256, k % 256 + i % 256;
    assert k + i == 256 * q + r;
  }

  // ----- Repair packets -----

  /** A source packet the encoder can combine: its first `len` bytes are there. */
  predicate Combinable(p: Packet, len: nat) {
    p.data.Some? && len <= p.len <= |p.data.value|
  }

  ghost predicate Ready(window: seq<Packet>, k: nat, blockSize: nat) {
    && |window| == k > 0
    && k <= blockSize
    && window[0].len <= blockSize
    && forall i :: 0 <= i < k ==> Combinable(window[i], window[0].len)
  }

  /** The source block of a packet: its first `len` bytes, zero-padded to the pool's block. */
  function SourceBlock(p: Packet, len: nat, blockSize: nat): (b: Vec)
    requires Combinable(p, len) && len <= blockSize
    ensures |b| == blockSize
  {
    Padded(p.data.value[..len], blockSize)
  }

  function SourceBlocks(window: seq<Packet>, k: nat, blockSize: nat): (x: Mat)
    requires Ready(window, k, blockSize)
    ensures IsMat(x, k, blockSize)
  {
    seq(k, i requires 0 <= i < k => SourceBlock(window[i], window[0].len, blockSize))
  }

  function RepairPacket(window: seq<Packet>, k: nat, index: nat, blockSize: nat): Packet
    requires Ready(window, k, blockSize) && k <= Param(k, index)
  {
    var row := RowOf(k, RepairKind(k, index));
    Packet(window[k - 1].id + 1 + index,
           Some(Combine(row, SourceBlocks(window, k, blockSize), blockSize)),
           window[0].len, false, Some(Padded(row, blockSize)), k)
  }

  lemma AddShortBlock(t: Vec, s: Vec, factor: Byte)
    requires |s| <= |t|
    ensures AddBlock(t, s, factor) == VAdd(t, VScale(factor, Padded(s, |t|)))
  {
    hide Add;
    hide Mul;
    MulZero(factor);
    forall i | 0 <= i < |t|
      ensures AddBlock(t, s, factor)[i] == VAdd(t, VScale(factor, Padded(s, |t|)))[i]
    {
      if i < |s| {
        AddComm(t[i], Mul(factor, s[i]));
      } else {
        AddZero(t[i]);
      }
    }
  }

  class Encoder {
    const k: nat
    const n: nat
    var sourceWindow: seq<Packet>

    constructor (k: nat, n: nat)
      ensures this.k == k && this.n == n && sourceWindow == []
    {
      this.k := k;
      this.n := n;
      sourceWindow := [];
    }

    method AddSourcePacket(packet: Packet)
      modifies this
      ensures sourceWindow == Push(old(sourceWindow), k, packet)
    {
      if |sourceWindow| == k {
        if |sourceWindow| > 0 {
          sourceWindow := sourceWindow[1..];
        }
      }
      sourceWindow := sourceWindow + [packet];
    }

    /** One row of the Cauchy matrix. */
    method GenerateCauchyCoefficients(repairIndex: nat) returns (coeffs: Vec)
      requires Invertible(k, repairIndex)
      ensures k <= 256
      ensures coeffs == RowOf(k, RepairKind(k, repairIndex))
    {
      hide Inv;
      hide Add;
      InvertibleIff(k, repairIndex);
      var y := Param(k, repairIndex);
      coeffs := [];
      if k == 0 {
        return;
      }
      for i := 0 to k
        invariant |coeffs| == i
        invariant forall j :: 0 <= j < i ==> coeffs[j] == Inv(Add(SourceIds(k)[j], y))
      {
        coeffs := coeffs + [Inv(Add(i % 256, y))];
      }
    }

    /** A repair packet for the current window, once the window is full. */
    method GenerateRepairPacket(repairIndex: nat, blockSize: nat) returns (result: Option<Packet>)
      requires |sourceWindow| >= k ==> Ready(sourceWindow, k, blockSize) && Invertible(k, repairIndex)
      ensures result.None? <==> |sourceWindow| < k
      ensures result.Some? ==>
        && Ready(sourceWindow, k, blockSize) && k <= Param(k, repairIndex)
        && result.value == RepairPacket(sourceWindow, k, repairIndex, blockSize)
    {
      hide Combine;
      hide RowOf;
      if |sourceWindow| < k {
        return None;
      }
      InvertibleIff(k, repairIndex);
      var packetLen := sourceWindow[0].len;
      var coeffs := GenerateCauchyCoefficients(repairIndex);
      var data := CombineWindow(coeffs, blockSize);
      var coeffBlock := seq(blockSize, _ => 0);
      coeffBlock := coeffs + coeffBlock[|coeffs|..];
      assert coeffBlock == Padded(coeffs, blockSize);
      var last := sourceWindow[|sourceWindow| - 1];
      result := Some(Packet(last.id + 1 + repairIndex, Some(data), packetLen, false, Some(coeffBlock), |coeffs|));
    }

    /** Accumulates coefficient times source over the window, skipping zero coefficients. */
    method CombineWindow(coeffs: Vec, blockSize: nat) returns (repair: Vec)
      requires Ready(sourceWindow, k, blockSize) && |coeffs| == k
      ensures repair == Combine(coeffs, SourceBlocks(sourceWindow, k, blockSize), blockSize)
    {
      hide Combine;
      hide AddBlock;
      ghost var x := SourceBlocks(sourceWindow, k, blockSize);
      var packetLen := sourceWindow[0].len;
      repair := seq(blockSize, _ => 0);
      assert repair == Zeros(blockSize) && coeffs[..0] == Zeros(0) && x[..0] == [];
      CombineZero([], blockSize);
      for i := 0 to k
        invariant repair == Combine(coeffs[..i], x[..i], blockSize)
      {
        CombineStep(coeffs, x, blockSize, i);
        if coeffs[i] == 0 {
          AddZeroRow(repair, x[i]);
        } else {
          assert Combinable(sourceWindow[i], packetLen);
          var source := sourceWindow[i].data.value[..sourceWindow[i].len];
          assert source[..packetLen] == sourceWindow[i].data.value[..packetLen];
          AddShortBlock(repair, source[..packetLen], coeffs[i]);
          repair := AddScaledBytes(repair, source[..packetLen], coeffs[i]);
        }
      }
      assert coeffs[..k] == coeffs && x[..k] == x;
    }
  }

  // ----- Round trip -----

  ghost predicate DistinctIndices(k: nat, indices: seq<nat>) {
    && |indices| == k
    && (forall i :: 0 <= i < k ==> k <= Param(k, indices[i]))
    && (forall i, j :: 0 <= i < j < k ==> indices[i] % 256 != indices[j] % 256)
  }

  function Sent(window: seq<Packet>, k: nat, indices: seq<nat>, blockSize: nat): (pkts: seq<Packet>)
    requires Ready(window, k, blockSize) && DistinctIndices(k, indices)
    ensures |pkts| == k
  {
    seq(k, i requires 0 <= i < k => RepairPacket(window, k, indices[i], blockSize))
  }

  function KindsOf(k: nat, indices: seq<nat>): (kinds: seq<RowKind>)
    ensures |kinds| == |indices|
  {
    seq(|indices|, i requires 0 <= i < |indices| => RepairKind(k, indices[i]))
  }

  lemma SentShape(window: seq<Packet>, k: nat, indices: seq<nat>, blockSize: nat)
    requires Ready(window, k, blockSize) && DistinctIndices(k, indices)
    ensures k <= 256 && ValidKinds(k, KindsOf(k, indices))
    ensures
      var pkts := Sent(window, k, indices, blockSize);
      && AllWellSized(pkts, k, blockSize)
      && RepairsOf(pkts, k, KindsOf(k, indices), SourceBlocks(window, k, blockSize), blockSize)
  {
    hide Combine;
    hide RowOf;
    assert k <= Param(k, indices[0]);
    var pkts, kinds := Sent(window, k, indices, blockSize), KindsOf(k, indices);
    forall i, j | 0 <= i < j < k
      ensures kinds[i] != kinds[j]
    {
      DistinctParams(k, indices[i], indices[j]);
    }
    forall i | 0 <= i < k
      ensures OfKind(pkts[i], k, kinds[i]) && WellSized(pkts[i], k, blockSize)
    {
      var row := RowOf(k, kinds[i]);
      assert pkts[i].coefficients.value[..k] == row;
    }
  }

  /**
  Decoding any k repair packets of one window, with indices that differ as
  bytes, gives back the block of every source packet, zero-padded; the rebuilt
  packet of slot i has id i and the length of a block.
   */
  lemma EncodeDecode(window: seq<Packet>, k: nat, indices: seq<nat>, blockSize: nat)
    requires Ready(window, k, blockSize) && DistinctIndices(k, indices)
    ensures AllWellSized(Sent(window, k, indices, blockSize), k, blockSize)
    ensures
      var st := Receive(Fresh(k, blockSize), Sent(window, k, indices, blockSize));
      && st.decoded && Recovered(st, SourceBlocks(window, k, blockSize))
      && Rebuilt(st, SourceBlocks(window, k, blockSize), blockSize)
  {
    hide Receive, Recovered, Rebuilt, RepairPacket;
    SentShape(window, k, indices, blockSize);
    RepairsRecover(k, KindsOf(k, indices), Sent(window, k, indices, blockSize),
                   SourceBlocks(window, k, blockSize), blockSize);
  }

  /** A source packet as a sender makes it: systematic, in a whole pool block. */
  predicate SourceShaped(p: Packet, blockSize: nat) {
    p.isSystematic && p.coefficients.None? && p.coeffLen == 0 && p.data.Some? && |p.data.value| == blockSize
  }

  /**
  The packets themselves come back exactly when they were numbered by their
  slots and filled their blocks; otherwise id or length differ, and only the
  source's bytes are found, at the front of the block.
   */
  lemma WindowComesBack(window: seq<Packet>, k: nat, indices: seq<nat>, blockSize: nat)
    requires Ready(window, k, blockSize) && DistinctIndices(k, indices)
    requires forall i :: 0 <= i < k ==> SourceShaped(window[i], blockSize)
    ensures AllWellSized(Sent(window, k, indices, blockSize), k, blockSize)
    ensures
      var st := Receive(Fresh(k, blockSize), Sent(window, k, indices, blockSize));
      && |st.slots| == k && (forall i :: 0 <= i < k ==> st.slots[i].Some? && st.slots[i].value.data.Some?)
      && (forall i :: 0 <= i < k ==>
            var p := st.slots[i].value;
            && (p.id == window[i].id && p.len == window[i].len <==> window[i].id == i && window[i].len == blockSize)
            && p.data.value == Padded(window[i].data.value[..window[0].len], blockSize))
      && ((forall i :: 0 <= i < k ==> st.slots[i] == Some(window[i]))
          <==> forall i :: 0 <= i < k ==> window[i].id == i && window[i].len == blockSize)
  {
    hide Receive, Recovered, RepairPacket, Sent;
    EncodeDecode(window, k, indices, blockSize);
    var x := SourceBlocks(window, k, blockSize);
    var st := Receive(Fresh(k, blockSize), Sent(window, k, indices, blockSize));
    forall i | 0 <= i < k
      ensures st.slots[i] == Some(Packet(i, Some(x[i]), blockSize, true, None, 0))
    {
      assert Padded(x[i], blockSize) == x[i];
    }
    if forall i :: 0 <= i < k ==> window[i].id == i && window[i].len == blockSize {
      forall i | 0 <= i < k
        ensures st.slots[i] == Some(window[i])
      {
        WholeSource(window, k, i, blockSize);
      }
    }
  }

  lemma WholeSource(window: seq<Packet>, k: nat, i: nat, blockSize: nat)
    requires Ready(window, k, blockSize) && i < k && SourceShaped(window[i], blockSize) && window[0].len == blockSize
    ensures SourceBlocks(window, k, blockSize)[i] == window[i].data.value
  {
    var d := window[i].data.value;
    assert d[..blockSize] == d;
  }
}
