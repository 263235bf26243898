/**
Recovery of the source blocks. The decoder keeps systematic rows without their
payload and skips payload work for them, so it recovers the missing blocks of
every source exactly when it is given repair packets only (or nothing is
missing). Both directions are proved for every choice of k distinct packets.
 */
module DataRecovery {
  import opened Basics
  import opened Field
  import opened Options
  import opened LinearAlgebra
  import opened Elimination
  import opened Gauss
  import opened Cauchy
  import opened Decoding
  import opened DecoderRuns
  import opened Recovery

  function SourcePacket(slot: nat, block: Vec, width: nat): Packet {
    Packet(slot, Some(block), width, true, None, 0)
  }

  /** The packet the sender makes for a row: a source block, or a combination of them. */
  function CodePacket(k: nat, kind: RowKind, x: Mat, width: nat): (p: Packet)
    requires 0 < k <= 256 && IsMat(x, k, width) && ValidKind(k, kind)
  {
    match kind
    case Systematic(slot) => SourcePacket(slot, x[slot], width)
    case Repair(_) =>
      Packet(k, Some(Combine(RowOf(k, kind), x, width)), width, false, Some(RowOf(k, kind)), k)
  }

  lemma CodePacketKind(k: nat, kind: RowKind, x: Mat, width: nat)
    requires 0 < k <= 256 && IsMat(x, k, width) && ValidKind(k, kind)
    ensures OfKind(CodePacket(k, kind, x, width), k, kind)
    ensures WellSized(CodePacket(k, kind, x, width), k, width)
  {
    hide Combine;
    hide RowOf;
    if kind.Repair? {
      var row := RowOf(k, kind);
      assert row[..k] == row;
    } else {
      QuotientOf(kind.slot, k, 0, kind.slot);
    }
  }

  lemma CodePacketKinds(k: nat, kinds: seq<RowKind>, x: Mat, width: nat)
    requires 0 < k <= 256 && IsMat(x, k, width) && ValidKinds(k, kinds)
    ensures forall r :: 0 <= r < k ==>
      && OfKind(CodePacket(k, kinds[r], x, width), k, kinds[r])
      && WellSized(CodePacket(k, kinds[r], x, width), k, width)
  {
    hide OfKind;
    hide WellSized;
    hide CodePacket;
    forall r | 0 <= r < k
      ensures OfKind(CodePacket(k, kinds[r], x, width), k, kinds[r])
      ensures WellSized(CodePacket(k, kinds[r], x, width), k, width)
    {
      CodePacketKind(k, kinds[r], x, width);
    }
  }

  ghost predicate ValidKinds(k: nat, kinds: seq<RowKind>) {
    |kinds| == k && DistinctKinds(kinds) && forall r :: 0 <= r < k ==> ValidKind(k, kinds[r])
  }

  function CodePackets(k: nat, kinds: seq<RowKind>, x: Mat, width: nat): (pkts: seq<Packet>)
    requires 0 < k <= 256 && IsMat(x, k, width) && ValidKinds(k, kinds)
    ensures |pkts| == k && Match(pkts, k, kinds) && AllWellSized(pkts, k, width)
  {
    CodePacketKinds(k, kinds, x, width);
    seq(k, r requires 0 <= r < k => CodePacket(k, kinds[r], x, width))
  }

  /** Every slot holds a packet with the source block of that slot. */
  ghost predicate Recovered(st: State, x: Mat) {
    |st.slots| == |x| && forall i :: 0 <= i < |x| ==> st.slots[i].Some? && st.slots[i].value.data == Some(x[i])
  }

  // ----- The state after k distinct packets -----

  lemma {:induction false} KeptAll(k: nat, pkts: seq<Packet>, kinds: seq<RowKind>)
    requires 0 < k <= 256 && Match(pkts, k, kinds) && DistinctKinds(kinds) && |pkts| <= k
    ensures Kept(k, pkts) == pkts
    decreases |pkts|
  {
    hide OfKind;
    if |pkts| > 0 {
      var n := |pkts| - 1;
      KeptAll(k, pkts[..n], kinds[..n]);
      TakesMatches(k, pkts[..n], kinds[..n], pkts[n], kinds[n]);
    }
  }

  lemma Outcome(k: nat, kinds: seq<RowKind>, pkts: seq<Packet>, width: nat)
    requires 0 < k <= 256 && ValidKinds(k, kinds) && Match(pkts, k, kinds) && AllWellSized(pkts, k, width)
    ensures AllHaveRows(pkts, k)
    ensures Gathered(pkts, k).rows == Rows(k, kinds)
    ensures Eliminate(Gathered(pkts, k), k).1 && Receive(Fresh(k, width), pkts).decoded
    ensures PayloadsFit(Eliminate(Gathered(pkts, k), k).0.payloads, width)
    ensures Receive(Fresh(k, width), pkts).slots
         == FillSlots(SlotsOf(pkts, k), Eliminate(Gathered(pkts, k), k).0.payloads, width)
  {
    hide Receive;
    hide Eliminate;
    hide FillSlots;
    hide TrivialKernel;
    hide RowOf;
    KeptAll(k, pkts, kinds);
    ReceiveIsBatch(k, width, pkts);
    GatheredRows(k, pkts, kinds);
    IndependentIffDistinct(k, kinds);
    EliminationDecides(Gathered(pkts, k), k);
    EliminateFits(Gathered(pkts, k), k, width);
  }

  /** Packets of the code, as far as the slots are concerned. */
  ghost predicate Sources(pkts: seq<Packet>, kinds: seq<RowKind>, x: Mat, width: nat) {
    |pkts| == |kinds| && forall r :: 0 <= r < |kinds| ==> SourceAt(pkts[r], kinds[r], x, width)
  }

  ghost predicate SourceAt(p: Packet, kind: RowKind, x: Mat, width: nat) {
    match kind
    case Systematic(slot) => slot < |x| && p == SourcePacket(slot, x[slot], width)
    case Repair(_) => !p.isSystematic
  }

  lemma {:induction false} SlotContents(pkts: seq<Packet>, kinds: seq<RowKind>, x: Mat, width: nat, i: nat)
    requires Sources(pkts, kinds, x, width) && i < |x|
    ensures SlotsOf(pkts, |x|)[i] == if Systematic(i) in kinds then Some(SourcePacket(i, x[i], width)) else None
    decreases |pkts|
  {
    if |pkts| > 0 {
      var n := |pkts| - 1;
      SlotContents(pkts[..n], kinds[..n], x, width, i);
      assert kinds == kinds[..n] + [kinds[n]];
      assert SourceAt(pkts[n], kinds[n], x, width);
      if kinds[n].Systematic? {
        QuotientOf(kinds[n].slot, |x|, 0, kinds[n].slot);
      }
    }
  }

  lemma CodeSources(k: nat, kinds: seq<RowKind>, x: Mat, width: nat)
    requires 0 < k <= 256 && IsMat(x, k, width) && ValidKinds(k, kinds)
    ensures Sources(CodePackets(k, kinds, x, width), kinds, x, width)
  {
    hide Combine;
    hide RowOf;
  }

  // ----- Repair packets only -----

  /** Repair packets whose data are the combinations of the blocks `x` that their rows name. */
  ghost predicate RepairsOf(pkts: seq<Packet>, k: nat, kinds: seq<RowKind>, x: Mat, width: nat)
    requires 0 < k <= 256 && IsMat(x, k, width)
  {
    && Match(pkts, k, kinds)
    && forall r :: 0 <= r < |kinds| ==>
         kinds[r].Repair? && pkts[r].data == Some(Combine(RowOf(k, kinds[r]), x, width))
  }

  lemma RepairPayloads(k: nat, kinds: seq<RowKind>, pkts: seq<Packet>, x: Mat, width: nat)
    requires 0 < k <= 256 && IsMat(x, k, width) && ValidKinds(k, kinds) && RepairsOf(pkts, k, kinds, x, width)
    requires AllHaveRows(pkts, k) && Gathered(pkts, k).rows == Rows(k, kinds)
    ensures
      var s := Gathered(pkts, k);
      AllCarried(s) && PayloadWidth(s, width) && Solves(s, x, k, width)
  {
    hide Combine;
    hide RowOf;
    var s := Gathered(pkts, k);
    forall r | 0 <= r < k
      ensures s.payloads[r] == Some(Combine(s.rows[r], x, width))
    {
      assert OfKind(pkts[r], k, kinds[r]);
      assert s.rows[r] == RowOf(k, kinds[r]);
    }
  }

  /** Repair packets of the rows `kinds`, each with a whole block of data, whatever it holds. */
  ghost predicate WholeRepairs(pkts: seq<Packet>, k: nat, kinds: seq<RowKind>, width: nat)
    requires 0 < k <= 256
  {
    && ValidKinds(k, kinds) && Match(pkts, k, kinds) && AllWellSized(pkts, k, width)
    && forall r :: 0 <= r < k ==> kinds[r].Repair? && pkts[r].data.Some? && |pkts[r].data.value| == width
  }

  /** The packet the decoder rebuilds for a slot: the block, under the slot's number and the block's length. */
  ghost predicate Rebuilt(st: State, x: Mat, width: nat) {
    && |st.slots| == |x|
    && forall i :: 0 <= i < |x| ==> |x[i]| == width && st.slots[i] == Some(RecoveredPacket(i, x[i], width))
  }

  lemma RebuiltIsRecovered(st: State, x: Mat, width: nat)
    requires Rebuilt(st, x, width)
    ensures Recovered(st, x)
    ensures forall y :: Recovered(st, y) ==> y == x
  {
    forall i | 0 <= i < |x|
      ensures st.slots[i].Some? && st.slots[i].value.data == Some(x[i])
    {
      assert Padded(x[i], width) == x[i];
    }
  }

  /** From k repair packets the decoder rebuilds the one source that explains their data. */
  lemma RepairsSolved(k: nat, kinds: seq<RowKind>, pkts: seq<Packet>, width: nat) returns (x: Mat)
    requires 0 < k <= 256 && WholeRepairs(pkts, k, kinds, width)
    ensures Receive(Fresh(k, width), pkts).decoded
    ensures IsMat(x, k, width) && Rebuilt(Receive(Fresh(k, width), pkts), x, width)
    ensures RepairsOf(pkts, k, kinds, x, width)
  {
    hide Receive, Eliminate, Combine, Solves, RowOf, Reaches, TrivialKernel;
    Outcome(k, kinds, pkts, width);
    var s := Gathered(pkts, k);
    EliminationDecides(s, k);
    var t := Eliminate(s, k).0;
    x := SolutionOf(t, k, width, s);
    SolvedRepairs(k, kinds, pkts, x, width);
    forall i | 0 <= i < k
      ensures SlotsOf(pkts, k)[i] == None
    {
      NoSlot(k, kinds, pkts, i);
    }
  }

  lemma NoSlot(k: nat, kinds: seq<RowKind>, pkts: seq<Packet>, i: nat)
    requires 0 < k <= 256 && Match(pkts, k, kinds) && i < k
    requires forall r :: 0 <= r < |kinds| ==> kinds[r].Repair?
    ensures SlotsOf(pkts, k)[i] == None
  {
    forall r | 0 <= r < |pkts|
      ensures !pkts[r].isSystematic
    {
      assert OfKind(pkts[r], k, kinds[r]);
    }
    SlotFilled(pkts, k, i);
  }

  lemma SolvedRepairs(k: nat, kinds: seq<RowKind>, pkts: seq<Packet>, x: Mat, width: nat)
    requires 0 < k <= 256 && WholeRepairs(pkts, k, kinds, width) && IsMat(x, k, width)
    requires AllHaveRows(pkts, k) && Gathered(pkts, k).rows == Rows(k, kinds) && Solves(Gathered(pkts, k), x, k, width)
    ensures RepairsOf(pkts, k, kinds, x, width)
  {
    hide Combine, RowOf, AllWellSized;
    var s := Gathered(pkts, k);
    forall r | 0 <= r < k
      ensures pkts[r].data == Some(Combine(RowOf(k, kinds[r]), x, width))
    {
      assert OfKind(pkts[r], k, kinds[r]);
      assert RowSolved(s.rows[r], s.payloads[r], x, width);
      assert s.rows[r] == RowOf(k, kinds[r]);
    }
  }

  /**
  Exactly when k repair packets give a source back: when every one of them was
  combined from it. The rebuilt packet of a slot has the slot's number as its id
  and the whole block as its length.
   */
  lemma RepairsRecover(k: nat, kinds: seq<RowKind>, pkts: seq<Packet>, x: Mat, width: nat)
    requires 0 < k <= 256 && IsMat(x, k, width) && WholeRepairs(pkts, k, kinds, width)
    ensures Receive(Fresh(k, width), pkts).decoded
    ensures Recovered(Receive(Fresh(k, width), pkts), x) <==> RepairsOf(pkts, k, kinds, x, width)
    ensures RepairsOf(pkts, k, kinds, x, width) ==> Rebuilt(Receive(Fresh(k, width), pkts), x, width)
  {
    hide Receive, Rebuilt, Recovered, Combine, RowOf, AllWellSized;
    var y := RepairsSolved(k, kinds, pkts, width);
    RebuiltIsRecovered(Receive(Fresh(k, width), pkts), y, width);
    if RepairsOf(pkts, k, kinds, x, width) {
      SameRepairsSameSource(k, kinds, pkts, x, y, width);
    }
  }

  /** Two sources with the same k repair packets are the same. */
  lemma SameRepairsSameSource(k: nat, kinds: seq<RowKind>, pkts: seq<Packet>, x: Mat, y: Mat, width: nat)
    requires 0 < k <= 256 && IsMat(x, k, width) && IsMat(y, k, width) && WholeRepairs(pkts, k, kinds, width)
    requires RepairsOf(pkts, k, kinds, x, width) && RepairsOf(pkts, k, kinds, y, width)
    ensures x == y
  {
    hide Receive, Eliminate, Combine, Solves, RowOf, AllWellSized;
    Outcome(k, kinds, pkts, width);
    var s := Gathered(pkts, k);
    RepairPayloads(k, kinds, pkts, x, width);
    RepairPayloads(k, kinds, pkts, y, width);
    EliminationSolves(s, k, x, width);
    EliminationSolves(s, k, y, width);
    assert forall i :: 0 <= i < k ==> x[i] == y[i];
  }

  lemma CombineAt(u: Vec, x: Mat, width: nat, b: nat)
    requires IsMat(x, |u|, width) && b < width
    ensures Combine(u, x, width)[b] == Dot(u, Col(x, b))
  {
  }

  /** Columns with the same products with k independent rows are equal. */
  lemma ColumnsAgree(k: nat, kinds: seq<RowKind>, u: Vec, v: Vec)
    requires 0 < k <= 256 && ValidKinds(k, kinds) && |u| == |v| == k
    requires forall r :: 0 <= r < k ==> Dot(RowOf(k, kinds[r]), u) == Dot(RowOf(k, kinds[r]), v)
    ensures u == v
  {
    hide RowOf, Add, Mul;
    var w := VAdd(u, v);
    var m := Rows(k, kinds);
    AnyKRowsIndependent(k, kinds);
    forall r | 0 <= r < k
      ensures Dot(m[r], w) == 0
    {
      var row := RowOf(k, kinds[r]);
      DotComm(row, w);
      DotAddLeft(u, v, row);
      DotComm(u, row);
      DotComm(v, row);
      AddSelf(Dot(row, u));
    }
    assert InKernel(m, w);
    forall i | 0 <= i < k
      ensures u[i] == v[i]
    {
      assert w[i] == 0;
      AddCancel(u[i], v[i]);
    }
  }

  /**
  Data that are a source's combinations only on their first `len` bytes still
  give back the first `len` bytes of every block.
   */
  lemma PrefixRecovers(k: nat, kinds: seq<RowKind>, pkts: seq<Packet>, x: Mat, width: nat, len: nat) returns (y: Mat)
    requires 0 < k <= 256 && IsMat(x, k, width) && WholeRepairs(pkts, k, kinds, width) && len <= width
    requires forall r, b :: 0 <= r < k && 0 <= b < len ==>
      pkts[r].data.value[b] == Combine(RowOf(k, kinds[r]), x, width)[b]
    ensures Receive(Fresh(k, width), pkts).decoded
    ensures IsMat(y, k, width) && Rebuilt(Receive(Fresh(k, width), pkts), y, width)
    ensures forall i :: 0 <= i < k ==> y[i][..len] == x[i][..len]
  {
    hide Receive, Rebuilt, RowOf, Dot, Combine, AllWellSized;
    y := RepairsSolved(k, kinds, pkts, width);
    forall b | 0 <= b < len
      ensures Col(x, b) == Col(y, b)
    {
      forall r | 0 <= r < k
        ensures Dot(RowOf(k, kinds[r]), Col(x, b)) == Dot(RowOf(k, kinds[r]), Col(y, b))
      {
        assert pkts[r].data == Some(Combine(RowOf(k, kinds[r]), y, width));
        CombineAt(RowOf(k, kinds[r]), x, width, b);
        CombineAt(RowOf(k, kinds[r]), y, width, b);
      }
      ColumnsAgree(k, kinds, Col(x, b), Col(y, b));
    }
    forall i, b | 0 <= i < k && 0 <= b < len
      ensures y[i][b] == x[i][b]
    {
      assert Col(x, b)[i] == Col(y, b)[i];
    }
  }

  lemma CodeRepairs(k: nat, kinds: seq<RowKind>, x: Mat, width: nat)
    requires 0 < k <= 256 && IsMat(x, k, width) && ValidKinds(k, kinds)
    requires forall r :: 0 <= r < k ==> kinds[r].Repair?
    ensures RepairsOf(CodePackets(k, kinds, x, width), k, kinds, x, width)
  {
    hide Combine;
    hide RowOf;
  }

  // ----- Systematic packets only -----

  lemma {:induction false} AllSlotsNamed(k: nat, kinds: seq<RowKind>, i: nat)
    requires ValidKinds(k, kinds) && (forall r :: 0 <= r < k ==> kinds[r].Systematic?) && i < k
    ensures Systematic(i) in kinds
  {
    KindsSplit(kinds);
    NoParams(kinds);
    IntervalCount(0, k);
    SubsetOfSameSize<int>(Slots(kinds), Interval(0, k));
    assert i in Slots(kinds);
    var r :| 0 <= r < |kinds| && kinds[r].Systematic? && kinds[r].slot == i;
    assert kinds[r] in kinds;
  }

  lemma {:induction false} NoParams(kinds: seq<RowKind>)
    requires forall r :: 0 <= r < |kinds| ==> kinds[r].Systematic?
    ensures Params(kinds) == []
  {
    if |kinds| > 0 {
      NoParams(kinds[..|kinds| - 1]);
    }
  }

  lemma SystematicRecover(k: nat, kinds: seq<RowKind>, x: Mat, width: nat)
    requires 0 < k <= 256 && IsMat(x, k, width) && ValidKinds(k, kinds)
    requires forall r :: 0 <= r < k ==> kinds[r].Systematic?
    ensures Recovered(Receive(Fresh(k, width), CodePackets(k, kinds, x, width)), x)
  {
    hide CodePackets;
    hide Receive;
    hide Eliminate;
    var pkts := CodePackets(k, kinds, x, width);
    Outcome(k, kinds, pkts, width);
    var st := Receive(Fresh(k, width), pkts);
    forall i | 0 <= i < k
      ensures st.slots[i].Some? && st.slots[i].value.data == Some(x[i])
    {
      CodeSources(k, kinds, x, width);
      SlotContents(pkts, kinds, x, width, i);
      AllSlotsNamed(k, kinds, i);
    }
  }

  // ----- Mixed packets -----

  /** The source whose only nonzero block is at `slot`. */
  function OneBlock(k: nat, slot: nat, width: nat): (x: Mat)
    ensures IsMat(x, k, width)
  {
    seq(k, i requires 0 <= i < k => BlockAt(i, slot, width))
  }

  function BlockAt(i: nat, slot: nat, width: nat): (b: Vec)
    ensures |b| == width
  {
    if i == slot then Ones(width) else Zeros(width)
  }

  lemma OneBlockColumn(k: nat, slot: nat, width: nat, b: nat)
    requires slot < k && b < width
    ensures Col(OneBlock(k, slot, width), b) == Unit(k, slot)
  {
    var x := OneBlock(k, slot, width);
    forall i | 0 <= i < k
      ensures x[i][b] == Unit(k, slot)[i]
    {
    }
  }

  /** A repair packet of that source is not zero. */
  lemma RepairNotQuiet(k: nat, slot: nat, y: Byte, width: nat)
    requires slot < k <= 256 && k <= y && width > 0
    ensures Combine(RowOf(k, Repair(y)), OneBlock(k, slot, width), width) != Zeros(width)
  {
    hide Dot;
    hide Add;
    hide Inv;
    var row := RowOf(k, Repair(y));
    var x := OneBlock(k, slot, width);
    OneBlockColumn(k, slot, width, 0);
    DotComm(row, Unit(k, slot));
    DotUnit(k, slot, row);
    AddCancel(slot, y);
    MulInv(Add(slot, y));
    assert Combine(row, x, width)[0] == row[slot];
  }

  lemma {:induction false} RepairCount(kinds: seq<RowKind>, payloads: seq<Option<Vec>>)
    requires |payloads| == |kinds|
    requires forall r :: 0 <= r < |kinds| ==> (payloads[r].Some? <==> kinds[r].Repair?)
    ensures |Carried(payloads)| == |Params(kinds)|
    decreases |kinds|
  {
    if |kinds| == 0 {
      assert Carried(payloads) == {};
    } else {
      var n := |kinds| - 1;
      RepairCount(kinds[..n], payloads[..n]);
      if kinds[n].Repair? {
        assert Carried(payloads) == Carried(payloads[..n]) + {n};
      } else {
        assert Carried(payloads) == Carried(payloads[..n]);
      }
    }
  }

  lemma MixedPayloads(k: nat, kinds: seq<RowKind>, slot: nat, row: nat, width: nat)
    requires 0 < k <= 256 && ValidKinds(k, kinds) && width > 0
    requires slot < k && row < k && kinds[row].Repair?
    ensures
      var pkts := CodePackets(k, kinds, OneBlock(k, slot, width), width);
      && AllHaveRows(pkts, k)
      && var s := Gathered(pkts, k);
         && PayloadWidth(s, width)
         && !Quiet(s, width)
         && |Carried(s.payloads)| == |Params(kinds)|
  {
    hide Combine;
    hide RowOf;
    var x := OneBlock(k, slot, width);
    Outcome(k, kinds, CodePackets(k, kinds, x, width), width);
    var s := Gathered(CodePackets(k, kinds, x, width), k);
    RepairCount(kinds, s.payloads);
    RepairNotQuiet(k, slot, kinds[row].y, width);
    assert s.payloads[row] == Some(Combine(RowOf(k, kinds[row]), x, width));
    assert !QuietPayload(s.payloads[row], width);
  }

  lemma MissingSlots(k: nat, kinds: seq<RowKind>) returns (missing: set<nat>)
    requires ValidKinds(k, kinds)
    ensures |missing| == |Params(kinds)|
    ensures forall i :: i in missing ==> i < k && Systematic(i) !in kinds
  {
    KindsSplit(kinds);
    var slots := Slots(kinds);
    var all: set<int> := Interval(0, k);
    IntervalCount(0, k);
    missing := set i: nat | i in all && i !in slots;
    assert all == missing + slots;
    assert |all| == |missing| + |slots|;
    forall i | i in missing
      ensures Systematic(i) !in kinds
    {
      SlotNamed(kinds, i);
    }
  }

  lemma SlotNamed(kinds: seq<RowKind>, i: nat)
    ensures Systematic(i) in kinds ==> i in Slots(kinds)
  {
    if Systematic(i) in kinds {
      var r :| 0 <= r < |kinds| && kinds[r] == Systematic(i);
      assert kinds[r].slot in Slots(kinds);
    }
  }

  /**
  With at least one systematic and at least one repair packet there is a source
  the decoder reports as decoded but does not give back.
   */
  lemma MixedFails(k: nat, kinds: seq<RowKind>, slot: nat, row: nat, width: nat)
    requires 0 < k <= 256 && ValidKinds(k, kinds) && width > 0
    requires slot < k && Systematic(slot) in kinds && row < k && kinds[row].Repair?
    ensures
      var x := OneBlock(k, slot, width);
      var st := Receive(Fresh(k, width), CodePackets(k, kinds, x, width));
      st.decoded && !Recovered(st, x)
  {
    hide CodePackets, Receive, Eliminate, Carried, CodePacket, Rows, SlotsOf, Gathered, Sources;
    hide TrivialKernel, Reaches, Identity, Quiet, Params;
    var x := OneBlock(k, slot, width);
    var pkts := CodePackets(k, kinds, x, width);
    Outcome(k, kinds, pkts, width);
    MixedPayloads(k, kinds, slot, row, width);
    var s := Gathered(pkts, k);
    var missing := MissingSlots(k, kinds);
    EliminationDecides(s, k);
    var t := Eliminate(s, k).0;
    SomeSlotSpoiled(s, t, k, missing, width);
    var i :| i in missing && t.payloads[i] != Some(Zeros(width));
    CodeSources(k, kinds, x, width);
    SlotContents(pkts, kinds, x, width, i);
    assert x[i] == Zeros(width);
    if t.payloads[i].Some? {
      assert Padded(t.payloads[i].value, width) == t.payloads[i].value;
    }
  }

  /**
  For k distinct packets of the code, the decoder gives back every source if
  and only if the packets are all repair packets or all systematic.
   */
  lemma RecoveryExactly(k: nat, kinds: seq<RowKind>, width: nat)
    requires 0 < k <= 256 && ValidKinds(k, kinds) && width > 0
    ensures (forall x: Mat :: IsMat(x, k, width) ==>
              Recovered(Receive(Fresh(k, width), CodePackets(k, kinds, x, width)), x))
       <==> (forall r :: 0 <= r < k ==> kinds[r].Repair?) || (forall r :: 0 <= r < k ==> kinds[r].Systematic?)
  {
    hide CodePackets;
    hide Receive;
    hide Recovered;
    if forall r :: 0 <= r < k ==> kinds[r].Repair? {
      forall x: Mat | IsMat(x, k, width)
        ensures Recovered(Receive(Fresh(k, width), CodePackets(k, kinds, x, width)), x)
      {
        CodeRepairs(k, kinds, x, width);
        RepairsRecover(k, kinds, CodePackets(k, kinds, x, width), x, width);
      }
    } else if forall r :: 0 <= r < k ==> kinds[r].Systematic? {
      forall x: Mat | IsMat(x, k, width)
        ensures Recovered(Receive(Fresh(k, width), CodePackets(k, kinds, x, width)), x)
      {
        SystematicRecover(k, kinds, x, width);
      }
    } else {
      var r :| 0 <= r < k && !kinds[r].Systematic?;
      var q :| 0 <= q < k && !kinds[q].Repair?;
      assert kinds[q] in kinds && ValidKind(k, kinds[q]);
      MixedFails(k, kinds, kinds[q].slot, r, width);
    }
  }

  // ----- Repair packets of two sources -----

  /** Each packet is combined from one of two sources. */
  function FromTwo(k: nat, kinds: seq<RowKind>, second: seq<bool>, x: Mat, y: Mat, width: nat): (pkts: seq<Packet>)
    requires 0 < k <= 256 && IsMat(x, k, width) && IsMat(y, k, width) && ValidKinds(k, kinds) && |second| == k
    ensures |pkts| == k
  {
    seq(k, r requires 0 <= r < k => CodePacket(k, kinds[r], if second[r] then y else x, width))
  }

  lemma FromTwoWhole(k: nat, kinds: seq<RowKind>, second: seq<bool>, x: Mat, y: Mat, width: nat)
    requires 0 < k <= 256 && IsMat(x, k, width) && IsMat(y, k, width) && ValidKinds(k, kinds) && |second| == k
    requires forall r :: 0 <= r < k ==> kinds[r].Repair?
    ensures WholeRepairs(FromTwo(k, kinds, second, x, y, width), k, kinds, width)
    ensures forall r :: 0 <= r < k ==>
      FromTwo(k, kinds, second, x, y, width)[r].data
        == Some(Combine(RowOf(k, kinds[r]), if second[r] then y else x, width))
  {
    hide Combine, RowOf;
    forall r | 0 <= r < k
      ensures OfKind(FromTwo(k, kinds, second, x, y, width)[r], k, kinds[r])
      ensures WellSized(FromTwo(k, kinds, second, x, y, width)[r], k, width)
    {
      CodePacketKind(k, kinds[r], if second[r] then y else x, width);
    }
  }

  /**
  Packets of two sources give the first one back exactly when each packet of the
  second is also the first one's packet.
   */
  lemma TwoSourcesExactly(k: nat, kinds: seq<RowKind>, second: seq<bool>, x: Mat, y: Mat, width: nat)
    requires 0 < k <= 256 && IsMat(x, k, width) && IsMat(y, k, width) && ValidKinds(k, kinds) && |second| == k
    requires forall r :: 0 <= r < k ==> kinds[r].Repair?
    ensures AllWellSized(FromTwo(k, kinds, second, x, y, width), k, width)
    ensures
      var st := Receive(Fresh(k, width), FromTwo(k, kinds, second, x, y, width));
      && st.decoded
      && (Recovered(st, x) <==>
          forall r :: 0 <= r < k && second[r] ==>
            Combine(RowOf(k, kinds[r]), x, width) == Combine(RowOf(k, kinds[r]), y, width))
  {
    hide Receive, Recovered, Combine, RowOf, AllWellSized;
    FromTwoWhole(k, kinds, second, x, y, width);
    RepairsRecover(k, kinds, FromTwo(k, kinds, second, x, y, width), x, width);
  }

  lemma ZeroCombines(k: nat, kind: RowKind, width: nat)
    requires 0 < k <= 256 && ValidKind(k, kind)
    ensures Combine(RowOf(k, kind), Blank(k, width), width) == Zeros(width)
  {
    hide RowOf, Mul;
    var row := RowOf(k, kind);
    forall b | 0 <= b < width
      ensures Combine(row, Blank(k, width), width)[b] == 0
    {
      assert Col(Blank(k, width), b) == Zeros(k);
      DotComm(row, Zeros(k));
      DotZeroLeft(row);
    }
  }

  function Blank(k: nat, width: nat): (x: Mat)
    ensures IsMat(x, k, width)
  {
    var block := Zeros(width);
    seq(k, _ => block)
  }

  /**
  Repair packets combined from two sources, at least one from each, may give
  back neither: the blank source and one with a block at the end.
   */
  lemma TwoSourcesNeither(k: nat, kinds: seq<RowKind>, second: seq<bool>, i: nat, j: nat, width: nat)
    requires 0 < k <= 256 && ValidKinds(k, kinds) && |second| == k && width > 0
    requires forall r :: 0 <= r < k ==> kinds[r].Repair?
    requires i < k && j < k && !second[i] && second[j]
    ensures
      var x, y := Blank(k, width), OneBlock(k, k - 1, width);
      && y == x[1..] + [BlockAt(k - 1, k - 1, width)]
      && AllWellSized(FromTwo(k, kinds, second, x, y, width), k, width)
      && var st := Receive(Fresh(k, width), FromTwo(k, kinds, second, x, y, width));
      st.decoded && !Recovered(st, x) && !Recovered(st, y)
  {
    hide Receive, Recovered, Combine, RowOf, AllWellSized;
    var x, y := Blank(k, width), OneBlock(k, k - 1, width);
    var pkts := FromTwo(k, kinds, second, x, y, width);
    assert y == x[1..] + [BlockAt(k - 1, k - 1, width)];
    FromTwoWhole(k, kinds, second, x, y, width);
    RepairsRecover(k, kinds, pkts, x, width);
    RepairsRecover(k, kinds, pkts, y, width);
    RepairNotQuiet(k, k - 1, kinds[i].y, width);
    RepairNotQuiet(k, k - 1, kinds[j].y, width);
    ZeroCombines(k, kinds[i], width);
    ZeroCombines(k, kinds[j], width);
  }
}
