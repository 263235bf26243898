/**
Whole runs of the decoder. The reference is a batch decoder that first selects
the packets to keep and then eliminates once; every run of the incremental
decoder ends in the state the batch decoder computes.
 */
module DecoderRuns {
  import opened Options
  import opened LinearAlgebra
  import opened Elimination
  import opened Gauss
  import opened Decoding

  /** What the code needs of a repair packet, whatever state it arrives in. */
  predicate WellSized(p: Packet, k: nat, blockSize: nat) {
    !p.isSystematic && p.coefficients.Some? ==>
      && p.coeffLen <= |p.coefficients.value|
      && p.coeffLen <= k
      && (p.data.Some? ==> |p.data.value| <= blockSize)
  }

  ghost predicate AllWellSized(pkts: seq<Packet>, k: nat, blockSize: nat) {
    forall i :: 0 <= i < |pkts| ==> WellSized(pkts[i], k, blockSize)
  }

  /** The state after a sequence of packets. */
  ghost function Receive(st: State, pkts: seq<Packet>): (t: State)
    requires ValidState(st) && AllWellSized(pkts, st.k, st.blockSize)
    ensures ValidState(t) && t.k == st.k && t.blockSize == st.blockSize
    decreases |pkts|
  {
    if |pkts| == 0 then st else
      var n := |pkts| - 1;
      Accept(Receive(st, pkts[..n]), pkts[n]).0
  }

  lemma ReceiveLast(st: State, pkts: seq<Packet>)
    requires ValidState(st) && AllWellSized(pkts, st.k, st.blockSize) && |pkts| > 0
    ensures
      var n := |pkts| - 1;
      Receive(st, pkts) == Accept(Receive(st, pkts[..n]), pkts[n]).0
  {
    hide Accept;
  }

  /** Once decoded, or once k rows are in, later packets change nothing. */
  lemma {:induction false} ClosedForGood(st: State, pkts: seq<Packet>, more: seq<Packet>)
    requires ValidState(st) && AllWellSized(pkts + more, st.k, st.blockSize)
    requires AllWellSized(pkts, st.k, st.blockSize) && Closed(Receive(st, pkts))
    ensures Receive(st, pkts + more) == Receive(st, pkts)
    decreases |more|
  {
    if |more| == 0 {
      assert pkts + more == pkts;
    } else {
      var n := |more| - 1;
      var all := pkts + more;
      assert all[..|all| - 1] == pkts + more[..n];
      hide Accept, Receive;
      ClosedForGood(st, pkts, more[..n]);
      ReceiveLast(st, all);
      ClosedStays(Receive(st, pkts), all[|all| - 1]);
    }
  }

  lemma {:induction false} KeptPrefix(k: nat, pkts: seq<Packet>, more: seq<Packet>)
    requires k > 0
    ensures Kept(k, pkts) <= Kept(k, pkts + more)
    decreases |more|
  {
    if |more| == 0 {
      assert pkts + more == pkts;
    } else {
      var n := |more| - 1;
      var all := pkts + more;
      assert all[..|all| - 1] == pkts + more[..n];
      KeptPrefix(k, pkts, more[..n]);
    }
  }

  // ----- The batch decoder -----

  /** Whether the decoder appends a row for `p` after having kept `kept`. */
  predicate Takes(k: nat, kept: seq<Packet>, p: Packet)
    requires k > 0
  {
    if p.isSystematic then
      forall q :: q in kept && q.isSystematic ==> q.id % k != p.id % k
    else p.coefficients.Some?
  }

  /** The packets that contribute a row: at most k, one per systematic slot. */
  function Kept(k: nat, pkts: seq<Packet>): (kept: seq<Packet>)
    requires k > 0
    ensures |kept| <= k
    ensures forall p :: p in kept ==> p in pkts
    decreases |pkts|
  {
    if |pkts| == 0 then [] else
      var n := |pkts| - 1;
      var before := Kept(k, pkts[..n]);
      if |before| < k && Takes(k, before, pkts[n]) then before + [pkts[n]] else before
  }

  predicate HasRow(p: Packet, k: nat) {
    p.isSystematic || (p.coefficients.Some? && p.coeffLen <= |p.coefficients.value| && p.coeffLen <= k)
  }

  function RowOfPacket(p: Packet, k: nat): (row: Vec)
    requires k > 0 && HasRow(p, k)
    ensures |row| == k
  {
    if p.isSystematic then Unit(k, p.id % k) else Padded(p.coefficients.value[..p.coeffLen], k)
  }

  /** Systematic packets enter the matrix without their payload. */
  function PayloadOfPacket(p: Packet): Option<Vec> {
    if p.isSystematic then None else p.data
  }

  ghost predicate AllHaveRows(kept: seq<Packet>, k: nat) {
    forall i :: 0 <= i < |kept| ==> HasRow(kept[i], k)
  }

  function Gathered(kept: seq<Packet>, k: nat): (s: System)
    requires k > 0 && AllHaveRows(kept, k)
    ensures WellFormed(s, k) && |s.rows| == |kept|
  {
    System(seq(|kept|, i requires 0 <= i < |kept| => RowOfPacket(kept[i], k)),
           seq(|kept|, i requires 0 <= i < |kept| => PayloadOfPacket(kept[i])))
  }

  /** Each slot holds the systematic packet that was kept for it. */
  function SlotsOf(kept: seq<Packet>, k: nat): (slots: seq<Option<Packet>>)
    requires k > 0
    ensures |slots| == k
    decreases |kept|
  {
    if |kept| == 0 then seq(k, _ => None) else
      var n := |kept| - 1;
      var before := SlotsOf(kept[..n], k);
      if kept[n].isSystematic then before[kept[n].id % k := Some(kept[n])] else before
  }

  function Collected(kept: seq<Packet>, k: nat, blockSize: nat): (st: State)
    requires k > 0 && |kept| <= k && AllHaveRows(kept, k) && AllWellSized(kept, k, blockSize)
    ensures ValidState(st)
  {
    State(k, blockSize, Gathered(kept, k), SlotsOf(kept, k), false)
  }

  /** The batch decoder: all rows at once, one elimination when there are k. */
  function Batch(kept: seq<Packet>, k: nat, blockSize: nat): (st: State)
    requires k > 0 && |kept| <= k && AllHaveRows(kept, k) && AllWellSized(kept, k, blockSize)
  {
    TryDecode(Collected(kept, k, blockSize)).0
  }

  lemma {:induction false} SlotFilled(kept: seq<Packet>, k: nat, s: nat)
    requires k > 0 && s < k
    ensures SlotsOf(kept, k)[s].Some? <==> exists q :: q in kept && q.isSystematic && q.id % k == s
    decreases |kept|
  {
    if |kept| > 0 {
      var n := |kept| - 1;
      SlotFilled(kept[..n], k, s);
      assert kept == kept[..n] + [kept[n]];
    }
  }

  lemma {:induction false} KeptFits(k: nat, blockSize: nat, pkts: seq<Packet>)
    requires k > 0 && AllWellSized(pkts, k, blockSize)
    ensures AllHaveRows(Kept(k, pkts), k) && AllWellSized(Kept(k, pkts), k, blockSize)
    decreases |pkts|
  {
    if |pkts| > 0 {
      KeptFits(k, blockSize, pkts[..|pkts| - 1]);
    }
  }

  lemma BatchClosed(kept: seq<Packet>, k: nat, blockSize: nat)
    requires k > 0 && |kept| <= k && AllHaveRows(kept, k) && AllWellSized(kept, k, blockSize)
    ensures Closed(Batch(kept, k, blockSize)) <==> |kept| == k
    ensures |kept| < k ==> Batch(kept, k, blockSize) == Collected(kept, k, blockSize)
  {
    hide Eliminate;
    hide FillSlots;
  }

  lemma BatchStep(kept: seq<Packet>, k: nat, blockSize: nat, p: Packet)
    requires k > 0 && |kept| < k && AllHaveRows(kept, k) && AllWellSized(kept, k, blockSize)
    requires WellSized(p, k, blockSize)
    ensures
      var st := Collected(kept, k, blockSize);
      if Takes(k, kept, p)
      then HasRow(p, k) && AllHaveRows(kept + [p], k) && AllWellSized(kept + [p], k, blockSize)
           && Accept(st, p).0 == Batch(kept + [p], k, blockSize)
      else Accept(st, p).0 == st
  {
    hide TryDecode;
    var st := Collected(kept, k, blockSize);
    var more := kept + [p];
    if p.isSystematic {
      SlotFilled(kept, k, p.id % k);
    }
    if Takes(k, kept, p) {
      assert more[..|kept|] == kept;
      assert Gathered(more, k).rows == Gathered(kept, k).rows + [RowOfPacket(p, k)];
      assert Gathered(more, k).payloads == Gathered(kept, k).payloads + [PayloadOfPacket(p)];
      if p.isSystematic {
        assert Padded(Unit(k, p.id % k), k) == Unit(k, p.id % k);
      }
    }
  }

  /** Every run of the incremental decoder ends where the batch decoder ends. */
  lemma {:induction false} ReceiveIsBatch(k: nat, blockSize: nat, pkts: seq<Packet>)
    requires k > 0 && AllWellSized(pkts, k, blockSize)
    ensures AllHaveRows(Kept(k, pkts), k) && AllWellSized(Kept(k, pkts), k, blockSize)
    ensures Receive(Fresh(k, blockSize), pkts) == Batch(Kept(k, pkts), k, blockSize)
    decreases |pkts|
  {
    hide Batch;
    hide Collected;
    hide Accept;
    hide Takes;
    KeptFits(k, blockSize, pkts);
    if |pkts| == 0 {
      FreshIsBatch(k, blockSize);
    } else {
      var n := |pkts| - 1;
      var kept := Kept(k, pkts[..n]);
      ReceiveIsBatch(k, blockSize, pkts[..n]);
      BatchClosed(kept, k, blockSize);
      if |kept| == k {
        ClosedStays(Batch(kept, k, blockSize), pkts[n]);
      } else {
        BatchStep(kept, k, blockSize, pkts[n]);
      }
    }
  }

  lemma FreshIsBatch(k: nat, blockSize: nat)
    requires k > 0
    ensures Batch([], k, blockSize) == Fresh(k, blockSize)
  {
    BatchClosed([], k, blockSize);
  }

  lemma ClosedStays(st: State, p: Packet)
    requires ValidState(st) && Closed(st) && Admissible(st, p)
    ensures Accept(st, p) == (st, Ok(st.decoded))
  {
  }

  /** Systematic packets contribute one row per slot. */
  lemma {:induction false} KeptSlotsDistinct(k: nat, pkts: seq<Packet>, i: nat, j: nat)
    requires k > 0 && i < j < |Kept(k, pkts)|
    requires Kept(k, pkts)[i].isSystematic && Kept(k, pkts)[j].isSystematic
    ensures Kept(k, pkts)[i].id % k != Kept(k, pkts)[j].id % k
    decreases |pkts|
  {
    var n := |pkts| - 1;
    var before := Kept(k, pkts[..n]);
    if j < |before| {
      KeptSlotsDistinct(k, pkts[..n], i, j);
    } else {
      assert before[i] in before;
    }
  }

  // ----- What the slots hold -----

  ghost predicate SlotsDistinct(kept: seq<Packet>, k: nat)
    requires k > 0
  {
    forall i, j :: 0 <= i < j < |kept| && kept[i].isSystematic && kept[j].isSystematic ==> kept[i].id % k != kept[j].id % k
  }

  lemma {:induction false} SlotHolds(kept: seq<Packet>, k: nat, i: nat)
    requires k > 0 && SlotsDistinct(kept, k) && i < |kept| && kept[i].isSystematic
    ensures SlotsOf(kept, k)[kept[i].id % k] == Some(kept[i])
    decreases |kept|
  {
    var n := |kept| - 1;
    if i < n {
      SlotHolds(kept[..n], k, i);
      assert kept[n].isSystematic ==> kept[i].id % k != kept[n].id % k;
    }
  }

  lemma KeptAllDistinct(k: nat, pkts: seq<Packet>)
    requires k > 0
    ensures SlotsDistinct(Kept(k, pkts), k)
  {
    hide Kept;
    var kept := Kept(k, pkts);
    forall i, j | 0 <= i < j < |kept| && kept[i].isSystematic && kept[j].isSystematic
      ensures kept[i].id % k != kept[j].id % k
    {
      KeptSlotsDistinct(k, pkts, i, j);
    }
  }

  /** Decoding leaves a filled slot as it is. */
  lemma FilledSlotStays(st: State, s: nat)
    requires ValidState(st) && s < st.k && st.slots[s].Some?
    ensures TryDecode(st).0.slots[s] == st.slots[s]
  {
    hide Eliminate;
  }

  /** Every systematic packet that contributed a row is in its slot, unchanged, whatever else was received. */
  lemma ReceivedKeepsSlot(k: nat, blockSize: nat, pkts: seq<Packet>, p: Packet)
    requires k > 0 && AllWellSized(pkts, k, blockSize) && p in Kept(k, pkts) && p.isSystematic
    ensures Receive(Fresh(k, blockSize), pkts).slots[p.id % k] == Some(p)
  {
    hide Receive, Kept, TryDecode, SlotsOf;
    ReceiveIsBatch(k, blockSize, pkts);
    KeptAllDistinct(k, pkts);
    var kept := Kept(k, pkts);
    var i :| 0 <= i < |kept| && kept[i] == p;
    SlotHolds(kept, k, i);
    FilledSlotStays(Collected(kept, k, blockSize), p.id % k);
  }

  /** What decoding puts into an empty slot: the payload of its row in the eliminated system, or nothing. */
  lemma EmptySlotFilled(st: State, s: nat)
    requires ValidState(st) && !st.decoded && s < st.k && st.slots[s].None?
    ensures
      var t := TryDecode(st).0;
      && (!t.decoded ==> t.slots[s] == None)
      && (t.decoded ==>
            && |t.system.payloads| == st.k && t.blockSize == st.blockSize
            && (t.system.payloads[s].None? ==> t.slots[s] == None)
            && (t.system.payloads[s].Some? ==>
                  var v := t.system.payloads[s].value;
                  && |v| <= st.blockSize
                  && t.slots[s] == Some(Packet(s, Some(v + Zeros(st.blockSize - |v|)), |v|, true, None, 0))))
  {
    hide Eliminate;
  }

  /**
  A slot without a received packet: empty until the decoder succeeds, and then
  the payload of its row, numbered by the slot and padded to a block, if the row
  ended with a payload.
   */
  lemma MissingSlotHolds(k: nat, blockSize: nat, pkts: seq<Packet>, s: nat)
    requires k > 0 && AllWellSized(pkts, k, blockSize) && s < k
    requires forall p :: p in Kept(k, pkts) && p.isSystematic ==> p.id % k != s
    ensures
      var st := Receive(Fresh(k, blockSize), pkts);
      && (!st.decoded ==> st.slots[s] == None)
      && (st.decoded ==>
            && |st.system.payloads| == k
            && (st.system.payloads[s].None? ==> st.slots[s] == None)
            && (st.system.payloads[s].Some? ==>
                  var v := st.system.payloads[s].value;
                  && |v| <= blockSize
                  && st.slots[s] == Some(Packet(s, Some(v + Zeros(blockSize - |v|)), |v|, true, None, 0))))
  {
    hide Receive, Kept, TryDecode, SlotsOf;
    ReceiveIsBatch(k, blockSize, pkts);
    SlotFilled(Kept(k, pkts), k, s);
    EmptySlotFilled(Collected(Kept(k, pkts), k, blockSize), s);
  }

  /**
  What a row ends with is a combination of the repair payloads alone: the data
  of the received source packets never enter.
   */
  lemma RebuiltFromRepairs(k: nat, blockSize: nat, pkts: seq<Packet>, s: nat)
    requires k > 0 && AllWellSized(pkts, k, blockSize) && s < k
    requires forall p :: p in Kept(k, pkts) && !p.isSystematic && p.data.Some? ==> |p.data.value| == blockSize
    requires Receive(Fresh(k, blockSize), pkts).decoded
    ensures
      var st, kept := Receive(Fresh(k, blockSize), pkts), Kept(k, pkts);
      && AllHaveRows(kept, k) && |kept| == |st.system.payloads| == k
      && var blocks := PayloadBlocks(Gathered(kept, k).payloads, blockSize);
      && IsMat(blocks, k, blockSize)
      && (forall r :: 0 <= r < k && kept[r].isSystematic ==> blocks[r] == Zeros(blockSize))
      && (st.system.payloads[s].Some? ==> InSpan(st.system.payloads[s].value, blocks, blockSize))
  {
    hide Receive, Kept, Eliminate, InSpan, FillSlots;
    ReceiveIsBatch(k, blockSize, pkts);
    DecodedIff(k, blockSize, pkts);
    var kept := Kept(k, pkts);
    var gathered := Gathered(kept, k);
    EliminationDecides(gathered, k);
    forall r | 0 <= r < k && gathered.payloads[r].Some?
      ensures |gathered.payloads[r].value| == blockSize
    {
      assert kept[r] in kept;
    }
    PayloadsStayInSpan(gathered, Eliminate(gathered, k).0, k, blockSize);
  }

  /** A run decodes exactly when it kept k rows that are linearly independent. */
  lemma DecodedIff(k: nat, blockSize: nat, pkts: seq<Packet>)
    requires k > 0 && AllWellSized(pkts, k, blockSize)
    ensures AllHaveRows(Kept(k, pkts), k)
    ensures Receive(Fresh(k, blockSize), pkts).decoded
       <==> |Kept(k, pkts)| == k && TrivialKernel(Gathered(Kept(k, pkts), k).rows, k)
  {
    hide Eliminate;
    hide FillSlots;
    hide Receive;
    ReceiveIsBatch(k, blockSize, pkts);
    var kept := Kept(k, pkts);
    hide Kept;
    if |kept| == k {
      EliminationDecides(Gathered(kept, k), k);
    }
  }
}
