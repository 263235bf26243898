/**
Runs of a decoder over packets of any window size. A repair packet of a larger
window has more coefficients than the matrix has columns; its row is stored
whole, and the elimination that follows may index past the columns. Such a
panic is an outcome here, and the closing theorem says exactly when it comes.
 */
module LongRuns {
  import opened Basics
  import opened Field
  import opened Options
  import opened LinearAlgebra
  import opened Elimination
  import opened Gauss
  import opened Csr
  import opened Decoding
  import opened DecoderRuns

  // ----- When clearing a column runs out -----

  /** A row is added to or from beyond the matrix exactly if one with a nonzero entry, or the pivot row then, is long. */
  lemma {:induction false} ClearRunsOutIff(s: System, long: seq<bool>, k: nat, i: nat, r: nat)
    requires WellFormed(s, k) && i < |s.rows| && i < k && r <= |s.rows| == |long|
    ensures ClearRunsOut(s, long, k, i, r)
       <==> exists q :: r <= q < |s.rows| && q != i && s.rows[q][i] != 0 && (long[q] || long[i])
    decreases |s.rows| - r
  {
    hide Apply;
    if r < |s.rows| {
      if r == i || s.rows[r][i] == 0 {
        ClearRunsOutIff(s, long, k, i, r + 1);
      } else if !long[r] && !long[i] {
        var t := Apply(s, AddScaled(r, i, s.rows[r][i]));
        OthersKept(s, k, r, i, s.rows[r][i]);
        ClearRunsOutIff(t, long, k, i, r + 1);
        assert forall q :: r < q < |s.rows| ==> t.rows[q] == s.rows[q];
      }
    }
  }

  lemma OthersKept(s: System, k: nat, target: nat, source: nat, factor: Byte)
    requires WellFormed(s, k) && target < |s.rows| && source < |s.rows| && target != source
    ensures
      var t := Apply(s, AddScaled(target, source, factor));
      && WellFormed(t, k) && |t.rows| == |s.rows|
      && forall q :: 0 <= q < |s.rows| && q != target ==> t.rows[q] == s.rows[q]
  {
  }

  /** With no entry to clear, clearing changes nothing. */
  lemma {:induction false} NothingToClear(s: System, k: nat, i: nat, r: nat)
    requires WellFormed(s, k) && i < |s.rows| && i < k && r <= |s.rows|
    requires forall q :: r <= q < |s.rows| && q != i ==> s.rows[q][i] == 0
    ensures ClearFrom(s, k, i, r) == s
    decreases |s.rows| - r
  {
    if r < |s.rows| {
      NothingToClear(s, k, i, r + 1);
    }
  }

  /** Where the rows are after the pivot has been put in place. */
  lemma NormalisedRows(s: System, k: nat, i: nat, p: nat)
    requires WellFormed(s, k) && i < |s.rows| && i < k && p < |s.rows| && s.rows[p][i] != 0
    ensures
      var t := Normalised(s, k, i, p);
      && (forall q :: 0 <= q < |s.rows| && q != i && q != p ==> t.rows[q] == s.rows[q])
      && (p != i ==> t.rows[p] == s.rows[i])
      && forall c :: 0 <= c < k ==> (t.rows[i][c] == 0 <==> s.rows[p][c] == 0)
  {
    hide Mul, Inv;
    var t := Normalised(s, k, i, p);
    var factor := Inv(s.rows[p][i]);
    MulInv(s.rows[p][i]);
    assert t.rows[i] == VScale(factor, s.rows[p]);
    forall c | 0 <= c < k
      ensures t.rows[i][c] == 0 <==> s.rows[p][c] == 0
    {
      NoZeroDivisors(factor, s.rows[p][c]);
    }
  }

  lemma {:induction false} NoLongRow(s: System, long: seq<bool>, k: nat, i: nat)
    requires WellFormed(s, k) && k <= |s.rows| == |long| && i <= k
    requires forall r :: 0 <= r < |long| ==> !long[r]
    ensures !RunsOut(s, long, k, i)
    decreases k - i
  {
    hide ClearFrom, ClearRunsOut, Normalised, FindPivot;
    if i < k {
      var p := FindPivot(s.rows, i, i);
      if p == |s.rows| {
        NoLongRow(s, long, k, i + 1);
      } else {
        var t := Normalised(s, k, i, p);
        ClearRunsOutIff(t, SwapAt(long, i, p), k, i, 0);
        NoLongRow(ClearFrom(t, k, i, 0), SwapAt(long, i, p), k, i + 1);
      }
    }
  }

  // ----- Rows of sources and of encoders of any size -----

  /**
  Rows as runs produce them: unit rows of different slots, rows with a nonzero
  first entry, and long rows without any zero entry.
   */
  ghost predicate Mixture(rows: Mat, slots: seq<Option<nat>>, long: seq<bool>, k: nat)
    requires IsMat(rows, k, k) && |slots| == |long| == k
  {
    && (forall r :: 0 <= r < k && slots[r].Some? ==> slots[r].value < k && rows[r] == Unit(k, slots[r].value) && !long[r])
    && (forall r, q :: 0 <= r < q < k && slots[r].Some? && slots[q].Some? ==> slots[r].value != slots[q].value)
    && (forall r :: 0 <= r < k && slots[r].None? ==> rows[r][0] != 0)
    && (forall r, c :: 0 <= r < k && long[r] && 0 <= c < k ==> rows[r][c] != 0)
  }

  /** If only one row has an entry in the first column, the others are the unit rows of all other slots. */
  lemma AllOtherSlots(rows: Mat, slots: seq<Option<nat>>, long: seq<bool>, k: nat, l: nat, s: nat)
    requires IsMat(rows, k, k) && |slots| == |long| == k && Mixture(rows, slots, long, k)
    requires l < k && long[l] && forall r :: 0 <= r < k && r != l ==> rows[r][0] == 0
    requires 0 < s < k
    ensures exists r :: 0 <= r < k && r != l && slots[r] == Some(s)
  {
    forall r | 0 <= r < k && r != l
      ensures slots[r].Some? && 0 < slots[r].value < k
    {
      assert rows[r][0] == 0;
    }
    AllTaken(slots, k, l, s);
  }

  /** k - 1 different slots out of k - 1 are all of them. */
  lemma AllTaken(slots: seq<Option<nat>>, k: nat, l: nat, s: nat)
    requires |slots| == k && l < k && 0 < s < k
    requires forall r :: 0 <= r < k && r != l ==> slots[r].Some? && 0 < slots[r].value < k
    requires forall r, q :: 0 <= r < q < k && slots[r].Some? && slots[q].Some? ==> slots[r].value != slots[q].value
    ensures exists r :: 0 <= r < k && r != l && slots[r] == Some(s)
  {
    var values := OtherValues(slots, k, l);
    DistinctFill(values, 1, k);
    assert s in values;
    var i :| 0 <= i < |values| && values[i] == s;
    assert slots[if i < l then i else i + 1] == Some(s);
  }

  function OtherValues(slots: seq<Option<nat>>, k: nat, l: nat): (values: seq<int>)
    requires |slots| == k && l < k && forall r :: 0 <= r < k && r != l ==> slots[r].Some?
    ensures |values| == k - 1
  {
    seq(k - 1, i requires 0 <= i < k - 1 => if i < l then slots[i].value else slots[i + 1].value)
  }

  /** One long row is enough, whatever the others are. */
  lemma LongRowRunsOut(s: System, slots: seq<Option<nat>>, long: seq<bool>, k: nat, l: nat)
    requires k >= 2 && WellFormed(s, k) && |s.rows| == |slots| == |long| == k && Mixture(s.rows, slots, long, k)
    requires l < k && long[l]
    ensures RunsOut(s, long, k, 0)
  {
    hide ClearFrom, ClearRunsOut, Normalised, Mixture;
    assert s.rows[l][0] != 0 by { MixtureLong(s.rows, slots, long, k, l, 0); }
    var p := FindPivot(s.rows, 0, 0);
    var t, moved := Normalised(s, k, 0, p), SwapAt(long, 0, p);
    NormalisedRows(s, k, 0, p);
    ClearRunsOutIff(t, moved, k, 0, 0);
    if p != l {
      assert t.rows[l] == s.rows[l] && moved[l];
    } else if forall q :: 0 < q < k ==> t.rows[q][0] == 0 {
      NothingToClear(t, k, 0, 0);
      OnlyLongFirst(s, slots, long, k, l);
    }
  }

  lemma MixtureLong(rows: Mat, slots: seq<Option<nat>>, long: seq<bool>, k: nat, l: nat, c: nat)
    requires IsMat(rows, k, k) && |slots| == |long| == k && Mixture(rows, slots, long, k)
    requires l < k && long[l] && c < k
    ensures rows[l][c] != 0
  {
  }

  /** The long row is the first pivot and nothing is cleared: the second column then clears the long row. */
  lemma OnlyLongFirst(s: System, slots: seq<Option<nat>>, long: seq<bool>, k: nat, l: nat)
    requires k >= 2 && WellFormed(s, k) && |s.rows| == |slots| == |long| == k && Mixture(s.rows, slots, long, k)
    requires l < k && long[l] && s.rows[l][0] != 0
    requires forall q :: 0 < q < k ==> Normalised(s, k, 0, l).rows[q][0] == 0
    ensures RunsOut(Normalised(s, k, 0, l), SwapAt(long, 0, l), k, 1)
  {
    hide ClearFrom, ClearRunsOut, Normalised, Mixture;
    NormalisedRows(s, k, 0, l);
    var t, moved := Normalised(s, k, 0, l), SwapAt(long, 0, l);
    forall r | 0 <= r < k && r != l
      ensures s.rows[r][0] == 0
    {
      assert s.rows[r] == t.rows[if r == 0 then l else r];
    }
    AllOtherSlots(s.rows, slots, long, k, l, 1);
    var r :| 0 <= r < k && r != l && slots[r] == Some(1);
    MixtureUnit(s.rows, slots, long, k, r);
    var at := if r == 0 then l else r;
    assert t.rows[at] == s.rows[r] && t.rows[at][1] == 1 && at >= 1;
    var p := FindPivot(t.rows, 1, 1);
    NormalisedRows(t, k, 1, p);
    MixtureLong(s.rows, slots, long, k, l, 1);
    ClearRunsOutIff(Normalised(t, k, 1, p), SwapAt(moved, 1, p), k, 1, 0);
    assert Normalised(t, k, 1, p).rows[0] == t.rows[0] && SwapAt(moved, 1, p)[0];
  }

  lemma MixtureUnit(rows: Mat, slots: seq<Option<nat>>, long: seq<bool>, k: nat, r: nat)
    requires IsMat(rows, k, k) && |slots| == |long| == k && Mixture(rows, slots, long, k)
    requires r < k && slots[r].Some?
    ensures slots[r].value < k && rows[r] == Unit(k, slots[r].value) && rows[r][slots[r].value] == 1
  {
  }

  /** With k = 1 no row is ever added to another. */
  lemma SingleRow(s: System, long: seq<bool>)
    requires WellFormed(s, 1) && |s.rows| == |long| == 1
    ensures !RunsOut(s, long, 1, 0)
  {
    hide ClearFrom, ClearRunsOut, Normalised, FindPivot;
    var p := FindPivot(s.rows, 0, 0);
    if p < 1 {
      ClearRunsOutIff(Normalised(s, 1, 0, p), SwapAt(long, 0, p), 1, 0, 0);
      assert !RunsOut(ClearFrom(Normalised(s, 1, 0, p), 1, 0, 0), SwapAt(long, 0, p), 1, 1);
    } else {
      assert !RunsOut(s, long, 1, 1);
    }
  }

  /** Elimination runs out of such rows exactly when there are at least two of them and one is long. */
  lemma RunsOutIff(s: System, slots: seq<Option<nat>>, long: seq<bool>, k: nat)
    requires k > 0 && WellFormed(s, k) && |s.rows| == |slots| == |long| == k && Mixture(s.rows, slots, long, k)
    ensures RunsOut(s, long, k, 0) <==> k >= 2 && exists r :: 0 <= r < k && long[r]
  {
    hide RunsOut, Mixture;
    if k == 1 {
      SingleRow(s, long);
    } else if r :| 0 <= r < k && long[r] {
      LongRowRunsOut(s, slots, long, k, r);
    } else {
      NoLongRow(s, long, k, 0);
    }
  }

  // ----- Runs -----

  ghost predicate AllStorable(pkts: seq<Packet>, blockSize: nat) {
    forall i :: 0 <= i < |pkts| ==> Storable(pkts[i], blockSize)
  }

  function ClipAll(pkts: seq<Packet>, k: nat): (clipped: seq<Packet>)
    ensures |clipped| == |pkts|
  {
    seq(|pkts|, i requires 0 <= i < |pkts| => Clipped(pkts[i], k))
  }

  /** Where a run over any packets has led: to a state, or to a panic. */
  datatype Run = Alive(st: State, long: seq<bool>) | Crashed

  lemma AcceptRows(st: State, p: Packet)
    requires ValidState(st) && Storable(p, st.blockSize)
    ensures Admissible(st, Clipped(p, st.k))
    ensures
      var t := Accept(st, Clipped(p, st.k)).0;
      t.k == st.k && t.blockSize == st.blockSize && |t.system.rows| == |st.system.rows| + if Adds(st, p) then 1 else 0
  {
    hide Eliminate, FillSlots;
  }

  /** One more packet. */
  ghost function NextRun(st: State, long: seq<bool>, p: Packet): (run: Run)
    requires ValidState(st) && Storable(p, st.blockSize) && |long| == |st.system.rows|
    ensures run.Alive? ==>
      && ValidState(run.st) && run.st.k == st.k && run.st.blockSize == st.blockSize
      && |run.long| == |run.st.system.rows|
  {
    AcceptRows(st, p);
    if Crashes(st, long, p) then Crashed else Alive(Accept(st, Clipped(p, st.k)).0, LongAfter(st, long, p))
  }

  ghost function ReceiveAny(k: nat, blockSize: nat, pkts: seq<Packet>): (run: Run)
    requires AllStorable(pkts, blockSize)
    ensures run.Alive? ==>
      && ValidState(run.st) && run.st.k == k && run.st.blockSize == blockSize
      && |run.long| == |run.st.system.rows|
    decreases |pkts|
  {
    if |pkts| == 0 then Alive(Fresh(k, blockSize), []) else
      var n := |pkts| - 1;
      match ReceiveAny(k, blockSize, pkts[..n])
      case Crashed => Crashed
      case Alive(st, long) =>
        NextRun(st, long, pkts[n])
  }

  lemma ClipFits(pkts: seq<Packet>, k: nat, blockSize: nat)
    requires AllStorable(pkts, blockSize)
    ensures AllWellSized(ClipAll(pkts, k), k, blockSize)
  {
  }

  /** As long as it lives, a run is the run over the clipped packets. */
  lemma {:induction false} AliveIsReceive(k: nat, blockSize: nat, pkts: seq<Packet>)
    requires AllStorable(pkts, blockSize)
    ensures AllWellSized(ClipAll(pkts, k), k, blockSize)
    ensures ReceiveAny(k, blockSize, pkts).Alive? ==>
      ReceiveAny(k, blockSize, pkts).st == Receive(Fresh(k, blockSize), ClipAll(pkts, k))
    decreases |pkts|
  {
    hide Crashes, Accept;
    ClipFits(pkts, k, blockSize);
    if |pkts| > 0 {
      var n := |pkts| - 1;
      AliveIsReceive(k, blockSize, pkts[..n]);
      assert ClipAll(pkts, k)[..n] == ClipAll(pkts[..n], k);
    }
  }

  lemma {:induction false} KeptClipped(k: nat, pkts: seq<Packet>)
    requires k > 0
    ensures Kept(k, ClipAll(pkts, k)) == ClipAll(Kept(k, pkts), k)
    decreases |pkts|
  {
    if |pkts| > 0 {
      var n := |pkts| - 1;
      KeptClipped(k, pkts[..n]);
      assert ClipAll(pkts, k)[..n] == ClipAll(pkts[..n], k);
      TakesClipped(k, Kept(k, pkts[..n]), pkts[n]);
    }
  }

  lemma TakesClipped(k: nat, kept: seq<Packet>, p: Packet)
    requires k > 0
    ensures Takes(k, ClipAll(kept, k), Clipped(p, k)) <==> Takes(k, kept, p)
  {
    var clipped := ClipAll(kept, k);
    if p.isSystematic {
      forall q | q in kept && q.isSystematic
        ensures q in clipped
      {
        var i :| 0 <= i < |kept| && kept[i] == q;
        assert clipped[i] == q;
      }
      forall q | q in clipped && q.isSystematic
        ensures q in kept
      {
        var i :| 0 <= i < |clipped| && clipped[i] == q;
        assert kept[i] == q;
      }
    }
  }

  function LongFlags(kept: seq<Packet>, k: nat): (flags: seq<bool>)
    ensures |flags| == |kept|
  {
    seq(|kept|, i requires 0 <= i < |kept| => LongPacket(kept[i], k))
  }

  lemma KeptStorable(k: nat, blockSize: nat, pkts: seq<Packet>)
    requires k > 0 && AllStorable(pkts, blockSize)
    ensures AllStorable(Kept(k, pkts), blockSize)
    ensures AllHaveRows(ClipAll(Kept(k, pkts), k), k)
    ensures AllWellSized(ClipAll(Kept(k, pkts), k), k, blockSize)
  {
    ClipFits(pkts, k, blockSize);
    KeptFits(k, blockSize, ClipAll(pkts, k));
    KeptClipped(k, pkts);
    var kept := Kept(k, pkts);
    forall i | 0 <= i < |kept|
      ensures Storable(kept[i], blockSize)
    {
      assert kept[i] in pkts;
    }
  }

  lemma AddsIffTakes(k: nat, blockSize: nat, kept: seq<Packet>, p: Packet)
    requires k > 0 && |kept| < k
    requires AllHaveRows(ClipAll(kept, k), k) && AllWellSized(ClipAll(kept, k), k, blockSize)
    ensures Adds(Collected(ClipAll(kept, k), k, blockSize), p) <==> Takes(k, kept, p)
  {
    var clipped := ClipAll(kept, k);
    if p.isSystematic {
      SlotFilled(clipped, k, p.id % k);
    }
    TakesClipped(k, kept, p);
  }

  lemma ClippedRow(p: Packet, k: nat, blockSize: nat)
    requires k > 0 && Storable(p, blockSize) && (p.isSystematic || p.coefficients.Some?)
    ensures HasRow(Clipped(p, k), k)
    ensures RowOfPacket(Clipped(p, k), k)
         == if p.isSystematic then Unit(k, p.id % k) else Fitted(p.coefficients.value[..p.coeffLen], k)
  {
    if !p.isSystematic && p.coeffLen > k {
      assert p.coefficients.value[..p.coeffLen][..k] == p.coefficients.value[..k];
    }
  }

  /** A run with fewer than k rows has exactly the rows of the kept packets, and so has its extension. */
  lemma OpenRun(k: nat, blockSize: nat, kept: seq<Packet>, p: Packet)
    requires k > 0 && |kept| < k && Storable(p, blockSize) && Takes(k, kept, p)
    requires AllHaveRows(ClipAll(kept, k), k) && AllWellSized(ClipAll(kept, k), k, blockSize)
    ensures
      var st := Collected(ClipAll(kept, k), k, blockSize);
      && Adds(st, p) && AllHaveRows(ClipAll(kept + [p], k), k)
      && Extended(st, p) == Gathered(ClipAll(kept + [p], k), k)
      && LongAfter(st, LongFlags(kept, k), p) == LongFlags(kept + [p], k)
  {
    AddsIffTakes(k, blockSize, kept, p);
    hide TooLong, Clipped, Fitted, RowOfPacket, Unit;
    ClippedRow(p, k, blockSize);
    ClippedPayload(p, k);
    var clipped, more := ClipAll(kept, k), ClipAll(kept + [p], k);
    assert more == clipped + [Clipped(p, k)];
    assert Gathered(more, k).rows == Gathered(clipped, k).rows + [RowOfPacket(Clipped(p, k), k)];
    assert Gathered(more, k).payloads == Gathered(clipped, k).payloads + [PayloadOfPacket(Clipped(p, k))];
  }

  lemma ClippedPayload(p: Packet, k: nat)
    ensures PayloadOfPacket(Clipped(p, k)) == if p.isSystematic then None else p.data
  {
  }

  /** One packet for a run that still collects. */
  lemma NextOpen(k: nat, blockSize: nat, kept: seq<Packet>, p: Packet)
    requires k > 0 && |kept| < k && Storable(p, blockSize)
    requires AllHaveRows(ClipAll(kept, k), k) && AllWellSized(ClipAll(kept, k), k, blockSize)
    ensures
      var st := Collected(ClipAll(kept, k), k, blockSize);
      && |st.system.rows| == |kept|
      && var next := NextRun(st, LongFlags(kept, k), p);
      if Takes(k, kept, p) then
        && AllHaveRows(ClipAll(kept + [p], k), k)
        && (next == Crashed <==>
              |kept| + 1 == k && RunsOut(Gathered(ClipAll(kept + [p], k), k), LongFlags(kept + [p], k), k, 0))
        && (next.Alive? ==> next.long == LongFlags(kept + [p], k))
      else next.Alive? && next.long == LongFlags(kept, k)
  {
    hide RunsOut, Accept, Extended, LongFlags, Takes, TooLong;
    AddsIffTakes(k, blockSize, kept, p);
    if Takes(k, kept, p) {
      OpenRun(k, blockSize, kept, p);
    }
  }

  lemma NextClosed(st: State, long: seq<bool>, p: Packet)
    requires ValidState(st) && Storable(p, st.blockSize) && |long| == |st.system.rows| && Closed(st)
    ensures NextRun(st, long, p).Alive?
  {
  }

  lemma ReceiveNextAny(k: nat, blockSize: nat, pkts: seq<Packet>)
    requires AllStorable(pkts, blockSize) && |pkts| > 0
    ensures
      var before := ReceiveAny(k, blockSize, pkts[..|pkts| - 1]);
      ReceiveAny(k, blockSize, pkts)
        == if before.Crashed? then Crashed else NextRun(before.st, before.long, pkts[|pkts| - 1])
  {
    hide Crashes, Accept;
  }

  /** A run panics exactly when k rows were kept and their elimination runs out. */
  lemma {:induction false} CrashIsRunOut(k: nat, blockSize: nat, pkts: seq<Packet>)
    requires k > 0 && AllStorable(pkts, blockSize)
    ensures AllHaveRows(ClipAll(Kept(k, pkts), k), k)
    ensures
      var kept := Kept(k, pkts);
      && (ReceiveAny(k, blockSize, pkts) == Crashed <==>
            |kept| == k && RunsOut(Gathered(ClipAll(kept, k), k), LongFlags(kept, k), k, 0))
      && (|kept| < k ==> ReceiveAny(k, blockSize, pkts).long == LongFlags(kept, k))
    decreases |pkts|
  {
    KeptStorable(k, blockSize, pkts);
    if |pkts| == 0 {
      assert LongFlags([], k) == [];
    } else {
      hide RunsOut, NextRun, ReceiveAny, Collected, Gathered, LongFlags, Takes, ClipAll, Storable;
      var n := |pkts| - 1;
      var kept := Kept(k, pkts[..n]);
      CrashIsRunOut(k, blockSize, pkts[..n]);
      ReceiveNextAny(k, blockSize, pkts);
      var run := ReceiveAny(k, blockSize, pkts[..n]);
      if run.Alive? {
        OpenOrClosed(k, blockSize, pkts[..n]);
        if |kept| < k {
          NextOpen(k, blockSize, kept, pkts[n]);
        } else {
          NextClosed(run.st, run.long, pkts[n]);
        }
      }
    }
  }

  lemma OpenOrClosed(k: nat, blockSize: nat, pkts: seq<Packet>)
    requires k > 0 && AllStorable(pkts, blockSize) && ReceiveAny(k, blockSize, pkts).Alive?
    ensures
      var kept, st := Kept(k, pkts), ReceiveAny(k, blockSize, pkts).st;
      && AllHaveRows(ClipAll(kept, k), k) && AllWellSized(ClipAll(kept, k), k, blockSize)
      && (if |kept| == k then Closed(st) else st == Collected(ClipAll(kept, k), k, blockSize))
  {
    hide Receive, Batch, Collected;
    AliveIsReceive(k, blockSize, pkts);
    KeptClipped(k, pkts);
    ReceiveIsBatch(k, blockSize, ClipAll(pkts, k));
    BatchClosed(ClipAll(Kept(k, pkts), k), k, blockSize);
  }

  // ----- Packets of encoders of any window size -----

  /** A source packet, or a repair packet of some window: all its coefficients are nonzero. */
  predicate OfSomeWindow(p: Packet) {
    p.isSystematic ||
    (p.coefficients.Some? && 0 < p.coeffLen <= |p.coefficients.value|
     && forall j :: 0 <= j < p.coeffLen ==> p.coefficients.value[j] != 0)
  }

  lemma LongIsLonger(p: Packet, k: nat)
    requires OfSomeWindow(p)
    ensures LongPacket(p, k) <==> !p.isSystematic && p.coeffLen > k
  {
    if !p.isSystematic && p.coeffLen > k {
      assert p.coefficients.value[..p.coeffLen][k] != 0;
    }
  }

  function SlotsOfKept(kept: seq<Packet>, k: nat): (slots: seq<Option<nat>>)
    requires k > 0
    ensures |slots| == |kept|
  {
    seq(|kept|, i requires 0 <= i < |kept| => if kept[i].isSystematic then Some(kept[i].id % k) else None)
  }

  lemma KeptMixture(k: nat, blockSize: nat, pkts: seq<Packet>)
    requires k > 0 && AllStorable(pkts, blockSize) && |Kept(k, pkts)| == k
    requires forall p :: p in pkts ==> OfSomeWindow(p)
    ensures AllHaveRows(ClipAll(Kept(k, pkts), k), k)
    ensures Mixture(Gathered(ClipAll(Kept(k, pkts), k), k).rows, SlotsOfKept(Kept(k, pkts), k), LongFlags(Kept(k, pkts), k), k)
  {
    hide Kept, LongPacket;
    KeptStorable(k, blockSize, pkts);
    var kept := Kept(k, pkts);
    var rows, slots, long := Gathered(ClipAll(kept, k), k).rows, SlotsOfKept(kept, k), LongFlags(kept, k);
    forall r | 0 <= r < k
      ensures slots[r].Some? ==> slots[r].value < k && rows[r] == Unit(k, slots[r].value) && !long[r]
      ensures slots[r].None? ==> rows[r][0] != 0
      ensures forall c :: 0 <= c < k && long[r] ==> rows[r][c] != 0
    {
      assert kept[r] in pkts;
      LongIsLonger(kept[r], k);
      RowOfSomeWindow(kept[r], k);
    }
    forall r, q | 0 <= r < q < k && slots[r].Some? && slots[q].Some?
      ensures slots[r].value != slots[q].value
    {
      KeptSlotsDistinct(k, pkts, r, q);
    }
  }

  lemma RowOfSomeWindow(p: Packet, k: nat)
    requires k > 0 && OfSomeWindow(p) && HasRow(Clipped(p, k), k)
    ensures
      var row := RowOfPacket(Clipped(p, k), k);
      && (p.isSystematic ==> row == Unit(k, p.id % k))
      && (!p.isSystematic ==> row[0] != 0)
      && (!p.isSystematic && p.coeffLen > k ==> forall c :: 0 <= c < k ==> row[c] != 0)
  {
  }

  /**
  A run over sources and repair packets of windows of any size panics exactly
  when the decoder has at least two rows to collect, has collected them, and one
  of them is longer than the matrix is wide. Until then it is the run over the
  clipped packets.
   */
  lemma CrashIff(k: nat, blockSize: nat, pkts: seq<Packet>)
    requires k > 0 && AllStorable(pkts, blockSize) && forall p :: p in pkts ==> OfSomeWindow(p)
    ensures ReceiveAny(k, blockSize, pkts) == Crashed
       <==> k >= 2 && |Kept(k, pkts)| == k && exists p :: p in Kept(k, pkts) && !p.isSystematic && p.coeffLen > k
    ensures AllWellSized(ClipAll(pkts, k), k, blockSize)
    ensures ReceiveAny(k, blockSize, pkts).Alive? ==>
      ReceiveAny(k, blockSize, pkts).st == Receive(Fresh(k, blockSize), ClipAll(pkts, k))
  {
    hide ReceiveAny, Receive, RunsOut, Gathered, Kept, Mixture, OfSomeWindow, LongPacket;
    AliveIsReceive(k, blockSize, pkts);
    CrashIsRunOut(k, blockSize, pkts);
    var kept := Kept(k, pkts);
    var flags := LongFlags(kept, k);
    forall r | 0 <= r < |kept|
      ensures flags[r] <==> !kept[r].isSystematic && kept[r].coeffLen > k
    {
      assert kept[r] in pkts;
      LongIsLonger(kept[r], k);
    }
    if |kept| == k {
      KeptMixture(k, blockSize, pkts);
      RunsOutIff(Gathered(ClipAll(kept, k), k), SlotsOfKept(kept, k), flags, k);
    }
  }
}
