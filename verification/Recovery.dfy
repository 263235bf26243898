/**
What a receiver gets from the packets of the code. Decoding succeeds exactly
when the kept rows are distinct; the source blocks come back for all data
exactly when the rows are all repair rows or all systematic.
 */
module Recovery {
  import opened Basics
  import opened Field
  import opened Options
  import opened LinearAlgebra
  import opened Elimination
  import opened Gauss
  import opened Cauchy
  import opened Decoding
  import opened DecoderRuns

  // ----- Independence -----

  /** A square matrix with a repeated row has a nontrivial kernel. */
  lemma DuplicateRowsSingular(m: Mat, k: nat, i: nat, j: nat)
    requires |m| == k && IsMat(m, k, k) && i < j < k && m[i] == m[j]
    ensures !TrivialKernel(m, k)
  {
    hide Eliminate;
    hide Combine;
    hide TrivialKernel;
    if TrivialKernel(m, k) {
      // The system that asks the same row for two different values has a solution.
      var s := System(m, seq(k, r requires 0 <= r < k => if r == j then Some([1]) else Some([0])));
      EliminationDecides(s, k);
      var t := Eliminate(s, k).0;
      var width: nat := 1;
      var x := SolutionOf(t, k, width, s);
      EqualRowsEqualPayloads(s, x, k, width, i, j);
      assert false;
    }
  }

  lemma EqualRowsEqualPayloads(s: System, x: Mat, k: nat, width: nat, i: nat, j: nat)
    requires WellFormed(s, k) && IsMat(x, k, width) && Solves(s, x, k, width)
    requires i < |s.rows| && j < |s.rows| && s.rows[i] == s.rows[j]
    requires s.payloads[i].Some? && s.payloads[j].Some?
    ensures s.payloads[i].value == s.payloads[j].value
  {
    hide Combine;
    assert RowSolved(s.rows[i], s.payloads[i], x, width);
    assert RowSolved(s.rows[j], s.payloads[j], x, width);
  }

  /** The payloads of an eliminated system solve the original one. */
  lemma SolutionOf(t: System, k: nat, width: nat, s: System) returns (x: Mat)
    requires WellFormed(s, k) && |s.rows| == k && Reaches(s, t, k)
    requires AllCarried(s) && PayloadWidth(s, width) && t.rows == Identity(k)
    ensures IsMat(x, k, width) && Solves(s, x, k, width)
    ensures |t.payloads| == k && forall r :: 0 <= r < k ==> t.payloads[r] == Some(x[r])
  {
    hide Combine;
    SolutionsPreserved(s, t, k, seq(k, _ => Zeros(width)), width);
    x := seq(k, r requires 0 <= r < k => t.payloads[r].value);
    forall r | 0 <= r < k
      ensures RowSolved(t.rows[r], t.payloads[r], x, width)
    {
      CombineUnit(r, x, width);
    }
    SolutionsPreserved(s, t, k, x, width);
  }

  /** Rows of the code are independent exactly when no two have the same origin. */
  lemma IndependentIffDistinct(k: nat, kinds: seq<RowKind>)
    requires k <= 256 && |kinds| == k
    requires forall r :: 0 <= r < k ==> ValidKind(k, kinds[r])
    ensures TrivialKernel(Rows(k, kinds), k) <==> DistinctKinds(kinds)
  {
    hide TrivialKernel;
    hide RowOf;
    if DistinctKinds(kinds) {
      AnyKRowsIndependent(k, kinds);
    } else {
      var i, j :| 0 <= i < j < |kinds| && kinds[i] == kinds[j];
      DuplicateRowsSingular(Rows(k, kinds), k, i, j);
    }
  }

  // ----- Packets of the code -----

  /** `p` is the systematic packet of a slot or a repair packet with the row of `kind`. */
  ghost predicate OfKind(p: Packet, k: nat, kind: RowKind)
    requires 0 < k <= 256
  {
    match kind
    case Systematic(slot) => p.isSystematic && p.id % k == slot
    case Repair(_) =>
      && !p.isSystematic && p.coefficients.Some?
      && p.coeffLen == k <= |p.coefficients.value|
      && p.coefficients.value[..k] == RowOf(k, kind)
  }

  /** The rows the decoder keeps: at most k, and a systematic slot only once. */
  function KeptKinds(k: nat, kinds: seq<RowKind>): (kept: seq<RowKind>)
    ensures |kept| <= k
    ensures forall kind :: kind in kept ==> kind in kinds
    decreases |kinds|
  {
    if |kinds| == 0 then [] else
      var n := |kinds| - 1;
      var before := KeptKinds(k, kinds[..n]);
      if |before| < k && !(kinds[n].Systematic? && kinds[n] in before) then before + [kinds[n]] else before
  }

  ghost predicate Match(pkts: seq<Packet>, k: nat, kinds: seq<RowKind>)
    requires 0 < k <= 256
  {
    |pkts| == |kinds| && forall i :: 0 <= i < |pkts| ==> OfKind(pkts[i], k, kinds[i])
  }

  lemma {:induction false} KeptMatches(k: nat, pkts: seq<Packet>, kinds: seq<RowKind>)
    requires 0 < k <= 256 && Match(pkts, k, kinds)
    ensures Match(Kept(k, pkts), k, KeptKinds(k, kinds))
    decreases |pkts|
  {
    if |pkts| > 0 {
      var n := |pkts| - 1;
      KeptMatches(k, pkts[..n], kinds[..n]);
      var before, kinds' := Kept(k, pkts[..n]), KeptKinds(k, kinds[..n]);
      TakesMatches(k, before, kinds', pkts[n], kinds[n]);
    }
  }

  lemma TakesMatches(k: nat, kept: seq<Packet>, kinds: seq<RowKind>, p: Packet, kind: RowKind)
    requires 0 < k <= 256 && Match(kept, k, kinds) && OfKind(p, k, kind)
    ensures Takes(k, kept, p) <==> !(kind.Systematic? && kind in kinds)
  {
    if kind.Systematic? {
      if kind in kinds {
        var i :| 0 <= i < |kinds| && kinds[i] == kind;
        assert kept[i] in kept && OfKind(kept[i], k, kinds[i]);
      } else {
        forall q | q in kept && q.isSystematic
          ensures q.id % k != p.id % k
        {
          var i :| 0 <= i < |kept| && kept[i] == q;
          assert OfKind(kept[i], k, kinds[i]) && kinds[i] in kinds;
        }
      }
    }
  }

  lemma GatheredRows(k: nat, kept: seq<Packet>, kinds: seq<RowKind>)
    requires 0 < k <= 256 && Match(kept, k, kinds) && AllHaveRows(kept, k)
    ensures Gathered(kept, k).rows == Rows(k, kinds)
  {
    forall i | 0 <= i < |kept|
      ensures RowOfPacket(kept[i], k) == RowOf(k, kinds[i])
    {
      assert OfKind(kept[i], k, kinds[i]);
    }
  }

  /**
  A run over packets of the code decodes exactly when k rows were kept and no
  repair row was kept twice.
   */
  lemma DecodesIffDistinct(k: nat, blockSize: nat, pkts: seq<Packet>, kinds: seq<RowKind>)
    requires 0 < k <= 256 && Match(pkts, k, kinds) && AllWellSized(pkts, k, blockSize)
    requires forall i :: 0 <= i < |kinds| ==> ValidKind(k, kinds[i])
    ensures Receive(Fresh(k, blockSize), pkts).decoded
       <==> |KeptKinds(k, kinds)| == k && DistinctKinds(KeptKinds(k, kinds))
  {
    hide Kept;
    hide KeptKinds;
    hide Receive;
    hide TrivialKernel;
    hide RowOf;
    KeptMatches(k, pkts, kinds);
    DecodedIff(k, blockSize, pkts);
    var kept, kinds' := Kept(k, pkts), KeptKinds(k, kinds);
    GatheredRows(k, kept, kinds');
    forall i | 0 <= i < |kinds'|
      ensures ValidKind(k, kinds'[i])
    {
      assert kinds'[i] in kinds;
    }
    if |kinds'| == k {
      IndependentIffDistinct(k, kinds');
    }
  }

  // ----- When a decoder can still succeed -----

  /** A repair row kept twice spoils every later run, whatever packets still come. */
  lemma RepeatedRowStops(k: nat, blockSize: nat, pkts: seq<Packet>, kinds: seq<RowKind>, more: seq<Packet>)
    requires 0 < k <= 256 && Match(pkts, k, kinds) && AllWellSized(pkts + more, k, blockSize)
    requires !DistinctKinds(KeptKinds(k, kinds))
    ensures !Receive(Fresh(k, blockSize), pkts + more).decoded
  {
    hide Kept, KeptKinds, Receive, RowOf, AllWellSized;
    KeptMatches(k, pkts, kinds);
    var kept, kinds' := Kept(k, pkts), KeptKinds(k, kinds);
    var i, j :| 0 <= i < j < |kinds'| && kinds'[i] == kinds'[j];
    SameKindSameRow(k, kept[i], kept[j], kinds'[i]);
    SameRowStops(k, blockSize, pkts, i, j, more);
  }

  /** Two kept packets with the same row spoil every later run. */
  lemma SameRowStops(k: nat, blockSize: nat, pkts: seq<Packet>, i: nat, j: nat, more: seq<Packet>)
    requires k > 0 && AllWellSized(pkts + more, k, blockSize) && i < j < |Kept(k, pkts)|
    requires HasRow(Kept(k, pkts)[i], k) && HasRow(Kept(k, pkts)[j], k)
    requires RowOfPacket(Kept(k, pkts)[i], k) == RowOfPacket(Kept(k, pkts)[j], k)
    ensures !Receive(Fresh(k, blockSize), pkts + more).decoded
  {
    hide Kept, Receive, TrivialKernel, RowOfPacket;
    KeptPrefix(k, pkts, more);
    DecodedIff(k, blockSize, pkts + more);
    var all := Kept(k, pkts + more);
    if |all| == k {
      DuplicateRowsSingular(Gathered(all, k).rows, k, i, j);
    }
  }

  lemma SameKindSameRow(k: nat, p: Packet, q: Packet, kind: RowKind)
    requires 0 < k <= 256 && OfKind(p, k, kind) && OfKind(q, k, kind)
    ensures HasRow(p, k) && HasRow(q, k) && RowOfPacket(p, k) == RowOfPacket(q, k)
  {
    hide RowOf;
  }

  function AllSlots(n: nat): (kinds: seq<RowKind>)
    ensures |kinds| == n
  {
    seq(n, i requires 0 <= i < n => Systematic(i))
  }

  /** Keeping one more kind. */
  lemma KeepOne(k: nat, kinds: seq<RowKind>, kind: RowKind)
    ensures
      var before := KeptKinds(k, kinds);
      KeptKinds(k, kinds + [kind])
        == if |before| < k && !(kind.Systematic? && kind in before) then before + [kind] else before
  {
    assert (kinds + [kind])[..|kinds|] == kinds;
  }

  lemma {:induction false} SlotsFill(k: nat, kinds: seq<RowKind>, n: nat)
    requires DistinctKinds(KeptKinds(k, kinds))
    ensures
      var kept := KeptKinds(k, kinds + AllSlots(n));
      DistinctKinds(kept) && (|kept| == k || forall s: nat :: s < n ==> Systematic(s) in kept)
    decreases n
  {
    hide KeptKinds;
    if n == 0 {
      assert kinds + AllSlots(0) == kinds;
    } else {
      SlotsFill(k, kinds, n - 1);
      KeepOne(k, kinds + AllSlots(n - 1), Systematic(n - 1));
      assert kinds + AllSlots(n) == kinds + AllSlots(n - 1) + [Systematic(n - 1)];
    }
  }

  /** k different slots do not fit into fewer than k kept rows. */
  lemma SlotsCount(kept: seq<RowKind>, n: nat)
    requires forall s: nat :: s < n ==> Systematic(s) in kept
    ensures n <= |kept|
  {
    DistinctSize(AllSlots(n));
    ElementsCount(kept);
    SubsetSize(Elements(AllSlots(n)), Elements(kept));
  }

  /** The source packets of all slots, as far as the coefficients are concerned. */
  function AllSources(k: nat): (pkts: seq<Packet>)
    ensures |pkts| == k
  {
    seq(k, i requires 0 <= i < k => Packet(i, None, 0, true, None, 0))
  }

  lemma SourceKind(k: nat, blockSize: nat, i: nat)
    requires i < k <= 256
    ensures OfKind(AllSources(k)[i], k, AllSlots(k)[i]) && WellSized(AllSources(k)[i], k, blockSize)
    ensures ValidKind(k, AllSlots(k)[i])
  {
    QuotientOf(i, k, 0, i);
  }

  lemma SourcesMatch(k: nat, blockSize: nat, pkts: seq<Packet>, kinds: seq<RowKind>)
    requires 0 < k <= 256 && Match(pkts, k, kinds) && AllWellSized(pkts, k, blockSize)
    requires forall i :: 0 <= i < |kinds| ==> ValidKind(k, kinds[i])
    ensures Match(pkts + AllSources(k), k, kinds + AllSlots(k)) && AllWellSized(pkts + AllSources(k), k, blockSize)
    ensures forall i :: 0 <= i < |kinds + AllSlots(k)| ==> ValidKind(k, (kinds + AllSlots(k))[i])
  {
    hide RowOf, OfKind, WellSized, ValidKind;
    var all, kinds' := pkts + AllSources(k), kinds + AllSlots(k);
    forall i | 0 <= i < |all|
      ensures OfKind(all[i], k, kinds'[i]) && WellSized(all[i], k, blockSize) && ValidKind(k, kinds'[i])
    {
      if i < |pkts| {
        assert OfKind(pkts[i], k, kinds[i]) && WellSized(pkts[i], k, blockSize);
      } else {
        SourceKind(k, blockSize, i - |pkts|);
      }
    }
  }

  /** With no row kept twice, the k source packets finish the job. */
  lemma SourcesFinish(k: nat, blockSize: nat, pkts: seq<Packet>, kinds: seq<RowKind>)
    requires 0 < k <= 256 && Match(pkts, k, kinds) && AllWellSized(pkts, k, blockSize)
    requires forall i :: 0 <= i < |kinds| ==> ValidKind(k, kinds[i])
    requires DistinctKinds(KeptKinds(k, kinds))
    ensures AllWellSized(pkts + AllSources(k), k, blockSize)
    ensures Receive(Fresh(k, blockSize), pkts + AllSources(k)).decoded
  {
    hide Match, AllWellSized, KeptKinds, Receive, DistinctKinds;
    var kinds' := kinds + AllSlots(k);
    SourcesMatch(k, blockSize, pkts, kinds);
    SlotsFill(k, kinds, k);
    if |KeptKinds(k, kinds')| < k {
      SlotsCount(KeptKinds(k, kinds'), k);
    }
    DecodesIffDistinct(k, blockSize, pkts + AllSources(k), kinds');
  }

  /**
  Some packets still to come can make the decoder succeed if and only if it has
  kept no row twice: a repeated repair row stops it for good.
   */
  lemma CanStillDecodeIff(k: nat, blockSize: nat, pkts: seq<Packet>, kinds: seq<RowKind>)
    requires 0 < k <= 256 && Match(pkts, k, kinds) && AllWellSized(pkts, k, blockSize)
    requires forall i :: 0 <= i < |kinds| ==> ValidKind(k, kinds[i])
    ensures (exists more :: AllWellSized(pkts + more, k, blockSize)
                            && Receive(Fresh(k, blockSize), pkts + more).decoded)
       <==> DistinctKinds(KeptKinds(k, kinds))
  {
    hide Match, AllWellSized, KeptKinds, Receive, DistinctKinds;
    if DistinctKinds(KeptKinds(k, kinds)) {
      SourcesFinish(k, blockSize, pkts, kinds);
    } else {
      forall more | AllWellSized(pkts + more, k, blockSize)
        ensures !Receive(Fresh(k, blockSize), pkts + more).decoded
      {
        RepeatedRowStops(k, blockSize, pkts, kinds, more);
      }
    }
  }

  /** The smallest case: the same repair packet received twice with k = 2. */
  lemma TwiceTheSame(blockSize: nat, p: Packet, y: Byte, more: seq<Packet>)
    requires y >= 2 && OfKind(p, 2, Repair(y)) && AllWellSized([p, p] + more, 2, blockSize)
    ensures !Receive(Fresh(2, blockSize), [p, p] + more).decoded
  {
    hide Receive, RowOf;
    var kinds := [Repair(y), Repair(y)];
    assert kinds[..1] == [Repair(y)] && kinds[..1][..0] == [];
    assert KeptKinds(2, kinds[..1]) == [Repair(y)];
    assert KeptKinds(2, kinds) == kinds;
    assert kinds[0] == kinds[1];
    RepeatedRowStops(2, blockSize, [p, p], kinds, more);
  }

  // ----- When k packets suffice -----

  ghost predicate RepairsOnce(kinds: seq<RowKind>) {
    forall i, j :: 0 <= i < j < |kinds| && kinds[i] == kinds[j] ==> kinds[i].Systematic?
  }

  lemma {:induction false} KeptKindsCount(k: nat, kinds: seq<RowKind>)
    requires RepairsOnce(kinds)
    ensures DistinctKinds(KeptKinds(k, kinds))
    ensures |KeptKinds(k, kinds)| < k ==> Elements(KeptKinds(k, kinds)) == Elements(kinds)
    decreases |kinds|
  {
    if |kinds| > 0 {
      var n := |kinds| - 1;
      var rest, last := kinds[..n], kinds[n];
      KeptKindsCount(k, rest);
      var before := KeptKinds(k, rest);
      assert kinds == rest + [last];
      assert Elements(kinds) == Elements(rest) + {last};
      if |before| < k && !(last.Systematic? && last in before) {
        assert Elements(before + [last]) == Elements(before) + {last};
        assert last !in before;
      } else if |before| < k {
        assert last in Elements(before);
      }
    }
  }

  /**
  Any k packets suffice: as soon as k different packets of the code have
  arrived, in any order and mixed with repeated systematic packets, the decoder
  has decoded, provided no repair packet arrives twice.
   */
  lemma AnyKPacketsSuffice(k: nat, blockSize: nat, pkts: seq<Packet>, kinds: seq<RowKind>)
    requires 0 < k <= 256 && Match(pkts, k, kinds) && AllWellSized(pkts, k, blockSize)
    requires forall i :: 0 <= i < |kinds| ==> ValidKind(k, kinds[i])
    requires RepairsOnce(kinds)
    ensures Receive(Fresh(k, blockSize), pkts).decoded <==> |Elements(kinds)| >= k
  {
    hide KeptKinds;
    hide Receive;
    hide Elements;
    hide OfKind;
    DecodesIffDistinct(k, blockSize, pkts, kinds);
    var kept := KeptKinds(k, kinds);
    KeptKindsCount(k, kinds);
    ElementsCount(kept);
    KeptSetCount(kept, kinds);
  }

  lemma KeptSetCount(kept: seq<RowKind>, kinds: seq<RowKind>)
    requires DistinctKinds(kept) && forall kind :: kind in kept ==> kind in kinds
    ensures |kept| == |Elements(kept)| <= |Elements(kinds)|
  {
    DistinctSize(kept);
    assert Elements(kept) <= Elements(kinds);
    SubsetSize(Elements(kept), Elements(kinds));
  }
}
