/**
Repair packets over the wire: printed by the sender, parsed in place by the
receiver, and decoded. The in-place parser leaves old bytes of the frame behind
the payload, and the decoder eliminates whole blocks, so only the bytes within
the payload length are sure to come back.
 */
module Wire {
  import opened Field
  import opened Options
  import opened LinearAlgebra
  import opened Cauchy
  import opened Decoding
  import opened DecoderRuns
  import opened Recovery
  import opened DataRecovery
  import opened Encoding
  import opened Packets

  /** A repair packet printed to the front of a receive block and parsed there. */
  lemma ArrivedRepair(id: nat, p: Packet, junk: seq<Byte>)
    requires Backed(p) && WellFormedPacket(p) && !p.isSystematic
    ensures Holds(Raw(p) + junk, |Raw(p)|) && p.coefficients.Some? && p.coeffLen <= |Raw(p)|
    ensures Arrived(id, Raw(p) + junk, |Raw(p)|)
         == Packet(id, Some(p.data.value[..p.len] + (Raw(p) + junk)[p.len..]), p.len, false,
                   Some(Padded(p.coefficients.value[..p.coeffLen], |Raw(p) + junk|)), p.coeffLen)
  {
    hide Parse;
    FramingRoundTrip(p);
    assert (Raw(p) + junk)[..|Raw(p)|] == Raw(p);
  }

  /** What is needed to send k repair packets of a window, each in a block of the receiver. */
  ghost predicate Shipped(window: seq<Packet>, k: nat, indices: seq<nat>, ids: seq<nat>, junks: seq<seq<Byte>>, blockSize: nat) {
    && Ready(window, k, blockSize) && DistinctIndices(k, indices) && |ids| == |junks| == k
    && forall i :: 0 <= i < k ==> 3 + k + window[0].len + |junks[i]| == blockSize
  }

  lemma RepairShape(window: seq<Packet>, k: nat, index: nat, blockSize: nat)
    requires Ready(window, k, blockSize) && k <= Param(k, index)
    ensures
      var p, row := RepairPacket(window, k, index, blockSize), RowOf(k, RepairKind(k, index));
      && Backed(p) && WellFormedPacket(p) && !p.isSystematic && p.len == window[0].len && p.coeffLen == k
      && p.coefficients.Some? && p.coefficients.value[..k] == row
      && p.data == Some(Combine(row, SourceBlocks(window, k, blockSize), blockSize))
      && |Raw(p)| == 3 + k + p.len
  {
    hide RowOf, Combine;
  }

  /** The block in which the i-th packet is received. */
  ghost function ReceiveBlock(
      window: seq<Packet>, k: nat, indices: seq<nat>, ids: seq<nat>, junks: seq<seq<Byte>>, blockSize: nat, i: nat): (b: seq<Byte>)
    requires Shipped(window, k, indices, ids, junks, blockSize) && i < k
    ensures |b| == blockSize
  {
    RepairShape(window, k, indices[i], blockSize);
    Raw(RepairPacket(window, k, indices[i], blockSize)) + junks[i]
  }

  ghost function Received(
      window: seq<Packet>, k: nat, indices: seq<nat>, ids: seq<nat>, junks: seq<seq<Byte>>, blockSize: nat, i: nat): Packet
    requires Shipped(window, k, indices, ids, junks, blockSize) && i < k
  {
    var p := RepairPacket(window, k, indices[i], blockSize);
    RepairShape(window, k, indices[i], blockSize);
    ArrivedRepair(ids[i], p, junks[i]);
    Arrived(ids[i], ReceiveBlock(window, k, indices, ids, junks, blockSize, i), |Raw(p)|)
  }

  ghost function AllReceived(
      window: seq<Packet>, k: nat, indices: seq<nat>, ids: seq<nat>, junks: seq<seq<Byte>>, blockSize: nat): (pkts: seq<Packet>)
    requires Shipped(window, k, indices, ids, junks, blockSize)
    ensures |pkts| == k
  {
    seq(k, i requires 0 <= i < k => Received(window, k, indices, ids, junks, blockSize, i))
  }

  /** The data of a received repair packet: the payload, and the bytes the block held behind it. */
  lemma ReceivedData(
      window: seq<Packet>, k: nat, indices: seq<nat>, ids: seq<nat>, junks: seq<seq<Byte>>, blockSize: nat, i: nat)
    requires Shipped(window, k, indices, ids, junks, blockSize) && i < k && k <= 256
    ensures
      var a, row, len := Received(window, k, indices, ids, junks, blockSize, i), RowOf(k, RepairKind(k, indices[i])), window[0].len;
      && OfKind(a, k, RepairKind(k, indices[i])) && WellSized(a, k, blockSize)
      && a.data == Some(Combine(row, SourceBlocks(window, k, blockSize), blockSize)[..len]
                        + ReceiveBlock(window, k, indices, ids, junks, blockSize, i)[len..])
  {
    hide RowOf, Combine, RepairPacket, Raw, Arrived;
    var p := RepairPacket(window, k, indices[i], blockSize);
    RepairShape(window, k, indices[i], blockSize);
    ArrivedRepair(ids[i], p, junks[i]);
    var row := RowOf(k, RepairKind(k, indices[i]));
    assert Padded(row, blockSize)[..k] == row;
  }

  /** Beyond the payload length the combined blocks are zero. */
  lemma CombinedTail(window: seq<Packet>, k: nat, u: Vec, blockSize: nat)
    requires Ready(window, k, blockSize) && |u| == k
    ensures Combine(u, SourceBlocks(window, k, blockSize), blockSize)[window[0].len..] == Zeros(blockSize - window[0].len)
  {
    hide Mul;
    var x := SourceBlocks(window, k, blockSize);
    forall b | window[0].len <= b < blockSize
      ensures Combine(u, x, blockSize)[b] == 0
    {
      assert Col(x, b) == Zeros(k);
      CombineAt(u, x, blockSize, b);
      DotComm(u, Zeros(k));
      DotZeroLeft(u);
    }
  }

  lemma SplitAt(u: seq<Byte>, v: seq<Byte>, w: seq<Byte>, n: nat)
    requires n <= |w| && |u| == n
    ensures u + v == w <==> u == w[..n] && v == w[n..]
  {
    assert w == w[..n] + w[n..];
    if u + v == w {
      assert (u + v)[..n] == u && (u + v)[n..] == v;
    }
  }

  /**
  Decoding k repair packets that came over the wire gives back the payload of
  every source packet at the front of its block, with the slot as id and the
  whole block as length. The whole blocks come back if and only if every receive
  block was zero from the payload length on.
   */
  lemma WireRecovery(
      window: seq<Packet>, k: nat, indices: seq<nat>, ids: seq<nat>, junks: seq<seq<Byte>>, blockSize: nat)
    requires Shipped(window, k, indices, ids, junks, blockSize)
    ensures AllWellSized(AllReceived(window, k, indices, ids, junks, blockSize), k, blockSize)
    ensures
      var st := Receive(Fresh(k, blockSize), AllReceived(window, k, indices, ids, junks, blockSize));
      var len := window[0].len;
      && st.decoded && |st.slots| == k
      && (forall i :: 0 <= i < k ==>
            && st.slots[i].Some? && st.slots[i].value.id == i && st.slots[i].value.len == blockSize
            && st.slots[i].value.data.Some? && |st.slots[i].value.data.value| == blockSize
            && st.slots[i].value.data.value[..len] == window[i].data.value[..len])
      && (Recovered(st, SourceBlocks(window, k, blockSize)) <==>
            forall i :: 0 <= i < k ==>
              ReceiveBlock(window, k, indices, ids, junks, blockSize, i)[len..] == Zeros(blockSize - len))
  {
    hide Receive, Received, Recovered, Combine, RowOf, RepairPacket, ReceiveBlock, OfKind, WellSized;
    SentShape(window, k, indices, blockSize);
    var pkts, kinds := AllReceived(window, k, indices, ids, junks, blockSize), KindsOf(k, indices);
    var x, len := SourceBlocks(window, k, blockSize), window[0].len;
    forall i | 0 <= i < k
      ensures OfKind(pkts[i], k, kinds[i]) && WellSized(pkts[i], k, blockSize)
      ensures pkts[i].data.Some? && |pkts[i].data.value| == blockSize
      ensures pkts[i].data.value[..len] == Combine(RowOf(k, kinds[i]), x, blockSize)[..len]
      ensures pkts[i].data == Some(Combine(RowOf(k, kinds[i]), x, blockSize)) <==>
              ReceiveBlock(window, k, indices, ids, junks, blockSize, i)[len..] == Zeros(blockSize - len)
    {
      ReceivedData(window, k, indices, ids, junks, blockSize, i);
      var whole := Combine(RowOf(k, kinds[i]), x, blockSize);
      CombinedTail(window, k, RowOf(k, kinds[i]), blockSize);
      SplitAt(whole[..len], ReceiveBlock(window, k, indices, ids, junks, blockSize, i)[len..], whole, len);
    }
    forall r, b | 0 <= r < k && 0 <= b < len
      ensures pkts[r].data.value[b] == Combine(RowOf(k, kinds[r]), x, blockSize)[b]
    {
      assert pkts[r].data.value[..len][b] == Combine(RowOf(k, kinds[r]), x, blockSize)[..len][b];
    }
    var y := PrefixRecovers(k, kinds, pkts, x, blockSize, len);
    RepairsRecover(k, kinds, pkts, x, blockSize);
    forall i | 0 <= i < k
      ensures y[i][..len] == window[i].data.value[..len] && Padded(y[i], blockSize) == y[i]
    {
      assert x[i][..len] == window[i].data.value[..len];
    }
  }

  /**
  When that is the case: the payload is at least as long as the header, ends in
  as many zeros, and the block was zero behind the frame.
   */
  lemma BlockTailZeroIff(
      window: seq<Packet>, k: nat, indices: seq<nat>, ids: seq<nat>, junks: seq<seq<Byte>>, blockSize: nat, i: nat)
    requires Shipped(window, k, indices, ids, junks, blockSize) && i < k && k <= 256
    ensures
      var len := window[0].len;
      var payload := Combine(RowOf(k, RepairKind(k, indices[i])), SourceBlocks(window, k, blockSize), blockSize)[..len];
      ReceiveBlock(window, k, indices, ids, junks, blockSize, i)[len..] == Zeros(blockSize - len) <==>
        len >= 3 + k && payload[len - 3 - k..] == Zeros(3 + k) && junks[i] == Zeros(|junks[i]|)
  {
    hide Combine, RowOf, RepairPacket;
    var p := RepairPacket(window, k, indices[i], blockSize);
    RepairShape(window, k, indices[i], blockSize);
    var len, header, payload, junk := window[0].len, Header(p), p.data.value[..p.len], junks[i];
    var block := header + payload + junk;
    LastCoefficient(k, indices[i]);
    assert |header| == 3 + k && header[2 + k] == p.coefficients.value[..k][k - 1] != 0;
    TailOfParts(header, payload, junk);
  }

  lemma LastCoefficient(k: nat, index: nat)
    requires 0 < k <= 256 && k <= Param(k, index)
    ensures RowOf(k, RepairKind(k, index))[k - 1] != 0
  {
    hide Inv, Add;
    var y := Param(k, index);
    AddCancel(k - 1, y);
    MulInv(Add(k - 1, y));
  }

  lemma TailOfParts(header: seq<Byte>, payload: seq<Byte>, junk: seq<Byte>)
    requires |header| > 0 && header[|header| - 1] != 0
    ensures
      var block, h, n := header + payload + junk, |header|, |payload|;
      block[n..] == Zeros(|block| - n) <==> n >= h && payload[n - h..] == Zeros(h) && junk == Zeros(|junk|)
  {
    var block, h, n := header + payload + junk, |header|, |payload|;
    if n < h {
      assert block[n..][h - 1 - n] == header[h - 1] != 0;
    } else {
      var zeros := Zeros(h + |junk|);
      assert block[n..] == payload[n - h..] + junk;
      assert zeros[..h] == Zeros(h) && zeros[h..] == Zeros(|junk|);
      SplitAt(payload[n - h..], junk, zeros, h);
    }
  }
}
