/**
The adaptive stack: the current encoder and decoder, the old pair during a
cross-fade, and the loss reports that replace them. Encoders and decoders are
the states their classes step through. The 16-bit code of Extreme mode and the
decoder for more than 256 rows are not part of this model; what they answer is
a parameter.
 */
module AdaptiveStack {
  import opened Basics
  import opened Field
  import opened Options
  import opened LinearAlgebra
  import opened Gauss
  import opened Cauchy
  import opened Decoding
  import opened DecoderRuns
  import opened Recovery
  import opened DataRecovery
  import opened LongRuns
  import opened Encoding
  import opened Packets
  import opened Adaptive
  import opened Controllers

  // ----- Encoders -----

  datatype EncoderState = EncoderState(mode: FecMode, k: nat, n: nat, window: seq<Packet>)

  function NewEncoder(mode: FecMode, window: nat): EncoderState {
    var (k, n) := ParamsFor(mode, window);
    EncoderState(mode, k, n, [])
  }

  /** An encoder with the parameters of its mode, and the packets it was given. */
  ghost predicate InService(e: EncoderState, sources: seq<Packet>) {
    && InWindowRange(e.mode, e.k) && (e.k, e.n) == ParamsFor(e.mode, e.k)
    && e.window == PushAll(e.k, sources)
  }

  function AddSource(e: EncoderState, p: Packet): EncoderState {
    e.(window := Push(e.window, e.k, p))
  }

  lemma AddSourceInService(e: EncoderState, sources: seq<Packet>, p: Packet)
    requires InService(e, sources)
    ensures InService(AddSource(e, p), sources + [p])
  {
    hide ParamsFor;
    assert (sources + [p])[..|sources|] == sources;
  }

  /**
  What the code needs to emit the repair packets of a full window without a
  panic: packets it can combine, and in the modes whose windows may be too
  large, parameters within one byte.
   */
  ghost predicate CanEmit(e: EncoderState, blockSize: nat) {
    !e.mode.Extreme? && e.k < e.n && |e.window| >= e.k ==>
      && Ready(e.window, e.k, blockSize)
      && (e.mode.Medium? || e.mode.Strong? ==> RepairsDefined(e.k, e.n))
  }

  /** In Light and Normal every Cauchy inverse is defined, for old and new encoders alike. */
  lemma EmitsDefined(e: EncoderState, sources: seq<Packet>, blockSize: nat)
    requires InService(e, sources) && CanEmit(e, blockSize)
    requires !e.mode.Extreme? && e.k < e.n && |e.window| >= e.k
    ensures RepairsDefined(e.k, e.n)
    ensures forall i: nat :: i < e.n - e.k ==> e.k <= Param(e.k, i)
  {
    hide ParamsFor, Ready, PushAll;
    if e.mode.Light? || e.mode.Normal? {
      EncodableModes(e.mode, e.k);
    }
    forall i: nat | i < e.n - e.k
      ensures e.k <= Param(e.k, i)
    {
      InvertibleIff(e.k, i);
    }
  }

  /** The packets an encoder emits on a send: all repair packets of its window once it is full. */
  ghost function Emitted(e: EncoderState, sources: seq<Packet>, blockSize: nat, other: seq<Packet>): seq<Packet>
    requires InService(e, sources) && CanEmit(e, blockSize)
  {
    if e.mode.Extreme? then other
    else if e.k >= e.n || |e.window| < e.k then []
    else
      EmitsDefined(e, sources, blockSize);
      seq(e.n - e.k, i requires 0 <= i < e.n - e.k => RepairPacket(e.window, e.k, i, blockSize))
  }

  method EmitRepairs(e: EncoderState, blockSize: nat, other: seq<Packet>, ghost sources: seq<Packet>)
    returns (out: seq<Packet>)
    requires InService(e, sources) && CanEmit(e, blockSize)
    ensures out == Emitted(e, sources, blockSize, other)
  {
    hide RepairPacket, ParamsFor, PushAll;
    if e.mode.Extreme? {
      return other;
    }
    out := [];
    var numRepair := if e.n < e.k then 0 else e.n - e.k;
    for i := 0 to numRepair
      invariant if |e.window| < e.k then out == [] else out == Emitted(e, sources, blockSize, other)[..i]
    {
      if |e.window| >= e.k {
        EmitsDefined(e, sources, blockSize);
        out := out + [RepairPacket(e.window, e.k, i, blockSize)];
      }
    }
  }

  // ----- Decoders -----

  /** A decoder in service: the elimination decoder with its state, or one that is not modelled. */
  datatype DecoderState = Gaussian(serial: nat, st: State, long: seq<bool>) | Other(serial: nat, size: nat, done: bool)

  /** What a decoder that is not modelled answers to a packet, and the packets it would hand out. */
  datatype Reply = Reply(answer: Answer, packets: seq<Packet>)

  /** What comes of a received packet: packets or an error, or a panic. */
  datatype Handed = Handed(result: Result<seq<Packet>>) | Panicked

  function NewDecoder(serial: nat, mode: FecMode, k: nat, blockSize: nat): DecoderState {
    if mode.Extreme? || k > 256 then Other(serial, k, false) else Gaussian(serial, Fresh(k, blockSize), [])
  }

  predicate IsDecoded(d: DecoderState) {
    match d
    case Gaussian(_, st, _) => st.decoded
    case Other(_, _, done) => done
  }

  function Size(d: DecoderState): nat {
    match d
    case Gaussian(_, st, _) => st.k
    case Other(_, size, _) => size
  }

  /** A packet that brings no row: every decoder refuses it, and no decoder succeeds on it. */
  predicate NoRow(p: Packet) {
    !p.isSystematic && p.coefficients.None?
  }

  /** What a decoder needs of a packet, and what is known of the answer of one that is not modelled. */
  ghost predicate CanTake(d: DecoderState, p: Packet, reply: Reply) {
    match d
    case Gaussian(_, st, long) => ValidState(st) && |long| == |st.system.rows| && Storable(p, st.blockSize)
    case Other(_, _, done) =>
      match reply.answer
      case OutOfBounds => true
      case Told(Err(_)) => NoRow(p) && !done
      case Told(Ok(now)) => (done ==> now) && (now && !done ==> !NoRow(p))
  }

  function Offer(d: DecoderState, p: Packet, reply: Reply): (DecoderState, Answer)
    requires CanTake(d, p, reply)
  {
    match d
    case Gaussian(_, st, long) =>
      if Crashes(st, long, p) then (d, OutOfBounds)
      else
        AcceptRows(st, p);
        var (t, result) := Accept(st, Clipped(p, st.k));
        (d.(st := t, long := LongAfter(st, long, p)), Told(result))
    case Other(_, _, _) =>
      (if reply.answer.Told? && reply.answer.result.Ok? then d.(done := reply.answer.result.value) else d, reply.answer)
  }

  function EmptySlots(k: nat): (slots: seq<Option<Packet>>)
    ensures |slots| == k
  {
    seq(k, _ => None)
  }

  /** A decoder hands its packets out and keeps none. */
  function HandOver(d: DecoderState, reply: Reply): (DecoderState, seq<Packet>) {
    match d
    case Gaussian(_, st, _) => (d.(st := st.(slots := EmptySlots(|st.slots|))), Present(st.slots))
    case Other(_, _, _) => (d, reply.packets)
  }

  /** One packet for one decoder: on its first success it hands out its packets. */
  function Take(d: DecoderState, p: Packet, reply: Reply): (DecoderState, Handed)
    requires CanTake(d, p, reply)
  {
    var (e, answer) := Offer(d, p, reply);
    match answer
    case OutOfBounds => (e, Panicked)
    case Told(Err(error)) => (e, Handed(Err(error)))
    case Told(Ok(now)) =>
      if !IsDecoded(d) && now then
        var (f, packets) := HandOver(e, reply);
        (f, Handed(Ok(packets)))
      else (e, Handed(Ok([])))
  }

  /** The decoder is where its run over the received packets has led, its slots emptied after success. */
  ghost predicate Follows(d: DecoderState, received: seq<Packet>, blockSize: nat) {
    d.Gaussian? ==>
      && AllStorable(received, blockSize)
      && var run := ReceiveAny(d.st.k, blockSize, received);
      && run.Alive? && d.long == run.long
      && d.st == if run.st.decoded then run.st.(slots := EmptySlots(run.st.k)) else run.st
  }

  lemma AcceptTells(st: State, p: Packet)
    requires ValidState(st) && Admissible(st, p)
    ensures
      var (t, result) := Accept(st, p);
      && t.k == st.k && t.blockSize == st.blockSize && |t.slots| == st.k
      && (result.Ok? ==> result.value == t.decoded)
      && (result.Err? <==> !Closed(st) && NoRow(p)) && (result.Err? ==> t == st)
      && (t.decoded && !st.decoded ==> !NoRow(p))
  {
    hide Eliminate;
  }

  lemma AppendStorable(received: seq<Packet>, p: Packet, k: nat, blockSize: nat)
    requires AllStorable(received, blockSize) && Storable(p, blockSize)
    ensures AllStorable(received + [p], blockSize)
    ensures ReceiveAny(k, blockSize, received).Alive? ==>
      var run := ReceiveAny(k, blockSize, received);
      ReceiveAny(k, blockSize, received + [p]) == NextRun(run.st, run.long, p)
  {
    hide NextRun, Storable;
    var all := received + [p];
    assert all[..|received|] == received;
    ReceiveNextAny(k, blockSize, all);
  }

  /** After success nothing is added, so nothing can panic. */
  lemma DecodedTakes(st: State, long: seq<bool>, p: Packet)
    requires ValidState(st) && st.decoded && Storable(p, st.blockSize) && |long| == |st.system.rows|
    ensures !Crashes(st, long, p) && LongAfter(st, long, p) == long
    ensures Admissible(st, Clipped(p, st.k)) && Accept(st, Clipped(p, st.k)) == (st, Ok(true))
  {
  }

  /**
  A decoder in service follows its run. It panics exactly when the run does, and
  hands out packets exactly when the run succeeds for the first time, and then
  the packets of the run.
   */
  lemma TakeFollows(d: DecoderState, received: seq<Packet>, p: Packet, reply: Reply, blockSize: nat)
    requires d.Gaussian? && Follows(d, received, blockSize) && CanTake(d, p, reply)
    ensures AllStorable(received + [p], blockSize)
    ensures
      var (e, handed) := Take(d, p, reply);
      var before, after := ReceiveAny(d.st.k, blockSize, received), ReceiveAny(d.st.k, blockSize, received + [p]);
      && (handed.Panicked? <==> after.Crashed?)
      && IsDecoded(d) == before.st.decoded
      && (handed.Handed? ==>
            && Follows(e, received + [p], blockSize) && e.Gaussian? && e.serial == d.serial && e.st.k == d.st.k
            && IsDecoded(e) == after.st.decoded
            && (handed.result.Ok? ==>
                  handed.result.value == if after.st.decoded && !before.st.decoded then Present(after.st.slots) else []))
  {
    hide ReceiveAny, Accept, Present, AllStorable, Crashes, LongAfter, Storable;
    var k := d.st.k;
    AppendStorable(received, p, k, blockSize);
    var run := ReceiveAny(k, blockSize, received);
    AcceptRows(run.st, p);
    AcceptTells(run.st, Clipped(p, k));
    if run.st.decoded {
      DecodedTakes(run.st, run.long, p);
      DecodedTakes(d.st, d.long, p);
    }
  }

  /** Taking a packet keeps a decoder's identity, and its success. */
  lemma TakeKeeps(d: DecoderState, received: seq<Packet>, p: Packet, reply: Reply, blockSize: nat)
    requires Follows(d, received, blockSize) && CanTake(d, p, reply)
    ensures
      var (e, handed) := Take(d, p, reply);
      && e.serial == d.serial && Size(e) == Size(d) && (e.Gaussian? <==> d.Gaussian?)
      && (handed.Handed? ==> Follows(e, received + [p], blockSize))
      && (IsDecoded(d) ==> IsDecoded(e))
  {
    hide Follows, Accept, Present, Crashes;
    if d.Gaussian? {
      TakeDecoded(d, p, reply);
      hide Take;
      TakeFollows(d, received, p, reply, blockSize);
    } else {
      OtherFollows(Take(d, p, reply).0, received + [p], blockSize);
    }
  }

  lemma OtherFollows(d: DecoderState, received: seq<Packet>, blockSize: nat)
    requires d.Other?
    ensures Follows(d, received, blockSize)
  {
  }

  lemma TakeDecoded(d: DecoderState, p: Packet, reply: Reply)
    requires d.Gaussian? && CanTake(d, p, reply)
    ensures
      var (e, handed) := Take(d, p, reply);
      && e.Gaussian? && e.serial == d.serial && Size(e) == Size(d)
      && (IsDecoded(d) ==> IsDecoded(e))
  {
    hide Accept, Present, Crashes;
    AcceptRows(d.st, p);
    AcceptTells(d.st, Clipped(p, d.st.k));
    if d.st.decoded {
      DecodedTakes(d.st, d.long, p);
    }
  }

  /** A decoder refuses only packets without a row, and succeeds only on packets with one. */
  lemma RefusalMeansNoRow(d: DecoderState, p: Packet, reply: Reply)
    requires CanTake(d, p, reply)
    ensures
      var (e, handed) := Take(d, p, reply);
      && (handed.Handed? && handed.result.Err? ==> NoRow(p) && IsDecoded(e) == IsDecoded(d))
      && (!IsDecoded(d) && IsDecoded(e) ==> !NoRow(p))
  {
    hide Accept, Present, Crashes;
    if d.Gaussian? {
      AcceptRows(d.st, p);
      AcceptTells(d.st, Clipped(p, d.st.k));
      ClippedNoRow(p, d.st.k);
    }
  }

  lemma ClippedNoRow(p: Packet, k: nat)
    ensures NoRow(Clipped(p, k)) <==> NoRow(p)
  {
  }

  /**
  The old decoder never refuses a packet on which the current one succeeds for
  the first time: what was handed out is never discarded by an error.
   */
  lemma NothingDiscarded(d: DecoderState, f: DecoderState, p: Packet, r1: Reply, r2: Reply, blockSize: nat)
    requires CanTake(d, p, r1) && Clonable(p, blockSize) && CanTake(f, Cloned(p, blockSize), r2)
    requires !IsDecoded(d) && IsDecoded(Take(d, p, r1).0)
    ensures Take(f, Cloned(p, blockSize), r2).1.Handed? ==> Take(f, Cloned(p, blockSize), r2).1.result.Ok?
  {
    hide Take;
    RefusalMeansNoRow(d, p, r1);
    RefusalMeansNoRow(f, Cloned(p, blockSize), r2);
  }

  lemma NewFollows(serial: nat, mode: FecMode, k: nat, blockSize: nat)
    ensures
      var d := NewDecoder(serial, mode, k, blockSize);
      Follows(d, [], blockSize) && !IsDecoded(d) && Size(d) == k && d.serial == serial
  {
  }

  lemma NewInService(mode: FecMode, window: nat)
    requires InWindowRange(mode, window)
    ensures InService(NewEncoder(mode, window), [])
    ensures NewEncoder(mode, window).k == window && NewEncoder(mode, window).mode == mode
  {
  }

  ghost predicate NoRepeats(s: seq<nat>) {
    forall i, j :: 0 <= i < j < |s| ==> s[i] != s[j]
  }

  /** The serial of a decoder that has just succeeded for the first time. */
  function FirstSuccess(before: DecoderState, after: DecoderState): seq<nat> {
    if !IsDecoded(before) && IsDecoded(after) then [before.serial] else []
  }

  /** A decoder's packets were handed out exactly if it has decoded, and only once. */
  ghost predicate ReleasedOnce(released: seq<nat>, d: DecoderState, fading: Option<DecoderState>, next: nat) {
    && d.serial < next
    && (fading.Some? ==> fading.value.serial < next && fading.value.serial != d.serial)
    && NoRepeats(released)
    && (forall s :: s in released ==> s < next)
    && (d.serial in released <==> IsDecoded(d))
    && (fading.Some? ==> (fading.value.serial in released <==> IsDecoded(fading.value)))
  }

  /** A fresh decoder has a serial of its own, whichever decoder it leaves in service. */
  lemma FreshSerial(released: seq<nat>, d: DecoderState, fading: Option<DecoderState>, next: nat, entering: DecoderState)
    requires ReleasedOnce(released, d, fading, next) && entering.serial == next && !IsDecoded(entering)
    ensures ReleasedOnce(released, entering, fading, next + 1) && ReleasedOnce(released, entering, Some(d), next + 1)
  {
  }

  /** An error of the old decoder comes only with a packet that gave nothing. */
  lemma Discards(d: DecoderState, f: DecoderState, p: Packet, r1: Reply, r2: Reply, blockSize: nat)
    requires CanTake(d, p, r1) && Clonable(p, blockSize) && CanTake(f, Cloned(p, blockSize), r2)
    ensures
      var e, (g, fading) := Take(d, p, r1).0, Take(f, Cloned(p, blockSize), r2);
      fading.Handed? && fading.result.Err? ==> FirstSuccess(d, e) == [] && FirstSuccess(f, g) == []
  {
    hide Take;
    RefusalMeansNoRow(f, Cloned(p, blockSize), r2);
    if !IsDecoded(d) && IsDecoded(Take(d, p, r1).0) {
      NothingDiscarded(d, f, p, r1, r2, blockSize);
    }
  }

  class AdaptiveFec {
    const estimator: LossEstimator
    const manager: ModeManager
    const blockSize: nat
    var encoder: EncoderState
    var decoder: DecoderState
    var transitionEncoder: Option<EncoderState>
    var transitionDecoder: Option<DecoderState>
    var transitionLeft: nat
    var nextSerial: nat

    /** Packets given to each encoder and decoder since it entered service. */
    ghost var sources: seq<Packet>
    ghost var fadingSources: seq<Packet>
    ghost var received: seq<Packet>
    ghost var fadingReceived: seq<Packet>
    /** Serials of the decoders whose packets were handed out, in order. */
    ghost var released: seq<nat>

    /** The old pair exists exactly in the first half of the cross-fade. */
    ghost predicate Fading()
      reads this
    {
      && transitionLeft <= CROSS_FADE_LEN
      && (transitionEncoder.Some? <==> transitionLeft > CROSS_FADE_LEN / 2)
      && (transitionDecoder.Some? <==> transitionLeft > CROSS_FADE_LEN / 2)
    }

    ghost predicate Serials()
      reads this
    {
      ReleasedOnce(released, decoder, transitionDecoder, nextSerial)
    }

    ghost predicate Encoders()
      reads this
    {
      && InService(encoder, sources)
      && (transitionEncoder.Some? ==> InService(transitionEncoder.value, fadingSources))
    }

    ghost predicate Decoders()
      reads this
    {
      && Follows(decoder, received, blockSize) && Size(decoder) == encoder.k
      && (transitionDecoder.Some? ==> Follows(transitionDecoder.value, fadingReceived, blockSize))
    }

    ghost predicate Valid()
      reads this, estimator, estimator.kalman, manager
    {
      && estimator.Valid() && manager.Valid()
      && encoder.mode == manager.currentMode && encoder.k == manager.currentWindow
      && Fading() && Serials() && Encoders() && Decoders()
    }

    constructor (config: Config, blockSize: nat)
      requires Validated(config) && WindowsInRange(config.windowSizes)
      ensures Valid() && transitionLeft == 0 && released == [] && this.blockSize == blockSize
      ensures sources == [] && received == []
    {
      hide ParamsFor, Follows, InService;
      var kalman: KalmanFilter? := null;
      if config.kalmanEnabled {
        kalman := new KalmanFilter(config.kalmanQ, config.kalmanR);
      }
      var mgr := new ModeManager(config);
      var est := new LossEstimator(config.lambda, config.burstWindow, kalman);
      var mode, window := mgr.currentMode, mgr.currentWindow;
      NewInService(mode, window);
      NewFollows(0, mode, window, blockSize);
      estimator := est;
      manager := mgr;
      this.blockSize := blockSize;
      encoder := NewEncoder(mode, window);
      decoder := NewDecoder(0, mode, window, blockSize);
      transitionEncoder, transitionDecoder, transitionLeft, nextSerial := None, None, 0, 1;
      sources, fadingSources, received, fadingReceived, released := [], [], [], [], [];
    }

    predicate IsTransitioning()
      reads this
    {
      transitionLeft > 0
    }

    /**
    One send: both encoders get a copy of the packet; the packet goes out, then
    the repair packets of the old encoder while it serves, then those of the
    current one. `fadingOther` and `mainOther` are what a 16-bit encoder emits.
     */
    method OnSend(pkt: Packet, fadingOther: seq<Packet>, mainOther: seq<Packet>) returns (out: seq<Packet>)
      requires Valid() && Clonable(pkt, blockSize)
      requires CanEmit(AddSource(encoder, Cloned(pkt, blockSize)), blockSize)
      requires transitionEncoder.Some? ==> CanEmit(AddSource(transitionEncoder.value, Cloned(pkt, blockSize)), blockSize)
      modifies this`encoder, this`transitionEncoder, this`transitionDecoder, this`transitionLeft
      modifies this`sources, this`fadingSources
      ensures Valid()
      ensures
        var copy := Cloned(pkt, blockSize);
        var (f, asked) := SendStep(Fade(old(transitionLeft), old(transitionEncoder).Some?));
        && sources == old(sources) + [copy] && encoder == AddSource(old(encoder), copy)
        && (asked <==> old(transitionEncoder).Some?)
        && transitionLeft == f.left && (transitionEncoder.Some? <==> f.serving)
        && (transitionEncoder.Some? ==>
              transitionEncoder == Some(AddSource(old(transitionEncoder).value, copy))
              && fadingSources == old(fadingSources) + [copy] && transitionDecoder == old(transitionDecoder))
        && InService(encoder, sources)
        && (asked ==> InService(AddSource(old(transitionEncoder).value, copy), old(fadingSources) + [copy]))
        && out == [pkt]
             + (if asked then Emitted(AddSource(old(transitionEncoder).value, copy), old(fadingSources) + [copy], blockSize, fadingOther)
                else [])
             + Emitted(encoder, sources, blockSize, mainOther)
    {
      hide InService, Follows, Emitted, CanEmit, Cloned, AddSource, Serials, Decoders;
      var copy := Cloned(pkt, blockSize);
      AddSources(copy);
      out := [pkt];
      if transitionLeft > CROSS_FADE_LEN / 2 {
        if transitionEncoder.Some? {
          var repairs := EmitRepairs(transitionEncoder.value, blockSize, fadingOther, fadingSources);
          out := out + repairs;
        }
      }
      var repairs := EmitRepairs(encoder, blockSize, mainOther, sources);
      out := out + repairs;
      CountDown();
    }

    method AddSources(copy: Packet)
      requires Valid()
      modifies this`encoder, this`transitionEncoder, this`sources, this`fadingSources
      ensures Valid() && encoder == AddSource(old(encoder), copy) && sources == old(sources) + [copy]
      ensures transitionEncoder == if old(transitionEncoder).Some? then Some(AddSource(old(transitionEncoder).value, copy)) else None
      ensures transitionEncoder.Some? ==> fadingSources == old(fadingSources) + [copy]
    {
      hide InService, Follows, AddSource, ReleasedOnce;
      KeepParams(encoder, copy);
      AddSourceInService(encoder, sources, copy);
      if transitionEncoder.Some? {
        AddSourceInService(transitionEncoder.value, fadingSources, copy);
        transitionEncoder := Some(AddSource(transitionEncoder.value, copy));
        fadingSources := fadingSources + [copy];
      }
      encoder := AddSource(encoder, copy);
      sources := sources + [copy];
    }

    /** The end of a send: the cross-fade moves on, and halfway the old pair leaves. */
    method CountDown()
      requires Valid()
      modifies this`transitionEncoder, this`transitionDecoder, this`transitionLeft
      ensures Valid()
      ensures
        var f := SendStep(Fade(old(transitionLeft), old(transitionEncoder).Some?)).0;
        && transitionLeft == f.left
        && transitionEncoder == (if f.serving then old(transitionEncoder) else None)
        && transitionDecoder == if f.serving then old(transitionDecoder) else None
    {
      hide InService, Follows, NoRepeats, IsDecoded;
      if transitionLeft > 0 {
        transitionLeft := transitionLeft - 1;
        if transitionLeft == CROSS_FADE_LEN / 2 {
          transitionEncoder := None;
          transitionDecoder := None;
        }
      }
    }

    /**
    One received packet: the current decoder takes it, then, during the first
    half of a cross-fade, the old decoder takes a copy. Either may panic on a
    packet of a larger window; no error ever discards what was handed out.
     */
    method OnReceive(pkt: Packet, mainReply: Reply, fadingReply: Reply) returns (r: Handed)
      requires Valid() && CanTake(decoder, pkt, mainReply)
      requires transitionDecoder.Some? ==>
        Clonable(pkt, blockSize) && CanTake(transitionDecoder.value, Cloned(pkt, blockSize), fadingReply)
      modifies this`decoder, this`transitionDecoder, this`released, this`received, this`fadingReceived
      ensures
        var (d, main) := Take(old(decoder), pkt, mainReply);
        if main.Panicked? then r == Panicked
        else if main.result.Err? || old(transitionDecoder).None? then
          && Valid() && r == main && decoder == d && transitionDecoder == old(transitionDecoder)
          && received == old(received) + [pkt] && released == old(released) + FirstSuccess(old(decoder), d)
        else
          var (t, fading) := Take(old(transitionDecoder).value, Cloned(pkt, blockSize), fadingReply);
          if fading.Panicked? then r == Panicked
          else
            && Valid() && decoder == d && transitionDecoder == Some(t) && received == old(received) + [pkt]
            && r == (if fading.result.Err? then fading else Handed(Ok(main.result.value + fading.result.value)))
            && released == old(released) + FirstSuccess(old(decoder), d) + FirstSuccess(old(transitionDecoder).value, t)
      ensures r.Handed? && r.result.Err? ==> released == old(released)
    {
      hide Follows, Take, CanTake, InService, IsDecoded, Size, Cloned, Clonable, ReleasedOnce;
      var cloned := transitionLeft > CROSS_FADE_LEN / 2;
      var main := MainTakes(pkt, mainReply);
      if main.Panicked? || main.result.Err? {
        RefusalMeansNoRow(old(decoder), pkt, mainReply);
        return main;
      }
      r := main;
      if transitionDecoder.Some? && cloned {
        Discards(old(decoder), transitionDecoder.value, pkt, mainReply, fadingReply, blockSize);
        var fading := FadingTakes(Cloned(pkt, blockSize), fadingReply);
        if fading.Panicked? || fading.result.Err? {
          return fading;
        }
        r := Handed(Ok(main.result.value + fading.result.value));
      }
    }

    method MainTakes(pkt: Packet, reply: Reply) returns (r: Handed)
      requires Valid() && CanTake(decoder, pkt, reply)
      modifies this`decoder, this`released, this`received
      ensures (decoder, r) == Take(old(decoder), pkt, reply) && received == old(received) + [pkt]
      ensures r.Handed? ==> Valid()
      ensures released == old(released) + FirstSuccess(old(decoder), decoder)
    {
      hide Follows, Take, CanTake, InService, IsDecoded, Size;
      TakeKeeps(decoder, received, pkt, reply, blockSize);
      ghost var before := decoder;
      var (d, handed) := Take(decoder, pkt, reply);
      decoder, r := d, handed;
      received := received + [pkt];
      released := released + FirstSuccess(before, d);
    }

    method FadingTakes(copy: Packet, reply: Reply) returns (r: Handed)
      requires Valid() && transitionDecoder.Some? && CanTake(transitionDecoder.value, copy, reply)
      modifies this`transitionDecoder, this`released, this`fadingReceived
      ensures transitionDecoder.Some?
      ensures (transitionDecoder.value, r) == Take(old(transitionDecoder).value, copy, reply)
      ensures r.Handed? ==> Valid()
      ensures released == old(released) + FirstSuccess(old(transitionDecoder).value, transitionDecoder.value)
    {
      hide Follows, Take, CanTake, InService, IsDecoded, Size;
      ghost var before := transitionDecoder.value;
      TakeKeeps(before, fadingReceived, copy, reply, blockSize);
      var (d, handed) := Take(transitionDecoder.value, copy, reply);
      transitionDecoder, r := Some(d), handed;
      fadingReceived := fadingReceived + [copy];
      released := released + FirstSuccess(before, d);
    }

    /** A loss report: a switch keeps the old pair for the cross-fade; in any case a fresh pair takes over. */
    method ReportLoss(lost: nat, total: nat, dwelling: bool, dt: real)
      requires Valid() && lost <= total
      modifies this, estimator, estimator.kalman, manager`currentMode, manager`currentWindow, manager.pid
      ensures Valid() && released == old(released)
      ensures 0.0 <= estimator.emaLossRate <= 1.0
      ensures InWindowRange(manager.currentMode, manager.currentWindow)
      ensures Rank(manager.currentMode) <= Rank(old(manager.currentMode)) + 1 || manager.currentMode == Extreme
      ensures Rank(manager.currentMode) >= Rank(old(manager.currentMode)) - 1
      ensures
        || (transitionLeft == CROSS_FADE_LEN && transitionEncoder == Some(old(encoder))
            && transitionDecoder == Some(old(decoder)))
        || (manager.currentMode == old(manager.currentMode) && manager.currentWindow == old(manager.currentWindow)
            && transitionLeft == old(transitionLeft) && transitionEncoder == old(transitionEncoder)
            && transitionDecoder == old(transitionDecoder))
      ensures encoder == NewEncoder(manager.currentMode, manager.currentWindow) && sources == [] && received == []
      ensures decoder == NewDecoder(old(nextSerial), manager.currentMode, manager.currentWindow, blockSize)
    {
      hide ModeAfter, NextWindow, Threshold, Tail, Repeat, Smoothed, LossRate, ParamsFor, InitialWindow, NoRepeats;
      hide Follows, InService, NewEncoder, NewDecoder;
      estimator.ReportLoss(lost, total);
      var loss := estimator.GetEstimatedLoss();
      var prev := manager.Update(loss, dwelling, dt);
      Install(prev.Some?);
    }

    /**
    Puts a fresh pair into service: an empty window and a decoder without rows.
    On a switch the old pair stays for the cross-fade, otherwise it is dropped
    with every packet it held.
     */
    method Install(switched: bool)
      requires estimator.Valid() && manager.Valid() && Fading() && Serials() && Encoders() && Decoders()
      modifies this
      ensures Valid() && released == old(released)
      ensures if switched
              then transitionLeft == CROSS_FADE_LEN && transitionEncoder == Some(old(encoder))
                   && transitionDecoder == Some(old(decoder))
              else transitionLeft == old(transitionLeft) && transitionEncoder == old(transitionEncoder)
                   && transitionDecoder == old(transitionDecoder)
      ensures encoder == NewEncoder(manager.currentMode, manager.currentWindow) && sources == [] && received == []
      ensures decoder == NewDecoder(old(nextSerial), manager.currentMode, manager.currentWindow, blockSize)
    {
      hide ParamsFor, Follows, InService, NewEncoder, NewDecoder, Size, ReleasedOnce, IsDecoded, InWindowRange, WindowsInRange;
      var mode, window := manager.currentMode, manager.currentWindow;
      NewInService(mode, window);
      NewFollows(nextSerial, mode, window, blockSize);
      FreshSerial(released, decoder, transitionDecoder, nextSerial, NewDecoder(nextSerial, mode, window, blockSize));
      if switched {
        KeepOldPair();
      }
      encoder, sources := NewEncoder(mode, window), [];
      decoder, received := NewDecoder(nextSerial, mode, window, blockSize), [];
      nextSerial := nextSerial + 1;
    }

    method KeepOldPair()
      modifies this`transitionEncoder, this`transitionDecoder, this`transitionLeft
      modifies this`fadingSources, this`fadingReceived
      ensures transitionEncoder == Some(encoder) && fadingSources == sources
      ensures transitionDecoder == Some(decoder) && fadingReceived == received
      ensures transitionLeft == CROSS_FADE_LEN
    {
      transitionEncoder, fadingSources := Some(encoder), sources;
      transitionDecoder, fadingReceived := Some(decoder), received;
      transitionLeft := CROSS_FADE_LEN;
    }
  }

  lemma KeepParams(e: EncoderState, p: Packet)
    ensures AddSource(e, p).k == e.k && AddSource(e, p).mode == e.mode && AddSource(e, p).n == e.n
  {
  }

  // ----- What one window can repair -----

  /** Except in Extreme mode a window has fewer repair packets than sources. */
  lemma FewRepairs(mode: FecMode, window: nat)
    requires InWindowRange(mode, window) && !mode.Zero? && !mode.Extreme?
    ensures
      var (k, n) := ParamsFor(mode, window);
      k == window && k < n < 2 * k
  {
    var x := window as real * OverheadRatio(mode);
    CeilBounds(x);
    assert window as real < x <= window as real * 1.5;
  }

  /** The row belongs to one of the n packets of a window. */
  predicate OfWindow(k: nat, n: nat, kind: RowKind) {
    ValidKind(k, kind) && (kind.Repair? ==> kind.y < n)
  }

  /** Among k different packets of a window there is always a source packet. */
  lemma SomeSource(k: nat, n: nat, kinds: seq<RowKind>)
    requires 0 < k < n < 2 * k && n <= 256 && ValidKinds(k, kinds)
    requires forall r :: 0 <= r < k ==> OfWindow(k, n, kinds[r])
    ensures exists r :: 0 <= r < k && kinds[r].Systematic?
  {
    if forall r :: 0 <= r < k ==> kinds[r].Repair? {
      var params: seq<int> := seq(k, r requires 0 <= r < k => kinds[r].y);
      DistinctSize(params);
      IntervalCount(k, n);
      SubsetSize(Elements(params), Interval(k, n));
    }
  }

  /**
  In every mode of the 8-bit code that can be encoded at all, a lost source
  packet is never repaired from its own window for every source: whichever k of
  the n packets arrive, if one of them is a repair packet, there is a source for
  which the decoder reports success and does not give the data back.
   */
  lemma LossNotRepaired(mode: FecMode, window: nat, kinds: seq<RowKind>, row: nat, width: nat) returns (slot: nat)
    requires InWindowRange(mode, window) && (mode.Light? || mode.Normal? || (mode.Medium? && window <= 196))
    requires ValidKinds(window, kinds) && row < window && kinds[row].Repair? && width > 0
    requires forall r :: 0 <= r < window ==> OfWindow(window, ParamsFor(mode, window).1, kinds[r])
    ensures 0 < window <= 256 && slot < window && Systematic(slot) in kinds
    ensures
      var x := OneBlock(window, slot, width);
      var st := Receive(Fresh(window, width), CodePackets(window, kinds, x, width));
      st.decoded && !Recovered(st, x)
  {
    hide ParamsFor, Receive, CodePackets, Recovered;
    FewRepairs(mode, window);
    EncodableModes(mode, window);
    var (k, n) := ParamsFor(mode, window);
    RepairsDefinedIff(k, n);
    SomeSource(k, n, kinds);
    var r :| 0 <= r < k && kinds[r].Systematic?;
    slot := kinds[r].slot;
    assert OfWindow(k, n, kinds[r]);
    MixedFails(k, kinds, slot, row, width);
  }

  // ----- What one send emits -----

  /**
  One send emits the repair rows of the parameters k to n - 1, each once and in
  order, combined from the window and numbered behind its last packet.
   */
  lemma EmittedRows(e: EncoderState, sources: seq<Packet>, blockSize: nat)
    requires InService(e, sources) && CanEmit(e, blockSize)
    requires !e.mode.Extreme? && 0 < e.k < e.n && |e.window| >= e.k
    ensures e.n <= 256 && Ready(e.window, e.k, blockSize)
    ensures
      var out := Emitted(e, sources, blockSize, []);
      && |out| == e.n - e.k
      && forall y :: e.k <= y < e.n ==>
           var p := out[y - e.k];
           && OfKind(p, e.k, Repair(y)) && WellSized(p, e.k, blockSize)
           && p.data == Some(Combine(RowOf(e.k, Repair(y)), SourceBlocks(e.window, e.k, blockSize), blockSize))
           && p.id == e.window[e.k - 1].id + 1 + (y - e.k) && p.len == e.window[0].len
  {
    hide Combine, RowOf, OfKind, WellSized, InService, CanEmit, RepairsDefined, Ready, Param, RepairPacket;
    EmitsDefined(e, sources, blockSize);
    RepairsDefinedIff(e.k, e.n);
    EmitReady(e, blockSize);
    var out := Emitted(e, sources, blockSize, []);
    forall y | e.k <= y < e.n
      ensures
        var p := out[y - e.k];
        && OfKind(p, e.k, Repair(y)) && WellSized(p, e.k, blockSize)
        && p.data == Some(Combine(RowOf(e.k, Repair(y)), SourceBlocks(e.window, e.k, blockSize), blockSize))
        && p.id == e.window[e.k - 1].id + 1 + (y - e.k) && p.len == e.window[0].len
    {
      var index: nat := y - e.k;
      assert e.k <= Param(e.k, index);
      assert out[index] == RepairPacket(e.window, e.k, index, blockSize);
      ParamSmall(e.k, index);
      RepairIs(e.window, e.k, index, blockSize);
    }
  }

  lemma ParamSmall(k: nat, index: nat)
    requires k + index < 256
    ensures Param(k, index) == k + index
  {
  }

  /** A repair packet field by field. */
  lemma RepairIs(window: seq<Packet>, k: nat, index: nat, blockSize: nat)
    requires Ready(window, k, blockSize) && k <= Param(k, index)
    ensures 0 < k <= 256 && |window| == k
    ensures
      var p, kind := RepairPacket(window, k, index, blockSize), Repair(Param(k, index));
      && OfKind(p, k, kind) && WellSized(p, k, blockSize)
      && p.data == Some(Combine(RowOf(k, kind), SourceBlocks(window, k, blockSize), blockSize))
      && p.id == window[k - 1].id + 1 + index && p.len == window[0].len
  {
    hide Combine, RowOf, Param;
    var row := RowOf(k, Repair(Param(k, index)));
    assert Padded(row, blockSize)[..k] == row;
  }

  /** The packet of a window for a row: the source packet of a slot, or what one send emits for a parameter. */
  ghost function PacketOf(e: EncoderState, sources: seq<Packet>, blockSize: nat, kind: RowKind): Packet
    requires InService(e, sources) && CanEmit(e, blockSize)
    requires !e.mode.Extreme? && 0 < e.k < e.n && |e.window| >= e.k && OfWindow(e.k, e.n, kind)
  {
    EmittedRows(e, sources, blockSize);
    match kind
    case Systematic(slot) => e.window[slot]
    case Repair(y) => Emitted(e, sources, blockSize, [])[y - e.k]
  }

  ghost function PacketsOf(e: EncoderState, sources: seq<Packet>, blockSize: nat, kinds: seq<RowKind>): (pkts: seq<Packet>)
    requires InService(e, sources) && CanEmit(e, blockSize)
    requires !e.mode.Extreme? && 0 < e.k < e.n && |e.window| >= e.k
    requires forall r :: 0 <= r < |kinds| ==> OfWindow(e.k, e.n, kinds[r])
    ensures |pkts| == |kinds|
  {
    seq(|kinds|, r requires 0 <= r < |kinds| => PacketOf(e, sources, blockSize, kinds[r]))
  }

  /**
  Any k of the packets of a window - its sources and what one send emits - make
  a fresh decoder report success, provided the window is aligned, and every
  source that was received is in its slot.
   */
  lemma AnyKOfOneSend(e: EncoderState, sources: seq<Packet>, blockSize: nat, kinds: seq<RowKind>)
    requires InService(e, sources) && CanEmit(e, blockSize)
    requires !e.mode.Extreme? && 0 < e.k < e.n && |e.window| >= e.k
    requires forall i :: 0 <= i < e.k ==> e.window[i].isSystematic && e.window[i].id % e.k == i
    requires ValidKinds(e.k, kinds) && forall r :: 0 <= r < e.k ==> OfWindow(e.k, e.n, kinds[r])
    ensures AllWellSized(PacketsOf(e, sources, blockSize, kinds), e.k, blockSize)
    ensures
      var st := Receive(Fresh(e.k, blockSize), PacketsOf(e, sources, blockSize, kinds));
      && st.decoded
      && forall s :: 0 <= s < e.k && Systematic(s) in kinds ==> st.slots[s] == Some(e.window[s])
  {
    hide Receive, Combine, RowOf, Emitted, InService, CanEmit, Ready;
    EmittedRows(e, sources, blockSize);
    var k, pkts := e.k, PacketsOf(e, sources, blockSize, kinds);
    forall r | 0 <= r < k
      ensures OfKind(pkts[r], k, kinds[r]) && WellSized(pkts[r], k, blockSize)
    {
      assert OfWindow(k, e.n, kinds[r]);
    }
    Outcome(k, kinds, pkts, blockSize);
    KeptAll(k, pkts, kinds);
    forall s | 0 <= s < k && Systematic(s) in kinds
      ensures Receive(Fresh(k, blockSize), pkts).slots[s] == Some(e.window[s])
    {
      var r :| 0 <= r < k && kinds[r] == Systematic(s);
      assert pkts[r] == e.window[s] && pkts[r] in pkts;
      ReceivedKeepsSlot(k, blockSize, pkts, pkts[r]);
    }
  }

  // ----- A whole window of repair packets through the stack -----

  /** The packets that k repair packets of a window decode to. */
  function Blocks(window: seq<Packet>, k: nat, blockSize: nat): (out: seq<Packet>)
    requires Ready(window, k, blockSize)
    ensures |out| == k
  {
    var x := SourceBlocks(window, k, blockSize);
    seq(k, i requires 0 <= i < k => Packet(i, Some(x[i]), blockSize, true, None, 0))
  }

  lemma SentRuns(window: seq<Packet>, k: nat, indices: seq<nat>, blockSize: nat, n: nat)
    requires Ready(window, k, blockSize) && DistinctIndices(k, indices) && n <= k
    ensures
      var pkts := Sent(window, k, indices, blockSize)[..n];
      && AllStorable(pkts, blockSize) && ClipAll(pkts, k) == pkts && AllWellSized(pkts, k, blockSize)
      && ReceiveAny(k, blockSize, pkts).Alive?
      && ReceiveAny(k, blockSize, pkts).st == Receive(Fresh(k, blockSize), pkts)
      && (ReceiveAny(k, blockSize, pkts).st.decoded <==> n == k)
  {
    hide ReceiveAny, Receive, RepairPacket, OfSomeWindow, Storable, WellSized;
    SentShape(window, k, indices, blockSize);
    var all := Sent(window, k, indices, blockSize);
    var pkts := all[..n];
    forall i | 0 <= i < n
      ensures Storable(pkts[i], blockSize) && OfSomeWindow(pkts[i]) && Clipped(pkts[i], k) == pkts[i] && WellSized(pkts[i], k, blockSize)
      ensures pkts[i].coeffLen == k
    {
      assert pkts[i] == RepairPacket(window, k, indices[i], blockSize) && WellSized(all[i], k, blockSize);
      RepairOfSomeWindow(window, k, indices[i], blockSize);
    }
    assert ClipAll(pkts, k) == pkts;
    CrashIff(k, blockSize, pkts);
    if n == k {
      assert pkts == all;
      EncodeDecode(window, k, indices, blockSize);
    } else {
      DecodedIff(k, blockSize, pkts);
      KeptShort(k, pkts);
    }
  }

  lemma {:induction false} KeptShort(k: nat, pkts: seq<Packet>)
    requires k > 0
    ensures |Kept(k, pkts)| <= |pkts|
  {
    if |pkts| > 0 {
      KeptShort(k, pkts[..|pkts| - 1]);
    }
  }

  /** One repair packet of a window at a decoder that has taken those before it. */
  lemma TakeRepair(
      d: DecoderState, window: seq<Packet>, k: nat, indices: seq<nat>, blockSize: nat, n: nat, reply: Reply)
    requires Ready(window, k, blockSize) && DistinctIndices(k, indices) && n < k
    requires d.Gaussian? && d.st.k == k && d.st.blockSize == blockSize
    requires Follows(d, Sent(window, k, indices, blockSize)[..n], blockSize)
    ensures
      var p := Sent(window, k, indices, blockSize)[n];
      && CanTake(d, p, reply)
      && Take(d, p, reply).1 == Handed(Ok(if n + 1 == k then Blocks(window, k, blockSize) else []))
  {
    hide ReceiveAny, Receive, RepairPacket, Sent, Take, SourceBlocks, Present, AllWellSized, WellSized;
    var all := Sent(window, k, indices, blockSize);
    var before := all[..n];
    assert before + [all[n]] == all[..n + 1];
    SentRuns(window, k, indices, blockSize, n);
    SentRuns(window, k, indices, blockSize, n + 1);
    SentOne(window, k, indices, blockSize, n);
    TakeFollows(d, before, all[n], reply, blockSize);
    RefusalMeansNoRow(d, all[n], reply);
    if n + 1 == k {
      assert all[..k] == all;
      EncodeDecode(window, k, indices, blockSize);
      HandsOutBlocks(window, k, Receive(Fresh(k, blockSize), all), blockSize);
    }
  }

  lemma SentOne(window: seq<Packet>, k: nat, indices: seq<nat>, blockSize: nat, n: nat)
    requires Ready(window, k, blockSize) && DistinctIndices(k, indices) && n < k
    ensures
      var p := Sent(window, k, indices, blockSize)[n];
      Storable(p, blockSize) && !NoRow(p)
  {
    hide RepairPacket;
    RepairOfSomeWindow(window, k, indices[n], blockSize);
  }

  lemma HandsOutBlocks(window: seq<Packet>, k: nat, st: State, blockSize: nat)
    requires Ready(window, k, blockSize) && Rebuilt(st, SourceBlocks(window, k, blockSize), blockSize)
    ensures Present(st.slots) == Blocks(window, k, blockSize)
  {
    hide SourceBlocks, Present;
    PresentAll(st.slots);
    var x := SourceBlocks(window, k, blockSize);
    forall i | 0 <= i < k
      ensures Present(st.slots)[i] == Packet(i, Some(x[i]), blockSize, true, None, 0)
    {
      assert Padded(x[i], blockSize) == x[i];
    }
  }

  /**
  A stack that receives k repair packets of one window, with indices that differ
  as bytes, hands out exactly the k blocks of the window, in order, with the last
  of them, and nothing before.
   */
  method ReceiveWindow(fec: AdaptiveFec, window: seq<Packet>, k: nat, indices: seq<nat>, reply: Reply)
    returns (handed: seq<Handed>)
    requires fec.Valid() && Ready(window, k, fec.blockSize) && DistinctIndices(k, indices)
    requires fec.decoder.Gaussian? && Size(fec.decoder) == k && fec.received == [] && fec.transitionDecoder.None?
    modifies fec
    ensures |handed| == k
    ensures forall i :: 0 <= i < k - 1 ==> handed[i] == Handed(Ok([]))
    ensures handed[k - 1] == Handed(Ok(Blocks(window, k, fec.blockSize)))
  {
    hide Take, Follows, CanTake, RepairPacket, Blocks, Sent, ReleasedOnce, InService;
    handed := [];
    var sent := Sent(window, k, indices, fec.blockSize);
    assert sent[..0] == [];
    for i := 0 to k
      invariant fec.Valid() && fec.decoder.Gaussian? && Size(fec.decoder) == k && fec.transitionDecoder.None?
      invariant fec.received == sent[..i] && |handed| == i
      invariant forall j :: 0 <= j < i ==>
        handed[j] == Handed(Ok(if j + 1 == k then Blocks(window, k, fec.blockSize) else []))
    {
      FollowsBlockSize(fec.decoder, fec.received, fec.blockSize);
      TakeRepair(fec.decoder, window, k, indices, fec.blockSize, i, reply);
      TakeKeeps(fec.decoder, fec.received, sent[i], reply, fec.blockSize);
      assert sent[..i + 1] == sent[..i] + [sent[i]];
      var r := fec.OnReceive(sent[i], reply, reply);
      handed := handed + [r];
    }
  }

  lemma FollowsBlockSize(d: DecoderState, received: seq<Packet>, blockSize: nat)
    requires d.Gaussian? && Follows(d, received, blockSize)
    ensures d.st.blockSize == blockSize
  {
  }

  // ----- Repair packets of another window size -----

  /** A repair packet of a window of k fits the matrix of a decoder for `size` rows exactly if k is at most `size`. */
  lemma TakeableIff(window: seq<Packet>, k: nat, index: nat, blockSize: nat, size: nat)
    requires Ready(window, k, blockSize) && k <= Param(k, index)
    ensures WellSized(RepairPacket(window, k, index, blockSize), size, blockSize) <==> k <= size
  {
    hide RowOf, Combine;
  }

  lemma RepairOfSomeWindow(window: seq<Packet>, k: nat, index: nat, blockSize: nat)
    requires Ready(window, k, blockSize) && k <= Param(k, index)
    ensures
      var p := RepairPacket(window, k, index, blockSize);
      OfSomeWindow(p) && Storable(p, blockSize) && !p.isSystematic && p.coefficients.Some? && p.coeffLen == k
  {
    hide Combine, Inv, Add;
    var y := Param(k, index);
    var row := RowOf(k, Repair(y));
    forall j | 0 <= j < k
      ensures row[j] != 0
    {
      AddCancel(j, y);
      MulInv(Add(j, y));
    }
  }

  /**
  A decoder in service panics on a packet exactly when that packet completes k
  rows, at least two, and one of the rows stems from a larger window.
   */
  lemma TakePanicsIff(d: DecoderState, received: seq<Packet>, p: Packet, reply: Reply, blockSize: nat)
    requires d.Gaussian? && d.st.k > 0 && Follows(d, received, blockSize) && CanTake(d, p, reply)
    requires OfSomeWindow(p) && forall q :: q in received ==> OfSomeWindow(q)
    ensures
      var k, kept := d.st.k, Kept(d.st.k, received + [p]);
      Take(d, p, reply).1.Panicked? <==>
        k >= 2 && |kept| == k && exists q :: q in kept && !q.isSystematic && q.coeffLen > k
  {
    hide Take, ReceiveAny, Kept, OfSomeWindow;
    TakeFollows(d, received, p, reply, blockSize);
    CrashIff(d.st.k, blockSize, received + [p]);
  }

  lemma {:induction false} SourcesKept(k: nat, n: nat)
    requires 0 < k && n <= k
    ensures Kept(k, AllSources(n)) == AllSources(n)
    decreases n
  {
    if n > 0 {
      SourcesKept(k, n - 1);
      assert AllSources(n)[..n - 1] == AllSources(n - 1);
      forall i: nat | i < n
        ensures i % k == i
      {
        QuotientOf(i, k, 0, i);
      }
    }
  }

  /** All sources but one, then a repair packet of a larger window: the elimination that follows panics. */
  lemma LargerWindowCrashes(k: nat, window: seq<Packet>, larger: nat, index: nat, blockSize: nat)
    requires 2 <= k < larger && Ready(window, larger, blockSize) && larger <= Param(larger, index)
    ensures
      var pkts := AllSources(k - 1) + [RepairPacket(window, larger, index, blockSize)];
      AllStorable(pkts, blockSize) && ReceiveAny(k, blockSize, pkts) == Crashed
  {
    hide ReceiveAny, RepairPacket, Ready;
    var p := RepairPacket(window, larger, index, blockSize);
    var pkts := AllSources(k - 1) + [p];
    RepairOfSomeWindow(window, larger, index, blockSize);
    SourcesKept(k, k - 1);
    assert pkts[..k - 1] == AllSources(k - 1);
    assert Kept(k, pkts) == pkts;
    assert p in pkts;
    CrashIff(k, blockSize, pkts);
  }

  /**
  In a cross-fade from Normal to Light: a peer's first repair packet of a window
  of 32 meets a decoder for 16.
   */
  lemma NormalIntoLight(window: seq<Packet>, blockSize: nat)
    requires Ready(window, 32, blockSize)
    ensures InWindowRange(Normal, 32) && InWindowRange(Light, 16) && 32 <= Param(32, 0)
    ensures
      var pkts := AllSources(15) + [RepairPacket(window, 32, 0, blockSize)];
      AllStorable(pkts, blockSize) && ReceiveAny(16, blockSize, pkts) == Crashed
  {
    hide ReceiveAny, RepairPacket, Ready;
    assert Param(32, 0) == 32;
    LargerWindowCrashes(16, window, 32, 0, blockSize);
  }

  // ----- Repair packets of different positions of the window -----

  lemma SameIndexSameRow(w1: seq<Packet>, w2: seq<Packet>, k: nat, index: nat, blockSize: nat)
    requires Ready(w1, k, blockSize) && Ready(w2, k, blockSize) && k <= Param(k, index)
    ensures
      var p, q := RepairPacket(w1, k, index, blockSize), RepairPacket(w2, k, index, blockSize);
      HasRow(p, k) && HasRow(q, k) && RowOfPacket(p, k) == RowOfPacket(q, k)
  {
    hide Combine;
  }

  /** Repair packets of one index but of different windows have the same row: once two are kept, nothing decodes. */
  lemma SameIndexStops(
      w1: seq<Packet>, w2: seq<Packet>, k: nat, index: nat, blockSize: nat,
      pkts: seq<Packet>, i: nat, j: nat, more: seq<Packet>)
    requires Ready(w1, k, blockSize) && Ready(w2, k, blockSize) && k <= Param(k, index)
    requires AllWellSized(pkts + more, k, blockSize) && i < j < |Kept(k, pkts)|
    requires Kept(k, pkts)[i] == RepairPacket(w1, k, index, blockSize)
    requires Kept(k, pkts)[j] == RepairPacket(w2, k, index, blockSize)
    ensures !Receive(Fresh(k, blockSize), pkts + more).decoded
  {
    hide RepairPacket, Kept, Receive, RowOfPacket, AllWellSized;
    SameIndexSameRow(w1, w2, k, index, blockSize);
    SameRowStops(k, blockSize, pkts, i, j, more);
  }

  /**
  An encoder emits the same indices at every position of its window. A receiver
  that takes the repair packets of one index from two adjacent positions never
  decodes, whatever else arrives.
   */
  lemma AdjacentWindowsStop(
      e: EncoderState, sources: seq<Packet>, p: Packet, blockSize: nat, index: nat, more: seq<Packet>)
    requires InService(e, sources) && CanEmit(e, blockSize) && CanEmit(AddSource(e, p), blockSize)
    requires !e.mode.Extreme? && e.k >= 2 && e.k < e.n && |e.window| == e.k && index < e.n - e.k
    ensures InService(AddSource(e, p), sources + [p]) && |Emitted(e, sources, blockSize, [])| == e.n - e.k
    ensures |Emitted(AddSource(e, p), sources + [p], blockSize, [])| == e.n - e.k
    ensures
      var first := Emitted(e, sources, blockSize, [])[index];
      var second := Emitted(AddSource(e, p), sources + [p], blockSize, [])[index];
      AllWellSized([first, second] + more, e.k, blockSize) ==>
        !Receive(Fresh(e.k, blockSize), [first, second] + more).decoded
  {
    hide InService, CanEmit, RepairPacket, Receive, AllWellSized, ParamsFor;
    AddSourceInService(e, sources, p);
    KeepParams(e, p);
    var f := AddSource(e, p);
    assert |f.window| == e.k;
    EmitsDefined(e, sources, blockSize);
    EmitsDefined(f, sources + [p], blockSize);
    EmitReady(e, blockSize);
    EmitReady(f, blockSize);
    var first, second := RepairPacket(e.window, e.k, index, blockSize), RepairPacket(f.window, e.k, index, blockSize);
    if AllWellSized([first, second] + more, e.k, blockSize) {
      RepairOfSomeWindow(e.window, e.k, index, blockSize);
      RepairOfSomeWindow(f.window, e.k, index, blockSize);
      BothKept(e.k, first, second);
      SameIndexStops(e.window, f.window, e.k, index, blockSize, [first, second], 0, 1, more);
    }
  }

  lemma EmitReady(e: EncoderState, blockSize: nat)
    requires CanEmit(e, blockSize) && !e.mode.Extreme? && e.k < e.n && |e.window| >= e.k
    ensures Ready(e.window, e.k, blockSize)
  {
  }

  lemma BothKept(k: nat, p: Packet, q: Packet)
    requires k >= 2 && !p.isSystematic && !q.isSystematic && p.coefficients.Some? && q.coefficients.Some?
    ensures Kept(k, [p, q]) == [p, q]
  {
    assert [p, q][..1] == [p] && [p][..0] == [];
    assert Kept(k, [p]) == [p];
  }
}
