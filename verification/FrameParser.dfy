/**
The incremental frame parser over a stream that delivers its bytes in arbitrary
chunks: first whole runs of the parser's loop as functions of the chunks, then
the parser object and the stream it reads from.
 */
module FrameParsing {
  import opened Field
  import opened Options
  import opened Varints
  import opened Frames

  // ----- Runs over chunks -----

  /** A run so far: the bytes of the emitted frames, the bytes of the current one, the frames. */
  datatype Progress = Progress(
    st: State,
    done: seq<Byte>,
    seen: seq<Byte>,
    emitted: seq<Frame>,
    stopped: bool
  )

  const INITIAL := Progress(START, [], [], [], false)

  /** A frame is complete but its payload round has not been run: only with an empty payload. */
  predicate Pending(st: State) {
    st.phase.ValPhase? && BufferComplete(st)
  }

  /** Why a run stops: the length is over the limit, or the frame decoder refuses the frame. */
  ghost predicate StopReason<H>(build: Frame -> Build<H>, st: State, seen: seq<Byte>) {
    var p := ParseOne(seen);
    match st.phase
    case TypePhase => false
    case LenPhase => p.Oversize? && st.offset != 1
    case ValPhase => p.Whole? && p.size == |seen| && build(p.frame).Refused?
  }

  ghost predicate Good<H>(build: Frame -> Build<H>, r: Progress) {
    && Explains(r.st, r.seen)
    && ParseAll(build, r.done) == (r.emitted, [])
    && (r.stopped ==> BufferComplete(r.st) && StopReason(build, r.st, r.seen))
    && (!r.stopped && BufferComplete(r.st) ==> Pending(r.st))
  }

  /** One round of the loop on a chunk read from the stream. */
  ghost function Round<H>(build: Frame -> Build<H>, r: Progress, chunk: seq<Byte>): Progress
    requires Good(build, r) && Deliverable(r.st, chunk) && !r.stopped
  {
    RoundDefined(build, r, chunk);
    var filled := Filled(r.st, chunk);
    var (s, ev) := React(filled);
    var seen := r.seen + chunk;
    match ev
    case Parsed(f) =>
      if build(f).Built? then Progress(START, r.done + seen, [], r.emitted + [f], false)
      else r.(st := filled, seen := seen, stopped := true)
    case TooLarge => r.(st := s, seen := seen, stopped := true)
    case _ => r.(st := s, seen := seen)
  }

  lemma RoundDefined<H>(build: Frame -> Build<H>, r: Progress, chunk: seq<Byte>)
    requires Good(build, r) && Deliverable(r.st, chunk) && !r.stopped
    ensures
      var f := Filled(r.st, chunk);
      && (f.phase.ValPhase? ==> f.ty.Some?)
      && (!f.phase.ValPhase? ==> |f.buf| > 0 && (f.offset != 1 ==> Decoded(f.buf).Some?))
  {
    hide React;
    hide Decoded;
    match r.st.phase
    case TypePhase => TypeStep(r.st, r.seen, chunk);
    case LenPhase => LenStep(r.st, r.seen, chunk);
    case ValPhase =>
  }

  lemma StartExplains()
    ensures Explains(START, [])
  {
  }

  lemma FilledExplains(st: State, seen: seq<Byte>, chunk: seq<Byte>)
    requires Explains(st, seen) && st.phase.ValPhase? && Deliverable(st, chunk)
    ensures Explains(Filled(st, chunk), seen + chunk)
  {
    hide Decoded;
    var t := Decoded(seen).value;
    DecodedPrefix(seen, chunk);
    var rest := seen[t.1..];
    assert (seen + chunk)[t.1..] == rest + chunk;
    DecodedPrefix(rest, chunk);
    var f := Filled(st, chunk);
    assert f.buf[..f.offset] == st.buf[..st.offset] + chunk;
  }

  /** A whole accepted frame moves from the current bytes to the finished ones. */
  lemma FrameFinished<H>(build: Frame -> Build<H>, done: seq<Byte>, seen: seq<Byte>, emitted: seq<Frame>, f: Frame)
    requires ParseAll(build, done) == (emitted, []) && ParseOne(seen) == Whole(f, |seen|) && build(f).Built?
    ensures ParseAll(build, done + seen) == (emitted + [f], [])
  {
    hide ParseOne;
    ParseAllAppend(build, done, seen);
    assert [] + seen == seen && seen[|seen|..] == [];
    ParseNothing();
    assert ParseAll(build, []) == ([], []);
    assert [f] + [] == [f];
    assert ParseAll(build, seen) == ([f], []);
  }

  lemma ExplainsFits(st: State, seen: seq<Byte>)
    requires Explains(st, seen)
    ensures st.offset <= st.stateLen == |st.buf| && (st.phase.ValPhase? ==> st.ty.Some?)
  {
  }

  lemma RoundGoodType<H>(build: Frame -> Build<H>, r: Progress, chunk: seq<Byte>)
    requires Good(build, r) && Deliverable(r.st, chunk) && !r.stopped && r.st.phase.TypePhase?
    ensures Good(build, Round(build, r, chunk))
    ensures Round(build, r, chunk).done + Round(build, r, chunk).seen == r.done + r.seen + chunk
  {
    hide React;
    hide Explains;
    hide ParseAll;
    hide Decoded;
    hide Sized;
    ExplainsFits(r.st, r.seen);
    TypeStep(r.st, r.seen, chunk);
  }

  lemma RoundGoodLen<H>(build: Frame -> Build<H>, r: Progress, chunk: seq<Byte>)
    requires Good(build, r) && Deliverable(r.st, chunk) && !r.stopped && r.st.phase.LenPhase?
    ensures Good(build, Round(build, r, chunk))
    ensures Round(build, r, chunk).done + Round(build, r, chunk).seen == r.done + r.seen + chunk
  {
    hide React;
    hide Explains;
    hide ParseAll;
    hide ParseOne;
    hide Decoded;
    ExplainsFits(r.st, r.seen);
    LenStep(r.st, r.seen, chunk);
  }

  lemma RoundGoodVal<H>(build: Frame -> Build<H>, r: Progress, chunk: seq<Byte>)
    requires Good(build, r) && Deliverable(r.st, chunk) && !r.stopped && r.st.phase.ValPhase?
    ensures Good(build, Round(build, r, chunk))
    ensures Round(build, r, chunk).done + Round(build, r, chunk).seen == r.done + r.seen + chunk
  {
    hide Decoded;
    hide React;
    hide Explains;
    hide ParseAll;
    hide ParseOne;
    ExplainsFits(r.st, r.seen);
    ValStep(r.st, r.seen, chunk);
    var (s, ev) := React(Filled(r.st, chunk));
    if ev.Parsed? {
      FilledExplains(r.st, r.seen, chunk);
      ParsedFromFilled(r.st, chunk);
      if build(ev.frame).Built? {
        FrameFinished(build, r.done, r.seen + chunk, r.emitted, ev.frame);
        StartExplains();
      }
    }
  }

  /** A round keeps the account: finished bytes, current bytes and frames stay in step. */
  lemma RoundGood<H>(build: Frame -> Build<H>, r: Progress, chunk: seq<Byte>)
    requires Good(build, r) && Deliverable(r.st, chunk) && !r.stopped
    ensures Good(build, Round(build, r, chunk))
    ensures Round(build, r, chunk).done + Round(build, r, chunk).seen == r.done + r.seen + chunk
  {
    hide Good;
    hide Round;
    match r.st.phase
    case TypePhase => RoundGoodType(build, r, chunk);
    case LenPhase => RoundGoodLen(build, r, chunk);
    case ValPhase => RoundGoodVal(build, r, chunk);
  }

  lemma ParsedFromFilled(st: State, chunk: seq<Byte>)
    requires st.phase.ValPhase? && st.ty.Some? && st.offset + |chunk| <= |st.buf|
    requires React(Filled(st, chunk)).1.Parsed?
    ensures Filled(st, chunk).phase.ValPhase? && BufferComplete(Filled(st, chunk))
    ensures !BufferComplete(START)
  {
  }

  /** A run over a list of chunks; nothing if a chunk is more than was asked for or comes after a stop. */
  ghost function Rounds<H>(build: Frame -> Build<H>, chunks: seq<seq<Byte>>): (r: Option<Progress>)
    ensures r.Some? ==> Good(build, r.value)
    decreases |chunks|
  {
    if |chunks| == 0 then
      InitialGood(build);
      Some(INITIAL)
    else
      var n := |chunks| - 1;
      var r := Rounds(build, chunks[..n]);
      if r.None? || r.value.stopped || !Deliverable(r.value.st, chunks[n]) then None else
        RoundGood(build, r.value, chunks[n]);
        Some(Round(build, r.value, chunks[n]))
  }

  lemma InitialGood<H>(build: Frame -> Build<H>)
    ensures Good(build, INITIAL)
  {
    ParseNothing();
  }

  function Flatten(chunks: seq<seq<Byte>>): seq<Byte> {
    if |chunks| == 0 then [] else Flatten(chunks[..|chunks| - 1]) + chunks[|chunks| - 1]
  }

  /** No byte is lost or duplicated, however the stream cuts them. */
  lemma {:induction false} BytesConserved<H>(build: Frame -> Build<H>, chunks: seq<seq<Byte>>)
    requires Rounds(build, chunks).Some?
    ensures var r := Rounds(build, chunks).value; r.done + r.seen == Flatten(chunks)
    decreases |chunks|
  {
    hide Round;
    hide Good;
    if |chunks| > 0 {
      var n := |chunks| - 1;
      BytesConserved(build, chunks[..n]);
      RoundGood(build, Rounds(build, chunks[..n]).value, chunks[n]);
    }
  }

  lemma UnfinishedIncomplete(st: State, seen: seq<Byte>)
    requires Explains(st, seen) && !BufferComplete(st)
    ensures ParseOne(seen) == Incomplete
  {
    hide FromBigEndian;
    match st.phase
    case TypePhase =>
    case LenPhase =>
    case ValPhase =>
      var t := Decoded(seen).value;
      var l := Decoded(seen[t.1..]).value;
      assert seen[t.1..][l.1..] == seen[t.1 + l.1..];
  }

  /** The account of a good run is the parse of all its bytes. */
  lemma GoodIsParse<H>(build: Frame -> Build<H>, r: Progress)
    requires Good(build, r) && (Pending(r.st) ==> r.stopped)
    ensures ParseAll(build, r.done + r.seen) == (r.emitted, r.seen)
  {
    hide Explains;
    hide ParseOne;
    ParseAllAppend(build, r.done, r.seen);
    assert [] + r.seen == r.seen && r.emitted + [] == r.emitted;
    if !r.stopped {
      UnfinishedIncomplete(r.st, r.seen);
    }
  }

  /** A frame without payload is reported by one more round, which reads nothing. */
  ghost function Flushed<H>(build: Frame -> Build<H>, r: Progress): Progress
    requires Good(build, r)
  {
    if Pending(r.st) && !r.stopped then Round(build, r, []) else r
  }

  lemma FlushedGood<H>(build: Frame -> Build<H>, r: Progress)
    requires Good(build, r)
    ensures
      var q := Flushed(build, r);
      Good(build, q) && (Pending(q.st) ==> q.stopped) && q.done + q.seen == r.done + r.seen
  {
    hide Good, Round, React, ParseOne, Decoded;
    if Pending(r.st) && !r.stopped {
      GoodFits(build, r);
      RoundReport(build, r, []);
      NothingAdded(r.st);
    }
  }

  lemma NothingAdded(st: State)
    requires st.offset <= |st.buf| && Pending(st) && st.ty.Some?
    ensures Filled(st, []) == st && React(st).1.Parsed?
  {
    assert st.buf[..st.offset] + [] + st.buf[st.offset..] == st.buf;
  }

  /**
  Chunking independence: after any run, the frames emitted and the bytes held
  back are those of parsing all consumed bytes in one go.
   */
  lemma RunIsParse<H>(build: Frame -> Build<H>, chunks: seq<seq<Byte>>)
    requires Rounds(build, chunks).Some?
    ensures
      var q := Flushed(build, Rounds(build, chunks).value);
      ParseAll(build, Flatten(chunks)) == (q.emitted, q.seen)
  {
    hide Rounds, Good, ParseAll, Flushed;
    var r := Rounds(build, chunks).value;
    BytesConserved(build, chunks);
    FlushedGood(build, r);
    GoodIsParse(build, Flushed(build, r));
  }

  /**
  For every list of frames and every way its bytes are cut into chunks, the
  parser emits exactly those frames in order and is ready for the next one.
   */
  lemma FramesComeThrough<H>(
      build: Frame -> Build<H>, frames: seq<Frame>, codes: seq<Lengths>, chunks: seq<seq<Byte>>)
    requires AllSendable(frames, codes) && forall i :: 0 <= i < |frames| ==> build(frames[i]).Built?
    requires Flatten(chunks) == AllBytes(frames, codes) && Rounds(build, chunks).Some?
    ensures
      var q := Flushed(build, Rounds(build, chunks).value);
      q.emitted == frames && q.seen == [] && !q.stopped && q.st.phase.TypePhase? && q.st.offset == 0
  {
    hide Rounds, ParseAll, Flushed;
    var r := Rounds(build, chunks).value;
    FramesRoundTrip(build, frames, codes);
    RunIsParse(build, chunks);
    FlushedGood(build, r);
    ParseNothing();
    NothingDecoded();
  }

  /** The bytes of an unfinished frame end with the first byte of a varint, or with a whole one. */
  predicate AtCut(w: seq<Byte>) {
    |w| == 1 ||
    var t := Decoded(w);
    t.Some? && t.value.1 <= |w| &&
    var rest := w[t.value.1..];
    |rest| <= 1 || (Decoded(rest).Some? && Decoded(rest).value.1 == |rest|)
  }

  lemma VarintFilled(st: State, chunk: seq<Byte>)
    requires InVarint(st) && !BufferComplete(st) && Deliverable(st, chunk)
    ensures
      var part := st.buf[..st.offset] + chunk;
      BufferComplete(Filled(st, chunk)) <==> |part| == 1 || (Decoded(part).Some? && Decoded(part).value.1 == |part|)
  {
    hide FromBigEndian, Decoded;
    var part := st.buf[..st.offset] + chunk;
    VarintStep(st, chunk);
    if st.offset > 0 && Decoded(part).Some? {
      DecodedAll(part);
    }
  }

  lemma DecodedAll(s: seq<Byte>)
    ensures Decoded(s).Some? ==> |s| > 0 && 0 < Decoded(s).value.1 <= |s|
  {
    hide FromBigEndian;
  }

  lemma FinInType(st: State, seen: seq<Byte>, chunk: seq<Byte>)
    requires Explains(st, seen) && st.phase.TypePhase? && !BufferComplete(st) && Deliverable(st, chunk)
    ensures BufferComplete(Filled(st, chunk)) <==> AtCut(seen + chunk)
  {
    hide Decoded;
    VarintFilled(st, chunk);
    VarintStep(st, chunk);
    var w := seen + chunk;
    if Decoded(w).Some? {
      DecodedAll(w);
      NothingDecoded();
    }
  }

  lemma FinInLen(st: State, seen: seq<Byte>, chunk: seq<Byte>)
    requires Explains(st, seen) && st.phase.LenPhase? && !BufferComplete(st) && Deliverable(st, chunk)
    ensures BufferComplete(Filled(st, chunk)) <==> AtCut(seen + chunk)
  {
    hide Decoded;
    var w := seen + chunk;
    var t := Decoded(seen).value;
    DecodedPrefix(seen, chunk);
    DecodedAll(seen);
    VarintFilled(st, chunk);
    assert w[t.1..] == st.buf[..st.offset] + chunk;
  }

  lemma FinInValue(st: State, seen: seq<Byte>, chunk: seq<Byte>)
    requires Explains(st, seen) && st.phase.ValPhase? && !BufferComplete(st) && Deliverable(st, chunk)
    requires ParseOne(seen + chunk) == Incomplete
    ensures !BufferComplete(Filled(st, chunk)) && !AtCut(seen + chunk)
  {
    hide Decoded;
    ValStep(st, seen, chunk);
    var w := seen + chunk;
    var t := Decoded(seen).value;
    DecodedPrefix(seen, chunk);
    DecodedAll(seen);
    var rest := seen[t.1..];
    assert w[t.1..] == rest + chunk;
    DecodedPrefix(rest, chunk);
    DecodedAll(rest);
  }

  /**
  An end of stream that comes with the bytes of an unfinished frame goes
  unnoticed (the buffer counts as complete) exactly when those bytes end at a
  cut, however they were delivered.
   */
  lemma FinUnnoticedIff(st: State, seen: seq<Byte>, chunk: seq<Byte>)
    requires Explains(st, seen) && !BufferComplete(st) && Deliverable(st, chunk)
    requires ParseOne(seen + chunk) == Incomplete
    ensures st.offset + |chunk| <= |st.buf|
    ensures BufferComplete(Filled(st, chunk)) <==> AtCut(seen + chunk)
  {
    hide Decoded, ParseOne, AtCut;
    match st.phase
    case TypePhase => FinInType(st, seen, chunk);
    case LenPhase => FinInLen(st, seen, chunk);
    case ValPhase => FinInValue(st, seen, chunk);
  }

  /** The same for a run: bytes that complete the buffer and leave the frame unfinished end at a cut. */
  lemma EndAtCut<H>(build: Frame -> Build<H>, r: Progress, chunk: seq<Byte>)
    requires Good(build, r) && r.st.offset + |chunk| <= r.st.stateLen
    ensures r.st.offset + |chunk| <= |r.st.buf|
    ensures !BufferComplete(r.st) && chunk != [] && ParseOne(r.seen + chunk) == Incomplete ==>
      (BufferComplete(Filled(r.st, chunk)) <==> AtCut(r.seen + chunk))
  {
    hide ParseOne, AtCut, ParseAll;
    if !BufferComplete(r.st) && chunk != [] && ParseOne(r.seen + chunk) == Incomplete {
      FinUnnoticedIff(r.st, r.seen, chunk);
    }
  }

  // ----- The stream -----

  datatype Error = Done | InvalidStreamState | StreamReset(code: nat) | ExcessiveLoad | BadFrame(code: nat)

  datatype Received = Data(bytes: seq<Byte>, fin: bool) | Refusal(error: Error)

  /**
  The receiving side of a stream: bytes that arrived and were not read yet,
  whether the end of the stream arrived, and a reset with its error code.
  `closed` once the end or the reset has been told to the reader.
   */
  class Stream {
    var unread: seq<Byte>
    var finReceived: bool
    var reset: Option<nat>
    var closed: bool

    constructor (bytes: seq<Byte>, fin: bool)
      ensures unread == bytes && finReceived == fin && reset == None && !closed
    {
      unread, finReceived, reset, closed := bytes, fin, None, false;
    }

    /** Whether nothing remains to be read: the end was reached, or the stream was reset. */
    predicate Finished()
      reads this
    {
      closed || reset.Some? || (finReceived && unread == [])
    }

    /** The stream still delivers: its end was not told, and it was not reset. */
    predicate Live()
      reads this
    {
      !closed && reset.None?
    }

    /** The end of the stream is told together with the last bytes. */
    predicate Settled()
      reads this
    {
      closed == (finReceived && unread == [])
    }

    /** The stream is in the state that explains the refusal. */
    predicate Refuses(error: Error)
      reads this
    {
      match error
      case Done => !Live() || (unread == [] && !finReceived)
      case InvalidStreamState => closed
      case StreamReset(code) => reset == Some(code)
      case _ => false
    }

    /**
    Delivers some of the unread bytes, at most `max`; how many is up to the
    transport. The end of the stream comes with its last bytes, or alone if they
    were read before it arrived, and it comes once: a closed stream has nothing
    to read while its sending side is open, and is unknown afterwards. A reset
    that arrives behind an end not yet told is not told either.
     */
    method Recv(max: nat) returns (r: Received)
      requires max > 0
      modifies this
      ensures reset == old(reset) && finReceived == old(finReceived)
      ensures r.Data? ==>
        && old(Live()) && |r.bytes| <= max && r.bytes + unread == old(unread)
        && (|r.bytes| > 0 <==> old(unread) != []) && (|r.bytes| > 0 || r.fin)
        && r.fin == (finReceived && unread == []) == closed
      ensures r.Refusal? ==> unread == old(unread) && Refuses(r.error)
      ensures old(closed) ==> closed
      ensures old(Live()) && (old(unread) != [] || finReceived) ==> r.Data?
      ensures r.Refusal? && old(Live()) ==> !closed
    {
      if closed {
        var collected: bool := *;
        return Refusal(if collected then InvalidStreamState else Done);
      }
      if reset.Some? {
        if finReceived {
          return Refusal(Done);
        }
        closed := true;
        return Refusal(StreamReset(reset.value));
      }
      if unread == [] && !finReceived {
        return Refusal(Done);
      }
      var n: nat :| n <= |unread| && n <= max && (unread != [] ==> n > 0);
      var bytes := unread[..n];
      unread := unread[n..];
      closed := finReceived && unread == [];
      return Data(bytes, closed);
    }
  }

  // ----- The parser -----

  datatype Outcome<+H> =
    | AskRetry
    | FrameParsed(h: H, fin: bool)
    | InterruptedByFin
    | InterruptedByReset(code: nat)
    | Failed(error: Error)

  /** What a reaction to the buffer can report; a parsed frame carries the end-of-stream flag. */
  predicate Reacted<H>(o: Outcome<H>, fin: bool) {
    match o
    case AskRetry => true
    case FrameParsed(_, f) => f == fin
    case Failed(error) => error.Done? || error.ExcessiveLoad? || error.BadFrame?
    case _ => false
  }

  /** What the outcome says about the stream. */
  predicate Explained<H>(o: Outcome<H>, stream: Stream)
    reads stream
  {
    match o
    case FrameParsed(_, fin) => fin == stream.Finished()
    case InterruptedByFin => stream.Finished() && stream.unread == []
    case InterruptedByReset(code) => stream.reset == Some(code)
    case Failed(InvalidStreamState) => stream.closed
    case Failed(StreamReset(_)) => false
    case _ => true
  }

  /**
  When the end of the stream interrupts the parser: it is told now, and alone or
  with bytes that leave a frame unfinished and do not end at a cut.
   */
  ghost predicate EndNoticed(told: bool, alone: bool, seen: seq<Byte>) {
    told && (alone || (seen != [] && ParseOne(seen).Incomplete? && !AtCut(seen)))
  }

  /** Bytes put into an unfinished buffer without a reaction. */
  lemma FilledGood<H>(build: Frame -> Build<H>, r: Progress, chunk: seq<Byte>)
    requires Good(build, r) && !r.stopped && r.st.offset + |chunk| < r.st.stateLen
    requires r.st.phase.ValPhase? || r.st.offset > 0 || chunk == []
    ensures r.st.offset + |chunk| <= |r.st.buf|
    ensures Good(build, r.(st := Filled(r.st, chunk), seen := r.seen + chunk))
  {
    hide FromBigEndian;
    hide ParseAll;
    hide ParseOne;
    var f := Filled(r.st, chunk);
    if chunk == [] {
      assert f.buf == r.st.buf && r.seen + chunk == r.seen;
    } else {
      assert f.buf[..f.offset] == r.st.buf[..r.st.offset] + chunk;
      match r.st.phase
      case TypePhase =>
        assert f.buf[0] == r.st.buf[0];
      case LenPhase =>
        assert f.buf[0] == r.st.buf[0];
        DecodedPrefix(r.seen, chunk);
      case ValPhase =>
        FilledExplains(r.st, r.seen, chunk);
    }
  }

  /** After a refusal the parser answers with the same refusal. */
  lemma StoppedAgain<H>(build: Frame -> Build<H>, r: Progress)
    requires Good(build, r) && r.stopped
    ensures r.st.phase.LenPhase? ==>
      Decoded(r.st.buf).Some? && Decoded(r.st.buf).value.0 > MAX_STREAM_STATE_SIZE && ParseOne(r.seen).Oversize?
    ensures r.st.phase.ValPhase? ==>
      r.st.ty.Some? && ParseOne(r.seen) == Whole(Frame(r.st.ty.value, r.st.buf), |r.seen|)
      && build(Frame(r.st.ty.value, r.st.buf)).Refused?
  {
    hide FromBigEndian;
    hide ParseAll;
    var st, seen := r.st, r.seen;
    var t := Decoded(seen).value;
    var rest := seen[t.1..];
    assert st.buf[..st.offset] == st.buf;
    if st.phase.LenPhase? {
      assert rest == st.buf;
      var l := Decoded(rest).value;
      assert rest[l.1..] == [];
    } else {
      var l := Decoded(rest).value;
      assert rest[l.1..] == seen[t.1 + l.1..] == st.buf;
    }
  }

  lemma GoodFits<H>(build: Frame -> Build<H>, r: Progress)
    requires Good(build, r)
    ensures r.st.offset <= r.st.stateLen == |r.st.buf|
    ensures r.stopped ==> BufferComplete(r.st)
    ensures !r.stopped && BufferComplete(r.st) ==> Pending(r.st)
  {
  }

  lemma StoppedFilled<H>(build: Frame -> Build<H>, r: Progress, chunk: seq<Byte>)
    requires Good(build, r) && r.stopped && Deliverable(r.st, chunk)
    ensures chunk == [] && r.st.offset <= |r.st.buf| && Filled(r.st, chunk) == r.st
  {
    assert chunk == [];
    assert r.st.buf[..r.st.offset] + [] + r.st.buf[r.st.offset..] == r.st.buf;
  }

  lemma FilledReport<H>(build: Frame -> Build<H>, r: Progress, chunk: seq<Byte>)
    requires Good(build, r) && r.st.offset + |chunk| < r.st.stateLen
    ensures !r.stopped && r.st.offset + |chunk| <= |r.st.buf|
    ensures Good(build, r.(st := Filled(r.st, chunk), seen := r.seen + chunk))
    ensures ParseOne(r.seen + chunk) == Incomplete
  {
    hide ParseOne;
    FilledGood(build, r, chunk);
    UnfinishedIncomplete(Filled(r.st, chunk), r.seen + chunk);
  }

  lemma StoppedReport<H>(build: Frame -> Build<H>, r: Progress)
    requires Good(build, r) && r.stopped
    ensures r.st.phase.ValPhase? ==> r.st.ty.Some?
    ensures !r.st.phase.ValPhase? ==> |r.st.buf| > 0 && r.st.offset != 1 && Decoded(r.st.buf).Some?
    ensures
      var (s, ev) := React(r.st);
      && (ev.TooLarge? || (ev.Parsed? && build(ev.frame).Refused?))
      && (ev.TooLarge? ==> Good(build, r.(st := s)) && ParseOne(r.seen).Oversize? && !Pending(s))
      && (ev.Parsed? ==> ParseOne(r.seen).Whole? && ParseOne(r.seen).frame == ev.frame)
  {
    hide Decoded;
    hide ParseAll;
    StoppedAgain(build, r);
  }

  /** What a round does, event by event. */
  lemma RoundReport<H>(build: Frame -> Build<H>, r: Progress, chunk: seq<Byte>)
    requires Good(build, r) && Deliverable(r.st, chunk) && !r.stopped
    ensures Good(build, Round(build, r, chunk))
    ensures Round(build, r, chunk).done + Round(build, r, chunk).seen == r.done + r.seen + chunk
    ensures
      var f := Filled(r.st, chunk);
      && (f.phase.ValPhase? ==> f.ty.Some?)
      && (!f.phase.ValPhase? ==> |f.buf| > 0 && (f.offset != 1 ==> Decoded(f.buf).Some?))
      && var (s, ev) := React(f);
      var q := Round(build, r, chunk);
      match ev
      case Moved =>
        && q == r.(st := s, seen := r.seen + chunk)
        && (if r.st.phase.TypePhase? then s.phase.LenPhase? else r.st.phase.LenPhase? && s.phase.ValPhase?)
      case Retry =>
        && q == r.(st := s, seen := r.seen + chunk) && chunk != []
        && ParseOne(q.seen) == Incomplete && !Pending(s)
      case NeedData =>
        q == r.(st := s, seen := r.seen + chunk) && ParseOne(q.seen) == Incomplete && !Pending(s)
      case TooLarge =>
        && q == r.(st := s, seen := r.seen + chunk, stopped := true)
        && ParseOne(q.seen).Oversize? && !Pending(s)
      case Parsed(frame) =>
        if build(frame).Built? then q == Progress(START, r.done + r.seen + chunk, [], r.emitted + [frame], false)
        else q == r.(st := f, seen := r.seen + chunk, stopped := true) && ParseOne(q.seen) == Whole(frame, |q.seen|)
  {
    RoundGood(build, r, chunk);
    RoundDefined(build, r, chunk);
    hide React;
    hide ParseOne;
    hide Decoded;
    hide ParseAll;
    match r.st.phase
    case TypePhase => TypeStep(r.st, r.seen, chunk);
    case LenPhase => LenStep(r.st, r.seen, chunk);
    case ValPhase =>
      ValStep(r.st, r.seen, chunk);
      assert r.done + (r.seen + chunk) == r.done + r.seen + chunk;
  }

  /** A frame is reported exactly when one was emitted, and it is what the frame decoder built. */
  ghost predicate EmittedOnce<H>(build: Frame -> Build<H>, before: seq<Frame>, o: Outcome<H>, emitted: seq<Frame>) {
    if o.FrameParsed?
    then |emitted| == |before| + 1 && emitted[..|before|] == before && build(emitted[|before|]) == Built(o.h)
    else emitted == before
  }

  /** What the reported outcome says about the bytes of the current frame. */
  ghost predicate SaysOfBytes<H>(build: Frame -> Build<H>, r: Progress, o: Outcome<H>) {
    match o
    case AskRetry => !r.stopped && ParseOne(r.seen) == Incomplete
    case FrameParsed(_, _) => !r.stopped && r.seen == [] && r.st == START
    case InterruptedByFin => !r.stopped && ParseOne(r.seen) == Incomplete
    case InterruptedByReset(_) => !r.stopped && ParseOne(r.seen) == Incomplete
    case Failed(ExcessiveLoad) => r.stopped && ParseOne(r.seen).Oversize?
    case Failed(BadFrame(code)) =>
      r.stopped && ParseOne(r.seen).Whole? && build(ParseOne(r.seen).frame) == Refused(code)
    case Failed(_) => !r.stopped && ParseOne(r.seen) == Incomplete
  }

  /** The state has what a reaction needs. */
  predicate Reactable(st: State) {
    && (st.phase.ValPhase? ==> st.ty.Some?)
    && (!st.phase.ValPhase? ==> |st.buf| > 0 && (st.offset != 1 ==> Decoded(st.buf).Some?))
  }

  /** The outcome and the state that a reaction to a filled buffer leads to. */
  ghost predicate Reaction<H>(build: Frame -> Build<H>, st: State, fin: bool, o: Option<Outcome<H>>, after: State)
    requires Reactable(st)
  {
    var (s, ev) := React(st);
    match ev
    case Moved => o == None && after == s
    case Retry => o == Some(AskRetry) && after == s
    case NeedData => o == Some(Failed(Done)) && after == s
    case TooLarge => o == Some(Failed(ExcessiveLoad)) && after == s
    case Parsed(f) =>
      if build(f).Built? then o == Some(FrameParsed(build(f).value, fin)) && after == START
      else o == Some(Failed(BadFrame(build(f).code))) && after == st
  }

  /** A chunk was read and reacted to: the account is kept, and the outcome tells the truth about it. */
  ghost predicate Booked<H>(
      build: Frame -> Build<H>, before: Progress, chunk: seq<Byte>, fin: bool, o: Option<Outcome<H>>, after: Progress)
  {
    && Good(build, after) && after.done + after.seen == before.done + before.seen + chunk
    && (o.None? ==>
          && !before.stopped && !after.stopped && after.emitted == before.emitted
          && (if before.st.phase.TypePhase? then after.st.phase.LenPhase?
              else before.st.phase.LenPhase? && after.st.phase.ValPhase?))
    && (o.Some? ==>
          && SaysOfBytes(build, after, o.value) && (Pending(after.st) ==> after.stopped)
          && EmittedOnce(build, before.emitted, o.value, after.emitted) && Reacted(o.value, fin))
    && (o == Some(AskRetry) ==> chunk != [])
    && (after.seen == before.seen + chunk || (after.seen == [] && o.Some? && o.value.FrameParsed?))
  }

  lemma ReactDefined<H>(build: Frame -> Build<H>, r: Progress, chunk: seq<Byte>)
    requires Good(build, r) && Deliverable(r.st, chunk) && r.st.offset + |chunk| <= |r.st.buf|
    ensures Reactable(Filled(r.st, chunk))
  {
    hide Good, React, Round, ParseOne, Decoded;
    if r.stopped {
      StoppedFilled(build, r, chunk);
      StoppedReport(build, r);
    } else {
      RoundReport(build, r, chunk);
    }
  }

  lemma StoppedBooked<H>(
      build: Frame -> Build<H>, r: Progress, chunk: seq<Byte>, fin: bool, o: Option<Outcome<H>>, after: State)
    requires Good(build, r) && r.stopped && Deliverable(r.st, chunk) && r.st.offset + |chunk| <= |r.st.buf|
    requires Reactable(Filled(r.st, chunk)) && Reaction(build, Filled(r.st, chunk), fin, o, after)
    ensures Booked(build, r, chunk, fin, o, r.(st := after))
  {
    hide Good, React, ParseOne, Decoded, Deliverable, Filled;
    StoppedFilled(build, r, chunk);
    StoppedReport(build, r);
    assert r.done + r.seen + chunk == r.done + r.seen && r.seen + chunk == r.seen;
  }

  lemma RunningBooked<H>(
      build: Frame -> Build<H>, r: Progress, chunk: seq<Byte>, fin: bool, o: Option<Outcome<H>>, after: State)
    requires Good(build, r) && !r.stopped && Deliverable(r.st, chunk) && r.st.offset + |chunk| <= |r.st.buf|
    requires Reactable(Filled(r.st, chunk)) && Reaction(build, Filled(r.st, chunk), fin, o, after)
    ensures Booked(build, r, chunk, fin, o, Round(build, r, chunk)) && Round(build, r, chunk).st == after
  {
    hide Good, React, ParseOne, Decoded, Deliverable, Filled, Round;
    RoundReport(build, r, chunk);
  }

  class FrameParser<H> {
    const build: Frame -> Build<H>
    var ty: Option<nat>
    var len: Option<nat>
    var currState: Phase
    var stateBuf: seq<Byte>
    var stateOffset: nat
    var stateLen: nat

    /** Bytes of the emitted frames, bytes of the current frame, and the emitted frames. */
    ghost var done: seq<Byte>
    ghost var seen: seq<Byte>
    ghost var emitted: seq<Frame>
    ghost var stopped: bool

    ghost function View(): State
      reads this
    {
      State(ty, len, currState, stateBuf, stateOffset, stateLen)
    }

    ghost function Account(): Progress
      reads this
    {
      Progress(View(), done, seen, emitted, stopped)
    }

    ghost predicate Valid()
      reads this
    {
      Good(build, Account()) && (Pending(View()) ==> stopped)
    }

    constructor (build: Frame -> Build<H>)
      ensures Valid() && Account() == INITIAL && this.build == build
    {
      this.build := build;
      ty, len, currState := None, None, TypePhase;
      stateBuf, stateOffset, stateLen := [0], 0, 1;
      done, seen, emitted, stopped := [], [], [], false;
      new;
      InitialGood(build);
    }

    predicate StateBufferComplete()
      reads this
    {
      stateOffset == stateLen
    }

    predicate FrameIncomplete()
      reads this
    {
      stateBuf != [] && !StateBufferComplete()
    }

    /** Reads into the rest of the buffer; a complete buffer reads nothing. */
    method TryFillBuffer(stream: Stream) returns (r: Received, ghost chunk: seq<Byte>)
      requires stateOffset <= stateLen == |stateBuf|
      modifies this, stream
      ensures done == old(done) && seen == old(seen) && emitted == old(emitted) && stopped == old(stopped)
      ensures chunk + stream.unread == old(stream.unread)
      ensures r.Refusal? ==>
        View() == old(View()) && !BufferComplete(View()) && chunk == [] && stream.Refuses(r.error)
      ensures r.Data? ==>
        && old(stateOffset) + |chunk| <= old(stateLen)
        && View() == Filled(old(View()), chunk)
        && (|chunk| > 0 || r.fin || BufferComplete(old(View())))
        && r.fin == stream.Finished()
        && (if BufferComplete(old(View())) then stream.closed == old(stream.closed)
            else old(stream.Live()) && r.fin == stream.closed && (chunk == [] <==> old(stream.unread) == [])
                 && (r.fin ==> stream.finReceived && stream.unread == []))
      ensures stream.reset == old(stream.reset) && stream.finReceived == old(stream.finReceived)
      ensures old(stream.closed) ==> stream.closed
      ensures old(stream.Live()) && (old(stream.unread) != [] || stream.finReceived) ==> r.Data?
      ensures r.Refusal? && old(stream.Live()) ==> !stream.closed
      ensures !BufferComplete(old(View())) && old(stream.Live()) && old(stream.unread) != [] ==> stream.Settled()
      ensures old(stream.reset).None? && old(stream.Settled()) ==> stream.Settled()
    {
      if StateBufferComplete() {
        assert stateBuf[..stateOffset] + [] + stateBuf[stateOffset..] == stateBuf;
        chunk := [];
        return Data([], stream.Finished()), chunk;
      }
      r := stream.Recv(stateLen - stateOffset);
      chunk := if r.Data? then r.bytes else [];
      if r.Data? {
        stateBuf := stateBuf[..stateOffset] + r.bytes + stateBuf[stateOffset + |r.bytes|..];
        stateOffset := stateOffset + |r.bytes|;
      }
    }

    /** Grows the buffer to the varint's length, then decodes it once it is complete. */
    method TryConsumeVarint() returns (v: Option<nat>)
      requires |stateBuf| > 0 && (stateOffset != 1 ==> Decoded(stateBuf).Some?)
      modifies this`stateLen, this`stateBuf
      ensures View() == Sized(old(View()))
      ensures v.Some? == BufferComplete(View())
      ensures v.Some? ==> Decoded(stateBuf).Some? && v.value == Decoded(stateBuf).value.0
    {
      ghost var before := View();
      SizedDecodes(before);
      if stateOffset == 1 {
        stateLen := VarintParseLen(stateBuf[0]);
        stateBuf := Resize(stateBuf, stateLen);
      }
      if !StateBufferComplete() {
        return None;
      }
      return Some(Decoded(stateBuf).value.0);
    }

    method StateTransition(newState: Phase, expectedLen: nat) returns (ok: bool)
      modifies this`stateBuf, this`currState, this`stateOffset, this`stateLen
      ensures ok == (expectedLen <= MAX_STREAM_STATE_SIZE)
      ensures View() == if ok then Transition(old(View()), newState, expectedLen) else old(View())
    {
      if expectedLen > MAX_STREAM_STATE_SIZE {
        return false;
      }
      stateBuf := Resize(stateBuf, expectedLen);
      currState := newState;
      stateOffset := 0;
      stateLen := expectedLen;
      return true;
    }

    /** The reaction to the filled buffer; nothing to report means the loop goes on. */
    method ReactNow(fin: bool) returns (o: Option<Outcome<H>>)
      requires currState.ValPhase? ==> ty.Some?
      requires !currState.ValPhase? ==> |stateBuf| > 0 && (stateOffset != 1 ==> Decoded(stateBuf).Some?)
      modifies this`ty, this`len, this`currState, this`stateBuf, this`stateOffset, this`stateLen
      ensures Reaction(build, old(View()), fin, o, View())
    {
      hide Decoded;
      match currState
      case TypePhase =>
        var v := TryConsumeVarint();
        if v.None? {
          return Some(AskRetry);
        }
        ty := v;
        var ok := StateTransition(LenPhase, 1);
        ok := StateTransition(LenPhase, 1);
        return None;
      case LenPhase =>
        var v := TryConsumeVarint();
        if v.None? {
          return Some(AskRetry);
        }
        len := v;
        var ok := StateTransition(ValPhase, v.value);
        if !ok {
          return Some(Failed(ExcessiveLoad));
        }
        ok := StateTransition(ValPhase, v.value);
        return None;
      case ValPhase =>
        if StateBufferComplete() {
          match build(Frame(ty.value, stateBuf))
          case Refused(code) =>
            return Some(Failed(BadFrame(code)));
          case Built(h) =>
            ty, len, currState := None, None, TypePhase;
            stateBuf, stateOffset, stateLen := [0], 0, 1;
            return Some(FrameParsed(h, fin));
        }
        return Some(Failed(Done));
    }

    /** Reacts to a chunk read into the buffer and books it. */
    method ReactAndBook(fin: bool, ghost before: Progress, ghost chunk: seq<Byte>) returns (o: Option<Outcome<H>>)
      requires Good(build, before) && Deliverable(before.st, chunk)
      requires before.st.offset + |chunk| <= |before.st.buf|
      requires Account() == before.(st := Filled(before.st, chunk))
      modifies this
      ensures Booked(build, before, chunk, fin, o, Account())
    {
      hide Good, Round, Booked, Reaction, Filled, Deliverable;
      ReactDefined(build, before, chunk);
      o := ReactNow(fin);
      if stopped {
        StoppedBooked(build, before, chunk, fin, o, View());
      } else {
        RunningBooked(build, before, chunk, fin, o, View());
        ghost var after := Round(build, before, chunk);
        done, seen, emitted, stopped := after.done, after.seen, after.emitted, after.stopped;
      }
    }

    /** One round of the parser's loop. */
    method OneRound(stream: Stream) returns (o: Option<Outcome<H>>)
      requires Good(build, Account())
      modifies this, stream
      ensures Good(build, Account())
      ensures done + seen + stream.unread == old(done + seen + stream.unread)
      ensures |done + seen| >= |old(done + seen)|
      ensures o.None? ==>
        && !stopped && emitted == old(emitted)
        && (if old(currState).TypePhase? then currState.LenPhase? else old(currState).LenPhase? && currState.ValPhase?)
      ensures o.Some? ==> Reported(o.value) && (Pending(View()) ==> stopped)
      ensures o.Some? ==> Emits(old(emitted), o.value)
      ensures o == Some(AskRetry) ==> |done + seen| > |old(done + seen)|
      ensures o.Some? ==> Explained(o.value, stream)
      ensures stream.reset == old(stream.reset) && stream.finReceived == old(stream.finReceived)
      ensures old(stream.closed) ==> stream.closed && (seen == old(seen) || seen == [])
      ensures o == Some(InterruptedByFin)
         <==> EndNoticed(old(stream.Live()) && stream.closed, old(stream.unread) == [], seen)
      ensures !old(StateBufferComplete()) && old(stream.Live()) && old(stream.unread) != [] ==>
        && |done + seen| > |old(done + seen)|
        && stream.Settled()
      ensures o.None? ==> !old(StateBufferComplete()) && old(stream.Live()) && old(stream.unread) != []
      ensures old(stream.Live()) && stream.closed ==> stream.finReceived && stream.unread == []
      ensures old(stream.reset).None? && old(stream.Settled()) ==> stream.Settled()
    {
      hide Good, ParseOne, AtCut, Explains, Decoded;
      ghost var before := Account();
      GoodFits(build, before);
      ghost var chunk: seq<Byte>;
      var fill;
      fill, chunk := TryFillBuffer(stream);
      if fill.Refusal? {
        FilledReport(build, before, []);
        assert before.seen + [] == before.seen;
        if fill.error.StreamReset? {
          return Some(InterruptedByReset(fill.error.code));
        }
        return Some(Failed(fill.error));
      }
      if fill.fin && FrameIncomplete() {
        FilledReport(build, before, chunk);
        seen := seen + chunk;
        assert Account() == before.(st := Filled(before.st, chunk), seen := before.seen + chunk);
        EndAtCut(build, before, chunk);
        return Some(InterruptedByFin);
      }
      EndAtCut(build, before, chunk);
      o := ReactAndBook(fill.fin, before, chunk);
    }

    ghost predicate Emits(before: seq<Frame>, o: Outcome<H>)
      reads this
    {
      EmittedOnce(build, before, o, emitted)
    }

    ghost predicate Reported(o: Outcome<H>)
      reads this
    {
      SaysOfBytes(build, Account(), o)
    }

    /**
    Pulls stream data until a frame is complete or no more can be said. Bytes
    read are accounted for, a live stream with unread bytes makes progress, the
    end of the stream interrupts exactly when it is noticed, and the call takes
    at most three rounds.
     */
    method TryParseFrame(stream: Stream) returns (o: Outcome<H>, ghost rounds: nat)
      requires Valid()
      modifies this, stream
      ensures Valid()
      ensures done + seen + stream.unread == old(done + seen + stream.unread)
      ensures |done + seen| >= |old(done + seen)|
      ensures Reported(o) && Emits(old(emitted), o)
      ensures o == AskRetry ==> |done + seen| > |old(done + seen)|
      ensures Explained(o, stream)
      ensures stream.reset == old(stream.reset) && stream.finReceived == old(stream.finReceived)
      ensures old(stream.closed) ==> stream.closed
      ensures o == InterruptedByFin
         <==> EndNoticed(old(stream.Live()) && stream.closed, old(stream.unread) == [], seen)
      ensures !old(stopped) && old(stream.Live()) && old(stream.unread) != [] ==>
        && |done + seen| > |old(done + seen)|
        && stream.Settled()
      ensures rounds <= 3
    {
      hide Good, ParseOne, AtCut;
      GoodFits(build, Account());
      rounds := 0;
      while true
        invariant Good(build, Account()) && emitted == old(emitted)
        invariant done + seen + stream.unread == old(done + seen + stream.unread)
        invariant |done + seen| >= |old(done + seen)|
        invariant rounds == 0 ==> Account() == old(Account())
        invariant rounds == 0 ==> stream.unread == old(stream.unread) && stream.closed == old(stream.closed)
        invariant rounds > 0 ==> !stopped && !currState.TypePhase?
        invariant rounds <= (match currState case TypePhase => 0 case LenPhase => 1 case ValPhase => 2)
        invariant stream.reset == old(stream.reset) && stream.finReceived == old(stream.finReceived)
        invariant old(stream.closed) ==> stream.closed
        invariant rounds > 0 ==>
          && old(stream.Live()) && old(stream.unread) != [] && |done + seen| > |old(done + seen)|
          && stream.Settled()
          && !EndNoticed(stream.closed, false, seen)
        decreases match currState case TypePhase => 2 case LenPhase => 1 case ValPhase => 0
      {
        ghost var total := done + seen;
        var r := OneRound(stream);
        rounds := rounds + 1;
        if r.Some? {
          return r.value, rounds;
        }
      }
    }
  }
}
