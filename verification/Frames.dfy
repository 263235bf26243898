/**
HTTP/3 frames, section 7.1 of RFC 9114: a varint type, a varint length and the
payload. The first half of the module parses a byte string in one go; the second
half is the incremental parser's state and its reaction to each chunk read from
the stream. The link between the two is that the incremental parser has always
emitted exactly the frames the one-go parser finds in the bytes consumed so far.
 */
module Frames {
  import opened Field
  import opened Options
  import opened Varints

  /** Max stream state size in bytes. */
  const MAX_STREAM_STATE_SIZE: nat := 2_000_000

  datatype Frame = Frame(ty: nat, payload: seq<Byte>)

  /** What the frame decoder makes of a type and payload. */
  datatype Build<+H> = Built(value: H) | Refused(code: nat)

  // ----- Parsing in one go -----

  datatype Parse = Incomplete | Whole(frame: Frame, size: nat) | Oversize

  /** The first frame of `w`, if it is all there. */
  function ParseOne(w: seq<Byte>): (p: Parse)
    ensures p.Whole? ==> 0 < p.size <= |w|
  {
    var t := Decoded(w);
    if t.None? then Incomplete else
      var rest := w[t.value.1..];
      var l := Decoded(rest);
      if l.None? then Incomplete
      else if l.value.0 > MAX_STREAM_STATE_SIZE then Oversize
      else
        var body := rest[l.value.1..];
        if |body| < l.value.0 then Incomplete
        else Whole(Frame(t.value.0, body[..l.value.0]), t.value.1 + l.value.1 + l.value.0)
  }

  /** All complete, acceptable frames of `w`, and the bytes after them. */
  function ParseAll<H>(build: Frame -> Build<H>, w: seq<Byte>): (seq<Frame>, seq<Byte>)
    decreases |w|
  {
    var p := ParseOne(w);
    if p.Whole? && build(p.frame).Built? then
      var (frames, rest) := ParseAll(build, w[p.size..]);
      ([p.frame] + frames, rest)
    else ([], w)
  }

  /** A complete frame is found no matter what follows it. */
  lemma ParseOneStable(w: seq<Byte>, more: seq<Byte>)
    requires !ParseOne(w).Incomplete?
    ensures ParseOne(w + more) == ParseOne(w)
  {
    hide Decoded;
    var t := Decoded(w).value;
    DecodedPrefix(w, more);
    var rest := w[t.1..];
    assert (w + more)[t.1..] == rest + more;
    var l := Decoded(rest).value;
    DecodedPrefix(rest, more);
    assert (rest + more)[l.1..] == rest[l.1..] + more;
    if l.0 <= MAX_STREAM_STATE_SIZE {
      assert (rest[l.1..] + more)[..l.0] == rest[l.1..][..l.0];
    }
  }

  /** Parsing goes on with the unparsed rest. */
  lemma {:induction false} ParseAllAppend<H>(build: Frame -> Build<H>, w: seq<Byte>, more: seq<Byte>)
    ensures
      var (frames, rest) := ParseAll(build, w);
      var (later, rest') := ParseAll(build, rest + more);
      ParseAll(build, w + more) == (frames + later, rest')
    decreases |w|
  {
    hide ParseOne;
    var p := ParseOne(w);
    if p.Whole? && build(p.frame).Built? {
      ParseOneStable(w, more);
      ParseAllAppend(build, w[p.size..], more);
      assert (w + more)[p.size..] == w[p.size..] + more;
      var (frames, rest) := ParseAll(build, w[p.size..]);
      var later := ParseAll(build, rest + more).0;
      assert [p.frame] + (frames + later) == [p.frame] + frames + later;
    } else {
      assert [] + ParseAll(build, w + more).0 == ParseAll(build, w + more).0;
    }
  }

  /** The lengths a sender chose for the two varints of a frame; they need not be the shortest. */
  datatype Lengths = Lengths(ofType: nat, ofLength: nat)

  predicate Sendable(f: Frame, c: Lengths) {
    && PermittedLen(c.ofType) && PermittedLen(c.ofLength)
    && f.ty < Limit(c.ofType) && |f.payload| < Limit(c.ofLength)
    && |f.payload| <= MAX_STREAM_STATE_SIZE
  }

  function FrameBytes(f: Frame, c: Lengths): seq<Byte>
    requires Sendable(f, c)
  {
    Encoded(f.ty, c.ofType) + Encoded(|f.payload|, c.ofLength) + f.payload
  }

  ghost predicate AllSendable(frames: seq<Frame>, codes: seq<Lengths>) {
    |codes| == |frames| && forall i :: 0 <= i < |frames| ==> Sendable(frames[i], codes[i])
  }

  function AllBytes(frames: seq<Frame>, codes: seq<Lengths>): seq<Byte>
    requires AllSendable(frames, codes)
  {
    if |frames| == 0 then [] else FrameBytes(frames[0], codes[0]) + AllBytes(frames[1..], codes[1..])
  }

  /** Every frame within the limit can be sent, with the shortest varints for one. */
  lemma ShortestSendable(f: Frame)
    requires f.ty < Limit(8) && |f.payload| <= MAX_STREAM_STATE_SIZE
    ensures Sendable(f, Lengths(VarintLen(f.ty), VarintLen(|f.payload|)))
  {
  }

  lemma AfterPrefix(t: seq<Byte>, rest: seq<Byte>)
    ensures (t + rest)[|t|..] == rest && (t + rest)[..|t|] == t
  {
  }

  lemma ParseFrameBytes(f: Frame, c: Lengths, rest: seq<Byte>)
    requires Sendable(f, c)
    ensures ParseOne(FrameBytes(f, c) + rest) == Whole(f, |FrameBytes(f, c)|)
  {
    hide Encoded, Decoded;
    var t, l := Encoded(f.ty, c.ofType), Encoded(|f.payload|, c.ofLength);
    var body := f.payload + rest;
    assert FrameBytes(f, c) + rest == t + (l + body);
    VarintRoundTrip(f.ty, c.ofType, l + body);
    VarintRoundTrip(|f.payload|, c.ofLength, body);
    AfterPrefix(t, l + body);
    AfterPrefix(l, body);
    AfterPrefix(f.payload, rest);
  }

  /** Parsing the bytes of a list of frames, however their varints were written, gives back the list. */
  lemma {:induction false} FramesRoundTrip<H>(build: Frame -> Build<H>, frames: seq<Frame>, codes: seq<Lengths>)
    requires AllSendable(frames, codes) && forall i :: 0 <= i < |frames| ==> build(frames[i]).Built?
    ensures ParseAll(build, AllBytes(frames, codes)) == (frames, [])
    decreases |frames|
  {
    hide FrameBytes, ParseOne, Sendable;
    if |frames| == 0 {
      ParseNothing();
    } else {
      var first, rest := FrameBytes(frames[0], codes[0]), AllBytes(frames[1..], codes[1..]);
      ParseFrameBytes(frames[0], codes[0], rest);
      AfterPrefix(first, rest);
      FramesRoundTrip(build, frames[1..], codes[1..]);
      assert [frames[0]] + frames[1..] == frames;
    }
  }

  /** Only frames are parsed: the bytes taken are an encoding of the frame returned. */
  lemma WholeIsFrame(w: seq<Byte>) returns (c: Lengths)
    requires ParseOne(w).Whole?
    ensures
      var p := ParseOne(w);
      Sendable(p.frame, c) && w[..p.size] == FrameBytes(p.frame, c)
  {
    hide Decoded, Encoded, Limit;
    var p := ParseOne(w);
    DecodedIsEncoded(w);
    var t := Decoded(w).value;
    var rest := w[t.1..];
    DecodedIsEncoded(rest);
    var l := Decoded(rest).value;
    c := Lengths(t.1, l.1);
    ThreePieces(w, t.1, l.1, l.0);
  }

  /** A frame is refused for its length exactly when the bytes begin with a type and a length beyond the limit. */
  lemma OversizeIs(w: seq<Byte>)
    ensures ParseOne(w).Oversize? <==>
      exists ty: nat, n: nat, c: Lengths :: OversizeHeader(w, ty, n, c)
  {
    hide ParseOne, OversizeHeader;
    if ParseOne(w).Oversize? {
      OversizeFound(w);
    }
    if ty: nat, n: nat, c: Lengths :| OversizeHeader(w, ty, n, c) {
      OversizeParsed(w, ty, n, c);
    }
  }

  lemma OversizeFound(w: seq<Byte>)
    requires ParseOne(w).Oversize?
    ensures exists ty: nat, n: nat, c: Lengths :: OversizeHeader(w, ty, n, c)
  {
    hide Decoded, Encoded, Limit;
    DecodedIsEncoded(w);
    var t := Decoded(w).value;
    var rest := w[t.1..];
    DecodedIsEncoded(rest);
    var l := Decoded(rest).value;
    TwoPieces(w, t.1, l.1);
    assert OversizeHeader(w, t.0, l.0, Lengths(t.1, l.1));
  }

  lemma TwoPieces(w: seq<Byte>, i: nat, j: nat)
    requires i + j <= |w|
    ensures w[..i + j] == w[..i] + w[i..][..j]
  {
  }

  lemma ThreePieces(w: seq<Byte>, i: nat, j: nat, n: nat)
    requires i + j + n <= |w|
    ensures w[..i + j + n] == w[..i] + w[i..][..j] + w[i..][j..][..n]
  {
    TwoPieces(w, i, j);
    TwoPieces(w, i + j, n);
    assert w[i..][j..] == w[i + j..];
  }

  lemma OversizeParsed(w: seq<Byte>, ty: nat, n: nat, c: Lengths)
    requires OversizeHeader(w, ty, n, c)
    ensures ParseOne(w).Oversize?
  {
    hide Decoded, Encoded, Limit;
    var t, l := Encoded(ty, c.ofType), Encoded(n, c.ofLength);
    var rest := w[c.ofType + c.ofLength..];
    assert w == (t + l) + rest && (t + l) + rest == t + (l + rest);
    VarintRoundTrip(ty, c.ofType, l + rest);
    AfterPrefix(t, l + rest);
    VarintRoundTrip(n, c.ofLength, rest);
  }

  ghost predicate OversizeHeader(w: seq<Byte>, ty: nat, n: nat, c: Lengths) {
    && PermittedLen(c.ofType) && PermittedLen(c.ofLength) && ty < Limit(c.ofType) && n < Limit(c.ofLength)
    && n > MAX_STREAM_STATE_SIZE && c.ofType + c.ofLength <= |w|
    && w[..c.ofType + c.ofLength] == Encoded(ty, c.ofType) + Encoded(n, c.ofLength)
  }

  lemma ParseNothing()
    ensures ParseOne([]) == Incomplete
  {
  }

  // ----- The incremental parser's state -----

  datatype Phase = TypePhase | LenPhase | ValPhase

  datatype State = State(
    ty: Option<nat>,
    len: Option<nat>,
    phase: Phase,
    buf: seq<Byte>,
    offset: nat,
    stateLen: nat
  )

  const START := State(None, None, TypePhase, [0], 0, 1)

  datatype Event = Moved | Retry | NeedData | Parsed(frame: Frame) | TooLarge

  function Resize(s: seq<Byte>, n: nat): (t: seq<Byte>)
    ensures |t| == n
  {
    if n <= |s| then s[..n] else s + seq(n - |s|, _ => 0)
  }

  predicate BufferComplete(st: State) {
    st.offset == st.stateLen
  }

  function Transition(st: State, phase: Phase, expected: nat): State {
    st.(buf := Resize(st.buf, expected), phase := phase, offset := 0, stateLen := expected)
  }

  /** After the first byte of a varint the buffer takes the varint's length. */
  function Sized(st: State): State
    requires |st.buf| > 0
  {
    if st.offset == 1 then
      var n := VarintParseLen(st.buf[0]);
      st.(stateLen := n, buf := Resize(st.buf, n))
    else st
  }

  /** The reaction to a filled buffer: one round of the parser's loop. */
  function React(st: State): (State, Event)
    requires st.phase.ValPhase? ==> st.ty.Some?
    requires !st.phase.ValPhase? ==> |st.buf| > 0 && (st.offset != 1 ==> Decoded(st.buf).Some?)
  {
    match st.phase
    case TypePhase =>
      var s := Sized(st);
      if !BufferComplete(s) then (s, Retry) else
        SizedDecodes(st);
        (Transition(s.(ty := Some(Decoded(s.buf).value.0)), LenPhase, 1), Moved)
    case LenPhase =>
      var s := Sized(st);
      if !BufferComplete(s) then (s, Retry) else
        SizedDecodes(st);
        var l := Decoded(s.buf).value.0;
        if l > MAX_STREAM_STATE_SIZE then (s.(len := Some(l)), TooLarge)
        else (Transition(s.(len := Some(l)), ValPhase, l), Moved)
    case ValPhase =>
      if BufferComplete(st) then (START, Parsed(Frame(st.ty.value, st.buf))) else (st, NeedData)
  }

  lemma SizedDecodes(st: State)
    requires |st.buf| > 0 && (st.offset != 1 ==> Decoded(st.buf).Some?)
    ensures Decoded(Sized(st).buf).Some?
  {
    if st.offset == 1 {
      assert Sized(st).buf[0] == st.buf[0];
    }
  }

  /** A chunk read into the buffer. */
  function Filled(st: State, chunk: seq<Byte>): State
    requires st.offset + |chunk| <= |st.buf|
  {
    st.(buf := st.buf[..st.offset] + chunk + st.buf[st.offset + |chunk|..], offset := st.offset + |chunk|)
  }

  // ----- What the state knows about the bytes of the current frame -----

  /** The buffer holds a varint, or the part of one read so far. */
  ghost predicate InVarint(st: State) {
    && |st.buf| == st.stateLen
    && st.offset <= st.stateLen
    && if st.offset == 0 then st.stateLen == 1 else st.stateLen == VarintParseLen(st.buf[0])
  }

  /** `st` is the state after the bytes `seen` of the current frame. */
  ghost predicate Explains(st: State, seen: seq<Byte>) {
    && st.offset <= st.stateLen == |st.buf| <= MAX_STREAM_STATE_SIZE
    && match st.phase
       case TypePhase => InVarint(st) && st.buf[..st.offset] == seen
       case LenPhase =>
         var t := Decoded(seen);
         && InVarint(st) && t.Some? && st.ty == Some(t.value.0)
         && t.value.1 <= |seen| && st.buf[..st.offset] == seen[t.value.1..]
       case ValPhase =>
         var t := Decoded(seen);
         && t.Some? && st.ty == Some(t.value.0) && t.value.1 <= |seen|
         && var l := Decoded(seen[t.value.1..]);
         && l.Some? && st.len == Some(l.value.0) && st.stateLen == l.value.0
         && t.value.1 + l.value.1 <= |seen| && st.buf[..st.offset] == seen[t.value.1 + l.value.1..]
  }

  /** A chunk the stream may deliver: something, but no more than asked for. */
  ghost predicate Deliverable(st: State, chunk: seq<Byte>) {
    st.offset + |chunk| <= st.stateLen && (|chunk| > 0 || BufferComplete(st))
  }

  lemma VarintStep(st: State, chunk: seq<Byte>)
    requires InVarint(st) && !BufferComplete(st) && Deliverable(st, chunk)
    ensures
      var f := Filled(st, chunk);
      var s := Sized(f);
      var part := st.buf[..st.offset] + chunk;
      && |f.buf| > 0
      && InVarint(s) && s.offset == st.offset + |chunk| && s.buf[..s.offset] == part
      && (BufferComplete(s) <==> Decoded(part).Some?)
      && (BufferComplete(s) ==> s.buf == part && Decoded(part).value.1 == |part|)
      && (f.offset != 1 ==> Decoded(f.buf).Some?)
  {
    hide FromBigEndian;
    var f := Filled(st, chunk);
    var s := Sized(f);
    var part := st.buf[..st.offset] + chunk;
    assert f.buf[..f.offset] == part;
    assert part[0] == f.buf[0];
    if f.offset != 1 {
      assert part[0] == st.buf[0];
    }
    assert s.buf[0] == part[0];
    assert s.buf[..s.offset] == part;
  }

  lemma TypeStep(st: State, seen: seq<Byte>, chunk: seq<Byte>)
    requires Explains(st, seen) && st.phase.TypePhase? && !BufferComplete(st) && Deliverable(st, chunk)
    ensures
      var f := Filled(st, chunk);
      && |f.buf| > 0 && (f.offset != 1 ==> Decoded(f.buf).Some?)
      && var (s, ev) := React(f);
      && (ev.Moved? || ev.Retry?)
      && (ev.Moved? ==> s.phase.LenPhase?)
      && !BufferComplete(s)
      && Explains(s, seen + chunk)
      && ParseOne(seen + chunk) == Incomplete
  {
    hide Decoded;
    VarintStep(st, chunk);
    var s := Sized(Filled(st, chunk));
    if BufferComplete(s) {
      assert (seen + chunk)[|seen + chunk|..] == [];
      NothingDecoded();
      assert React(Filled(st, chunk)).0.buf[..0] == [];
    }
  }

  lemma NothingDecoded()
    ensures Decoded([]) == None
  {
  }

  lemma LenStep(st: State, seen: seq<Byte>, chunk: seq<Byte>)
    requires Explains(st, seen) && st.phase.LenPhase? && !BufferComplete(st) && Deliverable(st, chunk)
    ensures
      var f := Filled(st, chunk);
      && |f.buf| > 0 && (f.offset != 1 ==> Decoded(f.buf).Some?)
      && var (s, ev) := React(f);
      && (ev.Moved? || ev.Retry? || ev.TooLarge?)
      && (ev.TooLarge? <==> ParseOne(seen + chunk).Oversize?)
      && (ev.Retry? ==> ParseOne(seen + chunk).Incomplete? && !BufferComplete(s))
      && (ev.Moved? ==> s.phase.ValPhase? && s.offset == 0)
      && Explains(s, seen + chunk)
      && (ev.TooLarge? ==> s.phase.LenPhase? && BufferComplete(s) && s.offset != 1)
  {
    hide Decoded, ParseOne, Explains, React;
    LenRead(st, seen, chunk);
    if BufferComplete(Sized(Filled(st, chunk))) {
      LenDone(st, seen, chunk);
    } else {
      LenWaits(st, seen, chunk);
    }
  }

  /** What a chunk read into the length's buffer makes of it. */
  lemma LenRead(st: State, seen: seq<Byte>, chunk: seq<Byte>)
    requires Explains(st, seen) && st.phase.LenPhase? && !BufferComplete(st) && Deliverable(st, chunk)
    ensures st.offset + |chunk| <= |st.buf|
    ensures
      var w, f := seen + chunk, Filled(st, chunk);
      var t := Decoded(w);
      && |f.buf| > 0 && (f.offset != 1 ==> Decoded(f.buf).Some?) && InVarint(Sized(f))
      && t.Some? && t == Decoded(seen) && t.value.1 <= |seen| && st.ty == Some(t.value.0)
      && var part := w[t.value.1..];
      && Sized(f).buf[..Sized(f).offset] == part
      && (BufferComplete(Sized(f)) <==> Decoded(part).Some?)
      && (BufferComplete(Sized(f)) ==> Sized(f).buf == part && Decoded(part).value.1 == |part|)
  {
    hide Decoded, VarintParseLen;
    var w := seen + chunk;
    var t := Decoded(seen).value;
    DecodedPrefix(seen, chunk);
    VarintStep(st, chunk);
    assert w[t.1..] == st.buf[..st.offset] + chunk;
  }

  lemma LenWaits(st: State, seen: seq<Byte>, chunk: seq<Byte>)
    requires Explains(st, seen) && st.phase.LenPhase? && !BufferComplete(st) && Deliverable(st, chunk)
    requires |Filled(st, chunk).buf| > 0 && !BufferComplete(Sized(Filled(st, chunk)))
    requires Filled(st, chunk).offset != 1 ==> Decoded(Filled(st, chunk).buf).Some?
    ensures React(Filled(st, chunk)) == (Sized(Filled(st, chunk)), Retry)
    ensures Explains(Sized(Filled(st, chunk)), seen + chunk) && ParseOne(seen + chunk) == Incomplete
  {
    hide Decoded, ParseOne, VarintParseLen;
    LenRead(st, seen, chunk);
    LengthParsed(seen + chunk);
  }

  lemma LenDone(st: State, seen: seq<Byte>, chunk: seq<Byte>)
    requires Explains(st, seen) && st.phase.LenPhase? && !BufferComplete(st) && Deliverable(st, chunk)
    requires |Filled(st, chunk).buf| > 0 && BufferComplete(Sized(Filled(st, chunk)))
    requires Filled(st, chunk).offset != 1 ==> Decoded(Filled(st, chunk).buf).Some?
    ensures
      var (s, ev) := React(Filled(st, chunk));
      && (ev.Moved? || ev.TooLarge?)
      && (ev.TooLarge? <==> ParseOne(seen + chunk).Oversize?)
      && (ev.Moved? ==> s.phase.ValPhase? && s.offset == 0)
      && Explains(s, seen + chunk)
      && (ev.TooLarge? ==> s.phase.LenPhase? && BufferComplete(s) && s.offset != 1)
  {
    hide Decoded, ParseOne, VarintParseLen;
    LenRead(st, seen, chunk);
    var w := seen + chunk;
    LengthParsed(w);
    var t := Decoded(w).value;
    var part := w[t.1..];
    var l := Decoded(part).value;
    assert w[t.1 + l.1..] == [];
    if l.0 > MAX_STREAM_STATE_SIZE {
      ShortVarint(part);
    } else {
      assert React(Filled(st, chunk)).0.buf[..0] == [];
    }
  }

  /** What the length says once the type is known. */
  lemma LengthParsed(w: seq<Byte>)
    requires Decoded(w).Some? && Decoded(w).value.1 <= |w|
    ensures
      var rest := w[Decoded(w).value.1..];
      && (Decoded(rest).None? ==> ParseOne(w) == Incomplete)
      && (Decoded(rest).Some? ==> (ParseOne(w).Oversize? <==> Decoded(rest).value.0 > MAX_STREAM_STATE_SIZE))
  {
    hide Decoded;
  }

  /** A one-byte varint never exceeds the size limit. */
  lemma ShortVarint(s: seq<Byte>)
    requires Decoded(s).Some? && Decoded(s).value.0 > MAX_STREAM_STATE_SIZE
    ensures Decoded(s).value.1 != 1
  {
  }

  lemma ValStep(st: State, seen: seq<Byte>, chunk: seq<Byte>)
    requires Explains(st, seen) && st.phase.ValPhase? && Deliverable(st, chunk)
    ensures
      var (s, ev) := React(Filled(st, chunk));
      && (ev.Parsed? || ev.NeedData?)
      && (ev.Parsed? ==> s == START && ParseOne(seen + chunk) == Whole(ev.frame, |seen + chunk|))
      && (ev.NeedData? ==> ParseOne(seen + chunk) == Incomplete && Explains(s, seen + chunk) && !BufferComplete(s))
  {
    hide Decoded;
    var w := seen + chunk;
    var t := Decoded(seen).value;
    DecodedPrefix(seen, chunk);
    var rest := seen[t.1..];
    assert w[t.1..] == rest + chunk;
    var l := Decoded(rest).value;
    DecodedPrefix(rest, chunk);
    assert seen[t.1 + l.1..] == rest[l.1..];
    assert (rest + chunk)[l.1..] == rest[l.1..] + chunk == w[t.1 + l.1..];
    var f := Filled(st, chunk);
    assert f.buf[..f.offset] == st.buf[..st.offset] + chunk;
    if BufferComplete(f) {
      assert f.buf == f.buf[..f.offset];
    }
  }
}
