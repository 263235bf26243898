/**
Whole runs of the frame parser: a caller that calls it until the stream has no
more bytes computes the reference parse, and so gets every frame that was sent.
 */
module FrameRuns {
  import opened Field
  import opened Frames
  import opened FrameParsing

  /** The parser's account after any calls, seen as the parse of all bytes that arrived. */
  lemma AccountIsParse<H>(build: Frame -> Build<H>, r: Progress, unread: seq<Byte>)
    requires Good(build, r) && (Pending(r.st) ==> r.stopped)
    ensures r.stopped ==> ParseAll(build, r.done + r.seen + unread) == (r.emitted, r.seen + unread)
    ensures unread == [] ==> ParseAll(build, r.done + r.seen + unread) == (r.emitted, r.seen + unread)
  {
    hide Good, ParseAll, ParseOne, Pending;
    GoodIsParse(build, r);
    if r.stopped {
      ParseAllAppend(build, r.done + r.seen, unread);
      StoppedParse(build, r, unread);
      assert r.emitted + [] == r.emitted;
    } else if unread == [] {
      assert r.done + r.seen + unread == r.done + r.seen && r.seen + unread == r.seen;
    }
  }

  lemma StoppedParse<H>(build: Frame -> Build<H>, r: Progress, more: seq<Byte>)
    requires Good(build, r) && r.stopped
    ensures !ParseOne(r.seen).Incomplete?
    ensures ParseAll(build, r.seen + more) == ([], r.seen + more)
  {
    ParseOneStable(r.seen, more);
    hide ParseOne;
  }

  /** Bytes that arrive behind a refused frame change nothing but the rest. */
  lemma RefusedStays<H>(build: Frame -> Build<H>, r: Progress, unread: seq<Byte>, more: seq<Byte>)
    requires Good(build, r) && r.stopped
    ensures ParseAll(build, r.done + r.seen + unread + more) == (r.emitted, r.seen + unread + more)
  {
    hide Good, ParseAll;
    AccountIsParse(build, r, unread + more);
    assert r.done + r.seen + unread + more == r.done + r.seen + (unread + more);
    assert r.seen + unread + more == r.seen + (unread + more);
  }

  /** The frames after the first `from` are what the frame decoder built into `hs`. */
  ghost predicate BuiltFrom<H>(build: Frame -> Build<H>, emitted: seq<Frame>, from: nat, hs: seq<H>) {
    |emitted| == from + |hs| && forall i :: 0 <= i < |hs| ==> build(emitted[from + i]) == Built(hs[i])
  }

  /** Calls the parser until the stream has no unread byte or a frame is refused. */
  method Drain<H>(parser: FrameParser<H>, stream: Stream) returns (hs: seq<H>, refused: bool)
    requires parser.Valid() && !parser.stopped && stream.Live()
    modifies parser, stream
    ensures parser.Valid() && refused == parser.stopped && (!refused ==> stream.unread == [])
    ensures ParseAll(parser.build, old(parser.done + parser.seen + stream.unread))
         == (parser.emitted, parser.seen + stream.unread)
    ensures parser.done + parser.seen + stream.unread == old(parser.done + parser.seen + stream.unread)
    ensures old(parser.emitted) <= parser.emitted
    ensures BuiltFrom(parser.build, parser.emitted, |old(parser.emitted)|, hs)
    ensures stream.reset.None? && stream.finReceived == old(stream.finReceived)
    ensures stream.closed ==> stream.finReceived
  {
    hide Good, ParseOne, ParseAll;
    hs, refused := [], false;
    while stream.unread != []
      invariant parser.Valid() && !parser.stopped
      invariant parser.done + parser.seen + stream.unread == old(parser.done + parser.seen + stream.unread)
      invariant old(parser.emitted) <= parser.emitted
      invariant BuiltFrom(parser.build, parser.emitted, |old(parser.emitted)|, hs)
      invariant stream.reset.None? && stream.finReceived == old(stream.finReceived)
      invariant stream.unread != [] ==> stream.Live()
      invariant stream.closed ==> stream.finReceived
      decreases |stream.unread|
    {
      ghost var before := parser.emitted;
      var o, rounds := parser.TryParseFrame(stream);
      match o
      case FrameParsed(h, _) =>
        hs := hs + [h];
      case Failed(ExcessiveLoad) =>
        refused := true;
        break;
      case Failed(BadFrame(_)) =>
        refused := true;
        break;
      case _ =>
    }
    AccountIsParse(parser.build, parser.Account(), stream.unread);
  }

  /** What arrives on the stream next, the last time with its end. */
  method Arrive(stream: Stream, bytes: seq<Byte>, fin: bool)
    requires !stream.finReceived
    modifies stream
    ensures stream.unread == old(stream.unread) + bytes && stream.finReceived == fin
    ensures stream.reset == old(stream.reset) && stream.closed == old(stream.closed)
  {
    stream.unread := stream.unread + bytes;
    stream.finReceived := fin;
  }

  /**
  A caller that drains the stream whenever bytes arrive: after all arrivals the
  frames emitted and the bytes left over are the reference parse of everything
  that arrived, whatever the arrivals and whatever part of them each read returns.
   */
  method DrainArrivals<H>(parser: FrameParser<H>, stream: Stream, arrivals: seq<seq<Byte>>, fin: bool)
    returns (hs: seq<H>, refused: bool)
    requires parser.Valid() && !parser.stopped && stream.Live() && !stream.finReceived
    modifies parser, stream
    ensures parser.Valid() && refused == parser.stopped
    ensures !refused && arrivals != [] ==> stream.unread == []
    ensures arrivals != [] ==>
      ParseAll(parser.build, old(parser.done + parser.seen + stream.unread) + Flatten(arrivals))
        == (parser.emitted, parser.seen + stream.unread)
    ensures old(parser.emitted) <= parser.emitted
    ensures BuiltFrom(parser.build, parser.emitted, |old(parser.emitted)|, hs)
  {
    hide Good, ParseOne, ParseAll;
    hs, refused := [], false;
    ghost var start := parser.done + parser.seen + stream.unread;
    for i := 0 to |arrivals|
      invariant parser.Valid() && refused == parser.stopped
      invariant parser.done + parser.seen + stream.unread == start + Flatten(arrivals[..i])
      invariant i > 0 && !refused ==> stream.unread == []
      invariant i > 0 ==>
        ParseAll(parser.build, start + Flatten(arrivals[..i])) == (parser.emitted, parser.seen + stream.unread)
      invariant old(parser.emitted) <= parser.emitted
      invariant BuiltFrom(parser.build, parser.emitted, |old(parser.emitted)|, hs)
      invariant i < |arrivals| ==> !stream.finReceived
      invariant stream.reset.None? && (stream.closed ==> stream.finReceived)
    {
      assert arrivals[..i + 1][..i] == arrivals[..i];
      ghost var unread := stream.unread;
      Arrive(stream, arrivals[i], fin && i + 1 == |arrivals|);
      ghost var total := start + Flatten(arrivals[..i + 1]);
      assert total == parser.done + parser.seen + unread + arrivals[i];
      assert total == parser.done + parser.seen + stream.unread;
      if refused {
        RefusedStays(parser.build, parser.Account(), unread, arrivals[i]);
        assert parser.seen + unread + arrivals[i] == parser.seen + stream.unread;
      } else {
        ghost var from, before := parser.emitted, hs;
        var more;
        more, refused := Drain(parser, stream);
        hs := hs + more;
      }
    }
    assert arrivals[..|arrivals|] == arrivals;
  }

  lemma GoodParsed<H>(build: Frame -> Build<H>, r: Progress)
    requires Good(build, r)
    ensures ParseAll(build, r.done) == (r.emitted, [])
  {
  }

  lemma FramesAfter<H>(build: Frame -> Build<H>, r: Progress, frames: seq<Frame>, codes: seq<Lengths>)
    requires Good(build, r) && AllSendable(frames, codes) && forall i :: 0 <= i < |frames| ==> build(frames[i]).Built?
    ensures ParseAll(build, r.done + AllBytes(frames, codes)) == (r.emitted + frames, [])
  {
    GoodParsed(build, r);
    hide Good, ParseAll, AllBytes;
    FramesRoundTrip(build, frames, codes);
    ParseAllAppend(build, r.done, AllBytes(frames, codes));
    assert [] + AllBytes(frames, codes) == AllBytes(frames, codes);
  }

  /**
  Every list of frames comes out exactly and in order, for every way its varints
  are written, its bytes arrive and the reads cut them: repeated calls of the parser emit the
  frames, nothing is left over, and no call refuses.
   */
  method DeliverFrames<H>(
      parser: FrameParser<H>, stream: Stream, arrivals: seq<seq<Byte>>, fin: bool,
      ghost frames: seq<Frame>, ghost codes: seq<Lengths>)
    returns (hs: seq<H>)
    requires parser.Valid() && !parser.stopped && stream.Live() && !stream.finReceived && arrivals != []
    requires AllSendable(frames, codes) && forall i :: 0 <= i < |frames| ==> parser.build(frames[i]).Built?
    requires parser.seen + stream.unread + Flatten(arrivals) == AllBytes(frames, codes)
    modifies parser, stream
    ensures parser.Valid() && !parser.stopped
    ensures parser.emitted == old(parser.emitted) + frames && parser.seen == [] && stream.unread == []
    ensures |hs| == |frames| && forall i :: 0 <= i < |frames| ==> parser.build(frames[i]) == Built(hs[i])
  {
    hide Good, ParseOne, ParseAll, AllBytes;
    FramesAfter(parser.build, parser.Account(), frames, codes);
    ghost var from := |parser.emitted|;
    assert parser.done + parser.seen + stream.unread + Flatten(arrivals) == parser.done + AllBytes(frames, codes);
    var refused;
    hs, refused := DrainArrivals(parser, stream, arrivals, fin);
    if refused {
      StoppedParse(parser.build, parser.Account(), []);
      ParseNothing();
    }
    forall i | 0 <= i < |frames|
      ensures parser.build(frames[i]) == Built(hs[i])
    {
      assert parser.emitted[from + i] == frames[i];
    }
  }

  /** A lone byte that starts a two-byte varint is no frame. */
  lemma LoneByte<H>(build: Frame -> Build<H>, r: Progress)
    requires Good(build, r) && (Pending(r.st) ==> r.stopped) && r.done + r.seen == [0x40]
    ensures r.emitted == [] && r.seen == [0x40] && ParseOne([0x40]) == Incomplete && AtCut([0x40])
  {
    hide Good, Pending;
    GoodIsParse(build, r);
    assert ParseOne([0x40]) == Incomplete;
  }

  /**
  A stream whose only byte starts a two-byte varint, and which ends there: the
  parser is in the middle of a frame, and no call ever reports an interruption.
   */
  method EndInsideFrame<H>(build: Frame -> Build<H>, calls: nat) returns (first: Outcome<H>, later: seq<Outcome<H>>)
    ensures first == AskRetry || first == Failed(Done) || first == Failed(InvalidStreamState)
    ensures |later| == calls
    ensures forall i :: 0 <= i < calls ==> later[i] == Failed(Done) || later[i] == Failed(InvalidStreamState)
  {
    hide Good, ParseOne, ParseAll, AtCut;
    var parser := new FrameParser<H>(build);
    var stream := new Stream([0x40], true);
    assert parser.done + parser.seen + stream.unread == [0x40];
    ghost var rounds;
    first, rounds := parser.TryParseFrame(stream);
    assert stream.unread == [] by {
      assert |parser.done + parser.seen + stream.unread| == 1;
    }
    assert parser.done + parser.seen == [0x40];
    LoneByte(build, parser.Account());
    later := [];
    for i := 0 to calls
      invariant parser.Valid() && parser.build == build && !parser.stopped
      invariant parser.done + parser.seen == [0x40] && stream.unread == [] && stream.closed && stream.reset.None?
      invariant |later| == i
      invariant forall j :: 0 <= j < i ==> later[j] == Failed(Done) || later[j] == Failed(InvalidStreamState)
    {
      var o;
      LoneByte(build, parser.Account());
      o, rounds := parser.TryParseFrame(stream);
      assert parser.done + parser.seen == parser.done + parser.seen + stream.unread;
      LoneByte(build, parser.Account());
      later := later + [o];
    }
  }
}
