/**
Packet framing: a kind byte, for packets with coefficients a two-byte length and
the coefficients, then the payload. There is one printer and two parsers, one
copying into fresh pool blocks and one working inside the received block. The
second half follows the pool blocks through the life of packets.
 */
module Packets {
  import opened Field
  import opened Options
  import opened LinearAlgebra
  import opened Decoding
  import opened MemoryPools

  // ----- Framing as functions -----

  /** What a frame says: its kind, its coefficients and its payload. */
  datatype Parts = Parts(isSystematic: bool, coefficients: Option<seq<Byte>>, payload: seq<Byte>)

  const LENGTH_MISSING := "Buffer too short for coefficient length"
  const TRUNCATED := "Buffer too short for coefficients"

  /** The frame in a nonempty byte string. */
  function Parse(raw: seq<Byte>): Result<Parts>
    requires |raw| > 0
  {
    if raw[0] == 1 then Ok(Parts(true, None, raw[1..]))
    else if |raw| < 3 then Err(LENGTH_MISSING)
    else
      var coeffLen := CoeffLen(raw);
      if |raw| < 3 + coeffLen then Err(TRUNCATED)
      else Ok(Parts(false, Some(raw[3..3 + coeffLen]), raw[3 + coeffLen..]))
  }

  function CoeffLen(raw: seq<Byte>): nat
    requires |raw| >= 3
  {
    256 * (raw[1] as int) + raw[2]
  }

  /** A packet whose blocks hold the bytes it claims. */
  predicate Backed(p: Packet) {
    && p.data.Some? && p.len <= |p.data.value|
    && (p.coefficients.Some? ==> p.coeffLen <= |p.coefficients.value|)
  }

  function PartsOf(p: Packet): Parts
    requires Backed(p)
  {
    Parts(p.isSystematic,
          if p.coefficients.Some? then Some(p.coefficients.value[..p.coeffLen]) else None,
          p.data.value[..p.len])
  }

  function Header(p: Packet): seq<Byte>
    requires Backed(p)
  {
    [if p.isSystematic then 1 else 0] +
    if p.coefficients.Some?
    then [p.coeffLen / 256 % 256, p.coeffLen % 256] + p.coefficients.value[..p.coeffLen]
    else []
  }

  function Raw(p: Packet): seq<Byte>
    requires Backed(p)
  {
    Header(p) + p.data.value[..p.len]
  }

  /** Systematic exactly when there are no coefficients, and a length that fits two bytes. */
  predicate WellFormedPacket(p: Packet) {
    && (p.isSystematic <==> p.coefficients.None?)
    && (p.coefficients.Some? ==> p.coeffLen < 65536)
  }

  /** The frame byte by byte: kind, two length bytes and coefficients if there are any, payload. */
  lemma RawLayout(p: Packet)
    requires Backed(p)
    ensures
      var raw := Raw(p);
      && |raw| == p.len + (if p.coefficients.Some? then 3 + p.coeffLen else 1)
      && (raw[0] == 1 <==> p.isSystematic) && (raw[0] == 0 <==> !p.isSystematic)
      && raw[|raw| - p.len..] == p.data.value[..p.len]
      && (p.coefficients.Some? ==>
            && (p.coeffLen < 65536 ==> 256 * (raw[1] as int) + raw[2] == p.coeffLen)
            && raw[3..3 + p.coeffLen] == p.coefficients.value[..p.coeffLen])
  {
    if p.coefficients.Some? && p.coeffLen < 65536 {
      SplitLength(p.coeffLen);
    }
  }

  /** Exactly which frames are refused, and why. */
  lemma ParseRefusals(raw: seq<Byte>)
    requires |raw| > 0
    ensures Parse(raw) == Err(LENGTH_MISSING) <==> raw[0] != 1 && |raw| < 3
    ensures Parse(raw) == Err(TRUNCATED) <==> raw[0] != 1 && |raw| >= 3 && |raw| < 3 + 256 * (raw[1] as int) + raw[2]
    ensures Parse(raw).Ok? <==> raw[0] == 1 || (|raw| >= 3 && |raw| >= 3 + 256 * (raw[1] as int) + raw[2])
  {
    assert |LENGTH_MISSING| != |TRUNCATED|;
  }

  lemma SplitLength(n: nat)
    requires n < 65536
    ensures 256 * (n / 256 % 256) + n % 256 == n
  {
  }

  /**
  Parsing a printed packet gives back its parts exactly when the packet is well
  formed.
   */
  lemma FramingRoundTrip(p: Packet)
    requires Backed(p)
    ensures |Raw(p)| > 0
    ensures Parse(Raw(p)) == Ok(PartsOf(p)) <==> WellFormedPacket(p)
  {
    var raw := Raw(p);
    var payload := p.data.value[..p.len];
    if p.isSystematic {
      if p.coefficients.None? {
        assert raw[1..] == payload;
      }
    } else if p.coefficients.Some? {
      var coeffs := p.coefficients.value[..p.coeffLen];
      assert raw[1] == p.coeffLen / 256 % 256 && raw[2] == p.coeffLen % 256;
      if p.coeffLen < 65536 {
        SplitLength(p.coeffLen);
        assert raw[3..3 + p.coeffLen] == coeffs;
        assert raw[3 + p.coeffLen..] == payload;
      } else if Parse(raw).Ok? {
        assert |Parse(raw).value.coefficients.value| == CoeffLen(raw) < 65536;
      }
    }
  }

  // ----- Printing -----

  /** Writes `bytes` after what has been written so far; the rest of the buffer stays. */
  method CopyAt(buffer: array<Byte>, offset: nat, bytes: seq<Byte>, ghost written: seq<Byte>, ghost rest: seq<Byte>)
    requires |written| == offset && |bytes| <= |rest| && buffer[..] == written + rest
    modifies buffer
    ensures buffer[..] == written + bytes + rest[|bytes|..]
  {
    for i := 0 to |bytes|
      invariant buffer[..] == written + bytes[..i] + rest[i..]
    {
      buffer[offset + i] := bytes[i];
    }
  }

  /** Serializes a packet; a buffer that is too short is left alone. */
  method ToRaw(p: Packet, buffer: array<Byte>) returns (r: Option<nat>)
    requires Backed(p)
    modifies buffer
    ensures r == if buffer.Length < |Raw(p)| then None else Some(|Raw(p)|)
    ensures buffer[..] == if r.Some? then Raw(p) + old(buffer[|Raw(p)|..]) else old(buffer[..])
  {
    var requiredLen := p.len + 1;
    if p.coefficients.Some? {
      requiredLen := requiredLen + 2 + p.coeffLen;
    }
    if buffer.Length < requiredLen {
      return None;
    }
    ghost var before := buffer[..];
    var offset := WriteHeader(p, buffer);
    Suffix(before, offset, p.len);
    CopyAt(buffer, offset, p.data.value[..p.len], Header(p), before[offset..]);
    return Some(offset + p.len);
  }

  method WriteHeader(p: Packet, buffer: array<Byte>) returns (offset: nat)
    requires Backed(p) && |Header(p)| <= buffer.Length
    modifies buffer
    ensures offset == |Header(p)| && buffer[..] == Header(p) + old(buffer[..])[|Header(p)|..]
  {
    hide Header;
    HeaderShape(p);
    ghost var before := buffer[..];
    var kind: seq<Byte> := [if p.isSystematic then 1 else 0];
    assert buffer[..] == [] + before;
    CopyAt(buffer, 0, kind, [], before);
    offset := 1;
    assert [] + kind == kind;
    if p.coefficients.Some? {
      offset := WriteCoefficients(buffer, p.coefficients.value[..p.coeffLen], kind, before[1..]);
      Suffix(before, 1, 2 + p.coeffLen);
    }
  }

  lemma HeaderShape(p: Packet)
    requires Backed(p)
    ensures
      var kind: seq<Byte> := [if p.isSystematic then 1 else 0];
      if p.coefficients.None? then Header(p) == kind else
        var coeffs := p.coefficients.value[..p.coeffLen];
        |Header(p)| == 3 + |coeffs| && Header(p) == kind + ([|coeffs| / 256 % 256, |coeffs| % 256] + coeffs)
  {
  }

  /** Writes the two length bytes and the coefficients after the kind byte. */
  method WriteCoefficients(buffer: array<Byte>, coeffs: seq<Byte>, kind: seq<Byte>, ghost rest: seq<Byte>)
    returns (offset: nat)
    requires |kind| == 1 && 2 + |coeffs| <= |rest| && buffer[..] == kind + rest
    modifies buffer
    ensures offset == 3 + |coeffs|
    ensures buffer[..] == kind + ([|coeffs| / 256 % 256, |coeffs| % 256] + coeffs) + rest[2 + |coeffs|..]
  {
    var length: seq<Byte> := [|coeffs| / 256 % 256, |coeffs| % 256];
    CopyAt(buffer, 1, length, kind, rest);
    CopyAt(buffer, 3, coeffs, kind + length, rest[2..]);
    Suffix(rest, 2, |coeffs|);
    assert kind + length + coeffs == kind + (length + coeffs);
    offset := 3 + |coeffs|;
  }

  lemma Suffix(s: seq<Byte>, i: nat, j: nat)
    requires i + j <= |s|
    ensures s[i..][j..] == s[i + j..]
  {
  }

  // ----- Parsing into fresh blocks -----

  const EMPTY := "Raw data is empty"
  const INVALID_LENGTH := "Invalid raw packet length"
  const TOO_SMALL := "Buffer from pool is too small"

  /** The coefficients of a frame fit a pool block; the code copies them without asking. */
  predicate CoeffsFit(raw: seq<Byte>, blockSize: nat) {
    |raw| > 0 && Parse(raw).Ok? && Parse(raw).value.coefficients.Some? ==>
      |Parse(raw).value.coefficients.value| <= blockSize
  }

  /** How many pool blocks a packet holds. */
  function Held(p: Packet): nat {
    (if p.data.Some? then 1 else 0) + if p.coefficients.Some? then 1 else 0
  }

  ghost predicate HoldsParts(p: Packet, id: nat, parts: Parts, blockSize: nat) {
    && p.id == id && Backed(p) && PartsOf(p) == parts
    && |p.data.value| == blockSize
    && (p.coefficients.Some? ==> |p.coefficients.value| == blockSize)
    && (p.coefficients.None? ==> p.coeffLen == 0)
  }

  /** A pool block with `bytes` copied to its front. */
  method FilledBlock(pool: MemoryPool, node: nat, bytes: seq<Byte>) returns (block: Block)
    requires pool.Valid() && |bytes| <= pool.blockSize
    modifies pool
    ensures pool.Valid() && pool.inUse == old(pool.inUse) + 1 && |pool.pools| == old(|pool.pools|)
    ensures block == bytes + Zeros(pool.blockSize - |bytes|)
  {
    block := pool.Alloc(node);
    block := bytes + block[|bytes|..];
  }

  /**
  Parses a received buffer, copying into pool blocks. The exit for a payload
  larger than a block does not give its blocks back to the pool.
   */
  method FromRaw(id: nat, raw: seq<Byte>, pool: MemoryPool, node: nat) returns (r: Result<Packet>)
    requires pool.Valid() && CoeffsFit(raw, pool.blockSize)
    modifies pool
    ensures pool.Valid()
    ensures |raw| == 0 ==> r == Err(EMPTY) && pool.inUse == old(pool.inUse)
    ensures |raw| > 0 && Parse(raw).Err? ==> r == Err(Parse(raw).error) && pool.inUse == old(pool.inUse)
    ensures |raw| > 0 && Parse(raw).Ok? && |Parse(raw).value.payload| <= pool.blockSize ==>
      r.Ok? && HoldsParts(r.value, id, Parse(raw).value, pool.blockSize)
      && pool.inUse == old(pool.inUse) + Held(r.value)
    ensures |raw| > 0 && Parse(raw).Ok? && |Parse(raw).value.payload| > pool.blockSize ==>
      r == Err(TOO_SMALL)
      && pool.inUse == old(pool.inUse) + 1 + if Parse(raw).value.coefficients.Some? then 1 else 0
  {
    if |raw| == 0 {
      return Err(EMPTY);
    }
    var isSystematic := raw[0] == 1;
    var offset := 1;
    var coefficients: Option<Block> := None;
    var coeffLen := 0;
    if !isSystematic {
      if |raw| < 3 {
        return Err(LENGTH_MISSING);
      }
      coeffLen := CoeffLen(raw);
      offset := offset + 2;
      if |raw| < offset + coeffLen {
        return Err(TRUNCATED);
      }
      var coeffBlock := FilledBlock(pool, node, raw[offset..offset + coeffLen]);
      coefficients := Some(coeffBlock);
      offset := offset + coeffLen;
    }
    var payload := raw[offset..];
    var data := pool.Alloc(node);
    if |data| < |payload| {
      return Err(TOO_SMALL);
    }
    data := payload + data[|payload|..];
    assert data[..|payload|] == payload;
    return Ok(Packet(id, Some(data), |payload|, isSystematic, coefficients, coeffLen));
  }

  // ----- Parsing inside the received block -----

  /** Moves the bytes from `from` up to `to` to the front of the block. */
  method MoveToFront(block: array<Byte>, from: nat, to: nat)
    requires from <= to <= block.Length
    modifies block
    ensures block[..] == old(block[from..to]) + old(block[to - from..])
  {
    ghost var before := block[..];
    for i := 0 to to - from
      invariant block[..i] == before[from..from + i]
      invariant block[i..] == before[i..]
    {
      assert block[from + i] == block[i..][from] == before[from + i];
      block[i] := block[from + i];
      assert block[i + 1..] == before[i..][1..];
    }
    assert block[..] == block[..to - from] + block[to - from..];
  }

  /** A frame in the first `len` bytes of a block, and coefficients that fit a block of their own. */
  predicate Holds(block: seq<Byte>, len: nat) {
    0 < len <= |block| && Parse(block[..len]).Ok?
  }

  /**
  The packet that is left of a frame parsed in place: its payload at the front
  of the block, and behind it whatever the block held there before.
   */
  function Arrived(id: nat, block: seq<Byte>, len: nat): Packet
    requires Holds(block, len)
  {
    FitsBlock(block[..len], |block|);
    var parts := Parse(block[..len]).value;
    var n := |parts.payload|;
    Packet(id, Some(parts.payload + block[n..]), n, parts.isSystematic,
           if parts.coefficients.None? then None else Some(Padded(parts.coefficients.value, |block|)),
           if parts.coefficients.None? then 0 else |parts.coefficients.value|)
  }

  lemma ArrivedHolds(id: nat, block: seq<Byte>, len: nat)
    requires Holds(block, len)
    ensures HoldsParts(Arrived(id, block, len), id, Parse(block[..len]).value, |block|)
  {
    FitsBlock(block[..len], |block|);
  }

  /** Parses the first `len` bytes of a pool block in place; every error gives the block back. */
  method FromBlock(id: nat, block: array<Byte>, len: nat, pool: MemoryPool, node: nat) returns (r: Result<Packet>)
    requires pool.Valid() && block.Length == pool.blockSize && pool.inUse > 0
    modifies block, pool
    ensures pool.Valid()
    ensures r.Ok? ==> pool.inUse == old(pool.inUse) - 1 + Held(r.value)
    ensures r.Err? ==> pool.inUse == old(pool.inUse) - 1
    ensures if len == 0 || len > block.Length then r == Err(INVALID_LENGTH)
            else match Parse(old(block[..len]))
                 case Err(e) => r == Err(e)
                 case Ok(parts) =>
                   && r.Ok? && HoldsParts(r.value, id, parts, pool.blockSize)
                   && r.value == Arrived(id, old(block[..]), len)
  {
    hide HoldsParts, Parse, Arrived;
    if len == 0 || len > block.Length {
      pool.Free(block[..], node);
      return Err(INVALID_LENGTH);
    }
    ghost var all := block[..];
    assert all[..len] == block[..len];
    var isSystematic := block[0] == 1;
    var offset := 1;
    var coefficients: Option<Block> := None;
    var coeffLen := 0;
    if !isSystematic {
      HeaderErrors(all, len);
      if len < 3 {
        pool.Free(block[..], node);
        return Err(LENGTH_MISSING);
      }
      coeffLen := CoeffLen(block[..3]);
      assert block[..3] == all[..3];
      offset := offset + 2;
      if len < offset + coeffLen {
        pool.Free(block[..], node);
        return Err(TRUNCATED);
      }
      var coeffBlock := FilledBlock(pool, node, block[offset..offset + coeffLen]);
      coefficients := Some(coeffBlock);
      offset := offset + coeffLen;
    }
    ArrivedShape(id, all, len);
    ArrivedHolds(id, all, len);
    MoveToFront(block, offset, len);
    return Ok(Packet(id, Some(block[..]), len - offset, isSystematic, coefficients, coeffLen));
  }

  /** The two errors of a frame with coefficients, read off its first bytes. */
  lemma HeaderErrors(block: seq<Byte>, len: nat)
    requires 0 < len <= |block| && block[0] != 1
    ensures len < 3 ==> Parse(block[..len]) == Err(LENGTH_MISSING)
    ensures len >= 3 && len < 3 + CoeffLen(block[..3]) ==> Parse(block[..len]) == Err(TRUNCATED)
  {
  }

  /** What arrives, by positions in the block. */
  lemma ArrivedShape(id: nat, block: seq<Byte>, len: nat)
    requires 0 < len <= |block|
    requires block[0] != 1 ==> len >= 3 && len >= 3 + CoeffLen(block[..3])
    ensures Holds(block, len)
    ensures
      var n := if block[0] == 1 then 0 else CoeffLen(block[..3]);
      var offset := if block[0] == 1 then 1 else 3 + n;
      Arrived(id, block, len)
        == Packet(id, Some(block[offset..len] + block[len - offset..]), len - offset, block[0] == 1,
                  if block[0] == 1 then None else Some(Padded(block[3..3 + n], |block|)), n)
  {
    var raw := block[..len];
    assert raw[0] == block[0];
    if block[0] == 1 {
      assert raw[1..] == block[1..len];
    } else {
      var n := CoeffLen(block[..3]);
      assert CoeffLen(raw) == n;
      assert raw[3..3 + n] == block[3..3 + n] && raw[3 + n..] == block[3 + n..len];
    }
  }

  /** A packet whose parts fit pool blocks of their own. */
  predicate Clonable(p: Packet, blockSize: nat) {
    Backed(p) && p.len <= blockSize && (p.coefficients.Some? ==> p.coeffLen <= blockSize)
  }

  /** The copy: the bytes a packet claims, at the front of zero blocks. */
  function Cloned(p: Packet, blockSize: nat): (c: Packet)
    requires Clonable(p, blockSize)
  {
    p.(data := Some(Padded(p.data.value[..p.len], blockSize)),
       coefficients := if p.coefficients.None? then None
                       else Some(Padded(p.coefficients.value[..p.coeffLen], blockSize)))
  }

  /** A copy has the parts of the original, in whole blocks. */
  lemma ClonedParts(p: Packet, blockSize: nat)
    requires Clonable(p, blockSize)
    ensures
      var c := Cloned(p, blockSize);
      && Backed(c) && PartsOf(c) == PartsOf(p) && Pooled(c, blockSize)
      && c.id == p.id && c.len == p.len && c.coeffLen == p.coeffLen
  {
  }

  /** A deep copy of a packet into fresh pool blocks. */
  method CloneForEncoder(p: Packet, pool: MemoryPool, node: nat) returns (c: Packet)
    requires pool.Valid() && Clonable(p, pool.blockSize)
    modifies pool
    ensures pool.Valid() && pool.inUse == old(pool.inUse) + Held(c)
    ensures c == Cloned(p, pool.blockSize)
    ensures Backed(c) && PartsOf(c) == PartsOf(p) && Pooled(c, pool.blockSize)
  {
    ClonedParts(p, pool.blockSize);
    var data := FilledBlock(pool, node, p.data.value[..p.len]);
    assert data[..p.len] == p.data.value[..p.len];
    var coefficients: Option<Block> := None;
    if p.coefficients.Some? {
      var block := FilledBlock(pool, node, p.coefficients.value[..p.coeffLen]);
      assert block[..p.coeffLen] == p.coefficients.value[..p.coeffLen];
      coefficients := Some(block);
    }
    c := p.(data := Some(data), coefficients := coefficients);
  }

  /** Dropping a packet gives each of its blocks back. */
  method DropPacket(p: Packet, pool: MemoryPool, node: nat)
    requires pool.Valid() && pool.inUse >= Held(p)
    requires p.data.Some? ==> |p.data.value| == pool.blockSize
    requires p.coefficients.Some? ==> |p.coefficients.value| == pool.blockSize
    modifies pool
    ensures pool.Valid() && pool.inUse == old(pool.inUse) - Held(p)
  {
    if p.data.Some? {
      pool.Free(p.data.value, node);
    }
    if p.coefficients.Some? {
      pool.Free(p.coefficients.value, node);
    }
  }

  /** A nonempty input that fits a block needs no larger blocks; so both parsers accept it alike. */
  lemma FitsBlock(raw: seq<Byte>, blockSize: nat)
    requires 0 < |raw| <= blockSize
    ensures CoeffsFit(raw, blockSize)
    ensures Parse(raw).Ok? ==> |Parse(raw).value.payload| <= blockSize
  {
  }

  /**
  The two parsers on the same bytes: the copying one on a copy, the other inside
  the block. They agree on success and error, and on every part of the packet.
   */
  method BothParsers(id: nat, block: array<Byte>, len: nat, pool: MemoryPool, node: nat)
    returns (copied: Result<Packet>, inPlace: Result<Packet>)
    requires pool.Valid() && block.Length == pool.blockSize && pool.inUse > 0
    requires 0 < len <= block.Length
    modifies block, pool
    ensures pool.Valid()
    ensures copied.Err? ==> copied == inPlace
    ensures copied.Ok? ==>
      && inPlace.Ok? && Backed(copied.value) && Backed(inPlace.value)
      && copied.value.id == inPlace.value.id
      && PartsOf(copied.value) == PartsOf(inPlace.value)
  {
    FitsBlock(block[..len], pool.blockSize);
    ghost var raw := block[..len];
    copied := FromRaw(id, block[..len], pool, node);
    assert block[..len] == raw;
    inPlace := FromBlock(id, block, len, pool, node);
  }

  // ----- Ownership of blocks -----

  function HeldBy(live: seq<Packet>): nat {
    if |live| == 0 then 0 else HeldBy(live[..|live| - 1]) + Held(live[|live| - 1])
  }

  lemma HeldAppend(live: seq<Packet>, p: Packet)
    ensures HeldBy(live + [p]) == HeldBy(live) + Held(p)
  {
    assert (live + [p])[..|live|] == live;
  }

  lemma {:induction false} HeldRemove(live: seq<Packet>, i: nat)
    requires i < |live|
    ensures HeldBy(live[..i] + live[i + 1..]) == HeldBy(live) - Held(live[i])
    decreases |live|
  {
    var n := |live| - 1;
    var rest := live[..i] + live[i + 1..];
    if i == n {
      assert rest == live[..n];
    } else {
      HeldRemove(live[..n], i);
      assert rest == live[..n][..i] + live[..n][i + 1..] + [live[n]];
      HeldAppend(live[..n][..i] + live[..n][i + 1..], live[n]);
    }
  }

  /** A packet whose blocks come from the pool. */
  predicate Pooled(p: Packet, blockSize: nat) {
    && Backed(p) && |p.data.value| == blockSize
    && (p.coefficients.Some? ==> |p.coefficients.value| == blockSize)
  }

  lemma HoldsPooled(p: Packet, id: nat, parts: Parts, blockSize: nat)
    requires HoldsParts(p, id, parts, blockSize)
    ensures Pooled(p, blockSize)
  {
  }

  /**
  Everything that holds blocks of one pool: the live packets, the callers that
  took a block and still have it, and the blocks that a failed copy abandoned.
   */
  class BlockOwners {
    const pool: MemoryPool
    var live: seq<Packet>
    var callers: nat
    var abandoned: nat

    ghost predicate Valid()
      reads this, pool
    {
      && pool.Valid()
      && pool.inUse == callers + HeldBy(live) + abandoned
      && forall i :: 0 <= i < |live| ==> Pooled(live[i], pool.blockSize)
    }

    constructor (capacity: nat, blockSize: nat, nodes: nat)
      requires nodes > 0
      ensures Valid() && live == [] && callers == 0 && abandoned == 0 && fresh(pool)
    {
      pool := new MemoryPool(capacity, blockSize, nodes);
      live, callers, abandoned := [], 0, 0;
    }

    method TakeBlock(node: nat) returns (block: Block)
      requires Valid()
      modifies this, pool
      ensures Valid() && callers == old(callers) + 1 && live == old(live) && abandoned == old(abandoned)
    {
      block := pool.Alloc(node);
      callers := callers + 1;
    }

    method GiveBlock(block: Block, node: nat)
      requires Valid() && callers > 0 && |block| == pool.blockSize
      modifies this, pool
      ensures Valid() && callers == old(callers) - 1 && live == old(live) && abandoned == old(abandoned)
    {
      pool.Free(block, node);
      callers := callers - 1;
    }

    /** A caller's block becomes a packet, or goes back to the pool. */
    method ParseBlock(id: nat, block: array<Byte>, len: nat, node: nat) returns (r: Result<Packet>)
      requires Valid() && callers > 0 && block.Length == pool.blockSize
      modifies this, pool, block
      ensures Valid() && callers == old(callers) - 1 && abandoned == old(abandoned)
      ensures live == if r.Ok? then old(live) + [r.value] else old(live)
    {
      hide Parse, HoldsParts, Pooled, Held, HeldBy;
      ghost var raw := block[..];
      r := FromBlock(id, block, len, pool, node);
      callers := callers - 1;
      if r.Ok? {
        assert len <= |raw| && raw[..len] == old(block[..len]);
        HoldsPooled(r.value, id, Parse(raw[..len]).value, pool.blockSize);
        HeldAppend(live, r.value);
        live := live + [r.value];
      }
    }

    /** A copying parse; only its last error exit abandons blocks. */
    method ParseCopy(id: nat, raw: seq<Byte>, node: nat) returns (r: Result<Packet>)
      requires Valid() && CoeffsFit(raw, pool.blockSize)
      modifies this, pool
      ensures Valid() && callers == old(callers)
      ensures live == if r.Ok? then old(live) + [r.value] else old(live)
      ensures abandoned > old(abandoned) <==> r == Err(TOO_SMALL)
    {
      hide HoldsParts, Pooled, Held, HeldBy;
      r := FromRaw(id, raw, pool, node);
      if r.Ok? {
        HoldsPooled(r.value, id, Parse(raw).value, pool.blockSize);
        HeldAppend(live, r.value);
        live := live + [r.value];
      } else if r.error == TOO_SMALL {
        abandoned := abandoned + if Parse(raw).value.coefficients.Some? then 2 else 1;
      }
    }

    method Clone(i: nat, node: nat)
      requires Valid() && i < |live|
      modifies this, pool
      ensures Valid() && callers == old(callers) && abandoned == old(abandoned)
      ensures |live| == old(|live|) + 1 && live[..old(|live|)] == old(live)
      ensures Backed(live[old(|live|)]) && Backed(old(live)[i]) && PartsOf(live[old(|live|)]) == PartsOf(old(live)[i])
    {
      var c := CloneForEncoder(live[i], pool, node);
      HeldAppend(live, c);
      live := live + [c];
    }

    method Drop(i: nat, node: nat)
      requires Valid() && i < |live|
      modifies this, pool
      ensures Valid() && callers == old(callers) && abandoned == old(abandoned)
      ensures live == old(live)[..i] + old(live)[i + 1..]
    {
      HeldRemove(live, i);
      DropPacket(live[i], pool, node);
      live := live[..i] + live[i + 1..];
    }
  }
}
