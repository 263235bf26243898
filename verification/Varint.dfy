/**
Variable-length integers, section 16 of RFC 9000: the two top bits of the first
byte give the length, the rest is the value in network byte order. The module
holds the encoding and decoding as functions on byte sequences, and the cursor
over a byte buffer that performs them in place.
 */
module Varints {
  import opened Basics
  import opened Field
  import opened Options

  // ----- Network byte order -----

  function Pow256(n: nat): (p: nat)
    ensures p > 0
  {
    if n == 0 then 1 else 256 * Pow256(n - 1)
  }

  /** The low `n` bytes of `v`, most significant first. */
  function BigEndian(v: nat, n: nat): (s: seq<Byte>)
    ensures |s| == n
    decreases n
  {
    if n == 0 then [] else BigEndian(v / 256, n - 1) + [v % 256]
  }

  function FromBigEndian(s: seq<Byte>): nat {
    if |s| == 0 then 0 else 256 * FromBigEndian(s[..|s| - 1]) + s[|s| - 1]
  }

  lemma {:induction false} BigEndianValue(v: nat, n: nat)
    requires v < Pow256(n)
    ensures FromBigEndian(BigEndian(v, n)) == v
    decreases n
  {
    if n > 0 {
      BigEndianValue(v / 256, n - 1);
      var s := BigEndian(v, n);
      assert s[..n - 1] == BigEndian(v / 256, n - 1);
    }
  }

  lemma {:induction false} FirstByte(v: nat, n: nat, top: nat)
    requires n > 0 && v < top * Pow256(n - 1)
    ensures BigEndian(v, n)[0] < top
    decreases n
  {
    if n > 1 {
      assert v / 256 < top * Pow256(n - 2) by {
        assert v < 256 * (top * Pow256(n - 2));
      }
      FirstByte(v / 256, n - 1, top);
    }
  }

  lemma {:induction false} FromBigEndianSplit(b: Byte, s: seq<Byte>)
    ensures FromBigEndian([b] + s) == b * Pow256(|s|) + FromBigEndian(s)
    decreases |s|
  {
    if |s| == 0 {
      assert [b] + s == [b];
      assert FromBigEndian([b][..0]) == 0;
    } else {
      var n := |s| - 1;
      assert ([b] + s)[..n + 1] == [b] + s[..n];
      FromBigEndianSplit(b, s[..n]);
    }
  }

  /** Byte `i` of `n` is the digit of weight 256^(n-1-i). */
  lemma {:induction false} BigEndianDigit(v: nat, n: nat, i: nat)
    requires i < n
    ensures BigEndian(v, n)[i] == v / Pow256(n - 1 - i) % 256
    decreases n
  {
    LastDigit(v, n);
    if i < n - 1 {
      BigEndianDigit(v / 256, n - 1, i);
      PowStep(n - 2 - i);
      hide BigEndian, Pow256;
      DivideTwice(v, Pow256(n - 2 - i));
    } else {
      assert Pow256(0) == 1;
    }
  }

  lemma LastDigit(v: nat, n: nat)
    requires n > 0
    ensures BigEndian(v, n) == BigEndian(v / 256, n - 1) + [v % 256]
  {
  }

  lemma PowStep(n: nat)
    ensures Pow256(n + 1) == 256 * Pow256(n)
  {
  }

  lemma DivideTwice(v: nat, p: nat)
    requires p > 0
    ensures v / 256 / p == v / (256 * p)
  {
    var q, r := v / 256, v % 256;
    var a, b := q / p, q % p;
    assert v == 256 * q + r && q == a * p + b;
    assert v == a * (256 * p) + (256 * b + r) by {
      assert 256 * (a * p) == a * (256 * p);
    }
    assert 256 * b + r < 256 * p;
    QuotientOf(v, 256 * p, a, 256 * b + r);
  }

  lemma {:induction false} FromBigEndianBound(s: seq<Byte>)
    ensures FromBigEndian(s) < Pow256(|s|)
  {
    if |s| > 0 {
      FromBigEndianBound(s[..|s| - 1]);
    }
  }

  /** Bytes are determined by their value. */
  lemma {:induction false} BigEndianInverse(s: seq<Byte>)
    ensures BigEndian(FromBigEndian(s), |s|) == s
  {
    if |s| > 0 {
      var n := |s| - 1;
      BigEndianInverse(s[..n]);
      QuotientOf(FromBigEndian(s), 256, FromBigEndian(s[..n]), s[n]);
      assert s == s[..n] + [s[n]];
    }
  }

  // ----- Varints -----

  predicate PermittedLen(len: nat) {
    len == 1 || len == 2 || len == 4 || len == 8
  }

  /** One more than the largest value that fits `len` bytes. */
  function Limit(len: nat): nat
    requires PermittedLen(len)
  {
    if len == 1 then 64 else if len == 2 then 16384 else if len == 4 then 1073741824 else 4611686018427387904
  }

  /** The two-bit length code. */
  function Code(len: nat): nat
    requires PermittedLen(len)
  {
    if len == 1 then 0 else if len == 2 then 1 else if len == 4 then 2 else 3
  }

  /** The shortest length for a value; larger values have none. */
  function VarintLen(v: nat): (len: nat)
    requires v < Limit(8)
    ensures PermittedLen(len) && v < Limit(len)
    ensures forall shorter: nat :: PermittedLen(shorter) && shorter < len ==> Limit(shorter) <= v
  {
    if v <= 63 then 1 else if v <= 16383 then 2 else if v <= 1073741823 then 4 else 8
  }

  function VarintParseLen(first: Byte): (len: nat)
    ensures PermittedLen(len) && Code(len) == first / 64
  {
    if first / 64 == 0 then 1 else if first / 64 == 1 then 2 else if first / 64 == 2 then 4 else 8
  }

  /** The first byte with the length code put in by bitwise or. */
  function Tagged(b: Byte, len: nat): Byte
    requires PermittedLen(len)
  {
    if len == 1 then b
    else if len == 2 then (if b / 64 % 2 == 1 then b else b + 64)
    else if len == 4 then (if b >= 128 then b else b + 128)
    else 192 + b % 64
  }

  function Encoded(v: nat, len: nat): (s: seq<Byte>)
    requires PermittedLen(len)
    ensures |s| == len
  {
    var s := BigEndian(v, len);
    s[0 := Tagged(s[0], len)]
  }

  /** The value at the start of `s` and its length; nothing if `s` is too short. */
  function Decoded(s: seq<Byte>): Option<(nat, nat)> {
    if |s| == 0 then None else
      var len := VarintParseLen(s[0]);
      if |s| < len then None else Some((FromBigEndian(s[..len]) % Limit(len), len))
  }

  lemma LimitIsPower(len: nat)
    requires PermittedLen(len)
    ensures Limit(len) == 64 * Pow256(len - 1) && Pow256(len) == 4 * Limit(len)
  {
    assert Pow256(1) == 256;
    assert Pow256(3) == 256 * Pow256(2) == 16777216;
    assert Pow256(7) == 256 * Pow256(6);
    assert Pow256(6) == 256 * Pow256(5) == 65536 * Pow256(4) == 65536 * 4294967296;
  }

  lemma EncodedFirst(v: nat, len: nat)
    requires PermittedLen(len) && v < Limit(len)
    ensures BigEndian(v, len)[0] < 64
    ensures Encoded(v, len)[0] == BigEndian(v, len)[0] + 64 * Code(len)
    ensures VarintParseLen(Encoded(v, len)[0]) == len
  {
    hide BigEndian;
    LimitIsPower(len);
    FirstByte(v, len, 64);
  }

  lemma EncodedValue(v: nat, len: nat)
    requires PermittedLen(len) && v < Limit(len)
    ensures FromBigEndian(Encoded(v, len)) == v + Code(len) * Limit(len)
  {
    hide FromBigEndian;
    hide BigEndian;
    hide Pow256;
    hide Limit;
    hide Code;
    LimitIsPower(len);
    EncodedFirst(v, len);
    BigEndianValue(v, len);
    var s, t := BigEndian(v, len), Encoded(v, len);
    assert s == [s[0]] + s[1..] && t == [t[0]] + s[1..];
    FromBigEndianSplit(s[0], s[1..]);
    FromBigEndianSplit(t[0], s[1..]);
    var p, c := Pow256(len - 1), Code(len);
    assert (s[0] + 64 * c) * p == s[0] * p + c * (64 * p);
  }

  /** The mask strips the length code. */
  lemma MaskedValue(v: nat, len: nat)
    requires PermittedLen(len) && v < Limit(len)
    ensures (v + Code(len) * Limit(len)) % Limit(len) == v
  {
    if len == 1 {
    } else if len == 2 {
      assert (v + 16384) % 16384 == v;
    } else if len == 4 {
      assert (v + 2 * 1073741824) % 1073741824 == v;
    } else {
      assert (v + 3 * 4611686018427387904) % 4611686018427387904 == v;
    }
  }

  /** Reading back what was written gives the value and its length, whatever follows. */
  lemma VarintRoundTrip(v: nat, len: nat, rest: seq<Byte>)
    requires PermittedLen(len) && v < Limit(len)
    ensures Decoded(Encoded(v, len) + rest) == Some((v, len))
  {
    hide Encoded;
    hide FromBigEndian;
    var s := Encoded(v, len);
    EncodedFirst(v, len);
    EncodedValue(v, len);
    assert (s + rest)[..len] == s;
    MaskedValue(v, len);
  }

  /** Only encodings are decoded: the bytes read are the encoding, in their length, of the value returned. */
  lemma DecodedIsEncoded(s: seq<Byte>)
    requires Decoded(s).Some?
    ensures
      var (v, len) := Decoded(s).value;
      PermittedLen(len) && len <= |s| && v < Limit(len) && Encoded(v, len) == s[..len]
  {
    hide FromBigEndian, BigEndian, Pow256, Limit, Encoded, Code;
    var (v, len) := Decoded(s).value;
    var t := s[..len];
    LimitIsPower(len);
    DecodedParts(t, len);
    EncodedValue(v, len);
    BigEndianInverse(t);
    BigEndianInverse(Encoded(v, len));
  }

  /** The value of the bytes is the masked value plus the length code. */
  lemma DecodedParts(t: seq<Byte>, len: nat)
    requires PermittedLen(len) && |t| == len == VarintParseLen(t[0]) && Limit(len) == 64 * Pow256(len - 1)
    ensures
      var v := FromBigEndian(t) % Limit(len);
      v < Limit(len) && FromBigEndian(t) == v + Code(len) * Limit(len)
  {
    hide FromBigEndian, Pow256, Limit;
    assert t == [t[0]] + t[1..];
    FromBigEndianSplit(t[0], t[1..]);
    FromBigEndianBound(t[1..]);
    var first: int := t[0];
    assert first / 64 == Code(len);
    MaskParts(FromBigEndian(t), first, Pow256(len - 1), FromBigEndian(t[1..]));
  }

  /** The mask takes the top two bits of the first byte away. */
  lemma MaskParts(x: nat, first: nat, p: nat, y: nat)
    requires x == first * p + y && y < p
    ensures x % (64 * p) < 64 * p && x == x % (64 * p) + first / 64 * (64 * p)
  {
    var c, b := first / 64, first % 64;
    assert first == 64 * c + b;
    Regroup(c, b, p, y);
    QuotientOf(x, 64 * p, c, b * p + y);
  }

  lemma Regroup(c: nat, b: nat, p: nat, y: nat)
    requires b < 64 && y < p
    ensures (64 * c + b) * p + y == c * (64 * p) + (b * p + y) && b * p + y < 64 * p
  {
    assert (64 * c + b) * p == c * (64 * p) + b * p;
    assert b * p <= 63 * p;
  }

  lemma Appended(s: seq<Byte>, b: Byte)
    ensures FromBigEndian(s + [b]) == 256 * FromBigEndian(s) + b
  {
    assert (s + [b])[..|s|] == s;
  }

  /** The sample values of appendix A.1 of RFC 9000. */
  lemma SampleVarints()
    ensures Decoded([0x25]) == Some((37, 1)) && Decoded([0x40, 0x25]) == Some((37, 2))
    ensures Decoded([0x7b, 0xbd]) == Some((15293, 2))
    ensures Decoded([0x9d, 0x7f, 0x3e, 0x7d]) == Some((494878333, 4))
  {
    hide FromBigEndian;
    Values2(0x40, 0x25);
    Values2(0x7b, 0xbd);
    Values2(0x9d, 0x7f);
    Appended([0x9d, 0x7f], 0x3e);
    Appended([0x9d, 0x7f, 0x3e], 0x7d);
    assert [0x9d, 0x7f] + [0x3e] == [0x9d, 0x7f, 0x3e] && [0x9d, 0x7f, 0x3e] + [0x7d] == [0x9d, 0x7f, 0x3e, 0x7d];
    Values2(0, 0x25);
    Appended([], 0x25);
    NoBytes();
    assert [0x25][..1] == [0x25] && [] + [0x25] == [0x25];
    assert [0x40, 0x25][..2] == [0x40, 0x25] && [0x7b, 0xbd][..2] == [0x7b, 0xbd];
    assert [0x9d, 0x7f, 0x3e, 0x7d][..4] == [0x9d, 0x7f, 0x3e, 0x7d];
  }

  lemma NoBytes()
    ensures FromBigEndian([]) == 0
  {
  }

  lemma Values2(a: Byte, b: Byte)
    ensures FromBigEndian([a, b]) == 256 * a + b
  {
    Appended([], a);
    Appended([a], b);
    assert [] + [a] == [a] && [a] + [b] == [a, b];
  }

  /** Decoding looks at no byte beyond the varint. */
  lemma DecodedPrefix(s: seq<Byte>, rest: seq<Byte>)
    requires Decoded(s).Some?
    ensures Decoded(s + rest) == Decoded(s)
    ensures Decoded(s).value.1 <= |s| && Decoded(s[..Decoded(s).value.1]) == Decoded(s)
  {
    hide FromBigEndian;
    var len := VarintParseLen(s[0]);
    assert (s + rest)[..len] == s[..len];
    assert s[..len][..len] == s[..len];
  }

  // ----- The cursor -----

  /** A byte buffer with a write and read position. */
  class OctetsMut {
    const buf: array<Byte>
    var off: nat

    ghost predicate Valid()
      reads this
    {
      off <= buf.Length
    }

    constructor (buf: array<Byte>)
      ensures this.buf == buf && off == 0 && Valid()
    {
      this.buf := buf;
      off := 0;
    }

    method Cap() returns (n: nat)
      requires Valid()
      ensures n == buf.Length - off
    {
      n := buf.Length - off;
    }

    /** Writes the low `n` bytes of `v` in network byte order. */
    method PutU(v: nat, n: nat) returns (ok: bool)
      requires Valid()
      modifies this`off, buf
      ensures Valid() && ok == (old(off) + n <= buf.Length)
      ensures off == if ok then old(off) + n else old(off)
      ensures buf[..] == if ok then old(buf[..off]) + BigEndian(v, n) + old(buf[off + n..]) else old(buf[..])
    {
      if buf.Length < off + n {
        return false;
      }
      ghost var before := buf[..];
      var bytes := BigEndian(v, n);
      for i := 0 to n
        invariant off == old(off)
        invariant forall j :: 0 <= j < buf.Length ==> buf[j] == if off <= j < off + i then bytes[j - off] else before[j]
      {
        buf[off + i] := bytes[i];
      }
      assert buf[..] == before[..off] + bytes + before[off + n..];
      off := off + n;
      return true;
    }

    method PutVarintWithLen(v: nat, len: nat) returns (ok: bool)
      requires Valid() && (len <= buf.Length - off ==> PermittedLen(len))
      modifies this`off, buf
      ensures Valid() && ok == (len <= buf.Length - old(off))
      ensures off == if ok then old(off) + len else old(off)
      ensures buf[..] == if ok then old(buf[..off]) + Encoded(v, len) + old(buf[off + len..]) else old(buf[..])
    {
      hide BigEndian;
      var cap := Cap();
      if cap < len {
        return false;
      }
      var start := off;
      ok := PutU(v, len);
      buf[start] := Tagged(buf[start], len);
    }

    method PutVarint(v: nat) returns (ok: bool)
      requires Valid() && v < Limit(8)
      modifies this`off, buf
      ensures Valid() && ok == (VarintLen(v) <= buf.Length - old(off))
      ensures off == if ok then old(off) + VarintLen(v) else old(off)
      ensures buf[..] == if ok then old(buf[..off]) + Encoded(v, VarintLen(v)) + old(buf[off + VarintLen(v)..])
                         else old(buf[..])
    {
      ok := PutVarintWithLen(v, VarintLen(v));
    }

    /** Reads `n` bytes in network byte order, if there are that many. */
    method GetU(n: nat) returns (r: Option<nat>)
      requires Valid()
      modifies this`off
      ensures Valid() && r.Some? == (old(off) + n <= buf.Length)
      ensures off == if r.Some? then old(off) + n else old(off)
      ensures r.Some? ==> r.value == FromBigEndian(buf[old(off)..old(off) + n])
    {
      if buf.Length - off < n {
        return None;
      }
      var v: nat := 0;
      for i := 0 to n
        invariant off == old(off) && v == FromBigEndian(buf[off..off + i])
      {
        assert buf[off..off + i + 1][..i] == buf[off..off + i];
        v := 256 * v + buf[off + i];
      }
      off := off + n;
      return Some(v);
    }

    method GetVarint() returns (r: Option<nat>)
      requires Valid()
      modifies this`off
      ensures Valid()
      ensures var d := Decoded(buf[old(off)..]);
        if d.None? then r == None && off == old(off)
        else r == Some(d.value.0) && off == old(off) + d.value.1
    {
      hide FromBigEndian;
      if off == buf.Length {
        return None;
      }
      var len := VarintParseLen(buf[off]);
      assert buf[off..][0] == buf[off];
      var cap := Cap();
      if len > cap {
        return None;
      }
      assert buf[off..][..len] == buf[off..off + len];
      var v := GetU(len);
      return Some(v.value % Limit(len));
    }
  }

  /** Writing a value and reading from where it was written returns it. */
  method WriteThenRead(o: OctetsMut, v: nat, len: nat) returns (r: Option<nat>)
    requires o.Valid() && PermittedLen(len) && v < Limit(len)
    modifies o`off, o.buf
    ensures o.Valid()
    ensures r.Some? == (old(o.off) + len <= o.buf.Length)
    ensures if r.Some? then r.value == v && o.off == old(o.off) + len else o.off == old(o.off)
    ensures forall i :: 0 <= i < o.buf.Length && !(old(o.off) <= i < old(o.off) + len) ==> o.buf[i] == old(o.buf[i])
  {
    hide Encoded;
    hide Decoded;
    var start := o.off;
    ghost var before := o.buf[..];
    var ok := o.PutVarintWithLen(v, len);
    ghost var after := o.buf[..];
    assert forall i :: 0 <= i < |after| && !(start <= i < start + len) ==> after[i] == before[i];
    if !ok {
      return None;
    }
    o.off := start;
    VarintRoundTrip(v, len, before[start + len..]);
    assert o.buf[start..] == Encoded(v, len) + before[start + len..];
    r := o.GetVarint();
  }
}
