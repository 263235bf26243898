/**
The scalar arithmetic of `src/fec/gf_tables.rs`: shift-and-add multiplication,
the logarithm and exponential tables, and the table lookups that replace
multiplication and inversion. Everything is tied to the field operations of
`Field`, so the lookups inherit the field laws.
 */
module GfTables {
  import opened Field

  /** The reduction polynomial with its leading term. */
  const IRREDUCIBLE_POLY: nat := 0x11D

  /** Shift-and-add multiplication, one bit of `b` per round. */
  method GfMulShift(a: Byte, b: Byte) returns (res: Byte)
    ensures res == Mul(a, b)
  {
    hide Add;
    res := 0;
    var x: Byte, y: Byte := a, b;
    AddZero(Mul(a, b));
    while y != 0
      invariant Add(res, Mul(x, y)) == Mul(a, b)
      decreases y
    {
      AddAssoc(res, if y % 2 == 1 then x else 0, Mul(XTime(x), y / 2));
      AddZero(res);
      if y % 2 == 1 {
        res := Add(res, x);
      }
      var carry := x >= 128;
      var shifted := 2 * x % 256;
      x := if carry then Add(shifted, IRREDUCIBLE_POLY % 256) else shifted;
      y := y / 2;
    }
    AddZero(res);
  }

  /** What the two tables hold once they are filled. */
  ghost predicate TablesReady(log: seq<Byte>, exp: seq<Byte>) {
    && |log| == 256
    && |exp| == 512
    && FilledTo(log, exp, 255)
  }

  ghost predicate FilledTo(log: seq<Byte>, exp: seq<Byte>, n: nat)
    requires n <= 255 && |log| == 256 && |exp| == 512
  {
    forall i: nat :: i < n ==> exp[i] == Exp(i) && exp[i + 255] == Exp(i) && log[Exp(i)] == i
  }

  lemma CarryReduction(x: nat)
    requires 128 <= x < 256
    ensures Xor(2 * x, IRREDUCIBLE_POLY) == XTime(x)
  {
    hide Xor;
    var p := 2 * x - 256;
    assert Pow2(8) == 256;
    XorZero(0);
    XorTopBit(0, 29, 8);
    XorTopBit(0, p, 8);
    XorComm(0, 29);
    XorComm(0, p);
    XorZero(29);
    XorZero(p);
    XorComm(256, p);
    XorAssoc(p, 256, Xor(256, 29));
    XorAssoc(256, 256, 29);
    XorSelf(256);
  }

  /** Fills the tables by walking the powers of the generator. */
  method InitGfTables(log: array<Byte>, exp: array<Byte>)
    requires log.Length == 256 && exp.Length == 512 && log != exp
    modifies log, exp
    ensures TablesReady(log[..], exp[..])
    ensures exp[510] == old(exp[510]) && exp[511] == old(exp[511]) && log[0] == old(log[0])
  {
    hide XTime;
    hide Xor;
    var x: nat := 1;
    for i := 0 to 255
      invariant x < 256 && x == Exp(i)
      invariant FilledTo(log[..], exp[..], i)
      invariant exp[510] == old(exp[510]) && exp[511] == old(exp[511]) && log[0] == old(log[0])
    {
      ExpNonZero(i);
      ghost var before := (log[..], exp[..]);
      exp[i] := x;
      exp[i + 255] := x;
      log[x] := i;
      KeepFilled(before.0, before.1, log[..], exp[..], i);
      var y := 2 * x;
      if y >= 256 {
        CarryReduction(x);
        y := Xor(y, IRREDUCIBLE_POLY);
      } else {
        SmallXTime(x);
      }
      x := y;
    }
  }

  lemma SmallXTime(x: Byte)
    requires x < 128
    ensures XTime(x) == 2 * x
  {
  }

  lemma KeepFilled(log: seq<Byte>, exp: seq<Byte>, log': seq<Byte>, exp': seq<Byte>, n: nat)
    requires n < 255 && |log| == 256 && |exp| == 512 && FilledTo(log, exp, n)
    requires log' == log[Exp(n) := n] && exp' == exp[n := Exp(n)][n + 255 := Exp(n)]
    ensures FilledTo(log', exp', n + 1)
  {
    hide Exp;
    forall i: nat | i < n + 1
      ensures exp'[i] == Exp(i) && exp'[i + 255] == Exp(i) && log'[Exp(i)] == i
    {
      if i < n {
        ExpInjective(i, n);
      }
    }
  }

  /** Multiplication by table lookup. */
  function GfMulTable(log: seq<Byte>, exp: seq<Byte>, a: Byte, b: Byte): Byte
    requires |log| == 256 && |exp| == 512
  {
    if a == 0 || b == 0 then 0 else
      var logA: int, logB: int := log[a], log[b];
      exp[logA + logB]
  }

  /** Inversion by table lookup; zero has no inverse and the lookup panics there. */
  function GfInv(log: seq<Byte>, exp: seq<Byte>, a: Byte): Byte
    requires |log| == 256 && |exp| == 512 && a != 0
  {
    exp[255 - log[a]]
  }

  lemma LogValue(log: seq<Byte>, exp: seq<Byte>, a: Byte)
    requires TablesReady(log, exp) && a != 0
    ensures log[a] < 255 && Exp(log[a]) == a
  {
    hide Exp;
    var i := DiscreteLog(a);
    assert log[Exp(i)] == i;
  }

  /** The doubled exponential table absorbs the wrap-around of the exponent sum. */
  lemma ExpTableValue(log: seq<Byte>, exp: seq<Byte>, e: nat)
    requires TablesReady(log, exp) && e < 510
    ensures exp[e] == Exp(e)
  {
    hide Exp;
    if e >= 255 {
      assert exp[(e - 255) + 255] == Exp(e - 255);
      ExpAt255();
      ExpAdd(255, e - 255);
      MulOne(Exp(e - 255));
    }
  }

  /** Table multiplication is the field's multiplication. */
  lemma TableMul(log: seq<Byte>, exp: seq<Byte>, a: Byte, b: Byte)
    requires TablesReady(log, exp)
    ensures GfMulTable(log, exp, a, b) == Mul(a, b)
  {
    hide Mul;
    hide Exp;
    if a == 0 || b == 0 {
      MulZero(a);
      MulZero(b);
    } else {
      LogValue(log, exp, a);
      LogValue(log, exp, b);
      var logA: int, logB: int := log[a], log[b];
      ExpTableValue(log, exp, logA + logB);
      ExpAdd(logA, logB);
    }
  }

  /** Table inversion is the field's inversion. */
  lemma TableInv(log: seq<Byte>, exp: seq<Byte>, a: Byte)
    requires TablesReady(log, exp) && a != 0
    ensures GfInv(log, exp, a) == Inv(a)
    ensures GfMulTable(log, exp, a, GfInv(log, exp, a)) == 1
  {
    hide Mul;
    hide Exp;
    hide Inv;
    hide GfMulTable;
    LogValue(log, exp, a);
    ExpTableValue(log, exp, 255 - log[a]);
    ExpAdd(log[a], 255 - log[a]);
    ExpAt255();
    InvUnique(a, Exp(255 - log[a]));
    TableMul(log, exp, a, Inv(a));
  }
}
