/**
The finite field GF(2^8) of the forward-error-correction code: bytes under
exclusive-or and under multiplication modulo x^8 + x^4 + x^3 + x^2 + 1.

Bytes are integers below 256, so exclusive-or is written out digit by digit.
The field laws are proved here from the shift-and-fold step; the rest of the
project uses the laws only.
 */
module Field {
  import opened Basics

  type Byte = b: int | 0 <= b < 256

  /** The reduction polynomial with its leading term dropped (`0x11D as u8`). */
  const FOLD: Byte := 0x1D

  // ----- Exclusive-or -----

  /** Bitwise exclusive-or of two unsigned integers. */
  function Xor(a: nat, b: nat): nat
    decreases a + b
  {
    if a == 0 && b == 0 then 0 else (a % 2 + b % 2) % 2 + 2 * Xor(a / 2, b / 2)
  }

  lemma {:induction false} XorComm(a: nat, b: nat)
    ensures Xor(a, b) == Xor(b, a)
    decreases a + b
  {
    if a != 0 || b != 0 {
      XorComm(a / 2, b / 2);
    }
  }

  lemma {:induction false} XorZero(a: nat)
    ensures Xor(a, 0) == a
  {
    if a != 0 {
      XorZero(a / 2);
    }
  }

  lemma {:induction false} XorSelf(a: nat)
    ensures Xor(a, a) == 0
  {
    if a != 0 {
      XorSelf(a / 2);
    }
  }

  /** One digit of exclusive-or: the low bits add modulo two, the rest recurses. */
  lemma XorStep(a: nat, b: nat)
    ensures Xor(a, b) % 2 == (a % 2 + b % 2) % 2
    ensures Xor(a, b) / 2 == Xor(a / 2, b / 2)
  {
  }

  lemma ParityAssoc(p: nat, q: nat, r: nat)
    ensures ((p + q) % 2 + r) % 2 == (p + (q + r) % 2) % 2
  {
  }

  lemma {:induction false} XorAssoc(a: nat, b: nat, c: nat)
    ensures Xor(Xor(a, b), c) == Xor(a, Xor(b, c))
    decreases a + b + c
  {
    hide *;
    if a == 0 && b == 0 && c == 0 {
      XorZero(0);
    } else {
      XorAssoc(a / 2, b / 2, c / 2);
      XorStep(a, b);
      XorStep(b, c);
      XorStep(Xor(a, b), c);
      XorStep(a, Xor(b, c));
      ParityAssoc(a % 2, b % 2, c % 2);
    }
  }

  lemma XorDouble(a: nat, b: nat)
    ensures Xor(2 * a, 2 * b) == 2 * Xor(a, b)
  {
    hide *;
    XorStep(2 * a, 2 * b);
    assert 2 * a / 2 == a && 2 * b / 2 == b;
  }

  function Pow2(n: nat): nat {
    if n == 0 then 1 else 2 * Pow2(n - 1)
  }

  lemma {:induction false} XorBound(a: nat, b: nat, n: nat)
    requires a < Pow2(n) && b < Pow2(n)
    ensures Xor(a, b) < Pow2(n)
    decreases n
  {
    if n > 0 {
      XorBound(a / 2, b / 2, n - 1);
      XorStep(a, b);
    }
  }

  /** The top bit of an exclusive-or is the exclusive-or of the top bits. */
  lemma {:induction false} XorTopBit(a: nat, b: nat, n: nat)
    requires a < Pow2(n) && b < Pow2(n)
    ensures Xor(Pow2(n) + a, b) == Pow2(n) + Xor(a, b)
    decreases n
  {
    XorStep(Pow2(n) + a, b);
    XorStep(a, b);
    if n > 0 {
      assert (Pow2(n) + a) / 2 == Pow2(n - 1) + a / 2;
      XorTopBit(a / 2, b / 2, n - 1);
    } else {
      XorZero(0);
      XorZero(1);
    }
  }

  /** Field addition: exclusive-or of two bytes. */
  function Add(a: Byte, b: Byte): Byte {
    ByteXorBound(a, b);
    Xor(a, b)
  }

  lemma ByteXorBound(a: Byte, b: Byte)
    ensures Xor(a, b) < 256
  {
    assert Pow2(8) == 256;
    XorBound(a, b, 8);
  }

  lemma AddComm(a: Byte, b: Byte)
    ensures Add(a, b) == Add(b, a)
  {
    XorComm(a, b);
  }

  lemma AddAssoc(a: Byte, b: Byte, c: Byte)
    ensures Add(Add(a, b), c) == Add(a, Add(b, c))
  {
    hide Xor;
    XorAssoc(a, b, c);
  }

  lemma AddZero(a: Byte)
    ensures Add(a, 0) == a && Add(0, a) == a
  {
    XorZero(a);
    XorComm(a, 0);
  }

  lemma AddSelf(a: Byte)
    ensures Add(a, a) == 0
  {
    XorSelf(a);
  }

  /** Every byte is its own negative, so a vanishing sum means equal terms. */
  lemma AddCancel(a: Byte, b: Byte)
    ensures Add(a, b) == 0 <==> a == b
    ensures Add(a, Add(a, b)) == b
  {
    hide *;
    AddAssoc(a, a, b);
    AddSelf(a);
    AddZero(b);
    AddZero(a);
  }

  lemma AddSwap(a: Byte, b: Byte, c: Byte, d: Byte)
    ensures Add(Add(a, b), Add(c, d)) == Add(Add(a, c), Add(b, d))
  {
    hide *;
    AddAssoc(a, b, Add(c, d));
    AddAssoc(b, c, d);
    AddComm(b, c);
    AddAssoc(c, b, d);
    AddAssoc(a, c, Add(b, d));
  }

  // ----- Multiplication -----

  /** Multiplication by x: shift left, and fold the carry back with the polynomial. */
  function XTime(a: Byte): Byte {
    if a < 128 then 2 * a else Add(2 * a - 256, FOLD)
  }

  /** The product as the shift-and-add loop accumulates it, lowest bit of `b` first. */
  function Mul(a: Byte, b: Byte): Byte
    decreases b
  {
    if b == 0 then 0 else Add(if b % 2 == 1 then a else 0, Mul(XTime(a), b / 2))
  }

  lemma XTimeAddLow(a: Byte, b: Byte)
    requires a < 128 && b < 128
    ensures Add(a, b) < 128
    ensures XTime(Add(a, b)) == Add(XTime(a), XTime(b))
  {
    hide Xor;
    assert Pow2(7) == 128;
    XorBound(a, b, 7);
    XorDouble(a, b);
  }

  lemma XTimeAddMixed(a: Byte, b: Byte)
    requires a >= 128 && b < 128
    ensures Add(a, b) >= 128
    ensures XTime(Add(a, b)) == Add(XTime(a), XTime(b))
  {
    var low := a - 128;
    TopBitAdd(low, b);
    XTimeAddLow(low, b);
    FoldAdd(low, b);
  }

  lemma TopBitAdd(a: Byte, b: Byte)
    requires a < 128 && b < 128
    ensures Add(a, b) < 128 && Add(128 + a, b) == 128 + Add(a, b)
  {
    hide Xor;
    assert Pow2(7) == 128;
    XorBound(a, b, 7);
    XorTopBit(a, b, 7);
  }

  lemma FoldAdd(a: Byte, b: Byte)
    requires a < 128 && b < 128 && Add(a, b) < 128
    ensures Add(2 * Add(a, b), FOLD) == Add(Add(2 * a, FOLD), 2 * b)
  {
    hide Xor;
    XorDouble(a, b);
    hide *;
    AddAssoc(2 * a, 2 * b, FOLD);
    AddComm(2 * b, FOLD);
    AddAssoc(2 * a, FOLD, 2 * b);
  }

  lemma TopBitsCancel(a: Byte, b: Byte)
    requires a >= 128 && b >= 128
    ensures Add(a, b) == Add(a - 128, b - 128)
  {
    hide *;
    var p, q := a - 128, b - 128;
    TopBitAdd(0, p);
    TopBitAdd(0, q);
    AddZero(p);
    AddZero(q);
    AddSwap(128, p, 128, q);
    AddSelf(128);
    AddZero(Add(p, q));
  }

  lemma XTimeAddHigh(a: Byte, b: Byte)
    requires a >= 128 && b >= 128
    ensures XTime(Add(a, b)) == Add(XTime(a), XTime(b))
  {
    hide Add;
    TopBitsCancel(a, b);
    var p, q := a - 128, b - 128;
    XTimeAddLow(p, q);
    AddSwap(2 * p, FOLD, 2 * q, FOLD);
    AddSelf(FOLD);
    AddZero(Add(2 * p, 2 * q));
  }

  /** Multiplication by x is additive: the carry fold is linear over exclusive-or. */
  lemma XTimeAdd(a: Byte, b: Byte)
    ensures XTime(Add(a, b)) == Add(XTime(a), XTime(b))
  {
    hide *;
    if a < 128 && b < 128 {
      XTimeAddLow(a, b);
    } else if a >= 128 && b >= 128 {
      XTimeAddHigh(a, b);
    } else if a >= 128 {
      XTimeAddMixed(a, b);
    } else {
      XTimeAddMixed(b, a);
      AddComm(a, b);
      AddComm(XTime(a), XTime(b));
    }
  }

  lemma {:induction false} MulAddLeft(a: Byte, b: Byte, c: Byte)
    ensures Mul(Add(a, b), c) == Add(Mul(a, c), Mul(b, c))
    decreases c
  {
    hide Add;
    hide XTime;
    if c == 0 {
      AddZero(0);
    } else {
      XTimeAdd(a, b);
      MulAddLeft(XTime(a), XTime(b), c / 2);
      var p, q := Mul(XTime(a), c / 2), Mul(XTime(b), c / 2);
      if c % 2 == 1 {
        AddSwap(a, b, p, q);
      } else {
        AddSwap(0, 0, p, q);
        AddZero(0);
      }
    }
  }

  lemma {:induction false} MulXTime(a: Byte, c: Byte)
    ensures Mul(XTime(a), c) == XTime(Mul(a, c))
    decreases c
  {
    hide Add;
    if c == 0 {
      assert XTime(0) == 0;
    } else {
      hide XTime;
      var bit := if c % 2 == 1 then a else 0;
      MulXTime(XTime(a), c / 2);
      XTimeAdd(bit, Mul(XTime(a), c / 2));
      XTimeZero();
    }
  }

  lemma XTimeZero()
    ensures XTime(0) == 0 && XTime(1) == 2
  {
  }

  /** Horner's form of the product: the loop may equally take the high bits first. */
  lemma MulHorner(a: Byte, c: Byte)
    requires c != 0
    ensures Mul(a, c) == Add(if c % 2 == 1 then a else 0, XTime(Mul(a, c / 2)))
  {
    hide Add;
    hide XTime;
    MulXTime(a, c / 2);
  }

  lemma MulZero(a: Byte)
    ensures Mul(a, 0) == 0 && Mul(0, a) == 0
  {
    hide Add;
    AddSelf(0);
    MulAddLeft(0, 0, a);
    AddSelf(Mul(0, a));
  }

  lemma {:induction false} MulOne(a: Byte)
    ensures Mul(a, 1) == a && Mul(1, a) == a
    decreases a
  {
    hide Add;
    AddZero(a);
    assert Mul(a, 1) == a by {
      assert Mul(XTime(a), 0) == 0;
    }
    if a != 0 {
      MulOne(a / 2);
      MulHorner(1, a);
      ParityJoin(a);
    }
  }

  /** A byte is its low bit plus twice its upper half. */
  lemma ParityJoin(a: Byte)
    ensures XTime(a / 2) == 2 * (a / 2)
    ensures Add(a % 2, 2 * (a / 2)) == a
  {
    XorStep(a % 2, 2 * (a / 2));
    XorZero(a / 2);
    XorComm(a / 2, 0);
    assert Xor(0, a / 2) == a / 2;
  }

  /** Multiplication is commutative. */
  lemma {:induction false} MulComm(a: Byte, b: Byte)
    ensures Mul(a, b) == Mul(b, a)
    decreases b
  {
    hide *;
    MulZero(a);
    if b != 0 {
      MulComm(a, b / 2);
      MulHorner(a, b);
      ParityJoin(b);
      MulAddLeft(b % 2, XTime(b / 2), a);
      MulXTime(b / 2, a);
      MulOne(a);
    }
  }

  lemma MulAddRight(a: Byte, b: Byte, c: Byte)
    ensures Mul(a, Add(b, c)) == Add(Mul(a, b), Mul(a, c))
  {
    hide *;
    MulComm(a, Add(b, c));
    MulComm(a, b);
    MulComm(a, c);
    MulAddLeft(b, c, a);
  }

  /** Multiplication is associative. */
  lemma {:induction false} MulAssoc(a: Byte, b: Byte, c: Byte)
    ensures Mul(Mul(a, b), c) == Mul(a, Mul(b, c))
    decreases c
  {
    hide *;
    MulZero(a);
    MulZero(b);
    MulZero(Mul(a, b));
    if c != 0 {
      var bit := if c % 2 == 1 then b else 0;
      var rest := Mul(b, c / 2);
      MulAssoc(a, b, c / 2);
      MulHorner(b, c);
      MulHorner(Mul(a, b), c);
      MulAddRight(a, bit, XTime(rest));
      MulComm(a, XTime(rest));
      MulXTime(rest, a);
      MulComm(rest, a);
    }
  }

  // ----- Inverses -----

  /** Powers of the generator x. */
  function Exp(i: nat): Byte {
    if i == 0 then 1 else XTime(Exp(i - 1))
  }

  lemma {:induction false} ExpAdd(i: nat, j: nat)
    ensures Exp(i + j) == Mul(Exp(i), Exp(j))
    decreases j
  {
    hide Mul;
    hide XTime;
    if j == 0 {
      MulOne(Exp(i));
    } else {
      ExpAdd(i, j - 1);
      MulComm(Exp(i), Exp(j));
      MulXTime(Exp(j - 1), Exp(i));
      MulComm(Exp(i), Exp(j - 1));
    }
  }

  /** Exclusive-or of two numbers given by their upper digits and their low bits. */
  lemma XorDigit(a: nat, b: nat, p: nat, q: nat)
    requires p < 2 && q < 2
    ensures Xor(2 * a + p, 2 * b + q) == 2 * Xor(a, b) + if p == q then 0 else 1
  {
    hide *;
    XorStep(2 * a + p, 2 * b + q);
  }

  /** The carry fold in closed form: the polynomial flips bits 2 to 4 and sets bit 0. */
  lemma FoldBits(h: nat, b1: nat, b2: nat, b3: nat, b4: nat)
    requires b1 < 2 && b2 < 2 && b3 < 2 && b4 < 2
    ensures Xor(32 * h + 16 * b4 + 8 * b3 + 4 * b2 + 2 * b1, 29)
         == 32 * h + 16 * (1 - b4) + 8 * (1 - b3) + 4 * (1 - b2) + 2 * b1 + 1
  {
    hide *;
    XorDigit(16 * h + 8 * b4 + 4 * b3 + 2 * b2 + b1, 14, 0, 1);
    XorDigit(8 * h + 4 * b4 + 2 * b3 + b2, 7, b1, 0);
    XorDigit(4 * h + 2 * b4 + b3, 3, b2, 1);
    XorDigit(2 * h + b4, 1, b3, 1);
    XorDigit(h, 0, b4, 1);
    XorZero(h);
  }

  /** `XTime` by integer arithmetic alone. */
  function XTimeValue(a: Byte): int {
    if a < 128 then 2 * a else 32 * (a / 16 - 8) + 29 - 4 * (a % 16 / 2) + 2 * (a % 2)
  }

  lemma BitsOfThree(s: nat)
    requires s < 8
    ensures s == 4 * (s / 4) + 2 * (s / 2 % 2) + s % 2 && s / 4 < 2
  {
  }

  lemma XTimeIsValue(a: Byte)
    ensures XTime(a) == XTimeValue(a)
  {
    hide Xor;
    if a >= 128 {
      var h, s, t := a / 16 - 8, a % 16 / 2, a % 2;
      assert a == 128 + 16 * h + 2 * s + t;
      BitsOfThree(s);
      FoldBits(h, t, s % 2, s / 2 % 2, s / 4);
    }
  }

  lemma ExpNext(i: nat, v: Byte)
    ensures Exp(i) == v ==> Exp(i + 1) == XTimeValue(v)
  {
    hide XTime;
    hide XTimeValue;
    XTimeIsValue(v);
  }

  lemma ExpZero()
    ensures Exp(0) == 1
  {
  }

  lemma ExpAt15()
    ensures Exp(15) == 38
  {
    hide Exp;
    ExpZero();
    ExpNext(0, 1); ExpNext(1, 2); ExpNext(2, 4); ExpNext(3, 8); ExpNext(4, 16); ExpNext(5, 32); ExpNext(6, 64);
    ExpNext(7, 128); ExpNext(8, 29); ExpNext(9, 58); ExpNext(10, 116); ExpNext(11, 232); ExpNext(12, 205);
    ExpNext(13, 135); ExpNext(14, 19);
  }

  lemma ExpAt33()
    ensures Exp(33) == 39
  {
    hide Exp;
    ExpAt15();
    ExpNext(15, 38); ExpNext(16, 76); ExpNext(17, 152); ExpNext(18, 45); ExpNext(19, 90); ExpNext(20, 180);
    ExpNext(21, 117); ExpNext(22, 234); ExpNext(23, 201); ExpNext(24, 143); ExpNext(25, 3); ExpNext(26, 6);
    ExpNext(27, 12); ExpNext(28, 24); ExpNext(29, 48); ExpNext(30, 96); ExpNext(31, 192); ExpNext(32, 157);
  }

  lemma ExpAt51()
    ensures Exp(51) == 10
  {
    hide Exp;
    ExpAt33();
    ExpNext(33, 39); ExpNext(34, 78); ExpNext(35, 156); ExpNext(36, 37); ExpNext(37, 74); ExpNext(38, 148);
    ExpNext(39, 53); ExpNext(40, 106); ExpNext(41, 212); ExpNext(42, 181); ExpNext(43, 119); ExpNext(44, 238);
    ExpNext(45, 193); ExpNext(46, 159); ExpNext(47, 35); ExpNext(48, 70); ExpNext(49, 140); ExpNext(50, 5);
  }

  lemma ExpAt68()
    ensures Exp(68) == 153
  {
    hide Exp;
    ExpAt51();
    ExpNext(51, 10); ExpNext(52, 20); ExpNext(53, 40); ExpNext(54, 80); ExpNext(55, 160); ExpNext(56, 93);
    ExpNext(57, 186); ExpNext(58, 105); ExpNext(59, 210); ExpNext(60, 185); ExpNext(61, 111); ExpNext(62, 222);
    ExpNext(63, 161); ExpNext(64, 95); ExpNext(65, 190); ExpNext(66, 97); ExpNext(67, 194);
  }

  lemma ExpAt85()
    ensures Exp(85) == 214
  {
    hide Exp;
    ExpAt68();
    ExpNext(68, 153); ExpNext(69, 47); ExpNext(70, 94); ExpNext(71, 188); ExpNext(72, 101); ExpNext(73, 202);
    ExpNext(74, 137); ExpNext(75, 15); ExpNext(76, 30); ExpNext(77, 60); ExpNext(78, 120); ExpNext(79, 240);
    ExpNext(80, 253); ExpNext(81, 231); ExpNext(82, 211); ExpNext(83, 187); ExpNext(84, 107);
  }

  lemma ExpAt102()
    ensures Exp(102) == 68
  {
    hide Exp;
    ExpAt85();
    ExpNext(85, 214); ExpNext(86, 177); ExpNext(87, 127); ExpNext(88, 254); ExpNext(89, 225); ExpNext(90, 223);
    ExpNext(91, 163); ExpNext(92, 91); ExpNext(93, 182); ExpNext(94, 113); ExpNext(95, 226); ExpNext(96, 217);
    ExpNext(97, 175); ExpNext(98, 67); ExpNext(99, 134); ExpNext(100, 17); ExpNext(101, 34);
  }

  lemma ExpAt119()
    ensures Exp(119) == 147
  {
    hide Exp;
    ExpAt102();
    ExpNext(102, 68); ExpNext(103, 136); ExpNext(104, 13); ExpNext(105, 26); ExpNext(106, 52);
    ExpNext(107, 104); ExpNext(108, 208); ExpNext(109, 189); ExpNext(110, 103); ExpNext(111, 206);
    ExpNext(112, 129); ExpNext(113, 31); ExpNext(114, 62); ExpNext(115, 124); ExpNext(116, 248);
    ExpNext(117, 237); ExpNext(118, 199);
  }

  lemma ExpAt136()
    ensures Exp(136) == 79
  {
    hide Exp;
    ExpAt119();
    ExpNext(119, 147); ExpNext(120, 59); ExpNext(121, 118); ExpNext(122, 236); ExpNext(123, 197);
    ExpNext(124, 151); ExpNext(125, 51); ExpNext(126, 102); ExpNext(127, 204); ExpNext(128, 133);
    ExpNext(129, 23); ExpNext(130, 46); ExpNext(131, 92); ExpNext(132, 184); ExpNext(133, 109);
    ExpNext(134, 218); ExpNext(135, 169);
  }

  lemma ExpAt153()
    ensures Exp(153) == 146
  {
    hide Exp;
    ExpAt136();
    ExpNext(136, 79); ExpNext(137, 158); ExpNext(138, 33); ExpNext(139, 66); ExpNext(140, 132);
    ExpNext(141, 21); ExpNext(142, 42); ExpNext(143, 84); ExpNext(144, 168); ExpNext(145, 77);
    ExpNext(146, 154); ExpNext(147, 41); ExpNext(148, 82); ExpNext(149, 164); ExpNext(150, 85);
    ExpNext(151, 170); ExpNext(152, 73);
  }

  lemma ExpAt170()
    ensures Exp(170) == 215
  {
    hide Exp;
    ExpAt153();
    ExpNext(153, 146); ExpNext(154, 57); ExpNext(155, 114); ExpNext(156, 228); ExpNext(157, 213);
    ExpNext(158, 183); ExpNext(159, 115); ExpNext(160, 230); ExpNext(161, 209); ExpNext(162, 191);
    ExpNext(163, 99); ExpNext(164, 198); ExpNext(165, 145); ExpNext(166, 63); ExpNext(167, 126);
    ExpNext(168, 252); ExpNext(169, 229);
  }

  /** The generator's 85th power is a cube root of one, so its 255th power is one. */
  lemma ExpAt255()
    ensures Exp(255) == 1
  {
    hide *;
    ExpAt85();
    ExpAt170();
    XorDigit(107, 0, 0, 1);
    XorZero(107);
    assert Add(214, 1) == 215 by {
      AddIsXor(214, 1);
    }
    ExpAdd(85, 85);
    ExpAdd(170, 85);
    MulAddLeft(214, 1, 214);
    MulOne(214);
    AddComm(215, 214);
    AddCancel(214, 1);
  }

  lemma AddIsXor(a: Byte, b: Byte)
    ensures Add(a, b) == Xor(a, b)
  {
  }

  lemma {:induction false} ExpMultiple(d: nat, q: nat)
    requires Exp(d) == 1
    ensures Exp(d * q) == 1
    decreases q
  {
    hide *;
    if q == 0 {
      ExpZero();
    } else {
      ExpMultiple(d, q - 1);
      assert d * q == d * (q - 1) + d;
      ExpAdd(d * (q - 1), d);
      MulOne(1);
    }
  }

  /** Exponents reduce modulo any period. */
  lemma ExpReduce(d: nat, e: nat)
    requires d > 0 && Exp(d) == 1
    ensures Exp(e % d) == Exp(e)
  {
    hide *;
    ExpMultiple(d, e / d);
    ExpAdd(d * (e / d), e % d);
    MulOne(Exp(e % d));
  }

  lemma {:induction false} LeastPeriod(d: nat) returns (o: nat)
    requires 0 < d && Exp(d) == 1
    ensures 0 < o <= d && Exp(o) == 1
    ensures forall e :: 0 < e < o ==> Exp(e) != 1
    decreases d
  {
    if smaller :| 0 < smaller < d && Exp(smaller) == 1 {
      o := LeastPeriod(smaller);
    } else {
      o := d;
    }
  }

  /** The proper divisors of 255 = 3 * 5 * 17 divide 15, 51 or 85. */
  lemma DivisorsOf255(o: nat, q: nat)
    requires o * q == 255 && o < 255
    ensures o in {1, 3, 5, 15, 17, 51, 85}
  {
    if o <= 15 {
      SmallFactor(o, q);
    } else {
      assert q <= 15 by {
        MulAtLeast(o, q);
      }
      SmallFactor(q, o);
    }
  }

  lemma MulAtLeast(o: nat, q: nat)
    requires o >= 16
    ensures q >= 16 ==> o * q >= 256
  {
    if q >= 16 {
      assert o * q >= 16 * q;
    }
  }

  lemma SmallFactor(v: nat, w: nat)
    requires v <= 15 && v * w == 255
    ensures v in {1, 3, 5, 15} && w == 255 / v
  {
    if
    case v == 0 =>
    case v == 1 =>
    case v == 2 =>
    case v == 3 =>
    case v == 4 =>
    case v == 5 =>
    case v == 6 =>
    case v == 7 =>
    case v == 8 =>
    case v == 9 =>
    case v == 10 =>
    case v == 11 =>
    case v == 12 =>
    case v == 13 =>
    case v == 14 =>
    case v == 15 =>
  }

  /** The generator is primitive: no power below the 255th is one. */
  lemma Primitive(d: nat)
    requires 0 < d < 255
    ensures Exp(d) != 1
  {
    hide *;
    if Exp(d) == 1 {
      var o := LeastPeriod(d);
      ExpAt255();
      ExpReduce(o, 255);
      assert 255 % o == 0;
      DivisorsOf255(o, 255 / o);
      ExpAt15();
      ExpAt51();
      ExpAt85();
      if o == 1 || o == 3 || o == 5 || o == 15 {
        ExpMultiple(o, 15 / o);
      } else if o == 17 || o == 51 {
        ExpMultiple(o, 51 / o);
      }
      assert false;
    }
  }

  lemma {:induction false} ExpNonZero(i: nat)
    ensures Exp(i) != 0
  {
    ExpAt255();
    hide *;
    if Exp(i) == 0 {
      var j := 255 * (i + 1) - i;
      ExpMultiple(255, i + 1);
      ExpAdd(i, j);
      MulZero(Exp(j));
      assert false;
    }
  }

  /** Distinct exponents below 255 give distinct bytes. */
  lemma ExpInjective(i: nat, j: nat)
    requires i < j < 255
    ensures Exp(i) != Exp(j)
  {
    hide *;
    if Exp(i) == Exp(j) {
      ExpAdd(i, 255 - i);
      ExpAdd(j, 255 - i);
      ExpAt255();
      ExpAdd(255, j - i);
      MulOne(Exp(j - i));
      Primitive(j - i);
      assert false;
    }
  }

  ghost function Powers(n: nat): set<int> {
    if n == 0 then {} else Powers(n - 1) + {Exp(n - 1)}
  }

  lemma {:induction false} PowersMember(n: nat, b: int)
    requires b in Powers(n)
    ensures exists i: nat :: i < n && Exp(i) == b
  {
    hide Exp;
    if b == Exp(n - 1) {
    } else {
      PowersMember(n - 1, b);
      var i: nat :| i < n - 1 && Exp(i) == b;
    }
  }

  lemma {:induction false} PowersCount(n: nat)
    requires n <= 255
    ensures |Powers(n)| == n
    ensures Powers(n) <= Interval(1, 256)
  {
    hide Exp, Interval;
    if n > 0 {
      PowersCount(n - 1);
      ExpNonZero(n - 1);
      if Exp(n - 1) in Powers(n - 1) {
        PowersMember(n - 1, Exp(n - 1));
        var i: nat :| i < n - 1 && Exp(i) == Exp(n - 1);
        ExpInjective(i, n - 1);
        assert false;
      }
    }
  }

  /** Every nonzero byte is a power of the generator. */
  lemma DiscreteLog(a: Byte) returns (i: nat)
    requires a != 0
    ensures i < 255 && Exp(i) == a
  {
    hide *;
    PowersCount(255);
    IntervalCount(1, 256);
    SubsetOfSameSize(Powers(255), Interval(1, 256));
    PowersMember(255, a);
    i :| i < 255 && Exp(i) == a;
  }

  function Power(a: Byte, n: nat): Byte {
    if n == 0 then 1 else Mul(a, Power(a, n - 1))
  }

  /** The multiplicative inverse, by Fermat's little theorem; zero for zero. */
  function Inv(a: Byte): Byte {
    Power(a, 254)
  }

  lemma {:induction false} PowerOfExp(i: nat, n: nat)
    ensures Power(Exp(i), n) == Exp(i * n)
    decreases n
  {
    hide Exp;
    hide Mul;
    if n == 0 {
      ExpZero();
    } else {
      PowerOfExp(i, n - 1);
      assert i * n == i + i * (n - 1);
      ExpAdd(i, i * (n - 1));
    }
  }

  /** Every nonzero byte has an inverse, and the inverse is nonzero. */
  lemma MulInv(a: Byte)
    requires a != 0
    ensures Mul(a, Inv(a)) == 1 && Mul(Inv(a), a) == 1 && Inv(a) != 0
  {
    hide *;
    var i := DiscreteLog(a);
    InvOfExp(i);
    ExpAdd(i, i * 254);
    assert i + i * 254 == 255 * i;
    ExpAt255();
    ExpMultiple(255, i);
    MulComm(a, Inv(a));
    ExpNonZero(i * 254);
  }

  lemma InvOfExp(i: nat)
    ensures Inv(Exp(i)) == Exp(i * 254)
  {
    hide Exp;
    hide Mul;
    PowerOfExp(i, 254);
  }

  /** There are no zero divisors. */
  lemma NoZeroDivisors(a: Byte, b: Byte)
    ensures Mul(a, b) == 0 <==> a == 0 || b == 0
  {
    hide *;
    MulZero(a);
    MulZero(b);
    if Mul(a, b) == 0 && a != 0 {
      MulInv(a);
      MulAssoc(Inv(a), a, b);
      MulOne(b);
      MulZero(Inv(a));
    }
  }

  /** Inverses are unique. */
  lemma InvUnique(a: Byte, b: Byte)
    requires Mul(a, b) == 1
    ensures b == Inv(a) && a != 0
  {
    hide *;
    MulZero(b);
    MulInv(a);
    MulAssoc(Inv(a), a, b);
    MulOne(b);
    MulOne(Inv(a));
  }
}
