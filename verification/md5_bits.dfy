/**
 The compression of MD5 on machine words of 32 bits, and a proof that it is the one that is defined on numbers. The
 bits of a machine word are read as a number byte by byte.
 */
module MD5Bits {
  import opened Bytes
  import opened Word32
  import opened MD5Spec

  // ----- the number that a machine word stands for

  function Num(a: bv8): byte {
    a as int
  }

  function B3(w: bv32): bv8 {
    (w >> 24) as bv8
  }

  function B2(w: bv32): bv8 {
    ((w >> 16) & 0xff) as bv8
  }

  function B1(w: bv32): bv8 {
    ((w >> 8) & 0xff) as bv8
  }

  function B0(w: bv32): bv8 {
    (w & 0xff) as bv8
  }

  function Joined(b3: byte, b2: byte, b1: byte, b0: byte): word {
    0x100_0000 * b3 + 0x1_0000 * b2 + 0x100 * b1 + b0
  }

  function Val(w: bv32): word {
    Joined(Num(B3(w)), Num(B2(w)), Num(B1(w)), Num(B0(w)))
  }

  lemma ZeroByte(a: bv8)
    requires Num(a) == 0
    ensures a == 0
  {
  }

  lemma ZeroFromBytes(x: bv32)
    requires B3(x) == 0 && B2(x) == 0 && B1(x) == 0 && B0(x) == 0
    ensures x == 0
  {
  }

  lemma ZeroIs(x: bv32)
    requires Val(x) == 0
    ensures x == 0
  {
    ZeroByte(B3(x));
    ZeroByte(B2(x));
    ZeroByte(B1(x));
    ZeroByte(B0(x));
    hide B3, B2, B1, B0;
    ZeroFromBytes(x);
  }

  lemma Ends()
    ensures Val(0) == 0 && Val(0xffff_ffff) == 0xffff_ffff
  {
  }

  // ----- addition

  function Plus(x: bv32, y: bv32): bv32 {
    x + y
  }

  lemma NextByte(a: bv8)
    ensures Num(a + 1) == (if a == 0xff then 0 else Num(a) + 1) && (a == 0xff <==> Num(a) == 0xff)
  {
  }

  lemma NextB0(x: bv32)
    ensures B0(Plus(x, 1)) == B0(x) + 1
  {
  }

  lemma NextB1(x: bv32)
    ensures B1(Plus(x, 1)) == if B0(x) == 0xff then B1(x) + 1 else B1(x)
  {
  }

  lemma NextB2(x: bv32)
    ensures B2(Plus(x, 1)) == if B0(x) == 0xff && B1(x) == 0xff then B2(x) + 1 else B2(x)
  {
  }

  lemma NextB3(x: bv32)
    ensures B3(Plus(x, 1)) == if B0(x) == 0xff && B1(x) == 0xff && B2(x) == 0xff then B3(x) + 1 else B3(x)
  {
  }

  lemma NextIs(x: bv32)
    ensures Val(Plus(x, 1)) == if Val(x) == 0xffff_ffff then 0 else Val(x) + 1
  {
    NextB0(x);
    NextB1(x);
    NextB2(x);
    NextB3(x);
    hide Num, B3, B2, B1, B0, Plus;
    NextByte(B3(x));
    NextByte(B2(x));
    NextByte(B1(x));
    NextByte(B0(x));
  }

  lemma Regrouped(x: bv32, y: bv32)
    ensures Plus(Plus(x, y - 1), 1) == Plus(x, y) && Plus(y - 1, 1) == y && Plus(x, 0) == x
  {
  }

  /** Addition of machine words is the one of their numbers, counted up one by one. */
  lemma {:induction false} AddAgrees(x: bv32, y: bv32)
    ensures Add(Val(x), Val(y)) == Val(Plus(x, y))
    decreases Val(y)
  {
    Regrouped(x, y);
    Ends();
    hide Val, Plus;
    if y != 0 {
      NextIs(y - 1);
      if Val(y) == 0 {
        ZeroIs(y);
      }
      AddAgrees(x, y - 1);
      NextIs(Plus(x, y - 1));
    }
  }

  // ----- shifting by one bit

  function Half(x: bv32): bv32 {
    x >> 1
  }

  function Twice(x: bv32): bv32 {
    x << 1
  }

  predicate Odd(x: bv32) {
    x & 1 == 1
  }

  lemma TwiceIsSum(x: bv32)
    ensures Plus(x, x) == Twice(x)
  {
  }

  lemma TwiceIs(x: bv32)
    ensures Val(Twice(x)) == 2 * Val(x) % TWO32
  {
    TwiceIsSum(x);
    hide Val, Plus, Twice;
    AddAgrees(x, x);
  }

  lemma HalfOrNext(x: bv32)
    ensures x == if Odd(x) then Plus(Twice(Half(x)), 1) else Twice(Half(x))
    ensures B3(Half(x)) < 0x80
  {
  }

  lemma Compared(a: bv8)
    ensures a < 0x80 <==> Num(a) < 0x80
  {
  }

  lemma HalfIsSmall(x: bv32)
    ensures Val(Half(x)) < 0x8000_0000
  {
    HalfOrNext(x);
    hide Num, B3, B2, B1, B0, Half;
    Compared(B3(Half(x)));
  }

  /** A machine word shifted to the right, and the bit that leaves it. */
  lemma HalfIs(x: bv32)
    ensures Val(Half(x)) == Val(x) / 2 && Val(x) % 2 == if Odd(x) then 1 else 0
  {
    hide Val, Num, B3, Half, Twice, Plus, Odd;
    var h := Half(x);
    HalfIsSmall(x);
    TwiceIs(h);
    NextIs(Twice(h));
    HalfOrNext(x);
  }

  // ----- conjunction, disjunction and their like, bit by bit

  datatype BitOp = AndOp | OrOp | XorOp

  function Bit(o: BitOp, x: bool, y: bool): bool {
    match o
    case AndOp => x && y
    case OrOp => x || y
    case XorOp => x != y
  }

  function Bits(o: BitOp, n: nat, x: nat, y: nat): nat {
    match o
    case AndOp => BitAnd(n, x, y)
    case OrOp => BitOr(n, x, y)
    case XorOp => BitXor(n, x, y)
  }

  function And32(x: bv32, y: bv32): bv32 {
    x & y
  }

  function Or32(x: bv32, y: bv32): bv32 {
    x | y
  }

  function Xor32(x: bv32, y: bv32): bv32 {
    x ^ y
  }

  function Word(o: BitOp, x: bv32, y: bv32): bv32 {
    match o
    case AndOp => And32(x, y)
    case OrOp => Or32(x, y)
    case XorOp => Xor32(x, y)
  }

  lemma BitsAre(o: BitOp, n: nat, x: nat, y: nat, r: nat)
    requires n > 0 && Bits(o, n - 1, x / 2, y / 2) == r / 2 && r % 2 == if Bit(o, x % 2 == 1, y % 2 == 1) then 1 else 0
    ensures Bits(o, n, x, y) == r
  {
    AndBit(n, x, y);
    OrBit(n, x, y);
    XorBit(n, x, y);
    hide BitAnd, BitOr, BitXor;
    SameBits(Bits(o, n, x, y), r);
  }

  lemma NoBits(o: BitOp, x: nat, y: nat)
    ensures Bits(o, 0, x, y) == 0
  {
  }

  lemma AndHalves(x: bv32, y: bv32, z: bv32, h: bv32, k: bv32)
    requires z == x & y && h == x >> 1 && k == y >> 1
    ensures Half(z) == And32(h, k) && And32(0, 0) == 0
  {
  }

  lemma AndHalf(x: bv32, y: bv32)
    ensures Half(And32(x, y)) == And32(Half(x), Half(y)) && And32(0, 0) == 0
  {
    AndHalves(x, y, And32(x, y), Half(x), Half(y));
  }

  lemma OrHalves(x: bv32, y: bv32, z: bv32, h: bv32, k: bv32)
    requires z == x | y && h == x >> 1 && k == y >> 1
    ensures Half(z) == Or32(h, k) && Or32(0, 0) == 0
  {
  }

  lemma OrHalf(x: bv32, y: bv32)
    ensures Half(Or32(x, y)) == Or32(Half(x), Half(y)) && Or32(0, 0) == 0
  {
    OrHalves(x, y, Or32(x, y), Half(x), Half(y));
  }

  lemma XorHalves(x: bv32, y: bv32, z: bv32, h: bv32, k: bv32)
    requires z == x ^ y && h == x >> 1 && k == y >> 1
    ensures Half(z) == Xor32(h, k) && Xor32(0, 0) == 0
  {
  }

  lemma XorHalf(x: bv32, y: bv32)
    ensures Half(Xor32(x, y)) == Xor32(Half(x), Half(y)) && Xor32(0, 0) == 0
  {
    XorHalves(x, y, Xor32(x, y), Half(x), Half(y));
  }

  lemma AndOdd(x: bv32, y: bv32)
    ensures Odd(And32(x, y)) <==> Odd(x) && Odd(y)
  {
  }

  lemma OrOdd(x: bv32, y: bv32)
    ensures Odd(Or32(x, y)) <==> Odd(x) || Odd(y)
  {
  }

  lemma XorOdd(x: bv32, y: bv32)
    ensures Odd(Xor32(x, y)) <==> Odd(x) != Odd(y)
  {
  }

  lemma BitByBit(o: BitOp, x: bv32, y: bv32)
    ensures Half(Word(o, x, y)) == Word(o, Half(x), Half(y)) && (Odd(Word(o, x, y)) <==> Bit(o, Odd(x), Odd(y)))
    ensures Word(o, 0, 0) == 0
  {
    AndHalf(x, y);
    AndOdd(x, y);
    OrHalf(x, y);
    OrOdd(x, y);
    XorHalf(x, y);
    XorOdd(x, y);
    hide And32, Or32, Xor32, Half, Odd;
  }

  lemma PowerOf(n: nat)
    ensures Pow2(n) == if n == 0 then 1 else 2 * Pow2(n - 1)
  {
  }

  /** An operation on machine words is the one on their numbers. */
  lemma {:induction false} WordsAgree(o: BitOp, n: nat, p: nat, x: bv32, y: bv32)
    requires p == Pow2(n) && Val(x) < p && Val(y) < p
    ensures Bits(o, n, Val(x), Val(y)) == Val(Word(o, x, y))
    decreases n
  {
    PowerOf(n);
    BitByBit(o, x, y);
    hide Val, Bits, Word, Half, Odd, Pow2, Bit;
    if n == 0 {
      ZeroIs(x);
      ZeroIs(y);
      NoBits(o, Val(x), Val(y));
      Ends();
    } else {
      HalfIs(x);
      HalfIs(y);
      HalfIs(Word(o, x, y));
      WordsAgree(o, n - 1, Pow2(n - 1), Half(x), Half(y));
      BitsAre(o, n, Val(x), Val(y), Val(Word(o, x, y)));
    }
  }

  lemma AndAgrees(x: bv32, y: bv32)
    ensures And(Val(x), Val(y)) == Val(And32(x, y))
  {
    Pow32();
    hide BitAnd, Val, And32, Pow2;
    WordsAgree(AndOp, 32, TWO32, x, y);
  }

  lemma OrAgrees(x: bv32, y: bv32)
    ensures Or(Val(x), Val(y)) == Val(Or32(x, y))
  {
    Pow32();
    hide BitOr, Val, Or32, Pow2;
    WordsAgree(OrOp, 32, TWO32, x, y);
  }

  lemma XorAgrees(x: bv32, y: bv32)
    ensures Xor(Val(x), Val(y)) == Val(Xor32(x, y))
  {
    Pow32();
    hide BitXor, Val, Xor32, Pow2;
    WordsAgree(XorOp, 32, TWO32, x, y);
  }

  function Not32(x: bv32): bv32 {
    !x
  }

  lemma NotIsRest(x: bv32)
    ensures Plus(x, Not32(x)) == 0xffff_ffff
  {
  }

  lemma NotAgrees(x: bv32)
    ensures Not(Val(x)) == Val(Not32(x))
  {
    NotIsRest(x);
    NotIs(Val(x));
    Ends();
    hide Val, Not32, Not, Plus;
    AddAgrees(x, Not32(x));
  }

  lemma NotIs(x: word)
    ensures Not(x) == TWO32 - 1 - x
  {
    Pow32();
    hide BitAnd, BitOr, BitXor, BitNot, Pow2;
    BitSums(32, x, 0);
  }

  // ----- shifts

  /** The shift of the definition, bit after bit. */
  function Left(x: bv32, n: nat): bv32
    decreases n
  {
    if n == 0 then x else Left(Twice(x), n - 1)
  }

  function Right(x: bv32, n: nat): bv32
    decreases n
  {
    if n == 0 then x else Right(Half(x), n - 1)
  }

  lemma {:induction false} LeftAgrees(x: bv32, n: nat)
    ensures ShiftLeft(Val(x), n) == Val(Left(x, n))
    decreases n
  {
    if n > 0 {
      TwiceIs(x);
      hide Val, Twice;
      LeftAgrees(Twice(x), n - 1);
    }
  }

  lemma {:induction false} RightAgrees(x: bv32, n: nat)
    ensures ShiftRight(Val(x), n) == Val(Right(x, n))
    decreases n
  {
    if n > 0 {
      HalfIs(x);
      hide Val, Half;
      RightAgrees(Half(x), n - 1);
    }
  }

  function Shl(x: bv32, k: bv8): bv32
    requires k < 32
  {
    x << k
  }

  function Shr(x: bv32, k: bv8): bv32
    requires k < 32
  {
    x >> k
  }

  lemma LessOne(k: bv8)
    requires k > 0
    ensures Num(k - 1) == Num(k) - 1
  {
  }

  lemma LeftTwice(x: bv32, k: bv8)
    requires 0 < k < 32
    ensures (x << 1) << (k - 1) == x << k
  {
  }

  lemma RightTwice(x: bv32, k: bv8)
    requires 0 < k < 32
    ensures (x >> 1) >> (k - 1) == x >> k
  {
  }

  lemma ShlStep(x: bv32, k: bv8)
    requires 0 < k < 32
    ensures Shl(Twice(x), k - 1) == Shl(x, k)
  {
    LeftTwice(x, k);
  }

  lemma ShrStep(x: bv32, k: bv8)
    requires 0 < k < 32
    ensures Shr(Half(x), k - 1) == Shr(x, k)
  {
    RightTwice(x, k);
  }

  lemma NoShift(x: bv32)
    ensures Shl(x, 0) == x && Shr(x, 0) == x && Num(0) == 0
  {
  }

  lemma {:induction false} LeftIs(x: bv32, k: bv8)
    requires k < 32
    ensures Left(x, Num(k)) == Shl(x, k)
    decreases Num(k)
  {
    NoShift(x);
    hide Num, Shl, Twice;
    if k > 0 {
      ShlStep(x, k);
      LessOne(k);
      LeftIs(Twice(x), k - 1);
    }
  }

  lemma {:induction false} RightIs(x: bv32, k: bv8)
    requires k < 32
    ensures Right(x, Num(k)) == Shr(x, k)
    decreases Num(k)
  {
    NoShift(x);
    hide Num, Shr, Half;
    if k > 0 {
      ShrStep(x, k);
      LessOne(k);
      RightIs(Half(x), k - 1);
    }
  }

  /** Rotation to the left by k bits. */
  function Turn(x: bv32, k: bv8): bv32
    requires 0 < k < 32
  {
    (x << k) | (x >> (32 - k))
  }

  lemma RestOf(k: bv8)
    requires 0 < k < 32
    ensures Num(32 - k) == 32 - Num(k) && 0 < 32 - k < 32 && 0 < Num(k) < 32
  {
  }

  lemma TurnIs(x: bv32, k: bv8)
    requires 0 < k < 32 && 0 < 32 - k < 32
    ensures Turn(x, k) == Or32(Shl(x, k), Shr(x, 32 - k))
  {
  }

  lemma RotatedParts(v: word, n: nat, l: bv32, r: bv32)
    requires n <= 32 && ShiftLeft(v, n) == Val(l) && ShiftRight(v, 32 - n) == Val(r)
    ensures RotateLeft(v, n) == Val(Or32(l, r))
  {
    hide Val, Or32, Or, ShiftLeft, ShiftRight;
    OrAgrees(l, r);
  }

  lemma LeftBy(x: bv32, k: bv8, n: nat)
    requires k < 32 && n == Num(k)
    ensures ShiftLeft(Val(x), n) == Val(Shl(x, k))
  {
    hide *;
    LeftIs(x, k);
    LeftAgrees(x, n);
  }

  lemma RightBy(x: bv32, k: bv8, n: nat)
    requires k < 32 && n == Num(k)
    ensures ShiftRight(Val(x), n) == Val(Shr(x, k))
  {
    hide *;
    RightIs(x, k);
    RightAgrees(x, n);
  }

  lemma TurnAgrees(x: bv32, k: bv8)
    requires 0 < k < 32
    ensures Num(k) <= 32 && RotateLeft(Val(x), Num(k)) == Val(Turn(x, k))
  {
    hide *;
    var n := Num(k);
    RestOf(k);
    TurnIs(x, k);
    LeftBy(x, k, n);
    RightBy(x, 32 - k, 32 - n);
    RotatedParts(Val(x), n, Shl(x, k), Shr(x, 32 - k));
  }

  // ----- the functions, constants and distances of the operations

  function FBits(x: bv32, y: bv32, z: bv32): bv32 {
    Or32(And32(x, y), And32(Not32(x), z))
  }

  function GBits(x: bv32, y: bv32, z: bv32): bv32 {
    Or32(And32(x, z), And32(y, Not32(z)))
  }

  function HBits(x: bv32, y: bv32, z: bv32): bv32 {
    Xor32(Xor32(x, y), z)
  }

  function IBits(x: bv32, y: bv32, z: bv32): bv32 {
    Xor32(y, Or32(x, Not32(z)))
  }

  function MixBits(i: nat, x: bv32, y: bv32, z: bv32): bv32 {
    if i < 16 then FBits(x, y, z) else if i < 32 then GBits(x, y, z) else if i < 48 then HBits(x, y, z)
    else IBits(x, y, z)
  }

  function K(i: nat): bv32
    requires i < 64
  {
    if i < 16 then K1(i) else if i < 32 then K2(i - 16) else if i < 48 then K3(i - 32) else K4(i - 48)
  }

  function K1(j: nat): bv32
    requires j < 16
  {
    match j
    case 0 => 0xd76aa478
    case 1 => 0xe8c7b756
    case 2 => 0x242070db
    case 3 => 0xc1bdceee
    case 4 => 0xf57c0faf
    case 5 => 0x4787c62a
    case 6 => 0xa8304613
    case 7 => 0xfd469501
    case 8 => 0x698098d8
    case 9 => 0x8b44f7af
    case 10 => 0xffff5bb1
    case 11 => 0x895cd7be
    case 12 => 0x6b901122
    case 13 => 0xfd987193
    case 14 => 0xa679438e
    case _ => 0x49b40821
  }

  function K2(j: nat): bv32
    requires j < 16
  {
    match j
    case 0 => 0xf61e2562
    case 1 => 0xc040b340
    case 2 => 0x265e5a51
    case 3 => 0xe9b6c7aa
    case 4 => 0xd62f105d
    case 5 => 0x02441453
    case 6 => 0xd8a1e681
    case 7 => 0xe7d3fbc8
    case 8 => 0x21e1cde6
    case 9 => 0xc33707d6
    case 10 => 0xf4d50d87
    case 11 => 0x455a14ed
    case 12 => 0xa9e3e905
    case 13 => 0xfcefa3f8
    case 14 => 0x676f02d9
    case _ => 0x8d2a4c8a
  }

  function K3(j: nat): bv32
    requires j < 16
  {
    match j
    case 0 => 0xfffa3942
    case 1 => 0x8771f681
    case 2 => 0x6d9d6122
    case 3 => 0xfde5380c
    case 4 => 0xa4beea44
    case 5 => 0x4bdecfa9
    case 6 => 0xf6bb4b60
    case 7 => 0xbebfbc70
    case 8 => 0x289b7ec6
    case 9 => 0xeaa127fa
    case 10 => 0xd4ef3085
    case 11 => 0x04881d05
    case 12 => 0xd9d4d039
    case 13 => 0xe6db99e5
    case 14 => 0x1fa27cf8
    case _ => 0xc4ac5665
  }

  function K4(j: nat): bv32
    requires j < 16
  {
    match j
    case 0 => 0xf4292244
    case 1 => 0x432aff97
    case 2 => 0xab9423a7
    case 3 => 0xfc93a039
    case 4 => 0x655b59c3
    case 5 => 0x8f0ccc92
    case 6 => 0xffeff47d
    case 7 => 0x85845dd1
    case 8 => 0x6fa87e4f
    case 9 => 0xfe2ce6e0
    case 10 => 0xa3014314
    case 11 => 0x4e0811a1
    case 12 => 0xf7537e82
    case 13 => 0xbd3af235
    case 14 => 0x2ad7d2bb
    case _ => 0xeb86d391
  }

  function I2(j: nat): (k: nat)
    requires j < 16
    ensures k < 16
  {
    match j
    case 0 => 1
    case 1 => 6
    case 2 => 11
    case 3 => 0
    case 4 => 5
    case 5 => 10
    case 6 => 15
    case 7 => 4
    case 8 => 9
    case 9 => 14
    case 10 => 3
    case 11 => 8
    case 12 => 13
    case 13 => 2
    case 14 => 7
    case _ => 12
  }

  function I3(j: nat): (k: nat)
    requires j < 16
    ensures k < 16
  {
    match j
    case 0 => 5
    case 1 => 8
    case 2 => 11
    case 3 => 14
    case 4 => 1
    case 5 => 4
    case 6 => 7
    case 7 => 10
    case 8 => 13
    case 9 => 0
    case 10 => 3
    case 11 => 6
    case 12 => 9
    case 13 => 12
    case 14 => 15
    case _ => 2
  }

  function I4(j: nat): (k: nat)
    requires j < 16
    ensures k < 16
  {
    match j
    case 0 => 0
    case 1 => 7
    case 2 => 14
    case 3 => 5
    case 4 => 12
    case 5 => 3
    case 6 => 10
    case 7 => 1
    case 8 => 8
    case 9 => 15
    case 10 => 6
    case 11 => 13
    case 12 => 4
    case 13 => 11
    case 14 => 2
    case _ => 9
  }

  /** The word that operation i reads. */
  function Index(i: nat): (k: nat)
    requires i < 64
    ensures k < 16
  {
    if i < 16 then i else if i < 32 then I2(i - 16) else if i < 48 then I3(i - 32) else I4(i - 48)
  }

  function Distance(i: nat): (k: bv8)
    requires i < 64
    ensures 0 < k < 32
  {
    var j := i % 4;
    if i < 16 then (if j == 0 then 7 else if j == 1 then 12 else if j == 2 then 17 else 22)
    else if i < 32 then (if j == 0 then 5 else if j == 1 then 9 else if j == 2 then 14 else 20)
    else if i < 48 then (if j == 0 then 4 else if j == 1 then 11 else if j == 2 then 16 else 23)
    else (if j == 0 then 6 else if j == 1 then 10 else if j == 2 then 15 else 21)
  }

  lemma FAgrees(x: bv32, y: bv32, z: bv32)
    ensures F(Val(x), Val(y), Val(z)) == Val(FBits(x, y, z))
  {
    hide Val, And, Or, Xor, Not, And32, Or32, Xor32, Not32;
    AndAgrees(x, y);
    NotAgrees(x);
    AndAgrees(Not32(x), z);
    OrAgrees(And32(x, y), And32(Not32(x), z));
  }

  lemma GAgrees(x: bv32, y: bv32, z: bv32)
    ensures G(Val(x), Val(y), Val(z)) == Val(GBits(x, y, z))
  {
    hide Val, And, Or, Xor, Not, And32, Or32, Xor32, Not32;
    AndAgrees(x, z);
    NotAgrees(z);
    AndAgrees(y, Not32(z));
    OrAgrees(And32(x, z), And32(y, Not32(z)));
  }

  lemma HAgrees(x: bv32, y: bv32, z: bv32)
    ensures H(Val(x), Val(y), Val(z)) == Val(HBits(x, y, z))
  {
    hide Val, And, Or, Xor, Not, And32, Or32, Xor32, Not32;
    XorAgrees(x, y);
    XorAgrees(Xor32(x, y), z);
  }

  lemma IAgrees(x: bv32, y: bv32, z: bv32)
    ensures I(Val(x), Val(y), Val(z)) == Val(IBits(x, y, z))
  {
    hide Val, And, Or, Xor, Not, And32, Or32, Xor32, Not32;
    NotAgrees(z);
    OrAgrees(x, Not32(z));
    XorAgrees(y, Or32(x, Not32(z)));
  }

  lemma MixAgrees(i: nat, x: bv32, y: bv32, z: bv32)
    requires i < 64
    ensures Mix(i, Val(x), Val(y), Val(z)) == Val(MixBits(i, x, y, z))
  {
    hide Val, F, G, H, I, FBits, GBits, HBits, IBits;
    FAgrees(x, y, z);
    GAgrees(x, y, z);
    HAgrees(x, y, z);
    IAgrees(x, y, z);
  }

  lemma T1Agrees(j: nat)
    requires j < 16
    ensures T1(j) == Val(K1(j))
  {
  }

  lemma T2Agrees(j: nat)
    requires j < 16
    ensures T2(j) == Val(K2(j))
  {
  }

  lemma T3Agrees(j: nat)
    requires j < 16
    ensures T3(j) == Val(K3(j))
  {
  }

  lemma T4Agrees(j: nat)
    requires j < 16
    ensures T4(j) == Val(K4(j))
  {
  }

  lemma TAgrees(i: nat)
    requires i < 64
    ensures T(i) == Val(K(i))
  {
    hide Val, T1, T2, T3, T4, K1, K2, K3, K4;
    if i < 16 {
      T1Agrees(i);
    } else if i < 32 {
      T2Agrees(i - 16);
    } else if i < 48 {
      T3Agrees(i - 32);
    } else {
      T4Agrees(i - 48);
    }
  }

  lemma DistanceAgrees(i: nat)
    requires i < 64
    ensures ShiftOf(i) == Num(Distance(i))
  {
  }

  lemma I2Agrees(j: nat)
    requires j < 16
    ensures (5 * (j + 16) + 1) % 16 == I2(j)
  {
  }

  lemma I3Agrees(j: nat)
    requires j < 16
    ensures (3 * (j + 32) + 5) % 16 == I3(j)
  {
  }

  lemma I4Agrees(j: nat)
    requires j < 16
    ensures 7 * (j + 48) % 16 == I4(j)
  {
  }

  lemma IndexAgrees(i: nat)
    requires i < 64
    ensures WordOf(i) == Index(i)
  {
    hide I2, I3, I4;
    if 16 <= i < 32 {
      I2Agrees(i - 16);
    } else if 32 <= i < 48 {
      I3Agrees(i - 32);
    } else if 48 <= i {
      I4Agrees(i - 48);
    }
  }

  // ----- operations, rows and blocks

  function OpBits(i: nat, a: bv32, b: bv32, c: bv32, d: bv32, w: bv32): bv32
    requires i < 64
  {
    Plus(b, Turn(Plus(Plus(Plus(a, MixBits(i, b, c, d)), w), K(i)), Distance(i)))
  }

  /** The machine words w stand for the words x. */
  predicate Stand(w: seq<bv32>, x: seq<word>) {
    |w| == 16 && |x| == 16 && forall k | 0 <= k < 16 :: Val(w[k]) == x[k]
  }

  lemma OpAgrees(i: nat, a: bv32, b: bv32, c: bv32, d: bv32, w: seq<bv32>, x: seq<word>)
    requires i < 64 && Stand(w, x)
    ensures Op(i, Val(a), Val(b), Val(c), Val(d), x) == Val(OpBits(i, a, b, c, d, w[Index(i)]))
  {
    hide Val, Mix, MixBits, T, K, WordOf, Index, ShiftOf, Distance, Add, Plus, RotateLeft, Turn, Num;
    var f, xk := MixBits(i, b, c, d), w[Index(i)];
    var s := Plus(Plus(Plus(a, f), xk), K(i));
    IndexAgrees(i);
    MixAgrees(i, b, c, d);
    TAgrees(i);
    DistanceAgrees(i);
    AddAgrees(a, f);
    AddAgrees(Plus(a, f), xk);
    AddAgrees(Plus(Plus(a, f), xk), K(i));
    TurnAgrees(s, Distance(i));
    AddAgrees(b, Turn(s, Distance(i)));
  }

  datatype Regs = Regs(a: bv32, b: bv32, c: bv32, d: bv32)

  function Words(s: Regs): Hash {
    Hash(Val(s.a), Val(s.b), Val(s.c), Val(s.d))
  }

  function RowBits(s: Regs, w: seq<bv32>, r: nat): Regs
    requires r < 16 && |w| == 16
  {
    var a := OpBits(4 * r, s.a, s.b, s.c, s.d, w[Index(4 * r)]);
    var d := OpBits(4 * r + 1, s.d, a, s.b, s.c, w[Index(4 * r + 1)]);
    var c := OpBits(4 * r + 2, s.c, d, a, s.b, w[Index(4 * r + 2)]);
    var b := OpBits(4 * r + 3, s.b, c, d, a, w[Index(4 * r + 3)]);
    Regs(a, b, c, d)
  }

  function RowsBits(s: Regs, w: seq<bv32>, r: nat): Regs
    requires r <= 16 && |w| == 16
  {
    if r == 0 then s else RowBits(RowsBits(s, w, r - 1), w, r - 1)
  }

  lemma RowAgrees(s: Regs, w: seq<bv32>, x: seq<word>, r: nat)
    requires r < 16 && Stand(w, x)
    ensures Row(Words(s), x, r) == Words(RowBits(s, w, r))
  {
    hide Val, Op, OpBits, Index;
    var n := RowBits(s, w, r);
    OpAgrees(4 * r, s.a, s.b, s.c, s.d, w, x);
    OpAgrees(4 * r + 1, s.d, n.a, s.b, s.c, w, x);
    OpAgrees(4 * r + 2, s.c, n.d, n.a, s.b, w, x);
    OpAgrees(4 * r + 3, s.b, n.c, n.d, n.a, w, x);
  }

  lemma {:induction false} RowsAgree(s: Regs, w: seq<bv32>, x: seq<word>, r: nat)
    requires r <= 16 && Stand(w, x)
    ensures Rows(Words(s), x, r) == Words(RowsBits(s, w, r))
  {
    hide Row, RowBits, Words;
    if r > 0 {
      RowsAgree(s, w, x, r - 1);
      RowAgrees(RowsBits(s, w, r - 1), w, x, r - 1);
    }
  }

  // ----- bytes, low-order byte first

  function WordBits(b0: bv8, b1: bv8, b2: bv8, b3: bv8): bv32 {
    (b0 as bv32) | ((b1 as bv32) << 8) | ((b2 as bv32) << 16) | ((b3 as bv32) << 24)
  }

  lemma WordBitsAre(b0: bv8, b1: bv8, b2: bv8, b3: bv8)
    ensures Val(WordBits(b0, b1, b2, b3)) == WordOfBytes(Num(b0), Num(b1), Num(b2), Num(b3))
  {
    hide Num;
    BytesOfBits(b0, b1, b2, b3);
  }

  lemma BytesOfBits(b0: bv8, b1: bv8, b2: bv8, b3: bv8)
    ensures B0(WordBits(b0, b1, b2, b3)) == b0 && B1(WordBits(b0, b1, b2, b3)) == b1
    ensures B2(WordBits(b0, b1, b2, b3)) == b2 && B3(WordBits(b0, b1, b2, b3)) == b3
  {
  }

  /** The numbers of a string of bytes. */
  function Nums(p: seq<bv8>): (m: seq<byte>)
    ensures |m| == |p|
  {
    seq(|p|, i requires 0 <= i < |p| => Num(p[i]))
  }

  function BlockBits(p: seq<bv8>): (w: seq<bv32>)
    requires |p| == 64
    ensures |w| == 16
  {
    seq(16, j requires 0 <= j < 16 => WordBits(p[4 * j], p[4 * j + 1], p[4 * j + 2], p[4 * j + 3]))
  }

  lemma BlockStands(p: seq<bv8>)
    requires |p| == 64
    ensures Stand(BlockBits(p), BlockWords(Nums(p)))
  {
    hide Num, Val, WordBits, WordOfBytes;
    forall k | 0 <= k < 16 ensures Val(BlockBits(p)[k]) == BlockWords(Nums(p))[k] {
      WordBitsAre(p[4 * k], p[4 * k + 1], p[4 * k + 2], p[4 * k + 3]);
    }
  }

  function CompressBits(s: Regs, p: seq<bv8>): Regs
    requires |p| == 64
  {
    var n := RowsBits(s, BlockBits(p), 16);
    Regs(Plus(s.a, n.a), Plus(s.b, n.b), Plus(s.c, n.c), Plus(s.d, n.d))
  }

  /** The compression of MD5 is this computation on machine words, for all blocks. */
  lemma CompressAgrees(s: Regs, p: seq<bv8>)
    requires |p| == 64
    ensures Compress(Words(s), Nums(p)) == Words(CompressBits(s, p))
  {
    var w, x := BlockBits(p), BlockWords(Nums(p));
    var n := RowsBits(s, w, 16);
    hide Val, Rows, RowsBits, BlockBits, BlockWords, Nums, Add, Plus, Stand;
    BlockStands(p);
    RowsAgree(s, w, x, 16);
    AddAgrees(s.a, n.a);
    AddAgrees(s.b, n.b);
    AddAgrees(s.c, n.c);
    AddAgrees(s.d, n.d);
  }
}
