/** Unsigned 32-bit words: addition that wraps around, bitwise operations bit by bit, and rotation. */
module Word32 {

  const TWO32 := 0x1_0000_0000

  type word = w: int | 0 <= w < TWO32

  function Pow2(n: nat): (p: nat)
    ensures p > 0
  {
    if n == 0 then 1 else 2 * Pow2(n - 1)
  }

  function Add(x: word, y: word): word {
    (x + y) % TWO32
  }

  function BitAnd(n: nat, x: nat, y: nat): (r: nat)
    ensures r < Pow2(n)
  {
    if n == 0 then 0 else (if x % 2 == 1 && y % 2 == 1 then 1 else 0) + 2 * BitAnd(n - 1, x / 2, y / 2)
  }

  function BitOr(n: nat, x: nat, y: nat): (r: nat)
    ensures r < Pow2(n)
  {
    if n == 0 then 0 else (if x % 2 == 1 || y % 2 == 1 then 1 else 0) + 2 * BitOr(n - 1, x / 2, y / 2)
  }

  function BitXor(n: nat, x: nat, y: nat): (r: nat)
    ensures r < Pow2(n)
  {
    if n == 0 then 0 else (if x % 2 != y % 2 then 1 else 0) + 2 * BitXor(n - 1, x / 2, y / 2)
  }

  function BitNot(n: nat, x: nat): (r: nat)
    ensures r < Pow2(n)
  {
    if n == 0 then 0 else (1 - x % 2) + 2 * BitNot(n - 1, x / 2)
  }

  lemma Pow32()
    ensures Pow2(32) == TWO32
  {
    assert Pow2(8) == 0x100;
    assert Pow2(16) == 0x1_0000;
    assert Pow2(24) == 0x100_0000;
  }

  function And(x: word, y: word): word {
    Pow32();
    BitAnd(32, x, y)
  }

  function Or(x: word, y: word): word {
    Pow32();
    BitOr(32, x, y)
  }

  function Xor(x: word, y: word): word {
    Pow32();
    BitXor(32, x, y)
  }

  function Not(x: word): word {
    Pow32();
    BitNot(32, x)
  }

  /** Bits shifted out at either end are lost. */
  function ShiftLeft(x: word, s: nat): word
    decreases s
  {
    if s == 0 then x else ShiftLeft(2 * x % TWO32, s - 1)
  }

  function ShiftRight(x: word, s: nat): word
    decreases s
  {
    if s == 0 then x else ShiftRight(x / 2, s - 1)
  }

  function RotateLeft(x: word, s: nat): word
    requires s <= 32
  {
    Or(ShiftLeft(x, s), ShiftRight(x, 32 - s))
  }

  // ----- laws

  lemma AddAssociates(x: word, y: word, z: word)
    ensures Add(x, Add(y, z)) == Add(Add(x, y), z)
  {
    AddMod(x, y + z);
    AddMod(z, x + y);
  }

  lemma AddMod(x: int, y: int)
    ensures (x + y % TWO32) % TWO32 == (x + y) % TWO32
  {
  }

  lemma AddCommutes(x: word, y: word)
    ensures Add(x, y) == Add(y, x)
  {
  }

  lemma AndBit(n: nat, x: nat, y: nat)
    requires n > 0
    ensures BitAnd(n, x, y) / 2 == BitAnd(n - 1, x / 2, y / 2)
    ensures BitAnd(n, x, y) % 2 == if x % 2 == 1 && y % 2 == 1 then 1 else 0
  {
  }

  lemma OrBit(n: nat, x: nat, y: nat)
    requires n > 0
    ensures BitOr(n, x, y) / 2 == BitOr(n - 1, x / 2, y / 2)
    ensures BitOr(n, x, y) % 2 == if x % 2 == 1 || y % 2 == 1 then 1 else 0
  {
  }

  lemma XorBit(n: nat, x: nat, y: nat)
    requires n > 0
    ensures BitXor(n, x, y) / 2 == BitXor(n - 1, x / 2, y / 2)
    ensures BitXor(n, x, y) % 2 == if x % 2 != y % 2 then 1 else 0
  {
  }

  lemma NotBit(n: nat, x: nat)
    requires n > 0
    ensures BitNot(n, x) / 2 == BitNot(n - 1, x / 2)
    ensures BitNot(n, x) % 2 == 1 - x % 2
  {
  }

  lemma SameBits(x: nat, y: nat)
    requires x / 2 == y / 2 && x % 2 == y % 2
    ensures x == y
  {
  }

  /** The optimized form of "if x then y else z", on n bits. */
  lemma {:induction false} BitChoose(n: nat, x: nat, y: nat, z: nat)
    ensures BitXor(n, z, BitAnd(n, x, BitXor(n, y, z))) == BitOr(n, BitAnd(n, x, y), BitAnd(n, BitNot(n, x), z))
  {
    if n > 0 {
      BitChoose(n - 1, x / 2, y / 2, z / 2);
      hide BitAnd, BitOr, BitXor, BitNot;
      XorBit(n, y, z);
      AndBit(n, x, BitXor(n, y, z));
      XorBit(n, z, BitAnd(n, x, BitXor(n, y, z)));
      NotBit(n, x);
      AndBit(n, x, y);
      AndBit(n, BitNot(n, x), z);
      OrBit(n, BitAnd(n, x, y), BitAnd(n, BitNot(n, x), z));
      SameBits(BitXor(n, z, BitAnd(n, x, BitXor(n, y, z))), BitOr(n, BitAnd(n, x, y), BitAnd(n, BitNot(n, x), z)));
    }
  }

  lemma Choose(x: word, y: word, z: word)
    ensures Xor(z, And(x, Xor(y, z))) == Or(And(x, y), And(Not(x), z))
  {
    BitChoose(32, x, y, z);
  }

  lemma {:induction false} BitAndCommutes(n: nat, x: nat, y: nat)
    ensures BitAnd(n, x, y) == BitAnd(n, y, x)
  {
    if n > 0 {
      BitAndCommutes(n - 1, x / 2, y / 2);
    }
  }

  lemma AndCommutes(x: word, y: word)
    ensures And(x, y) == And(y, x)
  {
    BitAndCommutes(32, x, y);
  }

  /** The k lowest bits of a number. */
  function Low(x: nat, k: nat): nat {
    x % Pow2(k)
  }

  /** Masking an n-bit number with 2^k - 1 leaves its remainder modulo 2^k. */
  lemma {:induction false} MaskIsLow(n: nat, x: nat, k: nat)
    requires x < Pow2(n)
    ensures BitAnd(n, x, Pow2(k) - 1) == Low(x, k)
  {
    if k == 0 {
      AndZero(n, x);
    } else if n > 0 {
      hide BitAnd, Low;
      MaskIsLow(n - 1, x / 2, k - 1);
      MaskStep(n, x, k);
    }
  }

  lemma MaskStep(n: nat, x: nat, k: nat)
    requires n > 0 && k > 0
    requires BitAnd(n - 1, x / 2, Pow2(k - 1) - 1) == Low(x / 2, k - 1)
    ensures BitAnd(n, x, Pow2(k) - 1) == Low(x, k)
  {
    hide BitAnd;
    MaskHalf(n, x, Pow2(k - 1));
  }

  lemma MaskHalf(n: nat, x: nat, p: nat)
    requires n > 0 && p > 0
    requires BitAnd(n - 1, x / 2, p - 1) == x / 2 % p
    ensures BitAnd(n, x, 2 * p - 1) == x % (2 * p)
  {
    hide *;
    assert (2 * p - 1) / 2 == p - 1 && (2 * p - 1) % 2 == 1;
    AndBit(n, x, 2 * p - 1);
    ModHalf(x, p);
    SameBits(BitAnd(n, x, 2 * p - 1), x % (2 * p));
  }

  lemma {:induction false} AndZero(n: nat, x: nat)
    ensures BitAnd(n, x, 0) == 0
  {
    if n > 0 {
      AndZero(n - 1, x / 2);
    }
  }

  lemma ModHalf(x: nat, p: nat)
    requires p > 0
    ensures x % (2 * p) / 2 == x / 2 % p && x % (2 * p) % 2 == x % 2
  {
    var q, r := x / 2 / p, x / 2 % p;
    assert x / 2 == p * q + r;
    assert x == (2 * p) * q + (2 * r + x % 2);
    ModIs(x, 2 * p, q, 2 * r + x % 2);
  }

  lemma Multiples(d: nat, a: int, b: int)
    requires a <= b
    ensures d * a <= d * b
  {
  }

  lemma ModIs(x: nat, d: nat, q: nat, r: nat)
    requires d > 0 && r < d && x == d * q + r
    ensures x % d == r
  {
    var q', r' := x / d, x % d;
    assert x == d * q' + r';
    if q' < q {
      Multiples(d, q' + 1, q);
    } else if q' > q {
      Multiples(d, q + 1, q');
    }
  }

  // ----- what the operations compute

  lemma {:induction false} OrZero(n: nat, a: nat)
    requires a < Pow2(n)
    ensures BitOr(n, a, 0) == a
  {
    if n > 0 {
      OrZero(n - 1, a / 2);
    }
  }

  /** Or of numbers without a common bit is their sum. */
  lemma {:induction false} OrIsSum(n: nat, k: nat, a: nat, b: nat)
    requires a % Pow2(k) == 0 && b < Pow2(k) && a + b < Pow2(n)
    ensures BitOr(n, a, b) == a + b
    decreases k
  {
    if k == 0 {
      OrZero(n, a);
    } else if n > 0 {
      var p := Pow2(k - 1);
      ModHalf(a, p);
      OrIsSum(n - 1, k - 1, a / 2, b / 2);
      OrBit(n, a, b);
      hide BitOr;
      assert a % 2 == 0;
      SameBits(BitOr(n, a, b), a + b);
    }
  }

  lemma {:induction false} Pow2Sum(j: nat, k: nat)
    ensures Pow2(j + k) == Pow2(j) * Pow2(k)
  {
    if j > 0 {
      Pow2Sum(j - 1, k);
      Associates(2, Pow2(j - 1), Pow2(k));
    }
  }

  lemma Associates(a: nat, b: nat, c: nat)
    ensures a * b * c == a * (b * c)
  {
  }

  /** Shifting left by s multiplies by 2^s and drops what leaves the word. */
  lemma {:induction false} ShiftLeftIs(x: word, s: nat)
    ensures ShiftLeft(x, s) == x * Pow2(s) % TWO32
    decreases s
  {
    if s > 0 {
      ShiftLeftIs(2 * x % TWO32, s - 1);
      Remainders(2 * x, Pow2(s - 1));
      Associates(2, x, Pow2(s - 1));
      Associates(x, 2, Pow2(s - 1));
    }
  }

  lemma Remainders(y: nat, k: nat)
    ensures y % TWO32 * k % TWO32 == y * k % TWO32
  {
    var q, r := y / TWO32, y % TWO32;
    Distributes(TWO32, q, r, k);
    ModIs(y * k, TWO32, q * k + r * k / TWO32, r * k % TWO32);
  }

  lemma Distributes(d: nat, q: nat, r: nat, k: nat)
    ensures (d * q + r) * k == d * (q * k) + r * k
  {
  }

  /** Shifting right by s divides by 2^s. */
  lemma {:induction false} ShiftRightIs(x: word, s: nat)
    ensures ShiftRight(x, s) == x / Pow2(s)
    decreases s
  {
    if s > 0 {
      ShiftRightIs(x / 2, s - 1);
      DivTwice(x, Pow2(s - 1));
    }
  }

  lemma DivTwice(x: nat, p: nat)
    requires p > 0
    ensures x / (2 * p) == x / 2 / p
  {
    var q, r := x / 2 / p, x / 2 % p;
    assert x / 2 == p * q + r;
    assert x == 2 * (p * q) + (2 * r + x % 2);
    Associates(2, p, q);
    DivIs(x, 2 * p, q, 2 * r + x % 2);
  }

  lemma DivIs(x: nat, d: nat, q: nat, r: nat)
    requires d > 0 && r < d && x == d * q + r
    ensures x / d == q
  {
    ModIs(x, d, q, r);
    var q' := x / d;
    assert x == d * q' + x % d;
    if q' < q {
      Multiples(d, q' + 1, q);
    } else if q' > q {
      Multiples(d, q + 1, q');
    }
  }

  /** What rotating to the left computes: the bits that leave at the top come in at the bottom. */
  lemma RotateLeftIs(x: word, s: nat)
    requires 0 < s < 32
    ensures RotateLeft(x, s) == x * Pow2(s) % TWO32 + x / Pow2(32 - s)
  {
    var p, q := Pow2(s), Pow2(32 - s);
    ShiftLeftIs(x, s);
    ShiftRightIs(x, 32 - s);
    Pow32();
    Pow2Sum(s, 32 - s);
    Halves(x, p, q);
    hide ShiftLeft, ShiftRight, Pow2, BitOr;
    OrIsSum(32, s, x * p % TWO32, x / q);
  }

  /** x * p modulo p * q is p times what is below q, and x / q is below p. */
  lemma Halves(x: word, p: nat, q: nat)
    requires p > 0 && q > 0 && p * q == TWO32
    ensures x * p % TWO32 % p == 0 && x / q < p && x * p % TWO32 + x / q < TWO32
  {
    var u, v := x / q, x % q;
    assert x == q * u + v;
    Distributes(q, u, v, p);
    assert q * (u * p) == TWO32 * u by {
      Swapped(q, u, p);
    }
    if u >= p {
      Multiples(q, p, u);
      Swapped(q, 1, p);
    }
    Below(v, p, q);
    ModIs(x * p, TWO32, u, v * p);
    ModIs(v * p, p, v, 0);
  }

  lemma Swapped(q: nat, u: nat, p: nat)
    ensures q * (u * p) == p * q * u
  {
  }

  lemma Below(v: nat, p: nat, q: nat)
    requires v < q
    ensures v * p + p <= p * q
  {
    Multiples(p, v + 1, q);
  }

  /** The other operations by arithmetic and conjunction. */
  lemma {:induction false} BitSums(n: nat, x: nat, y: nat)
    requires x < Pow2(n) && y < Pow2(n)
    ensures BitOr(n, x, y) == x + y - BitAnd(n, x, y)
    ensures BitXor(n, x, y) == x + y - 2 * BitAnd(n, x, y)
    ensures BitNot(n, x) == Pow2(n) - 1 - x
  {
    if n > 0 {
      BitSums(n - 1, x / 2, y / 2);
    }
  }
}
