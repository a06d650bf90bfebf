/** The signed and unsigned integers of a 64-bit machine, in two's complement. */
module MachineInts {

  const TWO31 := 0x8000_0000
  const TWO63 := 0x8000_0000_0000_0000
  const TWO64 := 0x1_0000_0000_0000_0000

  type int32 = x: int | -TWO31 <= x < TWO31

  /** The value of an int after wrap-around, or after a conversion from a wider type. */
  function Wrap32(n: int): (w: int32)
    ensures w == n <==> -TWO31 <= n < TWO31
  {
    (n + TWO31) % (2 * TWO31) - TWO31
  }

  /** The value of a long, a long long or an off_t after wrap-around. */
  function Wrap64(n: int): (w: int)
    ensures -TWO63 <= w < TWO63
    ensures w == n <==> -TWO63 <= n < TWO63
  {
    (n + TWO63) % TWO64 - TWO63
  }

  /** A signed number as an unsigned 64-bit one. */
  function SizeT(n: int): (u: nat)
    ensures u < TWO64
    ensures u == n <==> 0 <= n < TWO64
  {
    n % TWO64
  }

  lemma Wrap64Congruent(n: int, k: int)
    ensures Wrap64(n + TWO64 * k) == Wrap64(n)
  {
    var q := (n + TWO63) / TWO64;
    assert n + TWO64 * k + TWO63 == (n + TWO63) % TWO64 + TWO64 * (q + k);
    Remainder((n + TWO63) % TWO64, q + k);
  }

  /** A conversion to int loses a multiple of 2^32. */
  lemma Wrap32Loses(n: int)
    ensures (n - Wrap32(n)) % (2 * TWO31) == 0
  {
    var q := (n + TWO31) / (2 * TWO31);
    assert n - Wrap32(n) == 2 * TWO31 * q;
  }

  lemma Wrap32Turns(n: int, q: int)
    ensures Wrap32(n + 2 * TWO31 * q) == Wrap32(n)
  {
    Wrap32Loses(n);
    Wrap32Loses(n + 2 * TWO31 * q);
  }

  lemma Wrap32Sum(m: int, n: int)
    ensures Wrap32(Wrap32(m) + n) == Wrap32(m + n)
  {
  }

  function Abs(n: int): nat {
    if n < 0 then -n else n
  }

  lemma Wrap32Below(n: nat)
    ensures Wrap32(n) <= n
    ensures TWO31 <= n < 2 * TWO31 ==> Wrap32(n) < 0
    ensures n >= TWO31 ==> n - Wrap32(n) >= 2 * TWO31
  {
    Wrap32Loses(n);
  }

  /** Division of ints rounds towards zero. */
  function Quotient(n: int, d: int): int
    requires d > 0
  {
    if n >= 0 then n / d else -(-n / d)
  }

  lemma Remainder(r: int, q: int)
    requires 0 <= r < TWO64
    ensures (r + TWO64 * q) % TWO64 == r
  {
  }

  /** Wrapping in every step of a decimal number is wrapping once at the end. */
  lemma WrapStep(x: int, d: int)
    ensures Wrap64(Wrap64(10 * Wrap64(x)) + d) == Wrap64(10 * x + d)
  {
    var k := Turns(x);
    var l := Turns(10 * Wrap64(x));
    hide Wrap64;
    assert Wrap64(10 * Wrap64(x)) + d == 10 * x + d + TWO64 * (10 * k + l);
    Wrap64Congruent(10 * x + d, 10 * k + l);
  }

  lemma WrapNegated(x: int)
    ensures Wrap64(-Wrap64(x)) == Wrap64(-x)
  {
    var k := Turns(x);
    hide Wrap64;
    assert -Wrap64(x) == -x + TWO64 * -k;
    Wrap64Congruent(-x, -k);
  }

  lemma Turns(n: int) returns (k: int)
    ensures Wrap64(n) == n + TWO64 * k
  {
    k := -((n + TWO63) / TWO64);
  }
}
