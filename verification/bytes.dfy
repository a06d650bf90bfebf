/** Bytes and the few operations on byte strings that several components share. */
module Bytes {

  type byte = b: int | 0 <= b < 256

  const NUL: byte := 0
  const LF: byte := 10
  const CR: byte := 13
  const CRLF: seq<byte> := [CR, LF]

  /** The concatenation of a sequence of pieces. */
  function Flatten<T>(pieces: seq<seq<T>>): seq<T> {
    if pieces == [] then [] else pieces[0] + Flatten(pieces[1..])
  }

  lemma {:induction false} FlattenAppend<T>(a: seq<seq<T>>, b: seq<seq<T>>)
    ensures Flatten(a + b) == Flatten(a) + Flatten(b)
  {
    if a == [] {
      assert a + b == b;
    } else {
      assert (a + b)[1..] == a[1..] + b;
      FlattenAppend(a[1..], b);
    }
  }

  /** Decimal notation, without leading zeros. */
  function Decimal(n: nat): (d: seq<byte>)
    ensures |d| > 0
    ensures forall i :: 0 <= i < |d| ==> 48 <= d[i] < 58
  {
    if n < 10 then [48 + n] else Decimal(n / 10) + [48 + n % 10]
  }

  function DecimalInt(n: int): seq<byte> {
    if n < 0 then [45] + Decimal(-n) else Decimal(n)
  }

  /** The length of the C string at the start of some memory. */
  function StrLen(mem: seq<byte>): (n: nat)
    ensures n <= |mem| && (n < |mem| ==> mem[n] == NUL) && NUL !in mem[..n]
  {
    if mem == [] || mem[0] == NUL then 0
    else
      var n := StrLen(mem[1..]);
      assert mem[..n + 1] == [mem[0]] + mem[1..][..n];
      n + 1
  }

  /** The C string ends at the first NUL. */
  lemma {:induction false} StrLenIs(mem: seq<byte>, n: nat)
    requires n <= |mem| && 0 !in mem[..n] && (n < |mem| ==> mem[n] == 0)
    ensures StrLen(mem) == n
  {
    if n > 0 {
      assert mem[..n][0] == mem[0] && mem[1..][..n - 1] == mem[..n][1..];
      StrLenIs(mem[1..], n - 1);
    }
  }

  function Zeros(n: nat): (r: seq<byte>)
    ensures |r| == n && forall i :: 0 <= i < n ==> r[i] == NUL
  {
    seq(n, i => NUL)
  }

  /** What is left after the first n bytes, if there are so many. */
  function Skip(s: seq<byte>, n: nat): seq<byte> {
    if n >= |s| then [] else s[n..]
  }
}
