/**
 MD5 as sections 3.1 to 3.5 of RFC 1321 define it: padding, the length, and rows of four operations with
 rotating registers, which fold the 16-word blocks of the message into four words.
 */
module MD5Spec {
  import opened Bytes
  import opened Word32
  import opened MachineInts

  datatype Hash = Hash(a: word, b: word, c: word, d: word)

  const INIT := Hash(0x67452301, 0xefcdab89, 0x98badcfe, 0x10325476)

  // ----- section 3.4: the functions, and the table of sines

  function F(x: word, y: word, z: word): word {
    Or(And(x, y), And(Not(x), z))
  }

  function G(x: word, y: word, z: word): word {
    Or(And(x, z), And(y, Not(z)))
  }

  function H(x: word, y: word, z: word): word {
    Xor(Xor(x, y), z)
  }

  function I(x: word, y: word, z: word): word {
    Xor(y, Or(x, Not(z)))
  }

  /** The function of operation i, counted from 0. */
  function Mix(i: nat, x: word, y: word, z: word): word
    requires i < 64
  {
    if i < 16 then F(x, y, z) else if i < 32 then G(x, y, z) else if i < 48 then H(x, y, z) else I(x, y, z)
  }

  /** The integer part of 4294967296 times abs(sin(i + 1)), by rounds. */
  function T(i: nat): word
    requires i < 64
  {
    if i < 16 then T1(i) else if i < 32 then T2(i - 16) else if i < 48 then T3(i - 32) else T4(i - 48)
  }

  function T1(j: nat): word
    requires j < 16
  {
    match j
    case 0 => 0xd76aa478
    case 1 => 0xe8c7b756
    case 2 => 0x242070db
    case 3 => 0xc1bdceee
    case 4 => 0xf57c0faf
    case 5 => 0x4787c62a
    case 6 => 0xa8304613
    case 7 => 0xfd469501
    case 8 => 0x698098d8
    case 9 => 0x8b44f7af
    case 10 => 0xffff5bb1
    case 11 => 0x895cd7be
    case 12 => 0x6b901122
    case 13 => 0xfd987193
    case 14 => 0xa679438e
    case _ => 0x49b40821
  }

  function T2(j: nat): word
    requires j < 16
  {
    match j
    case 0 => 0xf61e2562
    case 1 => 0xc040b340
    case 2 => 0x265e5a51
    case 3 => 0xe9b6c7aa
    case 4 => 0xd62f105d
    case 5 => 0x02441453
    case 6 => 0xd8a1e681
    case 7 => 0xe7d3fbc8
    case 8 => 0x21e1cde6
    case 9 => 0xc33707d6
    case 10 => 0xf4d50d87
    case 11 => 0x455a14ed
    case 12 => 0xa9e3e905
    case 13 => 0xfcefa3f8
    case 14 => 0x676f02d9
    case _ => 0x8d2a4c8a
  }

  function T3(j: nat): word
    requires j < 16
  {
    match j
    case 0 => 0xfffa3942
    case 1 => 0x8771f681
    case 2 => 0x6d9d6122
    case 3 => 0xfde5380c
    case 4 => 0xa4beea44
    case 5 => 0x4bdecfa9
    case 6 => 0xf6bb4b60
    case 7 => 0xbebfbc70
    case 8 => 0x289b7ec6
    case 9 => 0xeaa127fa
    case 10 => 0xd4ef3085
    case 11 => 0x04881d05
    case 12 => 0xd9d4d039
    case 13 => 0xe6db99e5
    case 14 => 0x1fa27cf8
    case _ => 0xc4ac5665
  }

  function T4(j: nat): word
    requires j < 16
  {
    match j
    case 0 => 0xf4292244
    case 1 => 0x432aff97
    case 2 => 0xab9423a7
    case 3 => 0xfc93a039
    case 4 => 0x655b59c3
    case 5 => 0x8f0ccc92
    case 6 => 0xffeff47d
    case 7 => 0x85845dd1
    case 8 => 0x6fa87e4f
    case 9 => 0xfe2ce6e0
    case 10 => 0xa3014314
    case 11 => 0x4e0811a1
    case 12 => 0xf7537e82
    case 13 => 0xbd3af235
    case 14 => 0x2ad7d2bb
    case _ => 0xeb86d391
  }

  /** The word that operation i reads. */
  function WordOf(i: nat): (k: nat)
    requires i < 64
    ensures k < 16
  {
    if i < 16 then i else if i < 32 then (5 * i + 1) % 16 else if i < 48 then (3 * i + 5) % 16 else 7 * i % 16
  }

  /** The distance that operation i rotates by. */
  function ShiftOf(i: nat): (s: nat)
    requires i < 64
    ensures 0 < s < 32
  {
    if i < 16 then 7 + 5 * (i % 4)
    else if i < 32 then [5, 9, 14, 20][i % 4]
    else if i < 48 then [4, 11, 16, 23][i % 4]
    else [6, 10, 15, 21][i % 4]
  }

  /** [abcd k s i]: a = b + ((a + f(b, c, d) + X[k] + T(i)) <<< s) */
  function Op(i: nat, a: word, b: word, c: word, d: word, x: seq<word>): word
    requires i < 64 && |x| == 16
  {
    Add(b, RotateLeft(Add(Add(Add(a, Mix(i, b, c, d)), x[WordOf(i)]), T(i)), ShiftOf(i)))
  }

  /** One row of four operations: [ABCD ..] [DABC ..] [CDAB ..] [BCDA ..]. */
  function Row(h: Hash, x: seq<word>, r: nat): Hash
    requires r < 16 && |x| == 16
  {
    var a := Op(4 * r, h.a, h.b, h.c, h.d, x);
    var d := Op(4 * r + 1, h.d, a, h.b, h.c, x);
    var c := Op(4 * r + 2, h.c, d, a, h.b, x);
    var b := Op(4 * r + 3, h.b, c, d, a, x);
    Hash(a, b, c, d)
  }

  /** The first r rows. */
  function Rows(h: Hash, x: seq<word>, r: nat): Hash
    requires r <= 16 && |x| == 16
  {
    if r == 0 then h else Row(Rows(h, x, r - 1), x, r - 1)
  }

  function Sum(h: Hash, g: Hash): Hash {
    Hash(Add(h.a, g.a), Add(h.b, g.b), Add(h.c, g.c), Add(h.d, g.d))
  }

  // ----- words and bytes, low-order byte first

  function WordOfBytes(b0: byte, b1: byte, b2: byte, b3: byte): word {
    b0 as int + 0x100 * b1 as int + 0x1_0000 * b2 as int + 0x100_0000 * b3 as int
  }

  function BlockWords(block: seq<byte>): (x: seq<word>)
    requires |block| == 64
    ensures |x| == 16
  {
    seq(16, j requires 0 <= j < 16 => WordOfBytes(block[4 * j], block[4 * j + 1], block[4 * j + 2], block[4 * j + 3]))
  }

  function LowBytes(n: nat, count: nat): (r: seq<byte>)
    ensures |r| == count
  {
    if count == 0 then [] else [n % 256] + LowBytes(n / 256, count - 1)
  }

  function WordBytes(w: word): (r: seq<byte>)
    ensures |r| == 4
  {
    LowBytes(w, 4)
  }

  function Compress(h: Hash, block: seq<byte>): Hash
    requires |block| == 64
  {
    Sum(h, Rows(h, BlockWords(block), 16))
  }

  /** The hash of whole blocks. */
  function HashOf(m: seq<byte>): Hash
    requires |m| % 64 == 0
    decreases |m|
  {
    if m == [] then INIT else Compress(HashOf(m[..|m| - 64]), m[|m| - 64..])
  }

  // ----- sections 3.1, 3.2 and 3.5

  /** The number of zero bytes that follow the byte 0x80: the least that makes the length 56 modulo 64. */
  function ZeroCount(n: nat): (k: nat)
    ensures (n + 1 + k) % 64 == 56 && k < 64
  {
    (119 - n % 64) % 64
  }

  lemma MultipleOf64(n: nat)
    requires n % 64 == 56
    ensures (n + 8) % 64 == 0
  {
  }

  /** The message, a one bit, zeros, and the length in bits modulo 2^64. */
  function Padded(m: seq<byte>): (p: seq<byte>)
    ensures |p| % 64 == 0
  {
    MultipleOf64(|m| + 1 + ZeroCount(|m|));
    m + [0x80] + Zeros(ZeroCount(|m|)) + LowBytes(8 * |m| % TWO64, 8)
  }

  function Output(h: Hash): (r: seq<byte>)
    ensures |r| == 16
  {
    WordBytes(h.a) + WordBytes(h.b) + WordBytes(h.c) + WordBytes(h.d)
  }

  function MD5(m: seq<byte>): (r: seq<byte>)
    ensures |r| == 16
  {
    Output(HashOf(Padded(m)))
  }
}
