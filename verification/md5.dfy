/**
 The block transformation of lib/md5.c: 64 unrolled steps on four registers, against the rows of operations
 that RFC 1321 defines.
 */
module MD5Transform {
  import opened Bytes
  import opened Word32
  import opened MD5Spec

  function F1(x: word, y: word, z: word): word {
    Xor(z, And(x, Xor(y, z)))
  }

  function F2(x: word, y: word, z: word): word {
    F1(z, x, y)
  }

  function F3(x: word, y: word, z: word): word {
    Xor(Xor(x, y), z)
  }

  function F4(x: word, y: word, z: word): word {
    Xor(y, Or(x, Not(z)))
  }

  /** The macro MD5STEP: f is the value of the round's function, data the word plus the constant. */
  function MD5Step(f: word, w: word, x: word, data: word, s: nat): word
    requires s <= 32
  {
    Add(RotateLeft(Add(w, Add(f, data)), s), x)
  }

  lemma FunctionsAgree(x: word, y: word, z: word)
    ensures F1(x, y, z) == F(x, y, z) && F2(x, y, z) == G(x, y, z)
    ensures F3(x, y, z) == H(x, y, z) && F4(x, y, z) == I(x, y, z)
  {
    hide And, Or, Xor, Not;
    Choose(x, y, z);
    Choose(z, x, y);
    AndCommutes(z, x);
    AndCommutes(Not(z), y);
  }

  /** The macro MD5STEP with F1: operation i of the definition. */
  method StepF1(ghost i: nat, w: word, x: word, y: word, z: word, m: seq<word>, k: nat, t: word, s: nat)
    returns (r: word)
    requires 0 <= i < 16 && |m| == 16 && k == WordOf(i) && t == T(i) && s == ShiftOf(i)
    ensures r == Op(i, w, x, y, z, m)
  {
    FunctionsAgree(x, y, z);
    StepIsOp(i, F1(x, y, z), w, x, y, z, m, k, t, s);
    r := MD5Step(F1(x, y, z), w, x, Add(m[k], t), s);
  }

  /** The macro MD5STEP with F2: operation i of the definition. */
  method StepF2(ghost i: nat, w: word, x: word, y: word, z: word, m: seq<word>, k: nat, t: word, s: nat)
    returns (r: word)
    requires 16 <= i < 32 && |m| == 16 && k == WordOf(i) && t == T(i) && s == ShiftOf(i)
    ensures r == Op(i, w, x, y, z, m)
  {
    FunctionsAgree(x, y, z);
    StepIsOp(i, F2(x, y, z), w, x, y, z, m, k, t, s);
    r := MD5Step(F2(x, y, z), w, x, Add(m[k], t), s);
  }

  /** The macro MD5STEP with F3: operation i of the definition. */
  method StepF3(ghost i: nat, w: word, x: word, y: word, z: word, m: seq<word>, k: nat, t: word, s: nat)
    returns (r: word)
    requires 32 <= i < 48 && |m| == 16 && k == WordOf(i) && t == T(i) && s == ShiftOf(i)
    ensures r == Op(i, w, x, y, z, m)
  {
    FunctionsAgree(x, y, z);
    StepIsOp(i, F3(x, y, z), w, x, y, z, m, k, t, s);
    r := MD5Step(F3(x, y, z), w, x, Add(m[k], t), s);
  }

  /** The macro MD5STEP with F4: operation i of the definition. */
  method StepF4(ghost i: nat, w: word, x: word, y: word, z: word, m: seq<word>, k: nat, t: word, s: nat)
    returns (r: word)
    requires 48 <= i < 64 && |m| == 16 && k == WordOf(i) && t == T(i) && s == ShiftOf(i)
    ensures r == Op(i, w, x, y, z, m)
  {
    FunctionsAgree(x, y, z);
    StepIsOp(i, F4(x, y, z), w, x, y, z, m, k, t, s);
    r := MD5Step(F4(x, y, z), w, x, Add(m[k], t), s);
  }

  /** One step of the code is one operation of the definition. */
  lemma StepIsOp(i: nat, f: word, a: word, b: word, c: word, d: word, x: seq<word>, k: nat, t: word, s: nat)
    requires i < 64 && |x| == 16 && f == Mix(i, b, c, d)
    requires k == WordOf(i) && t == T(i) && s == ShiftOf(i)
    ensures MD5Step(f, a, b, Add(x[k], t), s) == Op(i, a, b, c, d, x)
  {
    hide Mix, WordOf, ShiftOf, RotateLeft, Add, T;
    AddAssociates(f, x[k], t);
    AddAssociates(a, Add(f, x[k]), t);
    AddAssociates(a, f, x[k]);
    AddCommutes(b, RotateLeft(Add(Add(Add(a, f), x[k]), t), s));
  }

  /** Four steps are one row of the definition. */
  lemma RowDone(h: Hash, m: seq<word>, r: nat, g: Hash, a: word, b: word, c: word, d: word)
    requires r < 16 && |m| == 16 && g == Rows(h, m, r)
    requires a == Op(4 * r, g.a, g.b, g.c, g.d, m) && d == Op(4 * r + 1, g.d, a, g.b, g.c, m)
    requires c == Op(4 * r + 2, g.c, d, a, g.b, m) && b == Op(4 * r + 3, g.b, c, d, a, m)
    ensures Hash(a, b, c, d) == Rows(h, m, r + 1)
  {
    hide Op;
  }

  method Round1(ghost h: Hash, a0: word, b0: word, c0: word, d0: word, m: seq<word>)
    returns (a: word, b: word, c: word, d: word)
    requires |m| == 16 && Hash(a0, b0, c0, d0) == Rows(h, m, 0)
    ensures Hash(a, b, c, d) == Rows(h, m, 4)
  {
    hide Op, Rows;
    a, b, c, d := a0, b0, c0, d0;
    ghost var g := Hash(a, b, c, d);
    a := StepF1(0, a, b, c, d, m, 0, 0xd76aa478, 7);
    d := StepF1(1, d, a, b, c, m, 1, 0xe8c7b756, 12);
    c := StepF1(2, c, d, a, b, m, 2, 0x242070db, 17);
    b := StepF1(3, b, c, d, a, m, 3, 0xc1bdceee, 22);
    RowDone(h, m, 0, g, a, b, c, d);
    g := Hash(a, b, c, d);
    a := StepF1(4, a, b, c, d, m, 4, 0xf57c0faf, 7);
    d := StepF1(5, d, a, b, c, m, 5, 0x4787c62a, 12);
    c := StepF1(6, c, d, a, b, m, 6, 0xa8304613, 17);
    b := StepF1(7, b, c, d, a, m, 7, 0xfd469501, 22);
    RowDone(h, m, 1, g, a, b, c, d);
    g := Hash(a, b, c, d);
    a := StepF1(8, a, b, c, d, m, 8, 0x698098d8, 7);
    d := StepF1(9, d, a, b, c, m, 9, 0x8b44f7af, 12);
    c := StepF1(10, c, d, a, b, m, 10, 0xffff5bb1, 17);
    b := StepF1(11, b, c, d, a, m, 11, 0x895cd7be, 22);
    RowDone(h, m, 2, g, a, b, c, d);
    g := Hash(a, b, c, d);
    a := StepF1(12, a, b, c, d, m, 12, 0x6b901122, 7);
    d := StepF1(13, d, a, b, c, m, 13, 0xfd987193, 12);
    c := StepF1(14, c, d, a, b, m, 14, 0xa679438e, 17);
    b := StepF1(15, b, c, d, a, m, 15, 0x49b40821, 22);
    RowDone(h, m, 3, g, a, b, c, d);
    g := Hash(a, b, c, d);
  }

  method Round2(ghost h: Hash, a0: word, b0: word, c0: word, d0: word, m: seq<word>)
    returns (a: word, b: word, c: word, d: word)
    requires |m| == 16 && Hash(a0, b0, c0, d0) == Rows(h, m, 4)
    ensures Hash(a, b, c, d) == Rows(h, m, 8)
  {
    hide Op, Rows;
    a, b, c, d := a0, b0, c0, d0;
    ghost var g := Hash(a, b, c, d);
    a := StepF2(16, a, b, c, d, m, 1, 0xf61e2562, 5);
    d := StepF2(17, d, a, b, c, m, 6, 0xc040b340, 9);
    c := StepF2(18, c, d, a, b, m, 11, 0x265e5a51, 14);
    b := StepF2(19, b, c, d, a, m, 0, 0xe9b6c7aa, 20);
    RowDone(h, m, 4, g, a, b, c, d);
    g := Hash(a, b, c, d);
    a := StepF2(20, a, b, c, d, m, 5, 0xd62f105d, 5);
    d := StepF2(21, d, a, b, c, m, 10, 0x02441453, 9);
    c := StepF2(22, c, d, a, b, m, 15, 0xd8a1e681, 14);
    b := StepF2(23, b, c, d, a, m, 4, 0xe7d3fbc8, 20);
    RowDone(h, m, 5, g, a, b, c, d);
    g := Hash(a, b, c, d);
    a := StepF2(24, a, b, c, d, m, 9, 0x21e1cde6, 5);
    d := StepF2(25, d, a, b, c, m, 14, 0xc33707d6, 9);
    c := StepF2(26, c, d, a, b, m, 3, 0xf4d50d87, 14);
    b := StepF2(27, b, c, d, a, m, 8, 0x455a14ed, 20);
    RowDone(h, m, 6, g, a, b, c, d);
    g := Hash(a, b, c, d);
    a := StepF2(28, a, b, c, d, m, 13, 0xa9e3e905, 5);
    d := StepF2(29, d, a, b, c, m, 2, 0xfcefa3f8, 9);
    c := StepF2(30, c, d, a, b, m, 7, 0x676f02d9, 14);
    b := StepF2(31, b, c, d, a, m, 12, 0x8d2a4c8a, 20);
    RowDone(h, m, 7, g, a, b, c, d);
    g := Hash(a, b, c, d);
  }

  method Round3(ghost h: Hash, a0: word, b0: word, c0: word, d0: word, m: seq<word>)
    returns (a: word, b: word, c: word, d: word)
    requires |m| == 16 && Hash(a0, b0, c0, d0) == Rows(h, m, 8)
    ensures Hash(a, b, c, d) == Rows(h, m, 12)
  {
    hide Op, Rows;
    a, b, c, d := a0, b0, c0, d0;
    ghost var g := Hash(a, b, c, d);
    a := StepF3(32, a, b, c, d, m, 5, 0xfffa3942, 4);
    d := StepF3(33, d, a, b, c, m, 8, 0x8771f681, 11);
    c := StepF3(34, c, d, a, b, m, 11, 0x6d9d6122, 16);
    b := StepF3(35, b, c, d, a, m, 14, 0xfde5380c, 23);
    RowDone(h, m, 8, g, a, b, c, d);
    g := Hash(a, b, c, d);
    a := StepF3(36, a, b, c, d, m, 1, 0xa4beea44, 4);
    d := StepF3(37, d, a, b, c, m, 4, 0x4bdecfa9, 11);
    c := StepF3(38, c, d, a, b, m, 7, 0xf6bb4b60, 16);
    b := StepF3(39, b, c, d, a, m, 10, 0xbebfbc70, 23);
    RowDone(h, m, 9, g, a, b, c, d);
    g := Hash(a, b, c, d);
    a := StepF3(40, a, b, c, d, m, 13, 0x289b7ec6, 4);
    d := StepF3(41, d, a, b, c, m, 0, 0xeaa127fa, 11);
    c := StepF3(42, c, d, a, b, m, 3, 0xd4ef3085, 16);
    b := StepF3(43, b, c, d, a, m, 6, 0x04881d05, 23);
    RowDone(h, m, 10, g, a, b, c, d);
    g := Hash(a, b, c, d);
    a := StepF3(44, a, b, c, d, m, 9, 0xd9d4d039, 4);
    d := StepF3(45, d, a, b, c, m, 12, 0xe6db99e5, 11);
    c := StepF3(46, c, d, a, b, m, 15, 0x1fa27cf8, 16);
    b := StepF3(47, b, c, d, a, m, 2, 0xc4ac5665, 23);
    RowDone(h, m, 11, g, a, b, c, d);
    g := Hash(a, b, c, d);
  }

  method Round4(ghost h: Hash, a0: word, b0: word, c0: word, d0: word, m: seq<word>)
    returns (a: word, b: word, c: word, d: word)
    requires |m| == 16 && Hash(a0, b0, c0, d0) == Rows(h, m, 12)
    ensures Hash(a, b, c, d) == Rows(h, m, 16)
  {
    hide Op, Rows;
    a, b, c, d := a0, b0, c0, d0;
    ghost var g := Hash(a, b, c, d);
    a := StepF4(48, a, b, c, d, m, 0, 0xf4292244, 6);
    d := StepF4(49, d, a, b, c, m, 7, 0x432aff97, 10);
    c := StepF4(50, c, d, a, b, m, 14, 0xab9423a7, 15);
    b := StepF4(51, b, c, d, a, m, 5, 0xfc93a039, 21);
    RowDone(h, m, 12, g, a, b, c, d);
    g := Hash(a, b, c, d);
    a := StepF4(52, a, b, c, d, m, 12, 0x655b59c3, 6);
    d := StepF4(53, d, a, b, c, m, 3, 0x8f0ccc92, 10);
    c := StepF4(54, c, d, a, b, m, 10, 0xffeff47d, 15);
    b := StepF4(55, b, c, d, a, m, 1, 0x85845dd1, 21);
    RowDone(h, m, 13, g, a, b, c, d);
    g := Hash(a, b, c, d);
    a := StepF4(56, a, b, c, d, m, 8, 0x6fa87e4f, 6);
    d := StepF4(57, d, a, b, c, m, 15, 0xfe2ce6e0, 10);
    c := StepF4(58, c, d, a, b, m, 6, 0xa3014314, 15);
    b := StepF4(59, b, c, d, a, m, 13, 0x4e0811a1, 21);
    RowDone(h, m, 14, g, a, b, c, d);
    g := Hash(a, b, c, d);
    a := StepF4(60, a, b, c, d, m, 4, 0xf7537e82, 6);
    d := StepF4(61, d, a, b, c, m, 11, 0xbd3af235, 10);
    c := StepF4(62, c, d, a, b, m, 2, 0x2ad7d2bb, 15);
    b := StepF4(63, b, c, d, a, m, 9, 0xeb86d391, 21);
    RowDone(h, m, 15, g, a, b, c, d);
    g := Hash(a, b, c, d);
  }

  /** The sixteen rows, by rounds. */
  method Rounds(h: Hash, m: seq<word>) returns (a: word, b: word, c: word, d: word)
    requires |m| == 16
    ensures Hash(a, b, c, d) == Rows(h, m, 16)
  {
    hide Row;
    a, b, c, d := Round1(h, h.a, h.b, h.c, h.d, m);
    a, b, c, d := Round2(h, a, b, c, d, m);
    a, b, c, d := Round3(h, a, b, c, d, m);
    a, b, c, d := Round4(h, a, b, c, d, m);
  }

  /** Adds the hash of a block of 16 words, given by its bytes, to the four words. */
  method Transform(buf: array<word>, block: seq<byte>)
    requires buf.Length == 4 && |block| == 64
    modifies buf
    ensures HashAt(buf[..]) == Compress(old(HashAt(buf[..])), block)
  {
    hide Rows, BlockWords, Add;
    var a, b, c, d := Rounds(HashAt(buf[..]), BlockWords(block));
    buf[0] := Add(buf[0], a);
    buf[1] := Add(buf[1], b);
    buf[2] := Add(buf[2], c);
    buf[3] := Add(buf[3], d);
  }

  function HashAt(buf: seq<word>): Hash
    requires |buf| == 4
  {
    Hash(buf[0], buf[1], buf[2], buf[3])
  }
}
