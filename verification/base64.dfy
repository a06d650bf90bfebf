/** Base64 output computed from bit offsets, against the encoding of three-byte groups in section 4 of RFC 4648. */
module Base64 {
  import opened Bytes
  import opened Word32
  import opened MachineInts

  type sextet = x: int | 0 <= x < 64

  const PAD: byte := 61

  /** The alphabet: A-Z, a-z, 0-9, + and /. */
  function Letter(x: sextet): (c: byte)
    ensures c != PAD
  {
    if x < 26 then 65 + x else if x < 52 then 71 + x else if x < 62 then x - 4 else if x == 62 then 43 else 47
  }

  function Value(c: byte): sextet {
    if 65 <= c <= 90 then c - 65
    else if 97 <= c <= 122 then c - 71 else if 48 <= c <= 57 then c + 4 else if c == 43 then 62 else 63
  }

  lemma ValueOfLetter(x: sextet)
    ensures Value(Letter(x)) == x
  {
  }

  /** Letter i of the encoding is character i of the alphabet. */
  lemma LetterIs(i: nat)
    requires i < 64
    ensures var alphabet := "ABCDEFGHIJKLMNOPQRSTUVWXYZ" + "abcdefghijklmnopqrstuvwxyz" + "0123456789+/";
            |alphabet| == 64 && Letter(i) == alphabet[i] as int
  {
    if i < 26 {
      Capitals(i);
    } else if i < 52 {
      SmallLetters(i - 26);
    } else {
      Digits(i - 52);
    }
  }

  lemma Capitals(i: nat)
    requires i < 26
    ensures "ABCDEFGHIJKLMNOPQRSTUVWXYZ"[i] as int == 65 + i
  {
  }

  lemma SmallLetters(i: nat)
    requires i < 26
    ensures "abcdefghijklmnopqrstuvwxyz"[i] as int == 97 + i
  {
  }

  lemma Digits(i: nat)
    requires i < 12
    ensures "0123456789+/"[i] as int == if i < 10 then 48 + i else if i == 10 then 43 else 47
  {
  }

  // ----- the encoding by groups

  function First(a: byte): sextet { a / 4 }

  function Second(a: byte, b: byte): sextet { a % 4 * 16 + b / 16 }

  function Third(b: byte, c: byte): sextet { b % 16 * 4 + c / 64 }

  function Fourth(c: byte): sextet { c % 64 }

  /** Three bytes give four sextets; one or two left over give two or three, filled up with zero bits. */
  function Sextets(s: seq<byte>): (r: seq<sextet>)
    ensures |r| == (8 * |s| + 5) / 6
  {
    if |s| == 0 then []
    else if |s| == 1 then [First(s[0]), Second(s[0], 0)]
    else if |s| == 2 then [First(s[0]), Second(s[0], s[1]), Third(s[1], 0)]
    else [First(s[0]), Second(s[0], s[1]), Third(s[1], s[2]), Fourth(s[2])] + Sextets(s[3..])
  }

  function Letters(r: seq<sextet>): (t: seq<byte>)
    ensures |t| == |r|
  {
    seq(|r|, i requires 0 <= i < |r| => Letter(r[i]))
  }

  function Padding(n: nat): seq<byte> {
    if n % 4 == 0 then [] else if n % 4 == 1 then [PAD, PAD, PAD] else if n % 4 == 2 then [PAD, PAD] else [PAD]
  }

  function Encoded(s: seq<byte>, pad: bool): seq<byte> {
    Letters(Sextets(s)) + if pad then Padding(|Sextets(s)|) else []
  }

  // ----- the program

  function BitOffset(i: nat): (b: nat)
    ensures b == 0 || b == 2 || b == 4 || b == 6
  {
    SixTimes(i);
    i * 6 % 8
  }

  /** The offsets repeat after four sextets. */
  lemma SixTimes(i: nat)
    ensures i * 6 % 8 == if i % 4 == 0 then 0 else if i % 4 == 1 then 6 else if i % 4 == 2 then 4 else 2
  {
    var q, r := i / 4, i % 4;
    var m := if r == 0 then 0 else if r == 1 then 6 else if r == 2 then 4 else 2;
    assert i * 6 == m + 8 * (3 * q + if r < 2 then 0 else r - 1);
    Remainder8(m, 3 * q + if r < 2 then 0 else r - 1);
  }

  lemma Remainder8(r: nat, q: nat)
    requires r < 8
    ensures (r + 8 * q) % 8 == r
  {
  }

  function ShiftedLeft(x: nat, k: nat): nat
    decreases k
  {
    if k == 0 then x else ShiftedLeft(2 * x, k - 1)
  }

  function ShiftedRight(x: nat, k: nat): nat
    decreases k
  {
    if k == 0 then x else ShiftedRight(x / 2, k - 1)
  }

  /** The sextet that starts at bit 6 * i, out of the byte there and the one after it. */
  function SextetOf(d: byte, e: byte, last: bool, bitOffset: nat): nat
    requires bitOffset <= 6
  {
    if bitOffset < 3 then ShiftedRight(d, 2 - bitOffset) % 64
    else
      var idx := ShiftedLeft(d, bitOffset - 2) % 64;
      if !last then BitOr(8, idx, ShiftedRight(e, 8 - (bitOffset - 2))) else idx
  }

  function SextetAt(s: seq<byte>, i: nat): nat
    requires i < (8 * |s| + 5) / 6
  {
    var p := i * 6 / 8;
    SextetOf(s[p], if p + 1 < |s| then s[p + 1] else 0, p + 1 >= |s|, BitOffset(i))
  }

  lemma Shifts(x: nat)
    ensures ShiftedRight(x, 0) == x && ShiftedRight(x, 2) == x / 4
    ensures ShiftedRight(x, 4) == x / 16 && ShiftedRight(x, 6) == x / 64
    ensures ShiftedLeft(x, 2) == 4 * x && ShiftedLeft(x, 4) == 16 * x
  {
    RightTwo(x, 0);
    RightTwo(x, 2);
    RightTwo(x / 4, 0);
    RightTwo(x, 4);
    RightTwo(x / 4, 2);
    RightTwo(x / 16, 0);
    assert ShiftedLeft(x, 4) == ShiftedLeft(2 * x, 3) == ShiftedLeft(4 * x, 2);
  }

  lemma RightTwo(x: nat, k: nat)
    ensures ShiftedRight(x, k + 2) == ShiftedRight(x / 4, k) && ShiftedRight(x, 0) == x
  {
    assert ShiftedRight(x, k + 2) == ShiftedRight(x / 2, k + 1);
    assert x / 2 / 2 == x / 4;
  }

  lemma Masks(d: byte)
    ensures 16 * d % 64 == d % 4 * 16 && 4 * d % 64 == d % 16 * 4
  {
    assert 16 * d == d % 4 * 16 + 64 * (d / 4) && 4 * d == d % 16 * 4 + 64 * (d / 16);
    Remainder64(d % 4 * 16, d / 4);
    Remainder64(d % 16 * 4, d / 16);
  }

  lemma Remainder64(r: nat, q: nat)
    requires r < 64
    ensures (r + 64 * q) % 64 == r
  {
  }

  lemma Joined(d: byte, e: byte)
    ensures BitOr(8, d % 4 * 16, e / 16) == d % 4 * 16 + e / 16
    ensures BitOr(8, d % 16 * 4, e / 64) == d % 16 * 4 + e / 64
  {
    assert Pow2(2) == 4 && Pow2(4) == 16;
    assert Pow2(8) == 256 by { assert Pow2(6) == 64; }
    hide BitOr, Pow2;
    OrIsSum(8, 4, d % 4 * 16, e / 16);
    OrIsSum(8, 2, d % 16 * 4, e / 64);
  }

  /** The four cases; a byte behind the end counts as zero. */
  lemma SextetCases(d: byte, e: byte, last: bool)
    requires last ==> e == 0
    ensures SextetOf(d, e, last, 0) == First(d)
    ensures SextetOf(d, e, last, 6) == Second(d, e)
    ensures SextetOf(d, e, last, 4) == Third(d, e)
    ensures SextetOf(d, e, last, 2) == Fourth(d)
  {
    OneByte(d, e, last);
    TwoBytes(d, e, last);
  }

  lemma OneByte(d: byte, e: byte, last: bool)
    ensures SextetOf(d, e, last, 0) == First(d) && SextetOf(d, e, last, 2) == Fourth(d)
  {
    hide BitOr, ShiftedLeft, ShiftedRight;
    Shifts(d);
  }

  lemma TwoBytes(d: byte, e: byte, last: bool)
    requires last ==> e == 0
    ensures SextetOf(d, e, last, 6) == Second(d, e) && SextetOf(d, e, last, 4) == Third(d, e)
  {
    hide BitOr, ShiftedLeft, ShiftedRight;
    Shifts(d);
    Shifts(e);
    Masks(d);
    Joined(d, e);
  }

  lemma FirstSextets(s: seq<byte>)
    requires s != []
    ensures var a, b, c := s[0], if |s| > 1 then s[1] else 0, if |s| > 2 then s[2] else 0;
            && Sextets(s)[0] == First(a) && Sextets(s)[1] == Second(a, b)
            && (|s| > 1 ==> Sextets(s)[2] == Third(b, c))
            && (|s| > 2 ==> Sextets(s)[3] == Fourth(c))
  {
    hide First, Second, Third, Fourth;
  }

  lemma Offsets()
    ensures BitOffset(0) == 0 && BitOffset(1) == 6 && BitOffset(2) == 4 && BitOffset(3) == 2
  {
  }

  lemma AtOffset(s: seq<byte>, i: nat, p: nat, b: nat)
    requires i < (8 * |s| + 5) / 6 && p == i * 6 / 8 && b == BitOffset(i)
    ensures p < |s| && b <= 6 && SextetAt(s, i) == SextetOf(s[p], if p + 1 < |s| then s[p + 1] else 0, p + 1 >= |s|, b)
  {
    hide SextetOf;
  }

  lemma FirstGroup(s: seq<byte>, i: nat)
    requires i < (8 * |s| + 5) / 6 && i < 4
    ensures SextetAt(s, i) == Sextets(s)[i]
  {
    if i < 2 {
      FirstByte(s, i);
    } else {
      NextByte(s, i);
    }
  }

  lemma FirstByte(s: seq<byte>, i: nat)
    requires i < (8 * |s| + 5) / 6 && i < 2
    ensures SextetAt(s, i) == Sextets(s)[i]
  {
    hide *;
    FirstSextets(s);
    Offsets();
    AtOffset(s, i, 0, if i == 0 then 0 else 6);
    SextetCases(s[0], if |s| > 1 then s[1] else 0, |s| == 1);
  }

  lemma NextByte(s: seq<byte>, i: nat)
    requires 2 <= i < (8 * |s| + 5) / 6 && i < 4
    ensures SextetAt(s, i) == Sextets(s)[i]
  {
    hide *;
    if i == 2 {
      ThirdSextet(s);
    } else {
      FourthSextet(s);
    }
  }

  lemma ThirdSextet(s: seq<byte>)
    requires 2 < (8 * |s| + 5) / 6
    ensures SextetAt(s, 2) == Sextets(s)[2]
  {
    assert |s| >= 2;
    hide *;
    FirstSextets(s);
    Offsets();
    AtOffset(s, 2, 1, 4);
    SextetCases(s[1], if |s| > 2 then s[2] else 0, |s| == 2);
  }

  lemma FourthSextet(s: seq<byte>)
    requires 3 < (8 * |s| + 5) / 6
    ensures SextetAt(s, 3) == Sextets(s)[3]
  {
    assert |s| >= 3;
    hide *;
    FirstSextets(s);
    Offsets();
    AtOffset(s, 3, 2, 2);
    SextetCases(s[2], if |s| > 3 then s[3] else 0, |s| == 3);
  }

  /** The offsets give the sextets of the groups. */
  lemma {:induction false} OffsetsAreGroups(s: seq<byte>, i: nat)
    requires i < (8 * |s| + 5) / 6
    ensures SextetAt(s, i) == Sextets(s)[i]
    decreases i
  {
    if i < 4 {
      FirstGroup(s, i);
    } else {
      var t := s[3..];
      OffsetsAreGroups(t, i - 4);
      assert i * 6 / 8 == (i - 4) * 6 / 8 + 3 && i * 6 % 8 == (i - 4) * 6 % 8;
      hide SextetOf;
      assert SextetAt(s, i) == SextetAt(t, i - 4);
    }
  }

  /** The number of letters that the program computes in an int. */
  function LetterCount(len: nat): int {
    Quotient(Wrap32(Wrap32(len * 8) + 5), 6)
  }

  /** It is right below 2^28. From there on the multiplication wraps around, and the number is not positive or
      that of the bytes above a multiple of 2^29. */
  lemma LetterCounts(len: nat)
    requires len < TWO31
    ensures len < 0x1000_0000 ==> LetterCount(len) == (8 * len + 5) / 6
    ensures len >= 0x1000_0000 ==> LetterCount(len) < (8 * len + 5) / 6 - 8
    ensures len % 0x2000_0000 >= 0x1000_0000 ==> LetterCount(len) <= 0
    ensures len % 0x2000_0000 < 0x1000_0000 ==> LetterCount(len) == (8 * (len % 0x2000_0000) + 5) / 6
  {
    var q, r := len / 0x2000_0000, len % 0x2000_0000;
    assert len * 8 == 8 * r + 2 * TWO31 * q;
    hide Quotient, Wrap32;
    Wrap32Turns(8 * r, q);
    BitCount(r);
  }

  lemma BitCount(r: nat)
    requires r < 0x2000_0000
    ensures var n := Quotient(Wrap32(Wrap32(8 * r) + 5), 6);
            if r < 0x1000_0000 then n == (8 * r + 5) / 6 else n <= 0
  {
    hide Quotient;
    if r < 0x1000_0000 {
      assert Wrap32(8 * r) == 8 * r && Wrap32(8 * r + 5) == 8 * r + 5;
      Quotients(8 * r + 5);
    } else {
      assert Wrap32(8 * r) == 8 * r - 2 * TWO31;
      assert Wrap32(8 * r - 2 * TWO31 + 5) == 8 * r - 2 * TWO31 + 5;
      Quotients(8 * r - 2 * TWO31 + 5);
    }
  }

  lemma Quotients(n: int)
    ensures n >= 0 ==> Quotient(n, 6) == n / 6
    ensures n <= 5 ==> Quotient(n, 6) <= 0
  {
  }

  /** What the program writes: as many letters as it has computed, padded to a multiple of four. */
  function Output(s: seq<byte>, pad: bool): seq<byte>
    requires |s| < TWO31
  {
    LetterCounts(|s|);
    var n := if LetterCount(|s|) < 0 then 0 else LetterCount(|s|);
    Letters(Sextets(s)[..n]) + if pad then Padding(n) else []
  }

  method Encode(s: seq<byte>, pad: bool) returns (out: seq<byte>)
    requires |s| < TWO31
    ensures out == Output(s, pad)
  {
    hide *;
    LetterCounts(|s|);
    out := [];
    var bytes := LetterCount(|s|);
    ghost var n := if bytes < 0 then 0 else bytes;
    ghost var text := Letters(Sextets(s)[..n]);
    var i := 0;
    while i < bytes
      invariant 0 <= i <= n
      invariant out == text[..i]
    {
      NextLetter(s, n, i);
      var idx := SextetAt(s, i);
      out := out + [Letter(idx)];
      i := i + 1;
    }
    assert out == text;
    out := PadOut(out, i, pad);
    OutputIs(s, pad);
  }

  /** The padding loop, for a text of n letters. */
  method PadOut(text: seq<byte>, n: nat, pad: bool) returns (out: seq<byte>)
    ensures out == if pad then text + Padding(n) else text
  {
    hide Padding;
    out := text;
    var i := n;
    while pad && i % 4 != 0
      invariant n <= i
      invariant pad ==> out + Padding(i) == text + Padding(n)
      invariant !pad ==> out == text
      decreases (4 - i % 4) % 4
    {
      MorePadding(out, i);
      LessToPad(i);
      out := out + [PAD];
      i := i + 1;
    }
    EndOfPadding(out, i);
  }

  lemma LessToPad(i: nat)
    requires i % 4 != 0
    ensures (4 - (i + 1) % 4) % 4 < (4 - i % 4) % 4
  {
  }

  lemma NextLetter(s: seq<byte>, n: nat, i: nat)
    requires i < n <= (8 * |s| + 5) / 6
    ensures 0 <= SextetAt(s, i) < 64
    ensures Letters(Sextets(s)[..n])[..i + 1] == Letters(Sextets(s)[..n])[..i] + [Letter(SextetAt(s, i))]
  {
    hide *;
    OffsetsAreGroups(s, i);
    LetterAt(Sextets(s)[..n], i);
  }

  lemma LetterAt(r: seq<sextet>, i: nat)
    requires i < |r|
    ensures Letters(r)[..i + 1] == Letters(r)[..i] + [Letter(r[i])]
  {
    hide Letter;
  }

  lemma MorePadding(out: seq<byte>, i: nat)
    requires i % 4 != 0
    ensures out + Padding(i) == out + [PAD] + Padding(i + 1)
  {
    assert Padding(i) == [PAD] + Padding(i + 1);
  }

  lemma EndOfPadding(out: seq<byte>, i: nat)
    ensures i % 4 == 0 ==> out + Padding(i) == out
  {
  }

  lemma OutputIs(s: seq<byte>, pad: bool)
    requires |s| < TWO31
    ensures LetterCount(|s|) <= (8 * |s| + 5) / 6
    ensures var n := if LetterCount(|s|) < 0 then 0 else LetterCount(|s|);
            var text := Letters(Sextets(s)[..n]);
            Output(s, pad) == if pad then text + Padding(n) else text
  {
    hide LetterCount, Sextets, Letters;
    LetterCounts(|s|);
  }

  // ----- reading it back

  function High(x: sextet, y: sextet): byte { x * 4 + y / 16 }

  function Middle(x: sextet, y: sextet): byte { x % 16 * 16 + y / 4 }

  function Low(x: sextet, y: sextet): byte { x % 4 * 64 + y }

  /** The inverse by groups of four, of which the last may be short. */
  function Octets(r: seq<sextet>): seq<byte> {
    if |r| < 2 then []
    else if |r| == 2 then [High(r[0], r[1])]
    else if |r| == 3 then [High(r[0], r[1]), Middle(r[1], r[2])]
    else [High(r[0], r[1]), Middle(r[1], r[2]), Low(r[2], r[3])] + Octets(r[4..])
  }

  function Values(t: seq<byte>): seq<sextet> {
    if t == [] || t[0] == PAD then [] else [Value(t[0])] + Values(t[1..])
  }

  function Decoded(t: seq<byte>): seq<byte> {
    Octets(Values(t))
  }

  lemma GroupBack(a: byte, b: byte, c: byte)
    ensures High(First(a), Second(a, b)) == a && Middle(Second(a, b), Third(b, c)) == b
    ensures Low(Third(b, c), Fourth(c)) == c
  {
  }

  lemma {:induction false} OctetsOfSextets(s: seq<byte>)
    ensures Octets(Sextets(s)) == s
  {
    hide High, Middle, Low, First, Second, Third, Fourth;
    if |s| == 1 {
      GroupBack(s[0], 0, 0);
    } else if |s| == 2 {
      GroupBack(s[0], s[1], 0);
    } else if |s| >= 3 {
      OctetsOfSextets(s[3..]);
      GroupBack(s[0], s[1], s[2]);
      assert Sextets(s)[4..] == Sextets(s[3..]);
      assert s == s[..3] + s[3..];
    }
  }

  lemma {:induction false} ValuesOfLetters(r: seq<sextet>, padding: seq<byte>)
    requires padding == [] || padding[0] == PAD
    ensures Values(Letters(r) + padding) == r
  {
    if r != [] {
      var t := Letters(r) + padding;
      assert t[1..] == Letters(r[1..]) + padding;
      ValueOfLetter(r[0]);
      ValuesOfLetters(r[1..], padding);
    } else {
      assert Letters(r) + padding == padding;
    }
  }

  /** Vectors of section 10 of RFC 4648 for "f", "fo", "foo" and "foobar", and the one for "a:?". */
  lemma Vectors()
    ensures Encoded([102], true) == [90, 103, 61, 61]
    ensures Encoded([102, 111], true) == [90, 109, 56, 61]
    ensures Encoded([102, 111, 111], true) == [90, 109, 57, 118]
    ensures Encoded([102, 111, 111, 98, 97, 114], true) == [90, 109, 57, 118, 89, 109, 70, 121]
    ensures Encoded([97, 58, 63], true) == [89, 84, 111, 47]
  {
    Spelled([102], [25, 32], [90, 103]);
    Spelled([102, 111], [25, 38, 60], [90, 109, 56]);
    Spelled([102, 111, 111], [25, 38, 61, 47], [90, 109, 57, 118]);
    Spelled([102, 111, 111, 98, 97, 114], [25, 38, 61, 47, 24, 38, 5, 50], [90, 109, 57, 118, 89, 109, 70, 121]);
    Spelled([97, 58, 63], [24, 19, 40, 63], [89, 84, 111, 47]);
    hide Sextets, Letters;
  }

  lemma Spelled(s: seq<byte>, r: seq<sextet>, t: seq<byte>)
    requires r == Sextets(s) && |t| == |r| && forall i | 0 <= i < |r| :: t[i] == Letter(r[i])
    ensures Letters(Sextets(s)) == t && |Sextets(s)| == |t|
  {
  }

  lemma PaddedLength(n: nat)
    ensures var m := (8 * n + 5) / 6; m + |Padding(m)| == 4 * ((n + 2) / 3)
  {
    var q, r := n / 3, n % 3;
    var m := 4 * q + (if r == 0 then 0 else r + 1);
    DivIs(8 * n + 5, 6, m, 8 * r + 5 - 6 * (if r == 0 then 0 else r + 1));
    ModIs(m, 4, q, m - 4 * q);
    DivIs(n + 2, 3, if r == 0 then q else q + 1, if r == 0 then 2 else r - 1);
  }

  /** The encoding of section 4 of RFC 4648 is read back as the bytes, with and without padding; padded text is four
      letters for every three bytes begun. */
  lemma EncodedReadsBack(s: seq<byte>, pad: bool)
    ensures Decoded(Encoded(s, pad)) == s
    ensures pad ==> |Encoded(s, pad)| == 4 * ((|s| + 2) / 3)
  {
    ValuesOfLetters(Sextets(s), if pad then Padding(|Sextets(s)|) else []);
    OctetsOfSextets(s);
    PaddedLength(|s|);
  }

  /** What the program writes is the encoding, and is read back as what was encoded, if and only if there are fewer
      than 2^28 bytes. */
  lemma RoundTrip(s: seq<byte>, pad: bool)
    requires |s| < TWO31
    ensures Output(s, pad) == Encoded(s, pad) <==> |s| < 0x1000_0000
    ensures Decoded(Output(s, pad)) == s <==> |s| < 0x1000_0000
  {
    hide *;
    LetterCounts(|s|);
    if |s| < 0x1000_0000 {
      WholeOutput(s, pad);
      EncodedReadsBack(s, pad);
    } else {
      CutOutput(s, pad);
    }
  }

  lemma WholeOutput(s: seq<byte>, pad: bool)
    requires |s| < TWO31 && LetterCount(|s|) == (8 * |s| + 5) / 6
    ensures Output(s, pad) == Encoded(s, pad)
  {
    assert Sextets(s)[..|Sextets(s)|] == Sextets(s);
  }

  lemma CutOutput(s: seq<byte>, pad: bool)
    requires |s| < TWO31 && LetterCount(|s|) < (8 * |s| + 5) / 6 - 8
    ensures |Output(s, pad)| < |Encoded(s, pad)|
    ensures |Decoded(Output(s, pad))| < |s|
  {
    hide LetterCount, Sextets;
    LetterCounts(|s|);
    var n := if LetterCount(|s|) < 0 then 0 else LetterCount(|s|);
    ValuesOfLetters(Sextets(s)[..n], if pad then Padding(n) else []);
    OctetCount(Sextets(s)[..n]);
  }

  lemma {:induction false} OctetCount(r: seq<sextet>)
    ensures 4 * |Octets(r)| <= 3 * |r|
  {
    if |r| >= 4 {
      OctetCount(r[4..]);
    }
  }

  /** 2^28 bytes give no letter at all. */
  lemma NothingWritten(s: seq<byte>, pad: bool)
    requires |s| == 0x1000_0000
    ensures Output(s, pad) == []
  {
    hide Sextets;
    LetterCounts(|s|);
  }
}
