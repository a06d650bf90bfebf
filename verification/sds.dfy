/**
 The growing byte strings of hiredis: a block with a used and a free part, and a NUL behind the used one. The
 lengths of both parts are kept in ints.
 */
module Sds {
  import opened Bytes
  import opened MachineInts

  /** The bytes from start to end, both included; a negative index counts from the end of the string. */
  function Ranged(s: seq<byte>, start: int, end: int): seq<byte> {
    var n := |s|;
    var a: nat := if start >= 0 then start else if n + start < 0 then 0 else n + start;
    var b: nat := if end >= 0 then end else if n + end < 0 then 0 else n + end;
    if a > b || a >= n then [] else s[a..if b < n then b + 1 else n]
  }

  /** Indices in range give the bytes between them; later ends are cut off, an empty range is empty, negative indices
      count from the end, and those before the beginning stand for the first byte. */
  lemma RangedKeeps(s: seq<byte>, start: int, end: int)
    ensures start >= 0 ==> Ranged(s, start, -1) == Skip(s, start)
    ensures 0 <= start <= end < |s| ==> Ranged(s, start, end) == s[start..end + 1]
    ensures 0 <= start && end >= |s| ==> Ranged(s, start, end) == Skip(s, start)
    ensures start > end >= 0 ==> Ranged(s, start, end) == []
    ensures -|s| <= start < 0 ==> Ranged(s, start, end) == Ranged(s, |s| + start, end)
    ensures -|s| <= end < 0 ==> Ranged(s, start, end) == Ranged(s, start, |s| + end)
    ensures start < -|s| ==> Ranged(s, start, end) == Ranged(s, 0, end)
    ensures end < -|s| ==> Ranged(s, start, end) == Ranged(s, start, 0)
  {
  }

  /** A length is found again in the header, where it is an int, if and only if it is below 2^31. */
  lemma LengthIsKept(n: nat)
    requires n < TWO63
    ensures SizeT(Wrap32(n)) == n <==> n < TWO31
  {
  }

  class Str {
    var buf: array<byte>
    var len: int32
    /** The length of the free part, which may be beyond the range of an int and wrap around. */
    var free: int32

    ghost predicate Valid()
      reads this, buf
    {
      && 0 <= len < buf.Length <= 2 * TWO31
      && free == Wrap32(buf.Length - 1 - len) && buf[len] == NUL
    }

    ghost function Contents(): (s: seq<byte>)
      reads this, buf
      requires Valid()
      ensures |s| == len
    {
      buf[..len]
    }

    /** The bytes that the block can still take. */
    ghost function Room(): nat
      reads this, buf
      requires Valid()
    {
      buf.Length - 1 - len
    }

    constructor (init: seq<byte>)
      requires |init| < TWO31
      ensures Valid() && Contents() == init && Room() == 0 && fresh(buf)
    {
      buf := new byte[|init| + 1](i requires 0 <= i => if i < |init| then init[i] else NUL);
      len, free := |init|, 0;
    }

    /** Makes the free part at least as large as asked for; doubles what is needed when it has to grow. A free part
        beyond the range of an int is taken for a very large one, and is one. */
    method MakeRoomFor(addlen: nat)
      requires Valid() && len + addlen < TWO31
      modifies this`buf, this`free
      ensures Valid() && Contents() == old(Contents()) && Room() >= addlen
      ensures old(Room()) >= addlen ==> buf == old(buf)
      ensures old(Room()) < addlen ==> fresh(buf) && len + Room() == 2 * (len + addlen)
    {
      hide Wrap32, SizeT;
      Available(Room(), addlen);
      if SizeT(free) >= addlen {
        return;
      }
      var newlen := (len + addlen) * 2;
      var newsh := new byte[newlen + 1](_ => NUL);
      forall i | 0 <= i <= len {
        newsh[i] := buf[i];
      }
      ghost var before := buf[..len];
      buf := newsh;
      free := Wrap32(newlen - len);
      assert buf[..len] == before;
    }

    method CatLen(t: seq<byte>)
      requires Valid() && len + |t| < TWO31
      modifies this, buf
      ensures Valid() && Contents() == old(Contents()) + t && (buf == old(buf) || fresh(buf))
    {
      hide Wrap32, SizeT;
      ghost var before := Contents();
      var curlen := len;
      MakeRoomFor(|t|);
      ghost var room := Room();
      forall i | 0 <= i < |t| {
        buf[curlen + i] := t[i];
      }
      len := curlen + |t|;
      LessFree(room, |t|);
      free := Wrap32(SizeT(free) - |t|);
      buf[curlen + |t|] := NUL;
      assert buf[..len] == before + t;
    }

    /** Pads with zeros up to a length. */
    method GrowZero(newlen: nat)
      requires Valid() && newlen < TWO31
      modifies this, buf
      ensures Valid() && (buf == old(buf) || fresh(buf))
      ensures Contents() == old(Contents()) + Zeros(if newlen <= old(len) then 0 else newlen - old(len))
    {
      hide Wrap32, SizeT;
      var curlen := len;
      if newlen <= curlen {
        return;
      }
      MakeRoomFor(newlen - curlen);
      TotalFree(len, Room(), newlen);
      var totlen := SizeT(Wrap32(len + free));
      ghost var before := Contents();
      Clear(buf, curlen, newlen);
      len := newlen;
      free := Wrap32(totlen - len);
      assert buf[..len] == before + Zeros(newlen - curlen);
    }

    /** Sets the bytes from one index to another, that one included, to zero. */
    static method Clear(a: array<byte>, from: nat, to: nat)
      requires from <= to < a.Length
      modifies a
      ensures a[..to] == old(a[..from]) + Zeros(to - from) && a[to] == NUL
    {
      forall i | from <= i <= to {
        a[i] := NUL;
      }
    }

    /** Keeps only the bytes from start to end. */
    method Range(start: int, end: int)
      requires Valid()
      modifies this`len, this`free, buf
      ensures Valid() && Contents() == Ranged(old(Contents()), start, end)
    {
      hide Ranged, Wrap32, SizeT;
      RangedNothing(start, end);
      if len == 0 {
        return;
      }
      ghost var before := Contents();
      var a, newlen := Bounds(before, len, start, end);
      if a != 0 && newlen != 0 {
        forall i | 0 <= i < newlen {
          buf[i] := buf[a + i];
        }
      }
      assert forall i :: 0 <= i < newlen ==> buf[i] == before[a + i];
      buf[newlen] := NUL;
      Wrap32Sum(Room(), len - newlen);
      free := Wrap32(free + (len - newlen));
      len := newlen;
      KeptBytes(before, buf[..], a, newlen);
    }
  }

  /** Below 2^32, the free part is compared rightly with what is needed. */
  lemma Available(room: nat, n: nat)
    requires room < 2 * TWO31 && n < TWO31
    ensures SizeT(Wrap32(room)) >= n <==> room >= n
  {
    if room >= TWO31 {
      assert Wrap32(room) == room - 2 * TWO31;
    }
  }

  /** What is taken off the free part is taken off its value as an int. */
  lemma LessFree(room: nat, n: nat)
    requires n <= room
    ensures Wrap32(SizeT(Wrap32(room)) - n) == Wrap32(room - n)
  {
    Wrap32Sum(room, 0 - n as int);
    SizeTWraps(Wrap32(room), 0 - n as int);
  }

  lemma TotalFree(len: nat, room: nat, newlen: nat)
    ensures Wrap32(SizeT(Wrap32(len + Wrap32(room))) - newlen) == Wrap32(len + room - newlen)
  {
    Wrap32Sum(room, len);
    SizeTWraps(Wrap32(len + room), 0 - newlen as int);
    Wrap32Sum(len + room, 0 - newlen as int);
  }

  lemma SizeTWraps(n: int, k: int)
    ensures Wrap32(SizeT(n) + k) == Wrap32(n + k)
  {
    var q := n / TWO64;
    assert n + k == SizeT(n) + k + 2 * TWO31 * (2 * TWO31 * q);
    Wrap32Turns(SizeT(n) + k, 2 * TWO31 * q);
  }

  lemma KeptBytes(before: seq<byte>, buf: seq<byte>, a: nat, n: nat)
    requires n > 0 ==> a + n <= |before|
    requires n <= |buf| && forall i :: 0 <= i < n ==> buf[i] == before[a + i]
    ensures n > 0 ==> buf[..n] == before[a..a + n]
  {
    if n > 0 {
      forall i | 0 <= i < n ensures buf[..n][i] == before[a..a + n][i] {
      }
    }
  }

  lemma RangedNothing(start: int, end: int)
    ensures Ranged([], start, end) == []
  {
  }

  /** Where the bytes that are kept start, and how many they are. */
  method Bounds(ghost s: seq<byte>, len: nat, start: int, end: int) returns (a: int, newlen: int)
    requires |s| == len > 0
    ensures 0 <= a && 0 <= newlen && (newlen == 0 || a + newlen <= len)
    ensures newlen > 0 ==> Ranged(s, start, end) == s[a..a + newlen]
    ensures newlen == 0 ==> Ranged(s, start, end) == []
  {
    a := start;
    var b := end;
    if a < 0 {
      a := len + a;
      if a < 0 {
        a := 0;
      }
    }
    if b < 0 {
      b := len + b;
      if b < 0 {
        b := 0;
      }
    }
    newlen := if a > b then 0 else b - a + 1;
    if newlen != 0 {
      if a >= len {
        newlen := 0;
      } else if b >= len {
        b := len - 1;
        newlen := if a > b then 0 else b - a + 1;
      }
    } else {
      a := 0;
    }
  }

  // ----- splitting by a separator

  predicate SepAt(s: seq<byte>, sep: seq<byte>, i: int) {
    0 <= i && i + |sep| <= |s| && s[i..i + |sep|] == sep
  }

  /** Position of the first separator at or behind position i; the length of the string when there is none. */
  function NextSep(s: seq<byte>, sep: seq<byte>, i: nat): (j: nat)
    requires i <= |s|
    ensures i <= j <= |s| && (j < |s| && |sep| > 0 ==> SepAt(s, sep, j))
    ensures forall k :: i <= k < j ==> !SepAt(s, sep, k)
    decreases |s| - i
  {
    if i == |s| || SepAt(s, sep, i) then i else NextSep(s, sep, i + 1)
  }

  /** The tokens from a position on. */
  function Tokens(s: seq<byte>, sep: seq<byte>, start: nat): (r: seq<seq<byte>>)
    requires start <= |s| && |sep| > 0
    ensures |r| > 0
    decreases |s| - start
  {
    var j := NextSep(s, sep, start);
    if j == |s| then [s[start..]] else [s[start..j]] + Tokens(s, sep, j + |sep|)
  }

  datatype Parts = Parts(tokens: seq<seq<byte>>) | NoParts

  /** Room for this many tokens is the largest that doubling reaches in an int. */
  const MAX_SLOTS := 0x5000_0000

  function SlotsAfter(k: nat): nat {
    if k == 0 then 5 else 2 * SlotsAfter(k - 1)
  }

  /** Doubling goes on to 5 * 2^28, and once more wraps around to a negative number. */
  lemma SlotsDoubled(k: nat)
    requires SlotsAfter(k) <= MAX_SLOTS
    ensures Wrap32(SlotsAfter(k) * 2) < 0 <==> SlotsAfter(k) == MAX_SLOTS
    ensures SlotsAfter(k + 1) == 2 * SlotsAfter(k)
    ensures SlotsAfter(k) < MAX_SLOTS ==>
              Wrap32(SlotsAfter(k) * 2) == SlotsAfter(k + 1) && SlotsAfter(k + 1) <= MAX_SLOTS
  {
    assert SlotsAfter(14) == 5 * 0x4000;
    assert SlotsAfter(28) == MAX_SLOTS;
    if k >= 28 {
      SlotsGrow(28, k);
    } else {
      SlotsGrow(k + 1, 28);
    }
  }

  lemma {:induction false} SlotsGrow(j: nat, k: nat)
    requires j <= k
    ensures SlotsAfter(j) <= SlotsAfter(k)
    ensures j < k ==> SlotsAfter(j) < SlotsAfter(k)
    decreases k
  {
    if j < k {
      SlotsGrow(j, k - 1);
      Positive(k - 1);
    }
  }

  lemma {:induction false} Positive(k: nat)
    ensures SlotsAfter(k) > 0
  {
    if k > 0 {
      Positive(k - 1);
    }
  }

  /** The room for tokens has to be doubled beyond the range of an int: for the tokens, or for a last one in which a
      separator is still looked for. */
  predicate TooMany(tokens: seq<seq<byte>>, sep: seq<byte>) {
    |tokens| > MAX_SLOTS || (|tokens| == MAX_SLOTS && |tokens[MAX_SLOTS - 1]| >= |sep|)
  }

  /** The search loop; it gives up when the room for tokens cannot be doubled any more. */
  method Split(s: seq<byte>, sep: seq<byte>) returns (r: Parts)
    requires |sep| > 0
    ensures r == if TooMany(Tokens(s, sep, 0), sep) then NoParts else Parts(Tokens(s, sep, 0))
  {
    hide NextSep, Tokens, SlotsAfter, Wrap32;
    var tokens: seq<seq<byte>> := [];
    ghost var all := Tokens(s, sep, 0);
    var start, j := 0, 0;
    var slots: int32 := 5;
    ghost var k := 0;
    FirstSlots();
    while j < |s| - (|sep| - 1)
      invariant 0 <= start <= j <= |s| && NextSep(s, sep, start) == NextSep(s, sep, j)
      invariant all == tokens + Tokens(s, sep, start)
      invariant |tokens| + 1 <= slots == SlotsAfter(k) <= MAX_SLOTS
      invariant |tokens| == MAX_SLOTS - 1 ==> j == start
      decreases |s| - j
    {
      if slots < |tokens| + 2 {
        SlotsDoubled(k);
        slots := Wrap32(slots * 2);
        if slots < 0 {
          LastToken(s, sep, start, tokens);
          return NoParts;
        }
        k := k + 1;
      }
      SepStep(s, sep, j);
      if s[j..j + |sep|] == sep {
        TokensStep(s, sep, start);
        Regroup(tokens, s[start..j], Tokens(s, sep, j + |sep|));
        tokens := tokens + [s[start..j]];
        start := j + |sep|;
        j := j + |sep|;
      } else {
        j := j + 1;
      }
    }
    NoRoom(s, sep, j);
    TokensStep(s, sep, start);
    assert all == tokens + [s[start..]];
    r := Parts(tokens + [s[start..]]);
  }

  /** One token is missing, and a separator fits into the rest: the rest is one token, or more. */
  lemma LastToken(s: seq<byte>, sep: seq<byte>, start: nat, tokens: seq<seq<byte>>)
    requires |sep| > 0 && start + |sep| <= |s| && |tokens| == MAX_SLOTS - 1
    ensures TooMany(tokens + Tokens(s, sep, start), sep)
  {
    hide NextSep, Tokens;
    TokensStep(s, sep, start);
  }

  lemma FirstSlots()
    ensures SlotsAfter(0) == 5
  {
  }

  /** No tokens for the empty string, and no result without a separator or with too many tokens. */
  method SplitLen(s: seq<byte>, sep: seq<byte>) returns (r: Parts)
    requires |s| < TWO31 && |sep| < TWO31
    ensures sep == [] ==> r == NoParts
    ensures sep != [] && s == [] ==> r == Parts([])
    ensures sep != [] && s != [] ==>
              r == if TooMany(Tokens(s, sep, 0), sep) then NoParts else Parts(Tokens(s, sep, 0))
  {
    if |sep| < 1 {
      return NoParts;
    }
    if |s| == 0 {
      return Parts([]);
    }
    r := Split(s, sep);
  }

  lemma Regroup(a: seq<seq<byte>>, t: seq<byte>, b: seq<seq<byte>>)
    ensures a + ([t] + b) == a + [t] + b
  {
  }

  lemma SepStep(s: seq<byte>, sep: seq<byte>, j: nat)
    requires |sep| > 0 && j + |sep| <= |s|
    ensures NextSep(s, sep, j) == if s[j..j + |sep|] == sep then j else NextSep(s, sep, j + 1)
  {
  }

  lemma TokensStep(s: seq<byte>, sep: seq<byte>, start: nat)
    requires start <= |s| && |sep| > 0
    ensures var j := NextSep(s, sep, start);
            if j == |s| then Tokens(s, sep, start) == [s[start..]]
            else j + |sep| <= |s| && Tokens(s, sep, start) == [s[start..j]] + Tokens(s, sep, j + |sep|)
  {
  }

  lemma {:induction false} NoRoom(s: seq<byte>, sep: seq<byte>, j: nat)
    requires j <= |s| < j + |sep|
    ensures NextSep(s, sep, j) == |s|
    decreases |s| - j
  {
    if j < |s| {
      NoRoom(s, sep, j + 1);
    }
  }

  function Glue(tokens: seq<seq<byte>>, sep: seq<byte>): seq<byte> {
    if tokens == [] then []
    else if |tokens| == 1 then tokens[0]
    else tokens[0] + sep + Glue(tokens[1..], sep)
  }

  lemma Slices(s: seq<byte>, i: nat, j: nat, k: nat)
    requires i <= j <= k <= |s|
    ensures s[i..] == s[i..j] + s[j..k] + s[k..]
  {
  }

  lemma GlueCons(t: seq<byte>, tokens: seq<seq<byte>>, sep: seq<byte>)
    requires tokens != []
    ensures Glue([t] + tokens, sep) == t + sep + Glue(tokens, sep)
  {
    assert ([t] + tokens)[1..] == tokens;
  }

  /** Gluing the tokens gives the string back. */
  lemma {:induction false} GlueTokens(s: seq<byte>, sep: seq<byte>, start: nat)
    requires start <= |s| && |sep| > 0
    ensures Glue(Tokens(s, sep, start), sep) == s[start..]
    decreases |s| - start
  {
    hide *;
    var j := NextSep(s, sep, start);
    TokensStep(s, sep, start);
    if j < |s| {
      GlueTokens(s, sep, j + |sep|);
      GlueCons(s[start..j], Tokens(s, sep, j + |sep|), sep);
      SepFound(s, sep, start);
      Slices(s, start, j, j + |sep|);
    } else {
      GlueOne(s[start..], sep);
    }
  }

  lemma GlueOne(t: seq<byte>, sep: seq<byte>)
    ensures Glue([t], sep) == t
  {
  }

  lemma SepFound(s: seq<byte>, sep: seq<byte>, start: nat)
    requires start <= |s| && |sep| > 0 && NextSep(s, sep, start) < |s|
    ensures var j := NextSep(s, sep, start); j + |sep| <= |s| && s[j..j + |sep|] == sep
  {
  }

  /** The separator first occurs where one token ends, and not in the last one. */
  predicate Clean(tokens: seq<seq<byte>>, sep: seq<byte>) {
    && (forall i :: 0 <= i < |tokens| - 1 ==> NextSep(tokens[i] + sep, sep, 0) == |tokens[i]|)
    && (tokens != [] ==> NextSep(tokens[|tokens| - 1], sep, 0) == |tokens[|tokens| - 1]|)
  }

  lemma {:induction false} SameSep(s: seq<byte>, t: seq<byte>, sep: seq<byte>, i: nat, j: nat)
    requires i <= |s| && j <= |t| && s[i..] == t[j..]
    ensures NextSep(s, sep, i) - i == NextSep(t, sep, j) - j
    decreases |s| - i
  {
    assert |s| - i == |t| - j;
    if i < |s| {
      if i + |sep| <= |s| {
        assert s[i..i + |sep|] == s[i..][..|sep|] && t[j..j + |sep|] == t[j..][..|sep|];
      }
      assert s[i + 1..] == s[i..][1..] == t[j..][1..] == t[j + 1..];
      SameSep(s, t, sep, i + 1, j + 1);
    }
  }

  /** Bytes behind an occurrence do not move the first one. */
  lemma FirstSep(s: seq<byte>, rest: seq<byte>, sep: seq<byte>)
    requires |sep| > 0 && NextSep(s + sep, sep, 0) == |s|
    ensures NextSep(s + sep + rest, sep, 0) == |s|
  {
    var t := s + sep + rest;
    assert SepAt(t, sep, |s|);
    forall k | 0 <= k < |s| ensures !SepAt(t, sep, k) {
      assert !SepAt(s + sep, sep, k);
      assert t[k..k + |sep|] == (s + sep)[k..k + |sep|];
    }
    var j := NextSep(t, sep, 0);
    assert j > |s| ==> !SepAt(t, sep, |s|);
    assert j < |s| ==> SepAt(t, sep, j);
  }

  lemma {:induction false} SameTokens(s: seq<byte>, t: seq<byte>, sep: seq<byte>, i: nat, j: nat)
    requires i <= |s| && j <= |t| && s[i..] == t[j..] && |sep| > 0
    ensures Tokens(s, sep, i) == Tokens(t, sep, j)
    decreases |s| - i
  {
    hide *;
    assert |s| - i == |s[i..]| == |t[j..]| == |t| - j;
    SameSep(s, t, sep, i, j);
    TokensStep(s, sep, i);
    TokensStep(t, sep, j);
    var n := NextSep(s, sep, i) - i;
    if i + n < |s| {
      SameSlices(s, t, i, j, n);
      SameSlices(s, t, i, j, n + |sep|);
      SameTokens(s, t, sep, i + n + |sep|, j + n + |sep|);
    }
  }

  lemma SameSlices(s: seq<byte>, t: seq<byte>, i: nat, j: nat, n: nat)
    requires i <= |s| && j <= |t| && s[i..] == t[j..] && i + n <= |s|
    ensures j + n <= |t| && s[i..i + n] == t[j..j + n] && s[i + n..] == t[j + n..]
  {
    assert |s| - i == |s[i..]| == |t[j..]| == |t| - j;
    assert s[i..i + n] == s[i..][..n] && t[j..j + n] == t[j..][..n];
    assert s[i + n..] == s[i..][n..] && t[j + n..] == t[j..][n..];
  }

  lemma SubSlice(s: seq<byte>, a: nat, b: nat, k: nat, l: nat)
    requires a <= b <= |s| && k <= l <= b - a
    ensures s[a..b][k..l] == s[a + k..a + l]
  {
    var x, y := s[a..b][k..l], s[a + k..a + l];
    assert |x| == |y| && forall i :: 0 <= i < |x| ==> x[i] == s[a + k + i] == y[i];
  }

  /** A token read from a string ends where the separator first occurs. */
  lemma TokenIsFirst(s: seq<byte>, sep: seq<byte>, start: nat)
    requires start <= |s| && |sep| > 0 && NextSep(s, sep, start) < |s|
    ensures var t := s[start..NextSep(s, sep, start)]; NextSep(t + sep, sep, 0) == |t|
  {
    var j := NextSep(s, sep, start);
    var t := s[start..j] + sep;
    assert t == s[start..j + |sep|];
    forall k | 0 <= k <= j - start ensures SepAt(t, sep, k) <==> k == j - start {
      SubSlice(s, start, j + |sep|, k, k + |sep|);
      assert SepAt(t, sep, k) == SepAt(s, sep, start + k);
    }
    var n := NextSep(t, sep, 0);
    assert n > j - start ==> !SepAt(t, sep, j - start);
  }

  lemma {:induction false} TokensAreClean(s: seq<byte>, sep: seq<byte>, start: nat)
    requires start <= |s| && |sep| > 0
    ensures Clean(Tokens(s, sep, start), sep)
    decreases |s| - start
  {
    hide *;
    TokensStep(s, sep, start);
    var j := NextSep(s, sep, start);
    if j < |s| {
      TokenIsFirst(s, sep, start);
      TokensAreClean(s, sep, j + |sep|);
      CleanCons(s[start..j], Tokens(s, sep, j + |sep|), sep);
    } else {
      var t := s[start..];
      assert t[0..] == t && |t| == |s| - start;
      SameSep(s, t, sep, start, 0);
      CleanOne(t, sep);
    }
  }

  lemma CleanOne(t: seq<byte>, sep: seq<byte>)
    requires NextSep(t, sep, 0) == |t|
    ensures Clean([t], sep)
  {
    hide NextSep;
  }

  lemma CleanCons(t: seq<byte>, tokens: seq<seq<byte>>, sep: seq<byte>)
    requires tokens != []
    ensures Clean([t] + tokens, sep) <==> NextSep(t + sep, sep, 0) == |t| && Clean(tokens, sep)
  {
    hide NextSep;
    var all := [t] + tokens;
    assert |all| == |tokens| + 1 && all[0] == t && all[|all| - 1] == tokens[|tokens| - 1];
    assert forall i :: 0 <= i < |tokens| ==> all[i + 1] == tokens[i];
    if Clean(all, sep) {
      forall i | 0 <= i < |tokens| - 1 ensures NextSep(tokens[i] + sep, sep, 0) == |tokens[i]| {
        assert all[i + 1] == tokens[i];
      }
    } else if NextSep(t + sep, sep, 0) == |t| && Clean(tokens, sep) {
      forall i | 0 <= i < |all| - 1 ensures NextSep(all[i] + sep, sep, 0) == |all[i]| {
        assert i > 0 ==> all[i] == tokens[i - 1];
      }
    }
  }

  lemma SplitsFirst(t: seq<byte>, rest: seq<byte>, sep: seq<byte>)
    requires |sep| > 0 && NextSep(t + sep, sep, 0) == |t|
    ensures Tokens(t + sep + rest, sep, 0) == [t] + Tokens(rest, sep, 0)
  {
    hide NextSep, Tokens;
    var s := t + sep + rest;
    FirstSep(t, rest, sep);
    TokensStep(s, sep, 0);
    assert s[|t| + |sep|..] == rest[0..] && s[0..|t|] == t;
    SameTokens(s, rest, sep, |t| + |sep|, 0);
  }

  lemma {:induction false} CleanSplits(tokens: seq<seq<byte>>, sep: seq<byte>)
    requires tokens != [] && |sep| > 0 && Clean(tokens, sep)
    ensures Tokens(Glue(tokens, sep), sep, 0) == tokens
  {
    if |tokens| == 1 {
      hide NextSep, Tokens;
      TokensStep(tokens[0], sep, 0);
      assert tokens[0][0..] == tokens[0];
    } else {
      var t, rest := tokens[0], tokens[1..];
      assert Glue(tokens, sep) == t + sep + Glue(rest, sep);
      hide *;
      assert tokens == [t] + rest;
      CleanCons(t, rest, sep);
      CleanSplits(rest, sep);
      SplitsFirst(t, Glue(rest, sep), sep);
    }
  }

  /** Splitting and gluing invert: gluing the tokens of a string gives the string, and strings come back from
      being glued if and only if the separator first occurs between them. */
  lemma SplitInverts(s: seq<byte>, tokens: seq<seq<byte>>, sep: seq<byte>)
    requires |sep| > 0 && tokens != []
    ensures Glue(Tokens(s, sep, 0), sep) == s
    ensures Tokens(Glue(tokens, sep), sep, 0) == tokens <==> Clean(tokens, sep)
  {
    GlueTokens(s, sep, 0);
    assert s[0..] == s;
    TokensAreClean(Glue(tokens, sep), sep, 0);
    if Clean(tokens, sep) {
      CleanSplits(tokens, sep);
    }
  }
}
