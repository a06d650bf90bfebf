/**
 Quoting a string for a command line and splitting a command line into arguments. The strings are those of
 sds.dfy, whose lengths are ints.
 */
module SdsQuote {
  import opened Bytes
  import opened MachineInts

  // ----- characters, as in the C locale

  predicate IsSpace(b: byte) {
    b == 32 || 9 <= b <= 13
  }

  predicate IsPrint(b: byte) {
    32 <= b <= 126
  }

  const QUOTE: byte := 34
  const BACKSLASH: byte := 92

  // ----- printing

  function HexDigit(n: byte): byte
    requires n < 16
  {
    if n < 10 then 48 + n else 87 + n
  }

  /** The letter after the backslash for the bytes that have one; 0 for the others. */
  function Letter(b: byte): byte {
    if b == 10 then 110 else if b == 13 then 114 else if b == 9 then 116
    else if b == 7 then 97 else if b == 8 then 98 else 0
  }

  /** The bytes that are not printed in hexadecimal. */
  predicate Plain(b: byte) {
    IsPrint(b) || Letter(b) != 0
  }

  function Escape(b: byte): seq<byte> {
    if b == BACKSLASH || b == QUOTE then [BACKSLASH, b]
    else if Letter(b) != 0 then [BACKSLASH, Letter(b)]
    else if IsPrint(b) then [b]
    else [BACKSLASH, 120, HexDigit(b / 16), HexDigit(b % 16)]
  }

  function EscapeAll(s: seq<byte>): seq<byte> {
    if s == [] then [] else Escape(s[0]) + EscapeAll(s[1..])
  }

  function Repr(s: seq<byte>): seq<byte> {
    [QUOTE] + EscapeAll(s) + [QUOTE]
  }

  lemma {:induction false} EscapeAllAppend(s: seq<byte>, t: seq<byte>)
    ensures EscapeAll(s + t) == EscapeAll(s) + EscapeAll(t)
  {
    if s == [] {
      assert s + t == t;
    } else {
      assert (s + t)[1..] == s[1..] + t;
      EscapeAllAppend(s[1..], t);
    }
  }

  method CatEscaped(s: seq<byte>, c: byte) returns (r: seq<byte>)
    ensures r == s + Escape(c)
  {
    if c == 92 || c == 34 {
      r := s + [92, c];
    } else if c == 10 {
      r := s + [92, 110];
    } else if c == 13 {
      r := s + [92, 114];
    } else if c == 9 {
      r := s + [92, 116];
    } else if c == 7 {
      r := s + [92, 97];
    } else if c == 8 {
      r := s + [92, 98];
    } else if IsPrint(c) {
      r := s + [c];
    } else {
      r := s + [92, 120, HexDigit(c / 16), HexDigit(c % 16)];
    }
  }

  lemma EscapeOne(b: byte)
    ensures EscapeAll([b]) == Escape(b)
  {
    assert [b][1..] == [];
    assert Escape(b) + [] == Escape(b);
  }

  /** Appends the quoted form of p. */
  method CatRepr(s: seq<byte>, p: seq<byte>) returns (r: seq<byte>)
    requires |s| + |Repr(p)| < TWO31
    ensures r == s + Repr(p)
  {
    hide Escape;
    r := s + [QUOTE];
    var i := 0;
    while i < |p|
      invariant 0 <= i <= |p|
      invariant r == s + [QUOTE] + EscapeAll(p[..i])
    {
      assert p[..i + 1] == p[..i] + [p[i]];
      EscapeAllAppend(p[..i], [p[i]]);
      EscapeOne(p[i]);
      r := CatEscaped(r, p[i]);
      i := i + 1;
    }
    assert p[..i] == p;
    r := r + [QUOTE];
  }

  // ----- splitting

  datatype Token = Done(text: seq<byte>, rest: seq<byte>) | Unbalanced
  datatype Split = Args(args: seq<seq<byte>>) | Failed

  /** The character at the front; the line ends with a zero. */
  function Front(s: seq<byte>): byte {
    if s == [] then 0 else s[0]
  }

  function SkipBlanks(s: seq<byte>): (r: seq<byte>)
    ensures |r| <= |s|
  {
    if s != [] && IsSpace(s[0]) then SkipBlanks(s[1..]) else s
  }

  function Unescape(b: byte): byte {
    if b == 110 then 10 else if b == 114 then 13 else if b == 116 then 9
    else if b == 98 then 8 else if b == 97 then 7 else b
  }

  function Prepend(b: byte, t: Token): Token {
    if t.Done? then Done([b] + t.text, t.rest) else Unbalanced
  }

  /** One argument, up to a blank outside quotes or a closing quote, which a blank must follow. */
  function NextToken(s: seq<byte>, quoted: bool): (t: Token)
    ensures t.Done? ==> |t.rest| <= |s|
    ensures t.Done? && s != [] && s[0] != 0 ==> |t.rest| < |s|
    decreases |s|
  {
    if quoted then
      if Front(s) == BACKSLASH && Front(s[1..]) != 0 then Prepend(Unescape(s[1]), NextToken(s[2..], true))
      else if Front(s) == QUOTE then (if Front(s[1..]) != 0 && !IsSpace(Front(s[1..])) then Unbalanced
                                     else Done([], s[1..]))
      else if Front(s) == 0 then Unbalanced
      else Prepend(s[0], NextToken(s[1..], true))
    else
      if Front(s) == 0 then Done([], s)
      else if Front(s) == 32 || Front(s) == 10 || Front(s) == 13 || Front(s) == 9 then Done([], s[1..])
      else if Front(s) == QUOTE then NextToken(s[1..], true)
      else Prepend(s[0], NextToken(s[1..], false))
  }

  function Cons(t: seq<byte>, a: Split): Split {
    if a.Args? then Args([t] + a.args) else Failed
  }

  function Arguments(s: seq<byte>): Split
    decreases |s|
  {
    var t := SkipBlanks(s);
    if Front(t) == 0 then Args([])
    else
      match NextToken(t, false)
      case Unbalanced => Failed
      case Done(text, rest) => Cons(text, Arguments(rest))
  }

  function PrependAll(s: seq<byte>, t: Token): Token {
    if t.Done? then Done(s + t.text, t.rest) else Unbalanced
  }

  function ConsAll(v: seq<seq<byte>>, a: Split): Split {
    if a.Args? then Args(v + a.args) else Failed
  }

  lemma PrependOne(s: seq<byte>, b: byte, t: Token)
    ensures PrependAll(s, Prepend(b, t)) == PrependAll(s + [b], t)
  {
    if t.Done? {
      assert s + ([b] + t.text) == (s + [b]) + t.text;
    }
  }

  lemma ConsOne(v: seq<seq<byte>>, t: seq<byte>, a: Split)
    ensures ConsAll(v, Cons(t, a)) == ConsAll(v + [t], a)
  {
    if a.Args? {
      assert v + ([t] + a.args) == (v + [t]) + a.args;
    }
  }

  /** The character under a cursor into the line. */
  function CharAt(line: seq<byte>, p: nat): byte {
    if p < |line| then line[p] else 0
  }

  lemma Suffix(line: seq<byte>, p: nat)
    requires p <= |line|
    ensures Front(line[p..]) == CharAt(line, p)
    ensures p < |line| ==> line[p..][1..] == line[p + 1..] && Front(line[p..][1..]) == CharAt(line, p + 1)
    ensures p + 1 < |line| ==> line[p..][1] == line[p + 1] && line[p..][2..] == line[p + 2..]
  {
  }

  /** The token at a cursor, by the character there and the one after it. */
  lemma TokenAt(line: seq<byte>, p: nat, quoted: bool)
    requires p <= |line|
    ensures var c, d, t := CharAt(line, p), CharAt(line, p + 1), NextToken(line[p..], quoted);
      if c == 0 then t == if quoted then Unbalanced else Done([], line[p..])
      else if quoted && c == BACKSLASH && d != 0 then t == Prepend(Unescape(d), NextToken(line[p + 2..], true))
      else if quoted && c == QUOTE then t == if d != 0 && !IsSpace(d) then Unbalanced else Done([], line[p + 1..])
      else if !quoted && c == QUOTE then t == NextToken(line[p + 1..], true)
      else if !quoted && (c == 32 || c == 10 || c == 13 || c == 9) then t == Done([], line[p + 1..])
      else t == Prepend(c, NextToken(line[p + 1..], quoted))
  {
    hide Unescape, Prepend, IsSpace;
    Suffix(line, p);
  }

  method ReadToken(line: seq<byte>, start: nat) returns (ok: bool, current: seq<byte>, p: nat)
    requires start < |line| && line[start] != 0
    ensures ok == NextToken(line[start..], false).Done?
    ensures ok ==> start < p <= |line| && NextToken(line[start..], false) == Done(current, line[p..])
  {
    var inq, done := false, false;
    p, current := start, [];
    hide NextToken, Unescape, Prepend, IsSpace;
    while !done
      invariant start <= p <= |line| && (p == start ==> !done && !inq && current == [])
      invariant !done ==> NextToken(line[start..], false) == PrependAll(current, NextToken(line[p..], inq))
      invariant done ==> NextToken(line[start..], false) == Done(current, line[p..])
      decreases |line| - p, if done then 0 else 1
    {
      TokenAt(line, p, inq);
      var c := CharAt(line, p);
      if inq {
        if c == BACKSLASH && CharAt(line, p + 1) != 0 {
          p := p + 1;
          var d := CharAt(line, p);
          PrependOne(current, Unescape(d), NextToken(line[p + 1..], true));
          current := current + [Unescape(d)];
        } else if c == QUOTE {
          if CharAt(line, p + 1) != 0 && !IsSpace(CharAt(line, p + 1)) {
            return false, [], p;
          }
          done := true;
        } else if c == 0 {
          return false, [], p;
        } else {
          PrependOne(current, c, NextToken(line[p + 1..], inq));
          current := current + [c];
        }
      } else {
        if c == 32 || c == 10 || c == 13 || c == 9 || c == 0 {
          done := true;
        } else if c == QUOTE {
          inq := true;
        } else {
          PrependOne(current, c, NextToken(line[p + 1..], inq));
          current := current + [c];
        }
      }
      if CharAt(line, p) != 0 {
        p := p + 1;
      }
    }
    ok := true;
  }

  /** Splits a line; Failed when quotes are unbalanced or a closing quote is followed by something else than a blank. */
  method SplitArgs(line: seq<byte>) returns (r: Split)
    requires |line| < TWO31
    ensures r == Arguments(line)
  {
    var p := 0;
    var vector: seq<seq<byte>> := [];
    while true
      invariant 0 <= p <= |line|
      invariant Arguments(line) == ConsAll(vector, Arguments(line[p..]))
      decreases |line| - p
    {
      ghost var start := line[p..];
      while p < |line| && line[p] != 0 && IsSpace(line[p])
        invariant |line| - |start| <= p <= |line|
        invariant SkipBlanks(start) == SkipBlanks(line[p..])
      {
        Suffix(line, p);
        p := p + 1;
      }
      Suffix(line, p);
      if p == |line| || line[p] == 0 {
        return Args(vector);
      }
      var ok, current, q := ReadToken(line, p);
      if !ok {
        return Failed;
      }
      ConsOne(vector, current, Arguments(line[q..]));
      vector, p := vector + [current], q;
    }
  }

  // ----- what comes back

  /** A byte printed in hexadecimal comes back as the letter x and the two digits. */
  function Echo(b: byte): seq<byte> {
    if Plain(b) then [b] else [120, HexDigit(b / 16), HexDigit(b % 16)]
  }

  function EchoAll(s: seq<byte>): seq<byte> {
    if s == [] then [] else Echo(s[0]) + EchoAll(s[1..])
  }

  function EchoEach(args: seq<seq<byte>>): (r: seq<seq<byte>>)
    ensures |r| == |args|
  {
    seq(|args|, i requires 0 <= i < |args| => EchoAll(args[i]))
  }

  /** The quoted strings, with a space between them. */
  function Join(args: seq<seq<byte>>): seq<byte> {
    if args == [] then []
    else if |args| == 1 then Repr(args[0])
    else Repr(args[0]) + [32] + Join(args[1..])
  }

  lemma HexIsPlain(n: byte)
    requires n < 16
    ensures HexDigit(n) != 0 && HexDigit(n) != QUOTE && HexDigit(n) != BACKSLASH
  {
  }

  lemma ReadsOne(b: byte, s: seq<byte>)
    requires b != QUOTE && b != BACKSLASH && b != 0
    ensures NextToken([b] + s, true) == Prepend(b, NextToken(s, true))
  {
    assert ([b] + s)[1..] == s;
  }

  lemma ReadsPair(b: byte, s: seq<byte>)
    requires b != 0
    ensures NextToken([BACKSLASH, b] + s, true) == Prepend(Unescape(b), NextToken(s, true))
  {
    assert ([BACKSLASH, b] + s)[2..] == s;
  }

  lemma ReadsEscape(b: byte, s: seq<byte>)
    ensures NextToken(Escape(b) + s, true) == PrependAll(Echo(b), NextToken(s, true))
  {
    if b == BACKSLASH || b == QUOTE {
      ReadsPair(b, s);
    } else if Letter(b) != 0 {
      ReadsPair(Letter(b), s);
    } else if IsPrint(b) {
      ReadsOne(b, s);
    } else {
      ReadsHex(b, s);
    }
  }

  lemma ReadsThree(h: byte, l: byte, s: seq<byte>)
    requires h != QUOTE && h != BACKSLASH && h != 0 && l != QUOTE && l != BACKSLASH && l != 0
    ensures NextToken([BACKSLASH, 120, h, l] + s, true) == PrependAll([120, h, l], NextToken(s, true))
  {
    hide NextToken;
    assert [BACKSLASH, 120, h, l] + s == [BACKSLASH, 120] + ([h] + ([l] + s));
    ReadsPair(120, [h] + ([l] + s));
    ReadsOne(h, [l] + s);
    ReadsOne(l, s);
    PrependThree(120, h, l, NextToken(s, true));
  }

  lemma PrependThree(x: byte, h: byte, l: byte, t: Token)
    ensures PrependAll([x, h, l], t) == Prepend(x, Prepend(h, Prepend(l, t)))
  {
    assert [x, h, l][1..] == [h, l] && [h, l][1..] == [l] && [l][1..] == [];
  }

  lemma ReadsHex(b: byte, s: seq<byte>)
    ensures NextToken([BACKSLASH, 120, HexDigit(b / 16), HexDigit(b % 16)] + s, true) ==
            PrependAll([120, HexDigit(b / 16), HexDigit(b % 16)], NextToken(s, true))
  {
    HexIsPlain(b / 16);
    HexIsPlain(b % 16);
    hide *;
    ReadsThree(HexDigit(b / 16), HexDigit(b % 16), s);
  }

  lemma {:induction false} ReadsQuoted(s: seq<byte>, rest: seq<byte>)
    requires Front(rest) == 0 || IsSpace(Front(rest))
    ensures NextToken(EscapeAll(s) + [QUOTE] + rest, true) == Done(EchoAll(s), rest)
  {
    if s == [] {
      assert EscapeAll(s) + [QUOTE] + rest == [QUOTE] + rest;
      assert ([QUOTE] + rest)[1..] == rest;
    } else {
      var later := EscapeAll(s[1..]) + [QUOTE] + rest;
      assert EscapeAll(s) + [QUOTE] + rest == Escape(s[0]) + later;
      ReadsEscape(s[0], later);
      ReadsQuoted(s[1..], rest);
    }
  }

  lemma ReadsRepr(s: seq<byte>, rest: seq<byte>)
    requires Front(rest) == 0 || IsSpace(Front(rest))
    ensures Arguments(Repr(s) + rest) == Cons(EchoAll(s), Arguments(rest))
  {
    var line := Repr(s) + rest;
    assert line[1..] == EscapeAll(s) + [QUOTE] + rest;
    ReadsQuoted(s, rest);
    assert NextToken(line, false) == Done(EchoAll(s), rest);
  }

  lemma SpaceSkipped(s: seq<byte>)
    ensures Arguments([32] + s) == Arguments(s)
  {
    assert ([32] + s)[1..] == s;
    hide NextToken;
  }

  /** Splitting a joined line always succeeds, with as many arguments as were joined. */
  lemma {:induction false} SplitJoined(args: seq<seq<byte>>)
    ensures Arguments(Join(args)) == Args(EchoEach(args))
  {
    hide Repr, Arguments, EchoAll;
    if |args| <= 1 {
      FewJoined(args);
    } else {
      var rest := [32] + Join(args[1..]);
      assert Join(args) == Repr(args[0]) + rest;
      ReadsRepr(args[0], rest);
      SpaceSkipped(Join(args[1..]));
      SplitJoined(args[1..]);
      assert EchoEach(args) == [EchoAll(args[0])] + EchoEach(args[1..]);
    }
  }

  lemma FewJoined(args: seq<seq<byte>>)
    requires |args| <= 1
    ensures Arguments(Join(args)) == Args(EchoEach(args))
  {
    hide Repr, EchoAll, Arguments;
    NothingJoined();
    if args != [] {
      ReadsRepr(args[0], []);
      assert Repr(args[0]) + [] == Repr(args[0]);
    }
  }

  lemma NothingJoined()
    ensures Arguments([]) == Args([]) && Join([]) == [] && EchoEach([]) == []
  {
    hide NextToken;
  }

  lemma {:induction false} EchoSame(s: seq<byte>)
    ensures |EchoAll(s)| >= |s|
    ensures EchoAll(s) == s <==> forall i :: 0 <= i < |s| ==> Plain(s[i])
  {
    if s != [] {
      EchoSame(s[1..]);
      assert s == [s[0]] + s[1..];
      if Plain(s[0]) {
        assert (forall i :: 0 <= i < |s| ==> Plain(s[i])) <==> (forall i :: 0 <= i < |s[1..]| ==> Plain(s[1..][i]));
      } else {
        assert |EchoAll(s)| > |s|;
      }
    }
  }

  /** A list of strings comes back unchanged exactly when none of its bytes had to be printed in hexadecimal. */
  lemma RoundTrip(args: seq<seq<byte>>)
    ensures Arguments(Join(args)) == Args(args) <==>
            forall i, j :: 0 <= i < |args| && 0 <= j < |args[i]| ==> Plain(args[i][j])
  {
    SplitJoined(args);
    forall i | 0 <= i < |args|
      ensures EchoEach(args)[i] == args[i] <==> forall j :: 0 <= j < |args[i]| ==> Plain(args[i][j])
    {
      EchoSame(args[i]);
    }
    if EchoEach(args) != args {
      var i :| 0 <= i < |args| && EchoEach(args)[i] != args[i];
    }
  }

  /** The byte 1 is printed as \x01, which is read as x01. */
  lemma HexIsNotRead()
    ensures Arguments(Join([[1]])) == Args([[120, 48, 49]])
  {
    var s: seq<byte> := [1];
    SplitJoined([s]);
    assert s[1..] == [] && Echo(1) == [120, 48, 49];
    assert EchoAll(s) == Echo(1) + EchoAll([]) == [120, 48, 49];
    assert EchoEach([s]) == [EchoAll(s)];
  }

  /** Printing and splitting as the code does it. */
  method QuoteAndSplit(args: seq<seq<byte>>) returns (r: Split)
    requires |Join(args)| < TWO31
    ensures r == Args(EchoEach(args))
  {
    var line := [];
    var i := 0;
    while i < |args|
      invariant 0 <= i <= |args|
      invariant line == Join(args[..i])
    {
      JoinMore(args[..i], args[i]);
      assert args[..i + 1] == args[..i] + [args[i]];
      JoinPrefix(args, i + 1);
      if i > 0 {
        line := line + [32];
      }
      line := CatRepr(line, args[i]);
      i := i + 1;
    }
    assert args[..i] == args;
    SplitJoined(args);
    r := SplitArgs(line);
  }

  lemma {:induction false} JoinPrefix(args: seq<seq<byte>>, i: nat)
    requires i <= |args|
    ensures |Join(args[..i])| <= |Join(args)|
    decreases |args| - i
  {
    assert Join([]) == [];
    hide Join, Repr;
    if i < |args| {
      assert args[..i + 1] == args[..i] + [args[i]];
      JoinMore(args[..i], args[i]);
      JoinPrefix(args, i + 1);
    } else {
      assert args[..i] == args;
    }
  }

  lemma {:induction false} JoinMore(args: seq<seq<byte>>, a: seq<byte>)
    ensures Join(args + [a]) == (if args == [] then [] else Join(args) + [32]) + Repr(a)
  {
    hide Repr;
    if args == [] {
    } else if |args| == 1 {
      assert (args + [a])[1..] == [a];
    } else {
      JoinMore(args[1..], a);
      assert (args + [a])[1..] == args[1..] + [a];
      var r, j := Repr(args[0]), Join(args[1..]);
      assert r + [32] + (j + [32] + Repr(a)) == r + [32] + j + [32] + Repr(a);
    }
  }

  // ----- lines without quotes, and bytes that are escaped

  /** A word without quotes: no blank ends it, and it does not start with one that is skipped. */
  predicate Unquoted(w: seq<byte>) {
    && w != [] && w[0] != 11 && w[0] != 12
    && forall i | 0 <= i < |w| :: w[i] != 0 && w[i] != 9 && w[i] != 10 && w[i] != 13 && w[i] != 32 && w[i] != 34
  }

  predicate Blanks(g: seq<byte>) {
    forall i | 0 <= i < |g| :: 9 <= g[i] <= 13 || g[i] == 32
  }

  /** Words, each with the blanks behind it. */
  function Laid(ws: seq<seq<byte>>, gaps: seq<seq<byte>>): seq<byte>
    requires |gaps| == |ws|
  {
    if ws == [] then [] else ws[0] + (gaps[0] + Laid(ws[1..], gaps[1..]))
  }

  /** The blanks behind a word that ends it: a space, tab, newline or carriage return comes first. */
  predicate Ending(g: seq<byte>) {
    Blanks(g) && g != [] && g[0] != 11 && g[0] != 12
  }

  lemma {:induction false} BlanksSkipped(g: seq<byte>, s: seq<byte>)
    requires Blanks(g)
    ensures SkipBlanks(g + s) == SkipBlanks(s)
  {
    if g == [] {
      assert g + s == s;
    } else {
      assert (g + s)[1..] == g[1..] + s;
      BlanksSkipped(g[1..], s);
    }
  }

  lemma {:induction false} WordRead(w: seq<byte>, s: seq<byte>)
    requires forall i | 0 <= i < |w| :: w[i] != 0 && w[i] != 9 && w[i] != 10 && w[i] != 13 && w[i] != 32 && w[i] != 34
    requires s == [] || s[0] == 9 || s[0] == 10 || s[0] == 13 || s[0] == 32
    ensures NextToken(w + s, false) == Done(w, if s == [] then [] else s[1..])
    decreases |w|
  {
    if w == [] {
      assert w + s == s;
    } else {
      assert (w + s)[1..] == w[1..] + s && [w[0]] + w[1..] == w;
      WordRead(w[1..], s);
    }
  }

  /** A line of words without quotes splits into these words, whatever blanks are before, between and behind them;
      the line may also end directly behind the last word. */
  lemma {:induction false} UnquotedLine(lead: seq<byte>, ws: seq<seq<byte>>, gaps: seq<seq<byte>>)
    requires |gaps| == |ws| && Blanks(lead) && forall i | 0 <= i < |ws| :: Unquoted(ws[i])
    requires forall i | 0 <= i < |ws| :: Ending(gaps[i]) || (i == |ws| - 1 && gaps[i] == [])
    ensures Arguments(lead + Laid(ws, gaps)) == Args(ws)
    decreases |ws|
  {
    BlanksSkipped(lead, Laid(ws, gaps));
    hide NextToken;
    if ws != [] {
      var w, g, more := ws[0], gaps[0], Laid(ws[1..], gaps[1..]);
      if g == [] {
        LastWord(w, ws, more);
      } else {
        UnquotedLine(g[1..], ws[1..], gaps[1..]);
        FirstWord(w, g, more);
        assert [w] + ws[1..] == ws;
      }
    }
  }

  lemma LastWord(w: seq<byte>, ws: seq<seq<byte>>, more: seq<byte>)
    requires ws == [w] && Unquoted(w) && more == []
    ensures Arguments(w + ([] + more)) == Args(ws)
  {
    assert w + ([] + more) == w + [] == w;
    WordRead(w, []);
    hide NextToken;
    assert Arguments([]) == Args([]) && [w] + [] == [w];
  }

  lemma FirstWord(w: seq<byte>, g: seq<byte>, more: seq<byte>)
    requires Unquoted(w) && Ending(g)
    ensures Arguments(w + (g + more)) == Cons(w, Arguments(g[1..] + more))
  {
    WordRead(w, g + more);
    assert (g + more)[1..] == g[1..] + more;
    hide NextToken;
  }

  lemma TwoWords(lead: seq<byte>, u: seq<byte>, g: seq<byte>, w: seq<byte>, h: seq<byte>)
    requires Blanks(lead) && Unquoted(u) && Unquoted(w) && Ending(g) && (Ending(h) || h == [])
    ensures Arguments(lead + (u + (g + (w + h)))) == Args([u, w])
  {
    var ws, gaps := [u, w], [g, h];
    assert ws[1..] == [w] && gaps[1..] == [h] && [w][1..] == [] && [h][1..] == [];
    assert Laid([w], [h]) == w + (h + []) == w + h;
    assert Laid(ws, gaps) == u + (g + (w + h));
    hide Arguments, Laid, Unquoted, Ending, Blanks;
    UnquotedLine(lead, ws, gaps);
  }

  /** "foo\tbar\r\n", and " a  b\c", whose backslash is kept. */
  lemma UnquotedLines()
    ensures Arguments([102, 111, 111, 9, 98, 97, 114, 13, 10]) == Args([[102, 111, 111], [98, 97, 114]])
    ensures Arguments([32, 97, 32, 32, 98, 92, 99]) == Args([[97], [98, 92, 99]])
  {
    hide Arguments;
    TwoWords([], [102, 111, 111], [9], [98, 97, 114], [13, 10]);
    assert [] + ([102, 111, 111] + ([9] + ([98, 97, 114] + [13, 10]))) == [102, 111, 111, 9, 98, 97, 114, 13, 10];
    TwoWords([32], [97], [32, 32], [98, 92, 99], []);
    assert [32] + ([97] + ([32, 32] + ([98, 92, 99] + []))) == [32, 97, 32, 32, 98, 92, 99];
  }

  /** The letters for the bytes 7 to 10 and 13, the quote, the backslash, and the bytes that are printed as they are. */
  lemma EscapedBytes()
    ensures Repr([7]) == [34, 92, 97, 34] && Repr([8]) == [34, 92, 98, 34]
    ensures Repr([9]) == [34, 92, 116, 34] && Repr([10]) == [34, 92, 110, 34]
    ensures Repr([13]) == [34, 92, 114, 34] && Repr([34]) == [34, 92, 34, 34]
    ensures Repr([92]) == [34, 92, 92, 34] && Repr([32]) == [34, 32, 34]
  {
    hide EscapeAll;
    EscapeOne(7);
    EscapeOne(8);
    EscapeOne(9);
    EscapeOne(10);
    EscapeOne(13);
    EscapeOne(34);
    EscapeOne(92);
    EscapeOne(32);
  }

  /** Hexadecimal for the other blanks, and for the bytes outside the printed range, which ends at 126. */
  lemma HexBytes()
    ensures Repr([11]) == [34, 92, 120, 48, 98, 34] && Repr([12]) == [34, 92, 120, 48, 99, 34]
    ensures Repr([0]) == [34, 92, 120, 48, 48, 34] && Repr([31]) == [34, 92, 120, 49, 102, 34]
    ensures Repr([127]) == [34, 92, 120, 55, 102, 34] && Repr([171]) == [34, 92, 120, 97, 98, 34]
    ensures Repr([255]) == [34, 92, 120, 102, 102, 34] && Repr([126]) == [34, 126, 34]
  {
    hide EscapeAll;
    EscapeOne(11);
    EscapeOne(12);
    EscapeOne(0);
    EscapeOne(31);
    EscapeOne(127);
    EscapeOne(171);
    EscapeOne(255);
    EscapeOne(126);
  }
}
