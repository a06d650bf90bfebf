/**
 The command formatters of hiredis. Both precompute the length of the command in an int and then write it;
 that is right for commands of fewer than 2^31 - 1 bytes. The text of the arguments can neither change the
 number of arguments nor spill from one into the next, and the reply reader parses the command back into
 exactly the arguments.
 */
module RespFormat {
  import opened Bytes
  import opened MachineInts
  import opened RespSpec
  import opened RespRoundTrip

  // ----- the command as a reply tree

  function Strings(args: seq<seq<byte>>): (r: Reply)
    ensures r.Arr? && |r.element| == |args|
  {
    Arr(|args|, seq(|args|, i requires 0 <= i < |args| => Str(args[i])))
  }

  /** The bytes of a command: its arguments as a RESP2 array of bulk strings. */
  function Command(args: seq<seq<byte>>): seq<byte> {
    Line(42, Decimal(|args|)) + Bulks(args)
  }

  function Bulks(args: seq<seq<byte>>): seq<byte> {
    if args == [] then [] else Bulk(args[0]) + Bulks(args[1..])
  }

  function Bulk(arg: seq<byte>): seq<byte> {
    Line(36, Decimal(|arg|)) + arg + CRLF
  }

  lemma {:induction false} BulksSnoc(args: seq<seq<byte>>, arg: seq<byte>)
    ensures Bulks(args + [arg]) == Bulks(args) + Bulk(arg)
  {
    hide Bulk;
    if args == [] {
      assert args + [arg] == [arg];
      assert [arg][1..] == [];
    } else {
      assert (args + [arg])[1..] == args[1..] + [arg];
      BulksSnoc(args[1..], arg);
    }
  }

  lemma {:induction false} BulksArePrinted(args: seq<seq<byte>>)
    ensures Bulks(args) == PrintAll(Strings(args).element)
    ensures MaxLevels(Strings(args).element) == 0
  {
    if args != [] {
      assert Strings(args).element[1..] == Strings(args[1..]).element;
      BulksArePrinted(args[1..]);
    }
  }

  /** The number of arguments, and the length of each, fit an int. */
  predicate InRange(args: seq<seq<byte>>) {
    |args| < TWO31 && forall i :: 0 <= i < |args| ==> |args[i]| < TWO31
  }

  lemma {:induction false} BulksCover(args: seq<seq<byte>>)
    ensures |args| <= |Bulks(args)| && forall i :: 0 <= i < |args| ==> |args[i]| <= |Bulks(args)|
  {
    if args != [] {
      BulksCover(args[1..]);
      BulkLength(args[0]);
      hide Bulk;
      forall i | 0 <= i < |args| ensures |args[i]| <= |Bulks(args)| {
        assert i > 0 ==> args[i] == args[1..][i - 1];
      }
    }
  }

  lemma ShortCommandInRange(args: seq<seq<byte>>)
    requires |Command(args)| < TWO31
    ensures InRange(args)
  {
    BulksCover(args);
  }

  /** A command that the formatters can write is read back as the array of its arguments, whatever bytes these
      contain, with the bytes behind it unread. */
  lemma ReadCommand(args: seq<seq<byte>>, rest: seq<byte>)
    requires |Command(args)| < TWO31 - 1
    ensures GetReply(Feed(IDLE, Command(args) + rest)) == (Some(Strings(args)), Feed(IDLE, rest))
  {
    ShortCommandInRange(args);
    hide Print, PrintAll, MaxLevels, GetReply, Command;
    BulksArePrinted(args);
    CommandIsPrinted(args);
    RoundTrip(Strings(args), rest);
  }

  lemma CommandIsPrinted(args: seq<seq<byte>>)
    requires InRange(args) && Bulks(args) == PrintAll(Strings(args).element)
    ensures Command(args) == Print(Strings(args)) && Printable(Strings(args))
  {
  }

  /** Lines without a CRLF determine their text, whatever follows them. */
  lemma LineInjective(l: seq<byte>, l': seq<byte>, rest: seq<byte>, rest': seq<byte>)
    requires NoCRLF(l) && NoCRLF(l') && l + CRLF + rest == l' + CRLF + rest'
    ensures l == l' && rest == rest'
  {
    SeekLine(l, rest);
    SeekLine(l', rest');
    assert (l + CRLF + rest)[..|l|] == l && (l' + CRLF + rest')[..|l|] == l';
    assert (l + CRLF + rest)[|l| + 2..] == rest && (l' + CRLF + rest')[|l| + 2..] == rest';
  }

  /** The same for the decimal number in a header, of whatever size. */
  lemma HeaderInjective(mark: byte, n: nat, n': nat, rest: seq<byte>, rest': seq<byte>)
    requires Line(mark, Decimal(n)) + rest == Line(mark, Decimal(n')) + rest'
    ensures n == n' && rest == rest'
  {
    var u, u' := Decimal(n) + CRLF + rest, Decimal(n') + CRLF + rest';
    LineBytes(mark, Decimal(n), rest);
    LineBytes(mark, Decimal(n'), rest');
    assert ([mark] + u)[1..] == u && ([mark] + u')[1..] == u';
    LineInjective(Decimal(n), Decimal(n'), rest, rest');
    DecimalValue(n);
    DecimalValue(n');
  }

  lemma BulkInjective(arg: seq<byte>, arg': seq<byte>, rest: seq<byte>, rest': seq<byte>)
    requires Bulk(arg) + rest == Bulk(arg') + rest'
    ensures arg == arg' && rest == rest'
  {
    hide Line, Decimal;
    var u, u' := arg + CRLF + rest, arg' + CRLF + rest';
    Concat4(Line(36, Decimal(|arg|)), arg, CRLF, rest);
    Concat4(Line(36, Decimal(|arg'|)), arg', CRLF, rest');
    HeaderInjective(36, |arg|, |arg'|, u, u');
    assert u[..|arg|] == arg && u'[..|arg|] == arg';
    assert u[|arg| + 2..] == rest && u'[|arg| + 2..] == rest';
  }

  lemma {:induction false} BulksInjective(args: seq<seq<byte>>, args': seq<seq<byte>>,
                                         rest: seq<byte>, rest': seq<byte>)
    requires |args| == |args'| && Bulks(args) + rest == Bulks(args') + rest'
    ensures args == args' && rest == rest'
  {
    if args == [] {
      assert Bulks(args) + rest == rest && Bulks(args') + rest' == rest';
    } else {
      hide Bulk;
      var b, b' := Bulks(args[1..]), Bulks(args'[1..]);
      assert Bulks(args) + rest == Bulk(args[0]) + (b + rest);
      assert Bulks(args') + rest' == Bulk(args'[0]) + (b' + rest');
      BulkInjective(args[0], args'[0], b + rest, b' + rest');
      BulksInjective(args[1..], args'[1..], rest, rest');
    }
  }

  /** Commands determine their arguments, also when other bytes follow. */
  lemma CommandInjective(args: seq<seq<byte>>, args': seq<seq<byte>>, rest: seq<byte>, rest': seq<byte>)
    requires Command(args) + rest == Command(args') + rest'
    ensures args == args' && rest == rest'
  {
    hide Bulks, Line, Decimal;
    var h, h' := Line(42, Decimal(|args|)), Line(42, Decimal(|args'|));
    assert Command(args) + rest == h + (Bulks(args) + rest);
    assert Command(args') + rest' == h' + (Bulks(args') + rest');
    HeaderInjective(42, |args|, |args'|, Bulks(args) + rest, Bulks(args') + rest');
    BulksInjective(args, args', rest, rest');
  }

  // ----- lengths

  /** The number of characters of an int in decimal notation. The negation of the least int is that int. */
  method IntLen(n: int32) returns (len: nat)
    ensures len == |DecimalInt(n)|
  {
    hide Decimal, Quotient, Wrap32, Abs;
    len := 0;
    var i: int := n;
    Negated(n);
    if i < 0 {
      len := len + 1;
      i := Wrap32(-i);
    }
    OneDigit(i);
    len := len + 1;
    i := Quotient(i, 10);
    while i != 0
      invariant |DecimalInt(n)| == len + (if i == 0 then 0 else |Decimal(Abs(i))|)
      decreases Abs(i)
    {
      OneDigit(i);
      len := len + 1;
      i := Quotient(i, 10);
    }
  }

  lemma Negated(n: int)
    requires -TWO31 <= n < TWO31
    ensures n < 0 ==> Abs(Wrap32(-n)) == -n
    ensures n >= 0 ==> Abs(n) == n
  {
  }

  lemma OneDigit(i: int)
    ensures Abs(Quotient(i, 10)) == Abs(i) / 10
    ensures Quotient(i, 10) == 0 <==> Abs(i) < 10
    ensures i != 0 ==> Abs(Quotient(i, 10)) < Abs(i)
    ensures |Decimal(Abs(i))| == 1 + if Abs(i) < 10 then 0 else |Decimal(Abs(i) / 10)|
  {
  }

  /** The length of a bulk string; the number of its digits is that of the length converted to int. */
  function BulkLenOf(len: nat): nat {
    1 + |DecimalInt(Wrap32(len))| + 2 + len + 2
  }

  method BulkLen(len: nat) returns (n: nat)
    ensures n == BulkLenOf(len)
    ensures len < TWO31 ==> n == 1 + |Decimal(len)| + 2 + len + 2
  {
    var k := IntLen(Wrap32(len));
    n := 1 + k + 2 + len + 2;
  }

  function BulkLens(args: seq<seq<byte>>): nat {
    if args == [] then 0 else BulkLens(args[..|args| - 1]) + BulkLenOf(|args[|args| - 1]|)
  }

  /** What both formatters compute for the length of the command, in an int. */
  function TotLen(args: seq<seq<byte>>): int32 {
    Wrap32(1 + |DecimalInt(Wrap32(|args|))| + 2 + BulkLens(args))
  }

  lemma TotLenIs(args: seq<seq<byte>>)
    ensures TotLen(args) == Wrap32(1 + |DecimalInt(Wrap32(|args|))| + 2 + BulkLens(args))
  {
    hide DecimalInt, BulkLens, Wrap32;
  }

  lemma NoBulkLens()
    ensures BulkLens([]) == 0 && Wrap32(0) == 0
  {
  }

  lemma BulkLensSnoc(args: seq<seq<byte>>, arg: seq<byte>)
    ensures BulkLens(args + [arg]) == BulkLens(args) + BulkLenOf(|arg|)
  {
    assert (args + [arg])[..|args|] == args;
  }

  lemma {:induction false} BulkLensInRange(args: seq<seq<byte>>)
    requires forall i :: 0 <= i < |args| ==> |args[i]| < TWO31
    ensures BulkLens(args) == |Bulks(args)|
  {
    if args != [] {
      var front, last := args[..|args| - 1], args[|args| - 1];
      assert args == front + [last];
      BulkLensInRange(front);
      BulksSnoc(front, last);
      BulkLength(last);
    }
  }

  lemma TotLenInRange(args: seq<seq<byte>>)
    requires InRange(args)
    ensures TotLen(args) == Wrap32(|Command(args)|)
  {
    BulkLensInRange(args);
    CommandLength(args);
  }

  /** The computed length is that of the command if and only if that fits an int. */
  lemma TotLenExact(args: seq<seq<byte>>)
    ensures TotLen(args) == |Command(args)| <==> |Command(args)| < TWO31
  {
    if |Command(args)| < TWO31 {
      ShortCommandInRange(args);
      TotLenInRange(args);
    }
  }

  /** Four arguments of 2^30 bytes: the command has 2^32 + 64 bytes, and the computed length is 64. */
  lemma FourGigabytes(arg: seq<byte>)
    requires |arg| == 0x4000_0000
    ensures var args := [arg, arg, arg, arg];
            InRange(args) && |Command(args)| == 0x1_0000_0040 && TotLen(args) == 64
  {
    var args := [arg, arg, arg, arg];
    TenDigits();
    assert |Decimal(4)| == 1;
    hide Decimal;
    BulkLength(arg);
    BulksOfFour(arg);
    CommandLength(args);
    TotLenInRange(args);
    Wrap32Turns(64, 1);
  }

  lemma TenDigits()
    ensures |Decimal(0x4000_0000)| == 10
  {
    assert |Decimal(1)| == 1;
    assert |Decimal(10737)| == 5;
  }

  lemma BulksOfFour(arg: seq<byte>)
    ensures |Bulks([arg, arg, arg, arg])| == 4 * |Bulk(arg)|
  {
    hide Bulk;
    assert [arg, arg, arg, arg][1..] == [arg, arg, arg] && [arg, arg, arg][1..] == [arg, arg];
    assert [arg, arg][1..] == [arg] && [arg][1..] == [];
    assert |Bulks([arg])| == |Bulk(arg)| && |Bulks([arg, arg])| == 2 * |Bulk(arg)|;
    assert |Bulks([arg, arg, arg])| == 3 * |Bulk(arg)|;
  }

  // ----- writing

  /** Copies bytes to position pos of the buffer. */
  method Copy(cmd: array<byte>, pos: nat, bytes: seq<byte>) returns (pos': nat)
    requires pos + |bytes| <= cmd.Length
    modifies cmd
    ensures pos' == pos + |bytes| && cmd[..pos'] == old(cmd[..pos]) + bytes
  {
    forall i | 0 <= i < |bytes| {
      cmd[pos + i] := bytes[i];
    }
    pos' := pos + |bytes|;
  }

  /** Like Copy, but also writes a terminating NUL behind the bytes. */
  method Sprintf(cmd: array<byte>, pos: nat, bytes: seq<byte>) returns (pos': nat)
    requires pos + |bytes| < cmd.Length
    modifies cmd
    ensures pos' == pos + |bytes| && cmd[..pos'] == old(cmd[..pos]) + bytes
  {
    pos' := Copy(cmd, pos, bytes);
    cmd[pos'] := NUL;
  }

  /** Writes one argument as a bulk string. */
  method PutBulk(cmd: array<byte>, pos: nat, arg: seq<byte>) returns (pos': nat)
    requires pos + |Bulk(arg)| < cmd.Length
    modifies cmd
    ensures pos' == pos + |Bulk(arg)| && cmd[..pos'] == old(cmd[..pos]) + Bulk(arg)
  {
    hide Decimal;
    ghost var before := cmd[..pos];
    pos' := Sprintf(cmd, pos, Line(36, Decimal(|arg|)));
    pos' := Copy(cmd, pos', arg);
    pos' := Copy(cmd, pos', CRLF);
    Concat4(before, Line(36, Decimal(|arg|)), arg, CRLF);
  }

  lemma Concat4(a: seq<byte>, b: seq<byte>, c: seq<byte>, d: seq<byte>)
    ensures a + b + c + d == a + (b + c + d)
  {
  }

  /** The allocation is refused; a write would leave the block, after which nothing is defined; or the block holds
      the command. */
  datatype Outcome = NoBlock | Overrun(size: nat) | Written(cmd: array<byte>, totlen: nat)

  /** The block holds the command and the length is right if and only if the command is shorter than 2^31 - 1
      bytes. Otherwise a block of the computed size is refused or too small. */
  ghost predicate Formatted(args: seq<seq<byte>>, out: Outcome)
    reads if out.Written? then {out.cmd} else {}
  {
    && (out.Written? <==> |Command(args)| < TWO31 - 1)
    && (out.Written? ==> out.totlen == |Command(args)| && out.cmd.Length == out.totlen + 1)
    && (out.Written? ==> out.cmd[..out.totlen] == Command(args) && out.cmd[out.totlen] == NUL)
    && (out.NoBlock? <==> Wrap32(TotLen(args) + 1) < 0)
    && (out.Overrun? ==> out.size == Wrap32(TotLen(args) + 1) <= |Command(args)|)
  }

  /** Writes the command for args into a new block of totlen + 1 bytes, computed in an int. */
  method Build(args: seq<seq<byte>>, totlen: int32) returns (out: Outcome)
    requires totlen == TotLen(args)
    ensures Formatted(args, out)
  {
    TotLenExact(args);
    hide Bulk, Decimal, Line, TotLen;
    var size := Wrap32(totlen + 1);
    if size < 0 {
      return NoBlock;
    }
    var cmd := new byte[size];
    var head := Line(42, Decimal(|args|));
    if |head| >= size {
      return Overrun(size);
    }
    var pos := Sprintf(cmd, 0, head);
    assert cmd[..pos] == head + Bulks(args[..0]);
    for j := 0 to |args|
      invariant 0 <= pos == |head| + |Bulks(args[..j])| < size
      invariant cmd[..pos] == head + Bulks(args[..j])
    {
      assert args[..j + 1] == args[..j] + [args[j]];
      BulksSnoc(args[..j], args[j]);
      BulksPrefix(args, j + 1);
      if pos + |Bulk(args[j])| >= size {
        return Overrun(size);
      }
      pos := PutBulk(cmd, pos, args[j]);
      assert head + Bulks(args[..j]) + Bulk(args[j]) == head + (Bulks(args[..j]) + Bulk(args[j]));
    }
    assert args[..|args|] == args;
    assert pos == totlen;
    cmd[pos] := NUL;
    out := Written(cmd, pos);
  }

  lemma {:induction false} BulksPrefix(args: seq<seq<byte>>, j: nat)
    requires j <= |args|
    ensures |Bulks(args[..j])| <= |Bulks(args)|
    decreases |args| - j
  {
    hide Bulk;
    if j < |args| {
      assert args[..j + 1] == args[..j] + [args[j]];
      BulksSnoc(args[..j], args[j]);
      BulksPrefix(args, j + 1);
    } else {
      assert args[..j] == args;
    }
  }

  // ----- formatting an argument vector

  /** The arguments that argc, argv and argvlen denote; without lengths they are C strings. */
  function ArgsOf(argv: seq<seq<byte>>, argvlen: Option<seq<nat>>): (args: seq<seq<byte>>)
    requires argvlen.Some? ==> |argvlen.value| == |argv|
    requires argvlen.Some? ==> forall j :: 0 <= j < |argv| ==> argvlen.value[j] <= |argv[j]|
    ensures |args| == |argv|
  {
    seq(|argv|, j requires 0 <= j < |argv| =>
      argv[j][..if argvlen.Some? then argvlen.value[j] else StrLen(argv[j])])
  }

  /** Without lengths, argument j is the bytes t before the first NUL; with lengths, it is so many bytes. */
  lemma ArgvDenotes(argv: seq<seq<byte>>, lens: seq<nat>, j: nat, t: seq<byte>)
    requires j < |argv| == |lens| && forall i | 0 <= i < |argv| :: lens[i] <= |argv[i]|
    ensures t <= argv[j] && 0 !in t && (|t| < |argv[j]| ==> argv[j][|t|] == 0) ==> ArgsOf(argv, None)[j] == t
    ensures t <= argv[j] && |t| == lens[j] ==> ArgsOf(argv, Some(lens))[j] == t
  {
    if t <= argv[j] && 0 !in t && (|t| < |argv[j]| ==> argv[j][|t|] == 0) {
      assert argv[j][..|t|] == t;
      StrLenIs(argv[j], |t|);
    }
  }

  /** The block holds the command, and its length is right, if and only if the command is shorter than 2^31 - 1
      bytes. */
  method FormatCommandArgv(argv: seq<seq<byte>>, argvlen: Option<seq<nat>>) returns (out: Outcome)
    requires |argv| < TWO31
    requires argvlen.Some? ==> |argvlen.value| == |argv|
    requires argvlen.Some? ==> forall j :: 0 <= j < |argv| ==> argvlen.value[j] <= |argv[j]|
    ensures Formatted(ArgsOf(argv, argvlen), out)
  {
    hide *;
    var args := ArgsOf(argv, argvlen);
    TotLenIs(args);
    var k := IntLen(|argv|);
    var totlen: int32 := Wrap32(1 + k + 2);
    NoBulkLens();
    for j := 0 to |argv|
      invariant totlen == Wrap32(1 + k + 2 + BulkLens(args[..j]))
    {
      ghost var sum := 1 + k + 2 + BulkLens(args[..j]);
      assert args[..j + 1] == args[..j] + [args[j]];
      BulkLensSnoc(args[..j], args[j]);
      var n := BulkLen(|args[j]|);
      Wrap32Sum(sum, n);
      totlen := Wrap32(totlen + n);
    }
    assert args[..|args|] == args;
    out := Build(args, totlen);
  }

  // ----- formatting by a format string

  /** A piece of an argument: a byte of the format string, or the k-th variable argument, inserted as a
      C string (%s) or as counted bytes (%b). */
  datatype Piece = Lit(b: byte) | Var(k: nat, counted: bool)

  const SPACE: byte := 32
  const PERCENT: byte := 37

  /** The templates of the arguments that the format string f from position c on denotes, where k
      variable arguments were used before and cur is the current argument so far. They do not depend on
      the variable arguments. None stands for the printf-like directives, which are not modelled. */
  function Templates(f: seq<byte>, c: nat, k: nat, cur: seq<Piece>, touched: bool): Option<seq<seq<Piece>>>
    requires c <= |f|
    decreases |f| - c
  {
    if c == |f| || f[c] == NUL then
      Some(if touched then [cur] else [])
    else if f[c] != PERCENT || c + 1 == |f| || f[c + 1] == NUL then
      if f[c] != SPACE then Templates(f, c + 1, k, cur + [Lit(f[c])], true)
      else if !touched then Templates(f, c + 1, k, cur, false)
      else
        match Templates(f, c + 1, k, [], false)
        case None => None
        case Some(ts) => Some([cur] + ts)
    else if f[c + 1] == 115 || f[c + 1] == 98 then
      Templates(f, c + 2, k + 1, cur + [Var(k, f[c + 1] == 98)], true)
    else if f[c + 1] == PERCENT then
      Templates(f, c + 2, k, cur + [Lit(PERCENT)], true)
    else None
  }

  function TextOf(p: Piece, ap: seq<seq<byte>>): seq<byte> {
    match p
    case Lit(b) => [b]
    case Var(k, counted) =>
      if k >= |ap| then [] else if counted then ap[k] else ap[k][..StrLen(ap[k])]
  }

  function Render(t: seq<Piece>, ap: seq<seq<byte>>): seq<byte> {
    if t == [] then [] else Render(t[..|t| - 1], ap) + TextOf(t[|t| - 1], ap)
  }

  function RenderAll(ts: seq<seq<Piece>>, ap: seq<seq<byte>>): (r: seq<seq<byte>>)
    ensures |r| == |ts|
  {
    seq(|ts|, i requires 0 <= i < |ts| => Render(ts[i], ap))
  }

  lemma RenderSnoc(t: seq<Piece>, p: Piece, ap: seq<seq<byte>>)
    ensures Render(t + [p], ap) == Render(t, ap) + TextOf(p, ap)
  {
    assert (t + [p])[..|t|] == t;
  }

  lemma RenderAllSnoc(ts: seq<seq<Piece>>, t: seq<Piece>, ap: seq<seq<byte>>)
    ensures RenderAll(ts + [t], ap) == RenderAll(ts, ap) + [Render(t, ap)]
  {
  }

  /** Variable arguments that a format string takes, counted like Templates does. */
  function VarCount(f: seq<byte>, c: nat): nat
    requires c <= |f|
    decreases |f| - c
  {
    if c == |f| || f[c] == NUL then 0
    else if f[c] != PERCENT || c + 1 == |f| || f[c + 1] == NUL then VarCount(f, c + 1)
    else (if f[c + 1] == 115 || f[c + 1] == 98 then 1 else 0) + VarCount(f, c + 2)
  }

  // ----- what a format stands for, word by word

  /** What may be written in a word of a format: a byte, "%%", "%s" or "%b". */
  datatype Slot = Byte(b: byte) | Percent | Text | Counted

  function SlotText(s: Slot): seq<byte> {
    match s
    case Byte(b) => [b]
    case Percent => [37, 37]
    case Text => [37, 115]
    case Counted => [37, 98]
  }

  function Spelled(w: seq<Slot>): seq<byte> {
    if w == [] then [] else SlotText(w[0]) + Spelled(w[1..])
  }

  /** The words, separated by one space each. */
  function Spaced(ws: seq<seq<byte>>): seq<byte> {
    if ws == [] then [] else if |ws| == 1 then ws[0] else ws[0] + [32] + Spaced(ws[1..])
  }

  function SpelledAll(ws: seq<seq<Slot>>): (r: seq<seq<byte>>)
    ensures |r| == |ws|
  {
    seq(|ws|, i requires 0 <= i < |ws| => Spelled(ws[i]))
  }

  /** Bytes that stand for themselves. */
  predicate Plain(w: seq<byte>) {
    forall i | 0 <= i < |w| :: w[i] != 37 && w[i] != 0 && w[i] != 32
  }

  predicate Proper(w: seq<Slot>) {
    forall i | 0 <= i < |w| && w[i].Byte? :: w[i].b != 37 && w[i].b != 0 && w[i].b != 32
  }

  /** How many variable arguments a word takes. */
  function Uses(w: seq<Slot>): nat {
    if w == [] then 0 else (if w[0].Text? || w[0].Counted? then 1 else 0) + Uses(w[1..])
  }

  function UsesAll(ws: seq<seq<Slot>>): nat {
    if ws == [] then 0 else Uses(ws[0]) + UsesAll(ws[1..])
  }

  /** The bytes of a C string. */
  function TextBytes(mem: seq<byte>): (t: seq<byte>)
    ensures t <= mem && 0 !in t && (|t| < |mem| ==> mem[|t|] == 0)
  {
    mem[..StrLen(mem)]
  }

  /** A word with the variable arguments from the k-th on put in. */
  function Filled(w: seq<Slot>, k: nat, ap: seq<seq<byte>>): seq<byte>
    requires k + Uses(w) <= |ap|
  {
    if w == [] then []
    else
      match w[0]
      case Byte(b) => [b] + Filled(w[1..], k, ap)
      case Percent => [37] + Filled(w[1..], k, ap)
      case Text => TextBytes(ap[k]) + Filled(w[1..], k + 1, ap)
      case Counted => ap[k] + Filled(w[1..], k + 1, ap)
  }

  function FilledAll(ws: seq<seq<Slot>>, k: nat, ap: seq<seq<byte>>): (r: seq<seq<byte>>)
    requires k + UsesAll(ws) <= |ap|
    ensures |r| == |ws|
  {
    if ws == [] then [] else [Filled(ws[0], k, ap)] + FilledAll(ws[1..], k + Uses(ws[0]), ap)
  }

  /** The pieces of a word whose first variable argument is the k-th. */
  function Pieces(w: seq<Slot>, k: nat): seq<Piece> {
    if w == [] then []
    else
      match w[0]
      case Byte(b) => [Lit(b)] + Pieces(w[1..], k)
      case Percent => [Lit(37)] + Pieces(w[1..], k)
      case Text => [Var(k, false)] + Pieces(w[1..], k + 1)
      case Counted => [Var(k, true)] + Pieces(w[1..], k + 1)
  }

  function PiecesAll(ws: seq<seq<Slot>>, k: nat): (r: seq<seq<Piece>>)
    ensures |r| == |ws|
  {
    if ws == [] then [] else [Pieces(ws[0], k)] + PiecesAll(ws[1..], k + Uses(ws[0]))
  }

  /** f has t at position c. */
  predicate At(f: seq<byte>, c: nat, t: seq<byte>) {
    c + |t| <= |f| && f[c..c + |t|] == t
  }

  lemma AtSplit(f: seq<byte>, c: nat, t: seq<byte>, u: seq<byte>)
    requires At(f, c, t + u)
    ensures At(f, c, t) && At(f, c + |t|, u)
  {
    assert f[c..c + |t + u|][..|t|] == t && f[c..c + |t + u|][|t|..] == u;
  }

  lemma AtBytes(f: seq<byte>, c: nat, t: seq<byte>)
    requires At(f, c, t)
    ensures forall i | 0 <= i < |t| :: f[c + i] == t[i]
  {
    assert forall i | 0 <= i < |t| :: f[c..c + |t|][i] == t[i];
  }

  lemma OneSlot(s: Slot, k: nat)
    ensures Uses([s]) == if s.Text? || s.Counted? then 1 else 0
    ensures Pieces([s], k) == [match s case Byte(b) => Lit(b) case Percent => Lit(37) case Text => Var(k, false)
                                       case Counted => Var(k, true)]
  {
    assert [s][0] == s && [s][1..] == [];
  }

  /** One slot further in the format. */
  lemma SlotScanned(f: seq<byte>, c: nat, k: nat, s: Slot, cur: seq<Piece>, touched: bool)
    requires At(f, c, SlotText(s)) && Proper([s])
    ensures Templates(f, c, k, cur, touched)
         == Templates(f, c + |SlotText(s)|, k + Uses([s]), cur + Pieces([s], k), true)
    ensures VarCount(f, c) == Uses([s]) + VarCount(f, c + |SlotText(s)|)
  {
    AtBytes(f, c, SlotText(s));
    OneSlot(s, k);
    hide Templates, VarCount, Pieces, Uses;
    TemplatesStep(f, c, k, cur, touched);
  }

  lemma {:induction false} WordScanned(f: seq<byte>, c: nat, k: nat, w: seq<Slot>, cur: seq<Piece>, touched: bool)
    requires At(f, c, Spelled(w)) && Proper(w)
    ensures Templates(f, c, k, cur, touched)
         == Templates(f, c + |Spelled(w)|, k + Uses(w), cur + Pieces(w, k), touched || w != [])
    ensures VarCount(f, c) == Uses(w) + VarCount(f, c + |Spelled(w)|)
    decreases |w|
  {
    hide *;
    if w == [] {
      NothingScanned(w, k);
      assert cur + [] == cur;
    } else {
      var s, more := w[0], w[1..];
      var t, p, n := SlotText(s), Pieces([s], k), Uses([s]);
      ProperParts(w);
      SpelledFirst(w);
      SlotFirst(w, k);
      AtSplit(f, c, t, Spelled(more));
      SlotScanned(f, c, k, s, cur, touched);
      WordScanned(f, c + |t|, k + n, more, cur + p, true);
      PiecesGrouped(cur, p, Pieces(more, k + n));
    }
  }

  lemma NothingScanned(w: seq<Slot>, k: nat)
    requires w == []
    ensures Spelled(w) == [] && Uses(w) == 0 && Pieces(w, k) == []
  {
  }

  lemma PiecesGrouped(a: seq<Piece>, b: seq<Piece>, c: seq<Piece>)
    ensures a + b + c == a + (b + c)
  {
  }

  lemma ProperParts(w: seq<Slot>)
    requires w != [] && Proper(w)
    ensures Proper([w[0]]) && Proper(w[1..])
  {
  }

  lemma SlotFirst(w: seq<Slot>, k: nat)
    requires w != []
    ensures Uses(w) == Uses([w[0]]) + Uses(w[1..])
    ensures Pieces(w, k) == Pieces([w[0]], k) + Pieces(w[1..], k + Uses([w[0]]))
  {
    assert [w[0]][0] == w[0] && [w[0]][1..] == [];
  }

  /** A format of words separated by spaces has one template for each word. */
  lemma {:induction false} WordsScanned(f: seq<byte>, c: nat, k: nat, ws: seq<seq<Slot>>)
    requires At(f, c, Spaced(SpelledAll(ws))) && c + |Spaced(SpelledAll(ws))| == |f|
    requires forall i | 0 <= i < |ws| :: ws[i] != [] && Proper(ws[i])
    ensures Templates(f, c, k, [], false) == Some(PiecesAll(ws, k)) && VarCount(f, c) == UsesAll(ws)
    decreases |ws|
  {
    hide Templates, VarCount, At, Pieces, Spelled, Uses, Proper;
    var ts := SpelledAll(ws);
    if ws == [] {
      TemplatesEnd(f, c, k, [], false);
      CountEnd(f, c);
    } else {
      var w, more := ws[0], ws[1..];
      assert ts[1..] == SpelledAll(more);
      var d, p := c + |ts[0]|, Pieces(w, k);
      if more == [] {
        WordScanned(f, c, k, w, [], false);
        assert [] + p == p;
        TemplatesEnd(f, d, k + Uses(w), p, true);
        CountEnd(f, d);
        LastWord(ws, k);
      } else {
        AtSplit(f, c, ts[0] + [32], Spaced(ts[1..]));
        AtSplit(f, c, ts[0], [32]);
        WordScanned(f, c, k, w, [], false);
        assert [] + p == p;
        SpaceScanned(f, d, k + Uses(w), p);
        WordsScanned(f, d + 1, k + Uses(w), more);
      }
    }
  }

  lemma LastWord(ws: seq<seq<Slot>>, k: nat)
    requires ws != [] && ws[1..] == []
    ensures |ws| == 1 && PiecesAll(ws, k) == [Pieces(ws[0], k)] && UsesAll(ws) == Uses(ws[0])
  {
  }

  lemma CountEnd(f: seq<byte>, c: nat)
    requires c == |f|
    ensures VarCount(f, c) == 0
  {
  }

  lemma SpaceScanned(f: seq<byte>, c: nat, k: nat, p: seq<Piece>)
    requires At(f, c, [32])
    ensures VarCount(f, c) == VarCount(f, c + 1)
    ensures var t := Templates(f, c + 1, k, [], false);
            Templates(f, c, k, p, true) == if t.Some? then Some([p] + t.value) else None
  {
    AtBytes(f, c, [32]);
    hide Templates, VarCount;
    TemplatesStep(f, c, k, p, true);
  }

  lemma SlotRendered(cur: seq<Piece>, s: Slot, k: nat, ap: seq<seq<byte>>)
    requires k + Uses([s]) <= |ap|
    ensures Render(cur + Pieces([s], k), ap) == Render(cur, ap) + Filled([s], k, ap)
  {
    OneSlot(s, k);
    var p := Pieces([s], k)[0];
    RenderSnoc(cur, p, ap);
    hide Render, Pieces, Uses;
    assert [s][1..] == [] && [s][0] == s;
  }

  lemma FilledFirst(w: seq<Slot>, k: nat, ap: seq<seq<byte>>)
    requires w != [] && k + Uses(w) <= |ap|
    ensures Uses(w) == Uses([w[0]]) + Uses(w[1..])
    ensures Filled(w, k, ap) == Filled([w[0]], k, ap) + Filled(w[1..], k + Uses([w[0]]), ap)
  {
    OneSlot(w[0], k);
    assert [w[0]][1..] == [] && [w[0]][0] == w[0];
  }

  lemma {:induction false} PiecesRendered(cur: seq<Piece>, w: seq<Slot>, k: nat, ap: seq<seq<byte>>)
    requires k + Uses(w) <= |ap|
    ensures Render(cur + Pieces(w, k), ap) == Render(cur, ap) + Filled(w, k, ap)
    decreases |w|
  {
    if w == [] {
      assert cur + [] == cur;
    } else {
      var p, n := Pieces([w[0]], k), Uses([w[0]]);
      SlotFirst(w, k);
      FilledFirst(w, k, ap);
      hide Render, Pieces, Filled, Uses;
      assert cur + Pieces(w, k) == cur + p + Pieces(w[1..], k + n);
      SlotRendered(cur, w[0], k, ap);
      PiecesRendered(cur + p, w[1..], k + n, ap);
      Regrouped(Render(cur, ap), Filled([w[0]], k, ap), Filled(w[1..], k + n, ap));
    }
  }

  lemma Regrouped(a: seq<byte>, b: seq<byte>, c: seq<byte>)
    ensures a + b + c == a + (b + c)
  {
  }

  lemma {:induction false} AllRendered(ws: seq<seq<Slot>>, k: nat, ap: seq<seq<byte>>)
    requires k + UsesAll(ws) <= |ap|
    ensures RenderAll(PiecesAll(ws, k), ap) == FilledAll(ws, k, ap)
    decreases |ws|
  {
    hide Render, RenderAll, Pieces, Filled, Uses;
    NothingYet(ap);
    if ws != [] {
      var p, more, n := Pieces(ws[0], k), ws[1..], Uses(ws[0]);
      WordRendered(ws[0], k, ap);
      AllRendered(more, k + n, ap);
      RenderAllCons(p, PiecesAll(more, k + n), ap);
    }
  }

  lemma WordRendered(w: seq<Slot>, k: nat, ap: seq<seq<byte>>)
    requires k + Uses(w) <= |ap|
    ensures Render(Pieces(w, k), ap) == Filled(w, k, ap)
  {
    NothingYet(ap);
    hide Render, Pieces, Filled;
    PiecesRendered([], w, k, ap);
    assert [] + Pieces(w, k) == Pieces(w, k) && [] + Filled(w, k, ap) == Filled(w, k, ap);
  }

  /** What a format of words stands for: each word with its variable arguments put in, whatever these contain. */
  lemma FormatMeans(ws: seq<seq<Slot>>, f: seq<byte>, ap: seq<seq<byte>>)
    requires forall i | 0 <= i < |ws| :: ws[i] != [] && Proper(ws[i])
    requires f == Spaced(SpelledAll(ws)) && UsesAll(ws) <= |ap|
    ensures VarCount(f, 0) == UsesAll(ws) && Templates(f, 0, 0, [], false).Some?
    ensures RenderAll(Templates(f, 0, 0, [], false).value, ap) == FilledAll(ws, 0, ap)
  {
    assert At(f, 0, f);
    hide Templates, RenderAll, PiecesAll, FilledAll, Spaced, SpelledAll, Proper, VarCount, At;
    WordsScanned(f, 0, 0, ws);
    AllRendered(ws, 0, ap);
  }

  /** The arguments that FormatCommand writes. */
  function Arguments(f: seq<byte>, ap: seq<seq<byte>>): seq<seq<byte>>
    requires Templates(f, 0, 0, [], false).Some?
  {
    RenderAll(Templates(f, 0, 0, [], false).value, ap)
  }

  function AsSlots(w: seq<byte>): (r: seq<Slot>)
    ensures |r| == |w|
  {
    seq(|w|, j requires 0 <= j < |w| => Byte(w[j]))
  }

  function Slots(ws: seq<seq<byte>>): (r: seq<seq<Slot>>)
    ensures |r| == |ws|
  {
    seq(|ws|, j requires 0 <= j < |ws| => AsSlots(ws[j]))
  }

  lemma {:induction false} PlainWord(w: seq<byte>, k: nat, ap: seq<seq<byte>>)
    requires Plain(w) && k <= |ap|
    ensures Proper(AsSlots(w)) && Spelled(AsSlots(w)) == w && Uses(AsSlots(w)) == 0 && Filled(AsSlots(w), k, ap) == w
    decreases |w|
  {
    if w != [] {
      assert AsSlots(w)[1..] == AsSlots(w[1..]) && [w[0]] + w[1..] == w;
      PlainWord(w[1..], k, ap);
    }
  }

  lemma SlotsRest(ws: seq<seq<byte>>)
    requires ws != []
    ensures Slots(ws)[0] == AsSlots(ws[0]) && Slots(ws)[1..] == Slots(ws[1..])
  {
  }

  lemma {:induction false} PlainWords(ws: seq<seq<byte>>, k: nat, ap: seq<seq<byte>>)
    requires k <= |ap| && forall j | 0 <= j < |ws| :: Plain(ws[j])
    ensures UsesAll(Slots(ws)) == 0 && FilledAll(Slots(ws), k, ap) == ws
    decreases |ws|
  {
    if ws != [] {
      SlotsRest(ws);
      hide Plain, Uses, Filled, AsSlots, Slots;
      PlainWord(ws[0], k, ap);
      PlainWords(ws[1..], k, ap);
      assert [ws[0]] + ws[1..] == ws;
    }
  }

  lemma {:induction false} OtherWordsPlain(ws: seq<seq<byte>>, i: nat, v: seq<Slot>, k: nat, ap: seq<seq<byte>>)
    requires i < |ws| && k + Uses(v) <= |ap| && forall j | 0 <= j < |ws| && j != i :: Plain(ws[j])
    ensures UsesAll(Slots(ws)[i := v]) == Uses(v)
    ensures FilledAll(Slots(ws)[i := v], k, ap) == ws[i := Filled(v, k, ap)]
    decreases i
  {
    var ss, more, w := Slots(ws)[i := v], ws[1..], Filled(v, k, ap);
    SlotsRest(ws);
    hide Plain, Uses, Filled, AsSlots, Slots;
    if i == 0 {
      PlainWords(more, k + Uses(v), ap);
      assert ss[0] == v && ss[1..] == Slots(more) && [w] + more == ws[0 := w];
    } else {
      PlainWord(ws[0], k, ap);
      OtherWordsPlain(more, i - 1, v, k, ap);
      assert ss[0] == AsSlots(ws[0]) && ss[1..] == Slots(more)[i - 1 := v];
      assert [ws[0]] + more[i - 1 := w] == ws[i := w];
    }
  }

  lemma SpelledPlain(ws: seq<seq<byte>>, j: nat)
    requires j < |ws| && Plain(ws[j])
    ensures Spelled(Slots(ws)[j]) == ws[j] && Proper(Slots(ws)[j])
  {
    PlainWord(ws[j], 0, []);
  }

  /** A format of plain words separated by spaces gives exactly these words. */
  lemma PlainFormat(ws: seq<seq<byte>>, ap: seq<seq<byte>>)
    requires forall j | 0 <= j < |ws| :: ws[j] != [] && Plain(ws[j])
    ensures Templates(Spaced(ws), 0, 0, [], false).Some? && VarCount(Spaced(ws), 0) <= |ap|
    ensures Arguments(Spaced(ws), ap) == ws
  {
    var ss := Slots(ws);
    hide Templates, RenderAll, FilledAll, Spaced, Proper, VarCount, Plain, UsesAll, Spelled;
    PlainWords(ws, 0, ap);
    forall j | 0 <= j < |ws| ensures Proper(ss[j]) && Spelled(ss[j]) == ws[j] {
      SpelledPlain(ws, j);
    }
    assert SpelledAll(ss) == ws;
    FormatMeans(ss, Spaced(ws), ap);
  }

  /** Plain words with word i spelled by slots: the strings are these words, with word i filled in. */
  lemma OneWordFilled(ws: seq<seq<byte>>, i: nat, v: seq<Slot>, f: seq<byte>, ap: seq<seq<byte>>)
    requires i < |ws| && forall j | 0 <= j < |ws| && j != i :: ws[j] != [] && Plain(ws[j])
    requires v != [] && Proper(v) && Uses(v) <= |ap| && f == Spaced(ws[i := Spelled(v)])
    ensures Templates(f, 0, 0, [], false).Some? && VarCount(f, 0) <= |ap|
    ensures Arguments(f, ap) == ws[i := Filled(v, 0, ap)]
  {
    var ss := Slots(ws)[i := v];
    hide Templates, RenderAll, FilledAll, Spaced, Proper, VarCount, Plain, Uses, UsesAll, Spelled, Filled;
    OtherWordsPlain(ws, i, v, 0, ap);
    forall j | 0 <= j < |ws| && j != i ensures Proper(ss[j]) && Spelled(ss[j]) == ws[j] {
      SpelledPlain(ws, j);
    }
    assert SpelledAll(ss) == ws[i := Spelled(v)];
    FormatMeans(ss, f, ap);
  }

  /** With %b for one word, that word is the counted bytes. */
  lemma CountedWord(ws: seq<seq<byte>>, i: nat, f: seq<byte>, ap: seq<seq<byte>>)
    requires i < |ws| && |ap| > 0 && forall j | 0 <= j < |ws| && j != i :: ws[j] != [] && Plain(ws[j])
    requires f == Spaced(ws[i := [37, 98]])
    ensures Templates(f, 0, 0, [], false).Some? && VarCount(f, 0) <= |ap| && Arguments(f, ap) == ws[i := ap[0]]
  {
    var v := [Counted];
    assert Spelled(v) == [37, 98] && Uses(v) == 1 && Filled(v, 0, ap) == ap[0];
    assert Proper(v);
    hide *;
    OneWordFilled(ws, i, v, f, ap);
  }

  /** With %s for one word, that word is the bytes t before the first NUL of the argument. */
  lemma TextWord(ws: seq<seq<byte>>, i: nat, f: seq<byte>, ap: seq<seq<byte>>, t: seq<byte>)
    requires i < |ws| && |ap| > 0 && forall j | 0 <= j < |ws| && j != i :: ws[j] != [] && Plain(ws[j])
    requires f == Spaced(ws[i := [37, 115]])
    requires t <= ap[0] && 0 !in t && (|t| < |ap[0]| ==> ap[0][|t|] == 0)
    ensures Templates(f, 0, 0, [], false).Some? && VarCount(f, 0) <= |ap| && Arguments(f, ap) == ws[i := t]
  {
    var v := [Text];
    assert ap[0][..|t|] == t;
    StrLenIs(ap[0], |t|);
    assert Spelled(v) == [37, 115] && Uses(v) == 1 && Filled(v, 0, ap) == t;
    assert Proper(v);
    hide *;
    OneWordFilled(ws, i, v, f, ap);
  }

  /** Two percent signs inside a word give one. */
  lemma PercentWord(ws: seq<seq<byte>>, i: nat, f: seq<byte>, ap: seq<seq<byte>>, u: seq<byte>, t: seq<byte>)
    requires i < |ws| && forall j | 0 <= j < |ws| && j != i :: ws[j] != [] && Plain(ws[j])
    requires Plain(u) && Plain(t) && f == Spaced(ws[i := u + [37, 37] + t])
    ensures Templates(f, 0, 0, [], false).Some? && VarCount(f, 0) <= |ap|
    ensures Arguments(f, ap) == ws[i := u + [37] + t]
  {
    hide *;
    var v := AsSlots(u) + ([Percent] + AsSlots(t));
    PercentSlots(u, t, ap);
    OneWordFilled(ws, i, v, f, ap);
  }

  lemma PercentSlots(u: seq<byte>, t: seq<byte>, ap: seq<seq<byte>>)
    requires Plain(u) && Plain(t)
    ensures var v := AsSlots(u) + ([Percent] + AsSlots(t));
            v != [] && Proper(v) && Uses(v) == 0 && Spelled(v) == u + [37, 37] + t && Filled(v, 0, ap) == u + [37] + t
  {
    var a, b := AsSlots(u), [Percent] + AsSlots(t);
    PlainWord(u, 0, ap);
    PlainWord(t, 0, ap);
    assert b[1..] == AsSlots(t) && Proper(a + b);
    assert Spelled(b) == [37, 37] + t && Uses(b) == 0 && Filled(b, 0, ap) == [37] + t;
    hide *;
    Concatenated(a, b, 0, ap);
    assert u + ([37, 37] + t) == u + [37, 37] + t && u + ([37] + t) == u + [37] + t;
  }

  lemma {:induction false} Concatenated(u: seq<Slot>, v: seq<Slot>, k: nat, ap: seq<seq<byte>>)
    requires k + Uses(u) + Uses(v) <= |ap|
    ensures Spelled(u + v) == Spelled(u) + Spelled(v) && Uses(u + v) == Uses(u) + Uses(v)
    ensures Filled(u + v, k, ap) == Filled(u, k, ap) + Filled(v, k + Uses(u), ap)
    decreases |u|
  {
    hide *;
    if u == [] {
      NothingFilled(u, k, ap);
      assert u + v == v && [] + Spelled(v) == Spelled(v) && [] + Filled(v, k, ap) == Filled(v, k, ap);
    } else {
      var s, more, all := u[0], u[1..], u + v;
      assert all[1..] == more + v && all[0] == s;
      var n := Uses([s]);
      SlotFirst(u, k);
      SlotFirst(all, k);
      Concatenated(more, v, k + n, ap);
      FilledFirst(u, k, ap);
      FilledFirst(all, k, ap);
      SpelledFirst(u);
      SpelledFirst(all);
      Regrouped(SlotText(s), Spelled(more), Spelled(v));
      Regrouped(Filled([s], k, ap), Filled(more, k + n, ap), Filled(v, k + Uses(u), ap));
    }
  }

  lemma NothingFilled(w: seq<Slot>, k: nat, ap: seq<seq<byte>>)
    requires w == [] && k <= |ap|
    ensures Spelled(w) == [] && Uses(w) == 0 && Filled(w, k, ap) == []
  {
  }

  lemma SpelledFirst(w: seq<Slot>)
    requires w != []
    ensures Spelled(w) == SlotText(w[0]) + Spelled(w[1..])
  {
  }

  /** "SELECT 3", and "GET %b" with any key. */
  lemma FormatsInUse(key: seq<byte>)
    ensures var f := [83, 69, 76, 69, 67, 84, 32, 51];
            Templates(f, 0, 0, [], false).Some? && Arguments(f, []) == [[83, 69, 76, 69, 67, 84], [51]]
    ensures var f := [71, 69, 84, 32, 37, 98];
            Templates(f, 0, 0, [], false).Some? && Arguments(f, [key]) == [[71, 69, 84], key]
  {
    var select: seq<seq<byte>> := [[83, 69, 76, 69, 67, 84], [51]];
    var get: seq<seq<byte>> := [[71, 69, 84], []];
    assert Spaced(select) == [83, 69, 76, 69, 67, 84, 32, 51];
    assert Spaced(get[1 := [37, 98]]) == [71, 69, 84, 32, 37, 98];
    hide Templates, Arguments, Spaced, VarCount;
    PlainFormat(select, []);
    CountedWord(get, 1, [71, 69, 84, 32, 37, 98], [key]);
  }

  /** The format-string formatter: the arguments are the templates with the variable arguments filled in,
      one argument for each template whatever the variable arguments contain. The block holds their command if
      and only if it is shorter than 2^31 - 1 bytes. */
  method FormatCommand(f: seq<byte>, ap: seq<seq<byte>>) returns (out: Outcome)
    requires VarCount(f, 0) <= |ap| && Templates(f, 0, 0, [], false).Some?
    ensures Formatted(Arguments(f, ap), out)
    ensures forall ws: seq<seq<byte>> | f == Spaced(ws) && (forall j | 0 <= j < |ws| :: ws[j] != [] && Plain(ws[j])) ::
              Formatted(ws, out)
    ensures forall ws: seq<seq<Slot>> |
              && f == Spaced(SpelledAll(ws)) && UsesAll(ws) <= |ap|
              && (forall i | 0 <= i < |ws| :: ws[i] != [] && Proper(ws[i])) ::
              Formatted(FilledAll(ws, 0, ap), out)
  {
    hide Bulks, Command, Line, Decimal, DecimalInt, Render, RenderAll, StrLen, Templates, VarCount, Joined,
      Wrap32, BulkLenOf, BulkLens, Formatted, TotLen, Spaced, SpelledAll, Plain, Proper, UsesAll, FilledAll;
    NothingYet(ap);
    NoBulkLens();
    var c, k := 0, 0;
    var curarg: seq<byte> := [];
    var touched := false;
    var curargv: seq<seq<byte>> := [];
    var totlen: int32 := 0;
    ghost var cur: seq<Piece> := [];
    ghost var done: seq<seq<Piece>> := [];
    ghost var all := Templates(f, 0, 0, [], false);
    JoinedFirst(all);
    while c < |f| && f[c] != NUL
      invariant c <= |f|
      invariant k + VarCount(f, c) <= |ap|
      invariant curarg == Render(cur, ap) && curargv == RenderAll(done, ap)
      invariant !touched ==> cur == []
      invariant totlen == Wrap32(BulkLens(curargv))
      invariant all == Joined(done, Templates(f, c, k, cur, touched))
      decreases |f| - c
    {
      TemplatesStep(f, c, k, cur, touched);
      JoinedIs(done, Templates(f, c, k, cur, touched));
      if f[c] != PERCENT || c + 1 == |f| || f[c + 1] == NUL {
        if f[c] == SPACE {
          if touched {
            BulkLensSnoc(curargv, curarg);
            RenderAllSnoc(done, cur, ap);
            JoinedStep(done, cur, Templates(f, c + 1, k, [], false));
            var n := BulkLen(|curarg|);
            Wrap32Sum(BulkLens(curargv), n);
            totlen := Wrap32(totlen + n);
            curargv := curargv + [curarg];
            done := done + [cur];
            curarg, cur := [], [];
            touched := false;
          }
        } else {
          RenderSnoc(cur, Lit(f[c]), ap);
          curarg, cur := curarg + [f[c]], cur + [Lit(f[c])];
          touched := true;
        }
      } else {
        if f[c + 1] == 115 {
          RenderSnoc(cur, Var(k, false), ap);
          var size := StrLen(ap[k]);
          curarg, cur := curarg + ap[k][..size], cur + [Var(k, false)];
          k := k + 1;
        } else if f[c + 1] == 98 {
          RenderSnoc(cur, Var(k, true), ap);
          curarg, cur := curarg + ap[k], cur + [Var(k, true)];
          k := k + 1;
        } else {
          // %%
          RenderSnoc(cur, Lit(PERCENT), ap);
          curarg, cur := curarg + [PERCENT], cur + [Lit(PERCENT)];
        }
        touched := true;
        c := c + 1;
      }
      c := c + 1;
    }
    TemplatesEnd(f, c, k, cur, touched);
    JoinedIs(done, Templates(f, c, k, cur, touched));
    if touched {
      BulkLensSnoc(curargv, curarg);
      RenderAllSnoc(done, cur, ap);
      var n := BulkLen(|curarg|);
      Wrap32Sum(BulkLens(curargv), n);
      totlen := Wrap32(totlen + n);
      curargv := curargv + [curarg];
      done := done + [cur];
    } else {
      assert done + [] == done;
    }
    assert all == Some(done);
    assert Arguments(f, ap) == curargv;
    var n := IntLen(Wrap32(|curargv|));
    Wrap32Sum(BulkLens(curargv), 1 + n + 2);
    TotLenIs(curargv);
    totlen := Wrap32(totlen + (1 + n + 2));
    out := Build(curargv, totlen);
    FormatsCovered(f, ap, out);
  }

  lemma FormatsCovered(f: seq<byte>, ap: seq<seq<byte>>, out: Outcome)
    requires Templates(f, 0, 0, [], false).Some? && Formatted(Arguments(f, ap), out)
    ensures forall ws: seq<seq<byte>> | f == Spaced(ws) && (forall j | 0 <= j < |ws| :: ws[j] != [] && Plain(ws[j])) ::
              Formatted(ws, out)
    ensures forall ws: seq<seq<Slot>> |
              && f == Spaced(SpelledAll(ws)) && UsesAll(ws) <= |ap|
              && (forall i | 0 <= i < |ws| :: ws[i] != [] && Proper(ws[i])) ::
              Formatted(FilledAll(ws, 0, ap), out)
  {
    hide Templates, RenderAll, Formatted, Spaced, SpelledAll, Plain, Proper, UsesAll, FilledAll, VarCount;
    forall ws: seq<seq<byte>> | f == Spaced(ws) && (forall j | 0 <= j < |ws| :: ws[j] != [] && Plain(ws[j]))
      ensures Formatted(ws, out)
    {
      PlainFormat(ws, ap);
    }
    forall ws: seq<seq<Slot>> |
      && f == Spaced(SpelledAll(ws)) && UsesAll(ws) <= |ap|
      && (forall i | 0 <= i < |ws| :: ws[i] != [] && Proper(ws[i]))
      ensures Formatted(FilledAll(ws, 0, ap), out)
    {
      FormatMeans(ws, f, ap);
    }
  }

  lemma NothingYet(ap: seq<seq<byte>>)
    ensures Render([], ap) == [] && RenderAll([], ap) == []
  {
  }

  lemma CommandLength(args: seq<seq<byte>>)
    ensures |Command(args)| == 1 + |DecimalInt(|args|)| + 2 + |Bulks(args)|
  {
  }

  lemma BulkLength(arg: seq<byte>)
    ensures |Bulk(arg)| == 1 + |Decimal(|arg|)| + 2 + |arg| + 2
  {
  }

  function Joined(done: seq<seq<Piece>>, more: Option<seq<seq<Piece>>>): Option<seq<seq<Piece>>> {
    match more
    case None => None
    case Some(ts) => Some(done + ts)
  }

  lemma JoinedFirst(all: Option<seq<seq<Piece>>>)
    ensures Joined([], all) == all
  {
    if all.Some? {
      assert [] + all.value == all.value;
    }
  }

  lemma JoinedIs(done: seq<seq<Piece>>, more: Option<seq<seq<Piece>>>)
    ensures Joined(done, more) == if more.Some? then Some(done + more.value) else None
  {
  }

  /** One byte of text, or one directive, further in the format. */
  lemma TemplatesStep(f: seq<byte>, c: nat, k: nat, cur: seq<Piece>, touched: bool)
    requires c < |f| && f[c] != NUL
    ensures var text := f[c] != PERCENT || c + 1 == |f| || f[c + 1] == NUL;
            var t := Templates(f, c, k, cur, touched);
            if text then
              && VarCount(f, c) == VarCount(f, c + 1)
              && (f[c] != SPACE ==> t == Templates(f, c + 1, k, cur + [Lit(f[c])], true))
              && (f[c] == SPACE && !touched ==> t == Templates(f, c + 1, k, cur, false))
              && (f[c] == SPACE && touched ==>
                    t == match Templates(f, c + 1, k, [], false) case None => None case Some(ts) => Some([cur] + ts))
            else
              var arg := f[c + 1] == 115 || f[c + 1] == 98;
              && VarCount(f, c) == (if arg then 1 else 0) + VarCount(f, c + 2)
              && (arg ==> t == Templates(f, c + 2, k + 1, cur + [Var(k, f[c + 1] == 98)], true))
              && (f[c + 1] == PERCENT ==> t == Templates(f, c + 2, k, cur + [Lit(PERCENT)], true))
              && (!arg && f[c + 1] != PERCENT ==> t == None)
  {
  }

  lemma TemplatesEnd(f: seq<byte>, c: nat, k: nat, cur: seq<Piece>, touched: bool)
    requires c <= |f| && (c < |f| ==> f[c] == NUL)
    ensures Templates(f, c, k, cur, touched) == Some(if touched then [cur] else [])
  {
  }

  lemma JoinedStep(done: seq<seq<Piece>>, cur: seq<Piece>, more: Option<seq<seq<Piece>>>)
    ensures Joined(done + [cur], more) ==
            Joined(done, match more case None => None case Some(ts) => Some([cur] + ts))
  {
    if more.Some? {
      assert done + [cur] + more.value == done + ([cur] + more.value);
    }
  }

  // ----- the format "%b %b ... %b"

  function CountedFormat(n: nat): (f: seq<byte>)
    ensures |f| == if n == 0 then 0 else 3 * n - 1
  {
    if n == 0 then [] else if n == 1 then [PERCENT, 98] else [PERCENT, 98, SPACE] + CountedFormat(n - 1)
  }

  lemma {:induction false} CountedFormatAt(n: nat, i: nat)
    requires i < n
    ensures CountedFormat(n)[3 * i] == PERCENT && CountedFormat(n)[3 * i + 1] == 98
    ensures i + 1 < n ==> CountedFormat(n)[3 * i + 2] == SPACE
  {
    if i > 0 {
      CountedFormatAt(n - 1, i - 1);
    }
  }

  /** One template for each of the variable arguments i to n - 1. */
  function CountedVars(i: nat, n: nat): seq<seq<Piece>>
    decreases n - i
  {
    if i >= n then [] else [[Var(i, true)]] + CountedVars(i + 1, n)
  }

  lemma {:induction false} CountedTemplates(n: nat, i: nat)
    requires i < n
    ensures Templates(CountedFormat(n), 3 * i, i, [], false) == Some(CountedVars(i, n))
    decreases n - i
  {
    hide CountedFormat;
    var f := CountedFormat(n);
    CountedFormatAt(n, i);
    assert [] + [Var(i, true)] == [Var(i, true)];
    assert Templates(f, 3 * i, i, [], false) == Templates(f, 3 * i + 2, i + 1, [Var(i, true)], true);
    if i + 1 < n {
      CountedTemplates(n, i + 1);
      var more := Templates(f, 3 * (i + 1), i + 1, [], false);
      assert Templates(f, 3 * i + 2, i + 1, [Var(i, true)], true) == Some([[Var(i, true)]] + more.value);
    } else {
      assert CountedVars(i, n) == [[Var(i, true)]];
    }
  }

  lemma {:induction false} CountedVarsRendered(i: nat, ap: seq<seq<byte>>)
    requires i <= |ap|
    ensures RenderAll(CountedVars(i, |ap|), ap) == ap[i..]
    decreases |ap| - i
  {
    if i < |ap| {
      CountedVarsRendered(i + 1, ap);
      RenderVar(i, ap);
      RenderAllCons([Var(i, true)], CountedVars(i + 1, |ap|), ap);
    }
  }

  lemma RenderVar(i: nat, ap: seq<seq<byte>>)
    requires i < |ap|
    ensures Render([Var(i, true)], ap) == ap[i]
  {
    RenderSnoc([], Var(i, true), ap);
    assert [] + [Var(i, true)] == [Var(i, true)];
  }

  lemma RenderAllCons(t: seq<Piece>, ts: seq<seq<Piece>>, ap: seq<seq<byte>>)
    ensures RenderAll([t] + ts, ap) == [Render(t, ap)] + RenderAll(ts, ap)
  {
  }

  /** A format of n times %b gives the n variable arguments themselves, whatever they contain and empty
      ones included: the same command as formatting them as an argument vector. */
  lemma CountedFormatIsArgv(ap: seq<seq<byte>>, lens: seq<nat>)
    requires |lens| == |ap| && forall j :: 0 <= j < |ap| ==> lens[j] == |ap[j]|
    ensures var ts := Templates(CountedFormat(|ap|), 0, 0, [], false);
            ts.Some? && RenderAll(ts.value, ap) == ap == ArgsOf(ap, Some(lens))
  {
    assert forall j :: 0 <= j < |ap| ==> ap[j][..lens[j]] == ap[j];
    assert ArgsOf(ap, Some(lens)) == ap;
    if ap == [] {
      assert RenderAll([], ap) == [];
    } else {
      CountedTemplates(|ap|, 0);
      CountedVarsRendered(0, ap);
      assert ap[0..] == ap;
    }
  }

  /** A formatted command is read back as one string for each template of the format, each with its own
      variable arguments filled in: no argument text changes the number of strings or reaches another. */
  lemma ArgumentsDoNotSpill(f: seq<byte>, ap: seq<seq<byte>>, rest: seq<byte>)
    requires Templates(f, 0, 0, [], false).Some?
    requires |Command(RenderAll(Templates(f, 0, 0, [], false).value, ap))| < TWO31 - 1
    ensures var ts := Templates(f, 0, 0, [], false).value;
            var (r, t) := GetReply(Feed(IDLE, Command(RenderAll(ts, ap)) + rest));
            && r.Some? && r.value.Arr? && |r.value.element| == |ts|
            && (forall i :: 0 <= i < |ts| ==> r.value.element[i] == Str(Render(ts[i], ap)))
            && t == Feed(IDLE, rest)
  {
    hide GetReply, Command, Templates;
    ReadCommand(RenderAll(Templates(f, 0, 0, [], false).value, ap), rest);
  }
}
