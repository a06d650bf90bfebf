/**
 Replies printed in the Redis serialization protocol (RESP2) are read back as the same tree with
 exactly the following bytes unread if they have at most eight array levels, and give the protocol
 error otherwise.
 */
module RespRoundTrip {
  import opened Bytes
  import opened MachineInts
  import opened RespSpec

  // ----- the printed form

  function Line(mark: byte, body: seq<byte>): seq<byte> {
    [mark] + body + CRLF
  }

  /** The RESP2 form of a reply. */
  function Print(t: Reply): seq<byte> {
    match t
    case Null => []
    case Nil => Line(36, [45, 49])
    case Integer(v) => Line(58, DecimalInt(v))
    case Status(str) => Line(43, str)
    case Error(str) => Line(45, str)
    case Str(str) => Line(36, Decimal(|str|)) + str + CRLF
    case Arr(_, el) => Line(42, Decimal(|el|)) + PrintAll(el)
  }

  function PrintAll(ts: seq<Reply>): seq<byte> {
    if ts == [] then [] else Print(ts[0]) + PrintAll(ts[1..])
  }

  predicate NoCRLF(l: seq<byte>) {
    forall i :: 0 <= i < |l| ==> !NewlineAt(l, i)
  }

  /** Replies that RESP2 can express and the reader's types can hold: integers whose digits do not overflow a
      signed 64-bit number, and lengths and counts that fit an int. */
  predicate Printable(t: Reply) {
    match t
    case Null => false
    case Nil => true
    case Integer(v) => -TWO63 < v < TWO63
    case Status(str) => NoCRLF(str) && |str| < TWO31
    case Error(str) => NoCRLF(str) && |str| < TWO31
    case Str(str) => |str| < TWO31
    case Arr(n, el) => n == |el| < TWO31 && forall i :: 0 <= i < |el| ==> Printable(el[i])
  }

  /** The number of array levels. */
  function Levels(t: Reply): nat {
    match t
    case Arr(_, el) => 1 + MaxLevels(el)
    case _ => 0
  }

  function MaxLevels(ts: seq<Reply>): nat {
    if ts == [] then 0
    else
      var a, b := Levels(ts[0]), MaxLevels(ts[1..]);
      if a > b then a else b
  }

  // ----- lines and numbers

  /** A line is read back whole exactly when it contains no CRLF itself. */
  lemma SeekLine(l: seq<byte>, rest: seq<byte>)
    ensures Seek(l + CRLF + rest) == |l| <==> NoCRLF(l)
  {
    var u := l + CRLF + rest;
    assert NewlineAt(u, |l|);
    assert forall i :: i + 1 < |l| ==> (NewlineAt(u, i) <==> NewlineAt(l, i));
    assert forall i :: NewlineAt(u, i) && i < |l| ==> i + 1 < |l|;
  }

  /** The value of a string of digits, continuing from v. */
  function Value(v: int, d: seq<byte>): int
    decreases |d|
  {
    if d == [] then v else Value(10 * v + (d[0] as int - 48), d[1..])
  }

  lemma {:induction false} DigitsValue(d: seq<byte>, v: int, rest: seq<byte>)
    requires forall i :: 0 <= i < |d| ==> 48 <= d[i] < 58
    ensures Digits(d + rest, Wrap64(v)) == Digits(rest, Wrap64(Value(v, d)))
  {
    hide Wrap64;
    if d == [] {
      assert d + rest == rest;
    } else {
      assert (d + rest)[1..] == d[1..] + rest;
      WrapStep(v, d[0] as int - 48);
      DigitsValue(d[1..], 10 * v + (d[0] as int - 48), rest);
    }
  }

  lemma {:induction false} ValueSnoc(v: int, d: seq<byte>, x: byte)
    ensures Value(v, d + [x]) == 10 * Value(v, d) + (x as int - 48)
    decreases |d|
  {
    if d == [] {
      assert (d + [x])[1..] == [];
    } else {
      assert (d + [x])[1..] == d[1..] + [x];
      ValueSnoc(10 * v + (d[0] as int - 48), d[1..], x);
    }
  }

  lemma {:induction false} DecimalValue(n: nat)
    ensures Value(0, Decimal(n)) == n
  {
    if n < 10 {
      assert Decimal(n)[1..] == [];
    } else {
      DecimalValue(n / 10);
      ValueSnoc(0, Decimal(n / 10), 48 + n % 10);
    }
  }

  /** Every integer printed in decimal is read back modulo 2^64, and thus as itself exactly when it is in the
      range of a signed 64-bit number. */
  lemma ReadDecimal(n: int, rest: seq<byte>)
    ensures Seek(DecimalInt(n) + CRLF + rest) == |DecimalInt(n)|
    ensures ReadLongLong(DecimalInt(n) + CRLF + rest) == Wrap64(n)
    ensures ReadLongLong(DecimalInt(n) + CRLF + rest) == n <==> -TWO63 <= n < TWO63
  {
    var m: nat := if n < 0 then -n else n;
    var u := DecimalInt(n) + CRLF + rest;
    SeekLine(DecimalInt(n), rest);
    assert Wrap64(0) == 0;
    WrapNegated(m);
    WrapOnce(m);
    hide Wrap64;
    DigitsValue(Decimal(m), 0, CRLF + rest);
    DecimalValue(m);
    assert Decimal(m) + (CRLF + rest) == (if n < 0 then u[1..] else u);
  }

  lemma WrapOnce(n: int)
    ensures Wrap64(1 * Wrap64(n)) == Wrap64(n) && Wrap64(-1 * Wrap64(n)) == Wrap64(-Wrap64(n))
  {
  }

  lemma ReadNat(n: nat, rest: seq<byte>)
    requires n < TWO63
    ensures Seek(Decimal(n) + CRLF + rest) == |Decimal(n)|
    ensures ReadLongLong(Decimal(n) + CRLF + rest) == n
  {
    ReadDecimal(n, rest);
  }

  /** No step of the accumulation leaves the range of a signed 64-bit number. Beyond it the value is what
      two's complement makes of it; the language leaves it open. */
  predicate Accumulates(u: seq<byte>, v: int) {
    u == [] || !(48 <= u[0] < 58) ||
    (10 * v + (u[0] as int - 48) < TWO63 && Accumulates(u[1..], 10 * v + (u[0] as int - 48)))
  }

  lemma {:induction false} ValueGrows(v: int, d: seq<byte>)
    requires v >= 0 && forall i :: 0 <= i < |d| ==> 48 <= d[i] < 58
    ensures Value(v, d) >= v
    decreases |d|
  {
    if d != [] {
      ValueGrows(10 * v + (d[0] as int - 48), d[1..]);
    }
  }

  lemma {:induction false} AccumulatesTo(d: seq<byte>, v: int, rest: seq<byte>)
    requires v >= 0 && forall i :: 0 <= i < |d| ==> 48 <= d[i] < 58
    ensures Accumulates(d + CRLF + rest, v) <==> d == [] || Value(v, d) < TWO63
    decreases |d|
  {
    var u := d + CRLF + rest;
    if d != [] {
      var w := 10 * v + (d[0] as int - 48);
      assert u[1..] == d[1..] + CRLF + rest;
      AccumulatesTo(d[1..], w, rest);
      ValueGrows(w, d[1..]);
    }
  }

  /** The accumulation of a printed integer overflows exactly from 2^63 on, on either side of zero. */
  lemma NoOverflow(n: int, rest: seq<byte>)
    ensures Accumulates(Decimal(if n < 0 then -n else n) + CRLF + rest, 0) <==> -TWO63 < n < TWO63
  {
    var m: nat := if n < 0 then -n else n;
    AccumulatesTo(Decimal(m), 0, rest);
    DecimalValue(m);
  }

  /** The first integer that is not read back. */
  lemma TwoTo63IsNegative(rest: seq<byte>)
    ensures ReadLongLong(DecimalInt(TWO63) + CRLF + rest) == -TWO63
  {
    ReadDecimal(TWO63, rest);
  }

  lemma LineBytes(mark: byte, body: seq<byte>, rest: seq<byte>)
    ensures Line(mark, body) + rest == [mark] + (body + CRLF + rest)
  {
  }

  // ----- the slots of the tree

  lemma {:induction false} PutInside(tree: Reply, path: seq<int>, a: Reply, i: int, v: Reply)
    requires HasPath(tree, path) && a.Arr? && 0 <= i < |a.element|
    ensures HasPath(PutAt(tree, path, a), path + [i])
    ensures PutAt(PutAt(tree, path, a), path + [i], v) == PutAt(tree, path, a.(element := a.element[i := v]))
    decreases path
  {
    if path == [] {
      assert ([i] + [])[1..] == [];
    } else {
      assert (path + [i])[1..] == path[1..] + [i];
      PutInside(tree.element[path[0]], path[1..], a, i, v);
    }
  }

  lemma PathPush(stack: seq<Task>, t: Task)
    requires stack != []
    ensures Path(stack + [t]) == Path(stack) + [t.idx]
  {
  }

  // ----- one reply

  /** The reader is about to read an item: its type byte is not known yet. */
  predicate Ready(s: State) {
    && s.err == NoErr && s.stack != [] && |s.stack| <= MAX_STACK
    && Top(s.stack).kind == KNone && HasPath(s.tree, Path(s.stack))
  }

  /** The state in which reply t has been read and `rest` is left. */
  function After(s: State, t: Reply, rest: seq<byte>): State
    requires s.stack != []
  {
    State(NoErr, rest, MoveNext(s.stack), Store(s.tree, s.stack, t))
  }

  /** The reader's tasks at the current item, and the array levels of t, fit its stack. */
  predicate Fits(s: State, levels: nat) {
    |s.stack| + levels <= MAX_STACK
  }

  lemma MoveNextOfTop(stack: seq<Task>, t: Task)
    requires stack != [] && t.idx == Top(stack).idx
    ensures MoveNext(SetTop(stack, t)) == MoveNext(stack)
  {
    if |stack| > 1 {
      assert SetTop(stack, t)[..|stack| - 1] == stack[..|stack| - 1];
      assert SetTop(SetTop(stack, t), Task(KNone, -1, t.idx + 1)) == SetTop(stack, Task(KNone, -1, t.idx + 1));
    }
  }

  lemma PathOfTop(stack: seq<Task>, t: Task)
    requires stack != [] && t.idx == Top(stack).idx
    ensures Path(SetTop(stack, t)) == Path(stack)
  {
  }

  /** The state behind the type byte. */
  function AfterType(s: State, kind: Kind, u: seq<byte>): (k: State)
    requires s.stack != []
    ensures |k.stack| == |s.stack| && k.rest == u
  {
    State(NoErr, u, SetTop(s.stack, Top(s.stack).(kind := kind)), s.tree)
  }

  /** After the type byte, the typed item is read from the bytes behind it. */
  lemma ItemAfterType(s: State, mark: byte, u: seq<byte>)
    requires Ready(s) && s.rest == [mark] + u && KindOf(mark) != KNone
    ensures var k := AfterType(s, KindOf(mark), u);
            && Item(s) == Typed(k)
            && MoveNext(k.stack) == MoveNext(s.stack) && Path(k.stack) == Path(s.stack) && HasSlot(k)
  {
    MoveNextOfTop(s.stack, Top(s.stack).(kind := KindOf(s.rest[0])));
    PathOfTop(s.stack, Top(s.stack).(kind := KindOf(s.rest[0])));
    assert WithKind(s).rest == u;
  }

  lemma ReadLine(s: State, mark: byte, l: seq<byte>, rest: seq<byte>)
    requires Ready(s) && s.rest == Line(mark, l) + rest
    requires mark in [43, 45, 58] && NoCRLF(l)
    ensures Item(s) == (true, After(s, LineReply(KindOf(mark), l + CRLF + rest, |l|), rest))
  {
    var u := l + CRLF + rest;
    assert s.rest == [mark] + u;
    ItemAfterType(s, mark, u);
    SeekLine(l, rest);
    assert u[|l| + 2..] == rest;
  }

  lemma BulkSlices(header: seq<byte>, str: seq<byte>, rest: seq<byte>)
    ensures var u := header + CRLF + (str + CRLF + rest);
            && |u| == |header| + 2 + |str| + 2 + |rest|
            && u[|header| + 2..|header| + 2 + |str|] == str
            && u[|header| + 2 + |str| + 2..] == rest
  {
  }

  lemma BulkAt(k: State, n: nat, str: seq<byte>, rest: seq<byte>)
    requires k.stack != [] && HasSlot(k) && Seek(k.rest) == n && ReadLongLong(k.rest) == |str|
    requires |k.rest| == n + 2 + |str| + 2 + |rest|
    requires k.rest[n + 2..n + 2 + |str|] == str && k.rest[n + 2 + |str| + 2..] == rest
    ensures BulkItem(k) == (true, After(k, Str(str), rest))
  {
  }

  lemma BulkOf(k: State, d: seq<byte>, str: seq<byte>, rest: seq<byte>)
    requires k.stack != [] && HasSlot(k) && |str| < TWO31
    requires d == Decimal(|str|) && k.rest == d + CRLF + (str + CRLF + rest)
    ensures BulkItem(k) == (true, After(k, Str(str), rest))
  {
    assert |str| < TWO63;
    hide *;
    ReadNat(|str|, str + CRLF + rest);
    BulkSlices(d, str, rest);
    BulkAt(k, |d|, str, rest);
  }

  lemma StrBytes(d: seq<byte>, str: seq<byte>, rest: seq<byte>)
    requires d == Decimal(|str|)
    ensures Print(Str(str)) + rest == [36] + (d + CRLF + (str + CRLF + rest))
  {
    hide Decimal, Line;
    Assoc(Line(36, d), str, CRLF, rest);
    LineBytes(36, d, str + CRLF + rest);
  }

  lemma Assoc(a: seq<byte>, b: seq<byte>, c: seq<byte>, d: seq<byte>)
    ensures a + b + c + d == a + (b + c + d)
  {
  }

  lemma StrItem(s: State, d: seq<byte>, u: seq<byte>, str: seq<byte>, rest: seq<byte>)
    requires Ready(s) && |str| < TWO31 && d == Decimal(|str|)
    requires u == d + CRLF + (str + CRLF + rest) && s.rest == [36] + u
    ensures Item(s) == (true, After(s, Str(str), rest))
  {
    hide Decimal, Seek, ReadLongLong, MoveNext, PutAt, HasPath;
    ItemAfterType(s, 36, u);
    BulkOf(AfterType(s, KString, u), d, str, rest);
  }

  lemma ReadStr(s: State, str: seq<byte>, rest: seq<byte>)
    requires Ready(s) && |str| < TWO31 && s.rest == Print(Str(str)) + rest
    ensures Item(s) == (true, After(s, Str(str), rest))
  {
    hide *;
    StrBytes(Decimal(|str|), str, rest);
    StrItem(s, Decimal(|str|), Decimal(|str|) + CRLF + (str + CRLF + rest), str, rest);
  }

  lemma ReadNil(s: State, rest: seq<byte>)
    requires Ready(s) && s.rest == Print(Nil) + rest
    ensures Item(s) == (true, After(s, Nil, rest))
  {
    assert Decimal(1) == [49] && DecimalInt(-1) == [45, 49];
    var u := DecimalInt(-1) + CRLF + rest;
    assert s.rest == [36] + u;
    ItemAfterType(s, 36, u);
    ReadDecimal(-1, rest);
    assert u[4..] == rest;
  }

  /** The state behind the header of an array of n elements. */
  function Opened(s: State, n: nat, rest: seq<byte>): State
    requires s.stack != []
  {
    State(NoErr, rest, SetTop(s.stack, Top(s.stack).(elements := n)) + [Task(KNone, -1, 0)],
          Store(s.tree, s.stack, Arr(n, Nulls(n))))
  }

  lemma HeaderOf(k: State, n: nat, rest: seq<byte>)
    requires k.stack != [] && |k.stack| < MAX_STACK && k.rest == Decimal(n) + CRLF + rest && HasSlot(k) && n < TWO31
    ensures |Decimal(n)| + 2 <= |k.rest|
    ensures MultiBulkItem(k) == (true, if n == 0 then After(k, Arr(0, []), rest) else Opened(k, n, rest))
  {
    ReadNat(n, rest);
    assert k.rest[|Decimal(n)| + 2..] == rest;
  }

  lemma ReadHeaderType(s: State, u: seq<byte>)
    requires Ready(s) && |s.stack| < MAX_STACK && s.rest == [42] + u
    ensures var k := AfterType(s, KArray, u);
            && Item(s) == MultiBulkItem(k)
            && MoveNext(k.stack) == MoveNext(s.stack) && Path(k.stack) == Path(s.stack) && HasSlot(k)
  {
    ItemAfterType(s, 42, u);
  }

  lemma ReadEmptyHeader(s: State, rest: seq<byte>)
    requires Ready(s) && s.rest == Line(42, Decimal(0)) + rest && |s.stack| < MAX_STACK
    ensures Item(s) == (true, After(s, Arr(0, []), rest))
  {
    var u := Decimal(0) + CRLF + rest;
    LineBytes(42, Decimal(0), rest);
    ReadHeaderType(s, u);
    HeaderOf(AfterType(s, KArray, u), 0, rest);
  }

  lemma HeaderBytes(s: State, el: seq<Reply>, d: seq<byte>, u: seq<byte>, rest: seq<byte>)
    requires Ready(s) && s.stack != [] && |s.stack| < MAX_STACK && 0 < |el| < TWO31
    requires d == Decimal(|el|) && u == d + CRLF + rest && s.rest == [42] + u
    ensures Item(s) == (true, InArray(s, el, 0, rest))
  {
    hide *;
    ReadHeaderType(s, u);
    HeaderOf(AfterType(s, KArray, u), |el|, rest);
    OpenIsInArray(s, AfterType(s, KArray, u), el, rest);
  }

  /** The header of a non-empty array, above the ninth level. */
  lemma ReadHeader(s: State, el: seq<Reply>, rest: seq<byte>)
    requires Ready(s) && s.stack != [] && |s.stack| < MAX_STACK && 0 < |el| < TWO31
    requires s.rest == Line(42, Decimal(|el|)) + rest
    ensures Item(s) == (true, InArray(s, el, 0, rest))
  {
    hide *;
    LineBytes(42, Decimal(|el|), rest);
    HeaderBytes(s, el, Decimal(|el|), Decimal(|el|) + CRLF + rest, rest);
  }

  lemma OpenIsInArray(s: State, k: State, el: seq<Reply>, rest: seq<byte>)
    requires s.stack != [] && el != []
    requires k == AfterType(s, KArray, k.rest)
    requires |Decimal(|el|)| + 2 <= |k.rest|
    ensures Opened(k, |el|, rest) == InArray(s, el, 0, rest)
  {
    PathOfTop(s.stack, Top(k.stack));
    assert Nulls(|el|) == Filled(el, 0);
    assert SetTop(k.stack, Top(k.stack).(elements := |el|))
        == SetTop(s.stack, Top(s.stack).(kind := KArray, elements := |el|));
  }

  /** The first i elements are stored, the others are still empty slots. */
  function Filled(el: seq<Reply>, i: nat): (r: seq<Reply>)
    requires i <= |el|
    ensures |r| == |el|
  {
    el[..i] + Nulls(|el| - i)
  }

  /** Inside the array el that starts at the current item of s, about to read element i. */
  function InArray(s: State, el: seq<Reply>, i: nat, rest: seq<byte>): State
    requires s.stack != [] && i < |el|
  {
    State(NoErr, rest,
          SetTop(s.stack, Top(s.stack).(kind := KArray, elements := |el|)) + [Task(KNone, -1, i)],
          Store(s.tree, s.stack, Arr(|el|, Filled(el, i))))
  }

  lemma InArrayReady(s: State, el: seq<Reply>, i: nat, rest: seq<byte>)
    requires Ready(s) && |s.stack| < MAX_STACK && i < |el|
    ensures var k := InArray(s, el, i, rest); Ready(k) && k.rest == rest && |k.stack| == |s.stack| + 1
  {
    var base := SetTop(s.stack, Top(s.stack).(kind := KArray, elements := |el|));
    PathOfTop(s.stack, Top(base));
    PathPush(base, Task(KNone, -1, i));
    PutInside(s.tree, Path(s.stack), Arr(|el|, Filled(el, i)), i, Null);
  }

  /** Storing element i moves on to element i + 1, or closes the array when it was the last. */
  lemma AfterElement(s: State, el: seq<Reply>, i: nat, rest: seq<byte>, rest': seq<byte>)
    requires Ready(s) && |s.stack| < MAX_STACK && i < |el|
    ensures After(InArray(s, el, i, rest), el[i], rest') ==
            if i + 1 < |el| then InArray(s, el, i + 1, rest') else After(s, Arr(|el|, el), rest')
  {
    var top := Top(s.stack).(kind := KArray, elements := |el|);
    var base := SetTop(s.stack, top);
    var a := Arr(|el|, Filled(el, i));
    PathOfTop(s.stack, top);
    PathPush(base, Task(KNone, -1, i));
    PutInside(s.tree, Path(s.stack), a, i, el[i]);
    assert Filled(el, i)[i := el[i]] == Filled(el, i + 1);
    var stack := base + [Task(KNone, -1, i)];
    if i + 1 < |el| {
      assert SetTop(stack, Task(KNone, -1, i + 1)) == base + [Task(KNone, -1, i + 1)];
    } else {
      assert Filled(el, |el|) == el;
      assert stack[..|stack| - 1] == base;
      MoveNextOfTop(s.stack, top);
    }
  }

  lemma ReadLeaf(s: State, t: Reply, rest: seq<byte>)
    requires Ready(s) && Printable(t) && !t.Arr? && s.rest == Print(t) + rest
    ensures Item(s) == (true, After(s, t, rest))
  {
    match t {
      case Nil => ReadNil(s, rest);
      case Integer(v) =>
        ReadDecimal(v, rest);
        SeekLine(DecimalInt(v), rest);
        ReadLine(s, 58, DecimalInt(v), rest);
      case Status(str) =>
        ReadLine(s, 43, str, rest);
        assert (str + CRLF + rest)[..|str|] == str;
      case Error(str) =>
        ReadLine(s, 45, str, rest);
        assert (str + CRLF + rest)[..|str|] == str;
      case Str(str) => ReadStr(s, str, rest);
    }
  }

  lemma LoopStep(s: State, ok: bool, t: State)
    requires s.err == NoErr && s.stack != [] && Item(s) == (ok, t)
    ensures ok ==> t.err == NoErr && Loop(s) == Loop(t)
    ensures !ok ==> Loop(s) == t
  {
    ItemConsumes(s);
  }

  /** The cases without elements: leaves, the empty array, and an array at the ninth level. */
  lemma ReadFlat(s: State, t: Reply, rest: seq<byte>)
    requires Ready(s) && Printable(t) && s.rest == Print(t) + rest
    requires t.Arr? ==> |s.stack| == MAX_STACK || t.element == []
    ensures Loop(s) == if Fits(s, Levels(t)) then Loop(After(s, t, rest)) else Fail(TooDeep)
  {
    hide Loop, Item, Path, PutAt, HasPath, MoveNext;
    if !t.Arr? {
      ReadLeaf(s, t, rest);
      LoopStep(s, true, After(s, t, rest));
    } else if |s.stack| == MAX_STACK {
      NinthLevel(s, s.rest[1..]);
      LoopStep(s, false, Fail(TooDeep));
    } else {
      assert s.rest == Line(42, Decimal(0)) + rest;
      ReadEmptyHeader(s, rest);
      LoopStep(s, true, After(s, Arr(0, []), rest));
    }
  }

  lemma OpenArray(s: State, el: seq<Reply>, rest: seq<byte>)
    requires Ready(s) && s.rest == Print(Arr(|el|, el)) + rest && |s.stack| < MAX_STACK && 0 < |el| < TWO31
    ensures Loop(s) == Loop(InArray(s, el, 0, Suffix(el, 0, rest)))
  {
    var u := Suffix(el, 0, rest);
    assert el[0..] == el;
    assert s.rest == Line(42, Decimal(|el|)) + u;
    ReadHeader(s, el, u);
    LoopStep(s, true, InArray(s, el, 0, u));
  }

  /** Reading a printed reply inside any enclosing arrays: either it fits the stack, and the reader goes
      on behind it, or the reader ends with the protocol error. */
  lemma {:induction false} ReadReply(s: State, t: Reply, rest: seq<byte>)
    requires Ready(s) && Printable(t) && s.rest == Print(t) + rest
    ensures Loop(s) == if Fits(s, Levels(t)) then Loop(After(s, t, rest)) else Fail(TooDeep)
    decreases t, 1, 0
  {
    hide Loop, Path, Store, HasPath, MoveNext, PrintAll;
    if t.Arr? && |s.stack| < MAX_STACK && t.element != [] {
      OpenArray(s, t.element, rest);
      ReadElements(s, t, 0, rest);
      assert t.element[0..] == t.element;
    } else {
      ReadFlat(s, t, rest);
    }
  }

  /** The elements from index i on, when the reader stands before element i. */
  function Suffix(el: seq<Reply>, i: nat, rest: seq<byte>): seq<byte>
    requires i <= |el|
  {
    PrintAll(el[i..]) + rest
  }

  lemma SuffixStep(el: seq<Reply>, i: nat, rest: seq<byte>)
    requires i < |el|
    ensures Suffix(el, i, rest) == Print(el[i]) + Suffix(el, i + 1, rest)
    ensures i + 1 == |el| ==> Suffix(el, i + 1, rest) == rest
  {
    hide Print;
    assert el[i..][1..] == el[i + 1..];
    if i + 1 == |el| {
      assert el[i + 1..] == [];
    }
  }

  /** The elements from i on fit if element i does and the later ones do. */
  lemma FitsStep(s: State, k: State, el: seq<Reply>, i: nat)
    requires i < |el| && |k.stack| == |s.stack| + 1 <= MAX_STACK
    ensures Fits(s, 1 + MaxLevels(el[i..])) <==>
            Fits(k, Levels(el[i])) && (i + 1 < |el| ==> Fits(s, 1 + MaxLevels(el[i + 1..])))
  {
    hide Levels;
    assert el[i..][1..] == el[i + 1..];
    if i + 1 == |el| {
      assert el[i + 1..] == [];
    }
  }

  lemma {:induction false} ReadElements(s: State, t: Reply, i: nat, rest: seq<byte>)
    requires Ready(s) && s.stack != [] && t.Arr? && Printable(t) && i < |t.element| && |s.stack| < MAX_STACK
    ensures Loop(InArray(s, t.element, i, Suffix(t.element, i, rest))) ==
            if Fits(s, 1 + MaxLevels(t.element[i..])) then Loop(After(s, t, rest)) else Fail(TooDeep)
    decreases t, 0, |t.element| - i
  {
    hide *;
    var el := t.element;
    var u, tail := Suffix(el, i, rest), Suffix(el, i + 1, rest);
    PrintableElement(t, i);
    SuffixStep(el, i, rest);
    InArrayReady(s, el, i, u);
    FitsStep(s, InArray(s, el, i, u), el, i);
    ReadReply(InArray(s, el, i, u), el[i], tail);
    AfterElement(s, el, i, u, tail);
    if i + 1 < |el| {
      ReadElements(s, t, i + 1, rest);
    }
  }

  lemma PrintableElement(t: Reply, i: nat)
    requires t.Arr? && Printable(t) && i < |t.element|
    ensures Printable(t.element[i]) && t == Arr(|t.element|, t.element)
  {
  }

  // ----- the theorems

  /** Main theorem: a printed reply followed by any bytes is read back as itself, with those bytes
      unread, if and only if it has at most eight array levels; otherwise the reader reports the error. */
  lemma RoundTrip(t: Reply, rest: seq<byte>)
    requires Printable(t)
    ensures GetReply(Feed(IDLE, Print(t) + rest)) ==
            if Levels(t) <= 8 then (Some(t), Feed(IDLE, rest)) else (None, Fail(TooDeep))
  {
    NotEmpty(t);
    hide Print, Levels, Loop, Printable, MoveNext, PutAt, Path, HasPath;
    var s := State(NoErr, Print(t) + rest, [ROOT], Null);
    assert Begin(Feed(IDLE, Print(t) + rest)) == s;
    assert s.rest[0] == Print(t)[0];
    AtRoot(s, t, rest);
    ReadReply(s, t, rest);
    LoopDone(After(s, t, rest));
    assert Feed(IDLE, rest).rest == rest;
  }

  lemma NotEmpty(t: Reply)
    requires Printable(t)
    ensures Print(t) != []
  {
  }

  lemma AtRoot(s: State, t: Reply, rest: seq<byte>)
    requires s.stack == [ROOT] && s.err == NoErr && s.rest != []
    ensures Ready(s) && After(s, t, rest) == State(NoErr, rest, [], t)
  {
    assert Path([ROOT]) == [];
  }

  /** A ninth array level is refused as soon as its type byte arrives, whatever follows. */
  lemma NinthLevel(s: State, rest: seq<byte>)
    requires Ready(s) && |s.stack| == MAX_STACK && s.rest == [42] + rest
    ensures Item(s) == (false, Fail(TooDeep))
  {
    ItemAfterType(s, 42, rest);
  }

  /** A stream of printed replies comes out as the same replies, in order. */
  lemma {:induction false} StreamRoundTrip(ts: seq<Reply>)
    requires forall i :: 0 <= i < |ts| ==> Printable(ts[i]) && Levels(ts[i]) <= 8
    ensures Drain(Feed(IDLE, PrintAll(ts))) == (ts, IDLE)
  {
    if ts == [] {
      assert Feed(IDLE, []) == IDLE;
    } else {
      RoundTrip(ts[0], PrintAll(ts[1..]));
      StreamRoundTrip(ts[1..]);
      assert [ts[0]] + ts[1..] == ts;
    }
  }

  /** What the reader takes a status line for: the bytes up to the first CRLF. */
  lemma StatusItem(s: State, u: seq<byte>)
    requires s.stack == [ROOT] && s.err == NoErr && s.rest == [43] + u && Seek(u) >= 0
    ensures Loop(s) == State(NoErr, u[Seek(u) + 2..], [], Status(u[..Seek(u)]))
  {
    hide Loop;
    assert Path([ROOT]) == [];
    ItemAfterType(s, 43, u);
    var t := After(s, Status(u[..Seek(u)]), u[Seek(u) + 2..]);
    LoopStep(s, true, t);
    LoopDone(t);
  }

  lemma LoopDone(t: State)
    requires t.err == NoErr && t.stack == []
    ensures Loop(t) == t
  {
  }

  lemma StatusReply(u: seq<byte>)
    requires Seek(u) >= 0
    ensures GetReply(Feed(IDLE, [43] + u)) == (Some(Status(u[..Seek(u)])), Feed(IDLE, u[Seek(u) + 2..]))
  {
    hide Item, Seek;
    var s := Begin(Feed(IDLE, [43] + u));
    assert s.rest == [43] + u;
    StatusItem(s, u);
    assert Feed(IDLE, u[Seek(u) + 2..]).rest == u[Seek(u) + 2..];
  }

  /** A status line is read back as itself, with the rest unread, exactly when it contains no CRLF. */
  lemma StatusLine(l: seq<byte>, rest: seq<byte>)
    ensures GetReply(Feed(IDLE, Line(43, l) + rest)) == (Some(Status(l)), Feed(IDLE, rest)) <==> NoCRLF(l)
  {
    hide GetReply, Item;
    var u := l + CRLF + rest;
    LineBytes(43, l, rest);
    SeekLine(l, rest);
    assert NewlineAt(u, |l|);
    StatusReply(u);
    if NoCRLF(l) {
      assert u[..|l|] == l && u[|l| + 2..] == rest;
    } else {
      assert |u[..Seek(u)]| != |l|;
    }
  }
}
