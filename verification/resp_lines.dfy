/** What the reader makes of single lines that no server should send: unknown types, signs, and bad digits. */
module RespLines {
  import opened Bytes
  import opened MachineInts
  import opened RespSpec
  import opened RespRoundTrip

  /** A byte other than '$', '*', '+', '-' and ':' where a type is expected ends the request in the protocol error, and
      what was read with it is dropped. */
  lemma UnknownType(b: byte, rest: seq<byte>)
    requires b != 36 && b != 42 && b != 43 && b != 45 && b != 58
    ensures GetReply(Feed(IDLE, [b] + rest)) == (None, State(BadType(b), [], [], Null))
  {
    var s := Begin(Feed(IDLE, [b] + rest));
    assert s.rest[0] == b;
    LoopStep(s, false, Fail(BadType(b)));
  }

  lemma IntegerItem(s: State, u: seq<byte>)
    requires s.stack == [ROOT] && s.err == NoErr && s.rest == [58] + u && Seek(u) >= 0
    ensures Loop(s) == State(NoErr, u[Seek(u) + 2..], [], Integer(ReadLongLong(u)))
  {
    hide Loop, ReadLongLong, Seek;
    assert Path([ROOT]) == [];
    ItemAfterType(s, 58, u);
    var t := After(s, Integer(ReadLongLong(u)), u[Seek(u) + 2..]);
    LoopStep(s, true, t);
    LoopDone(t);
  }

  lemma IntegerReply(u: seq<byte>)
    requires Seek(u) >= 0
    ensures GetReply(Feed(IDLE, [58] + u)) == (Some(Integer(ReadLongLong(u))), Feed(IDLE, u[Seek(u) + 2..]))
  {
    hide Item, Loop, Seek, ReadLongLong;
    var s := Begin(Feed(IDLE, [58] + u));
    assert s.rest == [58] + u;
    IntegerItem(s, u);
    assert Feed(IDLE, u[Seek(u) + 2..]).rest == u[Seek(u) + 2..];
  }

  lemma IntegerLine(l: seq<byte>, rest: seq<byte>, u: seq<byte>)
    requires 13 !in l && u == l + [13, 10] + rest
    ensures GetReply(Feed(IDLE, [58] + l + [13, 10] + rest)) == (Some(Integer(ReadLongLong(u))), Feed(IDLE, rest))
  {
    assert [58] + l + [13, 10] + rest == [58] + u;
    SeekLine(l, rest);
    assert u[|l| + 2..] == rest;
    hide Feed, GetReply, ReadLongLong;
    IntegerReply(u);
  }

  /** A number may have a sign of either kind; without a digit it is 0. */
  lemma SignedNumber(n: nat, rest: seq<byte>)
    requires n < TWO63
    ensures GetReply(Feed(IDLE, [58, 43] + Decimal(n) + [13, 10] + rest)) == (Some(Integer(n)), Feed(IDLE, rest))
    ensures GetReply(Feed(IDLE, [58, 45] + Decimal(n) + [13, 10] + rest)) == (Some(Integer(0 - n)), Feed(IDLE, rest))
    ensures GetReply(Feed(IDLE, [58, 13, 10] + rest)) == (Some(Integer(0)), Feed(IDLE, rest))
  {
    hide GetReply, Feed, ReadLongLong, Decimal, Digits;
    var d := Decimal(n);
    DigitsRead(n, rest);
    Signs(d, n, rest);
    IntegerLine([43] + d, rest, [43] + d + [13, 10] + rest);
    IntegerLine([45] + d, rest, [45] + d + [13, 10] + rest);
    IntegerLine([], rest, [] + [13, 10] + rest);
    assert [58] + ([43] + d) == [58, 43] + d && [58] + ([45] + d) == [58, 45] + d;
    assert [58] + [] + [13, 10] == [58, 13, 10];
  }

  lemma Signs(d: seq<byte>, n: nat, rest: seq<byte>)
    requires n < TWO63 && Digits(d + [13, 10] + rest, 0) == Some(n)
    ensures ReadLongLong([43] + d + [13, 10] + rest) == n && ReadLongLong([45] + d + [13, 10] + rest) == 0 - n
    ensures ReadLongLong([] + [13, 10] + rest) == 0
  {
    assert ([43] + d + [13, 10] + rest)[1..] == d + [13, 10] + rest;
    assert ([45] + d + [13, 10] + rest)[1..] == d + [13, 10] + rest;
    assert Digits([] + [13, 10] + rest, 0) == Some(0);
    hide Digits;
  }

  lemma DigitsRead(n: nat, rest: seq<byte>)
    requires n < TWO63
    ensures Digits(Decimal(n) + [13, 10] + rest, 0) == Some(n) && 13 !in Decimal(n)
  {
    DigitsValue(Decimal(n), 0, [13, 10] + rest);
    DecimalValue(n);
    assert Decimal(n) + ([13, 10] + rest) == Decimal(n) + [13, 10] + rest;
  }

  /** A line with a byte that is no digit behind the sign is taken for -1. */
  lemma NotANumber(l: seq<byte>, i: nat, rest: seq<byte>)
    requires 13 !in l && i < |l| && !(48 <= l[i] < 58) && (i == 0 ==> l[0] != 43 && l[0] != 45)
    ensures GetReply(Feed(IDLE, [58] + l + [13, 10] + rest)) == (Some(Integer(-1)), Feed(IDLE, rest))
  {
    var u := l + [13, 10] + rest;
    assert l + ([13, 10] + rest) == u;
    NoDigits(l, i, [13, 10] + rest, 0);
    if i > 0 {
      NoDigits(l[1..], i - 1, [13, 10] + rest, 0);
      assert u[1..] == l[1..] + ([13, 10] + rest);
    }
    hide Digits;
    assert ReadLongLong(u) == -1;
    hide GetReply, Feed, ReadLongLong;
    IntegerLine(l, rest, u);
  }

  lemma {:induction false} NoDigits(l: seq<byte>, i: nat, rest: seq<byte>, v: int)
    requires 13 !in l && i < |l| && !(48 <= l[i] < 58)
    ensures Digits(l + rest, v) == None
    decreases |l|
  {
    hide Wrap64;
    assert (l + rest)[1..] == l[1..] + rest;
    if i > 0 {
      NoDigits(l[1..], i - 1, rest, Wrap64(Wrap64(10 * v) + (l[0] as int - 48)));
    }
  }
}
