/** What the reader makes of array headers whose counts its types cannot hold. */
module RespCounts {
  import opened Bytes
  import opened MachineInts
  import opened RespSpec
  import opened RespSafety
  import opened RespRoundTrip

  /** A header at the root, with any count that is read back. */
  lemma RootHeader(e: int, rest: seq<byte>)
    requires -TWO63 <= e < TWO63
    ensures var s := Begin(Feed(IDLE, Line(42, DecimalInt(e)) + rest));
            && s.err == NoErr && s.stack == [ROOT] && Count(s) == Some(e)
            && Item(s) == (true,
                 if e > 0 then State(NoErr, rest, [Task(KArray, Wrap32(e), -1), Task(KNone, -1, 0)],
                                    NewArray(Wrap32(e)))
                 else State(NoErr, rest, [], if e == -1 then Nil else NewArray(Wrap32(e))))
  {
    var d := DecimalInt(e);
    var u := d + CRLF + rest;
    LineBytes(42, d, rest);
    ReadDecimal(e, rest);
    assert u[|d| + 2..] == rest;
    hide DecimalInt, Line;
    TypedHeader(u, |d|, e, rest);
    RootType(u);
  }

  lemma RootType(u: seq<byte>)
    ensures var s, t := Begin(Feed(IDLE, [42] + u)), State(NoErr, u, [Task(KArray, -1, -1)], Null);
            s.rest == [42] + u && s.stack == [ROOT] && s.err == NoErr && Item(s) == Typed(t) && Typing(s) == t
  {
    var s := Begin(Feed(IDLE, [42] + u));
    assert s.rest[1..] == u;
    assert WithKind(s) == State(NoErr, u, [Task(KArray, -1, -1)], Null);
  }

  lemma TypedHeader(u: seq<byte>, n: nat, e: int, rest: seq<byte>)
    requires Seek(u) == n && ReadLongLong(u) == e && n + 2 <= |u| && u[n + 2..] == rest
    ensures Typed(State(NoErr, u, [Task(KArray, -1, -1)], Null)) == (true,
              if e > 0 then State(NoErr, rest, [Task(KArray, Wrap32(e), -1), Task(KNone, -1, 0)], NewArray(Wrap32(e)))
              else State(NoErr, rest, [], if e == -1 then Nil else NewArray(Wrap32(e))))
  {
    hide Seek, ReadLongLong, Wrap32, NewArray;
    var t := State(NoErr, u, [Task(KArray, -1, -1)], Null);
    assert Path(t.stack) == [];
    assert SetTop(t.stack, Top(t.stack).(elements := Wrap32(e))) + [Task(KNone, -1, 0)]
        == [Task(KArray, Wrap32(e), -1), Task(KNone, -1, 0)];
  }

  /** A count below -1 is handed out at once: as many empty slots as it is positive as an int, and the int
      converted to size_t as their number. */
  lemma NegativeCount(e: int, rest: seq<byte>)
    requires -TWO63 <= e < -1
    ensures GetReply(Feed(IDLE, Line(42, DecimalInt(e)) + rest)) == (Some(NewArray(Wrap32(e))), Feed(IDLE, rest))
    ensures Complete(NewArray(Wrap32(e))) <==> CountOk(e)
  {
    var s := Begin(Feed(IDLE, Line(42, DecimalInt(e)) + rest));
    RootHeader(e, rest);
    LineBytes(42, DecimalInt(e), rest);
    LoopStep(s, true, Item(s).1);
    LoopDone(Item(s).1);
    assert Feed(IDLE, rest).rest == rest;
    NewArrayComplete(Wrap32(e));
    hide Loop, Item, NewArray, Wrap32, DecimalInt;
  }

  /** A positive count that becomes zero or negative leaves no slot for the next item: its object is stored
      through an array without elements. */
  lemma LostCount(e: int, v: int, rest: seq<byte>)
    requires 0 < e < TWO63 && !CountOk(e)
    ensures GetReply(Feed(IDLE, Line(42, DecimalInt(e)) + (Line(58, DecimalInt(v)) + rest))) == (None, Fail(Fault))
  {
    var tail := Line(58, DecimalInt(v)) + rest;
    var s := Begin(Feed(IDLE, Line(42, DecimalInt(e)) + tail));
    RootHeader(e, tail);
    LineBytes(42, DecimalInt(e), tail);
    LoopStep(s, true, Item(s).1);
    var t := Item(s).1;
    LostItem(t, v, rest);
    LoopStep(t, false, Fail(Fault));
    hide Loop, Item, NewArray, Wrap32, DecimalInt, Line, Print;
  }

  /** When a byte that is no type follows such a count, the request ends in the protocol error, before anything is
      stored. */
  lemma LostCountDropped(e: int, b: byte, rest: seq<byte>)
    requires 0 < e < TWO63 && KindOf(b) == KNone
    ensures GetReply(Feed(IDLE, Line(42, DecimalInt(e)) + ([b] + rest))) == (None, Fail(BadType(b)))
    ensures RequestCounts(Feed(IDLE, Line(42, DecimalInt(e)) + ([b] + rest))) == []
  {
    var tail := [b] + rest;
    var s := Begin(Feed(IDLE, Line(42, DecimalInt(e)) + tail));
    RootHeader(e, tail);
    LineBytes(42, DecimalInt(e), tail);
    LoopStep(s, true, Item(s).1);
    var t := Item(s).1;
    assert t.rest[0] == b;
    assert Item(t) == (false, Fail(BadType(b)));
    LoopStep(t, false, Fail(BadType(b)));
    hide Loop, Item, NewArray, Wrap32, DecimalInt, Line, Print;
  }

  lemma LostItem(t: State, v: int, rest: seq<byte>)
    requires t.err == NoErr && |t.stack| == 2 && Top(t.stack) == Task(KNone, -1, 0)
    requires t.tree.Arr? && t.tree.element == [] && t.rest == Line(58, DecimalInt(v)) + rest
    ensures Item(t) == (false, Fail(Fault))
  {
    var d := DecimalInt(v);
    var u := d + CRLF + rest;
    LineBytes(58, d, rest);
    assert t.rest == [58] + u && t.rest[1..] == u;
    ReadDecimal(v, rest);
    hide DecimalInt, ReadLongLong;
    assert Path(WithKind(t).stack)[0] == 0;
    assert !HasSlot(WithKind(t));
  }

  /** From then on no item of the request is ever complete: it waits, fails, or stores outside. */
  lemma NoSlotNoReply(s: State)
    requires s.stack != [] && s.err == NoErr && Sound(s) && !HasSlot(s)
    ensures !Item(s).0 && GetReply(s).0 == None
    ensures Item(s).1.err == NoErr ==> Sound(Item(s).1) && !HasSlot(Item(s).1)
  {
    hide Sound, ReadLongLong, NewArray;
    NoSlotStays(s);
  }

  lemma NoSlotStays(s: State)
    requires s.stack != [] && s.err == NoErr && Sound(s) && !HasSlot(s)
    ensures !Item(s).0
    ensures Item(s).1.err == NoErr ==> Sound(Item(s).1) && !HasSlot(Item(s).1)
  {
    ItemKeepsOk(s);
    hide Sound, ReadLongLong, NewArray, Store, MoveNext, HasPath;
    if Top(s.stack).kind == KNone && s.rest != [] {
      PathOfTop(s.stack, Top(WithKind(s).stack));
    }
  }

  /** The counts 2^32, which leaves nothing to store into, 1 - 2^32, which hands out an empty slot, and -2. */
  lemma CountsThatFail(v: int, rest: seq<byte>)
    ensures GetReply(Feed(IDLE, Line(42, DecimalInt(0x1_0000_0000)) + (Line(58, DecimalInt(v)) + rest)))
            == (None, Fail(Fault))
    ensures GetReply(Feed(IDLE, Line(42, DecimalInt(1 - 0x1_0000_0000)) + rest))
            == (Some(Arr(1, [Null])), Feed(IDLE, rest))
    ensures GetReply(Feed(IDLE, Line(42, DecimalInt(-2)) + rest)) == (Some(Arr(TWO64 - 2, [])), Feed(IDLE, rest))
  {
    Conversions();
    hide *;
    LostCount(0x1_0000_0000, v, rest);
    NegativeCount(1 - 0x1_0000_0000, rest);
    NegativeCount(-2, rest);
  }

  lemma Conversions()
    ensures -TWO63 <= 1 - 0x1_0000_0000 && -TWO63 <= -2 && 0x1_0000_0000 < TWO63
    ensures !CountOk(0x1_0000_0000) && !CountOk(1 - 0x1_0000_0000) && !CountOk(-2)
    ensures NewArray(Wrap32(1 - 0x1_0000_0000)) == Arr(1, [Null]) && NewArray(Wrap32(-2)) == Arr(TWO64 - 2, [])
  {
    assert Nulls(1) == [Null];
  }
}
