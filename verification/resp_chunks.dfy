/**
 Chunk independence of the reply reader: however a byte stream is cut into pieces, feeding the pieces
 one by one and draining the reader after each gives the same replies and leaves the reader in the same
 state as feeding the whole stream at once.
 */
module RespChunks {
  import opened Bytes
  import opened MachineInts
  import opened RespSpec

  /** The state with more unread bytes. */
  function More(s: State, b: seq<byte>): State {
    s.(rest := s.rest + b)
  }

  lemma SeekMore(u: seq<byte>, b: seq<byte>)
    requires Seek(u) >= 0
    ensures Seek(u + b) == Seek(u)
  {
    var n := Seek(u);
    assert forall i :: i < n ==> (NewlineAt(u + b, i) <==> NewlineAt(u, i));
    assert NewlineAt(u + b, n);
  }

  lemma {:induction false} DigitsMore(u: seq<byte>, b: seq<byte>, v: int)
    requires exists i :: 0 <= i < |u| && u[i] == CR
    ensures Digits(u + b, v) == Digits(u, v)
  {
    hide Wrap64;
    if u[0] != CR && 48 <= u[0] < 58 {
      assert (u + b)[1..] == u[1..] + b;
      var i :| 0 <= i < |u| && u[i] == CR;
      assert u[1..][i - 1] == CR;
      DigitsMore(u[1..], b, Wrap64(Wrap64(10 * v) + (u[0] - 48)));
    }
  }

  lemma ReadLongLongMore(u: seq<byte>, b: seq<byte>)
    requires Seek(u) >= 0
    ensures ReadLongLong(u + b) == ReadLongLong(u)
  {
    hide Wrap64;
    var n := Seek(u);
    assert u[n] == CR;
    if u[0] == 45 || u[0] == 43 {
      assert (u + b)[1..] == u[1..] + b;
      assert u[1..][n - 1] == CR;
      DigitsMore(u[1..], b, 0);
    } else {
      DigitsMore(u, b, 0);
    }
  }

  /** The result of a step that is decided, with more unread bytes. */
  function Extended(r: (bool, State), b: seq<byte>): (bool, State) {
    if r.0 then (true, More(r.1, b)) else r
  }

  lemma FinishMore(s: State, b: seq<byte>, obj: Reply, used: nat)
    requires s.stack != [] && used <= |s.rest|
    ensures Finish(More(s, b), obj, used) == Extended(Finish(s, obj, used), b)
  {
    assert (s.rest + b)[used..] == s.rest[used..] + b;
  }

  lemma LineMore(s: State, b: seq<byte>)
    requires s.stack != [] && Seek(s.rest) >= 0
    ensures LineItem(More(s, b)) == Extended(LineItem(s), b)
  {
    var n := Seek(s.rest);
    SeekMore(s.rest, b);
    ReadLongLongMore(s.rest, b);
    assert (s.rest + b)[..n] == s.rest[..n];
    FinishMore(s, b, LineReply(Top(s.stack).kind, s.rest, n), n + 2);
  }

  lemma BulkMore(s: State, b: seq<byte>)
    requires s.stack != [] && (BulkItem(s).0 || BulkItem(s).1 != s)
    ensures BulkItem(More(s, b)) == Extended(BulkItem(s), b)
  {
    var n := Seek(s.rest);
    SeekMore(s.rest, b);
    ReadLongLongMore(s.rest, b);
    var len := ReadLongLong(s.rest);
    if len < 0 {
      FinishMore(s, b, Nil, n + 2);
    } else {
      assert (s.rest + b)[n + 2..n + 2 + len] == s.rest[n + 2..n + 2 + len];
      FinishMore(s, b, Str(s.rest[n + 2..n + 2 + len]), n + 2 + len + 2);
    }
  }

  lemma MultiBulkMore(s: State, b: seq<byte>)
    requires s.stack != [] && |s.stack| != MAX_STACK && Seek(s.rest) >= 0
    ensures MultiBulkItem(More(s, b)) == Extended(MultiBulkItem(s), b)
  {
    var n := Seek(s.rest);
    SeekMore(s.rest, b);
    ReadLongLongMore(s.rest, b);
    var e := ReadLongLong(s.rest);
    FinishMore(s, b, Nil, n + 2);
    FinishMore(s, b, NewArray(Wrap32(e)), n + 2);
    assert (s.rest + b)[n + 2..] == s.rest[n + 2..] + b;
  }

  /** A typed item that is complete, or that fails for good, does not look at later bytes. */
  lemma TypedMore(s: State, b: seq<byte>)
    requires s.stack != []
    ensures Typed(s).0 ==> Typed(More(s, b)) == (true, More(Typed(s).1, b))
    ensures !Typed(s).0 && Typed(s).1 != s ==> Typed(More(s, b)) == Typed(s)
  {
    if Typed(s).0 || (Typed(s).1 != s && !(Top(s.stack).kind == KArray && |s.stack| == MAX_STACK)) {
      match Top(s.stack).kind
      case KString => BulkMore(s, b);
      case KArray => MultiBulkMore(s, b);
      case _ => LineMore(s, b);
    }
  }

  /** The same for an item; when it suspends, resuming with more bytes equals having had them at once. */
  lemma ItemMore(s: State, b: seq<byte>)
    requires s.stack != [] && s.err == NoErr
    ensures Item(s).0 ==> Item(More(s, b)) == (true, More(Item(s).1, b))
    ensures Item(s).1.err != NoErr ==> Item(More(s, b)) == Item(s)
    ensures !Item(s).0 && Item(s).1.err == NoErr ==>
              Item(s).1.stack != [] && Item(More(s, b)) == Item(More(Item(s).1, b))
  {
    hide Typed;
    if Top(s.stack).kind != KNone {
      TypedConsumes(s);
    }
    if Top(s.stack).kind != KNone {
      TypedMore(s, b);
    } else if s.rest != [] && KindOf(s.rest[0]) != KNone {
      var t := WithKind(s);
      assert (s.rest + b)[1..] == s.rest[1..] + b;
      assert WithKind(More(s, b)) == More(t, b);
      TypedMore(t, b);
      TypedConsumes(t);
    }
  }

  lemma {:induction false} LoopMore(s: State, b: seq<byte>)
    requires s.err == NoErr
    ensures var t := Loop(s);
            Loop(More(s, b)) == if t.err != NoErr then t
                                else if t.stack == [] then More(t, b)
                                else Loop(More(t, b))
    decreases |s.rest|
  {
    if s.stack != [] {
      ItemConsumes(s);
      ItemMore(s, b);
      if Item(s).0 {
        LoopMore(Item(s).1, b);
      }
    }
  }

  /** A state in which the reader may be between two calls: no half-read item that would fail at once. */
  predicate Settled(s: State) {
    s.err == NoErr ==>
      && s.stack != [ROOT]
      && (s.stack != [] ==> s.rest == [] ==> Item(s) == (false, s))
  }

  lemma ItemWaits(s: State)
    requires s.stack != [] && s.err == NoErr && !Item(s).0 && Item(s).1.err == NoErr
    ensures Item(s).1.stack != [] && Item(Item(s).1) == Item(s)
  {
    hide Typed;
    if Top(s.stack).kind != KNone {
      TypedConsumes(s);
    } else if s.rest != [] && KindOf(s.rest[0]) != KNone {
      TypedConsumes(WithKind(s));
    }
  }

  lemma {:induction false} LoopSettles(s: State)
    requires s.err == NoErr
    ensures var t := Loop(s); t.err == NoErr && t.stack != [] ==> Item(t) == (false, t)
    decreases |s.rest|
  {
    hide Item;
    if s.stack != [] {
      ItemConsumes(s);
      if Item(s).0 {
        LoopSettles(Item(s).1);
      } else if Item(s).1.err == NoErr {
        ItemWaits(s);
      }
    }
  }

  lemma GetReplySettles(s: State)
    requires Settled(s)
    ensures Settled(GetReply(s).1)
  {
    if s.err == NoErr {
      LoopSettles(Begin(s));
    }
  }

  /** When a request yields no reply, asking again after more bytes have come gives the same as if
      those bytes had been there from the start. */
  lemma GetReplyMore(s: State, b: seq<byte>)
    requires Settled(s) && s.err == NoErr
    ensures var (r, t) := GetReply(s);
            GetReply(More(s, b)) == if r.Some? then (r, More(t, b)) else GetReply(Feed(t, b))
  {
    var (r, t) := GetReply(s);
    if s.rest != [] {
      var s' := Begin(s);
      LoopMore(s', b);
      LoopSettles(s');
      assert More(Begin(s), b) == Begin(More(s, b));
      var l := Loop(s');
      if l.err == NoErr && l.stack != [] && l.rest + b == [] {
        assert More(l, b) == l;
      }
    }
  }

  lemma {:induction false} DrainMore(s: State, b: seq<byte>)
    requires Settled(s)
    ensures var (rs, t) := Drain(s);
            var (rs', u) := Drain(Feed(t, b));
            Drain(Feed(s, b)) == (rs + rs', u)
    decreases |s.rest|
  {
    hide Drain, GetReply, Settled;
    var (r, t) := GetReply(s);
    DrainStep(s);
    if s.err == NoErr {
      GetReplyMore(s, b);
      GetReplySettles(s);
      DrainStep(More(s, b));
      if r.Some? {
        GetReplyConsumes(s);
        GetReplyOk(s);
        DrainMore(t, b);
        var (rs, u) := Drain(t);
        var (rs', v) := Drain(Feed(u, b));
        assert [r.value] + (rs + rs') == ([r.value] + rs) + rs';
      } else {
        var (rs', v) := Drain(Feed(t, b));
        assert [] + rs' == rs';
        GetReplyIdem(Feed(t, b), Feed(s, b));
      }
    } else {
      GetReplyFailed(s);
      var none: seq<Reply> := [];
      assert Drain(s) == (none, s) && none + none == none;
    }
  }

  lemma DrainStep(s: State)
    ensures var (r, t) := GetReply(s);
            Drain(s) == if r.None? then ([], t) else ([r.value] + Drain(t).0, Drain(t).1)
  {
    hide GetReply;
  }

  lemma GetReplyOk(s: State)
    requires GetReply(s).0.Some?
    ensures GetReply(s).1.err == NoErr
  {
    hide Loop;
  }

  lemma GetReplyFailed(s: State)
    requires s.err != NoErr
    ensures GetReply(s) == (None, s)
  {
    hide Loop;
  }

  lemma GetReplyIdem(s: State, t: State)
    requires GetReply(s) == GetReply(t)
    ensures Drain(s) == Drain(t)
  {
  }

  lemma {:induction false} DrainSettles(s: State)
    requires Settled(s)
    ensures Settled(Drain(s).1)
    decreases |s.rest|
  {
    GetReplySettles(s);
    if GetReply(s).0.Some? {
      GetReplyConsumes(s);
      DrainSettles(GetReply(s).1);
    }
  }

  lemma DrainTwice(s: State)
    requires Settled(s)
    ensures Drain(Drain(s).1) == ([], Drain(s).1)
  {
    DrainMore(s, []);
    var (rs, t) := Drain(s);
    assert Feed(s, []) == s && Feed(t, []) == t;
    var (rs', u) := Drain(t);
    assert |rs + rs'| == |rs| + |rs'|;
  }

  /** Main theorem. The reader may have been used before (any settled state), and the chunks may be empty. */
  lemma {:induction false} ChunkIndependence(s: State, chunks: seq<seq<byte>>)
    requires Settled(s) && Drain(s) == ([], s)
    ensures FeedDrain(s, chunks) == Drain(Feed(s, Flatten(chunks)))
    decreases |chunks|
  {
    hide Drain, Settled;
    if chunks == [] {
      assert Feed(s, []) == s;
    } else {
      var c, cs := chunks[0], chunks[1..];
      var s1 := Feed(s, c);
      FeedSettles(s, c);
      DrainSettles(s1);
      DrainTwice(s1);
      ChunkIndependence(Drain(s1).1, cs);
      DrainMore(s1, Flatten(cs));
      FeedFeed(s, c, Flatten(cs));
    }
  }

  lemma FeedFeed(s: State, a: seq<byte>, b: seq<byte>)
    ensures Feed(Feed(s, a), b) == Feed(s, a + b)
  {
    assert s.rest + a + b == s.rest + (a + b);
  }

  lemma FeedSettles(s: State, b: seq<byte>)
    requires Settled(s)
    ensures Settled(Feed(s, b))
  {
    if b == [] {
      assert Feed(s, b) == s;
    }
  }

  /** Two ways of cutting one stream cannot be told apart, from a fresh reader. */
  lemma SameStreamSameReplies(chunks: seq<seq<byte>>, chunks': seq<seq<byte>>)
    requires Flatten(chunks) == Flatten(chunks')
    ensures FeedDrain(IDLE, chunks) == FeedDrain(IDLE, chunks')
  {
    ChunkIndependence(IDLE, chunks);
    ChunkIndependence(IDLE, chunks');
  }
}
