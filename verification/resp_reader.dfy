/**
 The reply reader of hiredis as it is written: a cursor into a growing buffer, nine task frames updated
 in place, and loops. Every method is proved to take the step of the value machine in resp_spec.dfy.
 */
module RespReader {
  import opened Bytes
  import opened MachineInts
  import opened RespSpec
  import opened RespSafety
  import opened RespChunks
  import opened RespRoundTrip

  const MAX_UNUSED := 1024 * 16

  /** What the newline scan makes of up to 2^32 bytes: it counts in ints, so that it finds nothing in more than
      2^31 of them. */
  function SeekHeld(u: seq<byte>): int {
    if |u| <= TWO31 then Seek(u) else -1
  }

  /** A line that was complete is no longer found when 2^31 more bytes arrive behind it. */
  lemma LineIsLost(line: seq<byte>, rest: seq<byte>)
    requires NoCRLF(line) && TWO31 <= |rest| && |line| + 2 + |rest| <= 2 * TWO31
    ensures Seek(line + CRLF + []) == |line| && Seek(line + CRLF + rest) == |line|
    ensures SeekHeld(line + CRLF + rest) == -1
  {
    SeekLine(line, []);
    SeekLine(line, rest);
  }

  lemma ScanEnd(n: nat)
    requires n <= 2 * TWO31
    ensures if n <= TWO31 then Wrap32(n - 1) == n - 1 else Wrap32(n - 1) < 0
  {
  }

  /** What is held, and up to 1023 bytes that are used up, leave room for each chunk in the range of an int. */
  ghost predicate Held(s: State, chunks: seq<seq<byte>>)
    decreases |chunks|
  {
    chunks == []
    || (|s.rest| + 1024 + |chunks[0]| <= TWO31 && Held(Drain(RespSpec.Feed(s, chunks[0])).1, chunks[1..]))
  }

  /** The item loop computes what GetReply says also when no unread byte is left: then nothing happens. */
  lemma LoopIsGetReply(s: State)
    requires Settled(s) && Sound(s) && s.err == NoErr
    ensures var t := Loop(Begin(s));
            && RespSpec.GetReply(s) == (if t.err == NoErr && t.stack == [] then (Some(t.tree), t.(tree := Null))
                                        else (None, Rest(t)))
            && Sound(Begin(s)) && Begin(s).stack != []
  {
    hide Typed, Sound;
    BeginIsOk(s);
  }

  class Reader {
    var err: Err
    /** The sds buffer: its contents, and its unused capacity. The byte behind the contents is NUL. */
    var buf: seq<byte>
    var free: nat
    var pos: nat
    var len: nat
    const rstack: array<Task>
    var ridx: int
    var reply: Reply

    ghost predicate Shape()
      reads this
    {
      rstack.Length == MAX_STACK && -1 <= ridx < MAX_STACK && len == |buf| < TWO31 && pos <= len
      && (err != NoErr ==> len == 0)
    }

    /** The machine's state, with the task stack as it stands. */
    ghost function Raw(): State
      reads this, rstack
      requires Shape()
    {
      State(err, buf[pos..], rstack[..ridx + 1], reply)
    }

    /** The machine's state between two calls. */
    ghost function Abs(): State
      reads this, rstack
      requires Shape()
    {
      Rest(Raw())
    }

    ghost predicate Valid()
      reads this, rstack
    {
      Shape() && pos < 1024 && Sound(Abs()) && Settled(Abs())
    }

    constructor ()
      ensures Valid() && fresh(rstack) && Abs() == IDLE
    {
      err := NoErr;
      buf, free, pos, len := [], 0, 0, 0;
      rstack := new Task[MAX_STACK](_ => ROOT);
      ridx := -1;
      reply := Null;
    }

    function At(i: nat): byte
      reads this
    {
      if i < |buf| then buf[i] else NUL
    }

    /** Finds CRLF in the n bytes at p; the byte behind them may be looked at. */
    method SeekNewline(p: nat, n: nat) returns (r: int)
      requires p + n == |buf| && n <= 2 * TWO31
      ensures r == SeekHeld(buf[p..])
    {
      var i := 0;
      var last: int := Wrap32(n - 1);
      ScanEnd(n);
      ghost var u := buf[p..];
      while i < last
        invariant 0 <= i
        invariant forall j :: j < i ==> !NewlineAt(u, j)
        decreases last - i
      {
        while i < last && At(p + i) != CR
          invariant 0 <= i <= last
          invariant forall j :: j < i ==> !NewlineAt(u, j)
        {
          i := i + 1;
        }
        if At(p + i) != CR {
          return -1;
        } else if At(p + i + 1) == LF {
          assert NewlineAt(u, i);
          return i;
        } else {
          i := i + 1;
        }
      }
      return -1;
    }

    /** Reads a number at p, up to the first CR. */
    method ParseLongLong(p: nat) returns (r: int)
      requires p <= |buf| && Seek(buf[p..]) >= 0
      ensures r == ReadLongLong(buf[p..])
    {
      ghost var u := buf[p..];
      ghost var n := Seek(u);
      var v, mult, i := 0, 1, p;
      if At(i) == 45 {
        mult := -1;
        i := i + 1;
      } else if At(i) == 43 {
        mult := 1;
        i := i + 1;
      }
      ghost var start := i;
      assert buf[start..] == if start == p then u else u[1..];
      assert buf[p + n] == CR;
      while At(i) != CR
        invariant p <= i <= p + n
        invariant Digits(buf[start..], 0) == Digits(buf[i..], v) && -TWO63 <= v < TWO63
        decreases p + n - i
      {
        var c := At(i);
        assert buf[i..][1..] == buf[i + 1..];
        if 48 <= c < 58 {
          v := Wrap64(Wrap64(v * 10) + (c as int - 48));
        } else {
          return -1;
        }
        i := i + 1;
      }
      r := Wrap64(mult * v);
    }

    /** Ends the current task: closes every array whose last element this was. */
    method MoveToNextTask()
      requires Shape() && ridx >= 0 && StackShape(rstack[..ridx + 1])
      modifies this`ridx, rstack
      ensures Shape() && rstack[..ridx + 1] == MoveNext(old(rstack[..ridx + 1]))
    {
      ghost var all := rstack[..ridx + 1];
      assert all[..ridx + 1] == all;
      while ridx >= 0
        invariant 0 <= ridx <= old(ridx)
        invariant rstack[..old(ridx) + 1] == all
        invariant MoveNext(all[..ridx + 1]) == MoveNext(all)
        decreases ridx
      {
        ghost var stack := all[..ridx + 1];
        assert rstack[..ridx + 1] == stack;
        if ridx == 0 {
          ridx := ridx - 1;
          return;
        }
        var cur, prv := rstack[ridx], rstack[ridx - 1];
        assert prv == all[ridx - 1] && cur == Top(stack);
        assert prv.kind == KArray;
        if cur.idx == prv.elements - 1 {
          assert all[..ridx] == stack[..|stack| - 1];
          ridx := ridx - 1;
        } else {
          assert cur.idx < prv.elements;
          rstack[ridx] := Task(KNone, -1, cur.idx + 1);
          assert rstack[..ridx + 1] == SetTop(stack, Task(KNone, -1, cur.idx + 1));
          return;
        }
      }
    }

    /** Stores obj in the slot of the current task, or as the reply at the root, and ends the task. Without
        a slot the original stores outside of any array, and nothing is defined any more. */
    method Emit(obj: Reply, used: nat) returns (ok: bool)
      requires Shape() && ridx >= 0 && Storable(Raw()) && err == NoErr
      requires used <= |buf| - pos
      modifies this, rstack
      ensures Shape() && (ok, Raw()) == Finish(old(Raw()), obj, used)
    {
      hide HasPath, Path, Store, MoveNext, StackShape;
      ok := HasPath(reply, Path(rstack[..ridx + 1]));
      if ok {
        Put(obj, used);
      } else {
        SetError(Fault);
      }
    }

    /** Stores obj in its slot and ends the task. */
    method Put(obj: Reply, used: nat)
      requires Shape() && ridx >= 0 && err == NoErr && used <= |buf| - pos && StackShape(rstack[..ridx + 1])
      modifies this`reply, this`pos, this`ridx, rstack
      ensures Shape() && err == NoErr && Raw().rest == old(Raw().rest[used..])
      ensures Raw().stack == MoveNext(old(Raw().stack)) && reply == Store(old(reply), old(Raw().stack), obj)
    {
      hide HasPath, Path, PutAt, MoveNext, StackShape;
      reply := PutAt(reply, Path(rstack[..ridx + 1]), obj);
      pos := pos + used;
      MoveToNextTask();
    }

    method ProcessLineItem() returns (ok: bool)
      requires Shape() && ridx >= 0 && Storable(Raw()) && err == NoErr
      modifies this, rstack
      ensures Shape() && (ok, Raw()) == LineItem(old(Raw()))
    {
      var n := SeekNewline(pos, len - pos);
      if n < 0 {
        return false;
      }
      var kind := rstack[ridx].kind;
      assert kind == Top(Raw().stack).kind;
      var obj;
      if kind == KInteger {
        var v := ParseLongLong(pos);
        obj := Integer(v);
      } else {
        obj := if kind == KStatus then Status(buf[pos..pos + n]) else Error(buf[pos..pos + n]);
        assert buf[pos..][..n] == buf[pos..pos + n];
      }
      ok := Emit(obj, n + 2);
    }

    method ProcessBulkItem() returns (ok: bool)
      requires Shape() && ridx >= 0 && Storable(Raw()) && err == NoErr
      modifies this, rstack
      ensures Shape() && (ok, Raw()) == BulkItem(old(Raw()))
    {
      hide Seek, Digits, ReadLongLong, MoveNext, Path, PutAt, HasPath;
      var n := SeekNewline(pos, len - pos);
      if n < 0 {
        return false;
      }
      var l := ParseLongLong(pos);
      if l < 0 {
        ok := Emit(Nil, n + 2);
        return;
      }
      var bytelen := n + 2 + l + 2;
      if pos + bytelen <= len {
        ghost var u := buf[pos..];
        assert u[n + 2..n + 2 + l] == buf[pos + n + 2..pos + n + 2 + l];
        ok := Emit(Str(buf[pos + n + 2..pos + n + 2 + l]), bytelen);
        return;
      }
      return false;
    }

    /** Gives up: the buffer is dropped and the task stack is reset. */
    method SetError(e: Err)
      requires Shape() && e != NoErr
      modifies this
      ensures Shape() && Raw() == Fail(e)
    {
      reply := Null;
      buf, free, pos, len := [], 0, 0, 0;
      ridx := -1;
      err := e;
    }

    method ProcessMultiBulkItem() returns (ok: bool)
      requires Shape() && ridx >= 0 && Storable(Raw()) && err == NoErr
      modifies this, rstack
      ensures Shape() && (ok, Raw()) == MultiBulkItem(old(Raw()))
    {
      hide Seek, Digits, ReadLongLong, MoveNext, Path, PutAt, NewArray, Wrap32, HasPath;
      if ridx == 8 {
        SetError(TooDeep);
        return false;
      }
      var n := SeekNewline(pos, len - pos);
      if n < 0 {
        return false;
      }
      var elements := ParseLongLong(pos);
      if elements == -1 {
        ok := Emit(Nil, n + 2);
      } else if elements > 0 {
        ok := Push(Wrap32(elements), n + 2);
      } else {
        ok := Emit(NewArray(Wrap32(elements)), n + 2);
      }
    }

    /** Stores the object of an array and makes its first element the current task. */
    method Push(elements: int, used: nat) returns (ok: bool)
      requires Shape() && 0 <= ridx < 8 && err == NoErr && used <= |buf| - pos
      modifies this, rstack
      ensures Shape() && (ok, Raw()) == Open(old(Raw()), elements, used)
    {
      ghost var stack := rstack[..ridx + 1];
      ok := HasPath(reply, Path(rstack[..ridx + 1]));
      if ok {
        reply := PutAt(reply, Path(rstack[..ridx + 1]), NewArray(elements));
        rstack[ridx] := rstack[ridx].(elements := elements);
        ridx := ridx + 1;
        rstack[ridx] := Task(KNone, -1, 0);
        pos := pos + used;
        assert rstack[..ridx + 1] == SetTop(stack, Top(stack).(elements := elements)) + [Task(KNone, -1, 0)];
      } else {
        SetError(Fault);
      }
    }

    method ProcessItem() returns (ok: bool)
      requires Shape() && ridx >= 0 && Storable(Raw()) && err == NoErr
      modifies this, rstack
      ensures Shape() && (ok, Raw()) == Item(old(Raw()))
    {
      ghost var s := Raw();
      if rstack[ridx].kind == KNone {
        if len - pos < 1 {
          return false;
        }
        var b := buf[pos];
        pos := pos + 1;
        if KindOf(b) == KNone {
          SetError(BadType(b));
          return false;
        }
        rstack[ridx] := rstack[ridx].(kind := KindOf(b));
        assert rstack[..ridx + 1] == SetTop(s.stack, Top(s.stack).(kind := KindOf(b)));
        assert Raw() == WithKind(s);
        TypingIsStorable(s);
      }
      if rstack[ridx].kind == KString {
        ok := ProcessBulkItem();
      } else if rstack[ridx].kind == KArray {
        ok := ProcessMultiBulkItem();
      } else {
        ok := ProcessLineItem();
      }
    }

    /** Appends bytes to the buffer, unless the reader is in an erroneous state. An empty buffer with much
        unused capacity is replaced first. */
    method Feed(b: seq<byte>) returns (ok: bool)
      requires Valid() && len + |b| < TWO31
      modifies this
      ensures Valid() && ok == (err == NoErr) == (old(err) == NoErr)
      ensures Abs() == RespSpec.Feed(old(Abs()), b)
    {
      hide Settled, Sound;
      if err != NoErr {
        return false;
      }
      if |b| >= 1 {
        if len == 0 && free > MAX_UNUSED {
          buf, free, pos := [], 0, 0;
        }
        free := if free >= |b| then free - |b| else (|buf| + |b|) * 2 - |buf| - |b|;
        assert (buf + b)[pos..] == buf[pos..] + b;
        buf := buf + b;
        len := |buf|;
      } else {
        assert b == [];
        assert buf[pos..] + b == buf[pos..];
      }
      FeedSettles(old(Abs()), b);
      FeedKeepsOk(old(Abs()), b);
      return true;
    }

    /** The next reply, if the bytes fed so far complete one. */
    method GetReply() returns (ok: bool, out: Option<Reply>)
      requires Valid()
      modifies this, rstack
      ensures Valid() && ok == (err == NoErr)
      ensures (out, Abs()) == RespSpec.GetReply(old(Abs()))
      ensures Ok(old(Abs())) && out.Some? ==> (Complete(out.value) <==> AllOk(RequestCounts(old(Abs()))))
    {
      hide Loop, Settled, Complete, Sound, Ok, Item, RequestCounts, AllOk;
      ghost var s := Abs();
      GetReplyKeepsOk(s);
      GetReplySettles(s);
      if err != NoErr {
        return false, None;
      }
      if len == 0 {
        return true, None;
      }
      if ridx == -1 {
        rstack[0] := ROOT;
        ridx := 0;
        assert rstack[..1] == [ROOT];
      }
      assert Raw() == Begin(s);
      LoopIsGetReply(s);
      ProcessItems();
      if err != NoErr {
        return false, None;
      }
      Trim();
      if ridx == -1 {
        out := Some(reply);
        reply := Null;
      } else {
        out := None;
      }
      ok := true;
    }

    /** Drops the consumed bytes once there are 1024 of them. */
    method Trim()
      requires Shape()
      modifies this`buf, this`free, this`pos, this`len
      ensures Shape() && Raw() == old(Raw()) && pos < 1024
    {
      if pos >= 1024 {
        free := free + pos;
        buf := buf[pos..];
        pos := 0;
        len := |buf|;
      }
    }

    /** Processes items until the reply is complete or the input does not suffice. */
    method ProcessItems()
      requires Shape() && ridx >= 0 && err == NoErr && Sound(Raw())
      modifies this, rstack
      ensures Shape() && Raw() == Loop(old(Raw()))
    {
      ghost var s := Raw();
      while ridx >= 0
        invariant Shape() && err == NoErr
        invariant ridx >= 0 ==> Sound(Raw())
        invariant Loop(Raw()) == Loop(s)
        decreases len - pos
      {
        ghost var t := Raw();
        ItemConsumes(t);
        ItemKeepsOk(t);
        SoundIsStorable(t);
        var ok := ProcessItem();
        assert |Raw().rest| == len - pos;
        if !ok {
          break;
        }
      }
    }

    /** All replies that the bytes fed so far complete. */
    method DrainReplies() returns (replies: seq<Reply>)
      requires Valid()
      modifies this, rstack
      ensures Valid() && (replies, Abs()) == Drain(old(Abs()))
    {
      hide RespSpec.GetReply, Settled, Complete, Sound, Ok, Drain;
      replies := [];
      ghost var s := Abs();
      assert replies + Drain(s).0 == Drain(s).0;
      while true
        invariant Valid()
        invariant Drain(s) == (replies + Drain(Abs()).0, Drain(Abs()).1)
        decreases |Abs().rest|
      {
        ghost var t := Abs();
        GetReplyConsumes(t);
        DrainStep(t);
        var ok, r := GetReply();
        if r.None? {
          var none: seq<Reply> := [];
          assert Drain(t) == (none, Abs()) && replies + none == replies;
          return;
        }
        assert replies + ([r.value] + Drain(Abs()).0) == replies + [r.value] + Drain(Abs()).0;
        replies := replies + [r.value];
      }
    }

    /** A connection's receiving side: each chunk that arrives is fed and the replies are fetched. The
        replies depend on the stream only; they are all complete, and the reader stays in order, exactly when the
        counts in the array headers pass the check. */
    method Session(chunks: seq<seq<byte>>) returns (replies: seq<Reply>)
      requires Valid() && Drain(Abs()) == ([], Abs()) && Held(Abs(), chunks)
      modifies this, rstack
      ensures Valid()
      ensures (replies, Abs()) == Drain(RespSpec.Feed(old(Abs()), Flatten(chunks)))
      ensures Ok(old(Abs())) ==>
                (AllComplete(replies) && Ok(Abs()) <==> AllOk(DrainCounts(RespSpec.Feed(old(Abs()), Flatten(chunks)))))
    {
      hide Drain, Settled, AllComplete, Sound, Ok, AllOk, DrainCounts;
      ghost var s := Abs();
      ChunkIndependence(s, chunks);
      if Ok(s) {
        RunsAreSafe(s, chunks);
      }
      replies := [];
      assert chunks[0..] == chunks && replies + FeedDrain(s, chunks).0 == FeedDrain(s, chunks).0;
      for k := 0 to |chunks|
        invariant Valid() && Held(Abs(), chunks[k..])
        invariant FeedDrain(s, chunks) == (replies + FeedDrain(Abs(), chunks[k..]).0, FeedDrain(Abs(), chunks[k..]).1)
      {
        var cs := chunks[k..];
        assert cs[1..] == chunks[k + 1..];
        var ok := Feed(cs[0]);
        var rs := DrainReplies();
        assert replies + (rs + FeedDrain(Abs(), cs[1..]).0) == replies + rs + FeedDrain(Abs(), cs[1..]).0;
        replies := replies + rs;
      }
      assert chunks[|chunks|..] == [];
      assert replies + FeedDrain(Abs(), []).0 == replies;
    }
  }
}
