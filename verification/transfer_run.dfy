/**
 Two peers and the network between them, transferring one slice of a file: the sender has been given the
 request, the receiver waits for the answer. Any number of partial sends, deliveries and partial writes
 may follow in any order, and each side may close on its own: what the sender has sent by then can still
 arrive, as far as the network keeps it.
 */
module TransferRun {
  import opened Bytes
  import opened Protocol
  import opened TransferSpec
  import opened MachineInts

  /** What is transferred: the base image in the head, and the slice of the source that it names. */
  datatype Job = Job(source: seq<byte>, base: seq<byte>)

  predicate JobOk(j: Job) {
    && IsBase(j.base) && 0 <= Offsize(j.base) <= Fsize(j.base) <= |j.source| < TWO63
  }

  function Header(j: Job): (h: seq<byte>)
    requires IsBase(j.base)
    ensures |h| == HEAD_SIZE + BASE_SIZE
  {
    Frame(Msg(CMD_GET_FILE_RSP, FILE_SYNC_DST_2_SRC, j.base))
  }

  function Slice(j: Job): (s: seq<byte>)
    requires JobOk(j)
    ensures |s| == Fsize(j.base) - Offsize(j.base)
  {
    j.source[Offsize(j.base)..Fsize(j.base)]
  }

  function Stream(j: Job): seq<byte>
    requires JobOk(j)
  {
    Header(j) + Slice(j)
  }

  /** Sender, bytes in flight, receiver, and which of the two have closed the connection. */
  datatype Sys = Sys(a: Peer, aClosed: bool, wire: seq<byte>, b: Peer, bClosed: bool)

  /** The sender's event loop; k bytes arriving at the receiver, followed by its event handler. A side may
      also close by itself, for a timeout or an error: the sender (Cut), or the receiver, which may have
      read k more bytes by then and leaves them (Hang). Lose: after a close the network keeps only k of
      the bytes in flight. */
  datatype Step = Send(io: Io, fio: Io) | Recv(k: nat, env: Env) | Cut | Hang(k: nat) | Lose(k: nat)

  // ----- the invariant

  ghost predicate SenderOk(j: Job, a: Peer)
    requires JobOk(j)
  {
    && RangeOk(a, j.source)
    && (a.stat == SENDFILEING ==>
          && a.sendtask == Some(|Slice(j)|) && a.headlen == |Header(j)|
          && |a.data| + |FileBytes(a, j.source)| <= |Stream(j)|
          && a.sendLen == Wrap32(|Stream(j)| - |a.data| - |FileBytes(a, j.source)|))
    && (a.stat != SENDFILEING ==> a.stat == IDLE && a.data == [] && FileBytes(a, j.source) == [])
  }

  /** The bytes of the stream that the receiver has taken out of its buffer. */
  function Consumed(j: Job, b: Peer): seq<byte>
    requires JobOk(j)
  {
    if b.stat == PREPARE_RECVFILE then [] else Header(j) + b.written
  }

  /** The receiver's own offset agrees with the one in the head when transfers are continued. */
  predicate Agree(j: Job, base0: seq<byte>, continueFlag: bool) {
    && IsBase(j.base) && IsBase(base0)
    && (if continueFlag then Offsize(base0) == Offsize(j.base) else Offsize(j.base) == 0)
  }

  ghost predicate ReceiverOk(j: Job, b: Peer, continueFlag: bool)
    requires JobOk(j)
  {
    match b.stat
    case PREPARE_RECVFILE =>
      && b.recvtask.Some? && b.written == []
      && b.recvtask.value.lastlen == 0 && Agree(j, b.recvtask.value.base, continueFlag)
    case RECVFILEING =>
      && b.recvtask.Some?
      && var t := b.recvtask.value;
         && IsBase(t.base) && Offsize(t.base) == Offsize(j.base)
         && t.processlen == |Slice(j)| && t.lastlen == |b.written|
         && (t.lastlen < t.processlen || t.processlen == 0)
    case IDLE => b.recvtask == None && b.recvOver == OK && b.written == Slice(j)
    case _ => false
  }

  /** The receiver reports the file as received. */
  predicate Accepted(b: Peer) {
    b.stat == IDLE && b.recvOver == OK
  }

  /** What is consumed, buffered and in flight is the stream up to what the sender has still to send; once
      the sender has closed it is some prefix of the stream. */
  ghost predicate InOrder(j: Job, y: Sys)
    requires JobOk(j)
  {
    if y.aClosed then Consumed(j, y.b) + y.b.received + y.wire <= Stream(j)
    else RangeOk(y.a, j.source) && Consumed(j, y.b) + y.b.received + (y.wire + Unsent(j, y.a)) == Stream(j)
  }

  /** Each side that is open satisfies its invariant, and so does a receiver that closed with its task. What
      is written is always a prefix of the slice, and an accepted file is all of it. */
  ghost predicate Inv(j: Job, y: Sys, continueFlag: bool)
    requires JobOk(j)
  {
    && (!y.aClosed ==> SenderOk(j, y.a))
    && y.b.written <= Slice(j)
    && (Accepted(y.b) ==> y.b.written == Slice(j))
    && (!y.bClosed || y.b.recvtask.Some? ==> ReceiverOk(j, y.b, continueFlag))
    && (!y.bClosed ==> InOrder(j, y))
  }

  /** What the sender has still to send: its buffer, then the file range. */
  function Unsent(j: Job, a: Peer): seq<byte>
    requires RangeOk(a, j.source)
  {
    a.data + FileBytes(a, j.source)
  }

  // ----- steps

  /** What the environment may do: results of send, sendfile and write within the bytes offered, no more
      bytes delivered than in flight, and no bytes lost before a side has closed. Writes may fail. */
  ghost predicate Allowed(j: Job, y: Sys, step: Step, continueFlag: bool)
    requires JobOk(j)
  {
    match step
    case Send(io, fio) =>
      && !y.aClosed
      && RangeOk(y.a, j.source) && IoOk(io, |y.a.data|) && IoOk(fio, Min(y.a.left, GSIZE))
      && (y.a.stat == SENDFILEING ==> y.a.sendtask.Some?)
    case Recv(k, env) =>
      && !y.bClosed && k <= |y.wire|
      && env.continueFlag == continueFlag
      && CanRecv(y.b.(received := y.b.received + y.wire[..k]), env)
    case Cut => !y.aClosed
    case Hang(k) => !y.bClosed && k <= |y.wire|
    case Lose(k) => (y.aClosed || y.bClosed) && k <= |y.wire|
  }

  ghost function Apply(j: Job, y: Sys, step: Step, continueFlag: bool): Sys
    requires JobOk(j) && Allowed(j, y, step, continueFlag)
  {
    match step
    case Send(io, fio) =>
      var (e, a, out) := DoSend(y.a, j.source, io, fio);
      y.(a := a, aClosed := e == CLOSE, wire := y.wire + out)
    case Recv(k, env) =>
      var (e, b) := SvcRecv(y.b.(received := y.b.received + y.wire[..k]), env);
      y.(wire := y.wire[k..], b := b, bClosed := e == CLOSE)
    case Cut => y.(aClosed := true)
    case Hang(k) => y.(wire := y.wire[k..], b := y.b.(received := y.b.received + y.wire[..k]), bClosed := true)
    case Lose(k) => y.(wire := y.wire[..k])
  }

  /** No write of the step fails. */
  predicate Writes(step: Step) {
    step.Recv? ==> step.env.write >= 0
  }

  ghost predicate AllowedRun(j: Job, y: Sys, steps: seq<Step>, continueFlag: bool)
    requires JobOk(j)
    decreases |steps|
  {
    steps == [] || (Allowed(j, y, steps[0], continueFlag)
                    && AllowedRun(j, Apply(j, y, steps[0], continueFlag), steps[1..], continueFlag))
  }

  ghost function Run(j: Job, y: Sys, steps: seq<Step>, continueFlag: bool): Sys
    requires JobOk(j) && AllowedRun(j, y, steps, continueFlag)
    decreases |steps|
  {
    if steps == [] then y else Run(j, Apply(j, y, steps[0], continueFlag), steps[1..], continueFlag)
  }

  // ----- the sender's steps

  lemma WrapReaches(t: nat)
    ensures Wrap32(t) <= t
    ensures Wrap32(t) >= t <==> t < TWO31
  {
  }

  /** The bytes that leave are the next bytes of the stream. */
  lemma SendDataMoves(p: Peer, io: Io)
    requires IoOk(io, |p.data|)
    ensures var (e, q, out) := SendData(p, io);
            && out + q.data == p.data
            && q == p.(data := q.data, sendLen := q.sendLen)
            && q.sendLen == (if out == [] then p.sendLen else Wrap32(p.sendLen + |out|))
            && (e == EPOLLIN ==> q.data == [])
  {
  }

  lemma SendFileMoves(p: Peer, source: seq<byte>, io: Io)
    requires RangeOk(p, source) && IoOk(io, Min(p.left, GSIZE))
    ensures var (e, q, out) := SendFile(p, source, io);
            && RangeOk(q, source)
            && out + FileBytes(q, source) == FileBytes(p, source)
            && q == p.(open := q.open, off := q.off, left := q.left, sendLen := q.sendLen)
            && q.sendLen == (if out == [] then p.sendLen else Wrap32(p.sendLen + |out|))
            && (e == EPOLLIN ==> FileBytes(q, source) == [])
  {
    if p.open && p.left > 0 && io.Moved? {
      assert source[p.off..p.off + p.left] == source[p.off..p.off + io.n] + source[p.off + io.n..p.off + p.left];
    }
  }

  lemma DataStep(j: Job, p: Peer, io: Io)
    requires JobOk(j) && SenderOk(j, p) && IoOk(io, |p.data|)
    ensures var (e, q, out) := SendData(p, io);
            && SenderOk(j, q) && RangeOk(q, j.source) && FileBytes(q, j.source) == FileBytes(p, j.source)
  {
    SendDataMoves(p, io);
    hide SendData, Slice, Stream, Wrap32;
    Wrap32Sum(|Stream(j)| - |p.data| - |FileBytes(p, j.source)|, |SendData(p, io).2|);
  }

  lemma FileStep(j: Job, p: Peer, io: Io)
    requires JobOk(j) && SenderOk(j, p) && IoOk(io, Min(p.left, GSIZE))
    ensures SenderOk(j, SendFile(p, j.source, io).1)
  {
    SendFileMoves(p, j.source, io);
    hide SendFile, Slice, Stream, Wrap32, FileBytes;
    Wrap32Sum(|Stream(j)| - |p.data| - |FileBytes(p, j.source)|, |SendFile(p, j.source, io).2|);
  }

  /** Whether the verdict q follows for a sender p whose buffers are empty. */
  predicate Verdict(j: Job, e: Event, q: Peer)
    requires JobOk(j)
  {
    && q.stat == IDLE
    && (q.sendOver == OK <==> |Stream(j)| < TWO31)
    && (q.sendOver == OK <==> e != CLOSE)
    && (q.sendOver == OK || q.sendOver == SEND_LEN)
  }

  lemma VerdictStep(j: Job, p: Peer)
    requires JobOk(j) && SenderOk(j, p) && p.data == [] && FileBytes(p, j.source) == []
    ensures var (e, q) := SvcSend(p);
            && SenderOk(j, q) && q.data == p.data && FileBytes(q, j.source) == []
            && (p.stat == SENDFILEING ==> Verdict(j, e, q))
            && (p.stat != SENDFILEING ==> q == p)
  {
    WrapReaches(|Stream(j)|);
  }

  lemma Concat3(out: seq<byte>, out': seq<byte>, rest: seq<byte>)
    ensures (out + out') + [] + rest == out + (out' + rest)
  {
  }

  /** Everything that leaves is taken off the front of the unsent stream. The verdict is given only when
      all of it has left, and it is OK exactly when the length of the stream fits an int. */
  lemma DoSendMoves(j: Job, a: Peer, io: Io, fio: Io)
    requires JobOk(j) && SenderOk(j, a) && IoOk(io, |a.data|) && IoOk(fio, Min(a.left, GSIZE))
    ensures var (e, q, out) := DoSend(a, j.source, io, fio);
            && SenderOk(j, q)
            && out + q.data + FileBytes(q, j.source) == a.data + FileBytes(a, j.source)
            && (a.stat == SENDFILEING && q.stat != SENDFILEING ==>
                  q.data == [] && FileBytes(q, j.source) == [] && Verdict(j, e, q))
  {
    hide SendData, SendFile, SvcSend, SenderOk, FileBytes, Slice, Stream;
    SendDataMoves(a, io);
    DataStep(j, a, io);
    var (e, q, out) := SendData(a, io);
    if e == EPOLLIN {
      SendFileMoves(q, j.source, fio);
      FileStep(j, q, fio);
      var (e', q', out') := SendFile(q, j.source, fio);
      Concat3(out, out', FileBytes(q', j.source));
      if e' == EPOLLIN {
        VerdictStep(j, q');
      }
    }
  }

  // ----- the receiver's steps

  /** The sizes computed on both sides agree. */
  lemma ProcessLenAgrees(j: Job, base0: seq<byte>, continueFlag: bool)
    requires JobOk(j) && Agree(j, base0, continueFlag)
    ensures Offsize(RecvBase(base0, j.base, continueFlag)) == Offsize(j.base)
    ensures Fsize(j.base) - Offsize(j.base) == |Slice(j)|
  {
    ZeroOffsizeIsZero(base0);
    ZeroOffsizeIsZero(j.base);
  }

  /** A buffer that holds the beginning of the stream holds the head or a proper prefix of it: the parser
      waits, or takes exactly the head. It waits also when the number of bytes, as an int, is too small. */
  lemma HeadArrives(j: Job, received: seq<byte>, later: seq<byte>)
    requires JobOk(j) && received + later == Stream(j)
    ensures ParseHeld(received).Ok? <==> Wrap32(|received|) >= |Header(j)|
    ensures ParseHeld(received).Ok? ==>
              && ParseHeld(received).msg == Msg(CMD_GET_FILE_RSP, FILE_SYNC_DST_2_SRC, j.base)
              && received == Header(j) + received[|Header(j)|..]
    ensures !ParseHeld(received).ErrClose?
  {
    var m := Msg(CMD_GET_FILE_RSP, FILE_SYNC_DST_2_SRC, j.base);
    ParseHeldIs(received);
    HeadOfStream(j, received, later);
    if |received| >= |Header(j)| {
      HeldHead(m, received);
    }
  }

  /** A frame in front of what is held is taken if enough bytes are claimed. */
  lemma HeldHead(m: Msg, received: seq<byte>)
    requires |m.body| < MAX_BODY && Parse(received) == Ok(m)
    ensures ParseHeld(received).Ok? <==> Wrap32(|received|) >= HEAD_SIZE + |m.body|
    ensures !ParseHeld(received).ErrClose?
  {
  }

  lemma HeadOfStream(j: Job, received: seq<byte>, later: seq<byte>)
    requires JobOk(j) && received + later == Stream(j)
    ensures |received| >= |Header(j)| ==>
              && Parse(received) == Ok(Msg(CMD_GET_FILE_RSP, FILE_SYNC_DST_2_SRC, j.base))
              && received == Header(j) + received[|Header(j)|..]
    ensures |received| < |Header(j)| ==> Parse(received).HeadLen? || Parse(received).TotalLen?
  {
    var m := Msg(CMD_GET_FILE_RSP, FILE_SYNC_DST_2_SRC, j.base);
    if |received| >= |Header(j)| {
      assert received[..|Header(j)|] == Stream(j)[..|Header(j)|] == Header(j);
      assert received == Header(j) + received[|Header(j)|..];
      ParseFrame(m, received[|Header(j)|..]);
    } else {
      assert received == Stream(j)[..|received|] == Header(j)[..|received|];
      ParsePrefix(m, |received|);
    }
  }

  /** The receiver while the file is being received, with the not yet consumed part of the slice. */
  ghost predicate Receiving(j: Job, b: Peer, later: seq<byte>)
    requires JobOk(j)
  {
    && b.stat == RECVFILEING && b.recvtask.Some?
    && IsBase(b.recvtask.value.base) && Offsize(b.recvtask.value.base) == Offsize(j.base)
    && b.recvtask.value.processlen == |Slice(j)| && b.recvtask.value.lastlen == |b.written|
    && (|b.written| < |Slice(j)| || |Slice(j)| == 0)
    && b.written + b.received + later == Slice(j)
  }

  /** One write: what it takes moves from the buffer to the file. The file is checked exactly when the whole
      slice is written. */
  lemma RecvFileMoves(j: Job, b: Peer, later: seq<byte>, env: Env)
    requires JobOk(j) && Receiving(j, b, later) && WriteOk(b, env) && env.write >= 0
    ensures var (e, c) := RecvFile(b, env);
            && c.written + c.received + later == Slice(j)
            && (c.recvtask == None <==> b.received != [] && c.written == Slice(j))
            && (c.recvtask.Some? ==> Receiving(j, c, later) && e == EPOLLIN)
            && (c.recvtask == None ==>
                  && c.received == [] && later == []
                  && (c.recvOver == OK <==> env.md5Ok)
                  && (env.md5Ok ==> c.stat == IDLE) && (!env.md5Ok ==> e == CLOSE))
  {
    if b.received != [] {
      var n := env.write;
      assert SizeT(n) == n && SizeT(|Slice(j)| - |b.written|) == |Slice(j)| - |b.written|;
      assert b.received == b.received[..n] + Skip(b.received, n);
      assert b.written + b.received[..n] + Skip(b.received, n) == b.written + b.received;
      assert Wrap64(|b.written| + n) == |b.written| + n;
    }
  }

  lemma HeadTaken(j: Job, received: seq<byte>, later: seq<byte>)
    requires JobOk(j) && received + later == Stream(j) && |received| >= |Header(j)|
    ensures received == Header(j) + Skip(received, |Header(j)|)
    ensures Skip(received, |Header(j)|) + later == Slice(j)
  {
    HeadOfStream(j, received, later);
    var rest := received[|Header(j)|..];
    assert Skip(received, |Header(j)|) == rest;
    assert Header(j) + (rest + later) == Header(j) + Slice(j);
    SameTail(Header(j), rest + later, Slice(j));
  }

  /** The answer to the request starts the file, with the size that the sender computed. */
  lemma RecvTaskStarts(j: Job, b: Peer, env: Env)
    requires JobOk(j) && ReceiverOk(j, b, env.continueFlag) && b.stat == PREPARE_RECVFILE
    ensures var (e, q) := DoRecvTask(b, FILE_SYNC_DST_2_SRC, j.base, env);
            && (e == EPOLLIN || e == CLOSE) && q.written == []
            && (e == EPOLLIN ==>
                  q.stat == RECVFILEING && q.recvtask.Some?
                  && IsBase(q.recvtask.value.base) && Offsize(q.recvtask.value.base) == Offsize(j.base)
                  && q.recvtask.value.processlen == |Slice(j)| && q.recvtask.value.lastlen == 0)
            && (e == CLOSE ==> q.stat != IDLE && q.recvtask == None)
  {
    hide Slice, Offsize, Fsize;
    ProcessLenAgrees(j, b.recvtask.value.base, env.continueFlag);
  }

  /** The head is taken from the buffer as soon as all of it is there. */
  lemma CheckReqMoves(j: Job, b: Peer, later: seq<byte>, env: Env)
    requires JobOk(j) && ReceiverOk(j, b, env.continueFlag) && b.stat == PREPARE_RECVFILE
    requires b.received + later == Stream(j) && EnvOk(env)
    ensures var (c, q) := CheckReq(b, env);
            && (c == TransferSpec.More ==> q == b)
            && (c == Done(EPOLLIN) ==> Receiving(j, q, later))
            && (c == TransferSpec.More || c == Done(EPOLLIN) || c == Done(CLOSE))
            && (c == Done(CLOSE) ==> q.stat != IDLE && q.recvtask == None)
            && q.written == []
  {
    HeadArrives(j, b.received, later);
    RecvTaskStarts(j, b, env);
    CheckReqIs(b, env);
    hide Stream, Slice, ParseHeld, DoRecvTask, CheckReq, Skip, ReceiverOk;
    if ParseHeld(b.received).Ok? {
      HeadTaken(j, b.received, later);
      Nothing(Skip(b.received, |Header(j)|), later);
    }
  }

  /** What a waiting receiver makes of its buffer. */
  lemma CheckReqIs(b: Peer, env: Env)
    requires TaskOk(b) && EnvOk(env)
    ensures ParseHeld(b.received).HeadLen? || ParseHeld(b.received).TotalLen? ==>
              CheckReq(b, env) == (TransferSpec.More, b)
    ensures ParseHeld(b.received).Ok? ==>
              var m := ParseHeld(b.received).msg;
              m.cmdid == CMD_GET_FILE_RSP && IsBase(m.body) ==>
                var (e, q) := DoRecvTask(b, m.status, m.body, env);
                CheckReq(b, env) == (Done(e), q.(received := Skip(b.received, HEAD_SIZE + BASE_SIZE)))
  {
    hide Skip, DoRecvTask, DoSendTask;
  }

  lemma Nothing(x: seq<byte>, y: seq<byte>)
    ensures [] + x + y == x + y
  {
  }

  lemma SameTail(h: seq<byte>, x: seq<byte>, y: seq<byte>)
    requires h + x == h + y
    ensures x == y
  {
    assert (h + x)[|h|..] == x && (h + y)[|h|..] == y;
  }

  /** The receiver's invariant, with the bytes that are still to come. */
  ghost predicate ReceiverInv(j: Job, b: Peer, later: seq<byte>, continueFlag: bool)
    requires JobOk(j)
  {
    ReceiverOk(j, b, continueFlag) && Consumed(j, b) + b.received + later == Stream(j)
  }

  lemma ReceivingIsInv(j: Job, b: Peer, later: seq<byte>, continueFlag: bool)
    requires JobOk(j) && b.stat == RECVFILEING
    ensures Receiving(j, b, later) <==> ReceiverInv(j, b, later, continueFlag)
  {
    assert Header(j) + b.written + b.received + later == Header(j) + (b.written + b.received + later);
    if ReceiverInv(j, b, later, continueFlag) {
      SameTail(Header(j), b.written + b.received + later, Slice(j));
    }
  }

  lemma DoneIsInv(j: Job, b: Peer, later: seq<byte>, continueFlag: bool)
    requires JobOk(j) && b.stat == IDLE && ReceiverInv(j, b, later, continueFlag)
    ensures b.received == [] && later == []
  {
    assert |Consumed(j, b)| == |Stream(j)|;
  }

  /** What the receiver's event handler does while nothing fails: it keeps the stream in order, and it runs
      the check of the file only when the whole slice, and nothing else, is written. */
  lemma SvcRecvMoves(j: Job, b: Peer, later: seq<byte>, env: Env)
    requires JobOk(j) && ReceiverInv(j, b, later, env.continueFlag)
    requires CanRecv(b, env) && env.write >= 0
    ensures var (e, c) := SvcRecv(b, env);
            && c.written <= Slice(j)
            && (e != CLOSE || c.recvtask.Some? ==> ReceiverInv(j, c, later, env.continueFlag))
            && (Accepted(c) ==> c.written == Slice(j))
            && (FileChecked(b, c) ==> c.written == Slice(j))
  {
    hide Stream, Slice, CheckReq, RecvFile, ReceiverInv, Receiving;
    if b.stat == RECVFILEING {
      ReceivingIsInv(j, b, later, env.continueFlag);
      RecvStep(j, b, later, env);
    } else if b.stat == PREPARE_RECVFILE {
      Prepared(j, b, later, env);
      CheckReqMoves(j, b, later, env);
      if CheckReq(b, env).0 == Done(EPOLLIN) {
        RecvStep(j, CheckReq(b, env).1, later, env);
      }
    } else {
      Finished(j, b, later, env);
    }
  }

  /** The event ended with a verdict on the received file. */
  predicate FileChecked(b: Peer, c: Peer) {
    b.recvtask.Some? && c.recvtask == None && (c.recvOver == OK || c.recvOver == E_MD5) && c.stat != PREPARE_RECVFILE
  }

  lemma Prepared(j: Job, b: Peer, later: seq<byte>, env: Env)
    requires JobOk(j) && ReceiverInv(j, b, later, env.continueFlag) && b.stat == PREPARE_RECVFILE
    requires TaskOk(b) && EnvOk(env)
    ensures ReceiverOk(j, b, env.continueFlag) && b.received + later == Stream(j)
    ensures CheckReq(b, env).0 == Done(CLOSE) ==> !FileChecked(b, CheckReq(b, env).1)
    ensures b.written == []
  {
    Nothing(b.received, later);
    HeadArrives(j, b.received, later);
  }

  lemma Finished(j: Job, b: Peer, later: seq<byte>, env: Env)
    requires JobOk(j) && ReceiverInv(j, b, later, env.continueFlag)
    requires b.stat != PREPARE_RECVFILE && b.stat != RECVFILEING
    requires TaskOk(b) && EnvOk(env)
    ensures CheckReq(b, env) == (TransferSpec.More, b) && b.written == Slice(j)
  {
    DoneIsInv(j, b, later, env.continueFlag);
  }

  lemma RecvStep(j: Job, b: Peer, later: seq<byte>, env: Env)
    requires JobOk(j) && Receiving(j, b, later) && WriteOk(b, env) && env.write >= 0
    ensures var (e, c) := RecvFile(b, env);
            && c.written <= Slice(j)
            && (e != CLOSE || c.recvtask.Some? ==> ReceiverInv(j, c, later, env.continueFlag))
            && (Accepted(c) || c.recvtask == None ==> c.written == Slice(j))
  {
    hide RecvFile, Slice;
    RecvFileMoves(j, b, later, env);
    var (e, c) := RecvFile(b, env);
    Prefix(c.written, c.received, later, Slice(j));
    if c.recvtask.Some? {
      ReceivingIsInv(j, c, later, env.continueFlag);
    }
  }

  lemma Prefix(x: seq<byte>, y: seq<byte>, z: seq<byte>, s: seq<byte>)
    requires x + y + z == s
    ensures x <= s
  {
  }

  // ----- whole runs

  lemma DeliveryMoves(x: seq<byte>, wire: seq<byte>, u: seq<byte>, k: nat, c: seq<byte>)
    requires k <= |wire|
    ensures c + x + (wire + u) == c + (x + wire[..k]) + (wire[k..] + u)
  {
    assert wire == wire[..k] + wire[k..];
  }

  /** Every step keeps the invariant while no write fails; a verdict on the file is given only when it is
      all written. */
  lemma StepKeepsInv(j: Job, y: Sys, step: Step, continueFlag: bool)
    requires JobOk(j) && Inv(j, y, continueFlag) && Allowed(j, y, step, continueFlag) && Writes(step)
    ensures Inv(j, Apply(j, y, step, continueFlag), continueFlag)
    ensures FileChecked(y.b, Apply(j, y, step, continueFlag).b) ==>
              Apply(j, y, step, continueFlag).b.written == Slice(j)
  {
    hide Stream, Slice, ReceiverOk, DoSend, SvcRecv, Consumed, CheckReq, FileBytes;
    match step
    case Send(io, fio) => SendKeepsInv(j, y, io, fio, continueFlag);
    case Recv(k, env) => RecvKeepsInv(j, y, k, env);
    case Cut => Shorter(Consumed(j, y.b) + y.b.received, y.wire, |y.wire|, Stream(j));
    case Hang(k) => Delivered(j, y.b, y.b.received + y.wire[..k], continueFlag);
    case Lose(k) => Shorter(Consumed(j, y.b) + y.b.received, y.wire, k, Stream(j));
  }

  lemma Shorter(x: seq<byte>, wire: seq<byte>, k: nat, s: seq<byte>)
    requires k <= |wire|
    ensures x + wire <= s ==> x + wire[..k] <= s
    ensures forall u :: x + (wire + u) == s ==> x + wire <= s
  {
    forall u | x + (wire + u) == s ensures x + wire <= s {
      assert x + wire + u == s;
    }
  }

  lemma SendKeepsInv(j: Job, y: Sys, io: Io, fio: Io, continueFlag: bool)
    requires JobOk(j) && Inv(j, y, continueFlag) && Allowed(j, y, Send(io, fio), continueFlag)
    ensures Inv(j, Apply(j, y, Send(io, fio), continueFlag), continueFlag)
  {
    hide Stream, Slice, ReceiverOk, DoSend, Consumed, FileBytes;
    DoSendMoves(j, y.a, io, fio);
    var (e, a, out) := DoSend(y.a, j.source, io, fio);
    SendRegroups(j, y.wire, y.a, a, out);
    Shorter(Consumed(j, y.b) + y.b.received, y.wire + out, |y.wire + out|, Stream(j));
  }

  /** What follows the bytes in flight: what the sender will send, or what nobody will. */
  ghost function Rest(j: Job, y: Sys): (r: seq<byte>)
    requires JobOk(j) && InOrder(j, y)
    ensures Consumed(j, y.b) + y.b.received + (y.wire + r) == Stream(j)
  {
    if !y.aClosed then Unsent(j, y.a)
    else
      var x := Consumed(j, y.b) + y.b.received;
      assert Stream(j) == x + y.wire + Stream(j)[|x + y.wire|..] == x + (y.wire + Stream(j)[|x + y.wire|..]);
      Stream(j)[|x + y.wire|..]
  }

  lemma RecvKeepsInv(j: Job, y: Sys, k: nat, env: Env)
    requires JobOk(j) && Inv(j, y, env.continueFlag) && Allowed(j, y, Recv(k, env), env.continueFlag)
    requires env.write >= 0
    ensures var y' := Apply(j, y, Recv(k, env), env.continueFlag);
            Inv(j, y', env.continueFlag) && (FileChecked(y.b, y'.b) ==> y'.b.written == Slice(j))
  {
    hide Stream, Slice, ReceiverOk, SvcRecv, Consumed, CheckReq, FileBytes, Unsent, SenderOk;
    var rest := Rest(j, y);
    var b := y.b.(received := y.b.received + y.wire[..k]);
    DeliveryMoves(y.b.received, y.wire, rest, k, Consumed(j, y.b));
    Delivered(j, y.b, b.received, env.continueFlag);
    SvcRecvMoves(j, b, y.wire[k..] + rest, env);
    var c := SvcRecv(b, env).1;
    Shorter(Consumed(j, c) + c.received, y.wire[k..], |y.wire[k..]|, Stream(j));
  }

  lemma SendRegroups(j: Job, wire: seq<byte>, a: Peer, q: Peer, out: seq<byte>)
    requires RangeOk(a, j.source) && RangeOk(q, j.source)
    requires out + q.data + FileBytes(q, j.source) == a.data + FileBytes(a, j.source)
    ensures wire + out + Unsent(j, q) == wire + Unsent(j, a)
  {
    hide FileBytes;
    assert wire + out + (q.data + FileBytes(q, j.source)) == wire + (out + q.data + FileBytes(q, j.source));
  }

  lemma Delivered(j: Job, b: Peer, received: seq<byte>, continueFlag: bool)
    requires JobOk(j) && ReceiverOk(j, b, continueFlag)
    ensures var b' := b.(received := received);
            ReceiverOk(j, b', continueFlag) && Consumed(j, b') == Consumed(j, b)
  {
  }

  /** Main theorem: after any run without a failed write, what is consumed, buffered and in flight is a
      prefix of the stream, what is written is a prefix of the slice, and a file that was accepted is the
      slice; also when either side, or both, closed on the way. */
  lemma {:induction false} RunKeepsInv(j: Job, y: Sys, steps: seq<Step>, continueFlag: bool)
    requires JobOk(j) && Inv(j, y, continueFlag) && AllowedRun(j, y, steps, continueFlag)
    requires forall i :: 0 <= i < |steps| ==> Writes(steps[i])
    ensures Inv(j, Run(j, y, steps, continueFlag), continueFlag)
    decreases |steps|
  {
    if steps != [] {
      hide Allowed, Apply, Inv, Writes;
      StepKeepsInv(j, y, steps[0], continueFlag);
      RunKeepsInv(j, Apply(j, y, steps[0], continueFlag), steps[1..], continueFlag);
    }
  }

  // ----- the request, and where a run starts

  /** A whole request in the receive buffer is taken and handed to do_send_task, whatever the peer's state, except
      that of receiving a file. */
  lemma RequestTaken(p: Peer, status: byte, request: seq<byte>, rest: seq<byte>, env: Env)
    requires p.stat != RECVFILEING && TaskOk(p) && EnvOk(env) && IsBase(request)
    requires p.received == Frame(Msg(0x11, status, request)) + rest && |p.received| < TWO31
    ensures CanRecv(p, env)
    ensures SvcRecv(p, env) == (EPOLLOUT, DoSendTask(p, request, env).(received := rest))
  {
    var m := Msg(0x11, status, request);
    ParseFrame(m, rest);
    ParseHeldIs(p.received);
    assert |Frame(m)| == HEAD_SIZE + BASE_SIZE;
    assert p.received[|Frame(m)|..] == rest;
    hide Frame, ParseHeld, DoSendTask;
  }

  /** A request that arrives is answered: the answer is queued behind what was buffered, and the event is EPOLLOUT. The
      base image comes from the file's attributes if the request names no size, if MD5 sums are calculated or if it is a
      retry, and its offset is cleared if transfers are not continued. When it can be sent, the file range from the
      offset to the size is queued behind the head; otherwise the status is that of a failure. */
  lemma RequestIsAnswered(p: Peer, status: byte, request: seq<byte>, rest: seq<byte>, env: Env, source: seq<byte>)
    requires p.stat != RECVFILEING && TaskOk(p) && EnvOk(env) && |request| == 888
    requires p.received == [3, 120, 0x11, status] + request + rest && |p.received| < 0x8000_0000 && |source| < TWO63
    ensures CanRecv(p, env)
    ensures var (e, q) := SvcRecv(p, env);
            var restat := request[864..872] == [0, 0, 0, 0, 0, 0, 0, 0] || env.calcuMd5 || request[874] != 0;
            var found := restat ==> env.stat.Some?;
            var base := if restat && env.stat.Some? then env.stat.value else request;
            var sent := if env.continueFlag then base else base[..824] + [0, 0, 0, 0, 0, 0, 0, 0] + base[832..];
            var sends := found && env.taskOk && env.openSrcOk;
            && e == EPOLLOUT && q.received == rest && q.sendLen == 0 && q.headlen == 892
            && (!found ==> q.data == p.data + [3, 120, 0x12, 0x86] + request)
            && (found && !env.taskOk ==> q.data == p.data + [3, 120, 0x12, 0x87] + base)
            && (found && env.taskOk && !env.openSrcOk ==> q.data == p.data + [3, 120, 0x12, 0x86] + sent)
            && (sends ==> q.data == p.data + [3, 120, 0x12, 0x81] + sent)
            && (sends ==> q.stat == SENDFILEING && q.open && q.sendtask == Some(Fsize(sent) - Offsize(sent)))
            && (sends && 0 <= Offsize(sent) <= Fsize(sent) <= |source| ==>
                  RangeOk(q, source) && FileBytes(q, source) == source[Offsize(sent)..Fsize(sent)])
            && (!sends ==> q.stat == p.stat && q.open == p.open && q.off == p.off && q.left == p.left)
  {
    hide Frame, SvcRecv, CheckReq, DoSendTask, Fsize, Offsize, SentBase, RangeOk, FileBytes, Restat, SendsFile;
    RequestFrame(status, request);
    RequestTaken(p, status, request, rest, env);
    var q := DoSendTask(p, request, env);
    hide *;
    RestatIs(request, env);
    SendsFileIs(request, env);
    Answers(p, request, env);
    var sent := SentBase(request, env);
    if SendsFile(request, env) && 0 <= Offsize(sent) <= Fsize(sent) <= |source| {
      SendsSlice(p, request, env, source);
      SameRange(q, rest, source);
    }
  }

  lemma SendsFileIs(request: seq<byte>, env: Env)
    requires IsBase(request)
    ensures SendsFile(request, env) <==> (Restat(request, env) ==> env.stat.Some?) && env.taskOk && env.openSrcOk
  {
  }

  lemma SameRange(q: Peer, received: seq<byte>, source: seq<byte>)
    requires RangeOk(q, source)
    ensures RangeOk(q.(received := received), source)
    ensures FileBytes(q.(received := received), source) == FileBytes(q, source)
  {
  }

  lemma RequestFrame(status: byte, request: seq<byte>)
    requires |request| == 888
    ensures Frame(Msg(0x11, status, request)) == [3, 120, 0x11, status] + request
  {
  }

  lemma RestatIs(request: seq<byte>, env: Env)
    requires IsBase(request)
    ensures Restat(request, env) <==>
            request[864..872] == [0, 0, 0, 0, 0, 0, 0, 0] || env.calcuMd5 || request[874] != 0
  {
    SizeIsZero(request);
  }

  predicate SendsFile(request: seq<byte>, env: Env)
    requires IsBase(request)
  {
    (Restat(request, env) ==> env.stat.Some?) && env.taskOk && env.openSrcOk
  }

  /** The answers of do_send_task, in each of its cases. */
  lemma Answers(p: Peer, request: seq<byte>, env: Env)
    requires IsBase(request) && EnvOk(env)
    ensures var q := DoSendTask(p, request, env);
            var found := Restat(request, env) ==> env.stat.Some?;
            var base := if Restat(request, env) && env.stat.Some? then env.stat.value else request;
            var sent := if env.continueFlag then base else base[..824] + [0, 0, 0, 0, 0, 0, 0, 0] + base[832..];
            && SentBase(request, env) == sent && q.sendLen == 0 && q.headlen == 892
            && (!found ==> q.data == p.data + [3, 120, 0x12, 0x86] + request)
            && (found && !env.taskOk ==> q.data == p.data + [3, 120, 0x12, 0x87] + base)
            && (found && env.taskOk && !env.openSrcOk ==> q.data == p.data + [3, 120, 0x12, 0x86] + sent)
            && (SendsFile(request, env) ==>
                  q.data == p.data + [3, 120, 0x12, 0x81] + sent && q.stat == SENDFILEING && q.open &&
                  q.sendtask == Some(Fsize(sent) - Offsize(sent)))
            && (!SendsFile(request, env) ==> q.stat == p.stat && q.open == p.open && q.off == p.off && q.left == p.left)
  {
    var base := if Restat(request, env) && env.stat.Some? then env.stat.value else request;
    var sent := SentBase(request, env);
    SentIs(request, env);
    AnswerIs(p, 0x86, request);
    AnswerIs(p, 0x87, base);
    AnswerIs(p, 0x86, sent);
    AnswerIs(p, 0x81, sent);
    hide Answer, SentBase, Restat, Fsize, Offsize, SizeT;
  }

  lemma SentIs(request: seq<byte>, env: Env)
    requires IsBase(request) && EnvOk(env)
    ensures var base := if Restat(request, env) && env.stat.Some? then env.stat.value else request;
            var sent := if env.continueFlag then base else base[..824] + [0, 0, 0, 0, 0, 0, 0, 0] + base[832..];
            SentBase(request, env) == sent
  {
    hide Restat;
  }

  lemma AnswerIs(p: Peer, status: byte, base: seq<byte>)
    requires IsBase(base)
    ensures var q := Answer(p, status, base);
            && q == p.(sendLen := 0, headlen := 892, data := q.data)
            && q.data == p.data + [3, 120, 0x12, status] + base
  {
    assert p.data + ([3, 120, 0x12, status] + base) == p.data + [3, 120, 0x12, status] + base;
  }

  lemma SendsSlice(p: Peer, request: seq<byte>, env: Env, source: seq<byte>)
    requires IsBase(request) && EnvOk(env) && SendsFile(request, env) && |source| < TWO63
    requires 0 <= Offsize(SentBase(request, env)) <= Fsize(SentBase(request, env)) <= |source|
    ensures var (q, sent) := (DoSendTask(p, request, env), SentBase(request, env));
            RangeOk(q, source) && FileBytes(q, source) == source[Offsize(sent)..Fsize(sent)]
  {
    Answered(p, request, env);
    hide DoSendTask, SentBase, Answer, Fsize, Offsize, SendsFile;
  }

  lemma SizeIsZero(b: seq<byte>)
    requires IsBase(b)
    ensures Fsize(b) == 0 <==> b[864..872] == [0, 0, 0, 0, 0, 0, 0, 0]
  {
    var f := b[864..872];
    Int64Is(b, 864);
    assert f == [b[864], b[865], b[866], b[867], b[868], b[869], b[870], b[871]];
  }

  /** An answer that arrives is taken: the receiver keeps its own base image if the texts of the two MD5 sums, t0 and
      t, are the same, and otherwise takes the one that arrived; its offset is cleared if transfers are not continued.
      Any other status than 0x81 ends the task. */
  lemma AnswerIsTaken(p: Peer, status: byte, base: seq<byte>, rest: seq<byte>, env: Env, t0: seq<byte>, t: seq<byte>)
    requires p.stat == PREPARE_RECVFILE && TaskOk(p) && EnvOk(env) && |base| == 888
    requires p.received == [3, 120, 0x12, status] + base + rest && |p.received| < 0x8000_0000
    requires t0 <= p.recvtask.value.base[768..801] && 0 !in t0
    requires |t0| < 33 ==> p.recvtask.value.base[768..801][|t0|] == 0
    requires t <= base[768..801] && 0 !in t && (|t| < 33 ==> base[768..801][|t|] == 0)
    ensures var (c, q) := CheckReq(p, env);
            var task := p.recvtask.value;
            var kept := if t0 == t then task.base else base;
            var b := if env.continueFlag then kept else kept[..824] + [0, 0, 0, 0, 0, 0, 0, 0] + kept[832..];
            var started := RecvTask(b, Fsize(base) - Offsize(b), task.lastlen);
            && q.received == rest
            && (status != 0x81 ==>
                  c == Done(CLOSE) && q.stat == IDLE && q.recvOver == E_OPEN_SRCFILE && q.recvtask == None)
            && (status == 0x81 && env.openDstOk ==>
                  c == Done(EPOLLIN) && q.stat == RECVFILEING && q.recvtask == Some(started))
            && (status == 0x81 && !env.openDstOk ==>
                  c == Done(CLOSE) && q.recvOver == E_OPEN_DSTFILE && q.recvtask == None)
  {
    hide Frame, CheckReq, DoRecvTask, Fsize, Offsize, Md5;
    AnswerFrame(status, base);
    Md5Is(p.recvtask.value.base, t0);
    Md5Is(base, t);
    AnswerConsumed(p, status, base, rest, env);
    hide *;
    AnswerHandled(p, status, base, env);
  }

  lemma AnswerConsumed(p: Peer, status: byte, base: seq<byte>, rest: seq<byte>, env: Env)
    requires p.stat == PREPARE_RECVFILE && TaskOk(p) && EnvOk(env) && IsBase(base)
    requires p.received == Frame(Msg(0x12, status, base)) + rest && |p.received| < TWO31
    ensures var (e, q) := DoRecvTask(p, status, base, env);
            CheckReq(p, env) == (Done(e), q.(received := rest))
  {
    var m := Msg(0x12, status, base);
    ParseFrame(m, rest);
    ParseHeldIs(p.received);
    assert |Frame(m)| == HEAD_SIZE + BASE_SIZE;
    assert p.received[|Frame(m)|..] == rest;
    hide Frame, ParseHeld, DoRecvTask;
  }

  lemma AnswerHandled(p: Peer, status: byte, base: seq<byte>, env: Env)
    requires p.stat == PREPARE_RECVFILE && TaskOk(p) && IsBase(base)
    ensures var (e, q) := DoRecvTask(p, status, base, env);
            var task := p.recvtask.value;
            var kept := if Md5(task.base) == Md5(base) then task.base else base;
            var b := if env.continueFlag then kept else kept[..824] + [0, 0, 0, 0, 0, 0, 0, 0] + kept[832..];
            var started := RecvTask(b, Fsize(base) - Offsize(b), task.lastlen);
            && (status != 0x81 ==> e == CLOSE && q == p.(stat := IDLE, recvOver := E_OPEN_SRCFILE, recvtask := None))
            && (status == 0x81 && env.openDstOk ==>
                  e == EPOLLIN && q == p.(stat := RECVFILEING, recvtask := Some(started)))
            && (status == 0x81 && !env.openDstOk ==>
                  e == CLOSE && q == p.(recvOver := E_OPEN_DSTFILE, recvtask := None))
  {
    hide Fsize, Offsize, Md5;
  }

  /** Any other command, a body of another size, an answer that was not waited for, and a body of 4096 bytes and more
      close the connection; the last of these is not even taken. */
  lemma OthersClose(p: Peer, high: byte, low: byte, cmdid: byte, status: byte, body: seq<byte>, rest: seq<byte>,
                    env: Env)
    requires p.stat != RECVFILEING && TaskOk(p) && EnvOk(env) && |body| == 256 * high as nat + low as nat
    requires p.received == [high, low, cmdid, status] + body + rest && |p.received| < 0x8000_0000
    requires cmdid == 0x11 || (cmdid == 0x12 && p.stat == PREPARE_RECVFILE) ==> |body| != 888
    ensures CanRecv(p, env)
    ensures SvcRecv(p, env) == (CLOSE, p.(received := if |body| < 4096 then rest else p.received))
  {
    NetworkOrder(high, low, cmdid, status, body, rest);
    ParseHeldIs(p.received);
    assert p.received[HEAD_SIZE + |body|..] == rest;
    hide Frame, Parse, ParseHeld, DoSendTask;
  }

  /** When all that is left of a file has come and is written, the file is checked: either it is reported as received,
      and the connection closed if a proxy is in use, or it is reported as damaged and the connection closed. */
  lemma FileFinished(p: Peer, t: RecvTask, env: Env)
    requires p.stat == RECVFILEING && p.recvtask == Some(t) && TaskOk(p) && EnvOk(env)
    requires 0 <= t.lastlen < t.processlen < TWO63 && t.processlen - t.lastlen <= |p.received|
    requires env.write == t.processlen - t.lastlen
    ensures CanRecv(p, env)
    ensures var q := p.(received := p.received[env.write..], written := p.written + p.received[..env.write]);
            SvcRecv(p, env) == if env.md5Ok then
              (if env.proxied then CLOSE else EPOLLIN, q.(recvtask := None, recvOver := OK, stat := IDLE))
            else
              (CLOSE, q.(recvtask := None, recvOver := E_MD5))
  {
    var n := t.processlen - t.lastlen;
    assert SizeT(n) == n && Wrap64(t.lastlen + n) == t.processlen;
    assert Skip(p.received, n) == p.received[n..];
    assert TakeWritten(p, n).recvtask.value == t.(lastlen := t.processlen);
  }

  lemma AnswerFrame(status: byte, base: seq<byte>)
    requires |base| == 888
    ensures Frame(Msg(0x12, status, base)) == [3, 120, 0x12, status] + base
  {
  }

  lemma Md5Is(b: seq<byte>, t: seq<byte>)
    requires IsBase(b) && t <= b[768..801] && 0 !in t && (|t| < 33 ==> b[768..801][|t|] == 0)
    ensures Md5(b) == t
  {
    assert b[768..801][..|t|] == t;
    StrLenIs(b[768..801], |t|);
  }

  /** A run starts when a request is delivered to the sender, which can send the file; the receiver waits for the
      answer with nothing received yet. When transfers are continued, the request carried the receiver's own offset. */
  lemma Start(j: Job, p: Peer, status: byte, request: seq<byte>, rest: seq<byte>, env: Env, b: Peer)
    requires JobOk(j) && IsBase(request) && EnvOk(env) && SentBase(request, env) == j.base
    requires p.received == Frame(Msg(0x11, status, request)) + rest && |p.received| < TWO31
    requires p.data == [] && p.stat != SENDFILEING && p.stat != RECVFILEING && TaskOk(p)
    requires (Restat(request, env) ==> env.stat.Some?) && env.taskOk && env.openSrcOk
    requires b.stat == PREPARE_RECVFILE && b.recvtask.Some? && b.received == [] && b.written == []
    requires b.recvtask.value.lastlen == 0 && IsBase(b.recvtask.value.base)
    requires env.continueFlag ==> Offsize(b.recvtask.value.base) == Offsize(j.base)
    ensures CanRecv(p, env) && SvcRecv(p, env).0 == EPOLLOUT
    ensures Inv(j, Sys(SvcRecv(p, env).1, false, [], b, false), env.continueFlag)
  {
    RequestTaken(p, status, request, rest, env);
    Answered(p, request, env);
    SendingIsHead(j, p, rest);
    Waits(j, request, env, b);
    hide *;
    Together(j, Sending(p, j.base).(received := rest), b, env.continueFlag);
  }

  lemma Answered(p: Peer, request: seq<byte>, env: Env)
    requires IsBase(request) && EnvOk(env)
    requires SendsFile(request, env)
    ensures DoSendTask(p, request, env) == Sending(p, SentBase(request, env))
  {
    hide Sending, SentBase, Frame;
  }

  lemma Waits(j: Job, request: seq<byte>, env: Env, b: Peer)
    requires JobOk(j) && IsBase(request) && EnvOk(env) && SentBase(request, env) == j.base
    requires b.stat == PREPARE_RECVFILE && b.recvtask.Some? && b.written == []
    requires b.recvtask.value.lastlen == 0 && IsBase(b.recvtask.value.base)
    requires env.continueFlag ==> Offsize(b.recvtask.value.base) == Offsize(j.base)
    ensures ReceiverOk(j, b, env.continueFlag)
  {
    if !env.continueFlag {
      ZeroOffsizeIsZero(if Restat(request, env) && env.stat.Some? then env.stat.value else request);
    }
    hide Offsize, ZeroOffsize, Slice;
  }

  lemma Together(j: Job, a: Peer, b: Peer, continueFlag: bool)
    requires JobOk(j) && SenderOk(j, a) && RangeOk(a, j.source) && Unsent(j, a) == Stream(j)
    requires ReceiverOk(j, b, continueFlag) && b.stat == PREPARE_RECVFILE && b.received == [] && b.written == []
    ensures Inv(j, Sys(a, false, [], b, false), continueFlag)
  {
    hide Slice, Stream, SenderOk, ReceiverOk, FileBytes, Unsent, RangeOk;
    assert [] + [] + ([] + Stream(j)) == Stream(j);
  }

  lemma SendingIsHead(j: Job, p: Peer, rest: seq<byte>)
    requires JobOk(j) && p.data == []
    ensures var a := Sending(p, j.base).(received := rest);
            SenderOk(j, a) && RangeOk(a, j.source) && Unsent(j, a) == Stream(j) && a.stat == SENDFILEING
  {
    assert [] + Header(j) == Header(j);
  }

  // ----- verdicts

  /** When the sender gives its verdict, the whole head and slice have left its buffers; the verdict is OK
      exactly when their length fits an int, because the bytes sent are counted in one. */
  lemma SenderVerdict(j: Job, y: Sys, step: Step, continueFlag: bool)
    requires JobOk(j) && Inv(j, y, continueFlag) && Allowed(j, y, step, continueFlag) && step.Send?
    requires y.a.stat == SENDFILEING && Apply(j, y, step, continueFlag).a.stat != SENDFILEING
    ensures var y' := Apply(j, y, step, continueFlag);
            && RangeOk(y'.a, j.source) && Unsent(j, y'.a) == []
            && (y'.a.sendOver == OK <==> HEAD_SIZE + BASE_SIZE + |Slice(j)| < TWO31)
            && (y'.a.sendOver == OK <==> !y'.aClosed)
            && (y'.a.sendOver == OK || y'.a.sendOver == SEND_LEN)
  {
    hide SenderOk, DoSend, SvcRecv, ReceiverOk, Consumed, FileBytes, RangeOk;
    DoSendMoves(j, y.a, step.io, step.fio);
    SenderRange(j, DoSend(y.a, j.source, step.io, step.fio).1);
  }

  /** The sender reports failure and closes, and yet the file arrives: after the verdict on a stream of 2^31
      bytes or more, the receiver takes the head, if it has not yet, and accepts the file after one delivery of the
      rest and one full write. Only a receiver that holds 2^31 bytes and no head taken cannot: it is stuck. */
  lemma LateAccept(j: Job, y: Sys, step: Step, continueFlag: bool) returns (head: Step, rest: Step)
    requires JobOk(j) && Inv(j, y, continueFlag) && Allowed(j, y, step, continueFlag) && step.Send? && !y.bClosed
    requires y.a.stat == SENDFILEING && Apply(j, y, step, continueFlag).a.stat != SENDFILEING
    requires HEAD_SIZE + BASE_SIZE + |Slice(j)| >= TWO31
    requires y.b.stat == PREPARE_RECVFILE ==> |y.b.received| < TWO31
    ensures var y' := Apply(j, y, step, continueFlag);
            && y'.a.sendOver == SEND_LEN && y'.aClosed
            && Allowed(j, y', head, continueFlag) && Allowed(j, Apply(j, y', head, continueFlag), rest, continueFlag)
            && Accepted(Apply(j, Apply(j, y', head, continueFlag), rest, continueFlag).b)
  {
    SenderVerdict(j, y, step, continueFlag);
    AllInFlight(j, y, step, continueFlag);
    var y' := Apply(j, y, step, continueFlag);
    hide Apply, Allowed, Inv, Slice, Stream, Consumed, ReceiverOk;
    head := TakeHead(j, y', continueFlag);
    rest := TakeRest(j, Apply(j, y', head, continueFlag), continueFlag);
  }

  lemma AllInFlight(j: Job, y: Sys, step: Step, continueFlag: bool)
    requires JobOk(j) && Inv(j, y, continueFlag) && Allowed(j, y, step, continueFlag) && step.Send? && !y.bClosed
    requires y.a.stat == SENDFILEING && Apply(j, y, step, continueFlag).a.stat != SENDFILEING
    ensures var y' := Apply(j, y, step, continueFlag);
            y'.b == y.b && !y'.bClosed && ToCome(j, y', continueFlag)
  {
    hide SenderOk, DoSend, SvcRecv, Consumed, Stream, FileBytes;
    DoSendMoves(j, y.a, step.io, step.fio);
    var (e, a, out) := DoSend(y.a, j.source, step.io, step.fio);
    assert RangeOk(a, j.source) by {
      SenderRange(j, a);
    }
    SendRegroups(j, y.wire, y.a, a, out);
    assert y.wire + out + Unsent(j, a) == y.wire + out;
    assert Consumed(j, y.b) + (y.b.received + (y.wire + out)) == Consumed(j, y.b) + y.b.received + (y.wire + out);
  }

  lemma SenderRange(j: Job, a: Peer)
    requires JobOk(j) && SenderOk(j, a)
    ensures RangeOk(a, j.source)
  {
  }

  /** All that the receiver has not consumed is held or in flight. */
  ghost predicate ToCome(j: Job, y: Sys, continueFlag: bool)
    requires JobOk(j)
  {
    ReceiverOk(j, y.b, continueFlag) && Consumed(j, y.b) + (y.b.received + y.wire) == Stream(j)
  }

  function Deliver(k: nat, write: int, continueFlag: bool): Step {
    Recv(k, Env(continueFlag, false, None, true, true, true, write, true, false))
  }

  /** A receiver that waits for the head gets no more than the head, and takes it; another one gets nothing. */
  lemma TakeHead(j: Job, y: Sys, continueFlag: bool) returns (head: Step)
    requires JobOk(j) && !y.bClosed && ToCome(j, y, continueFlag)
    requires HEAD_SIZE + BASE_SIZE + |Slice(j)| >= TWO31
    requires y.b.stat == PREPARE_RECVFILE ==> |y.b.received| < TWO31
    ensures Allowed(j, y, head, continueFlag)
    ensures var y' := Apply(j, y, head, continueFlag);
            !y'.bClosed && ToCome(j, y', continueFlag) && y'.b.stat != PREPARE_RECVFILE
  {
    if y.b.stat == PREPARE_RECVFILE {
      var k := if |y.b.received| < |Header(j)| then |Header(j)| - |y.b.received| else 0;
      assert |Stream(j)| == |Header(j)| + |Slice(j)|;
      assert |Consumed(j, y.b)| == 0;
      var b := y.b.(received := y.b.received + y.wire[..k]);
      var n := |b.received| - |Header(j)|;
      head := Deliver(k, n, continueFlag);
      hide Stream, Slice, ReceiverOk;
      Delivered(j, y.b, b.received, continueFlag);
      Splits(y.b.received, y.wire, k);
      HeadComes(j, b, y.wire[k..], head.env);
    } else {
      head := Deliver(0, 0, continueFlag);
      Splits(y.b.received, y.wire, 0);
      assert y.b.received + y.wire[..0] == y.b.received && y.wire[0..] == y.wire;
      assert y.b.(received := y.b.received) == y.b;
      NothingComes(j, y.b, y.wire, head.env);
    }
  }

  lemma Splits(x: seq<byte>, wire: seq<byte>, k: nat)
    requires k <= |wire|
    ensures x + wire == (x + wire[..k]) + wire[k..]
  {
    assert wire == wire[..k] + wire[k..];
  }

  lemma HeadComes(j: Job, b: Peer, later: seq<byte>, env: Env)
    requires JobOk(j) && b.stat == PREPARE_RECVFILE && ReceiverOk(j, b, env.continueFlag)
    requires b.received + later == Stream(j) && |Header(j)| <= |b.received| < TWO31
    requires |b.received| - |Header(j)| < |Slice(j)|
    requires EnvOk(env) && env.openDstOk && env.write == |b.received| - |Header(j)|
    ensures CanRecv(b, env)
    ensures var (e, c) := SvcRecv(b, env);
            && e != CLOSE && c.stat == RECVFILEING && ReceiverOk(j, c, env.continueFlag)
            && Consumed(j, c) + (c.received + later) == Stream(j)
  {
    hide Stream, Slice, RecvFile, CheckReq, SvcRecv, CanRecv, WriteOk, Receiving, ReceiverInv;
    HeadTakenNow(j, b, later, env);
    CheckReqMoves(j, b, later, env);
    var q := CheckReq(b, env).1;
    HeldBehindHead(j, b, later);
    SomeWritten(j, q, later, env);
    FileStarts(b, env);
    StillReceiving(j, RecvFile(q, env).1, later, env.continueFlag);
  }

  lemma HeldBehindHead(j: Job, b: Peer, later: seq<byte>)
    requires JobOk(j) && b.received + later == Stream(j) && |Header(j)| <= |b.received|
    ensures |Skip(b.received, |Header(j)|)| == |b.received| - |Header(j)|
  {
  }

  lemma FileStarts(b: Peer, env: Env)
    requires b.stat == PREPARE_RECVFILE && TaskOk(b) && EnvOk(env)
    requires CheckReq(b, env).0 == Done(EPOLLIN) && WriteOk(CheckReq(b, env).1, env)
    ensures CanRecv(b, env) && SvcRecv(b, env) == RecvFile(CheckReq(b, env).1, env)
  {
    hide CheckReq, RecvFile, WriteOk;
  }

  lemma StillReceiving(j: Job, c: Peer, later: seq<byte>, continueFlag: bool)
    requires JobOk(j) && Receiving(j, c, later)
    ensures c.stat == RECVFILEING && ReceiverOk(j, c, continueFlag)
    ensures Consumed(j, c) + (c.received + later) == Stream(j)
  {
    ReceivingIsInv(j, c, later, continueFlag);
    assert Consumed(j, c) + c.received + later == Consumed(j, c) + (c.received + later);
  }

  lemma SomeWritten(j: Job, q: Peer, later: seq<byte>, env: Env)
    requires JobOk(j) && Receiving(j, q, later) && q.written == [] && env.write == |q.received| < |Slice(j)|
    ensures WriteOk(q, env)
    ensures RecvFile(q, env).0 != CLOSE && Receiving(j, RecvFile(q, env).1, later)
  {
    assert SizeT(|Slice(j)|) == |Slice(j)|;
    RecvFileMoves(j, q, later, env);
    assert |RecvFile(q, env).1.written| <= |q.received|;
  }

  lemma HeadTakenNow(j: Job, b: Peer, later: seq<byte>, env: Env)
    requires JobOk(j) && b.stat == PREPARE_RECVFILE && ReceiverOk(j, b, env.continueFlag)
    requires EnvOk(env) && env.openDstOk
    requires b.received + later == Stream(j) && |Header(j)| <= |b.received| < TWO31
    ensures CheckReq(b, env).0 == Done(EPOLLIN)
    ensures CheckReq(b, env).1.received == Skip(b.received, |Header(j)|)
  {
    HeadArrives(j, b.received, later);
    hide Slice, ParseHeld, Skip, RecvBase;
  }

  lemma NothingComes(j: Job, b: Peer, later: seq<byte>, env: Env)
    requires JobOk(j) && b.stat != PREPARE_RECVFILE && ReceiverOk(j, b, env.continueFlag) && EnvOk(env)
    requires Consumed(j, b) + (b.received + later) == Stream(j) && env.write == 0
    ensures CanRecv(b, env) && SvcRecv(b, env) == (EPOLLIN, b)
  {
    assert Consumed(j, b) + b.received + later == Consumed(j, b) + (b.received + later);
    if b.stat == RECVFILEING {
      NothingWritten(j, b, later, env);
    } else {
      Finished(j, b, later, env);
    }
  }

  lemma NothingWritten(j: Job, b: Peer, later: seq<byte>, env: Env)
    requires JobOk(j) && b.stat == RECVFILEING && ReceiverOk(j, b, env.continueFlag) && env.write == 0
    requires Consumed(j, b) + b.received + later == Stream(j)
    ensures WriteOk(b, env) && RecvFile(b, env) == (EPOLLIN, b)
  {
    ReceivingIsInv(j, b, later, env.continueFlag);
    if b.received != [] {
      assert SizeT(0) == 0 && b.written + b.received[..0] == b.written && Skip(b.received, 0) == b.received;
      assert |b.written + b.received + later| == |Slice(j)|;
    }
  }

  /** One delivery of the rest, and one full write. */
  lemma TakeRest(j: Job, y: Sys, continueFlag: bool) returns (rest: Step)
    requires JobOk(j) && |Slice(j)| > 0 && !y.bClosed && ToCome(j, y, continueFlag) && y.b.stat != PREPARE_RECVFILE
    ensures Allowed(j, y, rest, continueFlag) && Accepted(Apply(j, y, rest, continueFlag).b)
  {
    rest := Deliver(|y.wire|, |Slice(j)| - |y.b.written|, continueFlag);
    assert |y.b.written| <= |Slice(j)|;
    Delivered(j, y.b, y.b.received + y.wire, continueFlag);
    assert y.wire[..|y.wire|] == y.wire;
    LastDelivery(j, y.b.(received := y.b.received + y.wire), rest.env);
  }

  /** A receiver that holds all the rest of the file, and writes it at once, accepts the file. */
  lemma LastDelivery(j: Job, b: Peer, env: Env)
    requires JobOk(j) && |Slice(j)| > 0 && ReceiverOk(j, b, env.continueFlag) && b.stat != PREPARE_RECVFILE
    requires Consumed(j, b) + b.received == Stream(j)
    requires EnvOk(env) && env.md5Ok && env.write == |Slice(j)| - |b.written|
    ensures CanRecv(b, env) && Accepted(SvcRecv(b, env).1)
  {
    assert Consumed(j, b) + b.received + [] == Stream(j);
    hide Stream, CheckReq, RecvFile, Slice;
    if b.stat == RECVFILEING {
      ReceivingIsInv(j, b, [], env.continueFlag);
      LastWrite(j, b, env);
    } else {
      Finished(j, b, [], env);
    }
  }

  lemma LastWrite(j: Job, b: Peer, env: Env)
    requires JobOk(j) && |Slice(j)| > 0 && Receiving(j, b, [])
    requires env.md5Ok && env.write == |Slice(j)| - |b.written|
    ensures WriteOk(b, env) && Accepted(RecvFile(b, env).1)
  {
    assert b.written + b.received + [] == b.written + b.received;
    assert |b.received| == |Slice(j)| - |b.written|;
    assert SizeT(|Slice(j)| - |b.written|) == |Slice(j)| - |b.written|;
    RecvFileMoves(j, b, [], env);
    assert |RecvFile(b, env).1.written| == |Slice(j)|;
  }

  /** A receiver that holds 2^31 bytes or more, and fewer than 2^32, before the head was taken, takes nothing. */
  lemma StuckBeforeHead(b: Peer, env: Env)
    requires b.stat == PREPARE_RECVFILE && CanRecv(b, env) && TWO31 <= |b.received| < 2 * TWO31
    ensures SvcRecv(b, env) == (EPOLLIN, b)
  {
    ParseHeldIs(b.received);
    hide ParseHeld;
  }

  /** When everything has been sent, delivered and consumed, the receiver has accepted the file, or the slice
      is empty. */
  lemma NothingLeft(j: Job, y: Sys, continueFlag: bool)
    requires JobOk(j) && Inv(j, y, continueFlag) && !y.bClosed && !y.aClosed
    requires y.b.received == [] && y.wire == [] && Unsent(j, y.a) == []
    ensures |Slice(j)| > 0 ==> Accepted(y.b) && y.b.written == Slice(j)
    ensures |Slice(j)| == 0 ==> y.b.stat == IDLE || (y.b.stat == RECVFILEING && y.b.recvtask.Some?)
  {
    assert |Consumed(j, y.b)| == |Stream(j)|;
  }

  /** An empty slice is never completed: the receiver waits for a byte that does not come. */
  lemma EmptySliceStalls(j: Job, y: Sys, step: Step, continueFlag: bool)
    requires JobOk(j) && Inv(j, y, continueFlag) && Allowed(j, y, step, continueFlag)
    requires |Slice(j)| == 0 && y.b.stat == RECVFILEING && !y.bClosed
    ensures Apply(j, y, step, continueFlag).b == y.b
  {
    hide SvcSend, SendData, SendFile;
    if step.Recv? || step.Hang? {
      var rest := Rest(j, y);
      assert |Consumed(j, y.b)| + |y.b.received| + |y.wire| + |rest| == |Stream(j)|;
      assert y.b.received + y.wire[..step.k] == y.b.received;
    }
  }

  /** Failing writes are the exact limit of the above: one write keeps the bytes in order if and only if it
      does not fail. A failure drops every buffered byte, counts -1 towards the length, and is not noticed. */
  lemma WriteFailure(p: Peer, env: Env)
    requires p.stat == RECVFILEING && p.recvtask.Some? && 0 < |p.received| < TWO64 && WriteOk(p, env)
    requires 0 <= p.recvtask.value.lastlen < p.recvtask.value.processlen < TWO63
    ensures var c := RecvFile(p, env).1;
            c.written + c.received == p.written + p.received <==> env.write >= 0
    ensures env.write == -1 ==>
              RecvFile(p, env) == (EPOLLIN, p.(received := [],
                recvtask := Some(p.recvtask.value.(lastlen := p.recvtask.value.lastlen - 1))))
  {
    var t := p.recvtask.value;
    assert SizeT(-1) == TWO64 - 1 && Wrap64(t.lastlen + (TWO64 - 1)) == t.lastlen - 1;
    if env.write >= 0 {
      assert p.received == p.received[..env.write] + Skip(p.received, env.write);
      assert SizeT(env.write) == env.write;
      assert p.written + p.received[..env.write] + Skip(p.received, env.write) == p.written + p.received;
    } else {
      assert |p.written + p.received| > |p.written + []|;
    }
  }

  // ----- after a failed write

  /** The bytes that can still reach the receiver. */
  ghost function Coming(j: Job, y: Sys): nat
    requires !y.aClosed ==> RangeOk(y.a, j.source)
  {
    |y.b.received| + |y.wire| + if y.aClosed then 0 else |Unsent(j, y.a)|
  }

  /** The receiver has counted too few bytes for all that can still come to complete the file. */
  ghost predicate Starved(j: Job, y: Sys)
    requires JobOk(j)
  {
    && (!y.aClosed ==> SenderOk(j, y.a))
    && y.b.stat == RECVFILEING && y.b.recvtask.Some?
    && var t := y.b.recvtask.value;
       && IsBase(t.base) && t.processlen == |Slice(j)|
       && t.lastlen < |y.b.written|
       && t.lastlen + Coming(j, y) < t.processlen
       && t.lastlen + |Slice(j)| >= Coming(j, y)
  }

  /** The event writes at least one byte, or tries to. */
  predicate Reaches(b: Peer, env: Env)
    requires CanRecv(b, env)
  {
    var q := if b.stat == RECVFILEING then b else CheckReq(b, env).1;
    (b.stat == RECVFILEING || CheckReq(b, env).0 == Done(EPOLLIN)) && q.recvtask.Some? && q.received != []
  }

  /** A failing write starves the receiver. */
  lemma FailureStarves(j: Job, y: Sys, k: nat, env: Env)
    requires JobOk(j) && Inv(j, y, env.continueFlag) && Allowed(j, y, Recv(k, env), env.continueFlag)
    requires env.write == -1 && Reaches(y.b.(received := y.b.received + y.wire[..k]), env)
    ensures Starved(j, Apply(j, y, Recv(k, env), env.continueFlag))
  {
    hide Stream, Slice, ReceiverOk, Consumed, CheckReq, Unsent, SenderOk, RecvFile;
    var rest := Rest(j, y);
    var later := y.wire[k..] + rest;
    var b := y.b.(received := y.b.received + y.wire[..k]);
    DeliveryMoves(y.b.received, y.wire, rest, k, Consumed(j, y.b));
    Delivered(j, y.b, b.received, env.continueFlag);
    if b.stat == RECVFILEING {
      ReceivingIsInv(j, b, later, env.continueFlag);
      WriteFails(j, b, later, env);
    } else {
      assert b.stat == PREPARE_RECVFILE by {
        if b.stat != PREPARE_RECVFILE {
          Finished(j, b, later, env);
        }
      }
      Prepared(j, b, later, env);
      CheckReqMoves(j, b, later, env);
      WriteFails(j, CheckReq(b, env).1, later, env);
    }
  }

  lemma WriteFails(j: Job, b: Peer, later: seq<byte>, env: Env)
    requires JobOk(j) && Receiving(j, b, later) && WriteOk(b, env) && env.write == -1 && b.received != []
    ensures var (e, c) := RecvFile(b, env);
            && e == EPOLLIN && c.stat == RECVFILEING && c.recvtask.Some? && c.received == [] && c.written == b.written
            && IsBase(c.recvtask.value.base) && c.recvtask.value.processlen == |Slice(j)|
            && c.recvtask.value.lastlen == |b.written| - 1
            && |b.written| + |later| < |Slice(j)|
  {
    assert |b.written + b.received + later| == |Slice(j)|;
    WriteFailure(b, env);
  }

  /** One write of a starved receiver, whether it fails or not. */
  lemma StarvedWrite(b: Peer, env: Env, size: nat, coming: nat)
    requires b.stat == RECVFILEING && b.recvtask.Some? && WriteOk(b, env) && size < TWO63
    requires b.recvtask.value.processlen == size && b.recvtask.value.lastlen < |b.written|
    requires b.recvtask.value.lastlen + |b.received| + coming < size
    requires b.recvtask.value.lastlen + size >= |b.received| + coming
    ensures var (e, c) := RecvFile(b, env);
            && e == EPOLLIN && c.stat == RECVFILEING && c.recvtask.Some? && c.recvOver == b.recvOver
            && c.recvtask.value.base == b.recvtask.value.base && c.recvtask.value.processlen == size
            && c.recvtask.value.lastlen < |c.written|
            && c.recvtask.value.lastlen + |c.received| + coming < size
            && c.recvtask.value.lastlen + size >= |c.received| + coming
  {
    if b.received != [] {
      var t := b.recvtask.value;
      assert SizeT(-1) == TWO64 - 1 && Wrap64(t.lastlen + (TWO64 - 1)) == t.lastlen - 1;
      assert env.write >= 0 ==> SizeT(env.write) == env.write && Wrap64(t.lastlen + env.write) == t.lastlen + env.write;
    }
  }

  lemma StarvedStep(j: Job, y: Sys, step: Step, continueFlag: bool)
    requires JobOk(j) && Starved(j, y) && Allowed(j, y, step, continueFlag)
    ensures var y' := Apply(j, y, step, continueFlag);
            && Starved(j, y') && y'.b.recvOver == y.b.recvOver
            && (y'.bClosed && !y.bClosed ==> step.Hang?)
  {
    hide Slice, DoSend, FileBytes, RecvFile, WriteOk;
    match step
    case Send(io, fio) => DoSendMoves(j, y.a, io, fio);
    case Recv(k, env) =>
      var b := y.b.(received := y.b.received + y.wire[..k]);
      StarvedWrite(b, env, |Slice(j)|, Coming(j, y) - |b.received|);
    case Cut =>
    case Hang(k) =>
    case Lose(k) =>
  }

  /** Main theorem on failing writes: whatever happens after the first write that failed, the receiver never
      completes its file and never reports on it, and it does not close by itself. */
  lemma {:induction false} StarvedForever(j: Job, y: Sys, steps: seq<Step>, continueFlag: bool)
    requires JobOk(j) && Starved(j, y) && AllowedRun(j, y, steps, continueFlag)
    ensures var y' := Run(j, y, steps, continueFlag);
            && Starved(j, y') && y'.b.recvOver == y.b.recvOver && !Accepted(y'.b)
            && (y'.bClosed ==> y.bClosed || exists i :: 0 <= i < |steps| && steps[i].Hang?)
    decreases |steps|
  {
    if steps != [] {
      hide Allowed, Apply, Starved;
      StarvedStep(j, y, steps[0], continueFlag);
      StarvedForever(j, Apply(j, y, steps[0], continueFlag), steps[1..], continueFlag);
    }
    assert !Accepted(Run(j, y, steps, continueFlag).b);
  }

  // ----- transfers that are continued

  /** One attempt at a file: the job that the request named, and what happened until the receiver closed. */
  datatype Attempt = Attempt(j: Job, start: Sys, steps: seq<Step>)

  ghost predicate Attempted(t: Attempt, continueFlag: bool) {
    && JobOk(t.j) && Inv(t.j, t.start, continueFlag)
    && t.start.b.written == [] && t.start.b.recvtask.Some?
    && AllowedRun(t.j, t.start, t.steps, continueFlag)
    && forall i :: 0 <= i < |t.steps| ==> Writes(t.steps[i])
  }

  ghost function End(t: Attempt, continueFlag: bool): Sys
    requires Attempted(t, continueFlag)
  {
    Run(t.j, t.start, t.steps, continueFlag)
  }

  /** The receiver closed without completing its task. */
  ghost predicate Aborted(t: Attempt, continueFlag: bool)
    requires Attempted(t, continueFlag)
  {
    var y := End(t, continueFlag);
    y.bClosed && y.b.recvtask.Some? && IsBase(y.b.recvtask.value.base)
  }

  /** Attempts at one file: each but the last was aborted, and the next asks for the rest, from the offset with
      which the task was queued again, or for the whole file when transfers are not continued. */
  ghost predicate Chain(ts: seq<Attempt>, continueFlag: bool) {
    && (forall i :: 0 <= i < |ts| ==> Attempted(ts[i], continueFlag))
    && (|ts| > 0 ==> Offsize(ts[0].j.base) == 0)
    && forall i :: 0 < i < |ts| ==> Next(ts[i - 1], ts[i], continueFlag)
  }

  ghost predicate Next(t: Attempt, u: Attempt, continueFlag: bool)
    requires Attempted(t, continueFlag) && Attempted(u, continueFlag)
  {
    && Aborted(t, continueFlag)
    && u.j.source == t.j.source && Fsize(u.j.base) == Fsize(t.j.base)
    && (if continueFlag then Requeued(End(t, continueFlag).b, continueFlag) == Some(Offsize(u.j.base))
        else Offsize(u.j.base) == 0)
  }

  /** The temporary file after the attempts: appended to when transfers are continued, and otherwise removed
      after an attempt that was aborted. */
  ghost function TmpFile(ts: seq<Attempt>, continueFlag: bool): seq<byte>
    requires Chain(ts, continueFlag)
  {
    if ts == [] then []
    else
      (if continueFlag then TmpFile(ts[..|ts| - 1], continueFlag) else []) + End(ts[|ts| - 1], continueFlag).b.written
  }

  /** The offset for the next attempt is the old one and what was written. */
  lemma RequeuedOffset(t: Attempt, continueFlag: bool)
    requires Attempted(t, continueFlag) && Aborted(t, continueFlag) && continueFlag
    ensures Requeued(End(t, continueFlag).b, true) == Some(Offsize(t.j.base) + |End(t, continueFlag).b.written|)
  {
    RunKeepsInv(t.j, t.start, t.steps, continueFlag);
    hide Run, AllowedRun, Offsize, Fsize, InOrder, SenderOk;
  }

  lemma AttemptWrites(t: Attempt, continueFlag: bool)
    requires Attempted(t, continueFlag)
    ensures IsBase(t.j.base) && 0 <= Offsize(t.j.base) <= Fsize(t.j.base) <= |t.j.source|
    ensures var b := End(t, continueFlag).b;
            && b.written <= t.j.source[Offsize(t.j.base)..Fsize(t.j.base)]
            && (Accepted(b) ==> |b.written| == Fsize(t.j.base) - Offsize(t.j.base))
  {
    RunKeepsInv(t.j, t.start, t.steps, continueFlag);
    hide Run, AllowedRun, Offsize, Fsize, ReceiverOk, SenderOk, InOrder, Writes;
  }

  lemma Front(ts: seq<Attempt>, continueFlag: bool)
    requires Chain(ts, continueFlag) && |ts| > 1
    ensures Chain(ts[..|ts| - 1], continueFlag)
    ensures Next(ts[|ts| - 2], ts[|ts| - 1], continueFlag)
  {
    hide Attempted, Next, Offsize;
  }

  /** After a failed write the task is queued again at an offset before the end of what was written: the
      next attempt would append bytes that are already there. */
  lemma StarvedOffset(j: Job, y: Sys)
    requires JobOk(j) && Starved(j, y) && Offsize(y.b.recvtask.value.base) >= 0
    ensures Requeued(y.b, true).value < Offsize(y.b.recvtask.value.base) + |y.b.written|
  {
    var o, n := Offsize(y.b.recvtask.value.base), y.b.recvtask.value.lastlen;
    hide Offsize, Fsize, FileBytes, SenderOk;
    assert -TWO63 <= o + n;
    if o + n < TWO63 {
      assert Wrap64(o + n) == o + n;
    } else {
      assert Wrap64(o + n) < TWO63;
    }
  }

  /** Main theorem on continued transfers: after any number of aborted attempts the temporary file holds the
      beginning of the source, and a file that is accepted in the end is the whole of it. */
  lemma {:induction false} Continued(ts: seq<Attempt>, continueFlag: bool)
    requires Chain(ts, continueFlag) && ts != []
    ensures var t := ts[|ts| - 1];
            var b := End(t, continueFlag).b;
            && 0 <= Offsize(t.j.base) && Offsize(t.j.base) + |b.written| <= Fsize(t.j.base) <= |t.j.source|
            && TmpFile(ts, continueFlag) == t.j.source[..Offsize(t.j.base) + |b.written|]
            && (Accepted(b) ==> TmpFile(ts, continueFlag) == t.j.source[..Fsize(t.j.base)])
    decreases |ts|
  {
    hide Attempted, End, Offsize, Fsize, Requeued;
    var t := ts[|ts| - 1];
    AttemptWrites(t, continueFlag);
    var front := ts[..|ts| - 1];
    if |ts| > 1 {
      var u := ts[|ts| - 2];
      assert u == front[|front| - 1];
      Front(ts, continueFlag);
      Continued(front, continueFlag);
      if continueFlag {
        RequeuedOffset(u, continueFlag);
      }
    }
    Joined(t.j.source, Offsize(t.j.base), Fsize(t.j.base), End(t, continueFlag).b.written);
  }

  lemma Joined(source: seq<byte>, off: nat, size: nat, written: seq<byte>)
    requires off <= size <= |source| && written <= source[off..size]
    ensures source[..off] + written == source[..off + |written|]
  {
    assert written == source[off..off + |written|];
  }
}
