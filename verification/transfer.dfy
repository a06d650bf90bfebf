/**
 A peer of a file transfer as it is written: fields that the event handlers change, and the two buffers
 of the connection. Every handler is proved to take the step of the machine in transfer_spec.dfy.
 */
module Transfer {
  import opened Bytes
  import opened Protocol
  import opened MyBuff
  import opened MachineInts
  import TS = TransferSpec

  /** The buffer in which an answer is assembled. */
  const OBUF_SIZE := 2048

  class Conn {
    const sendBuff: Buff
    const recvBuff: Buff
    var sendLen: int
    var headlen: nat
    var sockStat: TS.SockStat
    var sendtask: TS.Option<int>
    var sendOver: TS.Over
    var recvtask: TS.Option<TS.RecvTask>
    var recvOver: TS.Over
    /** What was written to the local file. */
    var written: seq<byte>

    ghost predicate Valid()
      reads this, sendBuff, recvBuff, sendBuff.data, recvBuff.data
    {
      && sendBuff != recvBuff && sendBuff.Valid() && recvBuff.Valid()
      && (sendBuff.data != null ==> sendBuff.data != recvBuff.data)
    }

    ghost function Abs(): TS.Peer
      reads this, sendBuff, recvBuff, sendBuff.data, recvBuff.data
      requires Valid()
    {
      TS.Peer(sendBuff.Contents(), sendBuff.fd >= 0, sendBuff.foffset, sendBuff.flen,
              sendLen, headlen, sendtask, sendOver, sockStat,
              recvBuff.Contents(), recvtask, recvOver, written)
    }

    constructor (bufferSize: nat)
      requires bufferSize > 0
      ensures Valid() && fresh(sendBuff) && fresh(recvBuff)
      ensures sendBuff.data == null && recvBuff.data == null
      ensures Abs().data == [] && Abs().received == [] && Abs().stat == TS.CONNECTED && !Abs().open
    {
      sendBuff := new Buff(bufferSize);
      recvBuff := new Buff(bufferSize);
      sendLen, headlen, sockStat := 0, 0, TS.CONNECTED;
      sendtask, sendOver, recvtask, recvOver, written := TS.None, TS.UNKNOWN, TS.None, TS.UNKNOWN, [];
    }

    // ----- sending

    /** The event loop's send: buffered data first; once that is gone, the file range; once that is gone too,
        the verdict. Returns the bytes that left. */
    method DoSend(source: seq<byte>, io: TS.Io, fio: TS.Io) returns (e: TS.Event, out: seq<byte>)
      requires Valid() && (sockStat == TS.SENDFILEING ==> sendtask.Some?)
      requires TS.RangeOk(Abs(), source) && TS.IoOk(io, |Abs().data|) && TS.IoOk(fio, TS.Min(Abs().left, TS.GSIZE))
      modifies this, sendBuff, sendBuff.data
      ensures Valid()
      ensures (e, Abs(), out) == TS.DoSend(old(Abs()), source, io, fio)
    {
      e, out := SendData(io);
      if e == TS.EPOLLIN {
        var out';
        e, out' := SendFile(source, fio);
        out := out + out';
        if e == TS.EPOLLIN {
          e := SvcSend();
        }
      }
    }

    method SendData(io: TS.Io) returns (e: TS.Event, out: seq<byte>)
      requires Valid() && TS.IoOk(io, |Abs().data|)
      modifies this`sendLen, sendBuff, sendBuff.data
      ensures Valid() && sendBuff.data == old(sendBuff.data)
      ensures (e, Abs(), out) == TS.SendData(old(Abs()), io)
    {
      e, out := TS.EPOLLIN, [];
      var ok, data := sendBuff.GetData();
      if ok {
        match io
        case Moved(n) =>
          sendBuff.SkipData(n);
          assert Skip(data, n) == data[n..];
          if n < |data| {
            e := TS.EPOLLOUT;
          }
          sendLen := Wrap32(sendLen + n);
          out := data[..n];
        case Again =>
          e := TS.EPOLLOUT;
        case Failed =>
          e := TS.CLOSE;
      }
    }

    method SendFile(source: seq<byte>, fio: TS.Io) returns (e: TS.Event, out: seq<byte>)
      requires Valid() && TS.RangeOk(Abs(), source) && TS.IoOk(fio, TS.Min(Abs().left, TS.GSIZE))
      modifies this`sendLen, sendBuff
      ensures Valid() && sendBuff.data == old(sendBuff.data)
      ensures (e, Abs(), out) == TS.SendFile(old(Abs()), source, fio)
    {
      e, out := TS.EPOLLIN, [];
      var ok, localfd, start, l := sendBuff.GetFile();
      if ok {
        match fio
        case Moved(n) =>
          sendBuff.SkipFile(n);
          if n < l {
            e := TS.EPOLLOUT;
          }
          sendLen := Wrap32(sendLen + n);
          out := source[start..start + n];
        case Again =>
          e := TS.EPOLLOUT;
        case Failed =>
          e := TS.CLOSE;
      }
    }

    /** The buffers have run empty: the verdict on the task that was sent. */
    method SvcSend() returns (e: TS.Event)
      requires Valid() && (sockStat == TS.SENDFILEING ==> sendtask.Some?)
      modifies this`sockStat, this`sendOver, this`sendtask
      ensures Valid() && (e, Abs()) == TS.SvcSend(old(Abs()))
    {
      if sockStat == TS.SENDFILEING {
        if sendLen >= headlen + sendtask.value {
          sockStat, sendOver, sendtask := TS.IDLE, TS.OK, TS.None;
        } else {
          sendOver, sockStat, sendtask := TS.SEND_LEN, TS.IDLE, TS.None;
          return TS.CLOSE;
        }
      }
      e := TS.EPOLLIN;
    }

    /** Queues the answer to a request. */
    method Answer(status: byte, base: seq<byte>)
      requires Valid() && TS.IsBase(base)
      modifies this`sendLen, this`headlen, sendBuff, sendBuff.data
      ensures Valid() && Abs() == TS.Answer(old(Abs()), status, base)
      ensures sendBuff.data == old(sendBuff.data) || fresh(sendBuff.data)
    {
      sendLen := 0;
      var obuf := new byte[OBUF_SIZE];
      var n := CreateSigMsg(TS.CMD_GET_FILE_RSP, status, base, obuf);
      sendBuff.SetData(obuf[..n]);
      headlen := n;
    }

    /** Answers a request for a file: the head, and the file range if the file can be sent. */
    method DoSendTask(request: seq<byte>, env: TS.Env, lfd: nat)
      requires Valid() && TS.IsBase(request) && TS.EnvOk(env)
      modifies this, sendBuff, sendBuff.data
      ensures Valid() && Abs() == TS.DoSendTask(old(Abs()), request, env)
      ensures sendBuff.data == old(sendBuff.data) || fresh(sendBuff.data)
    {
      hide TS.Offsize, TS.Fsize, TS.ZeroOffsize, TS.Sending, TS.Answer;
      var base := request;
      if TS.Restat(request, env) {
        match env.stat
        case None =>
          Answer(TS.E_OPENFILE, base);
          return;
        case Some(b) =>
          base := b;
      }
      if !env.taskOk {
        Answer(TS.E_MALLOC, base);
        return;
      }
      if !env.continueFlag {
        base := TS.ZeroOffsize(base);
      }
      if !env.openSrcOk {
        Answer(TS.E_OPENFILE, base);
        return;
      }
      StartSending(base, lfd);
    }

    method StartSending(base: seq<byte>, lfd: nat)
      requires Valid() && TS.IsBase(base)
      modifies this, sendBuff, sendBuff.data
      ensures Valid() && Abs() == TS.Sending(old(Abs()), base)
      ensures sendBuff.data == old(sendBuff.data) || fresh(sendBuff.data)
    {
      hide TS.Offsize, TS.Fsize, SizeT, Frame;
      var processlen := TS.Fsize(base) - TS.Offsize(base);
      sendOver, sendtask := TS.UNKNOWN, TS.Some(processlen);
      sendBuff.SetFile(lfd, SizeT(TS.Offsize(base)), SizeT(processlen));
      sockStat := TS.SENDFILEING;
      Answer(TS.FILE_SYNC_DST_2_SRC, base);
    }

    // ----- receiving

    /** The answer to this peer's request has arrived. */
    method DoRecvTask(status: byte, base: seq<byte>, env: TS.Env) returns (e: TS.Event)
      requires Valid() && TS.IsBase(base) && TS.TaskOk(Abs())
      modifies this`sockStat, this`recvOver, this`recvtask
      ensures Valid() && (e, Abs()) == TS.DoRecvTask(old(Abs()), status, base, env)
    {
      hide TS.Offsize, TS.Fsize, TS.ZeroOffsize, TS.Md5;
      if sockStat != TS.PREPARE_RECVFILE {
        return TS.CLOSE;
      }
      if status != TS.FILE_SYNC_DST_2_SRC {
        sockStat, recvOver, recvtask := TS.IDLE, TS.E_OPEN_SRCFILE, TS.None;
        return TS.CLOSE;
      }
      var base0 := recvtask.value.base;
      if TS.Md5(base0) != TS.Md5(base) {
        base0 := base;
      }
      if !env.continueFlag {
        base0 := TS.ZeroOffsize(base0);
      }
      recvtask := TS.Some(recvtask.value.(base := base0, processlen := TS.Fsize(base) - TS.Offsize(base0)));
      if !env.openDstOk {
        recvOver, recvtask := TS.E_OPEN_DSTFILE, TS.None;
        return TS.CLOSE;
      }
      sockStat := TS.RECVFILEING;
      e := TS.EPOLLIN;
    }

    method DoReq(m: Msg, env: TS.Env, lfd: nat) returns (e: TS.Event)
      requires Valid() && TS.TaskOk(Abs()) && TS.EnvOk(env)
      modifies this, sendBuff, sendBuff.data
      ensures Valid() && (e, Abs()) == TS.DoReq(old(Abs()), m, env)
      ensures sendBuff.data == old(sendBuff.data) || fresh(sendBuff.data)
    {
      e := TS.CLOSE;
      if m.cmdid == TS.CMD_GET_FILE_RSP {
        if |m.body| == TS.BASE_SIZE {
          e := DoRecvTask(m.status, m.body, env);
        }
      } else if m.cmdid == TS.CMD_GET_FILE_REQ {
        if |m.body| == TS.BASE_SIZE {
          DoSendTask(m.body, env, lfd);
          e := TS.EPOLLOUT;
        }
      }
    }

    /** Takes one complete message from the buffer, if there is one. */
    method CheckReq(env: TS.Env, lfd: nat) returns (c: TS.Checked)
      requires Valid() && TS.TaskOk(Abs()) && TS.EnvOk(env)
      modifies this, sendBuff, sendBuff.data, recvBuff, recvBuff.data
      ensures Valid() && (c, Abs()) == TS.CheckReq(old(Abs()), env)
      ensures sendBuff.data == old(sendBuff.data) || fresh(sendBuff.data)
      ensures recvBuff.data == old(recvBuff.data)
    {
      hide TS.DoReq, ParseLen, Wrap32;
      var ok, data := recvBuff.GetData();
      if !ok {
        return TS.More;
      }
      ParseHeldIs(data);
      var ret := ParseSigMsg(data, Wrap32(|data|));
      match ret
      case HeadLen => c := TS.More;
      case TotalLen => c := TS.More;
      case ErrClose => c := TS.Done(TS.CLOSE);
      case Ok(m) =>
        var e := Consume(m, env, lfd);
        c := TS.Done(e);
    }

    /** Handles a message and takes it out of the buffer. */
    method Consume(m: Msg, env: TS.Env, lfd: nat) returns (e: TS.Event)
      requires Valid() && TS.TaskOk(Abs()) && TS.EnvOk(env)
      modifies this, sendBuff, sendBuff.data, recvBuff, recvBuff.data
      ensures Valid() && e == TS.DoReq(old(Abs()), m, env).0
      ensures Abs() == TS.DoReq(old(Abs()), m, env).1.(received := Skip(old(Abs()).received, HEAD_SIZE + |m.body|))
      ensures sendBuff.data == old(sendBuff.data) || fresh(sendBuff.data)
      ensures recvBuff.data == old(recvBuff.data)
    {
      hide TS.DoReq, TS.TaskOk, Skip;
      e := DoReq(m, env, lfd);
      recvBuff.SkipData(HEAD_SIZE + |m.body|);
    }

    /** Writes received bytes to the local file, and checks the file once it is complete. */
    method RecvFile(env: TS.Env) returns (e: TS.Event)
      requires Valid() && TS.WriteOk(Abs(), env)
      modifies this, recvBuff, recvBuff.data
      ensures Valid() && (e, Abs()) == TS.RecvFile(old(Abs()), env)
      ensures recvBuff.data == old(recvBuff.data)
    {
      hide TS.TakeWritten, TS.WriteLen;
      if recvtask == TS.None {
        return TS.CLOSE;
      }
      var ok, data := recvBuff.GetData();
      if !ok {
        return TS.EPOLLIN;
      }
      WriteOut(data, env.write);
      if recvtask.value.lastlen < recvtask.value.processlen {
        return TS.EPOLLIN;
      }
      if !env.md5Ok {
        recvOver, recvtask := TS.E_MD5, TS.None;
        return TS.CLOSE;
      }
      recvOver, recvtask, sockStat := TS.OK, TS.None, TS.IDLE;
      e := if env.proxied then TS.CLOSE else TS.EPOLLIN;
    }

    /** Takes the bytes that write accepted out of the buffer; its result is unsigned. */
    method WriteOut(data: seq<byte>, result: int)
      requires Valid() && recvtask.Some? && data == Abs().received && -1 <= result <= |data|
      modifies this`written, this`recvtask, recvBuff, recvBuff.data
      ensures Valid() && recvBuff.data == old(recvBuff.data)
      ensures Abs() == TS.TakeWritten(old(Abs()), result)
    {
      hide SizeT, Skip;
      var n := SizeT(result);
      recvBuff.SkipData(n);
      if result >= 0 {
        written := written + data[..result];
      }
      recvtask := TS.Some(recvtask.value.(lastlen := Wrap64(recvtask.value.lastlen + n)));
    }

    /** The connection closes: a task that was being sent has failed, and one that was being received is
        handed back with the offset to continue from. */
    method SvcFiniconn(continueFlag: bool) returns (requeued: TS.Option<int>)
      requires Valid() && (recvtask.Some? ==> TS.IsBase(recvtask.value.base))
      modifies this
      ensures Valid() && requeued == TS.Requeued(old(Abs()), continueFlag)
      ensures Abs() == old(Abs()).(stat := TS.LOGOUT, sendtask := TS.None, recvtask := TS.None,
                                   sendOver := if old(sendtask).Some? then TS.SEND_LEN else old(sendOver))
    {
      hide TS.Offsize;
      if sendtask.Some? {
        sendOver := TS.SEND_LEN;
      }
      requeued := TS.None;
      if recvtask.Some? {
        var offsize := TS.Offsize(recvtask.value.base);
        if continueFlag {
          offsize := Wrap64(offsize + recvtask.value.lastlen);
        }
        requeued := TS.Some(offsize);
      }
      sockStat, sendtask, recvtask := TS.LOGOUT, TS.None, TS.None;
    }

    /** The handler for received bytes. A message that makes check_req ask for more input has started a file,
        so that the handler goes on with the file's bytes. */
    method SvcRecv(env: TS.Env, lfd: nat) returns (e: TS.Event)
      requires Valid() && TS.TaskOk(Abs()) && TS.EnvOk(env)
      requires sockStat == TS.RECVFILEING ==> TS.WriteOk(Abs(), env)
      requires sockStat != TS.RECVFILEING && TS.CheckReq(Abs(), env).0 == TS.Done(TS.EPOLLIN) ==>
                 TS.WriteOk(TS.CheckReq(Abs(), env).1, env)
      modifies this, sendBuff, sendBuff.data, recvBuff, recvBuff.data
      ensures Valid() && (e, Abs()) == TS.SvcRecv(old(Abs()), env)
    {
      if sockStat != TS.RECVFILEING {
        TS.SkipShorter(Abs(), env);
        var c := CheckReq(env, lfd);
        if c == TS.More {
          return TS.EPOLLIN;
        }
        if c.e != TS.EPOLLIN {
          return c.e;
        }
        assert sockStat == TS.RECVFILEING;
      }
      e := RecvFile(env);
    }

    /** The event loop's receive: the bytes that have arrived are buffered and handled. */
    method DoRecv(b: seq<byte>, env: TS.Env, lfd: nat) returns (e: TS.Event)
      requires Valid() && TS.CanRecv(Abs().(received := Abs().received + b), env)
      modifies this, sendBuff, sendBuff.data, recvBuff, recvBuff.data
      ensures Valid() && (e, Abs()) == TS.SvcRecv(old(Abs()).(received := old(Abs()).received + b), env)
    {
      hide TS.SvcRecv, TS.CheckReq, TS.WriteOk, TS.TaskOk;
      recvBuff.SetData(b);
      e := SvcRecv(env, lfd);
    }
  }
}
