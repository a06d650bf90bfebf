/**
 One end of a file transfer, as a machine over values: the peer's fields, its two connection buffers and
 its current task. The results of send, sendfile, recv, write and of opening and checking files are
 parameters. The class in transfer.dfy updates its fields in place and is proved to take these steps.
 */
module TransferSpec {
  import opened Bytes
  import opened Protocol
  import opened MachineInts

  datatype Option<+T> = None | Some(value: T)

  const CMD_GET_FILE_REQ: byte := 0x11
  const CMD_GET_FILE_RSP: byte := 0x12
  const FILE_SYNC_DST_2_SRC: byte := 0x81
  const E_OPENFILE: byte := 0x86
  const E_MALLOC: byte := 0x87
  const GSIZE := 1073741824

  function LittleEndian(s: seq<byte>): nat {
    if s == [] then 0 else s[0] as nat + 256 * LittleEndian(s[1..])
  }

  // ----- the image of t_task_base that travels as the body

  const BASE_SIZE := 888
  const MD5_AT := 768
  const MD5_SIZE := 33
  const OFFSIZE_AT := 824
  const FSIZE_AT := 864
  const RETRY_AT := 874

  predicate IsBase(b: seq<byte>) {
    |b| == BASE_SIZE
  }

  function Int64At(b: seq<byte>, at: nat): int
    requires at + 8 <= |b|
  {
    Wrap64(LittleEndian(b[at..at + 8]))
  }

  function Offsize(b: seq<byte>): int
    requires IsBase(b)
  {
    Int64At(b, OFFSIZE_AT)
  }

  function Fsize(b: seq<byte>): int
    requires IsBase(b)
  {
    Int64At(b, FSIZE_AT)
  }

  function Md5(b: seq<byte>): seq<byte>
    requires IsBase(b)
  {
    var f := b[MD5_AT..MD5_AT + MD5_SIZE];
    f[..StrLen(f)]
  }

  function ZeroOffsize(b: seq<byte>): (r: seq<byte>)
    requires IsBase(b)
    ensures IsBase(r)
  {
    b[..OFFSIZE_AT] + [0, 0, 0, 0, 0, 0, 0, 0] + b[OFFSIZE_AT + 8..]
  }

  lemma ZeroOffsizeIsZero(b: seq<byte>)
    requires IsBase(b)
    ensures Offsize(ZeroOffsize(b)) == 0 && Fsize(ZeroOffsize(b)) == Fsize(b) && Md5(ZeroOffsize(b)) == Md5(b)
  {
    var r := ZeroOffsize(b);
    LittleEndianZero(8);
    assert r[OFFSIZE_AT..OFFSIZE_AT + 8] == Zeros(8);
    assert r[FSIZE_AT..FSIZE_AT + 8] == b[FSIZE_AT..FSIZE_AT + 8];
    assert r[MD5_AT..MD5_AT + MD5_SIZE] == b[MD5_AT..MD5_AT + MD5_SIZE];
  }

  lemma {:induction false} LittleEndianZero(n: nat)
    ensures LittleEndian(Zeros(n)) == 0
  {
    if n > 0 {
      assert Zeros(n)[1..] == Zeros(n - 1);
      LittleEndianZero(n - 1);
    }
  }

  /** An integer of the image is read low-order byte first and is negative if its highest bit is set. */
  lemma Int64Is(b: seq<byte>, at: nat)
    requires at + 8 <= |b|
    ensures var low: int := b[at] as int + 0x100 * b[at + 1] as int + 0x1_0000 * b[at + 2] as int
                            + 0x100_0000 * b[at + 3] as int;
            var high: int := b[at + 4] as int + 0x100 * b[at + 5] as int + 0x1_0000 * b[at + 6] as int
                             + 0x100_0000 * b[at + 7] as int;
            Int64At(b, at) == low + 0x1_0000_0000 * (if high < 0x8000_0000 then high else high - 0x1_0000_0000)
  {
    var f := b[at..at + 8];
    assert LittleEndian(f[8..]) == 0;
    LowFirst(f, 7);
    LowFirst(f, 6);
    LowFirst(f, 5);
    LowFirst(f, 4);
    LowFirst(f, 3);
    LowFirst(f, 2);
    LowFirst(f, 1);
    LowFirst(f, 0);
    assert f[0..] == f;
    hide LittleEndian;
  }

  lemma LowFirst(f: seq<byte>, i: nat)
    requires i < |f|
    ensures LittleEndian(f[i..]) == f[i] as nat + 256 * LittleEndian(f[i + 1..])
  {
    assert f[i..][1..] == f[i + 1..];
  }

  // ----- the peer

  datatype SockStat = LOGOUT | CONNECTED | LOGIN | IDLE | PREPARE_RECVFILE | RECVFILEING | SENDFILEING

  datatype Over = UNKNOWN | OK | E_MD5 | SEND_LEN | E_OPEN_SRCFILE | E_OPEN_DSTFILE

  /** The task of the receiving side: its base image, and the bytes to receive and received so far. */
  datatype RecvTask = RecvTask(base: seq<byte>, processlen: int, lastlen: int)

  /** The fields of a peer and its connection. data, open, off and left are the send buffer and the file
      range behind it; received is what recv_buff holds; written is what went into the local file. */
  datatype Peer = Peer(
    data: seq<byte>, open: bool, off: nat, left: nat,
    sendLen: int, headlen: nat, sendtask: Option<int>, sendOver: Over,
    stat: SockStat,
    received: seq<byte>, recvtask: Option<RecvTask>, recvOver: Over, written: seq<byte>)

  /** The result of a send or sendfile: bytes moved, EAGAIN, or an error. */
  datatype Io = Moved(n: nat) | Again | Failed

  datatype Event = CLOSE | EPOLLIN | EPOLLOUT

  /** The settings and the results of the operations on local files that one event meets. stat is the base
      image after get_localfile_stat, written the result of write. */
  datatype Env = Env(continueFlag: bool, calcuMd5: bool, stat: Option<seq<byte>>, taskOk: bool,
                     openSrcOk: bool, openDstOk: bool, write: int, md5Ok: bool, proxied: bool)

  // ----- sending

  function Min(a: int, b: int): int {
    if a < b then a else b
  }

  predicate IoOk(io: Io, max: nat) {
    io.Moved? ==> 1 <= io.n <= max && io.n < TWO31
  }

  function SendData(p: Peer, io: Io): (Event, Peer, seq<byte>)
    requires IoOk(io, |p.data|)
  {
    if p.data == [] then (EPOLLIN, p, [])
    else
      match io
      case Moved(n) =>
        (if n < |p.data| then EPOLLOUT else EPOLLIN,
         p.(data := p.data[n..], sendLen := Wrap32(p.sendLen + n)), p.data[..n])
      case Again => (EPOLLOUT, p, [])
      case Failed => (CLOSE, p, [])
  }

  /** The file range as a slice of the source. */
  predicate RangeOk(p: Peer, source: seq<byte>) {
    p.open ==> p.off + p.left <= |source|
  }

  function FileBytes(p: Peer, source: seq<byte>): (r: seq<byte>)
    requires RangeOk(p, source)
    ensures |r| == if p.open then p.left else 0
  {
    if p.open then source[p.off..p.off + p.left] else []
  }

  function SkipFile(p: Peer, n: nat): Peer {
    if p.left <= n then p.(open := false, off := 0, left := 0)
    else p.(off := p.off + n, left := p.left - n)
  }

  function SendFile(p: Peer, source: seq<byte>, io: Io): (Event, Peer, seq<byte>)
    requires RangeOk(p, source) && IoOk(io, Min(p.left, GSIZE))
  {
    if !p.open || p.left == 0 then (EPOLLIN, p, [])
    else
      match io
      case Moved(n) =>
        (if n < p.left then EPOLLOUT else EPOLLIN,
         SkipFile(p, n).(sendLen := Wrap32(p.sendLen + n)), source[p.off..p.off + n])
      case Again => (EPOLLOUT, p, [])
      case Failed => (CLOSE, p, [])
  }

  /** The buffers have run empty: the verdict on the task that was sent. */
  function SvcSend(p: Peer): (Event, Peer)
    requires p.stat == SENDFILEING ==> p.sendtask.Some?
  {
    if p.stat != SENDFILEING then (EPOLLIN, p)
    else if p.sendLen >= p.headlen + p.sendtask.value then
      (EPOLLIN, p.(stat := IDLE, sendOver := OK, sendtask := None))
    else
      (CLOSE, p.(stat := IDLE, sendOver := SEND_LEN, sendtask := None))
  }

  /** do_send: buffered data goes before the file range; the bytes that left are returned. */
  function DoSend(p: Peer, source: seq<byte>, io: Io, fio: Io): (Event, Peer, seq<byte>)
    requires p.stat == SENDFILEING ==> p.sendtask.Some?
    requires RangeOk(p, source) && IoOk(io, |p.data|) && IoOk(fio, Min(p.left, GSIZE))
  {
    var (e, q, out) := SendData(p, io);
    if e != EPOLLIN then (e, q, out)
    else
      var (e', q', out') := SendFile(q, source, fio);
      if e' != EPOLLIN then (e', q', out + out')
      else
        var (e'', q'') := SvcSend(q');
        (e'', q'', out + out')
  }

  /** The request is answered from the file's current attributes rather than from those it names. */
  predicate Restat(request: seq<byte>, env: Env)
    requires IsBase(request)
  {
    Fsize(request) == 0 || env.calcuMd5 || request[RETRY_AT] != 0
  }

  predicate EnvOk(env: Env) {
    env.stat.Some? ==> IsBase(env.stat.value)
  }

  /** The base image that the answer carries when the file can be sent. */
  function SentBase(request: seq<byte>, env: Env): (b: seq<byte>)
    requires IsBase(request) && EnvOk(env)
    ensures IsBase(b)
  {
    var base := if Restat(request, env) && env.stat.Some? then env.stat.value else request;
    if env.continueFlag then base else ZeroOffsize(base)
  }

  /** do_send_task: answers a request by the head, with the base image as body, and the file range. */
  function DoSendTask(p: Peer, request: seq<byte>, env: Env): (r: Peer)
    requires IsBase(request) && EnvOk(env)
  {
    if Restat(request, env) && env.stat == None then Answer(p, E_OPENFILE, request)
    else if !env.taskOk then
      Answer(p, E_MALLOC, if Restat(request, env) then env.stat.value else request)
    else
      var base := SentBase(request, env);
      if !env.openSrcOk then Answer(p, E_OPENFILE, base)
      else Sending(p, base)
  }

  /** The peer starts to send the slice that the base image names, behind the head. */
  function Sending(p: Peer, base: seq<byte>): Peer
    requires IsBase(base)
  {
    var processlen := Fsize(base) - Offsize(base);
    Answer(p, FILE_SYNC_DST_2_SRC, base).(
      sendtask := Some(processlen), sendOver := UNKNOWN, open := true,
      off := SizeT(Offsize(base)), left := SizeT(processlen), stat := SENDFILEING)
  }

  function Answer(p: Peer, status: byte, base: seq<byte>): Peer
    requires IsBase(base)
  {
    var frame := Frame(Msg(CMD_GET_FILE_RSP, status, base));
    p.(sendLen := 0, data := p.data + frame, headlen := |frame|)
  }

  // ----- receiving

  /** The receiver's base image once the head has arrived. */
  function RecvBase(base0: seq<byte>, base: seq<byte>, continueFlag: bool): (r: seq<byte>)
    requires IsBase(base0) && IsBase(base)
    ensures IsBase(r)
  {
    var b := if Md5(base0) != Md5(base) then base else base0;
    if continueFlag then b else ZeroOffsize(b)
  }

  /** do_recv_task: the answer to the receiver's request. */
  function DoRecvTask(p: Peer, status: byte, base: seq<byte>, env: Env): (Event, Peer)
    requires IsBase(base)
    requires p.stat == PREPARE_RECVFILE ==> p.recvtask.Some? && IsBase(p.recvtask.value.base)
  {
    if p.stat != PREPARE_RECVFILE then (CLOSE, p)
    else if status != FILE_SYNC_DST_2_SRC then
      (CLOSE, p.(stat := IDLE, recvOver := E_OPEN_SRCFILE, recvtask := None))
    else
      var t := p.recvtask.value;
      var b := RecvBase(t.base, base, env.continueFlag);
      var t' := t.(base := b, processlen := Fsize(base) - Offsize(b));
      if !env.openDstOk then (CLOSE, p.(recvOver := E_OPEN_DSTFILE, recvtask := None))
      else (EPOLLIN, p.(stat := RECVFILEING, recvtask := Some(t')))
  }

  datatype Checked = More | Done(e: Event)

  predicate TaskOk(p: Peer) {
    p.stat == PREPARE_RECVFILE ==> p.recvtask.Some? && IsBase(p.recvtask.value.base)
  }

  function DoReq(p: Peer, m: Msg, env: Env): (Event, Peer)
    requires TaskOk(p) && EnvOk(env)
  {
    if m.cmdid == CMD_GET_FILE_RSP then
      if !IsBase(m.body) then (CLOSE, p) else DoRecvTask(p, m.status, m.body, env)
    else if m.cmdid == CMD_GET_FILE_REQ then
      if !IsBase(m.body) then (CLOSE, p) else (EPOLLOUT, DoSendTask(p, m.body, env))
    else (CLOSE, p)
  }

  /** check_req: takes one complete message, if there is one. */
  function CheckReq(p: Peer, env: Env): (Checked, Peer)
    requires TaskOk(p) && EnvOk(env)
  {
    if p.received == [] then (More, p)
    else
      match ParseHeld(p.received)
      case HeadLen => (More, p)
      case TotalLen => (More, p)
      case ErrClose => (Done(CLOSE), p)
      case Ok(m) =>
        var (e, q) := DoReq(p, m, env);
        (Done(e), q.(received := Skip(p.received, HEAD_SIZE + |m.body|)))
  }

  /** The number of bytes offered to write: what is left of the file, taken as unsigned, and no more than
      the buffer holds. */
  function WriteLen(p: Peer): (n: nat)
    requires p.recvtask.Some?
    ensures n <= |p.received|
  {
    var t := p.recvtask.value;
    Min(|p.received|, SizeT(t.processlen - t.lastlen))
  }

  /** The write may take fewer bytes than offered; -1 is a failure. */
  predicate WriteOk(p: Peer, env: Env) {
    p.recvtask.Some? ==> -1 <= env.write <= WriteLen(p)
  }

  /** The bytes that write accepted leave the buffer. Its result is kept in an unsigned variable. */
  function TakeWritten(p: Peer, result: int): (q: Peer)
    requires p.recvtask.Some? && -1 <= result <= |p.received|
    ensures q.recvtask.Some?
  {
    var t := p.recvtask.value;
    p.(received := Skip(p.received, SizeT(result)),
       recvtask := Some(t.(lastlen := Wrap64(t.lastlen + SizeT(result)))),
       written := if result < 0 then p.written else p.written + p.received[..result])
  }

  /** One write of received bytes to the local file, and the check of the file once it is complete. A write
      that fails is not seen: it counts as 2^64 - 1 bytes. */
  function RecvFile(p: Peer, env: Env): (Event, Peer)
    requires WriteOk(p, env)
  {
    if p.recvtask == None then (CLOSE, p)
    else if p.received == [] then (EPOLLIN, p)
    else
      var q := TakeWritten(p, env.write);
      if q.recvtask.value.lastlen < q.recvtask.value.processlen then (EPOLLIN, q)
      else if !env.md5Ok then (CLOSE, q.(recvOver := E_MD5, recvtask := None))
      else (if env.proxied then CLOSE else EPOLLIN, q.(recvOver := OK, recvtask := None, stat := IDLE))
  }

  lemma SkipShorter(p: Peer, env: Env)
    requires TaskOk(p) && EnvOk(env)
    ensures CheckReq(p, env).0 == More ==> CheckReq(p, env).1 == p
    ensures CheckReq(p, env).0 == Done(EPOLLIN) ==>
              CheckReq(p, env).1.stat == RECVFILEING && |CheckReq(p, env).1.received| < |p.received|
  {
  }

  /** The results of the event fit what the peer meets. */
  predicate CanRecv(b: Peer, env: Env) {
    && TaskOk(b) && EnvOk(env)
    && (b.stat == RECVFILEING ==> WriteOk(b, env))
    && (b.stat != RECVFILEING && CheckReq(b, env).0 == Done(EPOLLIN) ==> WriteOk(CheckReq(b, env).1, env))
  }

  /** svc_recv: file bytes while a file is being received, otherwise messages, the first of which may
      start a file. */
  function SvcRecv(p: Peer, env: Env): (Event, Peer)
    requires TaskOk(p) && EnvOk(env)
    requires p.stat == RECVFILEING ==> WriteOk(p, env)
    requires p.stat != RECVFILEING && CheckReq(p, env).0 == Done(EPOLLIN) ==> WriteOk(CheckReq(p, env).1, env)
  {
    if p.stat == RECVFILEING then RecvFile(p, env)
    else
      var (c, q) := CheckReq(p, env);
      match c
      case More => (EPOLLIN, q)
      case Done(EPOLLIN) => RecvFile(q, env)
      case Done(e) => (e, q)
  }

  /** svc_finiconn: a peer that closes with a receiving task hands it back to be tried again. The offset to
      continue from is the old one and what was counted as received. */
  function Requeued(p: Peer, continueFlag: bool): Option<int>
    requires p.recvtask.Some? ==> IsBase(p.recvtask.value.base)
  {
    match p.recvtask
    case None => None
    case Some(t) => Some(if continueFlag then Wrap64(Offsize(t.base) + t.lastlen) else Offsize(t.base))
  }
}
