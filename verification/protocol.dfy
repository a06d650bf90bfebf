/**
 The signalling frames of lib/protocol.c: a four-byte head (body length in network byte order, command,
 status) and a body, parsed from whatever bytes have arrived so far. Their number is passed as an int.
 */
module Protocol {
  import opened Bytes
  import opened MachineInts

  const HEAD_SIZE := 4
  const MAX_BODY := 4096

  datatype Msg = Msg(cmdid: byte, status: byte, body: seq<byte>)

  /** The results of parse_sig_msg: more bytes are needed for the head or for the body, the packet is bad
      and the connection must be closed, or the message. */
  datatype Parsed = HeadLen | TotalLen | ErrClose | Ok(msg: Msg)

  function Head(bodylen: nat, cmdid: byte, status: byte): seq<byte>
    requires bodylen < 0x1_0000
  {
    [bodylen / 256, bodylen % 256, cmdid, status]
  }

  /** The frame of a message; the body length is a 16-bit field. */
  function Frame(m: Msg): seq<byte>
    requires |m.body| < 0x1_0000
  {
    Head(|m.body|, m.cmdid, m.status) + m.body
  }

  function BodyLen(s: seq<byte>): nat
    requires |s| >= HEAD_SIZE
  {
    s[0] as nat * 256 + s[1] as nat
  }

  function Parse(s: seq<byte>): Parsed {
    if |s| < HEAD_SIZE then HeadLen
    else if BodyLen(s) >= MAX_BODY then ErrClose
    else if |s| < HEAD_SIZE + BodyLen(s) then TotalLen
    else Ok(Msg(s[2], s[3], s[HEAD_SIZE..HEAD_SIZE + BodyLen(s)]))
  }

  /** parse_sig_msg: what it makes of the number of bytes it is told. */
  function ParseLen(s: seq<byte>, slen: int): Parsed
    requires slen <= |s|
  {
    if slen < HEAD_SIZE then HeadLen
    else if BodyLen(s) >= MAX_BODY then ErrClose
    else if slen < HEAD_SIZE + BodyLen(s) then TotalLen
    else Ok(Msg(s[2], s[3], s[HEAD_SIZE..HEAD_SIZE + BodyLen(s)]))
  }

  /** What a caller makes of the bytes it holds: it passes their number as an int. */
  function ParseHeld(s: seq<byte>): Parsed {
    ParseLen(s, Wrap32(|s|))
  }

  /** Fewer than 2^31 bytes are parsed as they are, and up to 2^32 none. In any case only the beginning is looked
      at. */
  lemma ParseHeldIs(s: seq<byte>)
    ensures |s| < TWO31 ==> ParseHeld(s) == Parse(s)
    ensures TWO31 <= |s| < 2 * TWO31 ==> ParseHeld(s) == HeadLen
    ensures ParseHeld(s).Ok? || ParseHeld(s).ErrClose? ==> Parse(s) == ParseHeld(s)
    ensures Wrap32(|s|) <= |s|
    ensures ParseHeld(s).Ok? ==> HEAD_SIZE + |ParseHeld(s).msg.body| <= Wrap32(|s|)
  {
    Wrap32Below(|s|);
  }

  // ----- the functions as written

  /** Writes the frame of a message into the buffer o and returns its length. */
  method CreateSigMsg(cmdid: byte, status: byte, body: seq<byte>, o: array<byte>) returns (n: nat)
    requires |body| < 0x1_0000 && HEAD_SIZE + |body| <= o.Length
    modifies o
    ensures n == HEAD_SIZE + |body| && o[..n] == Frame(Msg(cmdid, status, body))
  {
    var p := 0;
    o[p], o[p + 1], o[p + 2], o[p + 3] := |body| / 256, |body| % 256, cmdid, status;
    p := p + HEAD_SIZE;
    if |body| == 0 {
      return HEAD_SIZE;
    }
    forall i | 0 <= i < |body| {
      o[p + i] := body[i];
    }
    p := p + |body|;
    n := p;
  }

  /** Parses the bytes received so far; the head and the body are copied out. */
  method ParseSigMsg(s: seq<byte>, slen: int32) returns (ret: Parsed)
    requires slen <= |s|
    ensures ret == ParseLen(s, slen)
  {
    if slen < HEAD_SIZE {
      return HeadLen;
    }
    var bodylen := s[0] as nat * 256 + s[1] as nat;
    if bodylen >= MAX_BODY {
      return ErrClose;
    }
    if slen < HEAD_SIZE + bodylen {
      return TotalLen;
    }
    if slen == HEAD_SIZE {
      return Ok(Msg(s[2], s[3], []));
    }
    ret := Ok(Msg(s[2], s[3], s[HEAD_SIZE..HEAD_SIZE + bodylen]));
  }

  // ----- one frame

  /** A frame is parsed back exactly when its body is shorter than the maximum; what follows it does not
      matter. Longer bodies make the receiver close. */
  lemma ParseFrame(m: Msg, rest: seq<byte>)
    requires |m.body| < 0x1_0000
    ensures Parse(Frame(m) + rest) == if |m.body| < MAX_BODY then Ok(m) else ErrClose
  {
    var s := Frame(m) + rest;
    var n := |m.body|;
    assert s[0] == n / 256 && s[1] == n % 256;
    assert BodyLen(s) == n;
    assert s[HEAD_SIZE..HEAD_SIZE + n] == m.body;
  }

  /** A frame is the body's length, high-order byte first, the command, the status and the body; from 4096 bytes on
      the body is refused. */
  lemma NetworkOrder(high: byte, low: byte, cmdid: byte, status: byte, body: seq<byte>, rest: seq<byte>)
    requires |body| == 256 * high as nat + low as nat
    ensures Frame(Msg(cmdid, status, body)) == [high, low, cmdid, status] + body
    ensures Parse([high, low, cmdid, status] + body + rest)
         == if |body| < 4096 then Ok(Msg(cmdid, status, body)) else ErrClose
  {
    ParseFrame(Msg(cmdid, status, body), rest);
  }

  /** No proper prefix of a frame is taken for a message. */
  lemma ParsePrefix(m: Msg, k: nat)
    requires |m.body| < MAX_BODY && k < |Frame(m)|
    ensures Parse(Frame(m)[..k]) == if k < HEAD_SIZE then HeadLen else TotalLen
  {
    var n := |m.body|;
    var s := Frame(m)[..k];
    if k >= HEAD_SIZE {
      assert s[0] == n / 256 && s[1] == n % 256;
      assert BodyLen(s) == n;
    }
  }

  /** Bytes that arrive later do not change a message or an error. */
  lemma ParseMore(s: seq<byte>, b: seq<byte>)
    ensures Parse(s).Ok? || Parse(s).ErrClose? ==> Parse(s + b) == Parse(s)
  {
    if |s| >= HEAD_SIZE {
      assert BodyLen(s + b) == BodyLen(s);
      if Parse(s).Ok? {
        assert (s + b)[HEAD_SIZE..HEAD_SIZE + BodyLen(s)] == s[HEAD_SIZE..HEAD_SIZE + BodyLen(s)];
      }
    }
  }

  // ----- streams of frames

  /** Repeatedly parse and consume: the messages, the bytes left over, and whether to close. */
  datatype Decoded = Decoded(msgs: seq<Msg>, rest: seq<byte>, close: bool)

  function Decode(s: seq<byte>): (d: Decoded)
    decreases |s|
  {
    match Parse(s)
    case Ok(m) =>
      var d := Decode(s[HEAD_SIZE + |m.body|..]);
      d.(msgs := [m] + d.msgs)
    case ErrClose => Decoded([], s, true)
    case _ => Decoded([], s, false)
  }

  function Frames(ms: seq<Msg>): seq<byte>
    requires forall i :: 0 <= i < |ms| ==> |ms[i].body| < MAX_BODY
  {
    if ms == [] then [] else Frame(ms[0]) + Frames(ms[1..])
  }

  lemma {:induction false} DecodeMore(s: seq<byte>, b: seq<byte>)
    ensures var d := Decode(s);
            Decode(s + b) ==
            if d.close then d.(rest := d.rest + b)
            else var e := Decode(d.rest + b); e.(msgs := d.msgs + e.msgs)
    decreases |s|
  {
    ParseMore(s, b);
    DecodeStep(s);
    hide Decode;
    if Parse(s).Ok? {
      var m := Parse(s).msg;
      var t := s[HEAD_SIZE + |m.body|..];
      assert (s + b)[HEAD_SIZE + |m.body|..] == t + b;
      DecodeStep(s + b);
      hide Parse;
      DecodeMore(t, b);
      if !Decode(t).close {
        Regroup(m, Decode(t).msgs, Decode(Decode(t).rest + b).msgs);
      }
    } else if Parse(s).ErrClose? {
      DecodeStep(s + b);
    } else {
      assert [] + Decode(s + b).msgs == Decode(s + b).msgs;
    }
  }

  lemma Regroup(m: Msg, a: seq<Msg>, b: seq<Msg>)
    ensures [m] + (a + b) == ([m] + a) + b
  {
  }

  lemma DecodeStep(s: seq<byte>)
    ensures match Parse(s)
            case Ok(m) => var d := Decode(s[HEAD_SIZE + |m.body|..]); Decode(s) == d.(msgs := [m] + d.msgs)
            case ErrClose => Decode(s) == Decoded([], s, true)
            case _ => Decode(s) == Decoded([], s, false)
  {
  }

  /** The same as a receiver does it, which passes the number of bytes it holds as an int. */
  function Drained(s: seq<byte>): (d: Decoded)
    decreases |s|
  {
    match ParseHeld(s)
    case Ok(m) =>
      ParseHeldIs(s);
      var d := Drained(s[HEAD_SIZE + |m.body|..]);
      d.(msgs := [m] + d.msgs)
    case ErrClose => Decoded([], s, true)
    case _ => Decoded([], s, false)
  }

  lemma {:induction false} DrainedShort(s: seq<byte>)
    requires |s| < TWO31
    ensures Drained(s) == Decode(s)
    decreases |s|
  {
    ParseHeldIs(s);
    if Parse(s).Ok? {
      hide Parse, ParseHeld;
      DrainedShort(s[HEAD_SIZE + |Parse(s).msg.body|..]);
    }
  }

  /** From 2^31 bytes on, draining never gets below that number. */
  lemma {:induction false} DrainedLong(s: seq<byte>)
    requires |s| >= TWO31
    ensures |Drained(s).rest| >= TWO31
    decreases |s|
  {
    ParseHeldIs(s);
    Wrap32Below(|s|);
    if ParseHeld(s).Ok? {
      hide ParseHeld;
      DrainedLong(s[HEAD_SIZE + |ParseHeld(s).msg.body|..]);
    }
  }

  /** What is left over after decoding is shorter than a frame. */
  lemma {:induction false} LeftOver(s: seq<byte>)
    ensures !Decode(s).close ==> |Decode(s).rest| < HEAD_SIZE + MAX_BODY - 1
    decreases |s|
  {
    if Parse(s).Ok? {
      LeftOver(s[HEAD_SIZE + |Parse(s).msg.body|..]);
    }
  }

  /** A stream that does not make the receiver close is drained if and only if fewer than 2^31 bytes are held. */
  lemma DrainedExact(s: seq<byte>)
    requires !Decode(s).close
    ensures Drained(s) == Decode(s) <==> |s| < TWO31
  {
    if |s| < TWO31 {
      DrainedShort(s);
    } else {
      DrainedLong(s);
      LeftOver(s);
    }
  }

  /** The chunks arrive one by one, and after each the complete messages are taken. */
  function DecodeChunks(buf: seq<byte>, chunks: seq<seq<byte>>): Decoded
    decreases |chunks|
  {
    if chunks == [] then Decoded([], buf, false)
    else
      var d := Drained(buf + chunks[0]);
      if d.close then d.(rest := d.rest + Flatten(chunks[1..]))
      else
        var e := DecodeChunks(d.rest, chunks[1..]);
        e.(msgs := d.msgs + e.msgs)
  }

  /** Room for what is left over and one more chunk, within the range of an int. */
  const MAX_CHUNK := TWO31 - HEAD_SIZE - MAX_BODY

  predicate ChunksOk(chunks: seq<seq<byte>>) {
    forall i :: 0 <= i < |chunks| ==> |chunks[i]| <= MAX_CHUNK
  }

  /** Decoding does not depend on how the stream is cut. */
  lemma {:induction false} ChunksDecodeAlike(buf: seq<byte>, chunks: seq<seq<byte>>)
    requires Decode(buf) == Decoded([], buf, false) && ChunksOk(chunks)
    ensures DecodeChunks(buf, chunks) == Decode(buf + Flatten(chunks))
    decreases |chunks|
  {
    if chunks == [] {
      assert buf + [] == buf;
    } else {
      var tail := Flatten(chunks[1..]);
      assert buf + Flatten(chunks) == (buf + chunks[0]) + tail;
      LeftOver(buf);
      DrainedShort(buf + chunks[0]);
      DecodeMore(buf + chunks[0], tail);
      var d := Decode(buf + chunks[0]);
      if !d.close {
        DecodeRest(buf + chunks[0]);
        ChunksDecodeAlike(d.rest, chunks[1..]);
      }
    }
  }

  /** What is left over after decoding holds no complete message. */
  lemma {:induction false} DecodeRest(s: seq<byte>)
    requires !Decode(s).close
    ensures Decode(Decode(s).rest) == Decoded([], Decode(s).rest, false)
    decreases |s|
  {
    if Parse(s).Ok? {
      DecodeRest(s[HEAD_SIZE + |Parse(s).msg.body|..]);
    }
  }

  lemma DecodeFrame(m: Msg, tail: seq<byte>)
    requires |m.body| < MAX_BODY
    ensures var d := Decode(tail); Decode(Frame(m) + tail) == d.(msgs := [m] + d.msgs)
  {
    ParseFrame(m, tail);
    assert (Frame(m) + tail)[HEAD_SIZE + |m.body|..] == tail;
  }

  lemma {:induction false} DecodeFrames(ms: seq<Msg>, rest: seq<byte>)
    requires forall i :: 0 <= i < |ms| ==> |ms[i].body| < MAX_BODY
    ensures var d := Decode(rest); Decode(Frames(ms) + rest) == d.(msgs := ms + d.msgs)
  {
    hide Decode, Frame;
    var d := Decode(rest);
    if ms == [] {
      assert Frames(ms) + rest == rest;
      assert ms + d.msgs == d.msgs;
    } else {
      var tail := Frames(ms[1..]) + rest;
      assert Frames(ms) + rest == Frame(ms[0]) + tail;
      DecodeFrame(ms[0], tail);
      DecodeFrames(ms[1..], rest);
      assert [ms[0]] + (ms[1..] + d.msgs) == ms + d.msgs;
    }
  }

  /** Main theorem: messages with bodies shorter than the maximum, sent as frames and delivered in any
      pieces, come out in order and completely, with nothing left over. */
  lemma StreamRoundTrip(ms: seq<Msg>, chunks: seq<seq<byte>>)
    requires forall i :: 0 <= i < |ms| ==> |ms[i].body| < MAX_BODY
    requires Flatten(chunks) == Frames(ms) && ChunksOk(chunks)
    ensures DecodeChunks([], chunks) == Decoded(ms, [], false)
  {
    ChunksDecodeAlike([], chunks);
    DecodeFrames(ms, []);
    assert [] + Frames(ms) == Frames(ms) + [] == Frames(ms);
    assert ms + [] == ms;
  }

  /** While the stream is incomplete, what has come out is a prefix of what was sent. */
  lemma PrefixRoundTrip(ms: seq<Msg>, part: seq<byte>, missing: seq<byte>)
    requires forall i :: 0 <= i < |ms| ==> |ms[i].body| < MAX_BODY
    requires part + missing == Frames(ms)
    ensures Decode(part).msgs <= ms && !Decode(part).close
  {
    DecodeMore(part, missing);
    DecodeFrames(ms, []);
    assert Frames(ms) + [] == Frames(ms);
    assert ms + [] == ms;
  }
}
