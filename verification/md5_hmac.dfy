/** HMAC with MD5: the functions of lib/md5.c against section 2 of RFC 2104. */
module MD5Hmac {
  import opened Bytes
  import opened Word32
  import opened MD5Spec
  import opened MD5Context

  const BLOCK := 64
  const IPAD: byte := 0x36
  const OPAD: byte := 0x5c

  function XorByte(x: byte, y: byte): byte {
    assert Pow2(8) == 256;
    BitXor(8, x, y)
  }

  function XorAll(s: seq<byte>, c: byte): (r: seq<byte>)
    ensures |r| == |s|
  {
    seq(|s|, i requires 0 <= i < |s| => XorByte(s[i], c))
  }

  /** The key, hashed if it is longer than a block, with zeros appended up to the block length. */
  function KeyBlock(key: seq<byte>): (k: seq<byte>)
    ensures |k| == BLOCK
  {
    var k := if |key| > BLOCK then MD5(key) else key;
    k + Zeros(BLOCK - |k|)
  }

  /** H(K XOR opad, H(K XOR ipad, text)) */
  function HMAC(key: seq<byte>, text: seq<byte>): seq<byte> {
    MD5(XorAll(KeyBlock(key), OPAD) + MD5(XorAll(KeyBlock(key), IPAD) + text))
  }

  /** The key, or its digest if it is longer than a block. */
  method ShortKey(password: seq<byte>) returns (key: seq<byte>)
    requires |password| < TWO32
    ensures key == if |password| > BLOCK then MD5(password) else password
  {
    hide *;
    key := password;
    if |password| > BLOCK {
      var ctx := new Context();
      ctx.Init();
      ctx.Update(password);
      NothingBefore(password);
      key := ctx.Final();
    }
  }

  /** The two pads of a key: memory cleared, the key copied in, every byte combined with the pad's. */
  method Pads(password: seq<byte>) returns (ipad: array<byte>, opad: array<byte>)
    requires |password| < TWO32
    ensures ipad.Length == opad.Length == BLOCK
    ensures ipad[..] == XorAll(KeyBlock(password), IPAD) && opad[..] == XorAll(KeyBlock(password), OPAD)
  {
    hide MD5, XorByte;
    var key := ShortKey(password);
    ipad := new byte[BLOCK](_ => 0);
    opad := new byte[BLOCK](_ => 0);
    forall i | 0 <= i < |key| {
      ipad[i] := key[i];
    }
    forall i | 0 <= i < |key| {
      opad[i] := key[i];
    }
    assert ipad[..] == opad[..] == KeyBlock(password);
    for i := 0 to BLOCK
      invariant forall j :: 0 <= j < i ==> ipad[j] == XorByte(KeyBlock(password)[j], IPAD)
      invariant forall j :: 0 <= j < i ==> opad[j] == XorByte(KeyBlock(password)[j], OPAD)
      invariant forall j :: i <= j < BLOCK ==> ipad[j] == opad[j] == KeyBlock(password)[j]
    {
      ipad[i] := XorByte(ipad[i], IPAD);
      opad[i] := XorByte(opad[i], OPAD);
    }
  }

  lemma NothingBefore(s: seq<byte>)
    ensures [] + s == s
  {
  }

  lemma SmallSizes()
    ensures 16 < BLOCK < TWO32
  {
  }

  lemma HmacIs(key: seq<byte>, text: seq<byte>)
    ensures HMAC(key, text) == MD5(XorAll(KeyBlock(key), OPAD) + MD5(XorAll(KeyBlock(key), IPAD) + text))
  {
  }

  method MD5HMAC(password: seq<byte>, challenge: seq<byte>) returns (response: seq<byte>)
    requires |password| < TWO32 && |challenge| < TWO32
    ensures response == HMAC(password, challenge)
  {
    hide *;
    SmallSizes();
    HmacIs(password, challenge);
    var ipad, opad := Pads(password);
    var ctx := new Context();
    ctx.Init();
    ctx.Update(ipad[..]);
    ctx.Update(challenge);
    NothingBefore(ipad[..]);
    response := ctx.Final();
    ctx.Init();
    ctx.Update(opad[..]);
    ctx.Update(response);
    NothingBefore(opad[..]);
    response := ctx.Final();
  }

  /** The challenge comes in two parts. */
  method MD5HMAC2(password: seq<byte>, challenge: seq<byte>, challenge2: seq<byte>) returns (response: seq<byte>)
    requires |password| < TWO32 && |challenge| < TWO32 && |challenge2| < TWO32
    ensures response == HMAC(password, challenge + challenge2)
  {
    hide *;
    SmallSizes();
    HmacIs(password, challenge + challenge2);
    var ipad, opad := Pads(password);
    var ctx := new Context();
    ctx.Init();
    ctx.Update(ipad[..]);
    ctx.Update(challenge);
    ctx.Update(challenge2);
    NothingBefore(ipad[..]);
    assert ipad[..] + challenge + challenge2 == ipad[..] + (challenge + challenge2);
    response := ctx.Final();
    ctx.Init();
    ctx.Update(opad[..]);
    ctx.Update(response);
    NothingBefore(opad[..]);
    response := ctx.Final();
  }

  lemma FlattenPrefix(pieces: seq<seq<byte>>, k: nat)
    requires k <= |pieces|
    ensures k == 0 ==> Flatten(pieces[..k]) == []
    ensures k > 0 ==> Flatten(pieces[..k]) == Flatten(pieces[..k - 1]) + pieces[k - 1]
  {
    if k > 0 {
      assert pieces[..k] == pieces[..k - 1] + [pieces[k - 1]];
      FlattenAppend(pieces[..k - 1], [pieces[k - 1]]);
      assert Flatten([pieces[k - 1]]) == pieces[k - 1] + [];
    }
  }

  /** The digest of a message fed in any pieces is the digest of the message. */
  method DigestOfPieces(pieces: seq<seq<byte>>) returns (digest: seq<byte>)
    requires forall i :: 0 <= i < |pieces| ==> |pieces[i]| < TWO32
    ensures digest == MD5(Flatten(pieces))
  {
    hide *;
    var ctx := new Context();
    ctx.Init();
    FlattenPrefix(pieces, 0);
    for k := 0 to |pieces|
      invariant ctx.Valid() && ctx.msg == Flatten(pieces[..k])
      invariant fresh(ctx) && fresh(ctx.buf) && fresh(ctx.bits) && fresh(ctx.block)
    {
      FlattenPrefix(pieces, k + 1);
      ctx.Update(pieces[k]);
    }
    assert pieces[..|pieces|] == pieces;
    digest := ctx.Final();
  }
}
