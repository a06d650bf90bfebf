/** The streaming context of MD5: an incomplete block, and a count of bits in two words. */
module MD5Context {
  import opened Bytes
  import opened Word32
  import opened MachineInts
  import opened MD5Spec
  import opened MD5Transform

  /** The length of the whole blocks of n bytes. */
  function Whole(n: nat): (w: nat)
    ensures w % 64 == 0 && w <= n && n - w == n % 64
  {
    n - n % 64
  }

  // ----- counting bits in two words

  /** The carry out of the low word, and the three bits of the length that are shifted out of it, make the
      two words count modulo 2^64. */
  lemma CountBits(b0: word, b1: word, len: nat)
    requires len < TWO32
    ensures var n0 := Add(b0, 8 * len % TWO32);
            var n1 := Add(if n0 < b0 then Add(b1, 1) else b1, len / 0x2000_0000);
            n0 + TWO32 * n1 == (b0 + TWO32 * b1 + 8 * len) % TWO64
  {
    var lo, hi := 8 * len % TWO32, len / 0x2000_0000;
    assert 8 * len == lo + TWO32 * hi;
    var n0 := Add(b0, lo);
    var carry := if n0 < b0 then 1 else 0;
    assert b0 + lo == n0 + TWO32 * carry;
    var total := b1 + carry + hi;
    var n1 := Add(if n0 < b0 then Add(b1, 1) else b1, hi);
    AddMod(hi, b1 + carry);
    assert n1 == total % TWO32;
    HighWord(n0, total);
  }

  lemma HighWord(low: word, n: nat)
    ensures low + TWO32 * (n % TWO32) == (low + TWO32 * n) % TWO64
  {
    var q, r := n / TWO32, n % TWO32;
    assert low + TWO32 * n == (low + TWO32 * r) + TWO64 * q;
    ModTimes(low + TWO32 * r, q);
  }

  lemma ModTimes(x: nat, q: nat)
    requires x < TWO64
    ensures (x + TWO64 * q) % TWO64 == x
  {
  }

  /** The low word tells how many bytes are buffered. */
  lemma BufferedBytes(b0: word, b1: word, n: nat)
    requires b0 + TWO32 * b1 == 8 * n % TWO64
    ensures b0 / 8 % 64 == n % 64
  {
    var q := 8 * n / TWO64;
    assert 8 * n == b0 + TWO32 * b1 + TWO64 * q;
    var z := b1 + TWO32 * q;
    assert b0 == 8 * (n - 64 * (0x80_0000 * z));
    Mod64(n, 0x80_0000 * z);
  }

  lemma Mod64(n: nat, y: int)
    ensures (n - 64 * y) % 64 == n % 64
  {
    var q := n / 64;
    assert n - 64 * y == n % 64 + 64 * (q - y);
  }

  lemma LowBytesOfWord(x: word, y: nat)
    ensures LowBytes(x + TWO32 * y, 8) == LowBytes(x, 4) + LowBytes(y, 4)
  {
    LowBytesSplit(x, y, 4, 4, TWO32);
  }

  lemma {:induction false} LowBytesSplit(x: nat, y: nat, k: nat, j: nat, p: nat)
    requires x < p && p == Pow256(k)
    ensures LowBytes(x + p * y, k + j) == LowBytes(x, k) + LowBytes(y, j)
    decreases k
  {
    if k == 0 {
      assert p * y == y;
    } else {
      var p' := Pow256(k - 1);
      assert p * y == 256 * (p' * y);
      assert (x + 256 * (p' * y)) % 256 == x % 256 && (x + 256 * (p' * y)) / 256 == x / 256 + p' * y;
      LowBytesSplit(x / 256, y, k - 1, j, p');
    }
  }

  function Pow256(k: nat): nat {
    if k == 0 then 1 else 256 * Pow256(k - 1)
  }

  // ----- hashes of growing messages

  lemma HashStep(m: seq<byte>, k: nat)
    requires k % 64 == 0 && k + 64 <= |m|
    ensures (k + 64) % 64 == 0
    ensures HashOf(m[..k + 64]) == Compress(HashOf(m[..k]), m[k..k + 64])
  {
    hide Compress;
    var p := m[..k + 64];
    assert p[..|p| - 64] == m[..k] && p[|p| - 64..] == m[k..k + 64];
  }

  lemma EmptyHash()
    ensures HashOf([]) == INIT
  {
  }

  class Context {
    const buf: array<word>
    const bits: array<word>
    const block: array<byte>
    /** The message fed so far. */
    ghost var msg: seq<byte>

    ghost predicate Shape()
    {
      buf.Length == 4 && bits.Length == 2 && block.Length == 64 && buf != bits
    }

    ghost predicate Valid()
      reads this, buf, bits, block
    {
      && Shape()
      && HashAt(buf[..]) == HashOf(msg[..Whole(|msg|)])
      && block[..|msg| % 64] == msg[Whole(|msg|)..]
      && bits[0] + TWO32 * bits[1] == 8 * |msg| % TWO64
    }

    constructor ()
      ensures Shape() && fresh(buf) && fresh(bits) && fresh(block)
    {
      buf := new word[4](_ => 0);
      bits := new word[2](_ => 0);
      block := new byte[64](_ => 0);
      msg := [];
    }

    method Init()
      requires Shape()
      modifies this, buf, bits
      ensures Valid() && msg == []
    {
      hide HashOf, Compress;
      buf[0], buf[1], buf[2], buf[3] := 0x67452301, 0xefcdab89, 0x98badcfe, 0x10325476;
      bits[0], bits[1] := 0, 0;
      msg := [];
      EmptyHash();
      assert msg[..Whole(|msg|)] == [];
    }

    /** Copies bytes into the block. */
    method CopyIn(at: nat, src: seq<byte>)
      requires Shape() && at + |src| <= 64
      modifies block
      ensures block[..at + |src|] == old(block[..at]) + src
    {
      forall i | 0 <= i < |src| {
        block[at + i] := src[i];
      }
    }

    /** Adds len bytes to the bit count. */
    method CountUp(len: nat)
      requires Shape() && len < TWO32
      modifies bits
      ensures bits[0] + TWO32 * bits[1] == (old(bits[0]) + TWO32 * old(bits[1]) + 8 * len) % TWO64
    {
      CountBits(bits[0], bits[1], len);
      var t := bits[0];
      bits[0] := Add(t, 8 * len % TWO32);
      if bits[0] < t {
        bits[1] := Add(bits[1], 1);
      }
      bits[1] := Add(bits[1], len / 0x2000_0000);
    }

    /** Feeds more bytes. */
    method Update(data: seq<byte>)
      requires Valid() && |data| < TWO32
      modifies this, buf, bits, block
      ensures Valid() && msg == old(msg) + data
    {
      hide HashOf, Compress;
      ghost var old_msg := msg;
      ghost var all := msg + data;
      BufferedBytes(bits[0], bits[1], |msg|);
      var t := bits[0] / 8 % 64;
      CountUp(|data|);
      CountAll(|msg|, |data|);
      msg := all;
      var pos := 0;
      if t != 0 {
        var room := 64 - t;
        if |data| < room {
          CopyIn(t, data);
          StillBuffered(old_msg, data);
          return;
        }
        CopyIn(t, data[..room]);
        Completed(old_msg, data, room);
        HashStep(all, |old_msg| - t);
        assert block[..] == block[..64];
        Transform(buf, block[..]);
        pos := room;
      } else {
        assert all[..|old_msg|] == old_msg == old_msg[..Whole(|old_msg|)];
      }
      UpdateBlocks(data, pos, all, |old_msg|);
    }

    /** Whole blocks are hashed from the data, and what is left is buffered. */
    method UpdateBlocks(data: seq<byte>, start: nat, ghost all: seq<byte>, ghost n: nat)
      requires Shape() && msg == all && n <= |all| && all[n..] == data && start <= |data|
      requires (n + start) % 64 == 0 && HashAt(buf[..]) == HashOf(all[..n + start])
      requires bits[0] + TWO32 * bits[1] == 8 * |all| % TWO64
      modifies buf, block
      ensures Valid()
    {
      hide HashOf, Compress;
      var pos := start;
      while |data| - pos >= 64
        invariant start <= pos <= |data| && (n + pos) % 64 == 0
        invariant HashAt(buf[..]) == HashOf(all[..n + pos])
        invariant bits[0] + TWO32 * bits[1] == 8 * |all| % TWO64
      {
        CopyIn(0, data[pos..pos + 64]);
        assert block[..] == data[pos..pos + 64] == all[n + pos..n + pos + 64];
        HashStep(all, n + pos);
        Transform(buf, block[..]);
        pos := pos + 64;
      }
      CopyIn(0, data[pos..]);
      assert data[pos..] == all[n + pos..];
      WholeAt(|all|, n + pos);
    }

    /** Pads the buffered bytes up to the place of the length, hashing a block when that place is taken. */
    method Pad(count: nat)
      requires Valid() && count == |msg| % 64
      modifies buf, block
      ensures var k, tail := Whole(|msg|), msg[Whole(|msg|)..];
              if count < 56 then
                HashAt(buf[..]) == HashOf(msg[..k]) && block[..56] == tail + [0x80] + Zeros(55 - count)
              else
                && HashAt(buf[..]) == Compress(HashOf(msg[..k]), tail + [0x80] + Zeros(63 - count))
                && block[..56] == Zeros(56)
    {
      hide HashOf, Compress;
      ghost var tail := msg[Whole(|msg|)..];
      CopyIn(count, [0x80]);
      var room := 64 - 1 - count;
      if room < 8 {
        CopyIn(count + 1, Zeros(room));
        assert block[..] == tail + [0x80] + Zeros(room);
        Transform(buf, block[..]);
        CopyIn(0, Zeros(56));
        assert block[..56] == Zeros(56);
      } else {
        CopyIn(count + 1, Zeros(room - 8));
        assert block[..56] == tail + [0x80] + Zeros(room - 8);
      }
    }

    /** Pads the message, hashes what is left, and gives the digest. Of the context only as many bytes as a
        pointer has are cleared: half of the hash, the length and the last block of the padded message stay. */
    method Final() returns (digest: seq<byte>)
      requires Valid()
      modifies buf, block
      ensures digest == MD5(msg)
      ensures var h := HashOf(Padded(msg)); buf[..] == [0, 0, h.c, h.d]
      ensures block[..] == LastBlock(msg)
    {
      hide HashOf, Compress, LowBytes, Padded, Zeros;
      BufferedBytes(bits[0], bits[1], |msg|);
      Pad(bits[0] / 8 % 64);
      ghost var head := block[..56];
      var low, high := bits[0], bits[1];
      CopyIn(56, LowBytes(low, 4));
      CopyIn(60, LowBytes(high, 4));
      LowBytesOfWord(low, high);
      assert block[..] == block[..64] == head + (LowBytes(low, 4) + LowBytes(high, 4));
      PaddedBlocks(msg, LowBytes(low, 4) + LowBytes(high, 4));
      assert block[..] == LastBlock(msg);
      Transform(buf, block[..]);
      digest := WordBytes(buf[0]) + WordBytes(buf[1]) + WordBytes(buf[2]) + WordBytes(buf[3]);
      buf[0], buf[1] := 0, 0;
    }
  }

  lemma CountAll(n: nat, len: nat)
    ensures (8 * n % TWO64 + 8 * len) % TWO64 == 8 * (n + len) % TWO64
  {
    var q := 8 * n / TWO64;
    assert 8 * (n + len) == (8 * n % TWO64 + 8 * len) + TWO64 * q;
    ModAdds(8 * n % TWO64 + 8 * len, q);
  }

  lemma ModAdds(x: nat, q: nat)
    ensures (x + TWO64 * q) % TWO64 == x % TWO64
  {
    assert x == x % TWO64 + TWO64 * (x / TWO64);
    ModTimes(x % TWO64, x / TWO64 + q);
    assert x + TWO64 * q == x % TWO64 + TWO64 * (x / TWO64 + q);
  }

  lemma WholeAt(n: nat, k: nat)
    requires k % 64 == 0 && k <= n < k + 64
    ensures Whole(n) == k && n % 64 == n - k
  {
  }

  /** The new bytes fit behind the buffered ones without filling the block. */
  lemma StillBuffered(m: seq<byte>, data: seq<byte>)
    requires |m| % 64 + |data| < 64
    ensures Whole(|m + data|) == Whole(|m|) && |m + data| % 64 == |m| % 64 + |data|
    ensures (m + data)[..Whole(|m|)] == m[..Whole(|m|)]
    ensures (m + data)[Whole(|m|)..] == m[Whole(|m|)..] + data
  {
    WholeAt(|m| + |data|, Whole(|m|));
  }

  /** The new bytes complete the buffered block. */
  lemma Completed(m: seq<byte>, data: seq<byte>, room: nat)
    requires room == 64 - |m| % 64 <= |data|
    ensures var k := Whole(|m|);
            && (m + data)[..k] == m[..k]
            && (m + data)[k..k + 64] == m[k..] + data[..room]
            && k + 64 == |m| + room && (m + data)[|m|..] == data
  {
  }

  /** The padded message is the whole blocks followed by one block, or two when the buffered bytes leave no
      room for the length. */
  lemma PaddedBlocks(m: seq<byte>, length: seq<byte>)
    requires length == LowBytes(8 * |m| % TWO64, 8)
    ensures var k := Whole(|m|);
            var tail := m[k..];
            HashOf(Padded(m)) ==
            if |tail| < 56 then Compress(HashOf(m[..k]), tail + [0x80] + Zeros(55 - |tail|) + length)
            else Compress(Compress(HashOf(m[..k]), tail + [0x80] + Zeros(63 - |tail|)), Zeros(56) + length)
    ensures var tail := m[Whole(|m|)..];
            LastBlock(m) == (if |tail| < 56 then tail + [0x80] + Zeros(55 - |tail|) else Zeros(56)) + length
  {
    hide HashOf, Compress, LowBytes;
    var k, p := Whole(|m|), Padded(m);
    var tail := m[k..];
    assert p[..k] == m[..k];
    HashStep(p, k);
    if |tail| < 56 {
      assert ZeroCount(|m|) == 55 - |tail|;
      assert p[k..k + 64] == tail + [0x80] + Zeros(55 - |tail|) + length;
      assert p[..k + 64] == p;
    } else {
      assert ZeroCount(|m|) == 119 - |tail|;
      assert p[k..k + 64] == tail + [0x80] + Zeros(63 - |tail|);
      HashStep(p, k + 64);
      assert p[k + 64..k + 128] == Zeros(56) + length;
      assert p[..k + 128] == p;
    }
  }

  /** The last block of the padded message. */
  function LastBlock(m: seq<byte>): (b: seq<byte>)
    ensures |b| == 64
  {
    Padded(m)[|Padded(m)| - 64..]
  }

  /** What Final leaves in the block is never zero throughout: it ends in the length, and holds the padding byte
      when the length alone could be zero. So the context is all zero after no message. */
  lemma NeverCleared(m: seq<byte>)
    ensures exists i :: 0 <= i < 64 && LastBlock(m)[i] != 0
  {
    var b, tail, length := LastBlock(m), m[Whole(|m|)..], LowBytes(8 * |m| % TWO64, 8);
    LastBlockIs(m);
    hide *;
    if |tail| < 56 {
      assert b[|tail|] == 0x80;
    } else {
      BufferedRest(m);
      LengthNotZero(|m|);
      Pow64();
      var i := NonzeroByte(8 * |m| % TWO64, 8);
      assert b[56 + i] == length[i];
    }
  }

  lemma LastBlockIs(m: seq<byte>)
    ensures var tail := m[Whole(|m|)..];
            LastBlock(m) ==
            (if |tail| < 56 then tail + [0x80] + Zeros(55 - |tail|) else Zeros(56)) + LowBytes(8 * |m| % TWO64, 8)
  {
    PaddedBlocks(m, LowBytes(8 * |m| % TWO64, 8));
  }

  lemma BufferedRest(m: seq<byte>)
    ensures |m[Whole(|m|)..]| == |m| % 64
  {
  }

  lemma Pow64()
    ensures Pow256(8) == TWO64
  {
    assert Pow256(4) == 0x1_0000_0000;
  }

  lemma LengthNotZero(n: nat)
    requires n % 64 != 0
    ensures 8 * n % TWO64 != 0
  {
  }

  lemma {:induction false} NonzeroByte(n: nat, k: nat) returns (i: nat)
    requires 0 < n < Pow256(k)
    ensures i < k && LowBytes(n, k)[i] != 0
  {
    if n % 256 != 0 {
      i := 0;
    } else {
      var j := NonzeroByte(n / 256, k - 1);
      i := j + 1;
    }
  }
}
