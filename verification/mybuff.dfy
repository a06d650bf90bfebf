/**
 The connection buffer of network/mybuff.c: a byte queue in a block that grows, and behind it a range of
 an open file. Data is taken from the front by moving the rest down.
 */
module MyBuff {
  import opened Bytes

  const NO_FILE := -1

  class Buff {
    /** The initial block size, a setting. */
    const initSize: nat
    var data: array?<byte>
    var size: nat
    var len: nat
    var fd: int
    var foffset: nat
    var flen: nat

    ghost predicate Valid()
      reads this, data
    {
      && len <= size
      && (data == null ==> size == 0)
      && (data != null ==> data.Length == size)
      && -1 <= fd && (fd < 0 ==> flen == 0)
    }

    /** The queued bytes. */
    ghost function Contents(): (s: seq<byte>)
      reads this, data
      requires Valid()
    {
      if data == null then [] else data[..len]
    }

    constructor (initSize: nat)
      requires initSize > 0
      ensures Valid() && Contents() == [] && fd == NO_FILE && data == null
    {
      this.initSize := initSize;
      data, size, len := null, 0, 0;
      fd, foffset, flen := NO_FILE, 0, 0;
    }

    /** Appends bytes; the block is enlarged when it has no byte to spare behind them. */
    method SetData(b: seq<byte>)
      requires Valid()
      modifies this`data, this`size, this`len, data
      ensures Valid() && Contents() == old(Contents()) + b
      ensures data == old(data) || fresh(data)
      ensures data != null
    {
      if data == null {
        data := new byte[initSize];
        size := initSize;
      }
      if size - len <= |b| {
        size := len + |b| + 1;
        var tmp := new byte[size];
        forall i | 0 <= i < len {
          tmp[i] := data[i];
        }
        data := tmp;
      }
      ghost var before := data[..len];
      forall i | 0 <= i < |b| {
        data[len + i] := b[i];
      }
      len := len + |b|;
      assert data[..len] == before + b;
    }

    /** The queued bytes, if there are any. */
    method GetData() returns (ok: bool, b: seq<byte>)
      requires Valid()
      ensures ok == (Contents() != []) && b == Contents()
    {
      if data != null {
        b := data[..len];
        ok := len > 0;
      } else {
        ok, b := false, [];
      }
    }

    /** Drops n bytes from the front, or all when there are fewer. */
    method SkipData(n: nat)
      requires Valid()
      modifies this`len, data
      ensures Valid() && Contents() == Skip(old(Contents()), n)
    {
      if data != null {
        if n >= len {
          len := 0;
        } else {
          ghost var before := data[..len];
          forall i | 0 <= i < len - n {
            data[i] := data[i + n];
          }
          len := len - n;
          assert data[..len] == before[n..];
        }
      }
    }

    /** Replaces the file range; a file that was set before is closed. */
    method SetFile(fd: int, offset: nat, len: nat)
      requires Valid() && fd >= 0
      modifies this`fd, this`foffset, this`flen
      ensures Valid() && this.fd == fd && foffset == offset && flen == len
    {
      this.fd := fd;
      foffset := offset;
      flen := len;
    }

    method GetFile() returns (ok: bool, fd: int, offset: nat, len: nat)
      requires Valid()
      ensures ok == (this.fd >= 0 && flen > 0)
      ensures ok ==> fd == this.fd && offset == foffset && len == flen
    {
      if this.fd >= 0 && flen > 0 {
        return true, this.fd, foffset, flen;
      }
      return false, NO_FILE, 0, 0;
    }

    /** Moves the file range on by n bytes; when nothing is left of it, the file is closed. */
    method SkipFile(n: nat)
      requires Valid()
      modifies this`fd, this`foffset, this`flen
      ensures Valid()
      ensures flen == (if n < old(flen) then old(flen) - n else 0)
      ensures n < old(flen) ==> fd == old(fd) && foffset == old(foffset) + n
      ensures old(fd) >= 0 && n >= old(flen) ==> fd == NO_FILE && foffset == 0
    {
      if fd >= 0 {
        if flen <= n {
          fd := NO_FILE;
          foffset, flen := 0, 0;
        } else {
          foffset := foffset + n;
          flen := flen - n;
        }
      }
    }
  }
}
