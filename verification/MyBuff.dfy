/** The connection buffers of lib/mybuff.c: a growing byte queue, followed by a file range. */
module MyBuff {
  import opened Common

  const INIT_BUFF_SIZE: nat := 20480

  class Buff {
    var data: array?<byte>
    var size: nat
    var len: nat
    var fd: int
    var foffset: nat
    var flen: nat

    ghost predicate Valid()
      reads this
    {
      if data == null then size == 0 && len == 0 else size == data.Length && len <= size
    }

    /** The bytes queued and not yet skipped. */
    ghost function Contents(): seq<byte>
      requires Valid()
      reads this, data
    {
      if data == null then [] else data[..len]
    }

    /** What remains to be sent of the file whose bytes are `content`. */
    ghost function FileRange(content: seq<byte>): seq<byte>
      reads this
    {
      if fd >= 0 && foffset + flen <= |content| then content[foffset..foffset + flen] else []
    }

    /** `mybuff_init`. */
    constructor ()
      ensures Valid() && Contents() == [] && fd == -1 && flen == 0 && foffset == 0 && data == null
    {
      data, size, len, fd, foffset, flen := null, 0, 0, -1, 0, 0;
    }

    /** `mybuff_setdata`: append, growing to fit when the free space is not larger than needed. */
    method SetData(d: seq<byte>)
      requires Valid()
      modifies this`data, this`size, this`len, data
      ensures Valid() && Contents() == old(Contents()) + d
      ensures data != null && (data == old(data) || fresh(data)) && len < size
    {
      if data == null {
        data := new byte[INIT_BUFF_SIZE](_ => 0);
        size := INIT_BUFF_SIZE;
      }
      if size - len <= |d| {
        Grow(len + |d| + 1);
      }
      Store(d);
    }

    /** realloc. */
    method Grow(newSize: nat)
      requires Valid() && data != null && size < newSize
      modifies this`data, this`size
      ensures Valid() && fresh(data) && size == newSize && len == old(len) && Contents() == old(Contents())
    {
      var tmp := new byte[newSize](
        i reads this, data requires Valid() && data != null => if 0 <= i < data.Length then data[i] else 0);
      data := tmp;
      size := newSize;
    }

    /** memcpy behind the queued bytes. */
    method Store(d: seq<byte>)
      requires Valid() && data != null && len + |d| < size
      modifies this`len, data
      ensures Valid() && Contents() == old(Contents()) + d && len == old(len) + |d|
    {
      var i := 0;
      while i < |d|
        invariant 0 <= i <= |d|
        invariant data[..len] == old(Contents())
        invariant data[len..len + i] == d[..i]
        modifies data
      {
        data[len + i] := d[i];
        i := i + 1;
      }
      assert data[..len + |d|] == data[..len] + data[len..len + |d|];
      len := len + |d|;
    }

    /** `mybuff_getdata`: the queued bytes, if there are any. */
    method GetData() returns (ok: bool, d: seq<byte>)
      requires Valid()
      ensures ok <==> Contents() != []
      ensures ok ==> d == Contents()
    {
      ok, d := false, [];
      if data != null {
        d := data[..len];
        ok := len > 0;
      }
    }

    /** `mybuff_skipdata`: drop `n` bytes from the front, or all there are. */
    method SkipData(n: nat)
      requires Valid()
      modifies this`len, data
      ensures Valid() && Contents() == if n >= |old(Contents())| then [] else old(Contents())[n..]
    {
      if data != null {
        if n >= len {
          len := 0;
        } else {
          MoveDown(n);
          len := len - n;
        }
      }
    }

    /** memmove to the front. */
    method MoveDown(n: nat)
      requires Valid() && data != null && n < len
      modifies data
      ensures data[..len - n] == old(data[n..len])
    {
      var i := 0;
      while i < len - n
        invariant 0 <= i <= len - n
        invariant forall j :: 0 <= j < i ==> data[j] == old(data[n + j])
        invariant forall j :: i <= j < len ==> data[j] == old(data[j])
        modifies data
      {
        data[i] := data[n + i];
        i := i + 1;
      }
    }

    /** `mybuff_setfile`: what is left to send of the file is the given range of it. */
    method SetFile(newFd: int, offset: nat, n: nat, ghost content: seq<byte>)
      requires offset + n <= |content|
      modifies this`fd, this`foffset, this`flen
      ensures FileRange(content) == if newFd < 0 then [] else content[offset..offset + n]
      ensures fd == newFd && foffset == offset && flen == n
    {
      fd, foffset, flen := newFd, offset, n;
    }

    /** `mybuff_getfile`: succeeds exactly when bytes of the file are left to send. */
    method GetFile(ghost content: seq<byte>) returns (ok: bool)
      requires foffset + flen <= |content|
      ensures ok <==> FileRange(content) != []
      ensures ok ==> flen == |FileRange(content)|
    {
      ok := fd >= 0 && flen > 0;
    }

    /** `mybuff_skipfile`: the range shrinks from the front; a finished file is closed. */
    method SkipFile(n: nat, ghost content: seq<byte>)
      requires foffset + flen <= |content|
      modifies this`fd, this`foffset, this`flen
      ensures foffset + flen <= |content|
      ensures FileRange(content) == if n >= |old(FileRange(content))| then [] else old(FileRange(content))[n..]
      ensures fd < 0 ==> old(fd) < 0 || (foffset == 0 && flen == 0)
    {
      if fd >= 0 {
        if flen <= n {
          fd, foffset, flen := -1, 0, 0;
        } else {
          foffset := foffset + n;
          flen := flen - n;
        }
      }
    }

    /** `mybuff_reinit`: an oversized buffer is replaced, and nothing is queued. */
    method Reinit()
      requires Valid()
      modifies this
      ensures Valid() && Contents() == [] && fd < 0 && (old(fd) >= 0 ==> foffset == 0 && flen == 0)
      ensures size <= 2 * INIT_BUFF_SIZE
    {
      if fd >= 0 {
        fd, foffset, flen := -1, 0, 0;
      }
      if size > 2 * INIT_BUFF_SIZE {
        data := new byte[INIT_BUFF_SIZE](_ => 0);
        size := INIT_BUFF_SIZE;
      }
      len := 0;
    }
  }
}
