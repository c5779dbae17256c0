/** The byte buffers of server/include/io_buffer.h and the growing input and output buffers of
    server/src/io_buffer.cpp.  A buffer handed out by the pool is a new object here; that the
    pool never lends one buffer twice is BufferPool's subject. */
module IoBuffers {
  import opened Bytes

  const BUFFER_LIMIT := 8388608

  /** The smallest size class that holds n bytes; zero when none does. */
  function SizeClass(n: int): (c: nat)
    ensures c == 0 <==> n > BUFFER_LIMIT
    ensures n <= BUFFER_LIMIT ==> n <= c <= BUFFER_LIMIT && c >= 4096
  {
    if n <= 4096 then 4096
    else if n <= 16384 then 16384
    else if n <= 65536 then 65536
    else if n <= 262144 then 262144
    else if n <= 1048576 then 1048576
    else if n <= 4194304 then 4194304
    else if n <= 8388608 then 8388608
    else 0
  }

  class IoBuffer {
    const data: array<byte>
    const capacity: nat
    var length: nat
    var head: nat

    ghost predicate Valid()
      reads this
    {
      data.Length == capacity && head + length <= capacity
    }

    ghost function Contents(): (s: Bytes)
      requires Valid()
      reads this, data
      ensures |s| == length
    {
      data[head..head + length]
    }

    constructor (size: nat)
      ensures Valid() && Contents() == [] && head == 0
      ensures capacity == size && fresh(data)
    {
      data := new byte[size](_ => 0);
      capacity := size;
      length, head := 0, 0;
    }

    /** memmove to the front. */
    method Adjust()
      requires Valid()
      modifies this`head, data
      ensures Valid() && head == 0 && Contents() == old(Contents())
    {
      if head > 0 {
        forall k | 0 <= k < length {
          data[k] := data[head + k];
        }
        head := 0;
      }
    }

    method Copy(other: IoBuffer)
      requires Valid() && other.Valid() && other != this && other.data != data
      requires other.length <= capacity
      modifies this`head, this`length, data
      ensures Valid() && head == 0 && Contents() == other.Contents()
    {
      forall k | 0 <= k < other.length {
        data[k] := other.data[other.head + k];
      }
      head := 0;
      length := other.length;
    }

    method Pop(n: nat)
      requires Valid() && n <= length
      modifies this`head, this`length
      ensures Valid() && head == old(head) + n && length == old(length) - n
      ensures Contents() == old(Contents())[n..]
    {
      length := length - n;
      head := head + n;
    }

    /** memcpy or read behind the contents. */
    method Append(d: Bytes)
      requires Valid() && head == 0 && length + |d| <= capacity
      modifies this`length, data
      ensures Valid() && Contents() == old(Contents()) + d
    {
      forall k | 0 <= k < |d| {
        data[length + k] := d[k];
      }
      length := length + |d|;
    }
  }

  /** tcp_buffer: no buffer while nothing was ever stored or everything was popped. */
  class TcpBuffer {
    var buf: IoBuffer?

    ghost predicate Valid()
      reads this, buf
    {
      buf != null ==> buf.Valid() && buf.capacity <= BUFFER_LIMIT
    }

    ghost function Contents(): Bytes
      requires Valid()
      reads this, buf, if buf == null then null else buf.data
    {
      if buf == null then [] else buf.Contents()
    }

    /** What the asserts of the source demand before anything is stored or written. */
    ghost predicate AtFront()
      reads this, buf
    {
      buf != null ==> buf.head == 0
    }

    constructor ()
      ensures Valid() && AtFront() && buf == null && Contents() == []
    {
      buf := null;
    }

    method Length() returns (n: nat)
      requires Valid()
      ensures n == |Contents()|
    {
      if buf == null {
        return 0;
      }
      return buf.length;
    }

    method Clear()
      modifies this
      ensures buf == null && Valid() && Contents() == []
    {
      buf := null;
    }

    /** pop gives an emptied buffer back to the pool. */
    method Pop(n: nat)
      requires Valid() && buf != null && n <= buf.length
      modifies this, buf
      ensures Valid() && Contents() == old(Contents())[n..]
      ensures buf == null <==> |old(Contents())| == n
      ensures buf != null ==> buf == old(buf) && buf.head == old(buf.head) + n
    {
      buf.Pop(n);
      if buf.length == 0 {
        buf := null;
      }
    }

    method Adjust()
      requires Valid()
      modifies buf, if buf == null then null else buf.data
      ensures Valid() && AtFront() && Contents() == old(Contents())
    {
      if buf != null {
        buf.Adjust();
      }
    }

    /** The store shared by read_data and send_data: take a first buffer, or a larger one when
        the rest does not fit, then append.  It fails when no size class is large enough. */
    method Store(d: Bytes) returns (ok: bool)
      requires Valid() && AtFront()
      modifies this, buf, if buf == null then null else buf.data
      ensures Valid() && AtFront()
      ensures ok <==> |old(Contents())| + |d| <= BUFFER_LIMIT
      ensures ok ==> buf != null && Contents() == old(Contents()) + d
      ensures !ok ==> Contents() == old(Contents()) && buf == old(buf)
      ensures buf == old(buf) || (fresh(buf) && fresh(buf.data))
    {
      if buf == null {
        var c := SizeClass(|d|);
        if c == 0 {
          return false;
        }
        buf := new IoBuffer(c);
      } else if buf.capacity - buf.length < |d| {
        var c := SizeClass(|d| + buf.length);
        if c == 0 {
          return false;
        }
        var larger := new IoBuffer(c);
        larger.Copy(buf);
        buf := larger;
      }
      buf.Append(d);
      return true;
    }

    /** write_fd when the kernel takes n bytes. */
    method Taken(n: nat) returns (written: Bytes)
      requires Valid() && AtFront() && buf != null && n <= buf.length
      modifies buf, buf.data
      ensures Valid() && AtFront() && old(Contents()) == written + Contents() && |written| == n
    {
      written := buf.data[..n];
      buf.Pop(n);
      buf.Adjust();
    }

    /** data() of the input buffer, all of it. */
    method Peek() returns (s: Bytes)
      requires Valid() && buf != null
      ensures s == Contents()
    {
      s := buf.data[buf.head..buf.head + buf.length];
    }

    /** The loop of handle_write: the kernel takes any part, nothing, or fails. */
    method WriteAll() returns (written: Bytes, failed: bool)
      requires Valid() && AtFront()
      modifies buf, if buf == null then null else buf.data
      ensures Valid() && AtFront() && old(Contents()) == written + Contents()
    {
      hide IoBuffer.Contents;
      written, failed := [], false;
      var length := Length();
      while length > 0
        invariant Valid() && AtFront() && length == |Contents()| && buf == old(buf)
        invariant old(Contents()) == written + Contents()
      {
        failed := *;
        var accepted: nat :| accepted <= length;
        if failed || accepted == 0 {
          break;
        }
        ghost var before := Contents();
        var part := Taken(accepted);
        assert written + before == (written + part) + Contents() by {
          Regroup(written, part, Contents());
        }
        written := written + part;
        length := Length();
      }
    }
  }

  lemma Regroup(a: Bytes, b: Bytes, c: Bytes)
    ensures a + (b + c) == (a + b) + c
  {
  }
}
