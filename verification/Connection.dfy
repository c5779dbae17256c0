/** A connection end to end: tcp_conn with its two buffers, and the stream of messages from
    one side's send_data to the other side's dispatcher. */
module Connection {
  import opened Bytes
  import opened IoBuffers
  import opened Wire

  // ---------- the connection object ----------

  class TcpConn {
    const ibuf: TcpBuffer
    const obuf: TcpBuffer
    const registered: set<int>
    var status: Status
    /** Every call of the dispatcher, in order. */
    var dispatched: seq<Message>

    ghost predicate Valid()
      reads this, ibuf, obuf, ibuf.buf, obuf.buf
    {
      && ibuf != obuf && ibuf.Valid() && obuf.Valid() && ibuf.AtFront()
      && (ibuf.buf != null && obuf.buf != null ==> ibuf.buf != obuf.buf && ibuf.buf.data != obuf.buf.data)
    }

    constructor (registered: set<int>)
      ensures Valid() && status == Open && dispatched == [] && obuf.AtFront()
      ensures ibuf.Contents() == [] && obuf.Contents() == [] && this.registered == registered
      ensures fresh(ibuf) && fresh(obuf)
    {
      ibuf := new TcpBuffer();
      obuf := new TcpBuffer();
      this.registered := registered;
      status, dispatched := Open, [];
    }

    /** handle_read when the socket holds chunk: store it, then the framing loop. Nothing to read
        means that the peer closed or that reading failed. */
    method HandleRead(chunk: Bytes)
      requires Valid() && status == Open
      modifies this, ibuf, obuf, ibuf.buf, if ibuf.buf == null then null else ibuf.buf.data
      ensures ibuf.Valid() && (status != Aborted ==> Valid())
      ensures obuf.Valid() && obuf.Contents() == if status == Closed then [] else old(obuf.Contents())
      ensures var a := old(ibuf.Contents());
              if chunk == [] || |a| + |chunk| > BUFFER_LIMIT then
                status == Closed && dispatched == old(dispatched) && ibuf.Contents() == []
              else
                var p := Deframe(registered, a + chunk);
                status == p.status && dispatched == old(dispatched) + p.messages && ibuf.Contents() == p.rest
    {
      hide Deframe, IoBuffer.Contents;
      var ok := ibuf.Store(chunk);
      if !ok || chunk == [] {
        CleanConn();
        return;
      }
      FramingLoop();
    }

    /** clean_conn: both buffers go back. */
    method CleanConn()
      modifies this, ibuf, obuf
      ensures status == Closed && dispatched == old(dispatched)
      ensures ibuf.buf == obuf.buf == null
    {
      status := Closed;
      ibuf.Clear();
      obuf.Clear();
    }

    /** clean_conn empties the queue to send; nothing else in handle_read touches it. */
    twostate predicate QueueKept()
      reads this, obuf, obuf.buf, if obuf.buf == null then null else obuf.buf.data
    {
      if status == Closed then obuf.buf == null else obuf.buf == old(obuf.buf)
    }

    /** The framing loop of handle_read. */
    method FramingLoop()
      requires ibuf.Valid() && ibuf != obuf && ibuf.buf != null && status == Open
      modifies this, ibuf, obuf, ibuf.buf, ibuf.buf.data
      ensures ibuf.Valid() && (ibuf.buf == null || ibuf.buf == old(ibuf.buf)) && QueueKept()
      ensures var p := Deframe(registered, old(ibuf.Contents()));
              status == p.status && dispatched == old(dispatched) + p.messages && ibuf.Contents() == p.rest
      ensures status != Aborted ==> ibuf.AtFront()
    {
      hide Deframe, HasFrame, FirstMessage, IoBuffer.Contents, LengthOf, JoinParse;
      ghost var b := ibuf.Contents();
      JoinNothing(Deframe(registered, b));
      ghost var taken: seq<Message> := [];
      var more := true;
      while more
        invariant ibuf.Valid() && (ibuf.buf == null || ibuf.buf == old(ibuf.buf)) && QueueKept()
        invariant dispatched == old(dispatched) + taken
        invariant more ==> status == Open
        invariant var now := ibuf.Contents();
                  Deframe(registered, b) ==
                  JoinParse(taken, if more then Deframe(registered, now) else Parse([], now, status))
        decreases more, |ibuf.Contents()|
      {
        ghost var c, part := ibuf.Contents(), [];
        more, part := TakeFrame();
        if more {
          DeframeCons(registered, c);
        }
        ghost var now := ibuf.Contents();
        ParseJoins(taken, part, if more then Deframe(registered, now) else Parse([], now, status));
        taken := taken + part;
      }
      ibuf.Adjust();
      JoinOnto(taken, ibuf.Contents(), status);
    }

    /** One pass of the loop; more tells whether it goes on. */
    method TakeFrame() returns (more: bool, ghost part: seq<Message>)
      requires ibuf.Valid() && ibuf != obuf && status == Open
      modifies this, ibuf, obuf, ibuf.buf, if ibuf.buf == null then null else ibuf.buf.data
      ensures ibuf.Valid() && (ibuf.buf == null || ibuf.buf == old(ibuf.buf)) && QueueKept()
      ensures var b := old(ibuf.Contents());
              && (more ==>
                    && HasFrame(registered, b) && status == Open && part == [FirstMessage(registered, b)]
                    && ibuf.Contents() == b[HEAD_LENGTH + LengthOf(b)..]
                    && !(LengthOf(b) == 0 && |b| == HEAD_LENGTH))
              && (!more ==> Deframe(registered, b) == JoinParse(part, Parse([], ibuf.Contents(), status)))
      ensures dispatched == old(dispatched) + part
      ensures more ==> |ibuf.Contents()| < |old(ibuf.Contents())|
    {
      hide GetI32, IoBuffer.Contents;
      part := [];
      var length := ibuf.Length();
      if length < HEAD_LENGTH {
        return false, part;
      }
      var bytes := ibuf.Peek();
      var n := LengthOf(bytes);
      if n > LENGTH_LIMIT || n < 0 {
        CleanConn();
        return false, part;
      }
      if length < HEAD_LENGTH + n {
        return false, part;
      }
      if CmdOf(bytes) !in registered {
        CleanConn();
        return false, part;
      }
      ibuf.Pop(HEAD_LENGTH);
      part := [Message(CmdOf(bytes), bytes[HEAD_LENGTH..HEAD_LENGTH + n])];
      dispatched := dispatched + [Message(CmdOf(bytes), bytes[HEAD_LENGTH..HEAD_LENGTH + n])];
      if ibuf.buf == null {
        status := Aborted;
        return false, part;
      }
      ibuf.Pop(n);
      return true, part;
    }

    /** send_data: the head, then the payload. When the payload does not fit any more, the
        eight bytes taken back come off the front of the queue. Only an empty queue survives that:
        otherwise the buffer does not start at its front any more, which is what the asserts of the
        next send_data or write_fd demand, and so do SendData and HandleWrite. */
    method SendData(m: Message) returns (ret: int)
      requires Valid() && obuf.AtFront() && |m.payload| < 0x8000_0000
      modifies obuf, obuf.buf, if obuf.buf == null then null else obuf.buf.data
      ensures Valid() && ibuf.Contents() == old(ibuf.Contents())
      ensures var o := old(obuf.Contents());
              && (ret == 0 <==> |o| + |Frame(m)| <= BUFFER_LIMIT)
              && (ret == 0 ==> obuf.AtFront() && obuf.Contents() == o + Frame(m))
              && (ret != 0 && |o| + HEAD_LENGTH > BUFFER_LIMIT ==>
                    ret == -1 && obuf.AtFront() && obuf.Contents() == o)
              && (ret != 0 && |o| + HEAD_LENGTH <= BUFFER_LIMIT ==>
                    && ret == -1 && obuf.Contents() == (o + Frame(m)[..HEAD_LENGTH])[HEAD_LENGTH..]
                    && (obuf.AtFront() <==> o == []))
    {
      hide I32, IoBuffer.Contents, Frame;
      var head := I32(m.cmdid) + I32(|m.payload|);
      ghost var o := obuf.Contents();
      FrameParts(m, head);
      assert (o + head) + m.payload == o + Frame(m);
      var ok := obuf.Store(head);
      if !ok {
        return -1;
      }
      ok := obuf.Store(m.payload);
      if !ok {
        obuf.Pop(HEAD_LENGTH);
        return -1;
      }
      return 0;
    }

    /** handle_write: the kernel takes any part of the queue, again and again, until it takes
        nothing or the queue is empty. An error closes the connection. written is what went out. */
    method HandleWrite() returns (written: Bytes)
      requires Valid() && obuf.AtFront()
      modifies this, ibuf, obuf, obuf.buf, if obuf.buf == null then null else obuf.buf.data
      ensures Valid() && obuf.AtFront() && dispatched == old(dispatched)
      ensures status == old(status) ==>
                ibuf.Contents() == old(ibuf.Contents()) && old(obuf.Contents()) == written + obuf.Contents()
      ensures status != old(status) ==>
                status == Closed && ibuf.Contents() == obuf.Contents() == [] && written <= old(obuf.Contents())
    {
      hide IoBuffer.Contents;
      var failed;
      written, failed := obuf.WriteAll();
      if failed && status != Closed {
        CleanConn();
      }
    }
  }

  lemma FrameParts(m: Message, head: Bytes)
    requires |m.payload| < 0x8000_0000 && head == I32(m.cmdid) + I32(|m.payload|)
    ensures Frame(m) == head + m.payload && Frame(m)[..HEAD_LENGTH] == head && |head| == HEAD_LENGTH
  {
    hide I32;
  }

  lemma JoinNothing(p: Parse)
    ensures JoinParse([], p) == p
  {
    assert [] + p.messages == p.messages;
  }

  lemma JoinOnto(ms: seq<Message>, rest: Bytes, status: Status)
    ensures JoinParse(ms, Parse([], rest, status)) == Parse(ms, rest, status)
  {
    assert ms + [] == ms;
  }

  lemma ParseJoins(a: seq<Message>, b: seq<Message>, p: Parse)
    ensures JoinParse(a, JoinParse(b, p)) == JoinParse(a + b, p)
  {
    assert a + (b + p.messages) == (a + b) + p.messages;
  }

  // ---------- from end to end ----------

  /** The sender's queue, the bytes on their way, the receiver's leftover input. */
  datatype Channel = Channel(
    obuf: Bytes, net: Bytes, ibuf: Bytes, sent: seq<Message>, dispatched: seq<Message>, status: Status)

  datatype Event =
    | Send(m: Message)
    | Write(n: nat)
    | Read(n: nat)

  /** Sends succeed, the kernel takes some bytes, the socket holds some bytes; every buffer
      stays within the largest size class. */
  ghost predicate Enabled(registered: set<int>, c: Channel, e: Event) {
    match e
    case Send(m) => Sendable(registered, m) && |c.obuf| + |Frame(m)| <= BUFFER_LIMIT
    case Write(n) => n <= |c.obuf|
    case Read(n) => 0 < n <= |c.net| && |c.ibuf| + n <= BUFFER_LIMIT && c.status == Open
  }

  function Apply(registered: set<int>, c: Channel, e: Event): Channel
    requires Enabled(registered, c, e)
  {
    match e
    case Send(m) => c.(obuf := c.obuf + Frame(m), sent := c.sent + [m])
    case Write(n) => c.(obuf := c.obuf[n..], net := c.net + c.obuf[..n])
    case Read(n) =>
      var p := Deframe(registered, c.ibuf + c.net[..n]);
      c.(net := c.net[n..], ibuf := p.rest, dispatched := c.dispatched + p.messages, status := p.status)
  }

  const IDLE := Channel([], [], [], [], [], Open)

  ghost predicate Legal(registered: set<int>, evs: seq<Event>)
    decreases |evs|, 0
  {
    evs != [] ==>
      var before := evs[..|evs| - 1];
      Legal(registered, before) && Enabled(registered, Run(registered, before), evs[|evs| - 1])
  }

  ghost function Run(registered: set<int>, evs: seq<Event>): Channel
    requires Legal(registered, evs)
    decreases |evs|, 1
  {
    if evs == [] then IDLE else Apply(registered, Run(registered, evs[..|evs| - 1]), evs[|evs| - 1])
  }

  /** The dispatched messages are a first part of the sent ones; the bytes still anywhere are
      exactly the frames of the others; the leftover input is a proper prefix of the next
      frame. */
  ghost predicate InOrder(registered: set<int>, c: Channel) {
    && c.status == Open
    && (forall m :: m in c.sent ==> Sendable(registered, m))
    && |c.dispatched| <= |c.sent| && c.dispatched == c.sent[..|c.dispatched|]
    && c.ibuf + c.net + c.obuf == Frames(c.sent[|c.dispatched|..])
    && (if |c.dispatched| == |c.sent| then c.ibuf == []
        else
          var next := Frame(c.sent[|c.dispatched|]);
          |c.ibuf| < |next| && c.ibuf == next[..|c.ibuf|])
  }

  lemma {:induction false} FramesSnoc(ms: seq<Message>, m: Message)
    ensures Frames(ms + [m]) == Frames(ms) + Frame(m)
  {
    if ms == [] {
      assert Frames([m]) == Frame(m) + Frames([]);
    } else {
      assert (ms + [m])[1..] == ms[1..] + [m];
      FramesSnoc(ms[1..], m);
    }
  }

  lemma SendInOrder(registered: set<int>, c: Channel, m: Message)
    requires InOrder(registered, c) && Enabled(registered, c, Send(m))
    ensures InOrder(registered, Apply(registered, c, Send(m)))
  {
    hide Frame, Frames;
    var t, d := Apply(registered, c, Send(m)), |c.dispatched|;
    assert t.sent[d..] == c.sent[d..] + [m];
    FramesSnoc(c.sent[d..], m);
    assert t.ibuf + t.net + t.obuf == c.ibuf + c.net + c.obuf + Frame(m);
    assert t.sent[..d] == c.sent[..d];
  }

  lemma WriteInOrder(registered: set<int>, c: Channel, n: nat)
    requires InOrder(registered, c) && Enabled(registered, c, Write(n))
    ensures InOrder(registered, Apply(registered, c, Write(n)))
  {
    hide Frame, Frames;
    var t := Apply(registered, c, Write(n));
    assert t.ibuf + t.net + t.obuf == c.ibuf + c.net + c.obuf;
  }

  lemma ReadInOrder(registered: set<int>, c: Channel, n: nat)
    requires InOrder(registered, c) && Enabled(registered, c, Read(n))
    ensures InOrder(registered, Apply(registered, c, Read(n)))
  {
    hide Frame, Frames, Deframe;
    var t, d := Apply(registered, c, Read(n)), |c.dispatched|;
    var a, b, todo := c.ibuf + c.net[..n], c.net[n..] + c.obuf, c.sent[d..];
    assert a + b == c.ibuf + c.net + c.obuf;
    var k := StreamPrefix(registered, todo, a, b);
    assert t.dispatched == c.sent[..d + k];
    assert todo[k..] == c.sent[d + k..];
    assert k < |todo| ==> todo[k] == c.sent[d + k];
    assert t.ibuf + t.net + t.obuf == Deframe(registered, a).rest + b;
  }

  lemma StepInOrder(registered: set<int>, c: Channel, e: Event)
    requires InOrder(registered, c) && Enabled(registered, c, e)
    ensures InOrder(registered, Apply(registered, c, e))
  {
    hide InOrder, Apply, Enabled;
    match e
    case Send(m) => SendInOrder(registered, c, m);
    case Write(n) => WriteInOrder(registered, c, n);
    case Read(n) => ReadInOrder(registered, c, n);
  }

  lemma {:induction false} RunInOrder(registered: set<int>, evs: seq<Event>)
    requires Legal(registered, evs)
    ensures InOrder(registered, Run(registered, evs))
    decreases |evs|
  {
    hide Apply, Enabled, InOrder;
    if evs == [] {
      IdleInOrder(registered);
    } else {
      RunInOrder(registered, evs[..|evs| - 1]);
      StepInOrder(registered, Run(registered, evs[..|evs| - 1]), evs[|evs| - 1]);
    }
  }

  lemma IdleInOrder(registered: set<int>)
    ensures InOrder(registered, IDLE)
  {
  }

  /** Delivery, over every interleaving of sends, partial writes and reads. */
  lemma Delivered(registered: set<int>, evs: seq<Event>)
    requires Legal(registered, evs)
    ensures var c := Run(registered, evs);
            && c.status == Open
            && c.dispatched <= c.sent
            && (c.net == [] && c.obuf == [] ==> c.dispatched == c.sent && c.ibuf == [])
            && |c.ibuf| < 65536
  {
    RunInOrder(registered, evs);
    var c := Run(registered, evs);
    if |c.dispatched| < |c.sent| {
      assert c.sent[|c.dispatched|] in c.sent;
      assert Frames(c.sent[|c.dispatched|..]) == Frame(c.sent[|c.dispatched|]) + Frames(c.sent[|c.dispatched|..][1..]);
    }
  }

  /** However things stand, the connection can still bring everything sent to the other side: the
      queue is taken as a whole, and the socket is read in pieces as large as the buffer allows. */
  lemma {:induction false} CanDeliver(registered: set<int>, evs: seq<Event>) returns (all: seq<Event>)
    requires Legal(registered, evs)
    ensures Legal(registered, all) && evs <= all
    ensures var c := Run(registered, all);
            c.dispatched == c.sent == Run(registered, evs).sent && c.ibuf == c.net == c.obuf == []
    decreases |Run(registered, evs).obuf|, |Run(registered, evs).net|
  {
    hide Deframe, InOrder;
    var c := Run(registered, evs);
    Delivered(registered, evs);
    if c.obuf != [] || c.net != [] {
      var left := 8388608 - |c.ibuf|;
      var e := if c.obuf != [] then Write(|c.obuf|) else Read(if |c.net| <= left then |c.net| else left);
      assert (evs + [e])[..|evs|] == evs;
      all := CanDeliver(registered, evs + [e]);
    } else {
      all := evs;
    }
  }
}
