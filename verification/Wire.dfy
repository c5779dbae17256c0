/** Length-prefixed messages over a byte stream: the framing loop, the send path and the
    connection of server/src/tcp_conn.cpp. */
module Wire {
  import opened Bytes
  import opened IoBuffers

  const HEAD_LENGTH := 8
  const LENGTH_LIMIT := 65528

  datatype Message = Message(cmdid: int32, payload: Bytes)

  /** What becomes of a connection: Aborted stands for the failed assertion of tcp_buffer::pop
      on a buffer that was already given back. */
  datatype Status = Open | Closed | Aborted

  datatype Parse = Parse(messages: seq<Message>, rest: Bytes, status: Status)

  function Frame(m: Message): (s: Bytes)
    ensures |s| == HEAD_LENGTH + |m.payload|
  {
    I32(m.cmdid) + I32(Trunc32(|m.payload|)) + m.payload
  }

  function Frames(ms: seq<Message>): Bytes {
    if ms == [] then [] else Frame(ms[0]) + Frames(ms[1..])
  }

  function CmdOf(b: Bytes): int32
    requires |b| >= HEAD_LENGTH
  {
    GetI32(Slice(b, 0, 4))
  }

  function LengthOf(b: Bytes): int32
    requires |b| >= HEAD_LENGTH
  {
    GetI32(Slice(b, 4, 4))
  }

  /** The framing loop on the bytes at hand.  Closing throws the buffer away. */
  function Deframe(registered: set<int>, b: Bytes): (p: Parse)
    ensures p.status != Open ==> p.rest == []
    ensures |p.rest| <= |b|
    decreases |b|
  {
    if |b| < HEAD_LENGTH then Parse([], b, Open)
    else
      var n := LengthOf(b);
      if n > LENGTH_LIMIT || n < 0 then Parse([], [], Closed)
      else if |b| < HEAD_LENGTH + n then Parse([], b, Open)
      else if CmdOf(b) !in registered then Parse([], [], Closed)
      else
        var m := Message(CmdOf(b), Slice(b, HEAD_LENGTH, n));
        if n == 0 && |b| == HEAD_LENGTH then Parse([m], [], Aborted)
        else
          var p := Deframe(registered, b[HEAD_LENGTH + n..]);
          p.(messages := [m] + p.messages)
  }

  /** A message the receiver accepts. */
  predicate Sendable(registered: set<int>, m: Message) {
    m.cmdid in registered && 1 <= |m.payload| <= 65528
  }

  // ---------- framing ----------

  lemma FrameFields(m: Message, s: Bytes, rest: Bytes)
    requires |m.payload| <= LENGTH_LIMIT && s == Frame(m) + rest
    ensures Slice(s, 0, 4) == I32(m.cmdid) && Slice(s, 4, 4) == I32(|m.payload|)
    ensures Slice(s, HEAD_LENGTH, |m.payload|) == m.payload && s[|Frame(m)|..] == rest
  {
    hide I32;
    var c, n := I32(m.cmdid), I32(|m.payload|);
    AtSplit(s, 0, c + n + m.payload, rest);
    AtSplit(s, 0, c + n, m.payload);
    AtSplit(s, 0, c, n);
    assert s[|Frame(m)|..] == rest;
  }

  lemma FrameHead(m: Message, a: Bytes, b: Bytes, rest: Bytes)
    requires |m.payload| <= LENGTH_LIMIT
    requires a + b == Frame(m) + rest && |a| >= HEAD_LENGTH
    ensures CmdOf(a) == m.cmdid && LengthOf(a) == |m.payload|
    ensures |a| >= |Frame(m)| ==>
              Slice(a, HEAD_LENGTH, |m.payload|) == m.payload && a[|Frame(m)|..] + b == rest
    ensures |a| < |Frame(m)| ==> a == Frame(m)[..|a|]
  {
    hide I32, GetI32, Slice;
    FrameFields(m, a + b, rest);
    SliceOfPrefix(a, b, 0, 4);
    SliceOfPrefix(a, b, 4, 4);
    I32RoundTrip(m.cmdid);
    I32RoundTrip(|m.payload|);
    if |a| >= |Frame(m)| {
      SliceOfPrefix(a, b, HEAD_LENGTH, |m.payload|);
      assert a[|Frame(m)|..] + b == (a + b)[|Frame(m)|..];
    } else {
      assert a == (a + b)[..|a|] == (Frame(m) + rest)[..|a|];
    }
  }

  predicate HasFrame(registered: set<int>, b: Bytes) {
    && |b| >= HEAD_LENGTH && 0 <= LengthOf(b) <= LENGTH_LIMIT
    && |b| >= HEAD_LENGTH + LengthOf(b) && CmdOf(b) in registered
  }

  function FirstMessage(registered: set<int>, b: Bytes): Message
    requires HasFrame(registered, b)
  {
    Message(CmdOf(b), Slice(b, HEAD_LENGTH, LengthOf(b)))
  }

  function JoinParse(ms: seq<Message>, p: Parse): Parse {
    Parse(ms + p.messages, p.rest, p.status)
  }

  /** One pass of the loop that goes on. */
  lemma DeframeCons(registered: set<int>, b: Bytes)
    requires HasFrame(registered, b) && !(LengthOf(b) == 0 && |b| == HEAD_LENGTH)
    ensures Deframe(registered, b) ==
            JoinParse([FirstMessage(registered, b)], Deframe(registered, b[HEAD_LENGTH + LengthOf(b)..]))
  {
  }

  /** The three ways the loop stops. */
  lemma DeframeStops(registered: set<int>, b: Bytes)
    requires Deframe(registered, b).status == Open
    ensures !HasFrame(registered, b) ==> Deframe(registered, b) == Parse([], b, Open)
    ensures HasFrame(registered, b) ==> !(LengthOf(b) == 0 && |b| == HEAD_LENGTH)
  {
  }

  /** The stream's first frame has not arrived whole, or it has. */
  lemma PartialFrame(registered: set<int>, m: Message, a: Bytes, b: Bytes, rest: Bytes)
    requires Sendable(registered, m) && a + b == Frame(m) + rest && |a| < |Frame(m)|
    ensures Deframe(registered, a) == Parse([], a, Open) && a == Frame(m)[..|a|]
  {
    hide CmdOf, LengthOf, Slice;
    if |a| >= HEAD_LENGTH {
      FrameHead(m, a, b, rest);
    } else {
      assert a == (a + b)[..|a|] == (Frame(m) + rest)[..|a|];
    }
  }

  lemma WholeFrame(registered: set<int>, m: Message, a: Bytes, b: Bytes, rest: Bytes)
    requires Sendable(registered, m) && a + b == Frame(m) + rest && |a| >= |Frame(m)|
    ensures Deframe(registered, a) == JoinParse([m], Deframe(registered, a[|Frame(m)|..]))
    ensures a[|Frame(m)|..] + b == rest
  {
    hide CmdOf, LengthOf, Slice, Deframe, Frame;
    FrameHead(m, a, b, rest);
    assert a[|Frame(m)|..] + b == (a + b)[|Frame(m)|..];
    assert HasFrame(registered, a) && FirstMessage(registered, a) == m;
    DeframeCons(registered, a);
  }

  /** Sendable are exactly the messages that a receiver takes on their own. */
  lemma SendableExactly(registered: set<int>, m: Message)
    requires |m.payload| < 0x8000_0000
    ensures Sendable(registered, m) <==> Deframe(registered, Frame(m)) == Parse([m], [], Open)
  {
    hide CmdOf, LengthOf, Slice;
    var b := Frame(m);
    assert b + [] == b && b[|b|..] == [];
    if |m.payload| <= 65528 {
      FrameHead(m, b, [], []);
    } else {
      LongHead(m);
    }
    if Sendable(registered, m) {
      WholeFrame(registered, m, b, [], []);
    }
  }

  lemma LongHead(m: Message)
    requires |m.payload| < 0x8000_0000
    ensures LengthOf(Frame(m)) == |m.payload|
  {
    hide I32, GetI32;
    I32RoundTrip(|m.payload|);
    assert Slice(Frame(m), 4, 4) == I32(|m.payload|);
  }

  /** Of the stream of a message list, any first part a deframes to the messages it holds
      whole, and what is left over is a proper prefix of the next frame. */
  lemma {:induction false} StreamPrefix(registered: set<int>, ms: seq<Message>, a: Bytes, b: Bytes) returns (k: nat)
    requires forall m :: m in ms ==> Sendable(registered, m)
    requires a + b == Frames(ms)
    ensures k <= |ms|
    ensures var p := Deframe(registered, a);
            && p.status == Open && p.messages == ms[..k]
            && p.rest + b == Frames(ms[k..])
            && (k == |ms| ==> p.rest == [] && b == [])
            && (k < |ms| ==> |p.rest| < |Frame(ms[k])| && p.rest == Frame(ms[k])[..|p.rest|])
    decreases |ms|
  {
    hide Deframe, Frame, Sendable, JoinParse;
    k := 0;
    assert ms[0..] == ms;
    if ms == [] {
      NothingArrived(registered, a, b);
    } else {
      var f := Frame(ms[0]);
      if |a| < |f| {
        PartialFrame(registered, ms[0], a, b, Frames(ms[1..]));
      } else {
        WholeFrame(registered, ms[0], a, b, Frames(ms[1..]));
        var j := StreamPrefix(registered, ms[1..], a[|f|..], b);
        k := j + 1;
        JoinFirst(ms, j, Deframe(registered, a[|f|..]));
      }
    }
  }

  lemma NothingArrived(registered: set<int>, a: Bytes, b: Bytes)
    requires a + b == []
    ensures a == b == [] && Deframe(registered, a) == Parse([], [], Open)
  {
    assert |a| == 0 && |b| == 0;
  }

  lemma JoinFirst(ms: seq<Message>, j: nat, p: Parse)
    requires ms != [] && j < |ms| && p.messages == ms[1..][..j]
    ensures JoinParse([ms[0]], p) == Parse(ms[..j + 1], p.rest, p.status)
    ensures ms[1..][j..] == ms[j + 1..]
    ensures j + 1 < |ms| ==> ms[1..][j] == ms[j + 1]
  {
    assert ms[..j + 1] == [ms[0]] + ms[1..][..j];
  }

  lemma SameFrame(registered: set<int>, a: Bytes, b: Bytes)
    requires HasFrame(registered, a)
    ensures HasFrame(registered, a + b) && FirstMessage(registered, a + b) == FirstMessage(registered, a)
    ensures LengthOf(a + b) == LengthOf(a)
    ensures (a + b)[HEAD_LENGTH + LengthOf(a)..] == a[HEAD_LENGTH + LengthOf(a)..] + b
  {
    hide GetI32, Slice;
    SliceOfPrefix(a, b, 0, 4);
    SliceOfPrefix(a, b, 4, 4);
    SliceOfPrefix(a, b, HEAD_LENGTH, LengthOf(a));
  }

  /** Chunking does not matter: as long as the first chunk leaves the connection open,
      reading two chunks is reading their concatenation. */
  lemma {:induction false} ChunkIndependent(registered: set<int>, a: Bytes, b: Bytes)
    requires Deframe(registered, a).status == Open
    ensures var p, q := Deframe(registered, a), Deframe(registered, Deframe(registered, a).rest + b);
            Deframe(registered, a + b) == Parse(p.messages + q.messages, q.rest, q.status)
    decreases |a|
  {
    hide Slice, CmdOf, LengthOf, Deframe, FirstMessage;
    DeframeStops(registered, a);
    if HasFrame(registered, a) {
      var m, tail := FirstMessage(registered, a), a[HEAD_LENGTH + LengthOf(a)..];
      DeframeCons(registered, a);
      ChunkIndependent(registered, tail, b);
      SameFrame(registered, a, b);
      DeframeCons(registered, a + b);
      var p, q := Deframe(registered, tail), Deframe(registered, Deframe(registered, tail).rest + b);
      assert [m] + (p.messages + q.messages) == ([m] + p.messages) + q.messages;
    }
  }

  /** A frame the loop accepts, empty payload included. */
  predicate Accepted(registered: set<int>, m: Message) {
    m.cmdid in registered && |m.payload| <= 65528
  }

  /** Accepted frames that end with an empty one. */
  ghost predicate EmptyLast(registered: set<int>, ms: seq<Message>) {
    && ms != [] && ms[|ms| - 1].payload == []
    && forall m :: m in ms ==> Accepted(registered, m)
  }

  lemma FrameOfParts(registered: set<int>, b: Bytes)
    requires HasFrame(registered, b)
    ensures Frame(FirstMessage(registered, b)) == b[..HEAD_LENGTH + LengthOf(b)]
  {
    hide I32, GetI32;
    var n := LengthOf(b);
    I32OfGet(Slice(b, 0, 4));
    I32OfGet(Slice(b, 4, 4));
    assert b[..HEAD_LENGTH + n] == Slice(b, 0, 4) + Slice(b, 4, 4) + Slice(b, HEAD_LENGTH, n);
  }

  /** The failed assertion happens exactly on a buffer that is a list of accepted frames
      ending with an empty one. */
  lemma AbortsOnEmptyLast(registered: set<int>, b: Bytes)
    ensures Deframe(registered, b).status == Aborted <==> exists ms :: EmptyLast(registered, ms) && b == Frames(ms)
  {
    if Deframe(registered, b).status == Aborted {
      var ms := AbortedFrames(registered, b);
    }
    if ms :| EmptyLast(registered, ms) && b == Frames(ms) {
      FramesAbort(registered, ms);
    }
  }

  lemma {:induction false} AbortedFrames(registered: set<int>, b: Bytes) returns (ms: seq<Message>)
    requires Deframe(registered, b).status == Aborted
    ensures EmptyLast(registered, ms) && b == Frames(ms)
    decreases |b|
  {
    hide Slice, CmdOf, LengthOf, Frame;
    FrameOfParts(registered, b);
    var m := FirstMessage(registered, b);
    var tail := b[HEAD_LENGTH + LengthOf(b)..];
    assert b == b[..HEAD_LENGTH + LengthOf(b)] + tail;
    if LengthOf(b) == 0 && |b| == HEAD_LENGTH {
      ms := [m];
      assert Frames(ms) == Frame(m) + Frames([]);
    } else {
      var rest := AbortedFrames(registered, tail);
      ms := [m] + rest;
      assert ms[1..] == rest;
    }
  }

  lemma {:induction false} FramesAbort(registered: set<int>, ms: seq<Message>)
    requires EmptyLast(registered, ms)
    ensures Deframe(registered, Frames(ms)).status == Aborted
  {
    hide Slice, CmdOf, LengthOf, Frame;
    assert Accepted(registered, ms[0]);
    var b, rest := Frames(ms), Frames(ms[1..]);
    assert b + [] == b;
    FrameHead(ms[0], b, [], rest);
    assert b[|Frame(ms[0])|..] == rest;
    if |ms| > 1 {
      assert ms[1..][|ms[1..]| - 1] == ms[|ms| - 1];
      FramesAbort(registered, ms[1..]);
      FramesNonEmpty(ms[1..]);
    }
  }

  lemma FramesNonEmpty(ms: seq<Message>)
    requires ms != []
    ensures |Frames(ms)| >= HEAD_LENGTH
  {
  }

  /** A head that no message follows: its length is negative or above 65528, or its message is
      there whole and nobody has registered for it. */
  ghost predicate BadHead(registered: set<int>, b: Bytes) {
    && |b| >= 8
    && var length := GetI32(Slice(b, 4, 4));
       length < 0 || length > 65528 || (|b| >= 8 + length && GetI32(Slice(b, 0, 4)) !in registered)
  }

  ghost predicate AllAccepted(registered: set<int>, ms: seq<Message>) {
    forall m :: m in ms ==> Accepted(registered, m)
  }

  /** The connection is closed exactly on accepted frames followed by a bad head. */
  lemma ClosesOnBadHead(registered: set<int>, b: Bytes)
    ensures Deframe(registered, b).status == Closed <==>
            exists ms, tail :: AllAccepted(registered, ms) && BadHead(registered, tail) && b == Frames(ms) + tail
  {
    if Deframe(registered, b).status == Closed {
      var ms, tail := ClosedFrames(registered, b);
    }
    if ms, tail :| AllAccepted(registered, ms) && BadHead(registered, tail) && b == Frames(ms) + tail {
      FramesClose(registered, ms, tail);
    }
  }

  lemma BadCloses(registered: set<int>, b: Bytes)
    ensures BadHead(registered, b) <==> |b| >= HEAD_LENGTH && !HasFrame(registered, b) &&
                                        Deframe(registered, b) != Parse([], b, Open)
    ensures BadHead(registered, b) ==> Deframe(registered, b) == Parse([], [], Closed)
  {
    hide GetI32, Slice;
  }

  lemma {:induction false} ClosedFrames(registered: set<int>, b: Bytes) returns (ms: seq<Message>, tail: Bytes)
    requires Deframe(registered, b).status == Closed
    ensures AllAccepted(registered, ms) && BadHead(registered, tail) && b == Frames(ms) + tail
    decreases |b|
  {
    hide Slice, CmdOf, LengthOf, Frame, BadHead;
    BadCloses(registered, b);
    if HasFrame(registered, b) {
      FrameOfParts(registered, b);
      var m, later := FirstMessage(registered, b), b[HEAD_LENGTH + LengthOf(b)..];
      var rest;
      rest, tail := ClosedFrames(registered, later);
      ms := [m] + rest;
      assert ms[1..] == rest;
      assert b == b[..HEAD_LENGTH + LengthOf(b)] + later;
      assert Frame(m) + (Frames(rest) + tail) == Frame(m) + Frames(rest) + tail;
    } else {
      ms, tail := [], b;
      assert Frames(ms) + tail == b;
    }
  }

  lemma {:induction false} FramesClose(registered: set<int>, ms: seq<Message>, tail: Bytes)
    requires AllAccepted(registered, ms) && BadHead(registered, tail)
    ensures Deframe(registered, Frames(ms) + tail).status == Closed
  {
    hide Slice, CmdOf, LengthOf, Frame, BadHead;
    BadCloses(registered, tail);
    if ms == [] {
      assert Frames(ms) + tail == tail;
    } else {
      assert Accepted(registered, ms[0]);
      var later := Frames(ms[1..]) + tail;
      var b := Frames(ms) + tail;
      assert b == Frame(ms[0]) + later;
      assert b + [] == b;
      FrameHead(ms[0], b, [], later);
      assert b[|Frame(ms[0])|..] == later;
      FramesClose(registered, ms[1..], tail);
    }
  }
}
