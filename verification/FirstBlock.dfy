/** The first block of a file is written without a guard. What becomes of the file if the block does
    not fit. */
module FirstBlock {
  import opened Bytes
  import opened TsmFile
  import opened FlushQueue
  import opened FlushInvariant
  import Columns
  import opened FlushRuns

  // ---------- a first block that does not fit ----------

  /** The booking has run over. */
  predicate Overbooked(s: State) {
    s.file.OnDisk? && s.file.margin < 0
  }

  lemma StaysOverbooked(env: Env, s: State, e: Event)
    requires Enabled(env, s, e)
    requires Overbooked(s) || !FitsNow(env, s, e)
    ensures Overbooked(Apply(env, s, e))
  {
    hide PredictSize, EncodeBlock, Overwrite, WithIndexBlock;
  }

  /** Once the first block did not fit the margin is negative for good. */
  lemma {:induction false} MisfitOverbooks(env: Env, evs: seq<Event>)
    requires Legal(env, EMPTY, evs) && !Fits(env, EMPTY, evs)
    ensures Overbooked(Run(env, EMPTY, evs))
    decreases |evs|
  {
    hide Apply, Enabled, FitsNow, Overbooked;
    var before, last := evs[..|evs| - 1], evs[|evs| - 1];
    if !Fits(env, EMPTY, before) {
      MisfitOverbooks(env, before);
    }
    StaysOverbooked(env, Run(env, EMPTY, before), last);
  }

  /** The invariant, and with it that the data never meets the index, holds over a run if and only
      if the first block of its file fits; and that is when the margin is not negative. */
  lemma InvExactly(env: Env, evs: seq<Event>)
    requires env.Valid() && Legal(env, EMPTY, evs) && Run(env, EMPTY, evs).file.OnDisk?
    ensures Inv(env, Run(env, EMPTY, evs)) <==> Fits(env, EMPTY, evs)
    ensures Run(env, EMPTY, evs).file.margin >= 0 <==> Fits(env, EMPTY, evs)
  {
    hide Run, Legal, Fits;
    if Fits(env, EMPTY, evs) {
      FittingRun(env, evs);
    } else {
      MisfitOverbooks(env, evs);
    }
  }

  // ---------- the file is never given up ----------

  /** At most what a block takes: itself, its entry and the meta of its field. */
  function Size(env: Env, b: DataBlock): nat
    requires Storable(b)
  {
    PredictSize(env, b) + ENTRY_SIZE + 8 + |b.key|
  }

  ghost predicate AllStorable(bs: seq<DataBlock>) {
    forall k :: 0 <= k < |bs| ==> Storable(bs[k])
  }

  ghost function Weight(env: Env, bs: seq<DataBlock>): nat
    requires AllStorable(bs)
  {
    if bs == [] then 0 else Size(env, bs[0]) + Weight(env, bs[1..])
  }

  lemma {:induction false} WeightSnoc(env: Env, bs: seq<DataBlock>, b: DataBlock)
    requires AllStorable(bs) && Storable(b)
    ensures AllStorable(bs + [b]) && Weight(env, bs + [b]) == Weight(env, bs) + Size(env, b)
  {
    hide Size;
    if bs == [] {
      assert Weight(env, [b]) == Size(env, b) + Weight(env, []);
    } else {
      assert (bs + [b])[1..] == bs[1..] + [b];
      WeightSnoc(env, bs[1..], b);
    }
  }

  /** The margin and the head have moved by no more than the blocks written, which have arrived and
      are not queued any more. */
  ghost predicate Spent(env: Env, s: State, arrived: seq<DataBlock>) {
    && DequeOk(s) && AllStorable(s.deque) && AllStorable(arrived)
    && var written := Weight(env, arrived) - Weight(env, s.deque);
       if s.file.OnDisk? then
         s.file.margin >= CAPACITY - written && 0 <= s.file.head <= HEADER_SIZE + written
       else written >= 0
  }

  lemma FrontWeight(env: Env, bs: seq<DataBlock>)
    requires AllStorable(bs) && bs != []
    ensures AllStorable(bs[1..]) && Storable(bs[0]) && Weight(env, bs) == Size(env, bs[0]) + Weight(env, bs[1..])
  {
    hide Size;
  }

  lemma WriteSpends(env: Env, s: State, arrived: seq<DataBlock>, elapsed: bool)
    requires Spent(env, s, arrived) && Enabled(env, s, WriteBlock(elapsed))
    ensures Spent(env, Apply(env, s, WriteBlock(elapsed)), arrived)
  {
    hide PredictSize, EncodeBlock, Overwrite, I32, I64, AllStorable, Weight, Due;
    var t := Apply(env, s, WriteBlock(elapsed));
    FrontWeight(env, s.deque);
    assert t.deque == s.deque[1..];
    forall k | 0 <= k < |t.deque|
      ensures Registered(t, t.deque[k])
    {
      assert Registered(s, s.deque[k + 1]);
    }
  }

  lemma StepSpends(env: Env, s: State, arrived: seq<DataBlock>, e: Event)
    requires Spent(env, s, arrived) && Enabled(env, s, e)
    ensures Spent(env, Apply(env, s, e), arrived + if e.Arrive? then [e.block] else [])
  {
    hide PredictSize, EncodeBlock, Overwrite, WithIndexBlock, Weight;
    assert arrived + [] == arrived;
    var t := Apply(env, s, e);
    match e
    case WriteBlock(elapsed) => WriteSpends(env, s, arrived, elapsed);
    case Arrive(b) =>
      WeightSnoc(env, s.deque, b);
      WeightSnoc(env, arrived, b);
      assert forall k :: 0 <= k < |s.deque| ==> Registered(s, s.deque[k]);
    case _ =>
      assert t.deque == s.deque;
      forall k | 0 <= k < |t.deque|
        ensures Registered(t, t.deque[k])
      {
        assert Registered(s, s.deque[k]);
      }
  }

  lemma {:induction false} RunsSpend(env: Env, evs: seq<Event>)
    requires Legal(env, EMPTY, evs)
    ensures Spent(env, Run(env, EMPTY, evs), Arrived(evs))
    decreases |evs|
  {
    hide Apply, Enabled, Spent;
    if evs == [] {
      NothingSpent(env);
    } else {
      RunsSpend(env, evs[..|evs| - 1]);
      StepSpends(env, Run(env, EMPTY, evs[..|evs| - 1]), Arrived(evs[..|evs| - 1]), evs[|evs| - 1]);
    }
  }

  lemma NothingSpent(env: Env)
    ensures Spent(env, EMPTY, [])
  {
  }

  lemma FrontSize(env: Env, s: State, arrived: seq<DataBlock>)
    requires Spent(env, s, arrived) && s.deque != []
    ensures Registered(s, s.deque[0]) && Size(env, s.deque[0]) <= Weight(env, s.deque)
  {
    assert Registered(s, s.deque[0]);
  }

  /** A file whose first block did not fit is never given up: over any run of blocks and index
      flushes of less than 2^62 bytes in all the margin stays negative, the guard never asks for
      a new file, and every further block is written to the same one. */
  lemma NeverGivenUp(env: Env, evs: seq<Event>, elapsed: bool)
    requires Legal(env, EMPTY, evs) && !Fits(env, EMPTY, evs)
    requires AllStorable(Arrived(evs)) && Weight(env, Arrived(evs)) < BIG
    ensures var s := Run(env, EMPTY, evs);
            && s.file.OnDisk? && -BIG < s.file.margin < 0
            && (s.deque != [] ==>
                  && Registered(s, s.deque[0])
                  && !NeedNewFile(s.file.margin, PredictSize(env, s.deque[0]), |s.deque[0].key|)
                  && Enabled(env, s, WriteBlock(elapsed)))
  {
    hide Run, Legal, Fits, PredictSize, Weight;
    MisfitOverbooks(env, evs);
    RunsSpend(env, evs);
    if Run(env, EMPTY, evs).deque != [] {
      FrontSize(env, Run(env, EMPTY, evs), Arrived(evs));
    }
  }

  // ---------- which bytes meet ----------

  /** n bytes from a on and m bytes from b on share one. */
  predicate Meet(a: int, n: int, b: int, m: int) {
    a < b + m && b < a + n
  }

  predicate Inside(p: int, a: int, n: nat) {
    a <= p < a + n
  }

  /** They do if and only if some position is inside both. */
  lemma MeetExactly(a: int, n: nat, b: int, m: nat)
    requires n > 0 && m > 0
    ensures Meet(a, n, b, m) <==> exists p :: Inside(p, a, n) && Inside(p, b, m)
  {
    if Meet(a, n, b, m) {
      var p := if a < b then b else a;
      assert Inside(p, a, n) && Inside(p, b, m);
    }
  }

  /** A state in which the next block opens the file. */
  ghost predicate First(env: Env, s: State) {
    && Inv(env, s) && s.file.NoFile? && s.deque != []
    && PredictSize(env, s.deque[0]) <= BIG / 2 && |s.deque[0].key| <= TAIL_START - 36
  }

  /** Writing the first block of the file, whatever its size, with its index entry due. */
  lemma FirstWritten(env: Env, s: State)
    requires env.Valid() && First(env, s)
    ensures Enabled(env, s, WriteBlock(true))
    ensures var b, t, size := s.deque[0], Apply(env, s, WriteBlock(true)), PredictSize(env, s.deque[0]);
            var e := IndexEntry(b.maxTime, b.minTime, HEADER_SIZE, Trunc32(size));
            && t.log == [(b, e)] && t.tasks == [b.field] && t.file.OnDisk? && t.file.tail == TAIL_START
            && t.pending == map[b.field := [e]] && b.field in t.fields && t.fields[b.field].key == b.key
            && t.file.bytes == Overwrite(NewFile(env).bytes, HEADER_SIZE, EncodeBlock(env, b))
            && t.flushed == []
  {
    hide PredictSize, EncodeBlock, Overwrite, I32, I64, Trunc32;
    var b, t := s.deque[0], Apply(env, s, WriteBlock(true));
    var e := IndexEntry(b.maxTime, b.minTime, HEADER_SIZE, Trunc32(PredictSize(env, b)));
    assert Registered(s, b);
    assert s.pending == map[] && s.tasks == [] && s.taskSet == {} && s.log == [] && s.flushed == [];
    assert Entries(s.pending, b.field) + [e] == [e];
    assert t.pending == map[b.field := [e]];
  }

  /** Flushing that entry. */
  lemma FirstFlushed(env: Env, t: State, b: DataBlock, e: IndexEntry, left: Bytes)
    requires t.tasks == [b.field] && t.pending == map[b.field := [e]] && t.file.OnDisk? && t.file.tail == TAIL_START
    requires b.field in t.fields && t.fields[b.field].key == b.key && |b.key| <= TAIL_START - 36
    requires |t.file.bytes| >= DATA_BLOCK_MARGIN
    ensures TaskReady(t) && Enabled(env, t, FlushIndex(left))
    ensures var u := Apply(env, t, FlushIndex(left));
            && u.log == t.log && u.file.OnDisk? && u.file.tail == TAIL_START - 36 - |b.key|
            && |u.file.bytes| == |t.file.bytes|
            && At(u.file.bytes, |u.file.bytes| - FOOTER_SIZE, I64(u.file.tail))
            && u.flushed == [IndexBlock(b.field, b.key, t.fields[b.field].typ, [e])] + t.flushed
  {
    hide Overwrite, EncodeIndex, I64;
    IndexSizeIsLength(TaskBlock(t));
    var tail := TAIL_START - 36 - |b.key|;
    OverwriteAt(Overwrite(t.file.bytes, tail, EncodeIndex(TaskBlock(t))), |t.file.bytes| - FOOTER_SIZE, I64(tail));
  }

  /** After the first block and its index flush the bytes of the block meet those of the index block
      or of the footer if and only if block, entry and meta are larger than the file's margin of
      499. */
  lemma RangesMeet(env: Env, s: State, left: Bytes)
    requires env.Valid() && First(env, s)
    ensures Enabled(env, s, WriteBlock(true))
    ensures Enabled(env, Apply(env, s, WriteBlock(true)), FlushIndex(left))
    ensures var u := Apply(env, Apply(env, s, WriteBlock(true)), FlushIndex(left));
            var b, size := s.deque[0], PredictSize(env, s.deque[0]);
            && |u.log| == 1 && u.log[0].0 == b && u.log[0].1.offset == 5 && u.file.OnDisk?
            && (Meet(5, size, u.file.tail, 504 - u.file.tail) || Meet(5, size, |u.file.bytes| - 8, 8)
                <==> 36 + |b.key| + size > 499)
  {
    hide PredictSize, EncodeBlock, Apply, Enabled, Inv, I64;
    var b := s.deque[0];
    FirstWritten(env, s);
    NewFileLayout(env);
    var t := Apply(env, s, WriteBlock(true));
    FirstFlushed(env, t, b, t.log[0].1, left);
  }
}
