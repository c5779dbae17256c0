/** Whole runs of the writer over one file, and what a reader finds afterwards. */
module FlushRuns {
  import opened Bytes
  import opened TsmFile
  import opened FlushQueue
  import opened FlushInvariant

  /** What can happen to a writer: a field is registered, a block arrives, the monitor looks
      at a field (elapsed: five seconds have gone by), module one or module two runs. left is what
      the file holds after an index flush whose offset went below zero, where the seek of the source
      fails and its stream stays failed. */
  datatype Event =
    | Register(name: string, key: Bytes, typ: ColumnType)
    | Arrive(block: DataBlock)
    | Monitor(field: string, elapsed: bool)
    | FlushIndex(left: Bytes)
    | WriteBlock(elapsed: bool)

  /** The guard of module two, which only an open file has: the first block is written whatever its
      size. */
  ghost predicate Guarded(env: Env, s: State)
    requires s.deque != [] && Storable(s.deque[0])
  {
    s.file.OnDisk? ==> !NeedNewFile(s.file.margin, PredictSize(env, s.deque[0]), |s.deque[0].key|)
  }

  ghost predicate Enabled(env: Env, s: State, e: Event) {
    match e
    case Register(f, _, _) => f !in s.fields
    case Arrive(b) => Registered(s, b)
    case Monitor(_, _) => true
    case FlushIndex(_) => TaskWaits(s)
    case WriteBlock(_) =>
      s.deque != [] && Registered(s, s.deque[0]) && Guarded(env, s) && Writable(env, Opened(env, s))
  }

  function IndexFlushed(s: State, left: Bytes): State
    requires TaskWaits(s)
  {
    if TaskReady(s) then IndexStep(s) else IndexDone(s, left)
  }

  ghost function Apply(env: Env, s: State, e: Event): State
    requires Enabled(env, s, e)
  {
    match e
    case Register(f, key, typ) => s.(fields := s.fields[f := FieldInfo(key, typ, false)])
    case Arrive(b) => s.(deque := s.deque + [b])
    case Monitor(f, elapsed) => Watch(s, f, elapsed)
    case FlushIndex(left) => IndexFlushed(s, left)
    case WriteBlock(elapsed) => Watch(Append(env, Opened(env, s)), s.deque[0].field, elapsed)
  }

  /** Events are kept oldest first, so a run grows at its end. */
  ghost predicate Legal(env: Env, s: State, evs: seq<Event>)
    decreases |evs|, 0
  {
    evs != [] ==>
      var before := evs[..|evs| - 1];
      Legal(env, s, before) && Enabled(env, Run(env, s, before), evs[|evs| - 1])
  }

  ghost function Run(env: Env, s: State, evs: seq<Event>): State
    requires Legal(env, s, evs)
    decreases |evs|, 1
  {
    if evs == [] then s else Apply(env, Run(env, s, evs[..|evs| - 1]), evs[|evs| - 1])
  }

  /** If this event writes the first block of the file, the block leaves a margin. */
  ghost predicate FitsNow(env: Env, s: State, e: Event)
    requires Enabled(env, s, e)
  {
    e.WriteBlock? && s.file.NoFile? ==>
      MarginAfter(CAPACITY, PredictSize(env, s.deque[0]), s.fields[s.deque[0].field]) >= 0
  }

  /** The run writes no first block that does not fit. */
  ghost predicate Fits(env: Env, s: State, evs: seq<Event>)
    requires Legal(env, s, evs)
    decreases |evs|
  {
    evs != [] ==>
      var before := evs[..|evs| - 1];
      Fits(env, s, before) && FitsNow(env, Run(env, s, before), evs[|evs| - 1])
  }

  lemma RunSnoc(env: Env, s: State, evs: seq<Event>, e: Event)
    requires Legal(env, s, evs) && Enabled(env, Run(env, s, evs), e)
    ensures Legal(env, s, evs + [e]) && Run(env, s, evs + [e]) == Apply(env, Run(env, s, evs), e)
    ensures Fits(env, s, evs + [e]) <==> Fits(env, s, evs) && FitsNow(env, Run(env, s, evs), e)
  {
    hide Apply, Enabled, FitsNow;
    assert (evs + [e])[..|evs|] == evs;
  }

  // ---------- the invariant over runs ----------

  lemma WatchKeepsInv(env: Env, s: State, f: string, elapsed: bool)
    requires Inv(env, s)
    ensures Inv(env, Watch(s, f, elapsed))
  {
    hide BlockOk, At;
    var t := Watch(s, f, elapsed);
    forall k | 0 <= k < |t.deque|
      ensures Registered(t, t.deque[k])
    {
      assert Registered(s, s.deque[k]);
    }
    forall g: string
      ensures LogEntries(t.log, g) == FlushedEntries(t.flushed, g) + Entries(t.pending, g)
    {
      assert LogEntries(s.log, g) == FlushedEntries(s.flushed, g) + Entries(s.pending, g);
    }
  }

  lemma ArriveKeepsInv(env: Env, s: State, b: DataBlock)
    requires Inv(env, s) && Registered(s, b)
    ensures Inv(env, s.(deque := s.deque + [b]))
  {
    hide BlockOk, At;
    var t := s.(deque := s.deque + [b]);
    forall k | 0 <= k < |t.deque|
      ensures Registered(t, t.deque[k])
    {
      assert k < |s.deque| ==> Registered(s, s.deque[k]);
    }
    forall g: string
      ensures LogEntries(t.log, g) == FlushedEntries(t.flushed, g) + Entries(t.pending, g)
    {
      assert LogEntries(s.log, g) == FlushedEntries(s.flushed, g) + Entries(s.pending, g);
    }
  }

  lemma RegisterKeepsInv(env: Env, s: State, f: string, key: Bytes, typ: ColumnType)
    requires Inv(env, s) && f !in s.fields
    ensures Inv(env, s.(fields := s.fields[f := FieldInfo(key, typ, false)]))
  {
    hide BlockOk, At, LogEntries, FlushedEntries, EncodeIndexes, EndOfData, Cost, I32, I64;
    var t := s.(fields := s.fields[f := FieldInfo(key, typ, false)]);
    ReservedFrame(s.pending, s.fields, t.fields);
    forall k | 0 <= k < |t.deque|
      ensures Registered(t, t.deque[k])
    {
      assert Registered(s, s.deque[k]);
    }
    forall g: string
      ensures LogEntries(t.log, g) == FlushedEntries(t.flushed, g) + Entries(t.pending, g)
    {
      assert LogEntries(s.log, g) == FlushedEntries(s.flushed, g) + Entries(s.pending, g);
    }
  }

  lemma StepKeepsInv(env: Env, s: State, e: Event)
    requires env.Valid() && Inv(env, s) && Enabled(env, s, e) && FitsNow(env, s, e)
    ensures Inv(env, Apply(env, s, e))
  {
    hide Inv, Watch, PredictSize, MarginAfter, NeedNewFile, IndexStep, Append, Writable;
    match e
    case Register(f, key, typ) => RegisterKeepsInv(env, s, f, key, typ);
    case Arrive(b) => ArriveKeepsInv(env, s, b);
    case Monitor(f, elapsed) => WatchKeepsInv(env, s, f, elapsed);
    case FlushIndex(_) =>
      TaskHasRoom(env, s);
      IndexKeepsInv(env, s);
    case WriteBlock(elapsed) =>
      BlockHasRoom(env, s);
      DataKeepsInv(env, s);
      WatchKeepsInv(env, DataStep(env, s), s.deque[0].field, elapsed);
  }

  /** Module two writes the front block to the open file if and only if what is left of the file
      covers the block, 40 bytes and the key. */
  lemma WriteExactly(env: Env, s: State, elapsed: bool)
    requires Inv(env, s) && s.file.OnDisk? && s.deque != []
    ensures Registered(s, s.deque[0])
    ensures Enabled(env, s, WriteBlock(elapsed)) <==>
            s.file.margin >= PredictSize(env, s.deque[0]) + 40 + |s.deque[0].key|
  {
    hide PredictSize, DataOk, IndexOk, EntriesOk, At;
    assert Registered(s, s.deque[0]);
  }

  /** With a negative margin, which only a first block that did not fit leaves behind, the guard sees
      the margin 2^64 larger. */
  lemma WriteWraps(env: Env, s: State, elapsed: bool)
    requires s.file.OnDisk? && s.file.margin < 0 && s.deque != [] && Registered(s, s.deque[0]) && Writable(env, s)
    ensures Enabled(env, s, WriteBlock(elapsed)) <==>
            s.file.margin + 18446744073709551616 >= PredictSize(env, s.deque[0]) + 40 + |s.deque[0].key|
  {
    hide PredictSize;
  }

  /** A look at a field queues it, behind those that wait already, exactly if ten of its entries
      wait, or five seconds have gone by and one does. */
  lemma LookQueuesExactly(env: Env, s: State, name: string, elapsed: bool)
    requires Inv(env, s)
    ensures var t := Apply(env, s, Monitor(name, elapsed));
            && s.tasks <= t.tasks
            && forall f :: f in t.tasks <==>
                 f in s.tasks ||
                 (f == name && f in s.pending && (|s.pending[f]| >= 10 || (elapsed && |s.pending[f]| >= 1)))
  {
    hide DataOk, IndexOk, EntriesOk, SpaceOk, DequeOk, FieldsOk;
  }

  /** And so when a block is written: its field has one more entry waiting, and is queued exactly if
      ten of its entries wait now, or five seconds have gone by. No other field is queued. */
  lemma WriteQueuesExactly(env: Env, s: State, elapsed: bool)
    requires Inv(env, s) && Enabled(env, s, WriteBlock(elapsed))
    ensures var t, name := Apply(env, s, WriteBlock(elapsed)), s.deque[0].field;
            && name in t.pending && |t.pending[name]| == |Entries(s.pending, name)| + 1
            && s.tasks <= t.tasks
            && forall f :: f in t.tasks <==>
                 f in s.tasks || (f == name && (|t.pending[name]| >= 10 || elapsed))
  {
    hide DataOk, IndexOk, EntriesOk, SpaceOk, DequeOk, FieldsOk, PredictSize, EncodeBlock, Overwrite, NewFile;
  }

  lemma EmptyInv(env: Env)
    ensures Inv(env, EMPTY)
  {
  }

  /** Everything the invariant says holds after every run of one file whose first block fits. */
  lemma {:induction false} RunsKeepInv(env: Env, s: State, evs: seq<Event>)
    requires env.Valid() && Inv(env, s) && Legal(env, s, evs) && Fits(env, s, evs)
    ensures Inv(env, Run(env, s, evs))
    decreases |evs|
  {
    hide Inv, Apply, Enabled, FitsNow;
    if evs != [] {
      RunsKeepInv(env, s, evs[..|evs| - 1]);
      StepKeepsInv(env, Run(env, s, evs[..|evs| - 1]), evs[|evs| - 1]);
    }
  }

  /** From no file at all. */
  lemma FittingRun(env: Env, evs: seq<Event>)
    requires env.Valid() && Legal(env, EMPTY, evs) && Fits(env, EMPTY, evs)
    ensures Inv(env, Run(env, EMPTY, evs))
  {
    hide Run, Legal, Fits, Inv;
    EmptyInv(env);
    RunsKeepInv(env, EMPTY, evs);
  }

  // ---------- what a reader finds ----------

  /** Reading back, wherever the invariant holds, and so after any run over one file whose first
      block fits: the loader returns exactly the index blocks written, newest first, as soon as
      there is one, and never an empty answer before; every block written reads back whole from the
      offset in its entry. */
  lemma ReadBack(env: Env, s: State)
    requires env.Valid() && Inv(env, s) && s.file.OnDisk?
    ensures LoadIndex(s.file.bytes) == Some(LoadedAll(s.flushed)) <==> s.flushed != []
    ensures forall k :: 0 <= k < |s.log| ==>
              ReadBlock(env, s.file.bytes, s.log[k].1.offset) == Some(Stored(s.log[k].0))
  {
    hide ReadBlock, LoadIndex, At;
    IndexReads(env, s);
    forall k | 0 <= k < |s.log|
      ensures ReadBlock(env, s.file.bytes, s.log[k].1.offset) == Some(Stored(s.log[k].0))
    {
      assert BlockOk(env, s.file.bytes, s.log, k);
      ReadStored(env, s.file.bytes, s.log[k].1.offset, s.log[k].0);
    }
  }

  /** The entry of a written block carries its bounds. */
  lemma EntryOfBlock(env: Env, s: State, k: nat)
    requires Inv(env, s) && s.file.OnDisk? && k < |s.log|
    ensures var (b, e) := s.log[k];
            Storable(b) && e.maxTime == b.maxTime && e.minTime == b.minTime && e.size == PredictSize(env, b)
  {
    hide At;
    assert BlockOk(env, s.file.bytes, s.log, k);
  }

  lemma IndexReads(env: Env, s: State)
    requires Inv(env, s) && s.file.OnDisk?
    ensures LoadIndex(s.file.bytes) == Some(LoadedAll(s.flushed)) <==> s.flushed != []
  {
    hide ParseIndex, ParseIndexes, EncodeIndexes, I64, GetI64, Slice, Loaded;
    if s.flushed != [] {
      LoadWritten(s.file.bytes, s.file.tail, s.flushed);
    } else {
      I64RoundTrip(0);
      NeverEmpty(s.file.bytes, 0, TAIL_START);
    }
  }

  lemma NeverEmpty(f: Bytes, pos: nat, tail: int)
    requires pos < tail <= |f|
    ensures ParseIndexes(f, pos, tail) != Some([])
  {
  }

  /** Every entry the loader returns leads to a block of its field, and reading there gives
      that block. */
  lemma LoadedEntryReads(env: Env, s: State, i: nat, j: nat) returns (k: nat)
    requires env.Valid() && Inv(env, s) && s.file.OnDisk?
    requires i < |s.flushed| && j < |s.flushed[i].entries|
    ensures k < |s.log| && s.log[k].1 == s.flushed[i].entries[j] && s.log[k].0.field == s.flushed[i].field
    ensures s.flushed[i].field in s.fields && s.flushed[i].key == s.fields[s.flushed[i].field].key
    ensures ReadBlock(env, s.file.bytes, s.flushed[i].entries[j].offset) == Some(Stored(s.log[k].0))
  {
    hide ReadBlock, LoadIndex, At, BlockOk;
    ReadBack(env, s);
    var b := s.flushed[i];
    assert b in s.flushed;
    var e := b.entries[j];
    FlushedEntryListed(s.flushed, i, e);
    assert LogEntries(s.log, b.field) == FlushedEntries(s.flushed, b.field) + Entries(s.pending, b.field);
    assert e in LogEntries(s.log, b.field);
    k := LogEntryIndex(s.log, b.field, e);
  }

  lemma {:induction false} FlushedEntryListed(flushed: seq<IndexBlock>, i: nat, e: IndexEntry)
    requires i < |flushed| && e in flushed[i].entries
    ensures e in FlushedEntries(flushed, flushed[i].field)
  {
    if i > 0 {
      FlushedEntryListed(flushed[1..], i - 1, e);
    }
  }

  lemma {:induction false} LogEntryIndex(log: seq<(DataBlock, IndexEntry)>, f: string, e: IndexEntry) returns (k: nat)
    requires e in LogEntries(log, f)
    ensures k < |log| && log[k].1 == e && log[k].0.field == f
  {
    var init := log[..|log| - 1];
    if e in LogEntries(init, f) {
      k := LogEntryIndex(init, f, e);
    } else {
      k := |log| - 1;
    }
  }

  // ---------- conservation ----------

  function Arrived(evs: seq<Event>): seq<DataBlock> {
    if evs == [] then []
    else
      var e := evs[|evs| - 1];
      Arrived(evs[..|evs| - 1]) + (if e.Arrive? then [e.block] else [])
  }

  function Blocks(log: seq<(DataBlock, IndexEntry)>): (r: seq<DataBlock>)
    ensures |r| == |log|
    ensures forall k :: 0 <= k < |log| ==> r[k] == log[k].0
  {
    seq(|log|, k requires 0 <= k < |log| => log[k].0)
  }

  lemma StepConserves(env: Env, s: State, e: Event)
    requires Enabled(env, s, e)
    ensures var t := Apply(env, s, e);
            Blocks(t.log) + t.deque == Blocks(s.log) + s.deque + (if e.Arrive? then [e.block] else [])
  {
    hide PredictSize, EncodeBlock, Overwrite, WithIndexBlock, MarginAfter, NewFile;
    var t := Apply(env, s, e);
    if e.WriteBlock? {
      assert Blocks(t.log) == Blocks(s.log) + [s.deque[0]];
      assert s.deque == [s.deque[0]] + t.deque;
    }
  }

  /** No block is lost, repeated or reordered: those written, then those still queued, are
      those that arrived. */
  lemma {:induction false} BlocksConserved(env: Env, evs: seq<Event>)
    requires Legal(env, EMPTY, evs)
    ensures Blocks(Run(env, EMPTY, evs).log) + Run(env, EMPTY, evs).deque == Arrived(evs)
    decreases |evs|
  {
    hide Apply, Enabled, Blocks;
    if evs != [] {
      var init := evs[..|evs| - 1];
      BlocksConserved(env, init);
      StepConserves(env, Run(env, EMPTY, init), evs[|evs| - 1]);
    } else {
      assert |Blocks(EMPTY.log)| == 0;
    }
  }

  /** The data never meets the index, and the margin is exact. */
  lemma RegionsNeverMeet(env: Env, evs: seq<Event>)
    requires env.Valid() && Legal(env, EMPTY, evs) && Fits(env, EMPTY, evs) && Run(env, EMPTY, evs).file.OnDisk?
    ensures var s := Run(env, EMPTY, evs);
            && s.pending.Keys <= s.fields.Keys
            && s.file.margin == s.file.tail - s.file.head - Reserved(s.pending, s.fields)
            && 5 <= s.file.head <= s.file.tail <= 504 && |s.file.bytes| == 512
  {
    hide Run, Legal, Fits;
    FittingRun(env, evs);
  }
}
