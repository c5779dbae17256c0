/** What every step of the flush loop keeps, and what every run over one file leaves on
    disk. */
module FlushInvariant {
  import opened Bytes
  import opened TsmFile
  import opened FlushQueue

  // ---------- the invariant, part by part ----------

  /** The task list has no duplicates, the task set holds its elements, and every queued
      field has entries waiting. */
  ghost predicate TasksOk(s: State) {
    && (forall i, j :: 0 <= i < j < |s.tasks| ==> s.tasks[i] != s.tasks[j])
    && s.taskSet == (set f | f in s.tasks)
    && (forall f :: f in s.tasks ==> f in s.pending)
  }

  /** A field has its meta reserved exactly while it has entries waiting. */
  ghost predicate FieldsOk(s: State) {
    && s.pending.Keys <= s.fields.Keys
    && (forall f :: f in s.pending ==> s.pending[f] != [])
    && (forall f :: f in s.fields ==> (s.fields[f].meta <==> f in s.pending))
  }

  /** Queued blocks belong to registered fields and carry their field's key. */
  ghost predicate Registered(s: State, b: DataBlock) {
    Storable(b) && b.field in s.fields && s.fields[b.field].key == b.key
  }

  ghost predicate DequeOk(s: State) {
    forall k :: 0 <= k < |s.deque| ==> Registered(s, s.deque[k])
  }

  /** The space law: the margin is the gap between the regions less everything reserved. */
  ghost predicate SpaceOk(s: State)
    requires s.pending.Keys <= s.fields.Keys
  {
    match s.file
    case NoFile => s.pending == map[] && s.log == [] && s.flushed == []
    case OnDisk(_, margin, head, tail) =>
      && margin >= 0
      && margin == tail - head - Reserved(s.pending, s.fields)
      && HEADER_SIZE <= head && tail <= TAIL_START
  }

  function EndOfData(log: seq<(DataBlock, IndexEntry)>): int {
    if log == [] then HEADER_SIZE else log[|log| - 1].1.offset + log[|log| - 1].1.size
  }

  /** The k-th block stands at its entry's offset, right after its predecessor. */
  ghost predicate BlockOk(env: Env, f: Bytes, log: seq<(DataBlock, IndexEntry)>, k: int)
    requires 0 <= k < |log|
  {
    var (b, e) := log[k];
    && Storable(b)
    && e == IndexEntry(b.maxTime, b.minTime, e.offset, e.size) && e.size == PredictSize(env, b)
    && HEADER_SIZE <= e.offset == EndOfData(log[..k])
    && e.offset + e.size <= EndOfData(log)
    && At(f, e.offset, EncodeBlock(env, b))
  }

  ghost predicate DataOk(env: Env, s: State) {
    s.file.OnDisk? ==>
      && |s.file.bytes| == DATA_BLOCK_MARGIN
      && s.file.head == EndOfData(s.log)
      && At(s.file.bytes, 0, I32(1) + [1])
      && forall k :: 0 <= k < |s.log| ==> BlockOk(env, s.file.bytes, s.log, k)
  }

  /** The index blocks fill the file from the tail to the footer, newest first, and the
      footer holds the tail, or zero before the first index block. */
  ghost predicate IndexOk(s: State) {
    s.file.OnDisk? ==>
      && |s.file.bytes| == DATA_BLOCK_MARGIN
      && s.file.tail + |EncodeIndexes(s.flushed)| == TAIL_START
      && At(s.file.bytes, s.file.tail, EncodeIndexes(s.flushed))
      && At(s.file.bytes, TAIL_START, I64(if s.flushed == [] then 0 else s.file.tail))
      && forall b :: b in s.flushed ==>
           && Encodable(b) && b.entries != []
           && b.field in s.fields && b.key == s.fields[b.field].key && b.typ == s.fields[b.field].typ
  }

  // ---------- the entries of one field ----------

  function LogEntries(log: seq<(DataBlock, IndexEntry)>, f: string): seq<IndexEntry> {
    if log == [] then []
    else
      var last := log[|log| - 1];
      LogEntries(log[..|log| - 1], f) + (if last.0.field == f then [last.1] else [])
  }

  function FlushedEntries(flushed: seq<IndexBlock>, f: string): seq<IndexEntry> {
    if flushed == [] then []
    else FlushedEntries(flushed[1..], f) + (if flushed[0].field == f then flushed[0].entries else [])
  }

  /** Each block of the field has exactly one entry: in an index block or waiting, in the
      order the blocks were written. */
  ghost predicate EntriesOk(s: State) {
    forall f: string {:trigger LogEntries(s.log, f)} ::
      LogEntries(s.log, f) == FlushedEntries(s.flushed, f) + Entries(s.pending, f)
  }

  ghost predicate Inv(env: Env, s: State) {
    && FieldsOk(s) && TasksOk(s) && DequeOk(s) && SpaceOk(s)
    && DataOk(env, s) && IndexOk(s) && EntriesOk(s)
    && (s.file.NoFile? ==> s.tasks == [])
  }

  // ---------- readiness ----------

  lemma TaskHasRoom(env: Env, s: State)
    requires Inv(env, s) && s.tasks != []
    ensures TaskReady(s)
    ensures IndexSize(TaskBlock(s)) == Cost(s.pending[s.tasks[0]], s.fields[s.tasks[0]])
    ensures s.file.head <= s.file.tail - IndexSize(TaskBlock(s))
    ensures Encodable(TaskBlock(s))
  {
    var f := s.tasks[0];
    assert f in s.tasks;
    ReservedTake(s.pending, s.fields, f);
  }

  lemma BlockHasRoom(env: Env, s: State)
    requires Inv(env, s) && s.deque != []
    requires var b := s.deque[0];
             if s.file.NoFile? then MarginAfter(CAPACITY, PredictSize(env, b), s.fields[b.field]) >= 0
             else !NeedNewFile(s.file.margin, PredictSize(env, b), |b.key|)
    ensures Room(env, s)
    ensures s.file.OnDisk? ==>
              var b, info := s.deque[0], s.fields[s.deque[0].field];
              s.file.head + PredictSize(env, b) + ENTRY_SIZE + (if info.meta then 0 else 8 + |info.key|) <=
              s.file.tail - Reserved(s.pending, s.fields)
  {
    assert Registered(s, s.deque[0]);
  }

  // ---------- index step ----------

  lemma IndexKeepsTasks(env: Env, s: State)
    requires Inv(env, s) && s.tasks != []
    ensures TaskReady(s) && FieldsOk(IndexStep(s)) && TasksOk(IndexStep(s)) && DequeOk(IndexStep(s))
  {
    hide EncodeIndex, WithIndexBlock, DataOk, IndexOk, EntriesOk;
    TaskHasRoom(env, s);
    var f, t := s.tasks[0], IndexStep(s);
    assert s.tasks == [f] + t.tasks;
    assert forall k :: 0 <= k < |t.deque| && Registered(s, s.deque[k]) ==> Registered(t, t.deque[k]);
  }

  lemma IndexKeepsSpace(env: Env, s: State)
    requires Inv(env, s) && s.tasks != [] && TaskReady(s)
    requires FieldsOk(IndexStep(s))
    ensures SpaceOk(IndexStep(s)) && IndexStep(s).file.margin == s.file.margin
  {
    TaskHasRoom(env, s);
    var f, t := s.tasks[0], IndexStep(s);
    ReservedTake(s.pending, s.fields, f);
    ReservedFrame(t.pending, s.fields, t.fields);
  }

  lemma WithIndexBlockAt(f: Bytes, tail: int64, b: IndexBlock, rest: Bytes)
    requires |f| == DATA_BLOCK_MARGIN && Encodable(b)
    requires 0 <= tail && tail + |EncodeIndex(b)| + |rest| == TAIL_START
    requires At(f, tail + |EncodeIndex(b)|, rest)
    ensures |WithIndexBlock(f, tail, b)| == DATA_BLOCK_MARGIN
    ensures At(WithIndexBlock(f, tail, b), tail, EncodeIndex(b) + rest)
    ensures At(WithIndexBlock(f, tail, b), TAIL_START, I64(tail))
  {
    hide Slice, Overwrite, EncodeIndex, I64;
    var f1 := Overwrite(f, tail, EncodeIndex(b));
    OverwriteAt(f, tail, EncodeIndex(b));
    OverwriteKeeps(f, tail, EncodeIndex(b), tail + |EncodeIndex(b)|, rest);
    OverwriteKeeps(f1, TAIL_START, I64(tail), tail, EncodeIndex(b));
    OverwriteKeeps(f1, TAIL_START, I64(tail), tail + |EncodeIndex(b)|, rest);
    OverwriteAt(f1, TAIL_START, I64(tail));
    AtSplit(WithIndexBlock(f, tail, b), tail, EncodeIndex(b), rest);
  }

  lemma WithIndexBlockKeeps(f: Bytes, tail: int64, b: IndexBlock, pos: int, x: Bytes)
    requires |f| == DATA_BLOCK_MARGIN && Encodable(b)
    requires 0 <= tail && tail + |EncodeIndex(b)| <= TAIL_START
    requires At(f, pos, x) && pos + |x| <= tail
    ensures At(WithIndexBlock(f, tail, b), pos, x)
  {
    hide Slice, Overwrite, EncodeIndex, I64;
    var f1 := Overwrite(f, tail, EncodeIndex(b));
    OverwriteKeeps(f, tail, EncodeIndex(b), pos, x);
    OverwriteKeeps(f1, TAIL_START, I64(tail), pos, x);
  }

  lemma IndexKeepsData(env: Env, s: State)
    requires Inv(env, s) && s.tasks != [] && TaskReady(s)
    ensures DataOk(env, IndexStep(s))
  {
    hide EncodeBlock, EncodeIndex, WithIndexBlock, I32, At;
    TaskHasRoom(env, s);
    var b, t := TaskBlock(s), IndexStep(s);
    IndexSizeIsLength(b);
    WithIndexBlockSize(s.file.bytes, t.file.tail, b);
    WithIndexBlockKeeps(s.file.bytes, t.file.tail, b, 0, I32(1) + [1]);
    forall k | 0 <= k < |s.log|
      ensures BlockOk(env, t.file.bytes, t.log, k)
    {
      assert BlockOk(env, s.file.bytes, s.log, k);
      WithIndexBlockKeeps(s.file.bytes, t.file.tail, b, s.log[k].1.offset, EncodeBlock(env, s.log[k].0));
    }
  }

  lemma WithIndexBlockSize(f: Bytes, tail: int64, b: IndexBlock)
    requires |f| == DATA_BLOCK_MARGIN && Encodable(b)
    requires 0 <= tail && tail + |EncodeIndex(b)| <= TAIL_START
    ensures |WithIndexBlock(f, tail, b)| == DATA_BLOCK_MARGIN
  {
  }

  lemma IndexKeepsIndex(env: Env, s: State)
    requires Inv(env, s) && s.tasks != [] && TaskReady(s)
    ensures IndexOk(IndexStep(s))
  {
    hide EncodeIndex, WithIndexBlock, At, I64;
    TaskHasRoom(env, s);
    var b, t := TaskBlock(s), IndexStep(s);
    IndexSizeIsLength(b);
    WithIndexBlockAt(s.file.bytes, t.file.tail, b, EncodeIndexes(s.flushed));
    assert t.flushed[1..] == s.flushed;
    assert EncodeIndexes(t.flushed) == EncodeIndex(b) + EncodeIndexes(s.flushed);
  }

  lemma IndexKeepsEntries(env: Env, s: State)
    requires Inv(env, s) && s.tasks != [] && TaskReady(s)
    ensures EntriesOk(IndexStep(s))
  {
    var b, t := TaskBlock(s), IndexStep(s);
    assert t.flushed[1..] == s.flushed;
    forall f: string
      ensures LogEntries(t.log, f) == FlushedEntries(t.flushed, f) + Entries(t.pending, f)
    {
      assert LogEntries(s.log, f) == FlushedEntries(s.flushed, f) + Entries(s.pending, f);
      assert FlushedEntries(t.flushed, f) == FlushedEntries(s.flushed, f) + (if b.field == f then b.entries else []);
    }
  }

  lemma IndexKeepsInv(env: Env, s: State)
    requires Inv(env, s) && s.tasks != []
    ensures TaskReady(s) && Inv(env, IndexStep(s))
    ensures IndexStep(s).file.margin == s.file.margin
  {
    hide DataOk, IndexOk, EntriesOk, SpaceOk;
    IndexKeepsTasks(env, s);
    IndexKeepsSpace(env, s);
    IndexKeepsData(env, s);
    IndexKeepsIndex(env, s);
    IndexKeepsEntries(env, s);
  }

  // ---------- data step ----------

  lemma NewFileLayout(env: Env)
    requires env.Valid()
    ensures |NewFile(env).bytes| == 512
    ensures NewFile(env).margin == 499 && NewFile(env).head == 5 && NewFile(env).tail == 504
    ensures At(NewFile(env).bytes, 0, I32(1) + [1]) && At(NewFile(env).bytes, 504, I64(0))
  {
    hide I32, I64, Slice, Overwrite;
    var h := I32(1) + [1] + env.padding;
    var header := Overwrite([], 0, h);
    OverwriteAt([], 0, h);
    AtSplit(header, 0, I32(1) + [1], env.padding);
    FooterFar(header, I64(0));
    OverwriteKeepsShort(header, I64(0), I32(1) + [1]);
  }

  /** The first footer leaves a gap behind the header. */
  lemma FooterFar(header: Bytes, footer: Bytes)
    requires |header| == FOOTER_SIZE == |footer|
    ensures |Overwrite(header, TAIL_START, footer)| == DATA_BLOCK_MARGIN
    ensures At(Overwrite(header, TAIL_START, footer), TAIL_START, footer)
  {
  }

  lemma OverwriteKeepsShort(header: Bytes, footer: Bytes, x: Bytes)
    requires |header| == FOOTER_SIZE && At(header, 0, x)
    ensures At(Overwrite(header, TAIL_START, footer), 0, x)
  {
  }

  lemma OpenedInv(env: Env, s: State)
    requires env.Valid() && Inv(env, s)
    ensures Inv(env, Opened(env, s))
  {
    if s.file.NoFile? {
      NewFileLayout(env);
      assert Reserved(map[], s.fields) == 0;
    }
  }

  lemma AppendKeepsTasks(env: Env, s: State)
    requires Inv(env, s) && Pays(env, s)
    ensures FieldsOk(Append(env, s)) && TasksOk(Append(env, s)) && DequeOk(Append(env, s))
  {
    var t := Append(env, s);
    forall k | 0 <= k < |t.deque|
      ensures Registered(t, t.deque[k])
    {
      assert Registered(s, s.deque[k + 1]);
    }
  }

  lemma AppendKeepsSpace(env: Env, s: State)
    requires Inv(env, s) && Pays(env, s)
    requires FieldsOk(Append(env, s))
    ensures SpaceOk(Append(env, s))
  {
    hide PredictSize, EncodeBlock, Overwrite, DataOk, IndexOk, EntriesOk, TasksOk, DequeOk, At;
    var f, t := s.deque[0].field, Append(env, s);
    ReservedTake(t.pending, t.fields, f);
    var others := t.pending - {f};
    assert others == s.pending - {f};
    ReservedFrame(others, s.fields, t.fields);
    if f in s.pending {
      ReservedTake(s.pending, s.fields, f);
    } else {
      assert s.pending - {f} == s.pending;
    }
  }

  /** What a paid block leaves in the file and in the history. */
  lemma AppendWrites(env: Env, s: State)
    requires Pays(env, s)
    ensures var t, b, size := Append(env, s), s.deque[0], PredictSize(env, s.deque[0]);
            && t.log == s.log + [(b, IndexEntry(b.maxTime, b.minTime, s.file.head, size))]
            && t.file.OnDisk? && t.file.head == s.file.head + size && t.file.tail == s.file.tail
            && t.file.bytes == Overwrite(s.file.bytes, s.file.head, EncodeBlock(env, b))
            && t.flushed == s.flushed
  {
    hide Overwrite, EncodeBlock;
    PaysWritable(env, s);
  }

  /** Writing right behind the data. */
  lemma DataGrows(env: Env, f: Bytes, log: seq<(DataBlock, IndexEntry)>, b: DataBlock, e: IndexEntry)
    requires |f| == DATA_BLOCK_MARGIN && Storable(b) && HEADER_SIZE <= e.offset == EndOfData(log) <= |f|
    requires e == IndexEntry(b.maxTime, b.minTime, e.offset, e.size) && e.size == PredictSize(env, b)
    requires At(f, 0, I32(1) + [1]) && forall k :: 0 <= k < |log| ==> BlockOk(env, f, log, k)
    ensures var g, all := Overwrite(f, e.offset, EncodeBlock(env, b)), log + [(b, e)];
            At(g, 0, I32(1) + [1]) && forall k :: 0 <= k < |all| ==> BlockOk(env, g, all, k)
  {
    hide EncodeBlock, Overwrite, I32, At, PredictSize;
    var g, all, n := Overwrite(f, e.offset, EncodeBlock(env, b)), log + [(b, e)], |log|;
    OverwriteKeeps(f, e.offset, EncodeBlock(env, b), 0, I32(1) + [1]);
    OverwriteAt(f, e.offset, EncodeBlock(env, b));
    assert all[..n] == log;
    forall k | 0 <= k < |all|
      ensures BlockOk(env, g, all, k)
    {
      if k < n {
        assert BlockOk(env, f, log, k);
        assert all[..k] == log[..k];
        OverwriteKeeps(f, e.offset, EncodeBlock(env, b), log[k].1.offset, EncodeBlock(env, log[k].0));
      }
    }
  }

  lemma AppendKeepsData(env: Env, s: State)
    requires Inv(env, s) && Pays(env, s)
    ensures DataOk(env, Append(env, s))
  {
    hide EncodeBlock, Overwrite, I32, At, PredictSize, Append, BlockOk;
    var b := s.deque[0];
    AppendWrites(env, s);
    LogStarts(env, s);
    var e := Append(env, s).log[|s.log|].1;
    DataGrows(env, s.file.bytes, s.log, b, e);
    AppendStays(env, s);
  }

  /** The data starts behind the header, and the file keeps its size. */
  lemma LogStarts(env: Env, s: State)
    requires Inv(env, s) && s.file.OnDisk?
    ensures HEADER_SIZE <= s.file.head <= |s.file.bytes|
  {
  }

  lemma AppendStays(env: Env, s: State)
    requires Inv(env, s) && Pays(env, s)
    ensures |Append(env, s).file.bytes| == DATA_BLOCK_MARGIN
  {
    hide Append, EncodeBlock;
    AppendWrites(env, s);
  }

  lemma AppendKeepsIndex(env: Env, s: State)
    requires Inv(env, s) && Pays(env, s)
    ensures IndexOk(Append(env, s))
  {
    hide EncodeBlock, EncodeIndexes, Overwrite, I64, At, PredictSize;
    var b := s.deque[0];
    OverwriteKeeps(s.file.bytes, s.file.head, EncodeBlock(env, b), s.file.tail, EncodeIndexes(s.flushed));
    OverwriteKeeps(s.file.bytes, s.file.head, EncodeBlock(env, b), TAIL_START,
                   I64(if s.flushed == [] then 0 else s.file.tail));
  }

  lemma AppendKeepsEntries(env: Env, s: State)
    requires Inv(env, s) && Pays(env, s)
    ensures EntriesOk(Append(env, s))
  {
    hide EncodeBlock, Overwrite, PredictSize, DataOk, IndexOk, SpaceOk, TasksOk, FieldsOk, DequeOk, NewFile;
    var t := Append(env, s);
    assert t.log[..|s.log|] == s.log;
    forall f: string
      ensures LogEntries(t.log, f) == FlushedEntries(t.flushed, f) + Entries(t.pending, f)
    {
      assert LogEntries(s.log, f) == FlushedEntries(s.flushed, f) + Entries(s.pending, f);
    }
  }

  lemma DataKeepsInv(env: Env, s: State)
    requires env.Valid() && Inv(env, s) && Room(env, s)
    ensures Inv(env, DataStep(env, s))
  {
    hide DataOk, IndexOk, EntriesOk, SpaceOk, PredictSize;
    var o := Opened(env, s);
    OpenedInv(env, s);
    AppendKeepsTasks(env, o);
    AppendKeepsSpace(env, o);
    AppendKeepsData(env, o);
    AppendKeepsIndex(env, o);
    AppendKeepsEntries(env, o);
  }
}
