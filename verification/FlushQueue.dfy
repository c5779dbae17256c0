/** The flush loop of engine/tsm/write.cpp over the life of one TSM file: module one writes
    the series index block of a queued field, module two writes the next data block,
    creates its index entry and books the space the entry will need.
    The file is scoped to no rollover; first blocks that do not fit are FirstBlock's subject. */
module FlushQueue {
  import opened Bytes
  import opened TsmFile

  const CAPACITY: int64 := DATA_BLOCK_MARGIN - 13
  const TAIL_START: int64 := DATA_BLOCK_MARGIN - 8

  datatype FieldInfo = FieldInfo(key: Bytes, typ: ColumnType, meta: bool)

  /** curr_file_path is empty, or a file with its booking. */
  datatype ShardFile =
    | NoFile
    | OnDisk(bytes: Bytes, margin: int64, head: int64, tail: int64)

  /** The writer's state.  log and flushed are its history: every block written with its
      entry in write order, every index block written, newest first. */
  datatype State = State(
    deque: seq<DataBlock>,
    pending: map<string, seq<IndexEntry>>,
    tasks: seq<string>, taskSet: set<string>,
    fields: map<string, FieldInfo>,
    file: ShardFile,
    log: seq<(DataBlock, IndexEntry)>,
    flushed: seq<IndexBlock>)

  const EMPTY := State([], map[], [], {}, map[], NoFile, [], [])

  // ---------- the steps ----------

  function Entries(pending: map<string, seq<IndexEntry>>, f: string): seq<IndexEntry> {
    if f in pending then pending[f] else []
  }

  /** should_flush_index: ten entries, or five seconds gone by and at least one. */
  predicate Due(s: State, f: string, elapsed: bool) {
    f in s.pending && (|s.pending[f]| >= 10 || (elapsed && s.pending[f] != []))
  }

  function PushTask(s: State, f: string): State {
    if f in s.taskSet then s else s.(taskSet := s.taskSet + {f}, tasks := s.tasks + [f])
  }

  function Watch(s: State, f: string, elapsed: bool): State {
    if Due(s, f, elapsed) then PushTask(s, f) else s
  }

  function NewFile(env: Env): ShardFile {
    var header := Overwrite([], 0, I32(1) + [1] + env.padding);
    OnDisk(Overwrite(header, DATA_BLOCK_MARGIN - FOOTER_SIZE, I64(0)), CAPACITY, HEADER_SIZE, TAIL_START)
  }

  /** The guard compares an int64 margin with a size_t sum: a negative margin wraps round. */
  predicate NeedNewFile(margin: int, predict: nat, keyLength: nat) {
    (if margin < 0 then margin + 0x1_0000_0000_0000_0000 else margin) < predict + 40 + keyLength
  }

  /** What module two leaves of the margin. */
  function MarginAfter(margin: int, predict: nat, info: FieldInfo): int {
    margin - predict - ENTRY_SIZE - (if info.meta then 0 else 8 + |info.key|)
  }

  /** The next block can be written to the current file, or opens the first one and fits. */
  ghost predicate Room(env: Env, s: State) {
    && s.deque != [] && Storable(s.deque[0]) && s.deque[0].field in s.fields
    && var b := s.deque[0];
    if s.file.NoFile? then
      MarginAfter(CAPACITY, PredictSize(env, b), s.fields[b.field]) >= 0
    else
      && !NeedNewFile(s.file.margin, PredictSize(env, b), |b.key|)
      && 0 <= s.file.margin <= CAPACITY && 0 <= s.file.head <= DATA_BLOCK_MARGIN
      && s.fields[b.field].key == b.key
  }

  /** The margin of the open file covers the next block and everything booked for it. */
  ghost predicate Pays(env: Env, s: State) {
    && s.deque != [] && Storable(s.deque[0]) && s.deque[0].field in s.fields
    && s.file.OnDisk? && 0 <= s.file.margin <= CAPACITY && 0 <= s.file.head <= DATA_BLOCK_MARGIN
    && MarginAfter(s.file.margin, PredictSize(env, s.deque[0]), s.fields[s.deque[0].field]) >= 0
  }

  /** What the sizes have to stay below for the 64-bit numbers not to run over. */
  const BIG := 0x4000_0000_0000_0000

  /** Module two can be carried out on the open file, whether the block fits or not. */
  ghost predicate Writable(env: Env, s: State) {
    && s.deque != [] && Storable(s.deque[0]) && s.deque[0].field in s.fields
    && s.file.OnDisk? && 0 <= s.file.head
    && s.file.head + PredictSize(env, s.deque[0]) <= BIG
    && -BIG <= MarginAfter(s.file.margin, PredictSize(env, s.deque[0]), s.fields[s.deque[0].field])
  }

  lemma PaysWritable(env: Env, s: State)
    requires Pays(env, s)
    ensures Writable(env, s) && Trunc32(PredictSize(env, s.deque[0])) == PredictSize(env, s.deque[0])
  {
    hide PredictSize;
  }

  /** Module two once a file is open: write the block, create its entry, book the space. */
  ghost function Append(env: Env, s: State): State
    requires Writable(env, s)
  {
    var b := s.deque[0];
    var info := s.fields[b.field];
    var size := PredictSize(env, b);
    var entry := IndexEntry(b.maxTime, b.minTime, s.file.head, Trunc32(size));
    s.(deque := s.deque[1..],
       pending := s.pending[b.field := Entries(s.pending, b.field) + [entry]],
       fields := s.fields[b.field := info.(meta := true)],
       file := OnDisk(Overwrite(s.file.bytes, s.file.head, EncodeBlock(env, b)),
                      MarginAfter(s.file.margin, size, info), s.file.head + size, s.file.tail),
       log := s.log + [(b, entry)])
  }

  function Opened(env: Env, s: State): State {
    if s.file.NoFile? then s.(file := NewFile(env)) else s
  }

  ghost function DataStep(env: Env, s: State): State
    requires Room(env, s)
  {
    Append(env, Opened(env, s))
  }

  function TaskBlock(s: State): IndexBlock
    requires s.tasks != [] && s.tasks[0] in s.fields && s.tasks[0] in s.pending
  {
    var f := s.tasks[0];
    IndexBlock(f, s.fields[f].key, s.fields[f].typ, s.pending[f])
  }

  /** Module one can be carried out, wherever the tail goes. */
  predicate TaskWaits(s: State) {
    && s.tasks != [] && s.tasks[0] in s.fields && s.tasks[0] in s.pending
    && s.pending[s.tasks[0]] != []
    && s.file.OnDisk? && -BIG <= s.file.tail - IndexSize(TaskBlock(s))
  }

  /** The block goes to an offset inside the file. */
  predicate TaskReady(s: State) {
    TaskWaits(s) && 0 <= s.file.tail - IndexSize(TaskBlock(s))
  }

  /** Module one when the file then holds the given bytes. */
  function IndexDone(s: State, bytes: Bytes): State
    requires TaskWaits(s)
  {
    var f := s.tasks[0];
    var block := TaskBlock(s);
    s.(tasks := s.tasks[1..], taskSet := s.taskSet - {f},
       pending := s.pending - {f},
       fields := s.fields[f := s.fields[f].(meta := false)],
       file := s.file.(bytes := bytes, tail := s.file.tail - IndexSize(block)),
       flushed := [block] + s.flushed)
  }

  function IndexStep(s: State): State
    requires TaskReady(s)
  {
    IndexDone(s, WithIndexBlock(s.file.bytes, s.file.tail - IndexSize(TaskBlock(s)), TaskBlock(s)))
  }

  // ---------- space ----------

  /** What the booking holds back for one field: its entries and, once reserved, its meta. */
  function Cost(entries: seq<IndexEntry>, info: FieldInfo): nat {
    ENTRY_SIZE * |entries| + (if info.meta then 8 + |info.key| else 0)
  }

  ghost function Reserved(pending: map<string, seq<IndexEntry>>, fields: map<string, FieldInfo>): nat
    requires pending.Keys <= fields.Keys
    decreases |pending|
  {
    if pending == map[] then 0
    else
      var f :| f in pending;
      assert (pending - {f}).Keys == pending.Keys - {f};
      assert |pending.Keys - {f}| < |pending.Keys|;
      assert |pending - {f}| == |(pending - {f}).Keys|;
      Cost(pending[f], fields[f]) + Reserved(pending - {f}, fields)
  }

  lemma SmallerMap(pending: map<string, seq<IndexEntry>>, f: string)
    requires f in pending
    ensures |pending - {f}| < |pending| && (pending - {f}).Keys == pending.Keys - {f}
  {
    assert (pending - {f}).Keys == pending.Keys - {f};
    assert |pending.Keys - {f}| < |pending.Keys|;
    assert |pending - {f}| == |(pending - {f}).Keys|;
  }

  /** Any field can be taken out of the sum first. */
  lemma {:induction false} ReservedTake(
    pending: map<string, seq<IndexEntry>>, fields: map<string, FieldInfo>, f: string)
    requires pending.Keys <= fields.Keys && f in pending
    ensures Reserved(pending, fields) == Cost(pending[f], fields[f]) + Reserved(pending - {f}, fields)
    decreases |pending|
  {
    var g :| g in pending && Reserved(pending, fields) == Cost(pending[g], fields[g]) + Reserved(pending - {g}, fields);
    if g != f {
      SmallerMap(pending, f);
      SmallerMap(pending, g);
      ReservedTake(pending - {g}, fields, f);
      ReservedTake(pending - {f}, fields, g);
      assert pending - {g} - {f} == pending - {f} - {g};
    }
  }

  /** The sum reads only the fields that have entries. */
  lemma {:induction false} ReservedFrame(
    pending: map<string, seq<IndexEntry>>, a: map<string, FieldInfo>, b: map<string, FieldInfo>)
    requires pending.Keys <= a.Keys && pending.Keys <= b.Keys
    requires forall f :: f in pending ==> a[f] == b[f]
    ensures Reserved(pending, a) == Reserved(pending, b)
    decreases |pending|
  {
    if pending != map[] {
      var g :| g in pending && Reserved(pending, a) == Cost(pending[g], a[g]) + Reserved(pending - {g}, a);
      SmallerMap(pending, g);
      ReservedFrame(pending - {g}, a, b);
      ReservedTake(pending, b, g);
    }
  }
}
