/** The Write object of engine/tsm/write.cpp: deques, maps and the open file, changed in
    place, each method tied to the step it performs. */
module Writer {
  import opened Bytes
  import opened TsmFile
  import opened FlushQueue
  import opened FlushInvariant
  import opened FlushRuns

  class Write {
    var dataDeque: seq<DataBlock>
    var indexMap: map<string, seq<IndexEntry>>
    var taskQueue: seq<string>
    var taskSet: set<string>
    var fieldMap: map<string, FieldInfo>
    var file: File?
    var margin: int64
    var headOffset: int64
    var tailOffset: int64
    ghost var log: seq<(DataBlock, IndexEntry)>
    ghost var flushed: seq<IndexBlock>

    ghost function View(): State
      reads this, file
    {
      State(dataDeque, indexMap, taskQueue, taskSet, fieldMap,
            if file == null then NoFile else OnDisk(file.bytes, margin, headOffset, tailOffset),
            log, flushed)
    }

    constructor ()
      ensures View() == EMPTY
    {
      dataDeque, indexMap, taskQueue, taskSet, fieldMap := [], map[], [], {}, map[];
      file := null;
      margin, headOffset, tailOffset := 0, 0, 0;
      log, flushed := [], [];
    }

    /** The part of get_field that creates the field. */
    method RegisterField(name: string, key: Bytes, typ: ColumnType)
      requires name !in fieldMap
      modifies this
      ensures View() == old(View()).(fields := old(fieldMap)[name := FieldInfo(key, typ, false)])
      ensures file == old(file)
    {
      fieldMap := fieldMap[name := FieldInfo(key, typ, false)];
    }

    method PushDataToDeque(b: DataBlock)
      modifies this
      ensures View() == old(View()).(deque := old(dataDeque) + [b])
      ensures file == old(file)
    {
      dataDeque := dataDeque + [b];
    }

    method PopDataFromDeque() returns (b: DataBlock)
      requires dataDeque != []
      modifies this
      ensures b == old(dataDeque)[0] && View() == old(View()).(deque := old(dataDeque)[1..])
      ensures file == old(file)
    {
      b := dataDeque[0];
      dataDeque := dataDeque[1..];
    }

    method ShouldFlushIndex(name: string, elapsed: bool) returns (due: bool)
      ensures due == Due(View(), name, elapsed)
    {
      if name in indexMap {
        return |indexMap[name]| >= 10 || (elapsed && indexMap[name] != []);
      }
      return false;
    }

    /** No field is queued twice, and the set holds the queued fields. */
    ghost predicate QueuedOnce()
      reads this
    {
      && (forall i, j :: 0 <= i < j < |taskQueue| ==> taskQueue[i] != taskQueue[j])
      && taskSet == set f | f in taskQueue
    }

    method PushTask(name: string)
      modifies this
      ensures old(QueuedOnce()) ==> QueuedOnce() && name in taskQueue && old(taskQueue) <= taskQueue
      ensures View() == FlushQueue.PushTask(old(View()), name)
      ensures file == old(file)
    {
      if name !in taskSet {
        taskSet := taskSet + {name};
        taskQueue := taskQueue + [name];
      }
    }

    method PopTask() returns (name: string)
      requires taskQueue != []
      modifies this
      ensures name == old(taskQueue)[0]
      ensures View() == old(View()).(tasks := old(taskQueue)[1..], taskSet := old(taskSet) - {name})
      ensures file == old(file)
    {
      name := taskQueue[0];
      taskQueue := taskQueue[1..];
      taskSet := taskSet - {name};
    }

    /** The monitor thread's check of one field, as one step. */
    method MonitorIndex(name: string, elapsed: bool)
      modifies this
      ensures View() == Watch(old(View()), name, elapsed)
      ensures file == old(file)
    {
      var due := ShouldFlushIndex(name, elapsed);
      if due {
        PushTask(name);
      }
    }

    method PushIndexToDeque(name: string, e: IndexEntry)
      modifies this
      ensures View() == old(View()).(pending := old(indexMap)[name := Entries(old(indexMap), name) + [e]])
      ensures file == old(file)
    {
      if name !in indexMap {
        indexMap := indexMap[name := []];
      }
      indexMap := indexMap[name := indexMap[name] + [e]];
    }

    /** Module one of the flush loop. */
    method FlushIndexBlock(ghost env: Env)
      requires Inv(env, View()) && taskQueue != []
      modifies this, file
      ensures Enabled(env, old(View()), FlushIndex([])) && View() == Apply(env, old(View()), FlushIndex([]))
      ensures Inv(env, View()) && |taskQueue| == |old(taskQueue)| - 1 && dataDeque == old(dataDeque)
      ensures file == old(file) && file != null
    {
      hide WithIndexBlock, EncodeIndex, DataOk, EntriesOk, SpaceOk, IndexOk, DequeOk, Reserved, At;
      ghost var s := View();
      TaskHasRoom(env, s);
      IndexKeepsInv(env, s);
      IndexSizeIsLength(TaskBlock(s));
      var name := PopTask();
      var entries := indexMap[name];
      var key := fieldMap[name].key;
      var size := ENTRY_SIZE * |entries| + 8 + |key|;
      var tail: int64 := tailOffset - size;
      var written := file.WriteSeriesIndexBlock(IndexBlock(name, key, fieldMap[name].typ, entries), tail);
      indexMap := indexMap - {name};
      tailOffset := tail;
      fieldMap := fieldMap[name := fieldMap[name].(meta := false)];
      flushed := [TaskBlock(s)] + flushed;
      assert View() == IndexStep(s);
    }

    /** create_tsm_file_init with the header and footer of the flush loop. */
    method CreateTsmFile(env: Env)
      requires env.Valid() && file == null
      modifies this
      ensures View() == Opened(env, old(View())) && fresh(file)
      ensures margin == 499 && headOffset == 5 && tailOffset == 504 && |file.bytes| == 512
    {
      hide Overwrite, I32, I64;
      file := new File();
      margin := CAPACITY;
      headOffset := HEADER_SIZE;
      tailOffset := TAIL_START;
      file.WriteHeader(1, 1, env.padding);
      file.WriteFooter(0, DATA_BLOCK_MARGIN);
    }

    /** The booking half of module two: entry, margin, head, meta reservation. */
    method BookEntry(b: DataBlock, size: nat)
      requires b.field in fieldMap && file != null
      requires 0 <= headOffset && headOffset + size <= BIG && -BIG <= MarginAfter(margin, size, fieldMap[b.field])
      modifies this
      ensures file == old(file)
      ensures var s := old(View());
              var e := IndexEntry(b.maxTime, b.minTime, s.file.head, Trunc32(size));
              View() == s.(pending := s.pending[b.field := Entries(s.pending, b.field) + [e]],
                           fields := s.fields[b.field := s.fields[b.field].(meta := true)],
                           file := s.file.(margin := MarginAfter(s.file.margin, size, s.fields[b.field]),
                                           head := s.file.head + size),
                           log := s.log + [(b, e)])
    {
      hide Trunc32;
      var e := IndexEntry(b.maxTime, b.minTime, headOffset, Trunc32(size));
      margin := margin - size;
      headOffset := headOffset + size;
      PushIndexToDeque(b.field, e);
      margin := margin - ENTRY_SIZE;
      if !fieldMap[b.field].meta {
        margin := margin - (8 + |fieldMap[b.field].key|);
        fieldMap := fieldMap[b.field := fieldMap[b.field].(meta := true)];
      } else {
        assert fieldMap[b.field := fieldMap[b.field].(meta := true)] == fieldMap;
      }
      log := log + [(b, e)];
    }

    /** Module two once the file is open. */
    method AppendBlock(env: Env)
      requires file != null && Writable(env, View())
      modifies this, file
      ensures View() == Append(env, old(View())) && file == old(file)
    {
      hide Overwrite, EncodeData, CompressedTimestamps, CompressedValues, Trunc32;
      var b := PopDataFromDeque();
      var timestamps := CompressedTimestamps(env, b);
      var values := CompressedValues(env, b);
      var size := file.WriteData(b.typ, b.num, timestamps, values, headOffset);
      BookEntry(b, size);
    }

    /** Module two of the flush loop, for a block that needs no further file. The first block of
        the file is written whatever its size. */
    method WriteDataBlock(env: Env, elapsed: bool)
      requires env.Valid() && dataDeque != [] && Writable(env, Opened(env, View()))
      modifies this, file
      ensures View() == Watch(Append(env, Opened(env, old(View()))), old(dataDeque)[0].field, elapsed)
      ensures old(Enabled(env, View(), WriteBlock(elapsed))) ==>
                View() == Apply(env, old(View()), WriteBlock(elapsed))
      ensures old(Inv(env, View()) && Room(env, View())) ==> Inv(env, View())
      ensures |taskQueue| <= |old(taskQueue)| + 1 && dataDeque == old(dataDeque)[1..]
      ensures file != null && (file == old(file) || fresh(file))
    {
      hide Overwrite, EncodeBlock, NewFile, Inv, Room, Writable, PredictSize, MarginAfter, Trunc32;
      ghost var s := View();
      if Inv(env, s) && Room(env, s) {
        RoomEnables(env, s, elapsed);
        StepKeepsInv(env, s, WriteBlock(elapsed));
      }
      if file == null {
        CreateTsmFile(env);
      }
      var name := dataDeque[0].field;
      AppendBlock(env);
      MonitorIndex(name, elapsed);
    }

    /** One pass of the loop: module one if a task waits, then module two if a block waits
        and fits the file.  before is the run so far, from s. */
    method FlushPass(env: Env, ghost s: State, ghost before: seq<Event>) returns (wrote: bool, ghost evs: seq<Event>)
      requires env.Valid() && Inv(env, View()) && FirstFits(env, View())
      requires Legal(env, s, before) && Fits(env, s, before) && View() == Run(env, s, before) && FlushEvents(before)
      modifies this, file
      ensures Legal(env, s, evs) && Fits(env, s, evs) && View() == Run(env, s, evs) && FlushEvents(evs)
      ensures Inv(env, View()) && FirstFits(env, View())
      ensures file == old(file) || fresh(file)
      ensures wrote ==> old(dataDeque) != [] && dataDeque == old(dataDeque)[1..]
                        && |taskQueue| <= (if |old(taskQueue)| > 0 then |old(taskQueue)| else 1)
      ensures !wrote && dataDeque != [] ==>
                && file != null && Storable(dataDeque[0])
                && margin < PredictSize(env, dataDeque[0]) + 40 + |dataDeque[0].key|
      ensures !wrote ==> dataDeque == old(dataDeque)
                         && |taskQueue| == (if |old(taskQueue)| > 0 then |old(taskQueue)| - 1 else 0)
    {
      hide Apply, Enabled, FitsNow, Inv, Room, PredictSize, MarginAfter, NeedNewFile, Legal, Run, Fits;
      hide Writable, Append, Watch;
      evs := before;
      if taskQueue != [] {
        TaskEnabled(env, View());
        RunSnoc(env, s, evs, FlushIndex([]));
        FlushIndexBlock(env);
        evs := evs + [FlushIndex([])];
      }
      if dataDeque == [] {
        return false, evs;
      }
      FrontStorable(env, View());
      if file != null && NeedNewFile(margin, PredictSize(env, dataDeque[0]), |dataDeque[0].key|) {
        NeedsFileExactly(env, View());
        return false, evs;
      }
      var elapsed: bool := *;
      RoomNow(env, View());
      RoomEnables(env, View(), elapsed);
      RunSnoc(env, s, evs, WriteBlock(elapsed));
      OpenedFits(env, View());
      WriteDataBlock(env, elapsed);
      return true, evs + [WriteBlock(elapsed)];
    }

    /** queue_flush_disk.  It ends with no block left, or at a block that needs another
        file; a run that starts with at most one task leaves none. */
    method QueueFlushDisk(env: Env) returns (ghost evs: seq<Event>)
      requires env.Valid() && Inv(env, View()) && FirstFits(env, View())
      modifies this, file
      ensures Legal(env, old(View()), evs) && Fits(env, old(View()), evs) && FlushEvents(evs)
      ensures View() == Run(env, old(View()), evs)
      ensures dataDeque != [] ==>
                && file != null && Storable(dataDeque[0])
                && margin < PredictSize(env, dataDeque[0]) + 40 + |dataDeque[0].key|
      ensures |taskQueue| <= (if |old(taskQueue)| > 1 then |old(taskQueue)| else 1) - 1
      ensures file == old(file) || fresh(file)
    {
      hide Apply, Enabled, Inv, FirstFits, PredictSize;
      evs := [];
      ghost var s := View();
      var wrote := true;
      while wrote
        invariant Legal(env, s, evs) && Fits(env, s, evs) && View() == Run(env, s, evs) && FlushEvents(evs)
        invariant Inv(env, View()) && FirstFits(env, View())
        invariant file == old(file) || fresh(file)
        invariant |taskQueue| <= (if |old(taskQueue)| > 1 then |old(taskQueue)| else 1) - (if wrote then 0 else 1)
        invariant !wrote && dataDeque != [] ==>
                    && file != null && Storable(dataDeque[0])
                    && margin < PredictSize(env, dataDeque[0]) + 40 + |dataDeque[0].key|
        decreases wrote, 2 * |dataDeque| + |taskQueue|
      {
        wrote, evs := FlushPass(env, s, evs);
      }
    }
  }

  ghost predicate FlushEvents(evs: seq<Event>) {
    forall e :: e in evs ==> e.FlushIndex? || e.WriteBlock?
  }

  /** The first block of a file, if one is due, leaves a margin. */
  ghost predicate FirstFits(env: Env, s: State) {
    s.file.NoFile? && s.deque != [] ==>
      && Registered(s, s.deque[0])
      && MarginAfter(CAPACITY, PredictSize(env, s.deque[0]), s.fields[s.deque[0].field]) >= 0
  }

  lemma NeedsFileExactly(env: Env, s: State)
    requires Inv(env, s) && s.file.OnDisk? && s.deque != [] && Storable(s.deque[0])
    requires NeedNewFile(s.file.margin, PredictSize(env, s.deque[0]), |s.deque[0].key|)
    ensures s.file.margin < PredictSize(env, s.deque[0]) + 40 + |s.deque[0].key|
  {
    hide PredictSize, DataOk, IndexOk, EntriesOk, At;
  }

  lemma FrontStorable(env: Env, s: State)
    requires Inv(env, s) && s.deque != []
    ensures Registered(s, s.deque[0])
  {
  }

  lemma RoomNow(env: Env, s: State)
    requires Inv(env, s) && s.deque != [] && Registered(s, s.deque[0])
    requires if s.file.NoFile? then FirstFits(env, s)
             else !NeedNewFile(s.file.margin, PredictSize(env, s.deque[0]), |s.deque[0].key|)
    ensures Room(env, s)
  {
    BlockHasRoom(env, s);
  }

  lemma TaskEnabled(env: Env, s: State)
    requires Inv(env, s) && s.tasks != []
    ensures Enabled(env, s, FlushIndex([])) && FitsNow(env, s, FlushIndex([]))
  {
    TaskHasRoom(env, s);
  }

  lemma RoomEnables(env: Env, s: State, elapsed: bool)
    requires env.Valid() && Inv(env, s) && Room(env, s)
    ensures Enabled(env, s, WriteBlock(elapsed)) && FitsNow(env, s, WriteBlock(elapsed))
  {
    hide PredictSize, MarginAfter, NeedNewFile, Writable;
    FrontStorable(env, s);
    OpenedFits(env, s);
  }

  /** Once the file is open, the block stays clear of everything already in the file. */
  lemma OpenedFits(env: Env, s: State)
    requires env.Valid() && Inv(env, s) && Room(env, s)
    ensures Pays(env, Opened(env, s)) && Writable(env, Opened(env, s))
    ensures |Opened(env, s).file.bytes| == DATA_BLOCK_MARGIN
    ensures Opened(env, s).file.head + PredictSize(env, s.deque[0]) <= DATA_BLOCK_MARGIN
  {
    OpenedInv(env, s);
    PaysWritable(env, Opened(env, s));
  }
}
