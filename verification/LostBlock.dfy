/** First blocks that do not fit their file: every compressor has one, and what is lost of it. */
module LostBlock {
  import opened Bytes
  import opened TsmFile
  import opened FlushQueue
  import opened FlushInvariant
  import opened FlushRuns
  import opened FirstBlock
  import Columns
  import Compression

  // ---------- what the two writes leave of the block ----------

  /** x at position a and y at position b agree where they meet. */
  ghost predicate Agree(a: int, x: Bytes, b: int, y: Bytes) {
    forall k :: 0 <= k < |x| && b <= a + k < b + |y| ==> x[k] == y[a + k - b]
  }

  lemma OverwriteBytes(f: Bytes, off: nat, d: Bytes)
    requires off + |d| <= |f|
    ensures |Overwrite(f, off, d)| == |f|
    ensures forall k :: 0 <= k < |f| ==>
              Overwrite(f, off, d)[k] == if off <= k < off + |d| then d[k - off] else f[k]
  {
  }

  lemma AtBytes(f: Bytes, pos: nat, x: Bytes)
    requires pos + |x| <= |f|
    ensures At(f, pos, x) <==> forall k :: 0 <= k < |x| ==> x[k] == f[pos + k]
  {
    if At(f, pos, x) {
      forall k | 0 <= k < |x| ensures x[k] == f[pos + k] {
        assert x[k] == Slice(f, pos, |x|)[k];
      }
    }
  }

  /** A write leaves x standing exactly if it agrees with x. */
  lemma OverwriteAgrees(f: Bytes, off: nat, d: Bytes, pos: nat, x: Bytes)
    requires off + |d| <= |f| && At(f, pos, x)
    ensures At(Overwrite(f, off, d), pos, x) <==> Agree(pos, x, off, d)
  {
    hide At, Overwrite;
    assert pos + |x| <= |f| by { AtInside(f, pos, x); }
    var r := Overwrite(f, off, d);
    OverwriteBytes(f, off, d);
    AtBytes(f, pos, x);
    AtBytes(r, pos, x);
    if At(r, pos, x) {
      forall k | 0 <= k < |x| && off <= pos + k < off + |d|
        ensures x[k] == d[pos + k - off]
      {
        assert x[k] == r[pos + k];
      }
    }
    if Agree(pos, x, off, d) {
      forall k | 0 <= k < |x|
        ensures x[k] == r[pos + k]
      {
        assert x[k] == f[pos + k];
      }
    }
  }

  lemma AtInside(f: Bytes, pos: int, x: Bytes)
    requires At(f, pos, x)
    ensures 0 <= pos && pos + |x| <= |f|
  {
  }

  lemma TwoWritesAgree(f: Bytes, a: nat, x: Bytes, b: nat, y: Bytes, pos: nat, d: Bytes)
    requires a + |x| <= b && b + |y| <= |f| && At(f, pos, d)
    ensures At(Overwrite(Overwrite(f, a, x), b, y), pos, d) <==> Agree(pos, d, a, x) && Agree(pos, d, b, y)
  {
    hide At, Overwrite;
    var once := Overwrite(f, a, x);
    var twice := Overwrite(once, b, y);
    AtInside(f, pos, d);
    OverwriteBytes(f, a, x);
    OverwriteBytes(once, b, y);
    AtBytes(f, pos, d);
    AtBytes(twice, pos, d);
    if At(twice, pos, d) {
      assert forall k :: 0 <= k < |d| ==> d[k] == twice[pos + k];
    }
    if Agree(pos, d, a, x) && Agree(pos, d, b, y) {
      assert forall k :: 0 <= k < |d| ==> d[k] == f[pos + k];
    }
  }

  /** After the first block and its index flush the block still stands in the file if and only if
      its bytes agree with those of the index block and of the footer where they meet. */
  lemma LostExactly(env: Env, s: State, left: Bytes)
    requires env.Valid() && First(env, s)
    ensures Enabled(env, s, WriteBlock(true))
    ensures Enabled(env, Apply(env, s, WriteBlock(true)), FlushIndex(left))
    ensures var u := Apply(env, Apply(env, s, WriteBlock(true)), FlushIndex(left));
            && |u.log| == 1 && |u.flushed| == 1 && u.file.OnDisk? && u.log[0].0 == s.deque[0]
            && var block, start := EncodeBlock(env, s.deque[0]), u.log[0].1.offset;
               At(u.file.bytes, start, block) <==>
               && Agree(start, block, u.file.tail, EncodeIndex(u.flushed[0]))
               && Agree(start, block, |u.file.bytes| - FOOTER_SIZE, I64(u.file.tail))
  {
    hide PredictSize, EncodeBlock, Apply, Enabled, Inv, I64, Agree, At, Overwrite, EncodeIndex;
    var b := s.deque[0];
    FirstWritten(env, s);
    NewFileLayout(env);
    var t := Apply(env, s, WriteBlock(true));
    WrittenStorable(env, s);
    OverwriteAt(NewFile(env).bytes, HEADER_SIZE, EncodeBlock(env, b));
    FlushedAgrees(env, t, b, t.log[0].1, left, HEADER_SIZE, EncodeBlock(env, b));
  }

  /** What the index flush leaves of bytes d in the file. */
  lemma FlushedAgrees(env: Env, t: State, b: DataBlock, e: IndexEntry, left: Bytes, pos: nat, d: Bytes)
    requires t.tasks == [b.field] && t.pending == map[b.field := [e]] && t.file.OnDisk? && t.file.tail == TAIL_START
    requires b.field in t.fields && t.fields[b.field].key == b.key && |b.key| <= TAIL_START - 36
    requires |t.file.bytes| >= DATA_BLOCK_MARGIN && t.flushed == [] && At(t.file.bytes, pos, d)
    ensures TaskReady(t) && Enabled(env, t, FlushIndex(left))
    ensures var u := Apply(env, t, FlushIndex(left));
            && |u.flushed| == 1 && u.file.OnDisk? && u.log == t.log
            && (At(u.file.bytes, pos, d) <==>
                && Agree(pos, d, u.file.tail, EncodeIndex(u.flushed[0]))
                && Agree(pos, d, |u.file.bytes| - FOOTER_SIZE, I64(u.file.tail)))
  {
    hide Apply, Enabled, Agree, At, Overwrite, EncodeIndex, I64;
    FirstFlushed(env, t, b, e, left);
    FlushedBytes(env, t, left);
    IndexSizeIsLength(TaskBlock(t));
    var tail := TAIL_START - 36 - |b.key|;
    OverwriteBytes(t.file.bytes, tail, EncodeIndex(TaskBlock(t)));
    TwoWritesAgree(t.file.bytes, tail, EncodeIndex(TaskBlock(t)), |t.file.bytes| - FOOTER_SIZE, I64(tail), pos, d);
  }

  lemma WrittenStorable(env: Env, s: State)
    requires Enabled(env, s, WriteBlock(true))
    ensures s.deque != [] && Storable(s.deque[0])
  {
  }

  lemma FlushedBytes(env: Env, t: State, left: Bytes)
    requires Enabled(env, t, FlushIndex(left)) && TaskReady(t)
    ensures var u, tail := Apply(env, t, FlushIndex(left)), t.file.tail - IndexSize(TaskBlock(t));
            && u.flushed == [TaskBlock(t)] + t.flushed
            && u.file.bytes == WithIndexBlock(t.file.bytes, tail, TaskBlock(t))
  {
    hide EncodeIndex, I64, WithIndexBlock;
  }

  // ---------- every compressor has such a block ----------

  /** One point with the given value. */
  function OneValue(v: Bytes): DataBlock {
    DataBlock("f", [], 1, 1, [1], [v], 1, 1)
  }

  /** The field appears and its block arrives. */
  function Arrival(v: Bytes): seq<Event> {
    [Register("f", [], String), Arrive(OneValue(v))]
  }

  /** The block is written and its index flushed. */
  function OneRun(v: Bytes): seq<Event> {
    Arrival(v) + [WriteBlock(true)] + [FlushIndex([])]
  }

  lemma OneStorable(v: Bytes)
    requires |v| < 0x8000_0000
    ensures Storable(OneValue(v))
  {
    Columns.NonNegativeNeverOverflows([1]);
  }

  /** Up to the write. */
  lemma Arrives(env: Env, v: Bytes) returns (s: State)
    requires env.Valid() && |v| < 0x8000_0000 && Storable(OneValue(v)) && PredictSize(env, OneValue(v)) <= BIG / 2
    ensures First(env, s) && s.deque == [OneValue(v)] && s.fields == map["f" := FieldInfo([], String, false)]
    ensures Legal(env, EMPTY, Arrival(v)) && Run(env, EMPTY, Arrival(v)) == s && Fits(env, EMPTY, Arrival(v))
  {
    hide PredictSize, Inv, Storable;
    EmptyInv(env);
    var e1, e2 := Register("f", [], String), Arrive(OneValue(v));
    RunSnoc(env, EMPTY, [], e1);
    assert [] + [e1] == [e1];
    var s1 := Run(env, EMPTY, [e1]);
    assert s1 == EMPTY.(fields := map["f" := FieldInfo([], String, false)]);
    StepKeepsInv(env, EMPTY, e1);
    RunSnoc(env, EMPTY, [e1], e2);
    StepKeepsInv(env, s1, e2);
    s := Run(env, EMPTY, [e1] + [e2]);
    assert [e1] + [e2] == [e1, e2];
  }

  /** The whole run, for any compressor and any value. */
  lemma Written(env: Env, v: Bytes) returns (s: State)
    requires env.Valid() && |v| < 0x8000_0000 && Storable(OneValue(v)) && PredictSize(env, OneValue(v)) <= BIG / 2
    ensures First(env, s) && s.deque == [OneValue(v)] && Enabled(env, s, WriteBlock(true))
    ensures Enabled(env, Apply(env, s, WriteBlock(true)), FlushIndex([]))
    ensures Legal(env, EMPTY, OneRun(v))
    ensures Run(env, EMPTY, OneRun(v)) == Apply(env, Apply(env, s, WriteBlock(true)), FlushIndex([]))
    ensures Fits(env, EMPTY, OneRun(v)) <==> 36 + PredictSize(env, OneValue(v)) <= 499
  {
    hide PredictSize, Apply, Enabled, Legal, Run, Fits, Inv, Storable;
    s := Arrives(env, v);
    RangesMeet(env, s, []);
    RunSnoc(env, EMPTY, Arrival(v), WriteBlock(true));
    RunSnoc(env, EMPTY, Arrival(v) + [WriteBlock(true)], FlushIndex([]));
  }

  /** What the model has to know of a compressor's results to write them: their lengths stay far
      below 2^64. */
  ghost predicate Bounded(env: Env) {
    forall x :: |x| < 0x8000_0000 ==> |env.compress(x)| < BIG / 8
  }

  /** For every compressor, and every length from 448 on, there is a value of that length whose block
      does not fit as the first of its file: after its run the bytes of the block meet those of
      its index block or of the footer, and it still stands there only if the bytes agree. */
  lemma EveryCompressorMisfits(env: Env, n: nat) returns (v: Bytes)
    requires env.Valid() && Bounded(env) && 448 <= n < 0x4000_0000
    ensures |v| == n && Storable(OneValue(v))
    ensures Legal(env, EMPTY, OneRun(v)) && !Fits(env, EMPTY, OneRun(v))
    ensures var u, size := Run(env, EMPTY, OneRun(v)), PredictSize(env, OneValue(v));
            && |u.log| == 1 && |u.flushed| == 1 && u.log[0].0 == OneValue(v) && u.file.OnDisk?
            && var block, start := EncodeBlock(env, OneValue(v)), u.log[0].1.offset;
               && (Meet(start, size, u.file.tail, TAIL_START - u.file.tail) ||
                   Meet(start, size, |u.file.bytes| - FOOTER_SIZE, FOOTER_SIZE))
               && (At(u.file.bytes, start, block) <==>
                   && Agree(start, block, u.file.tail, EncodeIndex(u.flushed[0]))
                   && Agree(start, block, |u.file.bytes| - FOOTER_SIZE, I64(u.file.tail)))
  {
    hide Apply, Enabled, Legal, Run, Fits, Inv, Storable, At, Agree, EncodeBlock, First, I64;
    v := Compression.SomeValueStays(env, n);
    OneStorable(v);
    OneSize(env, v);
    var s := Written(env, v);
    RangesMeet(env, s, []);
    LostExactly(env, s, []);
  }

  lemma OneSize(env: Env, v: Bytes)
    requires |v| < 0x4000_0000 && Storable(OneValue(v)) && Bounded(env)
    ensures 16 + |Compression.Packed(env, v)| <= PredictSize(env, OneValue(v)) <= BIG / 2
  {
    hide I32, I64;
    var b := OneValue(v);
    assert b.values == [v];
    assert |Columns.EncodeDifferences(Columns.Differences(b.timestamps))| == 8;
    assert Columns.EncodeStrings([v]) == I32(Trunc32(|v|)) + v + Columns.EncodeStrings([v][1..]);
  }

  // ---------- a compressor that changes nothing ----------

  const SAME := Env((x: Bytes) => x, (x: Bytes) => x, [0, 0, 0])

  lemma ZerosSize(n: nat)
    requires n < 0x8000_0000
    ensures Storable(OneValue(Zeros(n))) && PredictSize(SAME, OneValue(Zeros(n))) == 28 + n
  {
    hide I32, I64;
    var b := OneValue(Zeros(n));
    OneStorable(Zeros(n));
    assert Columns.EncodeStrings(b.values) == I32(Trunc32(n)) + Zeros(n) + Columns.EncodeStrings(b.values[1..]);
    assert |Columns.EncodeDifferences(Columns.Differences(b.timestamps))| == 8;
  }

  /** The value that ends a block with one point stands right behind its other columns. */
  lemma ReadEnds(f: Bytes, pos: nat, typ: int32, num: int32, t: int, v: Bytes)
    requires ReadBlock(SAME, f, pos) == Some(StoredBlock(typ, num, [t], [v]))
    ensures pos + 28 + |v| <= |f| && Slice(f, pos + 28, |v|) == v
  {
    hide GetI32, Columns.DecodeDifferences, Columns.DecodeStrings, Columns.Restore;
    var nt, nv := GetI32(Slice(f, pos + 8, 4)), GetI32(Slice(f, pos + 12, 4));
    var ct, cv := Slice(f, pos + 16, nt), Slice(f, pos + 16 + nt, nv);
    OneDifference(ct, t);
    OneString(cv, v);
    assert Slice(f, pos + 28, |v|) == cv[4..];
  }

  lemma OneDifference(s: Bytes, t: int)
    requires Columns.DecodeDifferences(s).Ok? && Columns.Restore(Columns.DecodeDifferences(s).value) == [t]
    ensures |s| == 8
  {
    var ds := Columns.DecodeDifferences(s).value;
    assert |ds| == 1;
    assert Columns.DecodeDifferences(s[8..]).value == [];
    assert s[8..] == [];
  }

  lemma OneString(s: Bytes, v: Bytes)
    requires Columns.DecodeStrings(s) == Columns.Ok([v])
    ensures |s| == 4 + |v| && s[4..] == v
  {
    hide GetI32;
    var n := GetI32(s[..4]);
    var x, tail := s[4..4 + n], s[4 + n..];
    NoStrings(tail);
    var rest := Columns.DecodeStrings(tail).value;
    assert |[x] + rest| == |[v]|;
    assert ([x] + rest)[0] == [v][0];
  }

  lemma NoStrings(s: Bytes)
    requires Columns.DecodeStrings(s).Ok?
    ensures Columns.DecodeStrings(s).value == [] ==> s == []
  {
    hide GetI32;
  }

  /** With the compressor that changes nothing the block of 480 zeros or more is an example: it
      reaches under the footer, and reading it back does not give it any more. */
  lemma ZerosAreLost(n: nat)
    requires 480 <= n < 0x4000_0000
    ensures SAME.Valid() && Legal(SAME, EMPTY, OneRun(Zeros(n))) && !Fits(SAME, EMPTY, OneRun(Zeros(n)))
    ensures var u := Run(SAME, EMPTY, OneRun(Zeros(n)));
            && |u.log| == 1 && u.log[0].0 == OneValue(Zeros(n)) && u.file.OnDisk?
            && ReadBlock(SAME, u.file.bytes, u.log[0].1.offset) != Some(Stored(OneValue(Zeros(n))))
  {
    hide PredictSize, EncodeBlock, Apply, Enabled, Run, Legal, Fits, I64, ReadBlock, Inv, Storable, First;
    ZerosSize(n);
    var s := Written(SAME, Zeros(n));
    FooterWritten(SAME, s);
    var u := Run(SAME, EMPTY, OneRun(Zeros(n)));
    if ReadBlock(SAME, u.file.bytes, HEADER_SIZE) == Some(Stored(OneValue(Zeros(n)))) {
      ReadEnds(u.file.bytes, HEADER_SIZE, 1, 1, 1, Zeros(n));
      FooterIsNotZero(u.file.bytes, n);
    }
  }

  /** Behind the larger block stands the footer. */
  lemma FooterWritten(env: Env, s: State)
    requires env.Valid() && First(env, s) && Enabled(env, s, WriteBlock(true)) && PredictSize(env, s.deque[0]) > 507
    requires Enabled(env, Apply(env, s, WriteBlock(true)), FlushIndex([])) && s.deque[0].key == []
    ensures var u := Apply(env, Apply(env, s, WriteBlock(true)), FlushIndex([]));
            && |u.log| == 1 && u.log[0].0 == s.deque[0] && u.log[0].1.offset == HEADER_SIZE && u.file.OnDisk?
            && |u.file.bytes| == HEADER_SIZE + PredictSize(env, s.deque[0])
            && At(u.file.bytes, |u.file.bytes| - FOOTER_SIZE, I64(TAIL_START - 36))
  {
    hide PredictSize, EncodeBlock, Apply, Enabled, Inv, I64;
    FirstWritten(env, s);
    NewFileLayout(env);
    var t := Apply(env, s, WriteBlock(true));
    FirstFlushed(env, t, s.deque[0], t.log[0].1, []);
  }

  /** The footer holds 468, so its first byte is not zero. */
  lemma FooterIsNotZero(f: Bytes, n: nat)
    requires |f| == HEADER_SIZE + 28 + n && n >= 480 && At(f, |f| - FOOTER_SIZE, I64(TAIL_START - 36))
    ensures Slice(f, HEADER_SIZE + 28, n) != Zeros(n)
  {
    var footer := I64(TAIL_START - 36);
    assert footer[0] == 468 % 256;
    assert f[|f| - FOOTER_SIZE] == Slice(f, |f| - FOOTER_SIZE, 8)[0] == footer[0];
    assert Slice(f, HEADER_SIZE + 28, n)[n - FOOTER_SIZE] == f[|f| - FOOTER_SIZE];
  }
}
