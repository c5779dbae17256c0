/** What a query gets of a field out of the file its blocks were written to: the loader, the grouping
    under keys, the block reader and the iterator of one series, one after the other. */
module SeriesRead {
  import opened Bytes
  import opened TsmFile
  import opened FlushQueue
  import opened FlushInvariant
  import FlushRuns
  import opened RowAssembly

  // ---------- reading ----------

  function Text(v: Bytes): (s: string)
    ensures |s| == |v|
  {
    seq(|v|, i requires 0 <= i < |v| => v[i] as char)
  }

  /** The points of a block, a value for every time. */
  function Points(b: StoredBlock): (ps: seq<Point>) {
    var n := if |b.timestamps| <= |b.values| then |b.timestamps| else |b.values|;
    seq(n, i requires 0 <= i < n => Point(b.timestamps[i], Text(b.values[i])))
  }

  /** Each time goes with the value at its own place, and a value's characters are its bytes. */
  lemma PointsPair(b: StoredBlock, i: nat)
    requires i < |b.timestamps| && i < |b.values|
    ensures i < |Points(b)| && Points(b)[i].time == b.timestamps[i] && |Points(b)[i].data| == |b.values[i]|
    ensures forall k :: 0 <= k < |b.values[i]| ==> Points(b)[i].data[k] as int == b.values[i][k]
    ensures |b.timestamps| == |b.values| ==> |Points(b)| == |b.timestamps|
  {
  }

  /** get_curr_tsm_file_data for one entry. */
  function PointsAt(env: Env, f: Bytes, e: IndexEntry): seq<Point> {
    match ReadBlock(env, f, e.offset)
    case None => []
    case Some(b) => Points(b)
  }

  /** A TagSetIterator's blocks: of each index block it follows the first entry only. */
  function FirstBlocks(env: Env, f: Bytes, bs: seq<SeriesIndexBlock>): Series {
    if bs == [] then []
    else
      (if bs[0].entries == [] then [] else [PointsAt(env, f, bs[0].entries[0])]) + FirstBlocks(env, f, bs[1..])
  }

  /** The blocks a query finds in a file under a key. */
  function QuerySeries(env: Env, f: Bytes, key: Bytes): Series {
    match LoadIndex(f)
    case None => []
    case Some(bs) => FirstBlocks(env, f, Under(Grouped(map[], bs), key))
  }

  // ---------- the same from the history ----------

  /** The points written with an entry. */
  function Behind(log: seq<(DataBlock, IndexEntry)>, e: IndexEntry): seq<Point> {
    if log == [] then []
    else
      var last := log[|log| - 1];
      if last.1 == e then Points(Stored(last.0)) else Behind(log[..|log| - 1], e)
  }

  /** The blocks written of a field, oldest first. */
  function Written(log: seq<(DataBlock, IndexEntry)>, f: string): Series {
    if log == [] then []
    else
      var last := log[|log| - 1];
      Written(log[..|log| - 1], f) + (if last.0.field == f then [Points(Stored(last.0))] else [])
  }

  /** The blocks behind the first entries of the index blocks of a field, newest first. */
  function Found(log: seq<(DataBlock, IndexEntry)>, flushed: seq<IndexBlock>, f: string): Series {
    if flushed == [] then []
    else
      var b := flushed[0];
      (if b.field == f && b.entries != [] then [Behind(log, b.entries[0])] else []) + Found(log, flushed[1..], f)
  }

  /** No other field has the key of this one up to the first zero. */
  ghost predicate OwnKey(s: State, f: string) {
    && f in s.fields
    && forall g :: g in s.fields && g != f ==> CString(s.fields[g].key, 0) != CString(s.fields[f].key, 0)
  }

  lemma {:induction false} BehindIs(log: seq<(DataBlock, IndexEntry)>, e: IndexEntry) returns (k: nat)
    requires exists i :: 0 <= i < |log| && log[i].1 == e
    ensures k < |log| && log[k].1 == e && Behind(log, e) == Points(Stored(log[k].0))
  {
    var n := |log| - 1;
    if log[n].1 == e {
      k := n;
    } else {
      var i :| 0 <= i < |log| && log[i].1 == e;
      assert log[..n][i].1 == e;
      k := BehindIs(log[..n], e);
    }
  }

  /** Reading at an entry gives what was written with it. */
  lemma ReadsBehind(env: Env, s: State, e: IndexEntry)
    requires env.Valid() && Inv(env, s) && s.file.OnDisk?
    requires exists i :: 0 <= i < |s.log| && s.log[i].1 == e
    ensures PointsAt(env, s.file.bytes, e) == Behind(s.log, e)
  {
    hide ReadBlock, Inv, Points, LoadIndex;
    FlushRuns.ReadBack(env, s);
    var k := BehindIs(s.log, e);
  }

  /** So the block of every entry in the history is the one behind it. */
  lemma BehindLog(env: Env, s: State, k: nat)
    requires env.Valid() && Inv(env, s) && s.file.OnDisk? && k < |s.log|
    ensures Behind(s.log, s.log[k].1) == Points(Stored(s.log[k].0))
  {
    hide ReadBlock, Inv, Points, LoadIndex;
    FlushRuns.ReadBack(env, s);
    var i := BehindIs(s.log, s.log[k].1);
  }

  // ---------- a query gets the first entries ----------

  /** From the n-th newest index block on. */
  lemma {:induction false} FindsFrom(env: Env, s: State, f: string, n: nat)
    requires env.Valid() && Inv(env, s) && s.file.OnDisk? && OwnKey(s, f) && n <= |s.flushed|
    ensures FirstBlocks(env, s.file.bytes, OfKey(LoadedAll(s.flushed[n..]), CString(s.fields[f].key, 0)))
            == Found(s.log, s.flushed[n..], f)
    decreases |s.flushed| - n
  {
    hide PointsAt, Behind, Inv, CString;
    var key := CString(s.fields[f].key, 0);
    if n < |s.flushed| {
      var b := s.flushed[n];
      FindsFrom(env, s, f, n + 1);
      assert s.flushed[n..][1..] == s.flushed[n + 1..];
      assert LoadedAll(s.flushed[n..])[1..] == LoadedAll(s.flushed[n + 1..]);
      FlushedKey(env, s, n);
      assert (Loaded(b).key == key) <==> b.field == f;
      var later := OfKey(LoadedAll(s.flushed[n + 1..]), key);
      if b.field == f {
        assert OfKey(LoadedAll(s.flushed[n..]), key) == [Loaded(b)] + later;
        if b.entries != [] {
          var k := FlushRuns.LoadedEntryReads(env, s, n, 0);
          ReadsBehind(env, s, b.entries[0]);
        }
      } else {
        assert OfKey(LoadedAll(s.flushed[n..]), key) == later;
      }
    }
  }

  lemma FlushedKey(env: Env, s: State, n: nat)
    requires Inv(env, s) && s.file.OnDisk? && n < |s.flushed|
    ensures s.flushed[n].field in s.fields && s.flushed[n].key == s.fields[s.flushed[n].field].key
  {
    hide EntriesOk, DataOk, SpaceOk, TasksOk, At;
    assert s.flushed[n] in s.flushed;
  }

  /** What a query finds of a field is the blocks behind the first entries of its index blocks,
      newest first. */
  lemma FindsFirstEntries(env: Env, s: State, f: string)
    requires env.Valid() && Inv(env, s) && s.file.OnDisk? && OwnKey(s, f) && s.flushed != []
    ensures QuerySeries(env, s.file.bytes, CString(s.fields[f].key, 0)) == Found(s.log, s.flushed, f)
  {
    hide Inv, LoadIndex, CString, FirstBlocks, Found, OfKey, ReadBlock;
    FlushRuns.ReadBack(env, s);
    var key := CString(s.fields[f].key, 0);
    GroupedLooks(map[], LoadedAll(s.flushed), key);
    assert Under(map[], key) + OfKey(LoadedAll(s.flushed), key) == OfKey(LoadedAll(s.flushed), key);
    FindsFrom(env, s, f, 0);
    assert s.flushed[0..] == s.flushed;
  }

  // ---------- when all points come back ----------

  /** Nothing of the field waits for an index block, and each of its index blocks has one entry. */
  ghost predicate Single(s: State, f: string) {
    && Entries(s.pending, f) == []
    && forall b :: b in s.flushed && b.field == f ==> |b.entries| == 1
  }

  ghost predicate HasPoints(log: seq<(DataBlock, IndexEntry)>, f: string) {
    forall k :: 0 <= k < |log| && log[k].0.field == f ==> Points(Stored(log[k].0)) != []
  }

  function Reversed(x: Series): Series {
    if x == [] then [] else Reversed(x[1..]) + [x[0]]
  }

  /** The points behind a list of entries. */
  function BehindAll(log: seq<(DataBlock, IndexEntry)>, es: seq<IndexEntry>): (r: Series)
    ensures |r| == |es|
  {
    seq(|es|, i requires 0 <= i < |es| => Behind(log, es[i]))
  }

  lemma {:induction false} WrittenBehind(env: Env, s: State, f: string, n: nat)
    requires env.Valid() && Inv(env, s) && s.file.OnDisk? && n <= |s.log|
    ensures Written(s.log[..n], f) == BehindAll(s.log, LogEntries(s.log[..n], f))
  {
    hide Inv, Behind, Points;
    if n > 0 {
      assert s.log[..n][..n - 1] == s.log[..n - 1];
      WrittenBehind(env, s, f, n - 1);
      BehindLog(env, s, n - 1);
    }
  }

  lemma {:induction false} FlattenLength(a: Series, b: Series)
    ensures |Flatten(a + b)| == |Flatten(a)| + |Flatten(b)|
    ensures multiset(Flatten(a + b)) == multiset(Flatten(a)) + multiset(Flatten(b))
  {
    if a == [] {
      assert a + b == b;
    } else {
      assert (a + b)[1..] == a[1..] + b;
      FlattenLength(a[1..], b);
    }
  }

  lemma {:induction false} FlattenReversed(x: Series)
    ensures multiset(Flatten(Reversed(x))) == multiset(Flatten(x))
  {
    if x != [] {
      FlattenLength(Reversed(x[1..]), [x[0]]);
      FlattenReversed(x[1..]);
      FlattenOne(x[0]);
    }
  }

  lemma FlattenOne(ps: seq<Point>)
    ensures Flatten([ps]) == ps
  {
    assert Flatten([ps]) == ps + Flatten([]);
  }

  lemma {:induction false} ReversedSnoc(x: Series, ps: seq<Point>)
    ensures Reversed(x + [ps]) == [ps] + Reversed(x)
  {
    if x != [] {
      assert (x + [ps])[1..] == x[1..] + [ps];
      ReversedSnoc(x[1..], ps);
    } else {
      assert Reversed([ps]) == Reversed([]) + [ps];
    }
  }

  /** Of one index block: the points behind its first entry, and all. */
  lemma BlockCount(log: seq<(DataBlock, IndexEntry)>, es: seq<IndexEntry>)
    requires es != [] && forall e :: e in es ==> Behind(log, e) != []
    ensures var all := Flatten(BehindAll(log, es));
            |Behind(log, es[0])| <= |all| && (|Behind(log, es[0])| == |all| ==> |es| == 1)
  {
    hide Behind, Flatten;
    var first, rest := [Behind(log, es[0])], BehindAll(log, es[1..]);
    assert BehindAll(log, es) == first + rest;
    FlattenLength(first, rest);
    FlattenOne(first[0]);
    if |es| > 1 {
      assert es[1] in es;
      FirstCounts(rest);
    }
  }

  /** The points found are at most those the index blocks lead to, and fewer if an index block has
      more than one entry. */
  lemma {:induction false} FoundCount(log: seq<(DataBlock, IndexEntry)>, flushed: seq<IndexBlock>, f: string)
    requires forall e :: e in FlushedEntries(flushed, f) ==> Behind(log, e) != []
    requires forall b :: b in flushed ==> b.entries != []
    ensures var all := Flatten(BehindAll(log, FlushedEntries(flushed, f)));
            && |Flatten(Found(log, flushed, f))| <= |all|
            && (|Flatten(Found(log, flushed, f))| == |all| ==>
                  forall b :: b in flushed && b.field == f ==> |b.entries| == 1)
  {
    hide Behind;
    if flushed != [] {
      var b, older := flushed[0], FlushedEntries(flushed[1..], f);
      FoundCount(log, flushed[1..], f);
      assert forall c :: c in flushed ==> c == b || c in flushed[1..];
      if b.field == f {
        assert BehindAll(log, older + b.entries) == BehindAll(log, older) + BehindAll(log, b.entries);
        FlattenLength(BehindAll(log, older), BehindAll(log, b.entries));
        FlattenLength([Behind(log, b.entries[0])], Found(log, flushed[1..], f));
        FlattenOne(Behind(log, b.entries[0]));
        BlockCount(log, b.entries);
      } else {
        assert older + [] == older;
        assert [] + Found(log, flushed[1..], f) == Found(log, flushed[1..], f);
      }
    }
  }

  lemma FirstCounts(x: Series)
    requires x != [] && x[0] != []
    ensures |Flatten(x)| > 0
  {
  }

  /** With one entry in each index block everything they lead to is found, newest first. */
  lemma {:induction false} FoundSingle(log: seq<(DataBlock, IndexEntry)>, flushed: seq<IndexBlock>, f: string)
    requires forall b :: b in flushed && b.field == f ==> |b.entries| == 1
    ensures Found(log, flushed, f) == Reversed(BehindAll(log, FlushedEntries(flushed, f)))
  {
    hide Behind;
    if flushed != [] {
      var b, older := flushed[0], FlushedEntries(flushed[1..], f);
      FoundSingle(log, flushed[1..], f);
      if b.field == f {
        assert b in flushed;
        assert BehindAll(log, older + b.entries) == BehindAll(log, older) + [Behind(log, b.entries[0])];
        ReversedSnoc(BehindAll(log, older), Behind(log, b.entries[0]));
      } else {
        assert older + [] == older;
        assert [] + Found(log, flushed[1..], f) == Found(log, flushed[1..], f);
      }
    }
  }

  ghost predicate NoneEmpty(x: Series) {
    forall i :: 0 <= i < |x| ==> x[i] != []
  }

  lemma {:induction false} FoundHasPoints(log: seq<(DataBlock, IndexEntry)>, flushed: seq<IndexBlock>, f: string)
    requires forall e :: e in FlushedEntries(flushed, f) ==> Behind(log, e) != []
    ensures NoneEmpty(Found(log, flushed, f))
  {
    hide Behind;
    if flushed != [] {
      FoundHasPoints(log, flushed[1..], f);
      var b := flushed[0];
      if b.field == f && b.entries != [] {
        assert b.entries[0] in FlushedEntries(flushed, f);
      }
    }
  }

  /** An iterator that stops early has not given all points. */
  lemma GivenCount(x: Series)
    requires NoneEmpty(x)
    ensures |Given(x)| <= |Flatten(x)|
    ensures |Given(x)| == |Flatten(x)| ==> Complete(x)
  {
    hide Flatten, Entered;
    var r := Reached(x, 0);
    FlattenLength(x[..r], x[r..]);
    assert x[..r] + x[r..] == x;
    if r < |x| {
      FirstCounts(x[r..]);
    }
  }

  /** Every entry of a field leads to points. */
  lemma EntriesHavePoints(env: Env, s: State, f: string)
    requires env.Valid() && Inv(env, s) && s.file.OnDisk? && HasPoints(s.log, f)
    ensures forall e :: e in LogEntries(s.log, f) ==> Behind(s.log, e) != []
  {
    hide Behind, Points, Inv;
    forall e | e in LogEntries(s.log, f)
      ensures Behind(s.log, e) != []
    {
      var k := FlushRuns.LogEntryIndex(s.log, f, e);
      BehindLog(env, s, k);
    }
  }

  /** Written are the blocks behind the entries of the index blocks and behind those that wait. */
  lemma WrittenParts(env: Env, s: State, f: string)
    requires env.Valid() && Inv(env, s) && s.file.OnDisk?
    ensures LogEntries(s.log, f) == FlushedEntries(s.flushed, f) + Entries(s.pending, f)
    ensures Written(s.log, f) ==
            BehindAll(s.log, FlushedEntries(s.flushed, f)) + BehindAll(s.log, Entries(s.pending, f))
    ensures forall b :: b in s.flushed ==> b.entries != []
  {
    hide Behind, Points, DataOk, SpaceOk, TasksOk, At, Written, LogEntries, FlushedEntries;
    WrittenBehind(env, s, f, |s.log|);
    assert s.log[..|s.log|] == s.log;
    assert LogEntries(s.log, f) == FlushedEntries(s.flushed, f) + Entries(s.pending, f);
  }

  /** A query gets all points that were written of a field, and no others, if and only if nothing of
      the field waits, each of its index blocks has one entry, and the iterator does not stop
      early. An index flush takes up to ten entries, so the points of the others are not found. */
  lemma AllComeBack(env: Env, s: State, f: string)
    requires env.Valid() && Inv(env, s) && s.file.OnDisk? && OwnKey(s, f) && s.flushed != [] && HasPoints(s.log, f)
    ensures var series := QuerySeries(env, s.file.bytes, CString(s.fields[f].key, 0));
            && (Single(s, f) ==> series == Reversed(Written(s.log, f)))
            && (multiset(Drain(Fresh(series)).0) == multiset(Flatten(Written(s.log, f)))
                <==> Single(s, f) && Complete(series))
  {
    hide Inv, QuerySeries, CString, Found, Written, Behind, BehindAll, FlushedEntries, LogEntries, Drain, Given;
    hide Flatten, Complete, Points, Reversed;
    var series := QuerySeries(env, s.file.bytes, CString(s.fields[f].key, 0));
    FindsFirstEntries(env, s, f);
    DrainGiven(series);
    WrittenParts(env, s, f);
    var indexed, waits := BehindAll(s.log, FlushedEntries(s.flushed, f)), BehindAll(s.log, Entries(s.pending, f));
    if Single(s, f) {
      SingleFound(s, f);
      FlattenReversed(indexed);
      DrainComplete(series);
    }
    if multiset(Given(series)) == multiset(Flatten(Written(s.log, f))) {
      EntriesHavePoints(env, s, f);
      assert |Given(series)| == |multiset(Given(series))| == |Flatten(Written(s.log, f))|;
      FlattenLength(indexed, waits);
      FoundCount(s.log, s.flushed, f);
      FoundHasPoints(s.log, s.flushed, f);
      GivenCount(series);
      WaitsCount(s.log, Entries(s.pending, f));
    }
  }

  lemma SingleFound(s: State, f: string)
    requires Single(s, f)
    ensures Found(s.log, s.flushed, f) == Reversed(BehindAll(s.log, FlushedEntries(s.flushed, f)))
    ensures BehindAll(s.log, FlushedEntries(s.flushed, f)) + BehindAll(s.log, Entries(s.pending, f))
            == BehindAll(s.log, FlushedEntries(s.flushed, f))
  {
    FoundSingle(s.log, s.flushed, f);
  }

  lemma WaitsCount(log: seq<(DataBlock, IndexEntry)>, es: seq<IndexEntry>)
    requires forall e :: e in es ==> Behind(log, e) != []
    ensures Flatten(BehindAll(log, es)) == [] ==> es == []
  {
    if es != [] {
      assert es[0] in es;
      FirstCounts(BehindAll(log, es));
    }
  }
}
