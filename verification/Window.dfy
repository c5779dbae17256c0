/** The out-of-order window of one series: Field::write of engine/tsm/field.cpp and
    DataBlock::write of engine/tsm/tsm_ingredient.cpp.  Points enter a skip list; a full or
    overdue window becomes a data block. */
module Window {
  import opened Bytes
  import opened TsmFile
  import Columns
  import opened SkipList

  const FULL := 100

  type Point = (int, Bytes)

  // ---------- the specification ----------

  /** A write as it reaches the window; empty data only asks for the flush check. */
  datatype Write = Write(time: int64, data: Bytes, elapsed: bool)

  function PointOf(w: Write): Point {
    (w.time, w.data)
  }

  predicate ShouldFlush(size: nat, elapsed: bool) {
    size >= FULL || (elapsed && size > 0)
  }

  /** DataBlock::write refuses the zero time point. */
  function Kept(ps: seq<Point>): seq<Point> {
    if ps == [] then []
    else if ps[0].0 == 0 then Kept(ps[1..])
    else [ps[0]] + Kept(ps[1..])
  }

  ghost predicate Times64(ps: seq<Point>) {
    forall k :: 0 <= k < |ps| ==> Columns.InI64(ps[k].0)
  }

  function Times(ps: seq<Point>): (ts: seq<int>)
    ensures |ts| == |ps| && forall k :: 0 <= k < |ps| ==> ts[k] == ps[k].0
  {
    seq(|ps|, k requires 0 <= k < |ps| => ps[k].0)
  }

  function Values(ps: seq<Point>): (vs: seq<Bytes>)
    ensures |vs| == |ps| && forall k :: 0 <= k < |ps| ==> vs[k] == ps[k].1
  {
    seq(|ps|, k requires 0 <= k < |ps| => ps[k].1)
  }

  /** The block made of a window: its columns hold the kept points, its header counts all. */
  ghost predicate IsBlockOf(b: DataBlock, ps: seq<Point>)
  {
    && ps != []
    && b.timestamps == Times(Kept(ps)) && b.values == Values(Kept(ps))
    && b.num == |ps|
    && b.minTime == ps[0].0 && b.maxTime == ps[|ps| - 1].0
  }

  function AfterPut(ps: seq<Point>, w: Write): seq<Point> {
    if w.data == [] then ps else PutPoint(ps, w.time, w.data)
  }

  predicate Flushes(ps: seq<Point>, w: Write) {
    ShouldFlush(|AfterPut(ps, w)|, w.elapsed)
  }

  // ---------- facts about one window ----------

  lemma {:induction false} KeptSorted(ps: seq<Point>)
    requires Sorted(ps)
    ensures Sorted(Kept(ps)) && forall p :: p in Kept(ps) <==> p in ps && p.0 != 0
    ensures |Kept(ps)| <= |ps|
  {
    if ps != [] {
      KeptSorted(ps[1..]);
      KeptCons(ps[0], ps[1..], Kept(ps[1..]));
      assert ps == [ps[0]] + ps[1..];
    }
  }

  lemma KeptCons(p: Point, rest: seq<Point>, kept: seq<Point>)
    requires Sorted([p] + rest) && Sorted(kept) && forall q :: q in kept ==> q in rest
    ensures Sorted([p] + kept)
  {
    forall k | 0 <= k < |kept|
      ensures p.0 < kept[k].0
    {
      assert kept[k] in kept;
      var j :| 0 <= j < |rest| && rest[j] == kept[k];
      assert ([p] + rest)[0] == p && ([p] + rest)[j + 1] == kept[k];
    }
  }

  /** The header count is right exactly when no point sits at the zero time. */
  lemma {:induction false} CountMatches(ps: seq<Point>)
    ensures |Kept(ps)| <= |ps|
    ensures |Kept(ps)| == |ps| <==> forall k :: 0 <= k < |ps| ==> ps[k].0 != 0
  {
    if ps != [] {
      CountMatches(ps[1..]);
      assert forall k :: 1 <= k < |ps| ==> ps[k] == ps[1..][k - 1];
      assert forall k :: 0 <= k < |ps[1..]| ==> ps[1..][k] == ps[k + 1];
    }
  }

  lemma {:induction false} PutSize(ps: seq<Point>, key: int, v: Bytes)
    ensures |ps| <= |PutPoint(ps, key, v)| <= |ps| + 1 && PutPoint(ps, key, v) != []
    ensures forall p :: p in PutPoint(ps, key, v) ==> p in ps || p == (key, v)
  {
    if ps != [] {
      PutSize(ps[1..], key, v);
      assert ps == [ps[0]] + ps[1..];
    }
  }

  // ---------- runs ----------

  /** The window after a run, the blocks' points emitted so far, each with the writes that
      filled it, and the writes since. */
  datatype Trace = Trace(live: seq<Point>, emitted: seq<(seq<Point>, seq<Write>)>, recent: seq<Write>)

  function Run(ws: seq<Write>): Trace {
    if ws == [] then Trace([], [], []) else Next(Run(ws[..|ws| - 1]), ws[|ws| - 1])
  }

  function Next(t: Trace, w: Write): Trace {
    var recent := t.recent + [w];
    if Flushes(t.live, w) then Trace([], t.emitted + [(AfterPut(t.live, w), recent)], [])
    else Trace(AfterPut(t.live, w), t.emitted, recent)
  }

  /** ps holds, for each time written with data in ws, the value written first, and nothing
      else. */
  ghost predicate FirstWritten(ps: seq<Point>, ws: seq<Write>) {
    && (forall k :: 0 <= k < |ps| ==> OfFirst(ws, ps[k]))
    && (forall i :: 0 <= i < |ws| && IsFirst(ws, i) ==> PointOf(ws[i]) in ps)
  }

  /** The point of a first write. */
  ghost predicate OfFirst(ws: seq<Write>, p: Point) {
    exists i :: 0 <= i < |ws| && IsFirst(ws, i) && p == PointOf(ws[i])
  }

  ghost predicate IsFirst(ws: seq<Write>, i: int)
    requires 0 <= i < |ws|
  {
    ws[i].data != [] && forall j :: 0 <= j < i ==> ws[j].data == [] || ws[j].time != ws[i].time
  }

  lemma {:induction false} PutMembers(ps: seq<Point>, key: int, v: Bytes, p: Point)
    requires Sorted(ps)
    ensures p in PutPoint(ps, key, v) <==> p in ps || (p == (key, v) && forall q :: q in ps ==> q.0 != key)
  {
    if ps != [] && ps[0].0 < key {
      PutMembers(ps[1..], key, v, p);
      assert ps == [ps[0]] + ps[1..];
    }
  }

  lemma FirstExists(ws: seq<Write>, j: nat) returns (i: nat)
    requires j < |ws| && ws[j].data != []
    ensures i <= j && IsFirst(ws, i) && ws[i].time == ws[j].time
  {
    i := j;
    while !IsFirst(ws, i)
      invariant i <= j && ws[i].data != [] && ws[i].time == ws[j].time
      decreases i
    {
      var k :| 0 <= k < i && ws[k].data != [] && ws[k].time == ws[i].time;
      i := k;
    }
  }

  lemma FirstGrows(ws: seq<Write>, w: Write, i: nat)
    requires i < |ws|
    ensures IsFirst(ws + [w], i) <==> IsFirst(ws, i)
  {
    assert forall j :: 0 <= j <= i ==> (ws + [w])[j] == ws[j];
  }

  /** A key of the window is a time some write of the window carried. */
  lemma KeyWritten(ps: seq<Point>, ws: seq<Write>, time: int)
    requires FirstWritten(ps, ws)
    ensures (exists q :: q in ps && q.0 == time) <==>
            (exists j :: 0 <= j < |ws| && ws[j].data != [] && ws[j].time == time)
  {
    if q :| q in ps && q.0 == time {
      var k :| 0 <= k < |ps| && ps[k] == q;
      var i :| 0 <= i < |ws| && IsFirst(ws, i) && ps[k] == PointOf(ws[i]);
      assert ws[i].data != [] && ws[i].time == time;
    }
    if j :| 0 <= j < |ws| && ws[j].data != [] && ws[j].time == time {
      var i := FirstExists(ws, j);
      assert PointOf(ws[i]) in ps;
    }
  }

  /** A point of the new window comes from a first write. */
  lemma PutComesFromFirst(ps: seq<Point>, ws: seq<Write>, w: Write, p: Point)
    requires Sorted(ps) && FirstWritten(ps, ws) && p in AfterPut(ps, w)
    ensures OfFirst(ws + [w], p)
  {
    hide PutPoint, Sorted;
    var us := ws + [w];
    PutMembers(ps, w.time, w.data, p);
    if p in ps {
      var m :| 0 <= m < |ps| && ps[m] == p;
      assert OfFirst(ws, ps[m]);
      var i :| 0 <= i < |ws| && IsFirst(ws, i) && ps[m] == PointOf(ws[i]);
      FirstGrows(ws, w, i);
      assert us[i] == ws[i];
    } else {
      KeyWritten(ps, ws, w.time);
      assert us[|ws|] == w;
      assert IsFirst(us, |ws|);
    }
  }

  /** A first write stands in the new window. */
  lemma FirstStands(ps: seq<Point>, ws: seq<Write>, w: Write, i: nat)
    requires Sorted(ps) && FirstWritten(ps, ws) && i < |ws + [w]| && IsFirst(ws + [w], i)
    ensures PointOf((ws + [w])[i]) in AfterPut(ps, w)
  {
    hide PutPoint, Sorted;
    var us := ws + [w];
    PutMembers(ps, w.time, w.data, PointOf(us[i]));
    if i < |ws| {
      FirstGrows(ws, w, i);
      assert us[i] == ws[i];
    } else {
      KeyWritten(ps, ws, w.time);
      assert forall j :: 0 <= j < |ws| ==> us[j] == ws[j];
    }
  }

  lemma PutKeepsFirst(ps: seq<Point>, ws: seq<Write>, w: Write)
    requires Sorted(ps) && FirstWritten(ps, ws)
    ensures FirstWritten(AfterPut(ps, w), ws + [w])
  {
    hide AfterPut, Sorted, OfFirst, IsFirst;
    var qs, us := AfterPut(ps, w), ws + [w];
    forall k | 0 <= k < |qs|
      ensures OfFirst(us, qs[k])
    {
      PutComesFromFirst(ps, ws, w, qs[k]);
    }
    forall i | 0 <= i < |us| && IsFirst(us, i)
      ensures PointOf(us[i]) in qs
    {
      FirstStands(ps, ws, w, i);
    }
  }

  ghost predicate GoodWindow(ps: seq<Point>, ws: seq<Write>) {
    Sorted(ps) && Times64(ps) && FirstWritten(ps, ws)
  }

  lemma PutKeepsGood(ps: seq<Point>, ws: seq<Write>, w: Write)
    requires GoodWindow(ps, ws)
    ensures GoodWindow(AfterPut(ps, w), ws + [w])
  {
    PutKeepsFirst(ps, ws, w);
    PutMap(ps, w.time, w.data);
    PutSize(ps, w.time, w.data);
    var qs := AfterPut(ps, w);
    forall k | 0 <= k < |qs|
      ensures Columns.InI64(qs[k].0)
    {
      assert qs[k] in qs;
    }
  }

  function AllWrites(t: Trace): seq<Write> {
    Sources(t.emitted) + t.recent
  }

  function Sources(emitted: seq<(seq<Point>, seq<Write>)>): seq<Write> {
    if emitted == [] then [] else Sources(emitted[..|emitted| - 1]) + emitted[|emitted| - 1].1
  }

  /** Every run of writes and timed checks: the window in progress and every emitted window
      hold exactly the first value written for each of their times; an emitted window has 1
      to 100 points, the window in progress fewer than 100; and the windows partition the
      writes in order. */
  lemma {:induction false} WindowRuns(ws: seq<Write>)
    ensures GoodTrace(Run(ws)) && AllWrites(Run(ws)) == ws
  {
    hide GoodTrace, Next;
    if ws == [] {
      NothingTraced();
    } else {
      var init, w := ws[..|ws| - 1], ws[|ws| - 1];
      WindowRuns(init);
      NextGood(Run(init), w);
      assert ws == init + [w];
    }
  }

  /** One more write emits the window, and then empties it, exactly if it has grown to 100 points or
      time has gone by and it has a point. */
  lemma EmitsExactly(ws: seq<Write>, w: Write)
    ensures var t, u := Run(ws), Run(ws + [w]);
            var ps := AfterPut(t.live, w);
            if |ps| == 100 || (w.elapsed && |ps| >= 1) then
              u == Trace([], t.emitted + [(ps, t.recent + [w])], [])
            else u == Trace(ps, t.emitted, t.recent + [w])
  {
    hide AfterPut, GoodWindow;
    WindowRuns(ws);
    AfterPutSize(Run(ws).live, w);
    assert (ws + [w])[..|ws|] == ws;
  }

  /** So over runs: a window that was emitted at a write without time gone by has exactly 100 points,
      and a write with time gone by leaves no point in the window. */
  lemma {:induction false} EmittedWhole(ws: seq<Write>)
    ensures forall k :: 0 <= k < |Run(ws).emitted| ==>
              var (ps, sources) := Run(ws).emitted[k];
              sources != [] && (sources[|sources| - 1].elapsed || |ps| == 100)
    ensures ws != [] && ws[|ws| - 1].elapsed ==> Run(ws).live == []
  {
    hide Run, AfterPut;
    if ws != [] {
      EmittedWhole(ws[..|ws| - 1]);
      EmitsExactly(ws[..|ws| - 1], ws[|ws| - 1]);
      assert ws == ws[..|ws| - 1] + [ws[|ws| - 1]];
    } else {
      NothingRun();
    }
  }

  lemma NothingRun()
    ensures Run([]) == Trace([], [], [])
  {
  }

  ghost predicate GoodTrace(t: Trace) {
    && GoodWindow(t.live, t.recent) && |t.live| < 100
    && forall k :: 0 <= k < |t.emitted| ==>
         GoodWindow(t.emitted[k].0, t.emitted[k].1) && 1 <= |t.emitted[k].0| <= 100
  }

  lemma NothingTraced()
    ensures GoodTrace(Trace([], [], []))
  {
    NothingWritten();
  }

  lemma NextGood(t: Trace, w: Write)
    requires GoodTrace(t)
    ensures GoodTrace(Next(t, w)) && AllWrites(Next(t, w)) == AllWrites(t) + [w]
  {
    hide GoodWindow, AfterPut, PutPoint;
    PutKeepsGood(t.live, t.recent, w);
    AfterPutSize(t.live, w);
    NothingWritten();
    var u := Next(t, w);
    if Flushes(t.live, w) {
      assert u.emitted[..|t.emitted|] == t.emitted;
      assert AllWrites(u) == Sources(t.emitted) + (t.recent + [w]) + [];
    }
    assert Sources(t.emitted) + (t.recent + [w]) == AllWrites(t) + [w];
  }

  lemma NothingWritten()
    ensures GoodWindow([], [])
  {
  }

  lemma AfterPutSize(ps: seq<Point>, w: Write)
    ensures |ps| <= |AfterPut(ps, w)| <= |ps| + 1
  {
    PutSize(ps, w.time, w.data);
  }

  /** What a block emitted for a window is worth: strictly increasing timestamps, bounds
      that enclose them, and a header that is right exactly when no point sits at zero. */
  lemma BlockOfWindow(b: DataBlock, ps: seq<Point>)
    requires Sorted(ps) && Times64(ps) && IsBlockOf(b, ps)
    ensures forall i, j :: 0 <= i < j < |b.timestamps| ==> b.timestamps[i] < b.timestamps[j]
    ensures forall k :: 0 <= k < |b.timestamps| ==> b.minTime <= b.timestamps[k] <= b.maxTime
    ensures |b.values| == |b.timestamps| <= b.num
    ensures |b.timestamps| == b.num <==> forall k :: 0 <= k < |ps| ==> ps[k].0 != 0
    ensures |b.timestamps| == b.num ==> b.timestamps == Times(ps) && b.values == Values(ps)
  {
    hide Times64;
    CountMatches(ps);
    KeptBounds(ps);
    if |b.timestamps| == b.num {
      KeptAll(ps);
    }
  }

  lemma KeptBounds(ps: seq<Point>)
    requires Sorted(ps) && ps != []
    ensures var ts := Times(Kept(ps));
            && (forall i, j :: 0 <= i < j < |ts| ==> ts[i] < ts[j])
            && (forall k :: 0 <= k < |ts| ==> ps[0].0 <= ts[k] <= ps[|ps| - 1].0)
  {
    KeptSorted(ps);
    var ts := Times(Kept(ps));
    forall k | 0 <= k < |ts|
      ensures ps[0].0 <= ts[k] <= ps[|ps| - 1].0
    {
      assert Kept(ps)[k] in ps;
    }
  }

  lemma {:induction false} KeptAll(ps: seq<Point>)
    requires forall k :: 0 <= k < |ps| ==> ps[k].0 != 0
    ensures Kept(ps) == ps
  {
    if ps != [] {
      KeptAll(ps[1..]);
      assert ps == [ps[0]] + ps[1..];
    }
  }

  // ---------- the window object ----------

  class SeriesWindow {
    const field: string
    const key: Bytes
    const list: SkipList<Bytes>
    var needReset: bool

    ghost predicate Valid()
      reads this, list, list.chain
    {
      && list.Valid() && |list.Points()| < 100
      && Sorted(list.Points()) && Times64(list.Points())
    }

    constructor (field: string, key: Bytes)
      ensures Valid() && list.Points() == [] && needReset
      ensures this.field == field && this.key == key
    {
      this.field, this.key := field, key;
      needReset := true;
      list := new SkipList([]);
    }

    /** Field::write.  noise is the enumerator a fresh DataBlock happens to hold. */
    method WritePoint(w: Write, noise: int32) returns (stored: Bytes, block: Option<DataBlock>)
      requires Valid()
      modifies this, list, list.chain
      ensures Valid()
      ensures var n := |AfterPut(old(list.Points()), w)|; block.Some? <==> n == 100 || (w.elapsed && n >= 1)
      ensures list.Points() == if block.Some? then [] else AfterPut(old(list.Points()), w)
      ensures block.Some? ==> IsBlockOf(block.value, AfterPut(old(list.Points()), w))
                              && block.value.field == field && block.value.key == key
      ensures w.data != [] ==> w.time in ToMap(AfterPut(old(list.Points()), w))
                               && stored == ToMap(AfterPut(old(list.Points()), w))[w.time]
      ensures needReset == (block.Some? || (old(needReset) && w.data == []))
    {
      hide IsBlockOf, ToMap;
      ghost var before := list.Points();
      assert list.head in list.chain;
      AfterPutSize(before, w);
      PutKeepsTimes(before, w);
      stored := Enter(w);
      var size := list.Size();
      block := None;
      if ShouldFlush(size, w.elapsed) {
        var b := Emit(noise);
        block := Some(b);
      }
    }

    /** The part of Field::write that puts the point. */
    method Enter(w: Write) returns (stored: Bytes)
      requires Valid()
      modifies this, list, list.chain
      ensures list.Valid() && list.Points() == AfterPut(old(list.Points()), w) && Sorted(list.Points())
      ensures w.data != [] ==> w.time in ToMap(list.Points()) && stored == ToMap(list.Points())[w.time]
      ensures needReset == (old(needReset) && w.data == [])
      ensures forall n :: n in list.chain ==> n in old(list.chain) || fresh(n)
    {
      stored := w.data;
      if w.data != [] {
        stored := list.Put(w.time, w.data);
        needReset := false;
      }
      list.PointsSorted();
    }

    /** The part of Field::write that turns the window into a block and empties it. */
    method Emit(noise: int32) returns (b: DataBlock)
      requires list.Valid() && Sorted(list.Points()) && Times64(list.Points()) && 0 < |list.Points()| <= FULL
      modifies this, list, list.head
      ensures list.Valid() && list.Points() == [] && needReset
      ensures IsBlockOf(b, old(list.Points())) && b.field == field && b.key == key
    {
      b := MakeBlock(noise);
      list.Clear();
      needReset := true;
    }

    /** The header set from the list once the columns are filled. */
    method MakeBlock(noise: int32) returns (b: DataBlock)
      requires list.Valid() && Sorted(list.Points()) && Times64(list.Points()) && 0 < |list.Points()| <= FULL
      ensures IsBlockOf(b, list.Points()) && b.field == field && b.key == key
    {
      var ps := list.Traverse();
      hide Sorted;
      var timestamps, values := FillColumns(ps);
      var max := list.MaxKey();
      var min := list.MinKey();
      var num := list.Size();
      b := DataBlock(field, key, noise, num, timestamps, values, max, min);
    }
  }

  /** One DataBlock::write after the other. */
  method FillColumns(ps: seq<Point>) returns (timestamps: seq<int64>, values: seq<Bytes>)
    requires Times64(ps)
    ensures timestamps == Times(Kept(ps)) && values == Values(Kept(ps))
  {
    timestamps, values := [], [];
    assert ps[..0] == [];
    for i := 0 to |ps|
      invariant timestamps == Times(Kept(ps[..i])) && values == Values(Kept(ps[..i]))
    {
      KeptSnoc(ps[..i], ps[i]);
      assert ps[..i] + [ps[i]] == ps[..i + 1];
      if ps[i].0 != 0 {
        timestamps := timestamps + [ps[i].0];
        values := values + [ps[i].1];
      }
    }
    assert ps[..|ps|] == ps;
  }

  lemma PutKeepsTimes(ps: seq<Point>, w: Write)
    requires Times64(ps)
    ensures Times64(AfterPut(ps, w))
  {
    PutSize(ps, w.time, w.data);
    var qs := AfterPut(ps, w);
    forall k | 0 <= k < |qs|
      ensures Columns.InI64(qs[k].0)
    {
      assert qs[k] in qs;
    }
  }

  lemma {:induction false} KeptSnoc(ps: seq<Point>, p: Point)
    ensures Kept(ps + [p]) == Kept(ps) + (if p.0 == 0 then [] else [p])
  {
    if ps == [] {
      assert [p][1..] == [];
    } else {
      assert (ps + [p])[1..] == ps[1..] + [p];
      KeptSnoc(ps[1..], p);
    }
  }

  /** Blocks of non-negative times go through the column codec whole. */
  lemma WindowBlockStorable(b: DataBlock, ps: seq<Point>)
    requires Sorted(ps) && Times64(ps) && IsBlockOf(b, ps) && ps[0].0 >= 0
    requires Columns.ShortStrings(b.values)
    ensures Storable(b)
  {
    BlockOfWindow(b, ps);
    Columns.NonNegativeNeverOverflows(b.timestamps);
  }
}
