/** The query iterators of engine/tsm/iterator.cpp: points of one field from block after block and
    series after series, put together to rows by their time. */
module RowAssembly {
  import opened Bytes

  datatype Point = Point(time: int, data: string)

  /** What one series holds of a field in one shard, block by block. */
  type Series = seq<seq<Point>>

  // ---------- the points of one series ----------

  /** A TagSetIterator: the blocks behind the first entry of each index block, the points of the
      block in memory, the next of them, and the next block. */
  datatype TagSet = TagSet(blocks: Series, points: seq<Point>, at: nat, block: nat) {
    predicate HasNext() {
      at < |points| || block < |blocks|
    }

    /** What is still to come, for termination. */
    function Left(): nat {
      (if at < |points| then |points| - at else 0)
    }

    /** A new block is only looked for if the number of points passed is below the number of
        blocks. */
    function Next(): (r: (Option<Point>, TagSet))
      requires at >= |points| && at < |blocks| ==> block < |blocks|
      ensures r.1.blocks == blocks
      ensures r.0.Some? ==> r.1.block > block || (r.1.block == block && r.1.Left() < Left())
    {
      if at < |points| then (Some(points[at]), this.(at := at + 1))
      else if at < |blocks| then
        var loaded := TagSet(blocks, blocks[block], 0, block + 1);
        if blocks[block] == [] then (None, loaded) else (Some(blocks[block][0]), loaded.(at := 1))
      else (None, this)
    }
  }

  function Fresh(blocks: Series): TagSet {
    TagSet(blocks, [], 0, 0)
  }

  /** All points until the iterator has no next, or until it stops although it has. */
  function Drain(s: TagSet): (r: (seq<Point>, bool))
    decreases |s.blocks| - s.block, s.Left()
  {
    if !s.HasNext() then ([], false)
    else
      var (p, next) := s.Next();
      if p.None? then ([], true)
      else
        var rest := Drain(next);
        ([p.value] + rest.0, rest.1)
  }

  function Flatten(blocks: Series): seq<Point> {
    if blocks == [] then [] else blocks[0] + Flatten(blocks[1..])
  }

  /** Block i has points, and the block before it has fewer points than there are blocks. */
  predicate Entered(blocks: Series, i: nat)
    requires i < |blocks|
  {
    blocks[i] != [] && (i > 0 ==> |blocks[i - 1]| < |blocks|)
  }

  ghost predicate Complete(blocks: Series) {
    forall i :: 0 <= i < |blocks| ==> Entered(blocks, i)
  }

  lemma {:induction false} DrainPoints(s: TagSet)
    requires s.at <= |s.points|
    ensures var rest := Drain(s.(at := |s.points|));
            Drain(s) == (s.points[s.at..] + rest.0, rest.1)
    decreases |s.points| - s.at
  {
    if s.at < |s.points| {
      DrainPoints(s.(at := s.at + 1));
      var p, tail, rest := s.points[s.at], s.points[s.at + 1..], Drain(s.(at := |s.points|));
      assert s.points[s.at..] == [p] + tail;
      assert [p] + (tail + rest.0) == [p] + tail + rest.0;
    } else {
      assert s.(at := |s.points|) == s;
      assert s.points[s.at..] + Drain(s).0 == Drain(s).0;
    }
  }

  /** The iterator with the first n blocks used up. */
  function After(blocks: Series, n: nat): TagSet
    requires n <= |blocks|
  {
    if n == 0 then Fresh(blocks) else TagSet(blocks, blocks[n - 1], |blocks[n - 1]|, n)
  }

  lemma DrainBlock(blocks: Series, n: nat)
    requires n < |blocks| && (n > 0 ==> blocks[n - 1] != [])
    ensures var rest := Drain(After(blocks, n + 1));
            if Entered(blocks, n) then Drain(After(blocks, n)) == (blocks[n] + rest.0, rest.1)
            else Drain(After(blocks, n)) == ([], true)
  {
    var s, b := After(blocks, n), blocks[n];
    if Entered(blocks, n) {
      var loaded := TagSet(blocks, b, 1, n + 1);
      assert s.Next() == (Some(b[0]), loaded);
      DrainPoints(loaded);
      var rest := Drain(After(blocks, n + 1));
      assert b == [b[0]] + b[1..];
      assert [b[0]] + (b[1..] + rest.0) == b + rest.0;
    }
  }

  /** How many blocks are given before the first that is not entered. */
  function Reached(blocks: Series, n: nat): (r: nat)
    requires n <= |blocks|
    ensures n <= r <= |blocks|
    ensures r == |blocks| <==> forall i :: n <= i < |blocks| ==> Entered(blocks, i)
    decreases |blocks| - n
  {
    if n < |blocks| && Entered(blocks, n) then Reached(blocks, n + 1) else n
  }

  lemma {:induction false} DrainBlocks(blocks: Series, n: nat)
    requires n <= |blocks| && (n > 0 ==> blocks[n - 1] != [])
    ensures var r := Reached(blocks, n);
            Drain(After(blocks, n)).1 == (r < |blocks|) && Drain(After(blocks, n)).0 == Flatten(blocks[n..r])
    decreases |blocks| - n
  {
    hide Drain, Entered;
    assert blocks[n..n] == [];
    if n < |blocks| {
      DrainBlock(blocks, n);
      if Entered(blocks, n) {
        var r := Reached(blocks, n + 1);
        EnteredHasPoints(blocks, n);
        DrainBlocks(blocks, n + 1);
        assert blocks[n..r][0] == blocks[n] && blocks[n..r][1..] == blocks[n + 1..r];
      }
    } else {
      DrainNothing(After(blocks, n));
    }
  }

  lemma EnteredHasPoints(blocks: Series, i: nat)
    requires i < |blocks| && Entered(blocks, i)
    ensures blocks[i] != []
  {
  }

  lemma DrainNothing(s: TagSet)
    requires s.at >= |s.points| && s.block >= |s.blocks|
    ensures Drain(s) == ([], false)
  {
  }

  /** What a series gives: the points of the blocks before the first that is not entered. */
  function Given(blocks: Series): seq<Point> {
    Flatten(blocks[..Reached(blocks, 0)])
  }

  /** A series gives the points of its blocks up to the first that is not entered, where it stops
      early. */
  lemma DrainGiven(blocks: Series)
    ensures Drain(Fresh(blocks)) == (Given(blocks), Reached(blocks, 0) < |blocks|)
  {
    hide Drain, Entered;
    DrainBlocks(blocks, 0);
    assert blocks[0..Reached(blocks, 0)] == blocks[..Reached(blocks, 0)];
  }

  /** So it gives all its points, block after block, if and only if no block is empty and all but
      the last have fewer points than there are blocks; otherwise it stops early. */
  lemma DrainComplete(blocks: Series)
    ensures !Drain(Fresh(blocks)).1 <==> Complete(blocks)
    ensures Complete(blocks) ==> Given(blocks) == Flatten(blocks)
  {
    hide Drain, Entered;
    DrainGiven(blocks);
    if Complete(blocks) {
      assert blocks[..|blocks|] == blocks;
    }
  }

  // ---------- the points of one field ----------

  /** A ShardIterator: the series in order, and the one being read. */
  datatype Shard = Shard(sets: seq<TagSet>, current: nat) {
    predicate HasNext()
      decreases |sets| - current
    {
      current < |sets| && (sets[current].HasNext() || this.(current := current + 1).HasNext())
    }

    /** The first series that has a next gives it, whatever comes out. */
    function Next(): (Option<Point>, Shard)
      decreases |sets| - current
    {
      if current >= |sets| then (None, this)
      else if sets[current].HasNext() then
        var (p, s) := sets[current].Next();
        (p, this.(sets := sets[current := s]))
      else this.(current := current + 1).Next()
    }

    /** What the loading loop still gets. */
    function Rest(): seq<Point> {
      if current < |sets| then DrainSets(sets[current..]) else []
    }
  }

  /** The series one after the other, until one stops early. */
  function DrainSets(sets: seq<TagSet>): seq<Point> {
    if sets == [] then []
    else
      var (ps, stopped) := Drain(sets[0]);
      if stopped then ps else ps + DrainSets(sets[1..])
  }

  /** One round of the loading loop. */
  lemma {:induction false} ShardStep(s: Shard)
    ensures !s.HasNext() || s.Next().0.None? ==> s.Rest() == []
    ensures s.HasNext() && s.Next().0.Some? ==> s.Rest() == [s.Next().0.value] + s.Next().1.Rest()
    decreases |s.sets| - s.current
  {
    hide Drain, DrainSets;
    if s.current < |s.sets| {
      var set_, later := s.sets[s.current], s.(current := s.current + 1);
      RestUnfold(s);
      if set_.HasNext() {
        var next := s.Next().1;
        DrainUnfold(set_);
        RestUnfold(next);
        assert next.(current := s.current + 1).Rest() == later.Rest() by {
          assert s.current + 1 < |s.sets| ==> next.sets[s.current + 1..] == s.sets[s.current + 1..];
        }
      } else {
        DrainUnfold(set_);
        ShardStep(later);
      }
    }
  }

  lemma RestUnfold(s: Shard)
    requires s.current < |s.sets|
    ensures var (ps, stopped) := Drain(s.sets[s.current]);
            s.Rest() == if stopped then ps else ps + s.(current := s.current + 1).Rest()
  {
    hide Drain;
    var sets := s.sets[s.current..];
    assert sets != [] && sets[0] == s.sets[s.current];
    assert sets[1..] == s.sets[s.current + 1..];
    assert s.current + 1 == |s.sets| ==> sets[1..] == [];
    assert DrainSets(sets) == if Drain(sets[0]).1 then Drain(sets[0]).0 else Drain(sets[0]).0 + DrainSets(sets[1..]);
  }

  lemma DrainUnfold(s: TagSet)
    ensures Drain(s) ==
            if !s.HasNext() then ([], false)
            else if s.Next().0.None? then ([], true)
            else ([s.Next().0.value] + Drain(s.Next().1).0, Drain(s.Next().1).1)
  {
  }

  function FreshSets(series: seq<Series>): seq<TagSet> {
    seq(|series|, i requires 0 <= i < |series| => Fresh(series[i]))
  }

  function FlattenAll(series: seq<Series>): seq<Point> {
    if series == [] then [] else Flatten(series[0]) + FlattenAll(series[1..])
  }

  /** What a shard gives: series after series, up to the first that stops early. */
  function Delivered(series: seq<Series>): seq<Point> {
    if series == [] then []
    else if Reached(series[0], 0) < |series[0]| then Given(series[0])
    else Given(series[0]) + Delivered(series[1..])
  }

  lemma {:induction false} ShardDelivers(series: seq<Series>)
    ensures DrainSets(FreshSets(series)) == Delivered(series)
  {
    hide Given, Reached;
    if series != [] {
      DrainGiven(series[0]);
      ShardDelivers(series[1..]);
      assert FreshSets(series)[1..] == FreshSets(series[1..]);
    }
  }

  /** If all series are complete the shard gives every point of every series, in order. */
  lemma {:induction false} ShardComplete(series: seq<Series>)
    requires forall i :: 0 <= i < |series| ==> Complete(series[i])
    ensures Delivered(series) == FlattenAll(series)
  {
    hide Drain, Given, Complete;
    if series != [] {
      DrainComplete(series[0]);
      DrainGiven(series[0]);
      ShardComplete(series[1..]);
    }
  }

  // ---------- rows ----------

  /** A FieldIterator: its shards in order, and the one being read, none at first. */
  datatype Field = Field(name: string, shards: seq<Shard>, shard: int) {
    predicate Reading() {
      0 <= shard < |shards|
    }

    predicate HasNext() {
      Reading() && shards[shard].HasNext()
    }

    function Next(): (Option<Point>, Field) {
      if HasNext() then
        var (p, s) := shards[shard].Next();
        (p, this.(shards := shards[shard := s]))
      else (None, this)
    }

    function Rest(): seq<Point> {
      if Reading() then shards[shard].Rest() else []
    }

    function Moved(): (bool, Field) {
      if 0 <= shard + 1 < |shards| then (true, this.(shard := shard + 1)) else (false, this)
    }
  }

  datatype RowNode = RowNode(time: int, columns: map<string, string>)

  type Rows = map<int, RowNode>

  /** The row of a point's time, made if it is missing, gets the point's value. */
  function AddPoint(rows: Rows, field: string, p: Point): (r: Rows)
    ensures p.time in r
  {
    var columns := if p.time in rows then rows[p.time].columns else map[];
    rows[p.time := RowNode(p.time, columns[field := p.data])]
  }

  function AddPoints(rows: Rows, field: string, ps: seq<Point>): Rows
    decreases |ps|
  {
    if ps == [] then rows else AddPoints(AddPoint(rows, field, ps[0]), field, ps[1..])
  }

  function AddFields(rows: Rows, fields: seq<Field>): Rows {
    if fields == [] then rows
    else AddPoints(AddFields(rows, fields[..|fields| - 1]), fields[|fields| - 1].name, fields[|fields| - 1].Rest())
  }

  /** The last value field has at a time. */
  function LastAt(ps: seq<Point>, time: int): Option<string> {
    if ps == [] then None
    else if ps[|ps| - 1].time == time then Some(ps[|ps| - 1].data)
    else LastAt(ps[..|ps| - 1], time)
  }

  function Cell(rows: Rows, time: int, field: string): Option<string> {
    if time in rows && field in rows[time].columns then Some(rows[time].columns[field]) else None
  }

  lemma {:induction false} LastAtCons(ps: seq<Point>, time: int)
    requires ps != []
    ensures LastAt(ps, time) ==
            if LastAt(ps[1..], time).Some? then LastAt(ps[1..], time)
            else if ps[0].time == time then Some(ps[0].data) else None
  {
    if |ps| > 1 {
      LastAtCons(ps[..|ps| - 1], time);
      assert ps[1..][..|ps| - 2] == ps[..|ps| - 1][1..];
    }
  }

  /** Of two runs of points the later one decides, if it has the time at all: the last series in
      order wins. */
  lemma {:induction false} LaterWins(a: seq<Point>, b: seq<Point>, time: int)
    ensures LastAt(a + b, time) == if LastAt(b, time).Some? then LastAt(b, time) else LastAt(a, time)
    decreases |b|
  {
    if b == [] {
      assert a + b == a;
    } else {
      assert (a + b)[..|a + b| - 1] == a + b[..|b| - 1];
      LaterWins(a, b[..|b| - 1], time);
    }
  }

  /** Points change only the cells of their field, at their times, where the last one counts. */
  lemma {:induction false} AddPointsCells(rows: Rows, field: string, ps: seq<Point>, time: int, other: string)
    ensures Cell(AddPoints(rows, field, ps), time, other) ==
            if other == field && LastAt(ps, time).Some? then LastAt(ps, time) else Cell(rows, time, other)
    ensures time in AddPoints(rows, field, ps) <==> time in rows || LastAt(ps, time).Some?
    decreases |ps|
  {
    if ps != [] {
      AddPointsCells(AddPoint(rows, field, ps[0]), field, ps[1..], time, other);
      LastAtCons(ps, time);
    }
  }

  /** Every row stands under its own time. */
  ghost predicate TimesFit(rows: Rows) {
    forall t :: t in rows ==> rows[t].time == t
  }

  lemma {:induction false} AddPointsFit(rows: Rows, field: string, ps: seq<Point>)
    requires TimesFit(rows)
    ensures TimesFit(AddPoints(rows, field, ps))
    decreases |ps|
  {
    if ps != [] {
      AddPointsFit(AddPoint(rows, field, ps[0]), field, ps[1..]);
    }
  }

  ghost predicate DistinctNames(fields: seq<Field>) {
    forall i, j :: 0 <= i < j < |fields| ==> fields[i].name != fields[j].name
  }

  /** The cells of a field in front, and the cells of no field. */
  lemma {:induction false} JoinCells(fields: seq<Field>, time: int, name: string)
    requires DistinctNames(fields)
    ensures forall i :: 0 <= i < |fields| && fields[i].name == name ==>
              Cell(AddFields(map[], fields), time, name) == LastAt(fields[i].Rest(), time)
    ensures (forall i :: 0 <= i < |fields| ==> fields[i].name != name) ==>
              Cell(AddFields(map[], fields), time, name) == None
  {
    hide Field.Rest, LastAt, AddPoints, Cell;
    if fields == [] {
      NoCells(time, name);
    } else {
      var n := |fields| - 1;
      var before := fields[..n];
      JoinCells(before, time, name);
      assert forall i :: 0 <= i < n ==> before[i] == fields[i];
      AddPointsCells(AddFields(map[], before), fields[n].name, fields[n].Rest(), time, name);
    }
  }

  lemma NoCells(time: int, name: string)
    ensures Cell(map[], time, name) == None
  {
  }

  lemma {:induction false} JoinTimes(fields: seq<Field>, time: int)
    ensures time in AddFields(map[], fields) <==> exists i :: 0 <= i < |fields| && LastAt(fields[i].Rest(), time).Some?
  {
    hide Field.Rest, LastAt, AddPoints, Cell;
    if fields != [] {
      var n := |fields| - 1;
      var before := fields[..n];
      JoinTimes(before, time);
      assert forall i :: 0 <= i < n ==> before[i] == fields[i];
      AddPointsCells(AddFields(map[], before), fields[n].name, fields[n].Rest(), time, "");
    }
  }

  /** The rows are the outer join on time: a cell holds the last value its field has at the time,
      there are no other cells, and there is a row for a time exactly if some field has a point
      there. */
  lemma OuterJoin(fields: seq<Field>, time: int)
    requires DistinctNames(fields)
    ensures var rows := AddFields(map[], fields);
            && (forall i :: 0 <= i < |fields| ==> Cell(rows, time, fields[i].name) == LastAt(fields[i].Rest(), time))
            && (forall name :: (forall i :: 0 <= i < |fields| ==> fields[i].name != name) ==>
                  Cell(rows, time, name) == None)
            && (time in rows <==> exists i :: 0 <= i < |fields| && LastAt(fields[i].Rest(), time).Some?)
  {
    hide Field.Rest, LastAt, AddFields, Cell;
    JoinTimes(fields, time);
    forall name
      ensures forall i :: 0 <= i < |fields| && fields[i].name == name ==>
                Cell(AddFields(map[], fields), time, name) == LastAt(fields[i].Rest(), time)
      ensures (forall i :: 0 <= i < |fields| ==> fields[i].name != name) ==>
                Cell(AddFields(map[], fields), time, name) == None
    {
      JoinCells(fields, time, name);
    }
  }

  lemma {:induction false} AddFieldsFit(rows: Rows, fields: seq<Field>)
    requires TimesFit(rows)
    ensures TimesFit(AddFields(rows, fields))
  {
    hide TimesFit, Field.Rest, AddPoints;
    if fields != [] {
      AddFieldsFit(rows, fields[..|fields| - 1]);
      var last := fields[|fields| - 1];
      AddPointsFit(AddFields(rows, fields[..|fields| - 1]), last.name, last.Rest());
    }
  }

  // ---------- the iterator the query runs ----------

  /** All fields moved to their next shard, where there is one. */
  function Advance(fields: seq<Field>): (r: seq<Field>)
    ensures |r| == |fields| && forall i :: 0 <= i < |r| ==> r[i] == fields[i].Moved().1
  {
    seq(|fields|, i requires 0 <= i < |fields| => fields[i].Moved().1)
  }

  /** The first move of a new field makes what its first shard delivers readable. */
  lemma FirstShard(f: Field, series: seq<Series>)
    requires Unread(f) && f.shards != [] && f.shards[0] == Shard(FreshSets(series), 0)
    ensures f.Moved().0 && f.Moved().1.Rest() == Delivered(series)
  {
    hide DrainSets;
    ShardDelivers(series);
    if series == [] {
      assert Delivered(series) == [];
    } else {
      assert FreshSets(series)[0..] == FreshSets(series);
    }
  }

  /** Nothing has changed but the shard being read. */
  ghost predicate Elsewhere(f: Field, g: Field) {
    && g.name == f.name && g.shard == f.shard && |g.shards| == |f.shards|
    && forall j :: 0 <= j < |f.shards| && j != f.shard ==> g.shards[j] == f.shards[j]
  }

  lemma FieldStep(f: Field)
    ensures !f.HasNext() || f.Next().0.None? ==> f.Rest() == []
    ensures f.HasNext() && f.Next().0.Some? ==>
              f.Rest() == [f.Next().0.value] + f.Next().1.Rest()
    ensures Elsewhere(f, f.Next().1)
  {
    if f.Reading() {
      ShardStep(f.shards[f.shard]);
    }
  }

  /** The rows of a map in the order of time. */
  ghost predicate InOrder(out: seq<RowNode>, rows: Rows) {
    && (forall j, k :: 0 <= j < k < |out| ==> out[j].time < out[k].time)
    && (forall k :: 0 <= k < |out| ==> out[k].time in rows && rows[out[k].time] == out[k])
    && (forall t :: t in rows ==> HasRow(out, t))
  }

  ghost predicate Earliest(rows: Rows, t: int) {
    t in rows && forall u :: u in rows ==> t <= u
  }

  ghost predicate TakesAt(rows: Rows, t: int, row: RowNode, rest: Rows) {
    Earliest(rows, t) && row == rows[t] && rest == rows - {t}
  }

  ghost predicate TakesEarliest(rows: Rows, row: RowNode, rest: Rows) {
    exists t :: TakesAt(rows, t, row, rest)
  }

  lemma EarliestExists(rows: Rows)
    requires rows != map[]
    ensures exists t :: Earliest(rows, t)
  {
    EmptyRows(rows);
    assert exists t :: t in rows.Keys;
    var t := LeastOf(rows.Keys);
    assert Earliest(rows, t);
  }

  lemma EmptyRows(rows: Rows)
    ensures (forall t :: t !in rows) ==> rows == map[]
  {
    var none: Rows := map[];
    if forall t :: t !in rows {
      assert rows == none;
    }
  }

  lemma {:induction false} LeastOf(ts: set<int>) returns (t: int)
    requires exists x :: x in ts
    ensures t in ts && forall u :: u in ts ==> t <= u
    decreases |ts|
  {
    var x: int :| x in ts;
    var others := ts - {x};
    t := x;
    if exists y :: y in others {
      var least := LeastOf(others);
      if least < x {
        t := least;
      }
    }
    assert forall u :: u in ts ==> u == x || u in others;
  }

  /** out is the earlier part of all, rows the rest. */
  ghost predicate Taken(out: seq<RowNode>, rows: Rows, all: Rows) {
    && (forall j, k :: 0 <= j < k < |out| ==> out[j].time < out[k].time)
    && (forall k :: 0 <= k < |out| ==> out[k].time in all && all[out[k].time] == out[k])
    && (forall t :: t in rows ==> t in all && rows[t] == all[t] && forall k :: 0 <= k < |out| ==> out[k].time < t)
    && (forall t :: t in all && t !in rows ==> HasRow(out, t))
  }

  lemma TakeEarliest(out: seq<RowNode>, rows: Rows, all: Rows, t: int)
    requires Taken(out, rows, all) && Earliest(rows, t) && TimesFit(all)
    ensures Taken(out + [rows[t]], rows - {t}, all)
  {
    var more, rest := out + [rows[t]], rows - {t};
    assert rows[t].time == t;
    forall u | u in all && u !in rest
      ensures HasRow(more, u)
    {
      if u == t {
        assert more[|out|].time == u;
      } else {
        assert HasRow(out, u);
        var k :| 0 <= k < |out| && out[k].time == u;
        assert more[k].time == u;
      }
    }
    forall u | u in rest
      ensures u in all && rest[u] == all[u] && forall k :: 0 <= k < |more| ==> more[k].time < u
    {
    }
  }

  lemma AllTaken(out: seq<RowNode>, all: Rows)
    requires Taken(out, map[], all)
    ensures InOrder(out, all)
  {
  }

  ghost predicate AnyMoves(fields: seq<Field>) {
    exists i :: 0 <= i < |fields| && fields[i].Moved().0
  }

  /** All fields have as many shards, and read the one with the same number. */
  ghost predicate Aligned(fields: seq<Field>) {
    forall i, j :: 0 <= i < |fields| && 0 <= j < |fields| ==>
      |fields[i].shards| == |fields[j].shards| && fields[i].shard == fields[j].shard
  }

  lemma {:induction false} AddFieldsSame(rows: Rows, a: seq<Field>, b: seq<Field>)
    requires |a| == |b| && forall i :: 0 <= i < |a| ==> a[i].name == b[i].name && a[i].Rest() == b[i].Rest()
    ensures AddFields(rows, a) == AddFields(rows, b)
  {
    hide Field.Rest, AddPoints;
    if a != [] {
      AddFieldsSame(rows, a[..|a| - 1], b[..|b| - 1]);
    }
  }

  /** Reading in the current shards changes nothing in the next ones. */
  lemma AdvanceElsewhere(a: seq<Field>, b: seq<Field>)
    requires Aligned(a) && |a| == |b| && forall i :: 0 <= i < |a| ==> Elsewhere(a[i], b[i])
    ensures AnyMoves(a) <==> AnyMoves(b)
    ensures AnyMoves(a) ==> AddFields(map[], Advance(a)) == AddFields(map[], Advance(b))
  {
    hide AddFields, Shard.Rest;
    forall i | 0 <= i < |a|
      ensures a[i].Moved().0 <==> b[i].Moved().0
      ensures Advance(a)[i].name == Advance(b)[i].name
      ensures a[i].Moved().0 ==> Advance(a)[i].Rest() == Advance(b)[i].Rest()
    {
      assert Elsewhere(a[i], b[i]);
    }
    if AnyMoves(a) {
      AddFieldsSame(map[], Advance(a), Advance(b));
    }
  }

  /** A field before its first shard. */
  predicate Unread(f: Field) {
    f.shard == -1
  }

  /** Fields without a shard give no rows. */
  lemma {:induction false} NoRows(fields: seq<Field>)
    requires forall i :: 0 <= i < |fields| ==> Unread(fields[i]) && !fields[i].Moved().0
    ensures AddFields(map[], Advance(fields)) == map[]
  {
    hide AddPoints;
    if fields != [] {
      var n := |fields| - 1;
      NoRows(fields[..n]);
      assert Advance(fields)[..n] == Advance(fields[..n]);
      assert Advance(fields)[n].Rest() == [];
      AddNoPoints(map[], fields[n].name);
    }
  }

  class RootIterator {
    var fields: seq<Field>
    var rows: Rows
    var loaded: bool

    constructor (fs: seq<Field>)
      ensures fields == fs && rows == map[] && !loaded
    {
      fields, rows, loaded := fs, map[], false;
    }

    method LoadCurrShardData() returns (hasData: bool)
      modifies this
      ensures old(loaded) ==> hasData && loaded && rows == old(rows) && fields == old(fields)
      ensures !old(loaded) ==> rows == AddFields(old(rows), old(fields)) && loaded == hasData
      ensures !old(loaded) ==> if hasData then rows != map[] else rows == old(rows)
      ensures |fields| == |old(fields)| && forall k :: 0 <= k < |fields| ==> Elsewhere(old(fields)[k], fields[k])
    {
      hide Field.Rest, Field.HasNext, Field.Next, AddPoints, AddPoint;
      if loaded {
        return true;
      }
      hasData := false;
      ghost var before := fields;
      for i := 0 to |fields|
        invariant |fields| == |before| && fields[i..] == before[i..]
        invariant forall k :: 0 <= k < i ==> Elsewhere(before[k], fields[k])
        invariant rows == AddFields(old(rows), before[..i])
        invariant if hasData then rows != map[] else rows == old(rows)
        invariant !loaded
      {
        assert fields[i] == fields[i..][0] == before[i];
        assert fields[i + 1..] == fields[i..][1..] == before[i + 1..];
        assert before[..i + 1][..i] == before[..i];
        ghost var start, name := rows, before[i].name;
        ghost var rest := fields[i].Rest();
        while fields[i].HasNext()
          invariant |fields| == |before| && fields[i + 1..] == before[i + 1..]
          invariant forall k :: 0 <= k <= i ==> Elsewhere(before[k], fields[k])
          invariant rest == fields[i].Rest()
          invariant AddPoints(rows, name, rest) == AddPoints(start, name, before[i].Rest())
          invariant if hasData then rows != map[] else rows == old(rows)
          invariant !loaded
          decreases |rest|
        {
          FieldStep(fields[i]);
          var (p, next) := fields[i].Next();
          fields := fields[i := next];
          if p.None? {
            break;
          }
          AddPointsFirst(rows, name, rest);
          rest := next.Rest();
          rows := AddPoint(rows, fields[i].name, p.value);
          hasData := true;
        }
        if rest == fields[i].Rest() {
          FieldStep(fields[i]);
        }
        AddNoPoints(rows, name);
      }
      assert before[..|before|] == before;
      loaded := hasData;
    }

    method MoveToNextShard() returns (ok: bool)
      modifies this
      ensures rows == AddFields(old(rows), Advance(old(fields))) || (!ok && rows == old(rows))
      ensures ok == loaded && if ok then rows != map[] else rows == old(rows)
      ensures AnyMoves(old(fields)) ==> rows == AddFields(old(rows), Advance(old(fields)))
      ensures !AnyMoves(old(fields)) ==> !ok
      ensures |fields| == |old(fields)|
      ensures forall k :: 0 <= k < |fields| ==> Elsewhere(Advance(old(fields))[k], fields[k])
    {
      hide AddFields, Field.Moved;
      loaded := false;
      var any := false;
      ghost var before := fields;
      for i := 0 to |fields|
        invariant |fields| == |before| && rows == old(rows) && !loaded
        invariant forall k :: i <= k < |fields| ==> fields[k] == before[k]
        invariant forall k :: 0 <= k < i ==> fields[k] == before[k].Moved().1
        invariant any <==> exists k :: 0 <= k < i && before[k].Moved().0
      {
        var (moved, next) := fields[i].Moved();
        fields := fields[i := next];
        if moved {
          any := true;
        }
      }
      assert fields == Advance(before);
      if !any {
        return false;
      }
      ok := LoadCurrShardData();
    }

    method HasNext() returns (more: bool)
      modifies this
      ensures old(rows) != map[] ==>
                more && rows == old(rows) && fields == old(fields) && loaded == old(loaded)
      ensures old(rows) == map[] && old(loaded) ==> !more && loaded && rows == map[]
      ensures old(rows) == map[] && !old(loaded) ==>
                && more == loaded == (rows != map[])
                && rows == if AnyMoves(old(fields)) then AddFields(map[], Advance(old(fields))) else map[]
    {
      hide AddFields, Field.Moved;
      if rows != map[] {
        return true;
      }
      if loaded {
        return false;
      }
      more := MoveToNextShard();
    }

    /** The row of the earliest time, of the rows loaded, or else of those the current shards have,
        or else of those of the next shards; None where the source throws. Rows used up after
        loading are for HasNext to notice. */
    method Next() returns (row: Option<RowNode>)
      requires rows == map[] ==> !loaded
      modifies this
      ensures old(rows) != map[] ==>
                row.Some? && TakesEarliest(old(rows), row.value, rows) && loaded == old(loaded) && fields == old(fields)
      ensures old(rows) == map[] && Aligned(old(fields)) ==>
                var here, there := AddFields(map[], old(fields)), AddFields(map[], Advance(old(fields)));
                if here != map[] then row.Some? && TakesEarliest(here, row.value, rows)
                else if AnyMoves(old(fields)) && there != map[] then row.Some? && TakesEarliest(there, row.value, rows)
                else row == None
    {
      hide AddFields, Field.Moved;
      if rows == map[] {
        var ok := LoadCurrShardData();
        if !ok {
          if Aligned(old(fields)) {
            AdvanceElsewhere(old(fields), fields);
          }
          ok := MoveToNextShard();
          if !ok {
            return None;
          }
        }
      }
      EarliestExists(rows);
      var t :| t in rows && forall u :: u in rows ==> t <= u;
      ghost var all := rows;
      row := Some(rows[t]);
      rows := rows - {t};
      assert Earliest(all, t) && TakesAt(all, t, row.value, rows);
    }

    /** The loop of the query without its filter. */
    method Collect() returns (out: seq<RowNode>)
      requires rows == map[] && !loaded && forall i :: 0 <= i < |fields| ==> Unread(fields[i])
      modifies this
      ensures InOrder(out, AddFields(map[], Advance(old(fields))))
    {
      hide AddFields, Advance;
      out := [];
      ghost var all: Rows := AddFields(map[], Advance(fields));
      AddFieldsFit(map[], Advance(fields));
      var more := HasNext();
      if !more {
        if !AnyMoves(old(fields)) {
          NoRows(old(fields));
        }
        return;
      }
      while more
        invariant more <==> rows != map[]
        invariant Taken(out, rows, all) && loaded
        decreases |rows|
      {
        ghost var was := rows;
        var row := Next();
        ghost var t :| TakesAt(was, t, row.value, rows);
        TakeEarliest(out, was, all, t);
        out := out + [row.value];
        more := HasNext();
      }
      AllTaken(out, all);
    }
  }

  lemma AddPointsFirst(rows: Rows, field: string, ps: seq<Point>)
    requires ps != []
    ensures AddPoints(rows, field, ps) == AddPoints(AddPoint(rows, field, ps[0]), field, ps[1..])
  {
  }

  lemma AddNoPoints(rows: Rows, field: string)
    ensures AddPoints(rows, field, []) == rows
  {
  }

  // ---------- from the blocks to the rows ----------

  /** The iterator tree of create_iterator_tree: for every field its shards in order, for every
      shard the index blocks of every series of the query. */
  type Tree = seq<seq<seq<Series>>>

  /** What the rows hold of a field: what its first shard delivers. */
  function FirstDelivered(shards: seq<seq<Series>>): seq<Point> {
    if shards == [] then [] else Delivered(shards[0])
  }

  ghost predicate Distinct(names: seq<string>) {
    forall i, j :: 0 <= i < j < |names| ==> names[i] != names[j]
  }

  ghost predicate HasRow(out: seq<RowNode>, t: int) {
    exists k :: 0 <= k < |out| && out[k].time == t
  }

  ghost predicate HasPoint(points: seq<seq<Point>>, t: int) {
    exists i :: 0 <= i < |points| && LastAt(points[i], t).Some?
  }

  /** out is the outer join on time of the points of the named columns, by increasing time. */
  ghost predicate Joined(out: seq<RowNode>, names: seq<string>, points: seq<seq<Point>>)
    requires |names| == |points|
  {
    && (forall j, k :: 0 <= j < k < |out| ==> out[j].time < out[k].time)
    && (forall t :: HasRow(out, t) <==> HasPoint(points, t))
    && (forall k, i :: 0 <= k < |out| && 0 <= i < |names| ==>
          Column(out[k], names[i]) == LastAt(points[i], out[k].time))
    && (forall k, name :: 0 <= k < |out| && name in out[k].columns ==> name in names)
  }

  function Column(row: RowNode, name: string): Option<string> {
    if name in row.columns then Some(row.columns[name]) else None
  }

  /** That leaves nothing open: there is only one such list of rows. */
  lemma JoinedOnce(out: seq<RowNode>, other: seq<RowNode>, names: seq<string>, points: seq<seq<Point>>)
    requires |names| == |points| && Joined(out, names, points) && Joined(other, names, points)
    ensures out == other
  {
    hide LastAt, HasPoint;
    JoinedTimes(out, other, names, points, |out|);
    JoinedTimes(other, out, names, points, |other|);
    forall k | 0 <= k < |out|
      ensures out[k] == other[k]
    {
      assert forall name :: name in out[k].columns || name in other[k].columns ==> name in names;
      forall name | name in names
        ensures Column(out[k], name) == Column(other[k], name)
      {
        var i :| 0 <= i < |names| && names[i] == name;
        assert Column(out[k], names[i]) == LastAt(points[i], out[k].time);
        assert Column(other[k], names[i]) == LastAt(points[i], other[k].time);
      }
      SameColumns(out[k], other[k], names);
    }
  }

  lemma SameColumns(a: RowNode, b: RowNode, names: seq<string>)
    requires a.time == b.time && forall name :: name in names ==> Column(a, name) == Column(b, name)
    requires forall name :: name in a.columns || name in b.columns ==> name in names
    ensures a == b
  {
    forall name
      ensures name in a.columns <==> name in b.columns
      ensures name in a.columns ==> a.columns[name] == b.columns[name]
    {
      if name in a.columns || name in b.columns {
        assert Column(a, name) == Column(b, name);
      }
    }
    assert a.columns == b.columns;
  }

  lemma {:induction false} JoinedTimes(out: seq<RowNode>, other: seq<RowNode>, names: seq<string>,
                                       points: seq<seq<Point>>, n: nat)
    requires |names| == |points| && Joined(out, names, points) && Joined(other, names, points)
    requires n <= |out|
    ensures n <= |other| && forall k :: 0 <= k < n ==> out[k].time == other[k].time
  {
    hide LastAt, HasPoint, Column;
    if n > 0 {
      JoinedTimes(out, other, names, points, n - 1);
      var t := out[n - 1].time;
      assert HasRow(out, t);
      assert HasRow(other, t);
      var m :| 0 <= m < |other| && other[m].time == t;
      assert m >= n - 1;
      var u := other[n - 1].time;
      assert HasRow(other, u);
      assert HasRow(out, u);
      var l :| 0 <= l < |out| && out[l].time == u;
      assert l >= n - 1;
    }
  }

  lemma RowsJoined(out: seq<RowNode>, names: seq<string>, fields: seq<Field>, points: seq<seq<Point>>)
    requires |names| == |fields| == |points| && Distinct(names)
    requires forall i :: 0 <= i < |fields| ==> fields[i].name == names[i] && fields[i].Rest() == points[i]
    requires InOrder(out, AddFields(map[], fields))
    ensures Joined(out, names, points)
  {
    hide AddFields, LastAt, Field.Rest;
    var rows := AddFields(map[], fields);
    forall t
      ensures HasRow(out, t) <==> HasPoint(points, t)
    {
      OuterJoin(fields, t);
      assert t in rows <==> HasPoint(points, t);
    }
    forall k, i | 0 <= k < |out| && 0 <= i < |names|
      ensures Column(out[k], names[i]) == LastAt(points[i], out[k].time)
    {
      OuterJoin(fields, out[k].time);
      assert Cell(rows, out[k].time, fields[i].name) == LastAt(fields[i].Rest(), out[k].time);
    }
    forall k, name | 0 <= k < |out| && name in out[k].columns
      ensures name in names
    {
      OuterJoin(fields, out[k].time);
      assert Cell(rows, out[k].time, name) == Some(out[k].columns[name]);
      var i :| 0 <= i < |fields| && fields[i].name == name;
      assert names[i] == name;
    }
  }

  /** The query from the iterator tree on, without its filter: it returns the outer join on time of
      what the first shard of every field delivers. */
  method Select(names: seq<string>, tree: Tree) returns (out: seq<RowNode>)
    requires |names| == |tree| && Distinct(names)
    ensures Joined(out, names, seq(|tree|, i requires 0 <= i < |tree| => FirstDelivered(tree[i])))
  {
    hide AddFields, Field.Rest, Delivered, Joined;
    var fields: seq<Field> := [];
    for i := 0 to |tree|
      invariant |fields| == i
      invariant forall k :: 0 <= k < i ==> IteratorOf(fields[k], names[k], tree[k])
    {
      var shards: seq<Shard> := [];
      for j := 0 to |tree[i]|
        invariant |shards| == j && forall k :: 0 <= k < j ==> shards[k] == Shard(FreshSets(tree[i][k]), 0)
      {
        shards := shards + [Shard(FreshSets(tree[i][j]), 0)];
      }
      fields := fields + [Field(names[i], shards, -1)];
    }
    var root := new RootIterator(fields);
    out := root.Collect();
    ghost var points := seq(|tree|, i requires 0 <= i < |tree| => FirstDelivered(tree[i]));
    forall i | 0 <= i < |tree|
      ensures Advance(fields)[i].name == names[i] && Advance(fields)[i].Rest() == points[i]
    {
      FirstRead(fields[i], names[i], tree[i]);
    }
    RowsJoined(out, names, Advance(fields), points);
  }

  ghost predicate IteratorOf(f: Field, name: string, shards: seq<seq<Series>>) {
    && f.name == name && Unread(f) && |f.shards| == |shards|
    && forall j :: 0 <= j < |shards| ==> f.shards[j] == Shard(FreshSets(shards[j]), 0)
  }

  lemma FirstRead(f: Field, name: string, shards: seq<seq<Series>>)
    requires IteratorOf(f, name, shards)
    ensures f.Moved().1.name == name && f.Moved().1.Rest() == FirstDelivered(shards)
  {
    hide Delivered, Shard.Rest;
    if shards != [] {
      FirstShard(f, shards[0]);
    }
  }

  /** In a row the value of a field is the one of the last of its series, in order, that has the
      time, if all its series are complete. */
  lemma LastSeriesWins(series: seq<Series>, last: Series, time: int)
    requires Complete(last) && forall i :: 0 <= i < |series| ==> Complete(series[i])
    ensures LastAt(Delivered(series + [last]), time) ==
            if LastAt(Flatten(last), time).Some? then LastAt(Flatten(last), time)
            else LastAt(Delivered(series), time)
  {
    hide Delivered, LastAt, Complete;
    ShardComplete(series + [last]);
    ShardComplete(series);
    FlattenSnoc(series, last);
    LaterWins(FlattenAll(series), Flatten(last), time);
  }

  lemma {:induction false} FlattenSnoc(series: seq<Series>, last: Series)
    ensures FlattenAll(series + [last]) == FlattenAll(series) + Flatten(last)
  {
    if series == [] {
      assert FlattenAll([last]) == Flatten(last) + FlattenAll([]);
    } else {
      assert (series + [last])[1..] == series[1..] + [last];
      FlattenSnoc(series[1..], last);
      assert Flatten(series[0]) + (FlattenAll(series[1..]) + Flatten(last)) ==
             Flatten(series[0]) + FlattenAll(series[1..]) + Flatten(last);
    }
  }
}
