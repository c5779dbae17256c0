/** From a write to a read: what the window took in is what a reader of the file gets. */
module Storage {
  import opened Bytes
  import TsmFile
  import FlushQueue
  import FlushRuns
  import Window
  import SkipList
  import SeriesRead

  /** A window whose block has been written to the file is read back point by point, in the order
      of time, from the offset in its index entry, after any further run. */
  lemma WindowReadsBack(env: TsmFile.Env, evs: seq<FlushRuns.Event>, k: nat, ps: seq<Window.Point>)
    requires env.Valid() && FlushRuns.Legal(env, FlushQueue.EMPTY, evs) && FlushRuns.Fits(env, FlushQueue.EMPTY, evs)
    requires var s := FlushRuns.Run(env, FlushQueue.EMPTY, evs);
             s.file.OnDisk? && k < |s.log| && Window.IsBlockOf(s.log[k].0, ps)
    requires SkipList.Sorted(ps) && Window.Times64(ps) && forall i :: 0 <= i < |ps| ==> ps[i].0 != 0
    ensures var s := FlushRuns.Run(env, FlushQueue.EMPTY, evs);
            var read := TsmFile.ReadBlock(env, s.file.bytes, s.log[k].1.offset);
            && read.Some? && read.value.num == |ps|
            && read.value.timestamps == Window.Times(ps) && read.value.values == Window.Values(ps)
            && s.log[k].1.minTime == ps[0].0 && s.log[k].1.maxTime == ps[|ps| - 1].0
  {
    hide TsmFile.ReadBlock, FlushRuns.Run, FlushRuns.Legal, FlushRuns.Fits;
    var s := FlushRuns.Run(env, FlushQueue.EMPTY, evs);
    FlushRuns.FittingRun(env, evs);
    FlushRuns.ReadBack(env, s);
    Window.BlockOfWindow(s.log[k].0, ps);
    FlushRuns.EntryOfBlock(env, s, k);
  }

  /** What the iterator of a query makes of such a block: the points of the window, each time with its
      own data, character by character. */
  lemma WindowIsQueried(env: TsmFile.Env, evs: seq<FlushRuns.Event>, k: nat, ps: seq<Window.Point>)
    requires env.Valid() && FlushRuns.Legal(env, FlushQueue.EMPTY, evs) && FlushRuns.Fits(env, FlushQueue.EMPTY, evs)
    requires var s := FlushRuns.Run(env, FlushQueue.EMPTY, evs);
             s.file.OnDisk? && k < |s.log| && Window.IsBlockOf(s.log[k].0, ps)
    requires SkipList.Sorted(ps) && Window.Times64(ps) && forall i :: 0 <= i < |ps| ==> ps[i].0 != 0
    ensures var s := FlushRuns.Run(env, FlushQueue.EMPTY, evs);
            var got := SeriesRead.PointsAt(env, s.file.bytes, s.log[k].1);
            && |got| == |ps|
            && forall i :: 0 <= i < |ps| ==>
                 && got[i].time == ps[i].0 && |got[i].data| == |ps[i].1|
                 && forall j :: 0 <= j < |ps[i].1| ==> got[i].data[j] as int == ps[i].1[j]
  {
    hide TsmFile.ReadBlock, FlushRuns.Run, FlushRuns.Legal, FlushRuns.Fits, SeriesRead.Points;
    var s := FlushRuns.Run(env, FlushQueue.EMPTY, evs);
    WindowReadsBack(env, evs, k, ps);
    var b := TsmFile.ReadBlock(env, s.file.bytes, s.log[k].1.offset).value;
    assert |b.timestamps| == |b.values| == |ps|;
    Window.BlockOfWindow(s.log[k].0, ps);
    forall i | 0 <= i < |ps|
      ensures |SeriesRead.Points(b)| == |ps| && SeriesRead.Points(b)[i].time == ps[i].0
      ensures |SeriesRead.Points(b)[i].data| == |ps[i].1|
      ensures forall j :: 0 <= j < |ps[i].1| ==> SeriesRead.Points(b)[i].data[j] as int == ps[i].1[j]
    {
      SeriesRead.PointsPair(b, i);
      assert b.values[i] == ps[i].1;
    }
  }

  /** And so for whole runs: each value a reader finds in the block of an emitted window is the
      first one written for its time among the writes that filled the window. */
  lemma FirstWriteReadsBack(env: TsmFile.Env, evs: seq<FlushRuns.Event>, k: nat, ws: seq<Window.Write>, n: nat, i: nat)
    requires env.Valid() && FlushRuns.Legal(env, FlushQueue.EMPTY, evs) && FlushRuns.Fits(env, FlushQueue.EMPTY, evs)
    requires n < |Window.Run(ws).emitted|
    requires var s := FlushRuns.Run(env, FlushQueue.EMPTY, evs); var (ps, _) := Window.Run(ws).emitted[n];
             && s.file.OnDisk? && k < |s.log| && Window.IsBlockOf(s.log[k].0, ps)
             && i < |ps| && forall j :: 0 <= j < |ps| ==> ps[j].0 != 0
    ensures var s := FlushRuns.Run(env, FlushQueue.EMPTY, evs); var (_, sources) := Window.Run(ws).emitted[n];
            var read := TsmFile.ReadBlock(env, s.file.bytes, s.log[k].1.offset);
            && read.Some? && i < |read.value.timestamps| == |read.value.values|
            && exists w :: 0 <= w < |sources| && Window.IsFirst(sources, w)
                 && sources[w].time == read.value.timestamps[i] && sources[w].data == read.value.values[i]
  {
    hide TsmFile.ReadBlock, FlushRuns.Run, FlushRuns.Legal, FlushRuns.Fits, Window.Run, Window.IsFirst;
    Window.WindowRuns(ws);
    var (ps, sources) := Window.Run(ws).emitted[n];
    WindowReadsBack(env, evs, k, ps);
    assert Window.OfFirst(sources, ps[i]);
    var w :| 0 <= w < |sources| && Window.IsFirst(sources, w) && ps[i] == Window.PointOf(sources[w]);
    assert sources[w].time == ps[i].0;
  }
}
