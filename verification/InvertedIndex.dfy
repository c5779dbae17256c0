/** The inverted index of engine/tsm/index.cpp: from measurement, tag key and tag value to the
    series created with that tag, and the intersection a query takes. */
module InvertedIndex {
  import opened Bytes
  import opened Chars
  import QueryRewrite

  // ---------- sorting the tags ----------

  predicate AtMost(a: string, b: string) {
    a == b || Less(a, b)
  }

  ghost predicate Ascending(ts: seq<string>) {
    forall j, k :: 0 <= j < k < |ts| ==> AtMost(ts[j], ts[k])
  }

  function Insert(ts: seq<string>, t: string): (r: seq<string>)
    ensures multiset(r) == multiset(ts) + multiset{t}
  {
    if ts == [] then [t]
    else if AtMost(t, ts[0]) then [t] + ts
    else
      assert ts == [ts[0]] + ts[1..];
      [ts[0]] + Insert(ts[1..], t)
  }

  /** std::list::sort. */
  function Sort(ts: seq<string>): (r: seq<string>)
    ensures multiset(r) == multiset(ts)
  {
    if ts == [] then []
    else
      assert ts == [ts[0]] + ts[1..];
      Insert(Sort(ts[1..]), ts[0])
  }

  lemma AtMostTransitive(a: string, b: string, c: string)
    requires AtMost(a, b) && AtMost(b, c)
    ensures AtMost(a, c)
  {
    if a != b && b != c {
      LessTransitive(a, b, c);
    }
  }

  lemma {:induction false} InsertAscending(ts: seq<string>, t: string)
    requires Ascending(ts)
    ensures Ascending(Insert(ts, t))
  {
    hide AtMost;
    if ts != [] {
      AtMostTotal(t, ts[0]);
      if AtMost(t, ts[0]) {
        forall k | 0 <= k < |ts|
          ensures AtMost(t, ts[k])
        {
          if k > 0 {
            AtMostTransitive(t, ts[0], ts[k]);
          }
        }
      } else {
        InsertAscending(ts[1..], t);
        var r := Insert(ts[1..], t);
        forall k | 0 <= k < |r|
          ensures AtMost(ts[0], r[k])
        {
          assert r[k] in multiset(r);
          assert r[k] == t || r[k] in ts[1..];
        }
      }
    }
  }

  lemma AtMostTotal(a: string, b: string)
    ensures AtMost(a, b) || AtMost(b, a)
    ensures AtMost(a, b) && AtMost(b, a) ==> a == b
  {
    LessTotal(a, b);
  }

  lemma {:induction false} SortAscending(ts: seq<string>)
    ensures Ascending(Sort(ts))
  {
    if ts != [] {
      SortAscending(ts[1..]);
      InsertAscending(Sort(ts[1..]), ts[0]);
    }
  }

  /** Two ascending lists of the same strings are one list. */
  lemma {:induction false} AscendingUnique(a: seq<string>, b: seq<string>)
    requires Ascending(a) && Ascending(b) && multiset(a) == multiset(b)
    ensures a == b
    decreases |a|
  {
    assert |multiset(a)| == |a| && |multiset(b)| == |b|;
    if a != [] {
      HeadsEqual(a, b);
      assert a == [a[0]] + a[1..] && b == [b[0]] + b[1..];
      assert multiset(a[1..]) == multiset(a) - multiset{a[0]};
      assert multiset(b[1..]) == multiset(b) - multiset{b[0]};
      AscendingUnique(a[1..], b[1..]);
    }
  }

  lemma HeadsEqual(a: seq<string>, b: seq<string>)
    requires Ascending(a) && Ascending(b) && a != [] && b != [] && multiset(a) == multiset(b)
    ensures a[0] == b[0]
  {
    hide AtMost;
    assert a[0] in multiset(b) && b[0] in multiset(a);
    var j :| 0 <= j < |b| && b[j] == a[0];
    var k :| 0 <= k < |a| && a[k] == b[0];
    AtMostTotal(a[0], b[0]);
    AtMostTotal(b[0], b[0]);
    assert AtMost(a[0], b[0]) && AtMost(b[0], a[0]);
  }

  lemma SortOfPermutation(a: seq<string>, b: seq<string>)
    requires multiset(a) == multiset(b)
    ensures Sort(a) == Sort(b)
  {
    SortAscending(a);
    SortAscending(b);
    AscendingUnique(Sort(a), Sort(b));
  }

  // ---------- series ----------

  function Concat(ts: seq<string>): string {
    if ts == [] then "" else ts[0] + Concat(ts[1..])
  }

  /** One call of create_index. */
  datatype Call = Call(measurement: string, tags: seq<string>) {
    /** The series key: the measurement and the sorted tags without anything in between. */
    function Key(): string {
      measurement + Concat(Sort(tags))
    }
  }

  function EqualsAt(t: string): (k: nat)
    ensures k <= |t| && (k < |t| ==> t[k] == '=')
    ensures forall j :: 0 <= j < k ==> t[j] != '='
  {
    if t == "" || t[0] == '=' then 0 else 1 + EqualsAt(t[1..])
  }

  /** A tag before and behind its first equals sign, if it has one. */
  function SplitTag(t: string): Option<(string, string)> {
    var k := EqualsAt(t);
    if k == |t| then None else Some((t[..k], t[k + 1..]))
  }

  /** What stands before the first equals sign is the key, all the rest the value. */
  lemma SplitJoined(k: string, v: string)
    requires '=' !in k
    ensures SplitTag(k + "=" + v) == Some((k, v))
  {
    var t := k + "=" + v;
    var n := EqualsAt(t);
    assert t[|k|] == '=';
    assert forall j :: 0 <= j < |k| ==> t[j] == k[j];
    assert n == |k|;
    assert t[..n] == k && t[n + 1..] == v;
  }

  lemma SplitParts(t: string)
    ensures SplitTag(t).None? <==> '=' !in t
    ensures SplitTag(t).Some? ==>
              var (k, v) := SplitTag(t).value;
              '=' !in k && t == k + "=" + v
  {
    var n := EqualsAt(t);
    if n < |t| {
      assert t[n] in t;
      assert t == t[..n] + [t[n]] + t[n + 1..];
    }
  }

  /** The tags with an equals sign among ts. */
  function TagsOf(ts: seq<string>): (r: set<(string, string)>)
  {
    if ts == [] then {}
    else TagsOf(ts[..|ts| - 1]) + (match SplitTag(ts[|ts| - 1]) case Some(tag) => {tag} case None => {})
  }

  lemma {:induction false} TagsOfMember(ts: seq<string>, tag: (string, string))
    ensures tag in TagsOf(ts) <==> exists t :: t in ts && SplitTag(t) == Some(tag)
  {
    if ts != [] {
      TagsOfMember(ts[..|ts| - 1], tag);
      assert ts == ts[..|ts| - 1] + [ts[|ts| - 1]];
    }
  }

  /** The order of the tags does not matter. */
  lemma TagOrder(a: Call, b: Call)
    requires a.measurement == b.measurement && multiset(a.tags) == multiset(b.tags)
    ensures a.Key() == b.Key() && TagsOf(a.tags) == TagsOf(b.tags)
  {
    SortOfPermutation(a.tags, b.tags);
    forall t
      ensures t in TagsOf(a.tags) <==> t in TagsOf(b.tags)
    {
      TagsOfMember(a.tags, t);
      TagsOfMember(b.tags, t);
      assert forall x :: x in a.tags <==> x in multiset(a.tags);
      assert forall x :: x in b.tags <==> x in multiset(b.tags);
    }
  }

  // ---------- the index ----------

  type Block = map<string, map<string, set<string>>>

  datatype State = State(chunks: set<string>, blocks: map<string, Block>, tagKeys: map<string, set<string>>)

  const EMPTY := State({}, map[], map[])

  function Values(s: State, measurement: string, key: string): map<string, set<string>> {
    if measurement in s.blocks && key in s.blocks[measurement] then s.blocks[measurement][key] else map[]
  }

  /** get_series_key_by_tag. */
  function Lookup(s: State, measurement: string, tag: (string, string)): set<string> {
    var values := Values(s, measurement, tag.0);
    if tag.1 in values then values[tag.1] else {}
  }

  /** whether_tag. */
  predicate WhetherTag(s: State, measurement: string, key: string) {
    measurement in s.tagKeys && key in s.tagKeys[measurement]
  }

  /** Recording one tag of a new series. */
  function Record(s: State, measurement: string, tag: (string, string), series: string): State {
    var block := if measurement in s.blocks then s.blocks[measurement] else map[];
    var values := if tag.0 in block then block[tag.0] else map[];
    var found := if tag.1 in values then values[tag.1] else {};
    var keys := if measurement in s.tagKeys then s.tagKeys[measurement] else {};
    State(s.chunks,
          s.blocks[measurement := block[tag.0 := values[tag.1 := found + {series}]]],
          s.tagKeys[measurement := keys + {tag.0}])
  }

  function RecordAll(s: State, measurement: string, ts: seq<string>, series: string): State {
    if ts == [] then s
    else
      var before := RecordAll(s, measurement, ts[..|ts| - 1], series);
      match SplitTag(ts[|ts| - 1])
      case Some(tag) => Record(before, measurement, tag, series)
      case None => before
  }

  /** create_index. */
  function Create(s: State, c: Call): State {
    if c.Key() in s.chunks then s
    else RecordAll(WithSeries(s, c), c.measurement, Sort(c.tags), c.Key())
  }

  /** The new series key, and a block for its measurement. */
  function WithSeries(s: State, c: Call): State {
    var block := if c.measurement in s.blocks then s.blocks[c.measurement] else map[];
    State(s.chunks + {c.Key()}, s.blocks[c.measurement := block], s.tagKeys)
  }

  function Run(calls: seq<Call>): State {
    if calls == [] then EMPTY else Create(Run(calls[..|calls| - 1]), calls[|calls| - 1])
  }

  /** Creating a series again changes nothing. */
  lemma CreateAgain(s: State, c: Call)
    ensures Create(Create(s, c), c) == Create(s, c)
  {
    ChunksGrow(s, c);
  }

  lemma ChunksGrow(s: State, c: Call)
    ensures Create(s, c).chunks == s.chunks + {c.Key()}
  {
    if c.Key() !in s.chunks {
      RecordChunks(WithSeries(s, c), c.measurement, Sort(c.tags), c.Key());
    }
  }

  lemma {:induction false} RecordChunks(s: State, measurement: string, ts: seq<string>, series: string)
    ensures RecordAll(s, measurement, ts, series).chunks == s.chunks
  {
    if ts != [] {
      RecordChunks(s, measurement, ts[..|ts| - 1], series);
    }
  }

  lemma RecordLooks(s: State, measurement: string, tag: (string, string), series: string,
                    m: string, t: (string, string))
    ensures Lookup(Record(s, measurement, tag, series), m, t) ==
            Lookup(s, m, t) + if m == measurement && t == tag then {series} else {}
    ensures WhetherTag(Record(s, measurement, tag, series), m, t.0) <==>
            WhetherTag(s, m, t.0) || (m == measurement && t.0 == tag.0)
  {
  }

  lemma {:induction false} RecordAllLooks(s: State, measurement: string, ts: seq<string>, series: string,
                                          m: string, t: (string, string))
    ensures Lookup(RecordAll(s, measurement, ts, series), m, t) ==
            Lookup(s, m, t) + if m == measurement && t in TagsOf(ts) then {series} else {}
  {
    if ts != [] {
      RecordAllLooks(s, measurement, ts[..|ts| - 1], series, m, t);
      var before := RecordAll(s, measurement, ts[..|ts| - 1], series);
      match SplitTag(ts[|ts| - 1])
      case Some(tag) => RecordLooks(before, measurement, tag, series, m, t);
      case None =>
    }
  }

  /** A new series is found under its own tags; everything else is found as before. */
  lemma CreateLooks(s: State, c: Call, m: string, t: (string, string))
    ensures Lookup(Create(s, c), m, t) ==
            Lookup(s, m, t) +
            if c.Key() !in s.chunks && m == c.measurement && t in TagsOf(c.tags) then {c.Key()} else {}
  {
    if c.Key() !in s.chunks {
      RecordAllLooks(WithSeries(s, c), c.measurement, Sort(c.tags), c.Key(), m, t);
      SortSame(c.tags);
    }
  }

  /** Seen from outside: after a call with a new key the series is found under exactly the tags that
      are written `key=value` in the call, and the keys of these are tag keys now. Everything else
      is as before, so a tag without an equals sign leaves no trace. */
  lemma CreateRecords(s: State, c: Call, m: string, k: string, v: string)
    requires '=' !in k
    ensures c.Key() in Lookup(Create(s, c), m, (k, v)) <==>
            c.Key() in Lookup(s, m, (k, v)) ||
            (c.Key() !in s.chunks && m == c.measurement && k + "=" + v in c.tags)
    ensures WhetherTag(Create(s, c), m, k) <==>
            WhetherTag(s, m, k) ||
            (c.Key() !in s.chunks && m == c.measurement && exists x :: k + "=" + x in c.tags)
  {
    hide Call.Key, Sort, Lookup, WhetherTag, SplitTag;
    CreateLooks(s, c, m, (k, v));
    TagWritten(c.tags, k, v);
    CreateKeys(s, c, m, k);
  }

  /** No recorded key has an equals sign. */
  lemma NoKeyWithEquals(ts: seq<string>, t: (string, string))
    requires t in TagsOf(ts)
    ensures '=' !in t.0
  {
    hide SplitTag;
    TagsOfMember(ts, t);
    var x :| x in ts && SplitTag(x) == Some(t);
    SplitParts(x);
  }

  lemma TagWritten(ts: seq<string>, k: string, v: string)
    requires '=' !in k
    ensures (k, v) in TagsOf(ts) <==> k + "=" + v in ts
  {
    hide SplitTag, TagsOf;
    TagsOfMember(ts, (k, v));
    SplitJoined(k, v);
    if t :| t in ts && SplitTag(t) == Some((k, v)) {
      SplitParts(t);
    }
  }

  lemma CreateKeys(s: State, c: Call, m: string, k: string)
    requires '=' !in k
    ensures WhetherTag(Create(s, c), m, k) <==>
            WhetherTag(s, m, k) ||
            (c.Key() !in s.chunks && m == c.measurement && exists x :: k + "=" + x in c.tags)
  {
    hide Call.Key, Sort, SplitTag, RecordAll;
    if c.Key() !in s.chunks {
      RecordAllKeys(WithSeries(s, c), c.measurement, Sort(c.tags), c.Key(), m, k);
      SortMembers(c.tags);
    }
  }

  lemma SortMembers(ts: seq<string>)
    ensures forall t :: t in Sort(ts) <==> t in ts
  {
    assert forall x :: x in ts <==> x in multiset(ts);
    assert forall x :: x in Sort(ts) <==> x in multiset(Sort(ts));
  }

  lemma {:induction false} RecordAllKeys(s: State, measurement: string, ts: seq<string>, series: string,
                                         m: string, k: string)
    requires '=' !in k
    ensures WhetherTag(RecordAll(s, measurement, ts, series), m, k) <==>
            WhetherTag(s, m, k) || (m == measurement && exists x :: k + "=" + x in ts)
  {
    hide SplitTag, Record;
    if ts != [] {
      var n := |ts| - 1;
      var before := RecordAll(s, measurement, ts[..n], series);
      RecordAllKeys(s, measurement, ts[..n], series, m, k);
      assert ts == ts[..n] + [ts[n]];
      SplitParts(ts[n]);
      if SplitTag(ts[n]).Some? {
        var tag := SplitTag(ts[n]).value;
        RecordLooks(before, measurement, tag, series, m, (k, tag.1));
      }
      LastWritten(ts[n], k);
      assert (exists x :: k + "=" + x in ts) <==>
             (exists x :: k + "=" + x in ts[..n]) || (exists x :: k + "=" + x == ts[n]);
    }
  }

  lemma LastWritten(t: string, k: string)
    requires '=' !in k
    ensures (exists x :: k + "=" + x == t) <==> SplitTag(t).Some? && SplitTag(t).value.0 == k
  {
    hide SplitTag;
    SplitParts(t);
    if x :| k + "=" + x == t {
      SplitJoined(k, x);
    }
  }

  lemma SortSame(ts: seq<string>)
    ensures TagsOf(Sort(ts)) == TagsOf(ts)
  {
    forall t
      ensures t in TagsOf(Sort(ts)) <==> t in TagsOf(ts)
    {
      TagsOfMember(Sort(ts), t);
      TagsOfMember(ts, t);
      assert forall x :: x in ts <==> x in multiset(ts);
      assert forall x :: x in Sort(ts) <==> x in multiset(Sort(ts));
    }
  }

  // ---------- the index against the calls ----------

  /** The call that made its series: none before it has the same key. */
  ghost predicate Made(calls: seq<Call>, i: nat) {
    i < |calls| && forall j :: 0 <= j < i ==> calls[j].Key() != calls[i].Key()
  }

  /** Call i made the series with the given key in measurement m, with tag t. */
  ghost predicate MadeWith(calls: seq<Call>, i: nat, series: string, m: string, t: (string, string)) {
    Made(calls, i) && calls[i].Key() == series && calls[i].measurement == m && t in TagsOf(calls[i].tags)
  }

  lemma {:induction false} RunChunks(calls: seq<Call>, key: string)
    ensures key in Run(calls).chunks <==> exists i :: 0 <= i < |calls| && calls[i].Key() == key
  {
    hide Create, Call.Key;
    if calls != [] {
      var before := calls[..|calls| - 1];
      RunChunks(before, key);
      ChunksGrow(Run(before), calls[|calls| - 1]);
      if i :| 0 <= i < |calls| && calls[i].Key() == key {
        assert i < |before| ==> before[i].Key() == key;
      }
      if i :| 0 <= i < |before| && before[i].Key() == key {
        assert calls[i].Key() == key;
      }
    }
  }

  lemma MadeBefore(calls: seq<Call>, i: nat, series: string, m: string, t: (string, string))
    requires calls != [] && i < |calls| - 1
    ensures MadeWith(calls, i, series, m, t) <==> MadeWith(calls[..|calls| - 1], i, series, m, t)
  {
    hide TagsOf, Call.Key;
    var before := calls[..|calls| - 1];
    assert forall j :: 0 <= j <= i ==> calls[j] == before[j];
  }

  lemma MadeLast(calls: seq<Call>, series: string, m: string, t: (string, string))
    requires calls != []
    ensures var c := calls[|calls| - 1];
            MadeWith(calls, |calls| - 1, series, m, t) <==>
            c.Key() !in Run(calls[..|calls| - 1]).chunks && c.Key() == series && c.measurement == m &&
            t in TagsOf(c.tags)
  {
    hide TagsOf, Call.Key, Run;
    var n := |calls| - 1;
    RunChunks(calls[..n], calls[n].Key());
    assert forall j :: 0 <= j < n ==> calls[..n][j] == calls[j];
  }

  /** What a lookup finds are the series made with the tag. */
  lemma {:induction false} LookupIsMade(calls: seq<Call>, series: string, m: string, t: (string, string))
    ensures series in Lookup(Run(calls), m, t) <==> exists i :: MadeWith(calls, i, series, m, t)
  {
    hide MadeWith, TagsOf, Call.Key, Create, Lookup;
    if calls == [] {
      NothingMade(series, m, t);
    } else {
      var n := |calls| - 1;
      var before := calls[..n];
      LookupIsMade(before, series, m, t);
      CreateLooks(Run(before), calls[n], m, t);
      MadeLast(calls, series, m, t);
      forall i: nat
        ensures MadeWith(calls, i, series, m, t) <==>
                (i < n && MadeWith(before, i, series, m, t)) || (i == n && MadeWith(calls, n, series, m, t))
        ensures MadeWith(before, i, series, m, t) ==> i < n
      {
        MadeInside(calls, i, series, m, t);
        MadeInside(before, i, series, m, t);
        if i < n {
          MadeBefore(calls, i, series, m, t);
        }
      }
    }
  }

  lemma MadeInside(calls: seq<Call>, i: nat, series: string, m: string, t: (string, string))
    ensures MadeWith(calls, i, series, m, t) ==> i < |calls|
  {
    hide TagsOf, Call.Key;
  }

  lemma NothingMade(series: string, m: string, t: (string, string))
    ensures Lookup(Run([]), m, t) == {} && forall i :: !MadeWith([], i, series, m, t)
  {
    hide TagsOf, Call.Key;
  }

  /** A scan over all calls: the series created with tag t in measurement m. */
  ghost predicate Scanned(calls: seq<Call>, series: string, m: string, t: (string, string)) {
    exists i :: 0 <= i < |calls| && calls[i].Key() == series && calls[i].measurement == m && t in TagsOf(calls[i].tags)
  }

  ghost predicate AgreesWithScan(calls: seq<Call>) {
    forall series, m, t :: series in Lookup(Run(calls), m, t) <==> Scanned(calls, series, m, t)
  }

  /** Whoever gets the key of an earlier call has its measurement and no tag it has not. */
  ghost predicate NothingHidden(calls: seq<Call>) {
    forall i, j :: 0 <= i < |calls| && 0 <= j < |calls| && Made(calls, j) && calls[i].Key() == calls[j].Key() ==>
      TagsOf(calls[i].tags) == {} ||
      (calls[i].measurement == calls[j].measurement && TagsOf(calls[i].tags) <= TagsOf(calls[j].tags))
  }

  lemma {:induction false} MadeExists(calls: seq<Call>, i: nat) returns (j: nat)
    requires i < |calls|
    ensures j <= i && Made(calls, j) && calls[j].Key() == calls[i].Key()
    decreases i
  {
    hide Call.Key;
    if k :| 0 <= k < i && calls[k].Key() == calls[i].Key() {
      j := MadeExists(calls, k);
    } else {
      j := i;
    }
  }

  /** The index finds exactly what a scan over all calls finds, if and only if no call hides
      behind the key of an earlier one. */
  lemma IndexIsScan(calls: seq<Call>)
    ensures AgreesWithScan(calls) <==> NothingHidden(calls)
  {
    hide TagsOf, Call.Key, Lookup, Run;
    if NothingHidden(calls) {
      forall series, m, t
        ensures series in Lookup(Run(calls), m, t) <==> Scanned(calls, series, m, t)
      {
        ScanFinds(calls, series, m, t);
      }
    }
    if AgreesWithScan(calls) {
      forall i, j | 0 <= i < |calls| && 0 <= j < |calls| && Made(calls, j) && calls[i].Key() == calls[j].Key()
        ensures TagsOf(calls[i].tags) == {} ||
                (calls[i].measurement == calls[j].measurement && TagsOf(calls[i].tags) <= TagsOf(calls[j].tags))
      {
        forall t | t in TagsOf(calls[i].tags)
          ensures calls[i].measurement == calls[j].measurement && t in TagsOf(calls[j].tags)
        {
          assert Scanned(calls, calls[i].Key(), calls[i].measurement, t);
          LookupIsMade(calls, calls[i].Key(), calls[i].measurement, t);
          var k: nat :| MadeWith(calls, k, calls[i].Key(), calls[i].measurement, t);
          assert k == j;
        }
      }
    }
  }

  lemma ScanFinds(calls: seq<Call>, series: string, m: string, t: (string, string))
    requires NothingHidden(calls)
    ensures series in Lookup(Run(calls), m, t) <==> Scanned(calls, series, m, t)
  {
    hide TagsOf, Call.Key, Lookup, Run;
    LookupIsMade(calls, series, m, t);
    if i: nat :| i < |calls| && calls[i].Key() == series && calls[i].measurement == m && t in TagsOf(calls[i].tags) {
      var j := MadeExists(calls, i);
      assert MadeWith(calls, j, series, m, t);
    }
  }

  /** So if one key always means one measurement with one collection of tags, the index is the
      scan. */
  lemma NoCollisions(calls: seq<Call>)
    requires forall i, j :: 0 <= i < |calls| && 0 <= j < |calls| && calls[i].Key() == calls[j].Key() ==>
               calls[i].measurement == calls[j].measurement && multiset(calls[i].tags) == multiset(calls[j].tags)
    ensures AgreesWithScan(calls)
  {
    hide AgreesWithScan, Call.Key, TagsOf;
    forall i, j | 0 <= i < |calls| && 0 <= j < |calls| && Made(calls, j) && calls[i].Key() == calls[j].Key()
      ensures TagsOf(calls[i].tags) <= TagsOf(calls[j].tags)
    {
      TagOrder(calls[i], calls[j]);
    }
    IndexIsScan(calls);
  }

  /** Keys collide wherever the boundary between measurement and tag moves: the second series is
      then not found under its own tag. */
  lemma KeysCollide(a: string, b: string, tag: string)
    requires b != "" && '=' in tag
    ensures var x, y := Call(a, [b + tag]), Call(a + b, [tag]);
            x.Key() == y.Key() && !NothingHidden([x, y])
  {
    var x, y := Call(a, [b + tag]), Call(a + b, [tag]);
    assert Sort(x.tags) == x.tags && Sort(y.tags) == y.tags;
    ConcatOne(b + tag);
    ConcatOne(tag);
    assert x.Key() == a + (b + tag) == (a + b) + tag == y.Key();
    TagsOfMember([tag], SplitTag(tag).value);
    assert tag in [tag];
    Hides([x, y]);
  }

  lemma ConcatOne(t: string)
    ensures Concat([t]) == t
  {
    assert Concat([t]) == t + Concat([]);
  }

  lemma Hides(calls: seq<Call>)
    requires |calls| == 2 && calls[0].Key() == calls[1].Key() && calls[0].measurement != calls[1].measurement
    requires TagsOf(calls[1].tags) != {}
    ensures !NothingHidden(calls)
  {
    hide Call.Key, TagsOf;
    assert Made(calls, 0);
  }

  // ---------- which keys are tags ----------

  /** A key is a tag exactly if some series was recorded under it. */
  ghost predicate KeyDomain(s: State) {
    forall m, key :: WhetherTag(s, m, key) <==> exists value :: Lookup(s, m, (key, value)) != {}
  }

  lemma RecordKeepsDomain(s: State, measurement: string, tag: (string, string), series: string)
    requires KeyDomain(s)
    ensures KeyDomain(Record(s, measurement, tag, series))
  {
    hide Record, Lookup, WhetherTag;
    var r := Record(s, measurement, tag, series);
    forall m, key
      ensures WhetherTag(r, m, key) <==> exists value :: Lookup(r, m, (key, value)) != {}
    {
      forall value
        ensures Lookup(r, m, (key, value)) ==
                Lookup(s, m, (key, value)) + if m == measurement && (key, value) == tag then {series} else {}
      {
        RecordLooks(s, measurement, tag, series, m, (key, value));
      }
      RecordLooks(s, measurement, tag, series, m, (key, ""));
      assert Lookup(r, measurement, (tag.0, tag.1)) != {} by {
        RecordLooks(s, measurement, tag, series, measurement, tag);
        assert (tag.0, tag.1) == tag;
      }
      if WhetherTag(s, m, key) {
        var value :| Lookup(s, m, (key, value)) != {};
        assert Lookup(r, m, (key, value)) != {};
      }
    }
  }

  lemma {:induction false} RecordAllKeepsDomain(s: State, measurement: string, ts: seq<string>, series: string)
    requires KeyDomain(s)
    ensures KeyDomain(RecordAll(s, measurement, ts, series))
  {
    hide Record, KeyDomain, SplitTag;
    if ts != [] {
      RecordAllKeepsDomain(s, measurement, ts[..|ts| - 1], series);
      var before := RecordAll(s, measurement, ts[..|ts| - 1], series);
      match SplitTag(ts[|ts| - 1])
      case Some(tag) => RecordKeepsDomain(before, measurement, tag, series);
      case None =>
    }
  }

  lemma {:induction false} TagKeysExact(calls: seq<Call>)
    ensures KeyDomain(Run(calls))
  {
    hide RecordAll, KeyDomain, Call.Key, WithSeries;
    if calls == [] {
      EmptyDomain();
    } else {
      var before, c := Run(calls[..|calls| - 1]), calls[|calls| - 1];
      TagKeysExact(calls[..|calls| - 1]);
      WithSeriesDomain(before, c);
      RecordAllKeepsDomain(WithSeries(before, c), c.measurement, Sort(c.tags), c.Key());
    }
  }

  lemma EmptyDomain()
    ensures KeyDomain(EMPTY)
  {
  }

  lemma WithSeriesLooks(s: State, c: Call, m: string, t: (string, string))
    ensures Lookup(WithSeries(s, c), m, t) == Lookup(s, m, t)
    ensures WhetherTag(WithSeries(s, c), m, t.0) <==> WhetherTag(s, m, t.0)
  {
  }

  lemma WithSeriesDomain(s: State, c: Call)
    requires KeyDomain(s)
    ensures KeyDomain(WithSeries(s, c))
  {
    hide Lookup, WhetherTag, WithSeries;
    forall m, key
      ensures WhetherTag(WithSeries(s, c), m, key) <==> exists value :: Lookup(WithSeries(s, c), m, (key, value)) != {}
    {
      forall value
        ensures Lookup(WithSeries(s, c), m, (key, value)) == Lookup(s, m, (key, value))
        ensures WhetherTag(WithSeries(s, c), m, key) <==> WhetherTag(s, m, key)
      {
        WithSeriesLooks(s, c, m, (key, value));
      }
      assert WhetherTag(WithSeries(s, c), m, key) <==> WhetherTag(s, m, key) by {
        WithSeriesLooks(s, c, m, (key, ""));
      }
      if value :| Lookup(s, m, (key, value)) != {} {
        assert Lookup(WithSeries(s, c), m, (key, value)) != {};
      }
    }
  }

  // ---------- the intersection ----------

  /** The loop of create_iterator_tree over the tags of a query. */
  function Intersect(s: State, m: string, tags: seq<(string, string)>): set<string> {
    if tags == [] then {}
    else if |tags| == 1 then Lookup(s, m, tags[0])
    else Intersect(s, m, tags[..|tags| - 1]) * Lookup(s, m, tags[|tags| - 1])
  }

  lemma {:induction false} IntersectMember(s: State, m: string, tags: seq<(string, string)>, series: string)
    ensures series in Intersect(s, m, tags) <==> tags != [] && forall t :: t in tags ==> series in Lookup(s, m, t)
  {
    hide Lookup;
    if |tags| > 1 {
      var n := |tags| - 1;
      IntersectMember(s, m, tags[..n], series);
      assert tags == tags[..n] + [tags[n]];
    }
  }

  /** Call i made the series with the given key in measurement m. */
  ghost predicate MadeIn(calls: seq<Call>, i: nat, series: string, m: string) {
    Made(calls, i) && calls[i].Key() == series && calls[i].measurement == m
  }

  /** The intersection over some tags are the series that carry them all; over no tags it is
      empty, not everything. */
  lemma IntersectIsMade(calls: seq<Call>, m: string, tags: seq<(string, string)>, series: string)
    ensures series in Intersect(Run(calls), m, tags) <==>
            tags != [] &&
            exists i: nat :: MadeIn(calls, i, series, m) && QueryRewrite.Carries(TagsOf(calls[i].tags), tags)
  {
    hide TagsOf, Call.Key, Lookup, Run;
    IntersectMember(Run(calls), m, tags, series);
    forall t | t in tags
      ensures series in Lookup(Run(calls), m, t) <==> exists i :: MadeWith(calls, i, series, m, t)
    {
      LookupIsMade(calls, series, m, t);
    }
    if series in Intersect(Run(calls), m, tags) {
      assert tags[0] in tags;
      var i: nat :| MadeWith(calls, i, series, m, tags[0]);
      forall t | t in tags
        ensures t in TagsOf(calls[i].tags)
      {
        var k: nat :| MadeWith(calls, k, series, m, t);
        assert k == i;
      }
      assert MadeIn(calls, i, series, m);
    }
    if i: nat :| MadeIn(calls, i, series, m) && QueryRewrite.Carries(TagsOf(calls[i].tags), tags) {
      forall t | t in tags
        ensures series in Lookup(Run(calls), m, t)
      {
        assert MadeWith(calls, i, series, m, t);
      }
    }
  }

  /** The keys of a measurement's tags, as the rewriting of a query asks for them. */
  function KeysOf(s: State, m: string): set<string> {
    if m in s.tagKeys then s.tagKeys[m] else {}
  }

  // ---------- the index object ----------

  /** Two states nobody can tell apart by asking. */
  ghost predicate SameFinds(a: State, b: State) {
    && a.chunks == b.chunks
    && (forall m, t :: Lookup(a, m, t) == Lookup(b, m, t))
    && (forall m, key :: WhetherTag(a, m, key) <==> WhetherTag(b, m, key))
  }

  /** Looking things up between the calls makes no difference. */
  lemma CreateSame(a: State, b: State, c: Call)
    requires SameFinds(a, b)
    ensures SameFinds(Create(a, c), Create(b, c))
  {
    hide Create, Lookup, WhetherTag, Call.Key;
    ChunksGrow(a, c);
    ChunksGrow(b, c);
    forall m, t
      ensures Lookup(Create(a, c), m, t) == Lookup(Create(b, c), m, t)
    {
      CreateLooks(a, c, m, t);
      CreateLooks(b, c, m, t);
    }
    forall m, key
      ensures WhetherTag(Create(a, c), m, key) <==> WhetherTag(Create(b, c), m, key)
    {
      CreateAsks(a, c, m, key);
      CreateAsks(b, c, m, key);
    }
  }

  lemma CreateAsks(s: State, c: Call, m: string, key: string)
    ensures WhetherTag(Create(s, c), m, key) <==>
            WhetherTag(s, m, key) ||
            (c.Key() !in s.chunks && m == c.measurement && exists t :: t in TagsOf(Sort(c.tags)) && t.0 == key)
  {
    hide RecordAll, TagsOf, Sort, Concat;
    if c.Key() !in s.chunks {
      RecordAllAsks(WithSeries(s, c), c.measurement, Sort(c.tags), c.Key(), m, key);
    }
  }

  lemma {:induction false} RecordAllAsks(s: State, measurement: string, ts: seq<string>, series: string,
                                         m: string, key: string)
    ensures WhetherTag(RecordAll(s, measurement, ts, series), m, key) <==>
            WhetherTag(s, m, key) || (m == measurement && exists t :: t in TagsOf(ts) && t.0 == key)
  {
    hide WhetherTag, Record, SplitTag;
    if ts != [] {
      RecordAllAsks(s, measurement, ts[..|ts| - 1], series, m, key);
      var before := RecordAll(s, measurement, ts[..|ts| - 1], series);
      match SplitTag(ts[|ts| - 1])
      case Some(tag) =>
        RecordLooks(before, measurement, tag, series, m, (key, ""));
        assert tag in TagsOf(ts);
      case None =>
    }
  }

  lemma {:induction false} ConcatAppend(ts: seq<string>, t: string)
    ensures Concat(ts + [t]) == Concat(ts) + t
  {
    if ts == [] {
      ConcatOne(t);
    } else {
      assert (ts + [t])[1..] == ts[1..] + [t];
      ConcatAppend(ts[1..], t);
    }
  }

  class Index {
    var chunks: set<string>
    var blocks: map<string, Block>
    var tagKeys: map<string, set<string>>

    ghost function Now(): State
      reads this
    {
      State(chunks, blocks, tagKeys)
    }

    constructor ()
      ensures Now() == EMPTY
    {
      chunks, blocks, tagKeys := {}, map[], map[];
    }

    method CreateIndex(measurement: string, tags: seq<string>) returns (sorted: seq<string>)
      modifies this
      ensures Now() == Create(old(Now()), Call(measurement, tags)) && sorted == Sort(tags)
    {
      hide Concat, Sort, Record, SplitTag;
      sorted := Sort(tags);
      var series := measurement;
      assert Concat([]) == "" by {
        ConcatEmpty();
      }
      for i := 0 to |sorted|
        invariant series == measurement + Concat(sorted[..i])
        invariant Now() == old(Now())
      {
        ConcatAppend(sorted[..i], sorted[i]);
        assert sorted[..i + 1] == sorted[..i] + [sorted[i]];
        series := series + sorted[i];
      }
      assert sorted[..|sorted|] == sorted;
      if series in chunks {
        return;
      }
      chunks := chunks + {series};
      if measurement !in blocks {
        blocks := blocks[measurement := map[]];
      }
      ghost var start := WithSeries(old(Now()), Call(measurement, tags));
      assert blocks == start.blocks;
      for i := 0 to |sorted|
        invariant Now() == RecordAll(start, measurement, sorted[..i], series)
      {
        assert sorted[..i + 1][..i] == sorted[..i];
        var split := SplitTag(sorted[i]);
        if split.Some? {
          RecordTag(measurement, split.value, series);
        }
      }
    }

    method RecordTag(measurement: string, tag: (string, string), series: string)
      modifies this
      ensures Now() == Record(old(Now()), measurement, tag, series)
    {
      var block := if measurement in blocks then blocks[measurement] else map[];
      var values := if tag.0 in block then block[tag.0] else map[];
      var found := if tag.1 in values then values[tag.1] else {};
      blocks := blocks[measurement := block[tag.0 := values[tag.1 := found + {series}]]];
      var keys := if measurement in tagKeys then tagKeys[measurement] else {};
      tagKeys := tagKeys[measurement := keys + {tag.0}];
    }

    /** The subscripts create what is missing on the way, which no other call can see. */
    method GetSeriesKeyByTag(measurement: string, tag: (string, string)) returns (found: set<string>)
      modifies this
      ensures found == Lookup(old(Now()), measurement, tag)
      ensures Now() == Looked(old(Now()), measurement, tag)
    {
      var block := if measurement in blocks then blocks[measurement] else map[];
      var values := if tag.0 in block then block[tag.0] else map[];
      found := if tag.1 in values then values[tag.1] else {};
      blocks := blocks[measurement := block[tag.0 := values[tag.1 := found]]];
    }
  }

  /** The state with what a lookup leaves behind. */
  function Looked(s: State, measurement: string, tag: (string, string)): State {
    var block := if measurement in s.blocks then s.blocks[measurement] else map[];
    var values := if tag.0 in block then block[tag.0] else map[];
    s.(blocks := s.blocks[measurement := block[tag.0 := values[tag.1 := Lookup(s, measurement, tag)]]])
  }

  lemma LookedSame(s: State, measurement: string, tag: (string, string))
    ensures SameFinds(Looked(s, measurement, tag), s)
  {
  }

  lemma ConcatEmpty()
    ensures Concat([]) == ""
  {
  }

  lemma SameIntersect(a: State, b: State, m: string, tags: seq<(string, string)>)
    requires SameFinds(a, b)
    ensures Intersect(a, m, tags) == Intersect(b, m, tags)
  {
    forall series
      ensures series in Intersect(a, m, tags) <==> series in Intersect(b, m, tags)
    {
      IntersectMember(a, m, tags, series);
      IntersectMember(b, m, tags, series);
    }
  }

  /** The first tag gives the set to start from, every other one cuts it down. */
  method IntersectTags(ix: Index, m: string, tags: seq<(string, string)>) returns (series: set<string>)
    modifies ix
    ensures series == Intersect(old(ix.Now()), m, tags)
    ensures SameFinds(ix.Now(), old(ix.Now()))
  {
    hide Lookup, WhetherTag;
    series := {};
    var first := true;
    for i := 0 to |tags|
      invariant first <==> i == 0
      invariant series == Intersect(old(ix.Now()), m, tags[..i])
      invariant SameFinds(ix.Now(), old(ix.Now()))
    {
      assert tags[..i + 1][..i] == tags[..i];
      LookedSame(ix.Now(), m, tags[i]);
      var current := ix.GetSeriesKeyByTag(m, tags[i]);
      if first {
        series := current;
        first := false;
      } else {
        series := series * current;
      }
    }
    assert tags[..|tags|] == tags;
  }

  // ---------- the index in use ----------

  datatype Use = Creating(call: Call) | Looking(measurement: string, tag: (string, string))

  function Used(uses: seq<Use>): State {
    if uses == [] then EMPTY
    else
      match uses[|uses| - 1]
      case Creating(call) => Create(Used(uses[..|uses| - 1]), call)
      case Looking(measurement, tag) => Looked(Used(uses[..|uses| - 1]), measurement, tag)
  }

  function CallsOf(uses: seq<Use>): seq<Call> {
    if uses == [] then []
    else CallsOf(uses[..|uses| - 1]) + if uses[|uses| - 1].Creating? then [uses[|uses| - 1].call] else []
  }

  /** However calls and lookups alternate, the index answers as if there had been no lookups. */
  lemma {:induction false} UsesSame(uses: seq<Use>)
    ensures SameFinds(Used(uses), Run(CallsOf(uses)))
  {
    hide SameFinds, Create, Looked;
    if uses == [] {
      SameAsItself(EMPTY);
    } else {
      var before := uses[..|uses| - 1];
      UsesSame(before);
      match uses[|uses| - 1]
      case Creating(call) =>
        CreateSame(Used(before), Run(CallsOf(before)), call);
        assert (CallsOf(before) + [call])[..|CallsOf(before)|] == CallsOf(before);
      case Looking(measurement, tag) =>
        LookedSame(Used(before), measurement, tag);
        SameTwice(Used(uses), Used(before), Run(CallsOf(before)));
        assert CallsOf(uses) == CallsOf(before);
    }
  }

  lemma SameAsItself(s: State)
    ensures SameFinds(s, s)
  {
  }

  lemma SameTwice(a: State, b: State, c: State)
    requires SameFinds(a, b) && SameFinds(b, c)
    ensures SameFinds(a, c)
  {
  }

  /** The whole query: with some tag and all tags under `and` only, and day tests for the rest, a
      row of the day is found for a series exactly if the tree says so of the row and the tags the
      series was created with, whatever calls and lookups went before. */
  lemma QueryFinds(uses: seq<Use>, m: string, env: QueryRewrite.Env, n: QueryRewrite.Node,
                   day: QueryRewrite.Day, row: QueryRewrite.Row, i: nat)
    requires var calls := CallsOf(uses); i < |calls| && MadeIn(calls, i, calls[i].Key(), m)
    requires QueryRewrite.Where(n) && QueryRewrite.Guarded(n)
    requires var keys := KeysOf(Used(uses), m); var rest := QueryRewrite.Rebuild(keys, n).0;
             && QueryRewrite.TimesComparable(keys, n) && QueryRewrite.TagsAgree(keys, n)
             && (rest.Node? ==> QueryRewrite.Where(rest) && QueryRewrite.DayTests(env, day, rest))
             && QueryRewrite.Rebuild(keys, n).1 != []
    requires day.start <= row.seconds <= day.end
    ensures var calls, keys := CallsOf(uses), KeysOf(Used(uses), m);
            var (rest, tags) := QueryRewrite.Rebuild(keys, n);
            && (rest.Nil? || QueryRewrite.Where(rest))
            && (calls[i].Key() in Intersect(Used(uses), m, tags)
                && QueryRewrite.EvaluateCondition(env, day, rest)
                && QueryRewrite.EvaluateRow(env, rest, row) == Option.Some(true)
                <==> QueryRewrite.Meaning(env, keys, TagsOf(calls[i].tags), n, row))
  {
    hide TagsOf, Call.Key, Run, Used, CallsOf, KeysOf, Intersect, SameFinds;
    hide QueryRewrite.Rebuild, QueryRewrite.EvaluateRow, QueryRewrite.EvaluateCondition, QueryRewrite.Meaning;
    hide QueryRewrite.Where, QueryRewrite.Guarded, QueryRewrite.TimesComparable, QueryRewrite.TagsAgree;
    hide QueryRewrite.DayTests;
    var calls, keys := CallsOf(uses), KeysOf(Used(uses), m);
    var tags := QueryRewrite.Rebuild(keys, n).1;
    UsesSame(uses);
    SameIntersect(Used(uses), Run(calls), m, tags);
    QueryRewrite.RebuildWhere(keys, n);
    QueryRewrite.QueryExact(env, keys, TagsOf(calls[i].tags), n, day, row);
    IntersectIsMade(calls, m, tags, calls[i].Key());
    forall k: nat | MadeIn(calls, k, calls[i].Key(), m)
      ensures k == i
    {
    }
  }
}
