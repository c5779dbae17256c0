/** The column codecs of engine/tsm/tsm.cpp: timestamps are stored as differences of eight
    bytes each, values as length-prefixed strings.  A C++ list and a C++ vector are both a
    seq here, so the list decoders and the vector decoders are the same functions. */
module Columns {
  import opened Bytes

  datatype Decoded<+T> = Ok(value: T) | Corrupt

  // ---------- differences ----------

  predicate InI64(v: int) {
    -0x8000_0000_0000_0000 <= v < 0x8000_0000_0000_0000
  }

  /** The first timestamp, then each timestamp minus its predecessor. */
  function Differences(ts: seq<int>): (ds: seq<int>)
    ensures |ds| == |ts|
  {
    if ts == [] then []
    else if |ts| == 1 then [ts[0]]
    else Differences(ts[..|ts| - 1]) + [ts[|ts| - 1] - ts[|ts| - 2]]
  }

  /** Running sums of the differences. */
  function Restore(ds: seq<int>): (ts: seq<int>)
    ensures |ts| == |ds|
  {
    if ds == [] then []
    else
      var before := Restore(ds[..|ds| - 1]);
      before + [if before == [] then ds[|ds| - 1] else before[|before| - 1] + ds[|ds| - 1]]
  }

  lemma {:induction false} RestoreDifferences(ts: seq<int>)
    ensures Restore(Differences(ts)) == ts
  {
    if ts != [] {
      var init := ts[..|ts| - 1];
      var ds := Differences(ts);
      RestoreDifferences(init);
      assert ds[..|ts| - 1] == Differences(init);
      assert ds[|ts| - 1] == if |ts| > 1 then ts[|ts| - 1] - ts[|ts| - 2] else ts[0];
      assert init + [ts[|ts| - 1]] == ts;
    }
  }

  lemma {:induction false} DifferencesRestore(ds: seq<int>)
    ensures Differences(Restore(ds)) == ds
  {
    if ds != [] {
      var init, ts := ds[..|ds| - 1], Restore(ds);
      assert ts[..|ts| - 1] == Restore(init);
      DifferencesRestore(init);
      assert init + [ds[|ds| - 1]] == ds;
    }
  }

  lemma {:induction false} DifferenceAt(ts: seq<int>, k: nat)
    requires k < |ts|
    ensures Differences(ts)[k] == if k == 0 then ts[0] else ts[k] - ts[k - 1]
  {
    if |ts| > 1 && k < |ts| - 1 {
      DifferenceAt(ts[..|ts| - 1], k);
    }
  }

  /** The subtraction of neighbours stays inside the 64-bit nanosecond count. */
  ghost predicate NoOverflow(ts: seq<int>) {
    forall k :: 0 < k < |ts| ==> InI64(ts[k] - ts[k - 1])
  }

  lemma NonNegativeNeverOverflows(ts: seq<int64>)
    requires forall k :: 0 <= k < |ts| ==> ts[k] >= 0
    ensures NoOverflow(ts)
    ensures forall k :: 0 <= k < |ts| ==> InI64(Differences(ts)[k])
  {
    forall k | 0 <= k < |ts|
      ensures InI64(Differences(ts)[k])
    {
      DifferenceAt(ts, k);
    }
  }

  method CalculateDifferences(ts: seq<int64>) returns (ds: seq<int64>)
    requires NoOverflow(ts)
    ensures ds == Differences(ts)
  {
    ds := [];
    if |ts| > 0 {
      ds := [ts[0]];
      var previous := ts[0];
      var i := 1;
      while i < |ts|
        invariant 1 <= i <= |ts|
        invariant previous == ts[i - 1]
        invariant ds == Differences(ts[..i])
      {
        assert ts[..i + 1][..i] == ts[..i];
        var diff: int64 := (ts[i] as int) - previous;
        ds := ds + [diff];
        previous := ts[i];
        i := i + 1;
      }
      assert ts[..i] == ts;
    }
  }

  method RestoreTimestamps(ds: seq<int64>) returns (ts: seq<int64>)
    requires forall k :: 0 <= k < |ds| ==> InI64(Restore(ds)[k])
    ensures ts == Restore(ds)
  {
    hide Restore;
    ts := [];
    RestoreNothing();
    if |ds| > 0 {
      var previous := ds[0];
      ts := [previous];
      RestoreSnoc(ds, 0);
      var i := 1;
      while i < |ds|
        invariant 1 <= i <= |ds|
        invariant ts == Restore(ds[..i])
        invariant previous == ts[i - 1]
      {
        RestoreSnoc(ds, i);
        RestorePrefix(ds, i + 1);
        assert Restore(ds[..i + 1])[i] == Restore(ds)[i];
        previous := previous + ds[i];
        ts := ts + [previous];
        i := i + 1;
      }
      assert ds[..i] == ds;
    }
  }

  lemma RestoreNothing()
    ensures Restore([]) == []
  {
  }

  /** One more difference is one more sum. */
  lemma RestoreSnoc(ds: seq<int>, i: nat)
    requires i < |ds|
    ensures Restore(ds[..i + 1]) ==
            Restore(ds[..i]) + [if i == 0 then ds[0] else Restore(ds[..i])[i - 1] + ds[i]]
  {
    assert ds[..i + 1][..i] == ds[..i];
  }

  lemma {:induction false} RestorePrefix(ds: seq<int>, n: nat)
    requires n <= |ds|
    ensures Restore(ds[..n]) == Restore(ds)[..n]
  {
    if n < |ds| {
      RestorePrefix(ds[..|ds| - 1], n);
      assert ds[..|ds| - 1][..n] == ds[..n];
    } else {
      assert ds[..n] == ds;
    }
  }

  // ---------- eight bytes a difference ----------

  function EncodeDifferences(ds: seq<int64>): (s: Bytes)
    ensures |s| == 8 * |ds|
  {
    if ds == [] then [] else I64(ds[0]) + EncodeDifferences(ds[1..])
  }

  function DecodeDifferences(s: Bytes): Decoded<seq<int64>>
  {
    if s == [] then Ok([])
    else if |s| < 8 then Corrupt
    else
      match DecodeDifferences(s[8..])
      case Corrupt => Corrupt
      case Ok(rest) => Ok([GetI64(s[..8])] + rest)
  }

  lemma {:induction false} DifferencesRoundTrip(ds: seq<int64>)
    ensures DecodeDifferences(EncodeDifferences(ds)) == Ok(ds)
  {
    if ds != [] {
      var s := EncodeDifferences(ds);
      assert s[..8] == I64(ds[0]) && s[8..] == EncodeDifferences(ds[1..]);
      I64RoundTrip(ds[0]);
      DifferencesRoundTrip(ds[1..]);
      assert [ds[0]] + ds[1..] == ds;
    }
  }

  /** Word k is difference k. */
  lemma {:induction false} DifferenceStands(ds: seq<int64>, k: nat)
    requires k < |ds|
    ensures Slice(EncodeDifferences(ds), 8 * k, 8) == I64(ds[k])
  {
    hide I64;
    var s := EncodeDifferences(ds);
    if k > 0 {
      DifferenceStands(ds[1..], k - 1);
      assert s[8..] == EncodeDifferences(ds[1..]);
      assert s[8 * k..8 * k + 8] == s[8..][8 * (k - 1)..8 * (k - 1) + 8];
    }
  }

  /** Decoding gives only what encodes to the bytes again. */
  lemma {:induction false} DecodedAgain(s: Bytes)
    ensures DecodeDifferences(s).Ok? ==> EncodeDifferences(DecodeDifferences(s).value) == s
  {
    hide I64, GetI64;
    if |s| >= 8 && DecodeDifferences(s).Ok? {
      DecodedAgain(s[8..]);
      I64OfGet(s[..8]);
      var ds := DecodeDifferences(s).value;
      assert ds[1..] == DecodeDifferences(s[8..]).value;
      assert s == s[..8] + s[8..];
    }
  }

  /** Decoding succeeds exactly on whole eight-byte words, one number a word. */
  lemma {:induction false} DecodesWholeWords(s: Bytes)
    ensures DecodeDifferences(s).Ok? <==> |s| % 8 == 0
    ensures DecodeDifferences(s).Ok? ==> 8 * |DecodeDifferences(s).value| == |s|
  {
    if |s| >= 8 {
      DecodesWholeWords(s[8..]);
    }
  }

  method SerializeDifferences(ds: seq<int64>) returns (s: Bytes)
    ensures s == EncodeDifferences(ds)
  {
    s := [];
    for i := 0 to |ds|
      invariant s == EncodeDifferences(ds[..i])
    {
      EncodeDifferencesSnoc(ds[..i], ds[i]);
      assert ds[..i] + [ds[i]] == ds[..i + 1];
      s := s + I64(ds[i]);
    }
    assert ds[..|ds|] == ds;
  }

  lemma {:induction false} EncodeDifferencesSnoc(ds: seq<int64>, d: int64)
    ensures EncodeDifferences(ds + [d]) == EncodeDifferences(ds) + I64(d)
  {
    if ds == [] {
      assert EncodeDifferences([d]) == I64(d) + EncodeDifferences([]);
    } else {
      assert (ds + [d])[1..] == ds[1..] + [d];
      EncodeDifferencesSnoc(ds[1..], d);
    }
  }

  method DeserializeDifferences(s: Bytes) returns (r: Decoded<seq<int64>>)
    ensures r == DecodeDifferences(s)
  {
    var ds: seq<int64> := [];
    var i := 0;
    assert s[0..] == s;
    assert forall rest: seq<int64> :: ds + rest == rest;
    while i < |s|
      invariant 0 <= i <= |s|
      invariant DecodeDifferences(s) ==
                match DecodeDifferences(s[i..]) case Corrupt => Corrupt case Ok(rest) => Ok(ds + rest)
    {
      if i + 8 > |s| {
        return Corrupt;
      }
      assert s[i..][8..] == s[i + 8..];
      assert forall rest: seq<int64> :: ds + ([GetI64(s[i..][..8])] + rest) == (ds + [GetI64(s[i..][..8])]) + rest;
      assert s[i..][..8] == s[i..i + 8];
      ds := ds + [GetI64(s[i..i + 8])];
      i := i + 8;
    }
    assert ds + [] == ds;
    return Ok(ds);
  }

  // ---------- length-prefixed strings ----------

  function EncodeStrings(vs: seq<Bytes>): Bytes
  {
    if vs == [] then [] else I32(Trunc32(|vs[0]|)) + vs[0] + EncodeStrings(vs[1..])
  }

  /** A negative length, which only foreign bytes can hold, counts as corrupt. */
  function DecodeStrings(s: Bytes): Decoded<seq<Bytes>>
  {
    if s == [] then Ok([])
    else if |s| < 4 then Corrupt
    else
      var n := GetI32(s[..4]);
      if n < 0 || 4 + n > |s| then Corrupt
      else
        match DecodeStrings(s[4 + n..])
        case Corrupt => Corrupt
        case Ok(rest) => Ok([s[4..4 + n]] + rest)
  }

  predicate ShortStrings(vs: seq<Bytes>) {
    forall k :: 0 <= k < |vs| ==> |vs[k]| < 0x8000_0000
  }

  lemma {:induction false} StringsRoundTrip(vs: seq<Bytes>)
    requires ShortStrings(vs)
    ensures DecodeStrings(EncodeStrings(vs)) == Ok(vs)
  {
    hide I32, GetI32, Trunc32;
    if vs != [] {
      FirstString(vs);
      I32RoundTrip(|vs[0]|);
      StringsRoundTrip(vs[1..]);
      assert [vs[0]] + vs[1..] == vs;
    }
  }

  /** Bytes decode to strings exactly if they are the encoding of strings short enough. */
  lemma {:induction false} StringsExactly(s: Bytes, vs: seq<Bytes>)
    ensures DecodeStrings(s) == Ok(vs) <==> ShortStrings(vs) && EncodeStrings(vs) == s
  {
    hide I32, GetI32, Trunc32;
    if ShortStrings(vs) && EncodeStrings(vs) == s {
      StringsRoundTrip(vs);
    }
    if DecodeStrings(s) == Ok(vs) {
      StringsAgain(s);
    }
  }

  lemma {:induction false} StringsAgain(s: Bytes)
    requires DecodeStrings(s).Ok?
    ensures ShortStrings(DecodeStrings(s).value) && EncodeStrings(DecodeStrings(s).value) == s
  {
    hide I32, GetI32, Trunc32;
    if s != [] {
      var n := GetI32(s[..4]);
      var v, rest := s[4..4 + n], s[4 + n..];
      StringsAgain(rest);
      I32OfGet(s[..4]);
      Trunc32Small(n);
      var vs := DecodeStrings(s).value;
      assert vs == [v] + DecodeStrings(rest).value;
      assert vs[1..] == DecodeStrings(rest).value;
      assert s == s[..4] + v + rest;
    }
  }

  lemma Trunc32Small(n: int32)
    ensures Trunc32(n) == n
  {
  }

  lemma FirstString(vs: seq<Bytes>)
    requires vs != [] && |vs[0]| < 0x8000_0000
    ensures var s, n := EncodeStrings(vs), |vs[0]|;
            && |s| >= 4 + n && s[..4] == I32(n)
            && s[4..4 + n] == vs[0] && s[4 + n..] == EncodeStrings(vs[1..])
  {
    hide I32;
  }

  method SerializeStrings(vs: seq<Bytes>) returns (s: Bytes)
    ensures s == EncodeStrings(vs)
  {
    s := [];
    for i := 0 to |vs|
      invariant s == EncodeStrings(vs[..i])
    {
      EncodeStringsSnoc(vs[..i], vs[i]);
      assert vs[..i] + [vs[i]] == vs[..i + 1];
      s := s + I32(Trunc32(|vs[i]|));
      s := s + vs[i];
    }
    assert vs[..|vs|] == vs;
  }

  lemma {:induction false} EncodeStringsSnoc(vs: seq<Bytes>, v: Bytes)
    ensures EncodeStrings(vs + [v]) == EncodeStrings(vs) + I32(Trunc32(|v|)) + v
  {
    if vs == [] {
      assert EncodeStrings([v]) == I32(Trunc32(|v|)) + v + EncodeStrings([]);
    } else {
      assert (vs + [v])[1..] == vs[1..] + [v];
      EncodeStringsSnoc(vs[1..], v);
    }
  }

  method DeserializeStrings(s: Bytes) returns (r: Decoded<seq<Bytes>>)
    ensures r == DecodeStrings(s)
  {
    var vs: seq<Bytes> := [];
    var i := 0;
    assert s[0..] == s;
    assert forall rest: seq<Bytes> :: vs + rest == rest;
    while i < |s|
      invariant 0 <= i <= |s|
      invariant DecodeStrings(s) ==
                match DecodeStrings(s[i..]) case Corrupt => Corrupt case Ok(rest) => Ok(vs + rest)
    {
      if i + 4 > |s| {
        return Corrupt;
      }
      assert s[i..][..4] == s[i..i + 4];
      var n := GetI32(s[i..i + 4]);
      if n < 0 || i + 4 + n > |s| {
        return Corrupt;
      }
      assert s[i..][4..4 + n] == s[i + 4..i + 4 + n];
      assert s[i..][4 + n..] == s[i + 4 + n..];
      var v := s[i + 4..i + 4 + n];
      assert forall rest: seq<Bytes> :: vs + ([v] + rest) == (vs + [v]) + rest;
      vs := vs + [v];
      i := i + 4 + n;
    }
    assert vs + [] == vs;
    return Ok(vs);
  }
}
