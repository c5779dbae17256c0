/** What no lossless compressor can do: shorten every text. Snappy is known to the model only
    through its inverse law, and that is enough to count its outputs. */
module Compression {
  import opened Bytes
  import Columns
  import TsmFile

  // ---------- counting ----------

  predicate Injective(codes: seq<nat>) {
    forall i, j :: 0 <= i < j < |codes| ==> codes[i] != codes[j]
  }

  lemma {:induction false} DistinctCount(codes: seq<nat>)
    requires Injective(codes)
    ensures |set i | 0 <= i < |codes| :: codes[i]| == |codes|
  {
    if codes != [] {
      var init := codes[..|codes| - 1];
      DistinctCount(init);
      assert (set i | 0 <= i < |codes| :: codes[i]) == (set i | 0 <= i < |init| :: init[i]) + {codes[|codes| - 1]};
    }
  }

  /** The numbers from 1 to n. */
  function UpTo(n: nat): (r: set<nat>)
    ensures |r| == n
    ensures forall x :: x in r <==> 0 < x <= n
  {
    if n == 0 then {} else UpTo(n - 1) + {n}
  }

  lemma DistinctFit(codes: seq<nat>, n: nat)
    requires Injective(codes) && forall i :: 0 <= i < |codes| ==> 0 < codes[i] <= n
    ensures |codes| <= n
  {
    var image, range := (set i | 0 <= i < |codes| :: codes[i]), UpTo(n);
    DistinctCount(codes);
    assert range == image + (range - image);
  }

  /** More codes than numbers to choose from: one of them is out of range. */
  lemma Pigeonhole(codes: seq<nat>) returns (k: nat)
    requires Injective(codes) && codes != []
    ensures k < |codes| && !(0 < codes[k] < |codes|)
  {
    if forall i :: 0 <= i < |codes| ==> 0 < codes[i] < |codes| {
      DistinctFit(codes, |codes| - 1);
      assert false;
    }
    k :| 0 <= k < |codes| && !(0 < codes[k] < |codes|);
  }

  // ---------- byte strings as numbers ----------

  /** A byte string of any length as a number of its own. */
  function Code(s: Bytes): nat {
    UnLE(s + [1])
  }

  lemma {:induction false} CodeBounds(s: Bytes)
    ensures 0 < Code(s) < Pow256(|s| + 1)
  {
    UnLEBound(s + [1]);
    if s != [] {
      CodeBounds(s[1..]);
      assert (s + [1])[1..] == s[1..] + [1];
    }
  }

  /** Strings of different lengths have different codes too, as the last byte is not zero. */
  lemma {:induction false} CodeInjective(s: Bytes, t: Bytes)
    requires Code(s) == Code(t)
    ensures s == t
  {
    if s != [] && t != [] {
      CodeStep(s);
      CodeStep(t);
      CodeInjective(s[1..], t[1..]);
      assert s == [s[0]] + s[1..] && t == [t[0]] + t[1..];
    } else if s != [] {
      CodeStep(s);
      CodeBounds(s[1..]);
      assert false;
    } else if t != [] {
      CodeStep(t);
      CodeBounds(t[1..]);
      assert false;
    }
  }

  lemma CodeStep(s: Bytes)
    requires s != []
    ensures Code(s) == s[0] + 256 * Code(s[1..])
    ensures Code([]) == 1
  {
    assert (s + [1])[1..] == s[1..] + [1];
    assert [] + [1] == [1];
    assert UnLE([1]) == 1 + 256 * UnLE([]);
  }

  lemma {:induction false} Pow256Grows(m: nat, n: nat)
    requires m <= n
    ensures Pow256(m) <= Pow256(n)
  {
    if m < n {
      Pow256Grows(m, n - 1);
    }
  }

  // ---------- no compressor shortens every value ----------

  function Packed(env: TsmFile.Env, v: Bytes): Bytes {
    env.compress(Columns.EncodeStrings([v]))
  }

  lemma PackedInjective(env: TsmFile.Env, v: Bytes, w: Bytes)
    requires env.Valid() && |v| < 0x8000_0000 && |w| < 0x8000_0000 && Packed(env, v) == Packed(env, w)
    ensures v == w
  {
    hide Columns.EncodeStrings, Columns.DecodeStrings;
    Columns.StringsRoundTrip([v]);
    Columns.StringsRoundTrip([w]);
    assert env.uncompress(Packed(env, v)) == env.uncompress(Packed(env, w));
    assert [v][0] == [w][0];
  }

  /** Whatever compressor with an inverse is used, of the values of any one length there is one
      whose column comes out no shorter than the value. */
  lemma SomeValueStays(env: TsmFile.Env, n: nat) returns (v: Bytes)
    requires env.Valid() && n < 0x8000_0000
    ensures |v| == n && |Packed(env, v)| >= n
  {
    hide Packed, Code, LE, UnLE, Pow256;
    var codes := seq(Pow256(n), k requires 0 <= k < Pow256(n) => Code(Packed(env, LE(k, n))));
    forall i, j | 0 <= i < j < |codes|
      ensures codes[i] != codes[j]
    {
      if codes[i] == codes[j] {
        CodeInjective(Packed(env, LE(i, n)), Packed(env, LE(j, n)));
        PackedInjective(env, LE(i, n), LE(j, n));
        LERoundTrip(i, n);
        LERoundTrip(j, n);
        assert false;
      }
    }
    var k := Pigeonhole(codes);
    v := LE(k, n);
    CodeBounds(Packed(env, v));
    if |Packed(env, v)| < n {
      Pow256Grows(|Packed(env, v)| + 1, n);
      assert false;
    }
  }
}
