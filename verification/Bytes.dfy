/** Bytes, fixed-width little-endian integers, and files as byte sequences that are
    overwritten in place.  This is the ground the storage and wire modules share. */
module Bytes {

  type byte = x: int | 0 <= x < 256
  type Bytes = seq<byte>

  type int32 = x: int | -0x8000_0000 <= x < 0x8000_0000
  type int64 = x: int | -0x8000_0000_0000_0000 <= x < 0x8000_0000_0000_0000

  datatype Option<+T> = None | Some(value: T)

  // ---------- little-endian integers ----------

  function Pow256(n: nat): (p: int)
    ensures p > 0
  {
    if n == 0 then 1 else 256 * Pow256(n - 1)
  }

  /** The n low-order bytes of v, least significant first. */
  function LE(v: nat, n: nat): (s: Bytes)
    ensures |s| == n
  {
    if n == 0 then [] else [v % 256] + LE(v / 256, n - 1)
  }

  function UnLE(s: Bytes): (v: nat)
  {
    if s == [] then 0 else s[0] + 256 * UnLE(s[1..])
  }

  lemma {:induction false} LERoundTrip(v: nat, n: nat)
    requires v < Pow256(n)
    ensures UnLE(LE(v, n)) == v
  {
    if n > 0 {
      LERoundTrip(v / 256, n - 1);
      assert LE(v, n)[1..] == LE(v / 256, n - 1);
    }
  }

  lemma {:induction false} UnLEBound(s: Bytes)
    ensures UnLE(s) < Pow256(|s|)
  {
    if s != [] {
      UnLEBound(s[1..]);
    }
  }

  /** Different byte strings of one width are different numbers. */
  lemma {:induction false} LEOfUnLE(s: Bytes)
    ensures LE(UnLE(s), |s|) == s
  {
    if s != [] {
      LEOfUnLE(s[1..]);
      assert UnLE(s) / 256 == UnLE(s[1..]);
    }
  }

  lemma Pow256Values()
    ensures Pow256(2) == 0x1_0000
    ensures Pow256(4) == 0x1_0000_0000
    ensures Pow256(8) == 0x1_0000_0000_0000_0000
  {
    assert Pow256(1) == 256;
    assert Pow256(3) == 256 * Pow256(2);
    assert Pow256(5) == 256 * Pow256(4);
    assert Pow256(6) == 256 * Pow256(5);
    assert Pow256(7) == 256 * Pow256(6);
  }

  /** Unsigned 16-bit store: `static_cast<uint16_t>` keeps the value modulo 2^16. */
  function U16(v: nat): (s: Bytes)
    ensures |s| == 2
  {
    LE(v % 0x1_0000, 2)
  }

  /** Two's complement stores of the 32-bit and 64-bit signed types. */
  function I32(v: int32): (s: Bytes)
    ensures |s| == 4
  {
    LE(if v < 0 then v + 0x1_0000_0000 else v, 4)
  }

  function I64(v: int64): (s: Bytes)
    ensures |s| == 8
  {
    LE(if v < 0 then v + 0x1_0000_0000_0000_0000 else v, 8)
  }

  function GetU16(s: Bytes): (v: nat)
    requires |s| == 2
    ensures v < 0x1_0000
  {
    Pow256Values();
    UnLEBound(s);
    UnLE(s)
  }

  function GetI32(s: Bytes): int32
    requires |s| == 4
  {
    Pow256Values();
    UnLEBound(s);
    var v := UnLE(s);
    if v >= 0x8000_0000 then v - 0x1_0000_0000 else v
  }

  function GetI64(s: Bytes): int64
    requires |s| == 8
  {
    Pow256Values();
    UnLEBound(s);
    var v := UnLE(s);
    if v >= 0x8000_0000_0000_0000 then v - 0x1_0000_0000_0000_0000 else v
  }

  lemma U16RoundTrip(v: nat)
    ensures GetU16(U16(v)) == v % 0x1_0000
  {
    Pow256Values();
    LERoundTrip(v % 0x1_0000, 2);
  }

  /** A 32-bit number is stored low byte first, a negative one as its two's complement. */
  lemma I32Bytes(v: int32)
    ensures var u := if v < 0 then v + 0x1_0000_0000 else v;
            I32(v) == [u % 256, u / 0x100 % 256, u / 0x1_0000 % 256, u / 0x100_0000 % 256]
  {
    LowBytes(if v < 0 then v + 0x1_0000_0000 else v);
  }

  lemma LEStep(v: nat, n: nat)
    ensures LE(v, 0) == []
    ensures n > 0 ==> LE(v, n) == [v % 256] + LE(v / 256, n - 1)
  {
  }

  lemma Quotients(u: nat)
    ensures u / 256 / 256 == u / 0x1_0000 && u / 256 / 256 / 256 == u / 0x100_0000
    ensures u / 256 / 256 / 256 / 256 == u / 0x1_0000_0000
  {
  }

  lemma LowBytes(u: nat)
    ensures LE(u, 4) == [u % 256, u / 0x100 % 256, u / 0x1_0000 % 256, u / 0x100_0000 % 256]
  {
    hide LE;
    Quotients(u);
    var a := u / 256;
    var b := a / 256;
    var c := b / 256;
    LEStep(u, 4);
    LEStep(a, 3);
    LEStep(b, 2);
    LEStep(c, 1);
    LEStep(c / 256, 0);
  }

  /** And so a 64-bit number: the low half, then the high half. */
  lemma I64Bytes(v: int64)
    ensures var u := if v < 0 then v + 0x1_0000_0000_0000_0000 else v;
            && I64(v)[..4] == [u % 256, u / 0x100 % 256, u / 0x1_0000 % 256, u / 0x100_0000 % 256]
            && var h := u / 0x1_0000_0000;
               I64(v)[4..] == [h % 256, h / 0x100 % 256, h / 0x1_0000 % 256, h / 0x100_0000 % 256]
  {
    hide LE;
    var u := if v < 0 then v + 0x1_0000_0000_0000_0000 else v;
    LowBytes(u);
    LowBytes(u / 0x1_0000_0000);
    Halves(u);
  }

  lemma ShiftFour(u: nat)
    ensures Shift(u, 4) == u / 0x1_0000_0000
  {
    var a := u / 256;
    var b := a / 256;
    var c := b / 256;
    Quotients(u);
    assert Shift(c, 1) == c / 256;
    assert Shift(b, 2) == Shift(c, 1);
    assert Shift(a, 3) == Shift(b, 2);
    assert Shift(u, 4) == Shift(a, 3);
  }

  lemma Halves(u: nat)
    ensures LE(u, 8) == LE(u, 4) + LE(u / 0x1_0000_0000, 4)
  {
    hide LE, Shift;
    ShiftFour(u);
    HalvesFrom(u, 4);
  }

  lemma {:induction false} HalvesFrom(u: nat, n: nat)
    requires n <= 4
    ensures LE(u, n + 4) == LE(u, n) + LE(Shift(u, n), 4)
  {
    hide LE;
    LEStep(u, n);
    LEStep(u, n + 4);
    if n > 0 {
      HalvesFrom(u / 256, n - 1);
    }
  }

  /** u without its n low bytes. */
  function Shift(u: nat, n: nat): nat {
    if n == 0 then u else Shift(u / 256, n - 1)
  }

  lemma I32RoundTrip(v: int32)
    ensures GetI32(I32(v)) == v
  {
    Pow256Values();
    LERoundTrip(if v < 0 then v + 0x1_0000_0000 else v, 4);
  }

  lemma I32OfGet(s: Bytes)
    requires |s| == 4
    ensures I32(GetI32(s)) == s
  {
    Pow256Values();
    UnLEBound(s);
    LEOfUnLE(s);
  }

  lemma I64OfGet(s: Bytes)
    requires |s| == 8
    ensures I64(GetI64(s)) == s
  {
    Pow256Values();
    UnLEBound(s);
    LEOfUnLE(s);
  }

  lemma I64RoundTrip(v: int64)
    ensures GetI64(I64(v)) == v
  {
    Pow256Values();
    LERoundTrip(if v < 0 then v + 0x1_0000_0000_0000_0000 else v, 8);
  }

  /** `int length = str.size()`: the low 32 bits read as a signed number. */
  function Trunc32(n: int): int32
  {
    var r := n % 0x1_0000_0000;
    if r >= 0x8000_0000 then r - 0x1_0000_0000 else r
  }

  /** A multiple of 2^32 away. */
  lemma Trunc32Wraps(n: int)
    ensures exists q: int :: n == Trunc32(n) + 0x1_0000_0000 * q
  {
    var q := n / 0x1_0000_0000;
    assert n == n % 0x1_0000_0000 + 0x1_0000_0000 * q;
    if Trunc32(n) < 0 {
      assert n == Trunc32(n) + 0x1_0000_0000 * (q + 1);
    }
  }

  // ---------- byte files ----------

  /** The n bytes of f from pos on: `seekg(pos)` followed by `read(n)`. */
  function Slice(f: Bytes, pos: int, n: int): (s: Bytes)
    requires 0 <= pos && 0 <= n && pos + n <= |f|
    ensures |s| == n
  {
    f[pos..pos + n]
  }

  /** Reading inside a prefix does not see what follows it. */
  lemma SliceOfPrefix(a: Bytes, b: Bytes, pos: int, n: int)
    requires 0 <= pos && 0 <= n && pos + n <= |a|
    ensures Slice(a + b, pos, n) == Slice(a, pos, n)
  {
  }

  /** d stands in f at position pos. */
  ghost predicate At(f: Bytes, pos: int, d: Bytes)
  {
    0 <= pos && pos + |d| <= |f| && Slice(f, pos, |d|) == d
  }

  function Zeros(n: nat): (s: Bytes)
    ensures |s| == n
  {
    seq(n, _ => 0)
  }

  /** `seekp(off)` followed by `write(d)`: bytes are replaced in place, a write past the
      end extends the file (a gap reads as zero), a seek before the start fails and
      leaves the file alone. */
  function Overwrite(f: Bytes, off: int, d: Bytes): (r: Bytes)
    ensures off < 0 || d == [] ==> r == f
    ensures off >= 0 && d != [] ==> |r| == (if |f| < off + |d| then off + |d| else |f|)
  {
    if off < 0 || d == [] then f else
    var base := if |f| < off then f + Zeros(off - |f|) else f;
    base[..off] + d + (if off + |d| < |base| then base[off + |d|..] else [])
  }

  /** Every byte of the file after a write: the new ones, the old ones, and zeros in a gap. */
  lemma OverwriteExactly(f: Bytes, off: nat, d: Bytes)
    requires d != []
    ensures var r := Overwrite(f, off, d);
            && |r| == (if |f| < off + |d| then off + |d| else |f|)
            && forall k :: 0 <= k < |r| ==>
                 r[k] == if off <= k < off + |d| then d[k - off] else if k < |f| then f[k] else 0
  {
    var base := if |f| < off then f + Zeros(off - |f|) else f;
    assert |base| >= off && forall k :: 0 <= k < |base| ==> base[k] == if k < |f| then f[k] else 0;
  }

  lemma OverwriteAt(f: Bytes, off: nat, d: Bytes)
    requires off <= |f|
    ensures At(Overwrite(f, off, d), off, d)
  {
  }

  /** A write leaves every byte outside its own range alone. */
  lemma OverwriteKeeps(f: Bytes, off: nat, d: Bytes, pos: int, x: Bytes)
    requires At(f, pos, x)
    requires pos + |x| <= off || off + |d| <= pos
    ensures At(Overwrite(f, off, d), pos, x)
  {
    var r := Overwrite(f, off, d);
    if d != [] {
      assert forall k :: 0 <= k < |f| && (k < off || off + |d| <= k) ==> r[k] == f[k];
      assert r[pos..pos + |x|] == f[pos..pos + |x|];
    }
  }

  /** Two consecutive writes are one write of the concatenation, even where they extend the
      file. */
  lemma OverwriteConcat(f: Bytes, off: nat, a: Bytes, b: Bytes)
    ensures Overwrite(Overwrite(f, off, a), off + |a|, b) == Overwrite(f, off, a + b)
  {
    if a == [] {
      assert a + b == b;
    } else if b == [] {
      assert a + b == a;
    } else {
      var base := if |f| < off then f + Zeros(off - |f|) else f;
      assert Overwrite(base, off, a) == Overwrite(f, off, a) && Overwrite(base, off, a + b) == Overwrite(f, off, a + b);
      OverwriteInside(base, off, a, b);
    }
  }

  lemma OverwriteInside(f: Bytes, off: nat, a: Bytes, b: Bytes)
    requires off <= |f| && a != [] && b != []
    ensures Overwrite(Overwrite(f, off, a), off + |a|, b) == Overwrite(f, off, a + b)
  {
    var once, end := Overwrite(f, off, a), off + |a| + |b|;
    assert once[..off + |a|] == f[..off] + a;
    assert end < |f| ==> once[end..] == f[end..];
  }

  lemma AtSplit(f: Bytes, pos: int, a: Bytes, b: Bytes)
    ensures At(f, pos, a + b) <==> At(f, pos, a) && At(f, pos + |a|, b)
  {
    if At(f, pos, a + b) {
      assert f[pos..pos + |a|] == (a + b)[..|a|] == a;
      assert f[pos + |a|..pos + |a| + |b|] == (a + b)[|a|..] == b;
    }
    if At(f, pos, a) && At(f, pos + |a|, b) {
      assert f[pos..pos + |a| + |b|] == f[pos..pos + |a|] + f[pos + |a|..pos + |a| + |b|];
    }
  }

  // ---------- C strings ----------

  /** `std::string(s)` of a C string, and c_str() read as one: everything before the first zero. */
  function CString<T(==)>(s: seq<T>, zero: T): (r: seq<T>)
    ensures zero !in r && |r| <= |s|
  {
    if s == [] || s[0] == zero then [] else [s[0]] + CString(s[1..], zero)
  }

  lemma CStringStep<T>(s: seq<T>, zero: T)
    ensures CString(s, zero) == if s == [] || s[0] == zero then [] else [s[0]] + CString(s[1..], zero)
  {
  }

  /** It is the part before the first zero. */
  lemma {:induction false} CStringCut<T>(s: seq<T>, zero: T)
    ensures var n := |CString(s, zero)|;
            CString(s, zero) == s[..n] && (n < |s| ==> s[n] == zero)
  {
    hide CString;
    CStringStep(s, zero);
    if s != [] && s[0] != zero {
      CStringCut(s[1..], zero);
      var n := |CString(s[1..], zero)|;
      assert s[..n + 1] == [s[0]] + s[1..][..n];
    }
  }

  lemma {:induction false} CStringWhole<T>(s: seq<T>, zero: T)
    ensures CString(s, zero) == s <==> zero !in s
  {
    if s != [] && s[0] != zero {
      CStringWhole(s[1..], zero);
      assert s == [s[0]] + s[1..];
      assert CString(s, zero)[1..] == CString(s[1..], zero);
    }
  }
}
