/** Characters, runs of digits and decimal numbers, shared by the SQL lexer and the JSON parser. */
module Chars {

  predicate IsSpace(c: char) {
    c == ' ' || c == '\t' || c == '\n' || c == '\r'
  }

  predicate IsDigit(c: char) {
    '0' <= c <= '9'
  }

  /** A string reads as the zero character behind its end. */
  function CharAt(s: string, i: nat): char {
    if i < |s| then s[i] else '\0'
  }

  function SkipSpace(s: string, i: nat): (j: nat)
    ensures j >= i && !IsSpace(CharAt(s, j))
    decreases |s| - i
  {
    if i < |s| && IsSpace(s[i]) then SkipSpace(s, i + 1) else i
  }

  /** Blanks, tabs and line ends are passed over, and nothing else. */
  lemma {:induction false} SpacesSkipped(s: string, i: nat)
    ensures var j := SkipSpace(s, i);
            && (j == i || j <= |s|)
            && (forall k :: i <= k < j && k < |s| ==> s[k] in {' ', '\t', '\n', '\r'})
            && (j < |s| ==> s[j] !in {' ', '\t', '\n', '\r'})
    decreases |s| - i
  {
    if i < |s| && IsSpace(s[i]) {
      SpacesSkipped(s, i + 1);
    }
  }

  function DigitsEnd(s: string, i: nat): (j: nat)
    ensures i <= j && (i <= |s| ==> j <= |s|) && !IsDigit(CharAt(s, j))
    decreases |s| - i
  {
    if i < |s| && IsDigit(s[i]) then DigitsEnd(s, i + 1) else i
  }

  function DigitValue(c: char): nat {
    if '0' <= c <= '9' then c as int - '0' as int else 0
  }

  function Decimal(s: string): nat {
    if s == "" then 0 else 10 * Decimal(s[..|s| - 1]) + DigitValue(s[|s| - 1])
  }

  function DecimalText(n: nat): (s: string)
    ensures |s| > 0 && forall k :: 0 <= k < |s| ==> IsDigit(s[k])
  {
    var last := ['0' + (n % 10) as char];
    if n < 10 then last else DecimalText(n / 10) + last
  }

  lemma {:induction false} DecimalRoundTrip(n: nat)
    ensures Decimal(DecimalText(n)) == n
  {
    var s := DecimalText(n);
    if n >= 10 {
      DecimalRoundTrip(n / 10);
      assert s[..|s| - 1] == DecimalText(n / 10);
    } else {
      assert s[..0] == "";
    }
  }

  lemma {:induction false} DigitsRun(s: string, i: nat, e: nat)
    requires i <= e <= |s| && (forall k :: i <= k < e ==> IsDigit(s[k])) && !IsDigit(CharAt(s, e))
    ensures DigitsEnd(s, i) == e
    decreases e - i
  {
    if i < e {
      DigitsRun(s, i + 1, e);
    }
  }

  /** text stands in s from i on. */
  ghost predicate Stands(s: string, i: nat, text: string) {
    i + |text| <= |s| && s[i..i + |text|] == text
  }

  lemma StandsChars(s: string, i: nat, text: string)
    requires Stands(s, i, text)
    ensures forall k :: 0 <= k < |text| ==> text[k] == s[i + k]
  {
    forall k | 0 <= k < |text|
      ensures text[k] == s[i + k]
    {
      assert s[i..i + |text|][k] == s[i + k];
    }
  }

  lemma StandsSplit(s: string, i: nat, x: string, y: string)
    requires Stands(s, i, x + y)
    ensures Stands(s, i, x) && Stands(s, i + |x|, y)
  {
    assert s[i..i + |x|] == s[i..i + |x| + |y|][..|x|];
    assert s[i + |x|..i + |x| + |y|] == s[i..i + |x| + |y|][|x|..];
  }

  // ---------- the order of std::string ----------

  predicate Less(a: string, b: string) {
    b != "" && (a == "" || a[0] < b[0] || (a[0] == b[0] && Less(a[1..], b[1..])))
  }

  /** The order of a dictionary: at the first place where they differ a has the smaller character, or
      a ends there. */
  lemma {:induction false} LessExactly(a: string, b: string)
    ensures Less(a, b) <==> exists k: nat :: Splits(a, b, k)
  {
    if a == "" {
      assert b != "" ==> Splits(a, b, 0);
    } else if b != "" {
      LessExactly(a[1..], b[1..]);
      if k: nat :| Splits(a, b, k) {
        if k > 0 {
          assert a[0] == a[..k][0] && b[0] == b[..k][0];
          assert a[1..][..k - 1] == a[..k][1..] && b[1..][..k - 1] == b[..k][1..];
          assert Splits(a[1..], b[1..], k - 1);
        }
      }
      if a[0] < b[0] {
        assert Splits(a, b, 0);
      } else if a[0] == b[0] {
        if k: nat :| Splits(a[1..], b[1..], k) {
          assert a[..k + 1] == [a[0]] + a[1..][..k] && b[..k + 1] == [b[0]] + b[1..][..k];
          assert Splits(a, b, k + 1);
        }
      }
    }
  }

  /** a and b agree up to k, where a has a smaller character or none. */
  predicate Splits(a: string, b: string, k: nat) {
    k < |b| && k <= |a| && a[..k] == b[..k] && (k < |a| ==> a[k] < b[k])
  }

  lemma {:induction false} LessTotal(a: string, b: string)
    ensures a != b ==> Less(a, b) || Less(b, a)
    ensures !(Less(a, b) && Less(b, a)) && !Less(a, a)
  {
    if a != "" {
      LessTotal(a[1..], a[1..]);
    }
    if a != "" && b != "" {
      LessTotal(a[1..], b[1..]);
      assert a == [a[0]] + a[1..] && b == [b[0]] + b[1..];
    }
  }

  lemma {:induction false} LessTransitive(a: string, b: string, c: string)
    requires Less(a, b) && Less(b, c)
    ensures Less(a, c)
  {
    if a != "" && a[0] == b[0] == c[0] {
      LessTransitive(a[1..], b[1..], c[1..]);
    }
  }
}
