/** Printing a JSON value and parsing the text again. */
module JsonText {
  import opened Bytes
  import opened Chars
  import opened Json

  // ---------- strings ----------

  /** Scanning t as the inside of a string ends exactly behind t: no quote that is not escaped,
      no backslash without a character to escape, four characters behind every `\u`. */
  predicate ScanSafe(t: string) {
    t == "" ||
    (if t[0] == '"' then false
     else if t[0] == '\\' then |t| >= 2 && (if t[1] == 'u' then |t| >= 6 && ScanSafe(t[6..]) else ScanSafe(t[2..]))
     else ScanSafe(t[1..]))
  }

  /** What one step of the scan of a string does. */
  lemma ScanStep(s: string, start: nat, i: nat)
    requires start <= i < |s|
    ensures ParseString(s, start, i) ==
            if s[i] == '"' then Ok(s[start..i], i + 1)
            else if s[i] == '\\' then ParseString(s, start, if CharAt(s, i + 1) == 'u' then i + 6 else i + 2)
            else ParseString(s, start, i + 1)
  {
    hide NextToken, CharAt;
    TokenStep(s, i);
    if IsSpace(s[i]) {
      ScanSpace(s, start, i);
    }
  }

  lemma ScanSpace(s: string, start: nat, i: nat)
    requires start <= i < |s| && NextToken(s, i) == NextToken(s, i + 1)
    ensures ParseString(s, start, i) == ParseString(s, start, i + 1)
  {
    hide NextToken, CharAt;
  }

  lemma TokenStep(s: string, i: nat)
    requires i < |s|
    ensures NextToken(s, i) == if IsSpace(s[i]) then NextToken(s, i + 1) else Ok(s[i], i + 1)
  {
  }

  lemma TokenAt(s: string, i: nat)
    requires i < |s| && !IsSpace(s[i])
    ensures NextToken(s, i) == Ok(s[i], i + 1)
  {
  }

  /** A text, one character and more text. */
  lemma StandsAround(s: string, i: nat, text: string, c: char, rest: string)
    requires Stands(s, i, text + ([c] + rest))
    ensures Stands(s, i, text) && i + |text| < |s| && s[i + |text|] == c && Stands(s, i + |text| + 1, rest)
  {
    var e := i + |text|;
    StandsSplit(s, i, text, [c] + rest);
    StandsSplit(s, e, [c], rest);
    assert s[e] == s[e..e + 1][0];
  }

  /** The scan of t between quotes: it ends at the closing quote if and only if t is safe. */
  lemma {:induction false} StringScan(s: string, start: nat, i: nat, t: string)
    requires start <= i && Stands(s, i, t + "\"")
    ensures ParseString(s, start, i) == Ok(s[start..i + |t|], i + |t| + 1) <==> ScanSafe(t)
    decreases |t|
  {
    hide ParseString;
    ScanStep(s, start, i);
    StandsChars(s, i, t + "\"");
    assert forall k :: 0 <= k < |t| ==> (t + "\"")[k] == t[k];
    if t == "" {
      assert s[i] == (t + "\"")[0];
    } else if t[0] == '"' {
    } else if t[0] == '\\' && |t| == 1 {
      assert (t + "\"")[1] == s[i + 1] == '"';
      Ahead(s, start, i + 2);
    } else if t[0] == '\\' && t[1] == 'u' && |t| < 6 {
      Ahead(s, start, i + 6);
    } else {
      var n := if t[0] != '\\' then 1 else if t[1] == 'u' then 6 else 2;
      assert t + "\"" == t[..n] + (t[n..] + "\"");
      StandsSplit(s, i, t[..n], t[n..] + "\"");
      StringScan(s, start, i + n, t[n..]);
    }
  }

  /** The scan only goes forward. */
  lemma Ahead(s: string, start: nat, i: nat)
    requires start <= i
    ensures ParseString(s, start, i).Ok? ==> ParseString(s, start, i).next > i
  {
  }

  /** A text between quotes is read back, and nothing behind it, if and only if it is safe. */
  lemma StringRoundTrip(s: string, i: nat, t: string)
    requires Stands(s, i, t + "\"")
    ensures ParseString(s, i, i) == Ok(t, i + |t| + 1) <==> ScanSafe(t)
  {
    hide ParseString;
    StringScan(s, i, i, t);
    StandsSplit(s, i, t, "\"");
    Ahead(s, i, i);
  }

  /** Whatever parse_string returns is safe. */
  lemma {:induction false} ScannedIsSafe(s: string, start: nat, i: nat)
    requires start <= i && ParseString(s, start, i).Ok?
    ensures i < ParseString(s, start, i).next <= |s| && ScanSafe(s[i..ParseString(s, start, i).next - 1])
    decreases |s| - i
  {
    hide ParseString;
    Ahead(s, start, i);
    ScanBlank(s, start, i);
    var end := ParseString(s, start, i).next - 1;
    if i < |s| {
      ScanStep(s, start, i);
      if s[i] != '"' {
        var n := if s[i] != '\\' then 1 else if CharAt(s, i + 1) == 'u' then 6 else 2;
        ScannedIsSafe(s, start, i + n);
        assert s[i..end][n..] == s[i + n..end];
        assert s[i..end][0] == s[i];
        assert n > 1 ==> s[i..end][1] == s[i + 1];
      }
    }
  }

  /** At the end of the text the scan fails. */
  lemma ScanBlank(s: string, start: nat, i: nat)
    requires start <= i
    ensures i >= |s| ==> ParseString(s, start, i).Fail?
  {
  }

  // ---------- values ----------

  /** What append and operator[] can build: members in map order under keys without zero
      characters. */
  ghost predicate Built(v: Value) {
    match v
    case Arr(items) => forall k :: 0 <= k < |items| ==> Built(items[k])
    case Obj(ms) =>
      && Sorted(ms)
      && forall k :: 0 <= k < |ms| ==> '\0' !in ms[k].key && Built(ms[k].value)
    case _ => true
  }

  /** Every string and key in v is safe. */
  ghost predicate Safe(v: Value) {
    match v
    case Str(t) => ScanSafe(t)
    case Arr(items) => forall k :: 0 <= k < |items| ==> Safe(items[k])
    case Obj(ms) => forall k :: 0 <= k < |ms| ==> ScanSafe(ms[k].key) && Safe(ms[k].value)
    case _ => true
  }

  /** What may follow a value: nothing that would carry a number on. */
  predicate Ends(s: string, i: nat) {
    !IsDigit(CharAt(s, i)) && CharAt(s, i) != '.'
  }

  function Magnitude(n: int): nat {
    if n < 0 then -n else n
  }

  /** Where the digits of a number stand. */
  ghost predicate DigitsAt(s: string, j: nat, e: nat, m: nat) {
    && j < e <= |s| && s[j..e] == DecimalText(m)
    && (forall k :: j <= k < e ==> IsDigit(s[k])) && !IsDigit(CharAt(s, e))
  }

  lemma IntStands(s: string, i: nat, n: int32)
    requires Stands(s, i, IntText(n)) && Ends(s, i + |IntText(n)|)
    ensures i < |s| && (s[i] == '-' <==> n < 0)
    ensures DigitsAt(s, if n < 0 then i + 1 else i, i + |IntText(n)|, Magnitude(n))
  {
    hide DecimalText;
    var digits := DecimalText(Magnitude(n));
    var sign := if n < 0 then "-" else "";
    var j := i + |sign|;
    assert IntText(n) == sign + digits;
    StandsSplit(s, i, sign, digits);
    StandsChars(s, j, digits);
    forall k | j <= k < j + |digits|
      ensures IsDigit(s[k])
    {
      assert digits[k - j] == s[k];
    }
    StandsChars(s, i, sign);
    assert n < 0 ==> sign[0] == s[i];
  }

  lemma AtoiOfInt(s: string, i: nat, e: nat, n: int32)
    requires i < |s| && (s[i] == '-' <==> n < 0)
    requires DigitsAt(s, if n < 0 then i + 1 else i, e, Magnitude(n))
    ensures Atoi(s, i) == n
  {
    hide Decimal, DecimalText, DigitsEnd;
    var j := if n < 0 then i + 1 else i;
    DigitsRun(s, j, e);
    DecimalRoundTrip(Magnitude(n));
  }

  lemma NumberOfInt(s: string, i: nat, e: nat, n: int32)
    requires i < |s| && (s[i] == '-' <==> n < 0) && Ends(s, e)
    requires DigitsAt(s, if n < 0 then i + 1 else i, e, Magnitude(n))
    ensures (s[i] == '-' || IsDigit(s[i])) && ParseNumber(s, i) == Ok(Int(n), e)
  {
    hide Atoi, DecimalText;
    var j, m := if n < 0 then i + 1 else i, Magnitude(n);
    AtoiOfInt(s, i, e, n);
    LeadingZero(m);
    assert s[j] == s[j..e][0];
    DigitsRun(s, j + 1, e);
  }

  /** A number is read back if no digit and no point follows. */
  lemma IntRoundTrip(s: string, i: nat, n: int32)
    requires Stands(s, i, IntText(n)) && Ends(s, i + |IntText(n)|)
    ensures Parse(s, i) == Ok(Int(n), i + |IntText(n)|)
  {
    IntStands(s, i, n);
    NumberOfInt(s, i, i + |IntText(n)|, n);
    ParseOfNumber(s, i);
  }

  lemma ParseOfNumber(s: string, i: nat)
    requires i < |s| && (s[i] == '-' || IsDigit(s[i]))
    ensures Parse(s, i) == ParseNumber(s, i)
  {
    hide NextToken, ParseNull, ParseBool, ParseNumber, ParseText, ParseArray, ParseObject;
    TokenAt(s, i);
  }

  /** Only zero is written with a leading zero. */
  lemma {:induction false} LeadingZero(n: nat)
    ensures DecimalText(n)[0] == '0' ==> DecimalText(n) == "0"
  {
    if n >= 10 {
      LeadingZero(n / 10);
    }
  }

  lemma ParseOfWord(s: string, i: nat, v: Value)
    requires v.Null? || v.Bool?
    requires Stands(s, i, Print(v))
    ensures Parse(s, i) == Ok(v, i + |Print(v)|)
  {
    hide NextToken, ParseNumber, ParseText, ParseArray, ParseObject;
    StandsChars(s, i, Print(v));
    assert s[i] == Print(v)[0];
    TokenAt(s, i);
    assert v == Bool(false) ==> s[i..i + 4][0] == 'f';
  }

  lemma ParseOfString(s: string, i: nat, t: string)
    requires Stands(s, i, "\"" + t + "\"") && ScanSafe(t)
    ensures Parse(s, i) == Ok(Str(t), i + |t| + 2)
  {
    hide ScanSafe, Parse, ParseString;
    QuotedText(t);
    StandsAround(s, i, "", '"', t + "\"");
    StringRoundTrip(s, i + 1, t);
    ParseOfQuote(s, i);
  }

  lemma QuotedText(t: string)
    ensures "\"" + t + "\"" == "" + (['"'] + (t + "\""))
  {
  }

  lemma ParseOfQuote(s: string, i: nat)
    requires i < |s| && s[i] == '"' && ParseString(s, i + 1, i + 1).Ok?
    ensures var t := ParseString(s, i + 1, i + 1); Parse(s, i) == Ok(Str(t.value), t.next)
  {
    hide NextToken, ParseNull, ParseBool, ParseNumber, ParseArray, ParseObject, ParseString;
    TokenAt(s, i);
  }

  /** The opening bracket and the token behind it. */
  lemma ParseOfBracket(s: string, i: nat)
    requires i + 1 < |s| && s[i] == '[' && !IsSpace(s[i + 1])
    ensures Parse(s, i) == if s[i + 1] == ']' then Ok(Arr([]), i + 2) else ParseItems(s, i + 1, Arr([]))
  {
    hide NextToken, ParseNull, ParseBool, ParseNumber, ParseText, ParseObject, ParseItems;
    TokenAt(s, i);
    TokenAt(s, i + 1);
  }

  lemma ParseOfBrace(s: string, i: nat)
    requires i + 1 < |s| && s[i] == '{' && !IsSpace(s[i + 1])
    ensures Parse(s, i) == if s[i + 1] == '}' then Ok(Obj([]), i + 2) else ParseMembers(s, i + 1, Obj([]))
  {
    hide NextToken, ParseNull, ParseBool, ParseNumber, ParseText, ParseArray, ParseMembers;
    TokenAt(s, i);
    TokenAt(s, i + 1);
  }

  /** No text of a value starts with white space or a closing bracket. */
  lemma FirstChar(v: Value)
    ensures Print(v) != "" && !IsSpace(Print(v)[0]) && Print(v)[0] != ']'
  {
    hide DecimalText, ItemTexts, MemberTexts, Join;
  }

  // ---------- the round trip ----------

  /** Wherever the text of a value stands, with nothing behind it that carries a number on, the
      parser reads the value back and stops exactly at the end of its text. */
  lemma {:induction false} RoundTrip(v: Value, s: string, i: nat)
    requires Built(v) && Safe(v)
    requires Stands(s, i, Print(v)) && Ends(s, i + |Print(v)|)
    ensures Parse(s, i) == Ok(v, i + |Print(v)|)
    decreases v, 2
  {
    match v
    case Int(n) => IntRoundTrip(s, i, n);
    case Str(t) => ParseOfString(s, i, t);
    case Arr(_) => RoundTripArray(v, s, i);
    case Obj(_) => RoundTripObject(v, s, i);
    case _ => ParseOfWord(s, i, v);
  }

  lemma {:induction false} RoundTripArray(v: Value, s: string, i: nat)
    requires v.Arr? && Built(v) && Safe(v) && Stands(s, i, Print(v))
    ensures Parse(s, i) == Ok(v, i + |Print(v)|)
    decreases v, 1
  {
    hide Parse, ParseItems, Join, Built, Safe, ItemTexts;
    var inner := Join(ItemTexts(v)) + "]";
    assert Print(v) == "" + (['['] + inner);
    StandsAround(s, i, "", '[', inner);
    StandsChars(s, i + 1, inner);
    assert s[i + 1] == inner[0];
    if v.items == [] {
      JoinNone(ItemTexts(v));
      assert inner == "]";
    } else {
      JoinFirst(ItemTexts(v));
      FirstChar(v.items[0]);
      assert inner[0] == Print(v.items[0])[0];
      assert ItemTexts(v)[0..] == ItemTexts(v);
      RoundTripItems(v, 0, s, i + 1);
    }
    ParseOfBracket(s, i);
  }

  lemma JoinNone(ts: seq<string>)
    requires ts == []
    ensures Join(ts) == ""
  {
  }

  lemma JoinFirst(ts: seq<string>)
    requires ts != []
    ensures Join(ts) == if |ts| == 1 then ts[0] else ts[0] + ("," + Join(ts[1..]))
  {
  }

  lemma JoinSplit(ts: seq<string>, k: nat, close: char)
    requires k < |ts|
    ensures Join(ts[k..]) + [close] ==
            if k + 1 == |ts| then ts[k] + ([close] + "") else ts[k] + ([','] + (Join(ts[k + 1..]) + [close]))
  {
    hide Join;
    JoinFirst(ts[k..]);
    assert ts[k..][1..] == ts[k + 1..];
  }

  /** The items from k on. */
  lemma {:induction false} RoundTripItems(v: Value, k: nat, s: string, i: nat)
    requires v.Arr? && k < |v.items| && Built(v) && Safe(v)
    requires Stands(s, i, Join(ItemTexts(v)[k..]) + "]")
    ensures ParseItems(s, i, Arr(v.items[..k])) == Ok(v, i + |Join(ItemTexts(v)[k..])| + 1)
    decreases v, 0, |v.items| - k
  {
    hide Parse, ParseItems, Print, Join, Built, Safe, ItemTexts, Stands, NextToken;
    var ts, text := ItemTexts(v), Print(v.items[k]);
    var e := i + |text|;
    ItemKnown(v, k);
    JoinSplit(ts, k, ']');
    assert v.items[..k] + [v.items[k]] == v.items[..k + 1];
    if k + 1 == |v.items| {
      StandsAround(s, i, text, ']', "");
      RoundTrip(v.items[k], s, i);
      ItemsStep(s, i, v.items[k], e, v.items[..k]);
      assert v.items[..k + 1] == v.items;
    } else {
      var rest := Join(ts[k + 1..]) + "]";
      StandsAround(s, i, text, ',', rest);
      RoundTrip(v.items[k], s, i);
      ItemsStep(s, i, v.items[k], e, v.items[..k]);
      RoundTripItems(v, k + 1, s, e + 1);
    }
  }

  lemma ItemKnown(v: Value, k: nat)
    requires v.Arr? && k < |v.items| && Built(v) && Safe(v)
    ensures Built(v.items[k]) && Safe(v.items[k])
  {
  }

  lemma ItemsStep(s: string, i: nat, x: Value, e: nat, before: seq<Value>)
    requires Parse(s, i) == Ok(x, e) && e < |s| && (s[e] == ',' || s[e] == ']')
    ensures ParseItems(s, i, Arr(before)) ==
            if s[e] == ']' then Ok(Arr(before + [x]), e + 1) else ParseItems(s, e + 1, Arr(before + [x]))
  {
    hide NextToken, Parse;
    TokenAt(s, e);
  }

  lemma {:induction false} RoundTripObject(v: Value, s: string, i: nat)
    requires v.Obj? && Built(v) && Safe(v) && Stands(s, i, Print(v))
    ensures Parse(s, i) == Ok(v, i + |Print(v)|)
    decreases v, 1
  {
    hide Parse, ParseMembers, Join, Built, Safe, MemberTexts;
    var inner := Join(MemberTexts(v)) + "}";
    assert Print(v) == "" + (['{'] + inner);
    StandsAround(s, i, "", '{', inner);
    StandsChars(s, i + 1, inner);
    assert s[i + 1] == inner[0];
    if v.members == [] {
      JoinNone(MemberTexts(v));
      assert inner == "}";
    } else {
      JoinFirst(MemberTexts(v));
      assert inner[0] == MemberTexts(v)[0][0] == '"';
      assert MemberTexts(v)[0..] == MemberTexts(v);
      RoundTripMembers(v, 0, s, i + 1);
    }
    ParseOfBrace(s, i);
  }

  /** The members from k on. */
  lemma {:induction false} RoundTripMembers(v: Value, k: nat, s: string, i: nat)
    requires v.Obj? && k < |v.members| && Built(v) && Safe(v)
    requires Stands(s, i, Join(MemberTexts(v)[k..]) + "}")
    ensures ParseMembers(s, i, Obj(v.members[..k])) == Ok(v, i + |Join(MemberTexts(v)[k..])| + 1)
    decreases v, 0, |v.members| - k
  {
    hide Parse, ParseMembers, ParseMember, Print, Join, Built, Safe, MemberTexts, Put, Stands, NextToken;
    var ts, m := MemberTexts(v), v.members[k];
    var text := ts[k];
    var e := i + |text|;
    MemberKnown(v, k);
    JoinSplit(ts, k, '}');
    if k + 1 == |v.members| {
      StandsAround(s, i, text, '}', "");
      RoundTripMember(v, k, s, i);
      MembersStep(s, i, m, e, Obj(v.members[..k]));
      assert v.members[..k + 1] == v.members;
    } else {
      var rest := Join(ts[k + 1..]) + "}";
      StandsAround(s, i, text, ',', rest);
      RoundTripMember(v, k, s, i);
      MembersStep(s, i, m, e, Obj(v.members[..k]));
      RoundTripMembers(v, k + 1, s, e + 1);
    }
  }

  /** A member of a built object goes behind the smaller keys, under its own key. */
  lemma MemberKnown(v: Value, k: nat)
    requires v.Obj? && k < |v.members| && Built(v) && Safe(v)
    ensures Built(v.members[k].value) && Safe(v.members[k].value) && ScanSafe(v.members[k].key)
    ensures Put(Obj(v.members[..k]), v.members[k].key, v.members[k].value) == Obj(v.members[..k + 1])
  {
    var m := v.members[k];
    assert '\0' !in m.key;
    forall x | x in v.members[..k]
      ensures Less(x.key, m.key)
    {
    }
    CStringWhole(m.key, '\0');
    AssignLast(v.members[..k], m.key, m.value);
    assert v.members[..k] + [m] == v.members[..k + 1];
  }

  lemma {:induction false} RoundTripMember(v: Value, k: nat, s: string, i: nat)
    requires v.Obj? && k < |v.members| && Built(v) && Safe(v)
    requires Stands(s, i, MemberTexts(v)[k]) && Ends(s, i + |MemberTexts(v)[k]|)
    ensures ParseMember(s, i) == Ok(v.members[k], i + |MemberTexts(v)[k]|)
    decreases v, 0, 0
  {
    hide Parse, ParseMember, Print, Built, Safe, MemberTexts, ParseString, ScanSafe, NextToken, Stands, Put;
    var m := v.members[k];
    MemberKnown(v, k);
    var value := Print(m.value);
    var a := i + 1 + |m.key| + 2;
    MemberText(m.key, value);
    StandsAround(s, i, "", '"', m.key + (['"'] + ("" + ([':'] + value))));
    StandsAround(s, i + 1, m.key, '"', "" + ([':'] + value));
    StandsAround(s, a - 1, "", ':', value);
    StandsQuoted(s, i + 1, m.key);
    StringRoundTrip(s, i + 1, m.key);
    RoundTrip(m.value, s, a);
    MemberStep(s, i, m, a, a + |value|);
  }

  lemma MemberText(key: string, value: string)
    ensures "\"" + key + "\":" + value == "" + (['"'] + (key + (['"'] + ("" + ([':'] + value)))))
  {
  }

  lemma StandsQuoted(s: string, i: nat, t: string)
    requires Stands(s, i, t) && i + |t| < |s| && s[i + |t|] == '"'
    ensures Stands(s, i, t + "\"")
  {
  }

  lemma MemberStep(s: string, i: nat, m: Member, a: nat, e: nat)
    requires i + 1 < a <= |s| && s[i] == '"' && s[a - 1] == ':'
    requires ParseString(s, i + 1, i + 1) == Ok(m.key, a - 1) && Parse(s, a) == Ok(m.value, e)
    ensures ParseMember(s, i) == Ok(m, e)
  {
    hide NextToken, Parse, ParseString;
    TokenAt(s, i);
    TokenAt(s, a - 1);
  }

  lemma MembersStep(s: string, i: nat, m: Member, e: nat, obj: Value)
    requires ParseMember(s, i) == Ok(m, e) && e < |s| && (s[e] == ',' || s[e] == '}')
    ensures ParseMembers(s, i, obj) ==
            var next := Put(obj, m.key, m.value);
            if s[e] == '}' then Ok(next, e + 1) else ParseMembers(s, e + 1, next)
  {
    hide NextToken, ParseMember, Put;
    TokenAt(s, e);
  }

  // ---------- zero characters ----------

  function Zeros(s: string): nat {
    if s == "" then 0 else (if s[0] == '\0' then 1 else 0) + Zeros(s[1..])
  }

  lemma {:induction false} ZerosConcat(a: string, b: string)
    ensures Zeros(a + b) == Zeros(a) + Zeros(b)
  {
    if a == "" {
      assert a + b == b;
    } else {
      assert (a + b)[1..] == a[1..] + b;
      ZerosConcat(a[1..], b);
    }
  }

  lemma {:induction false} NoZeros(s: string)
    ensures Zeros(s) == 0 <==> '\0' !in s
  {
    if s != "" {
      NoZeros(s[1..]);
      assert s == [s[0]] + s[1..];
    }
  }

  /** The zeros of a stretch of text. */
  function ZerosIn(s: string, i: nat, j: nat): nat {
    if i <= j <= |s| then Zeros(s[i..j]) else 0
  }

  lemma ZerosSplit(s: string, i: nat, j: nat, k: nat)
    requires i <= j <= k <= |s|
    ensures ZerosIn(s, i, k) == ZerosIn(s, i, j) + ZerosIn(s, j, k)
  {
    assert s[i..k] == s[i..j] + s[j..k];
    ZerosConcat(s[i..j], s[j..k]);
  }

  function Sum(ns: seq<nat>): nat {
    if ns == [] then 0 else ns[0] + Sum(ns[1..])
  }

  lemma {:induction false} SumConcat(a: seq<nat>, b: seq<nat>)
    ensures Sum(a + b) == Sum(a) + Sum(b)
  {
    if a == [] {
      assert a + b == b;
    } else {
      assert (a + b)[1..] == a[1..] + b;
      SumConcat(a[1..], b);
    }
  }

  /** The zeros in the strings of a value; its keys have none. */
  function ZerosOf(v: Value): nat {
    match v
    case Str(t) => Zeros(t)
    case Arr(items) => Sum(seq(|items|, k requires 0 <= k < |items| => ZerosOf(items[k])))
    case Obj(ms) => Sum(seq(|ms|, k requires 0 <= k < |ms| => ZerosOf(ms[k].value)))
    case _ => 0
  }

  function ItemZeros(items: seq<Value>): (ns: seq<nat>)
    ensures |ns| == |items| && forall k :: 0 <= k < |ns| ==> ns[k] == ZerosOf(items[k])
  {
    seq(|items|, k requires 0 <= k < |items| => ZerosOf(items[k]))
  }

  function MemberZeros(ms: seq<Member>): (ns: seq<nat>)
    ensures |ns| == |ms| && forall k :: 0 <= k < |ns| ==> ns[k] == ZerosOf(ms[k].value)
  {
    seq(|ms|, k requires 0 <= k < |ms| => ZerosOf(ms[k].value))
  }

  lemma ZerosOfItems(items: seq<Value>)
    ensures ZerosOf(Arr(items)) == Sum(ItemZeros(items))
  {
    assert ItemZeros(items) == seq(|items|, k requires 0 <= k < |items| => ZerosOf(items[k]));
  }

  lemma ZerosOfMembers(ms: seq<Member>)
    ensures ZerosOf(Obj(ms)) == Sum(MemberZeros(ms))
  {
    assert MemberZeros(ms) == seq(|ms|, k requires 0 <= k < |ms| => ZerosOf(ms[k].value));
  }

  /** The text of a built value has the zeros of its strings and no others. */
  lemma {:induction false} ZerosOfPrint(v: Value)
    requires Built(v)
    ensures Zeros(Print(v)) == ZerosOf(v)
    decreases v
  {
    match v
    case Int(n) => ZerosOfInt(n);
    case Str(t) => ZerosQuoted("\"", t, "\"");
    case Arr(items) =>
      hide Built, Print, ZerosOf;
      PrintUnfold(v);
      forall k | 0 <= k < |items|
        ensures Zeros(ItemTexts(v)[k]) == ItemZeros(items)[k]
      {
        ItemBuilt(v, k);
        ZerosOfPrint(items[k]);
      }
      ZerosOfJoin(ItemTexts(v), ItemZeros(items));
      ZerosQuoted("[", Join(ItemTexts(v)), "]");
      ZerosOfItems(items);
    case Obj(ms) =>
      hide Built, Print, ZerosOf;
      PrintUnfold(v);
      forall k | 0 <= k < |ms|
        ensures Zeros(MemberTexts(v)[k]) == MemberZeros(ms)[k]
      {
        MemberBuilt(v, k);
        ZerosOfPrint(ms[k].value);
        NoZeros(ms[k].key);
        ZerosQuoted("\"", ms[k].key, "\":");
        ZerosConcat("\"" + ms[k].key + "\":", Print(ms[k].value));
      }
      ZerosOfJoin(MemberTexts(v), MemberZeros(ms));
      ZerosQuoted("{", Join(MemberTexts(v)), "}");
      ZerosOfMembers(ms);
    case _ => NoZeros(Print(v));
  }

  lemma ZerosOfInt(n: int)
    ensures Zeros(IntText(n)) == 0
  {
    NoZeros(IntText(n));
  }

  lemma PrintUnfold(v: Value)
    ensures v.Arr? ==> Print(v) == "[" + Join(ItemTexts(v)) + "]"
    ensures v.Obj? ==> Print(v) == "{" + Join(MemberTexts(v)) + "}"
  {
  }

  lemma ItemBuilt(v: Value, k: nat)
    requires v.Arr? && Built(v) && k < |v.items|
    ensures Built(v.items[k])
  {
  }

  lemma MemberBuilt(v: Value, k: nat)
    requires v.Obj? && Built(v) && k < |v.members|
    ensures Built(v.members[k].value) && '\0' !in v.members[k].key
  {
  }

  lemma ZerosQuoted(a: string, t: string, b: string)
    requires '\0' !in a && '\0' !in b
    ensures Zeros(a + t + b) == Zeros(t)
  {
    ZerosConcat(a + t, b);
    ZerosConcat(a, t);
    NoZeros(a);
    NoZeros(b);
  }

  lemma {:induction false} ZerosOfJoin(ts: seq<string>, ns: seq<nat>)
    requires |ts| == |ns| && forall k :: 0 <= k < |ts| ==> Zeros(ts[k]) == ns[k]
    ensures Zeros(Join(ts)) == Sum(ns)
  {
    hide Zeros;
    if |ts| == 1 {
      assert Sum(ns) == ns[0] + Sum([]);
    } else if |ts| > 1 {
      ZerosOfJoin(ts[1..], ns[1..]);
      ZerosConcat(ts[0] + ",", Join(ts[1..]));
      ZerosConcat(ts[0], ",");
      NoZeros(",");
    } else {
      NoZeros("");
    }
  }

  // ---------- what the parser returns ----------

  /** v is built, its strings have at most z zeros, and if they have as many it is safe. */
  ghost predicate Within(v: Value, z: nat) {
    Built(v) && ZerosOf(v) <= z && (ZerosOf(v) == z ==> Safe(v))
  }

  lemma WithinMore(v: Value, z: nat, more: nat)
    requires Within(v, z) && z <= more
    ensures Within(v, more)
  {
  }

  lemma AppendWithin(arr: Value, x: Value, a: nat, b: nat)
    requires arr.Arr? && Within(arr, a) && Within(x, b)
    ensures Within(Append(arr, x), a + b)
  {
    hide ZerosOf;
    ZerosOfItems(arr.items);
    ZerosOfItems(arr.items + [x]);
    assert ItemZeros(arr.items + [x]) == ItemZeros(arr.items) + [ZerosOf(x)];
    SumConcat(ItemZeros(arr.items), [ZerosOf(x)]);
    assert Sum([ZerosOf(x)]) == ZerosOf(x) + Sum([]);
  }

  lemma {:induction false} AssignZeros(ms: seq<Member>, key: string, x: Value)
    ensures Sum(MemberZeros(Assign(ms, key, x))) <= Sum(MemberZeros(ms)) + ZerosOf(x)
  {
    hide ZerosOf;
    var r := Assign(ms, key, x);
    assert MemberZeros(r)[1..] == MemberZeros(r[1..]);
    if ms == [] {
      assert Sum([]) == 0;
    } else {
      assert MemberZeros(ms)[1..] == MemberZeros(ms[1..]);
      if ms[0].key == key {
        assert r[1..] == ms[1..];
      } else if Less(key, ms[0].key) {
        assert r[1..] == ms;
      } else {
        AssignZeros(ms[1..], key, x);
        assert r[1..] == Assign(ms[1..], key, x);
      }
    }
  }

  lemma PutZeros(obj: Value, key: string, x: Value)
    requires obj.Obj?
    ensures ZerosOf(Put(obj, key, x)) <= ZerosOf(obj) + ZerosOf(x)
  {
    hide ZerosOf;
    ZerosOfMembers(obj.members);
    ZerosOfMembers(Assign(obj.members, CString(key, '\0'), x));
    AssignZeros(obj.members, CString(key, '\0'), x);
  }

  lemma PutBuilt(obj: Value, key: string, x: Value)
    requires obj.Obj? && Built(obj) && Built(x)
    ensures Built(Put(obj, key, x))
    ensures Safe(obj) && Safe(x) && ScanSafe(key) && '\0' !in key ==> Safe(Put(obj, key, x))
  {
    hide Assign, Sorted, ScanSafe;
    var ms := Assign(obj.members, CString(key, '\0'), x);
    AssignSorted(obj.members, CString(key, '\0'), x);
    CStringWhole(key, '\0');
    forall k | 0 <= k < |ms|
      ensures '\0' !in ms[k].key && Built(ms[k].value)
      ensures Safe(obj) && Safe(x) && ScanSafe(key) && '\0' !in key ==> ScanSafe(ms[k].key) && Safe(ms[k].value)
    {
      assert ms[k] in ms;
    }
  }

  lemma PutWithin(obj: Value, key: string, x: Value, a: nat, b: nat)
    requires obj.Obj? && Within(obj, a) && Within(x, b) && ScanSafe(key)
    ensures Within(Put(obj, key, x), a + b + Zeros(key))
  {
    hide Put, ZerosOf, Built, Safe, ScanSafe;
    PutZeros(obj, key, x);
    PutBuilt(obj, key, x);
    NoZeros(key);
  }

  /** What the parser returns is built, its strings have no more zeros than the text it read, and
      if they have as many, so that none was cut off with a key, it is safe. */
  lemma {:induction false} ParsedWithin(s: string, i: nat)
    requires Parse(s, i).Ok?
    ensures Within(Parse(s, i).value, ZerosIn(s, i, Parse(s, i).next))
    decreases |s| - i, 1
  {
    hide NextToken, ParseNull, ParseBool, ParseNumber, ParseArray, ParseObject, ParseString, ZerosIn, ScanSafe;
    var token := NextToken(s, i);
    var j := token.next;
    if token.value == '"' {
      ScannedIsSafe(s, j, j);
      TextWithin(s, i, j, ParseString(s, j, j).next);
    } else if token.value == '[' {
      ArrayWithin(s, j);
      WithinFrom(s, i, j, Parse(s, i));
    } else if token.value == '{' {
      ObjectWithin(s, j);
      WithinFrom(s, i, j, Parse(s, i));
    }
  }

  lemma TextWithin(s: string, i: nat, j: nat, k: nat)
    requires i <= j < k <= |s|
    ensures Zeros(s[j..k - 1]) <= ZerosIn(s, i, k)
  {
    hide Zeros;
    ZerosSplit(s, i, j, k);
    ZerosSplit(s, j, k - 1, k);
  }

  lemma WithinFrom(s: string, i: nat, j: nat, r: Outcome<Value>)
    requires r.Ok? && i <= j <= r.next <= |s| && Within(r.value, ZerosIn(s, j, r.next))
    ensures Within(r.value, ZerosIn(s, i, r.next))
  {
    hide ZerosIn, Within;
    ZerosSplit(s, i, j, r.next);
    WithinMore(r.value, ZerosIn(s, j, r.next), ZerosIn(s, i, r.next));
  }

  lemma EmptyWithin()
    ensures Within(Arr([]), 0) && Within(Obj([]), 0)
  {
  }

  lemma {:induction false} ArrayWithin(s: string, i: nat)
    requires ParseArray(s, i).Ok?
    ensures Within(ParseArray(s, i).value, ZerosIn(s, i, ParseArray(s, i).next))
    decreases |s| - i, 4
  {
    hide NextToken, ParseItems, ZerosIn, Within;
    EmptyWithin();
    var t := NextToken(s, i);
    if t.value == ']' {
      WithinMore(Arr([]), 0, ZerosIn(s, i, t.next));
    } else {
      ItemsWithin(s, t.next - 1, Arr([]), 0);
      WithinFrom(s, i, t.next - 1, ParseItems(s, t.next - 1, Arr([])));
    }
  }

  lemma {:induction false} ItemsWithin(s: string, i: nat, arr: Value, z: nat)
    requires arr.Arr? && Within(arr, z) && ParseItems(s, i, arr).Ok?
    ensures Within(ParseItems(s, i, arr).value, z + ZerosIn(s, i, ParseItems(s, i, arr).next))
    decreases |s| - i, 2
  {
    hide Parse, NextToken, ZerosIn, Within;
    var v := Parse(s, i);
    ParsedWithin(s, i);
    var read := z + ZerosIn(s, i, v.next);
    AppendWithin(arr, v.value, z, ZerosIn(s, i, v.next));
    var t := NextToken(s, v.next);
    var r := ParseItems(s, i, arr);
    ZerosSplit(s, i, v.next, t.next);
    if t.value == ',' {
      WithinMore(Append(arr, v.value), read, z + ZerosIn(s, i, t.next));
      ItemsWithin(s, t.next, Append(arr, v.value), z + ZerosIn(s, i, t.next));
      ZerosSplit(s, i, t.next, r.next);
    } else {
      WithinMore(r.value, read, z + ZerosIn(s, i, t.next));
    }
  }

  lemma {:induction false} ObjectWithin(s: string, i: nat)
    requires ParseObject(s, i).Ok?
    ensures Within(ParseObject(s, i).value, ZerosIn(s, i, ParseObject(s, i).next))
    decreases |s| - i, 4
  {
    hide NextToken, ParseMembers, ZerosIn, Within;
    EmptyWithin();
    var t := NextToken(s, i);
    if t.value == '}' {
      WithinMore(Obj([]), 0, ZerosIn(s, i, t.next));
    } else {
      MembersWithin(s, t.next - 1, Obj([]), 0);
      WithinFrom(s, i, t.next - 1, ParseMembers(s, t.next - 1, Obj([])));
    }
  }

  lemma {:induction false} MembersWithin(s: string, i: nat, obj: Value, z: nat)
    requires obj.Obj? && Within(obj, z) && ParseMembers(s, i, obj).Ok?
    ensures Within(ParseMembers(s, i, obj).value, z + ZerosIn(s, i, ParseMembers(s, i, obj).next))
    decreases |s| - i, 3
  {
    hide ParseMember, NextToken, ZerosIn, Within, Put;
    var m := ParseMember(s, i);
    var b := MemberWithin(s, i);
    var next := Put(obj, m.value.key, m.value.value);
    var read := z + ZerosIn(s, i, m.next);
    PutWithin(obj, m.value.key, m.value.value, z, b);
    WithinMore(next, z + b + Zeros(m.value.key), read);
    PutIsObject(obj, m.value.key, m.value.value);
    var t := NextToken(s, m.next);
    var r := ParseMembers(s, i, obj);
    ZerosSplit(s, i, m.next, t.next);
    WithinMore(next, read, z + ZerosIn(s, i, t.next));
    if t.value == ',' {
      MembersWithin(s, t.next, next, z + ZerosIn(s, i, t.next));
      ZerosSplit(s, i, t.next, r.next);
    }
  }

  lemma PutIsObject(obj: Value, key: string, x: Value)
    ensures Put(obj, key, x).Obj?
  {
  }

  /** The text of a member holds the zeros of its key and b more, which bound those of its value. */
  lemma {:induction false} MemberWithin(s: string, i: nat) returns (b: nat)
    requires ParseMember(s, i).Ok?
    ensures var m := ParseMember(s, i);
            ScanSafe(m.value.key) && Within(m.value.value, b) && b + Zeros(m.value.key) <= ZerosIn(s, i, m.next)
    decreases |s| - i, 2
  {
    hide Parse, NextToken, ParseString, ZerosIn, Within, Zeros, ScanSafe;
    var q := NextToken(s, i);
    var key := ParseString(s, q.next, q.next);
    ScannedIsSafe(s, q.next, q.next);
    var colon := NextToken(s, key.next);
    var v := Parse(s, colon.next);
    ParsedWithin(s, colon.next);
    b := ZerosIn(s, colon.next, v.next);
    TextWithin(s, i, q.next, key.next);
    ZerosSplit(s, i, key.next, v.next);
    ZerosSplit(s, key.next, colon.next, v.next);
  }

  // ---------- exactly what survives ----------

  /** A text without zero characters gives safe values only. */
  lemma ParsedIsSafe(s: string, i: nat)
    requires Parse(s, i).Ok?
    ensures Built(Parse(s, i).value) && ('\0' !in s ==> Safe(Parse(s, i).value))
  {
    hide Parse, Built, Safe, ZerosOf, Zeros;
    ParsedWithin(s, i);
    if '\0' !in s {
      NoZeros(s[i..Parse(s, i).next]);
    }
  }

  /** Of all values the API can build exactly the safe ones survive printing and parsing. */
  lemma RoundTripExactly(v: Value)
    requires Built(v)
    ensures Parse(Print(v), 0) == Ok(v, |Print(v)|) <==> Safe(v)
  {
    hide Built, Safe, Parse, Print, ZerosOf, Zeros;
    if Safe(v) {
      RoundTrip(v, Print(v), 0);
    }
    if Parse(Print(v), 0) == Ok(v, |Print(v)|) {
      ParsedWithin(Print(v), 0);
      ZerosOfPrint(v);
      assert Print(v)[0..|Print(v)|] == Print(v);
    }
  }

  /** Printing what was parsed, whatever the spacing and the order of the members were, and
      parsing that again changes nothing, if and only if the parsed value is safe. */
  lemma PrintedAgain(s: string, i: nat)
    requires Parse(s, i).Ok?
    ensures var v := Parse(s, i).value; Parse(Print(v), 0) == Ok(v, |Print(v)|) <==> Safe(v)
  {
    hide Built, Safe, Parse, Print;
    ParsedIsSafe(s, i);
    RoundTripExactly(Parse(s, i).value);
  }

  // ---------- keys with zero characters ----------

  lemma {:induction false} FoundIsMember(ms: seq<Member>, key: string)
    requires Find(ms, key).Some?
    ensures exists k :: 0 <= k < |ms| && ms[k].key == key
  {
    if ms[0].key != key {
      FoundIsMember(ms[1..], key);
      var k :| 0 <= k < |ms[1..]| && ms[1..][k].key == key;
      assert ms[k + 1].key == key;
    }
  }

  /** An assignment is found under its own key if and only if the key has no zero character, whatever
      it is assigned to. */
  lemma PutFinds(v: Value, key: string, x: Value)
    requires Built(v)
    ensures Put(v, key, x).Obj?
    ensures Find(Put(v, key, x).members, key) == Some(x) <==> '\0' !in key
  {
    CStringWhole(key, '\0');
    if v.Obj? {
      AssignFinds(v.members, CString(key, '\0'), x, key);
      if '\0' in key && Find(v.members, key).Some? {
        FoundIsMember(v.members, key);
      }
    }
  }

  /** Up to that character it always is; any other key finds what it found before, and nothing in
      what was no object. */
  lemma PutKeeps(v: Value, key: string, x: Value, other: string)
    requires Built(v)
    ensures Find(Put(v, key, x).members, CString(key, '\0')) == Some(x)
    ensures other != CString(key, '\0') ==>
              Find(Put(v, key, x).members, other) == if v.Obj? then Find(v.members, other) else None
  {
    if v.Obj? {
      AssignFinds(v.members, CString(key, '\0'), x, CString(key, '\0'));
      AssignFinds(v.members, CString(key, '\0'), x, other);
    }
  }

  /** So it is with a member that is read into an object. */
  lemma MemberSurvives(s: string, i: nat, obj: Value)
    requires obj.Obj? && Built(obj) && ParseMember(s, i).Ok?
    ensures var m := ParseMember(s, i).value;
            Find(Put(obj, m.key, m.value).members, m.key) == Some(m.value) <==> '\0' !in m.key
  {
    hide ParseMember, Put, Built;
    PutFinds(obj, ParseMember(s, i).value.key, ParseMember(s, i).value.value);
  }

  /** The text of an object with one member. */
  function OneMember(key: string): string {
    "{\"" + key + "\":null}"
  }

  lemma OneMemberParses(key: string)
    requires ScanSafe(key)
    ensures Parse(OneMember(key), 0) == Ok(Obj([Member(CString(key, '\0'), Null)]), |OneMember(key)|)
  {
    hide Parse, ParseMember, ParseMembers, ParseString, ScanSafe, NextToken, Stands, CString, OneMember;
    var s, colon := OneMember(key), 3 + |key|;
    OneMemberParts(key);
    StringRoundTrip(s, 2, key);
    ParseOfWord(s, colon + 1, Null);
    MemberStep(s, 1, Member(key, Null), colon + 1, colon + 5);
    MembersStep(s, 1, Member(key, Null), colon + 5, Obj([]));
    PutFirst(key);
    ParseOfBrace(s, 0);
  }

  lemma OneMemberParts(key: string)
    ensures var s, colon := OneMember(key), 3 + |key|;
            && |s| == colon + 6 && s[0] == '{' && s[1] == '"' && Stands(s, 2, key + "\"")
            && s[colon] == ':' && Stands(s, colon + 1, "null") && s[colon + 5] == '}'
  {
    var s := OneMember(key);
    assert s[2..] == key + "\":null}";
    assert s[2..3 + |key|] == key + "\"";
    assert s[4 + |key|..8 + |key|] == "null";
  }

  lemma PutFirst(key: string)
    ensures Put(Obj([]), key, Null) == Obj([Member(CString(key, '\0'), Null)])
  {
    hide CString;
  }

  /** The parser keeps a key whole if and only if it has no zero character. */
  lemma KeyIsCut(key: string)
    requires ScanSafe(key)
    ensures var r := Parse(OneMember(key), 0);
            r.Ok? && r.value.Obj? && (Find(r.value.members, key) == Some(Null) <==> '\0' !in key)
  {
    hide Parse, ScanSafe, OneMember, CString;
    OneMemberParses(key);
    CStringWhole(key, '\0');
  }

  lemma {:induction false} ScanSafeConcat(a: string, b: string)
    requires ScanSafe(a)
    ensures ScanSafe(a + b) <==> ScanSafe(b)
    decreases |a|
  {
    if a == "" {
      assert a + b == b;
    } else {
      var n := if a[0] != '\\' then 1 else if a[1] == 'u' then 6 else 2;
      assert (a + b)[n..] == a[n..] + b;
      ScanSafeConcat(a[n..], b);
    }
  }

  lemma {:induction false} CStringCut(a: string, b: string)
    requires '\0' !in a
    ensures CString(a + "\0" + b, '\0') == a
  {
    if a != "" {
      assert (a + "\0" + b)[1..] == a[1..] + "\0" + b;
      CStringCut(a[1..], b);
    }
  }

  /** A key cut in the middle of an escape is not safe any more, so what the parser makes of such
      a text does not survive being printed. */
  lemma CutEscape(a: string, b: string)
    requires ScanSafe(a) && ScanSafe(b) && '\0' !in a
    ensures var r := Parse(OneMember(a + "\\\0" + b), 0);
            r.Ok? && Parse(Print(r.value), 0) != Ok(r.value, |Print(r.value)|)
  {
    hide Parse, Print, Built, OneMember, CString;
    var key := a + "\\\0" + b;
    assert key == a + ("\\\0" + b) == a + "\\" + "\0" + b;
    assert ("\\\0" + b)[2..] == b;
    ScanSafeConcat(a, "\\\0" + b);
    ScanSafeConcat(a, "\\");
    OneMemberParses(key);
    CStringCut(a + "\\", b);
    PrintedAgain(OneMember(key), 0);
    var v := Parse(OneMember(key), 0).value;
    assert v.members[0].key == a + "\\";
  }
}
