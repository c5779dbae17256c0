/** The JSON values of json/json.cpp and the parser of json/parser.cpp. String texts stay as they
    are written, escapes are passed over, never decoded. */
module Json {
  import opened Bytes
  import opened Chars

  datatype Value =
    | Null
    | Bool(b: bool)
    | Int(n: int32)
    | Str(text: string)
    | Arr(items: seq<Value>)
    | Obj(members: seq<Member>)

  /** An entry of the std::map an object holds; members are kept in the order of the map. */
  datatype Member = Member(key: string, value: Value)

  // ---------- the keys of an object ----------

  ghost predicate Sorted(ms: seq<Member>) {
    forall j, k :: 0 <= j < k < |ms| ==> Less(ms[j].key, ms[k].key)
  }

  /** `m[key] = v` on the map. */
  function Assign(ms: seq<Member>, key: string, v: Value): seq<Member> {
    if ms == [] then [Member(key, v)]
    else if ms[0].key == key then [Member(key, v)] + ms[1..]
    else if Less(key, ms[0].key) then [Member(key, v)] + ms
    else [ms[0]] + Assign(ms[1..], key, v)
  }

  function Find(ms: seq<Member>, key: string): Option<Value> {
    if ms == [] then None
    else if ms[0].key == key then Some(ms[0].value)
    else Find(ms[1..], key)
  }

  /** Assignment changes one key only and keeps the order of the map. */
  lemma {:induction false} AssignFinds(ms: seq<Member>, key: string, v: Value, other: string)
    requires Sorted(ms)
    ensures Find(Assign(ms, key, v), other) == if other == key then Some(v) else Find(ms, other)
  {
    if ms != [] && ms[0].key != key {
      AssignFinds(ms[1..], key, v, other);
    }
  }

  lemma {:induction false} AssignSorted(ms: seq<Member>, key: string, v: Value)
    requires Sorted(ms)
    ensures Sorted(Assign(ms, key, v))
    ensures forall m :: m in Assign(ms, key, v) ==> m == Member(key, v) || m in ms
  {
    if ms == [] || ms[0].key == key {
    } else if Less(key, ms[0].key) {
      forall k | 0 <= k < |ms|
        ensures Less(key, ms[k].key)
      {
        if k > 0 {
          LessTransitive(key, ms[0].key, ms[k].key);
        }
      }
    } else {
      AssignSorted(ms[1..], key, v);
      LessTotal(key, ms[0].key);
      var tail := Assign(ms[1..], key, v);
      forall k | 0 <= k < |tail|
        ensures Less(ms[0].key, tail[k].key)
      {
        assert tail[k] in tail;
      }
    }
  }

  lemma {:induction false} AssignLast(ms: seq<Member>, key: string, v: Value)
    requires forall m :: m in ms ==> Less(m.key, key)
    ensures Assign(ms, key, v) == ms + [Member(key, v)]
  {
    if ms != [] {
      assert ms[0] in ms;
      LessTotal(ms[0].key, key);
      AssignLast(ms[1..], key, v);
    }
  }

  /** append: anything that is not an array becomes one first. */
  function Append(v: Value, x: Value): Value {
    if v.Arr? then Arr(v.items + [x]) else Arr([x])
  }

  /** `v[key] = x` through the C string overload of operator[]: anything that is not an object
      becomes one first. */
  function Put(v: Value, key: string, x: Value): Value {
    if v.Obj? then Obj(Assign(v.members, CString(key, '\0'), x)) else Obj([Member(CString(key, '\0'), x)])
  }

  // ---------- printing ----------

  function Join(texts: seq<string>): string {
    if texts == [] then ""
    else if |texts| == 1 then texts[0]
    else texts[0] + "," + Join(texts[1..])
  }

  function IntText(n: int): string {
    if n < 0 then "-" + DecimalText(-n) else DecimalText(n)
  }

  function Print(v: Value): (s: string)
  {
    match v
    case Null => "null"
    case Bool(b) => if b then "true" else "false"
    case Int(n) => IntText(n)
    case Str(t) => "\"" + t + "\""
    case Arr(items) => "[" + Join(ItemTexts(v)) + "]"
    case Obj(members) => "{" + Join(MemberTexts(v)) + "}"
  }

  function ItemTexts(v: Value): (ts: seq<string>)
    requires v.Arr?
    ensures |ts| == |v.items|
    ensures forall k :: 0 <= k < |ts| ==> ts[k] == Print(v.items[k])
    decreases v, 0
  {
    seq(|v.items|, k requires 0 <= k < |v.items| => Print(v.items[k]))
  }

  function MemberTexts(v: Value): (ts: seq<string>)
    requires v.Obj?
    ensures |ts| == |v.members|
    ensures forall k :: 0 <= k < |ts| ==> ts[k] == "\"" + v.members[k].key + "\":" + Print(v.members[k].value)
    decreases v, 0
  {
    seq(|v.members|, k requires 0 <= k < |v.members| =>
      "\"" + v.members[k].key + "\":" + Print(v.members[k].value))
  }

  /** An item more is printed behind a comma, before the closing bracket. */
  lemma PrintItem(items: seq<Value>, x: Value)
    ensures Print(Arr([])) == "[]" && Print(Arr([x])) == "[" + Print(x) + "]"
    ensures items != [] ==>
              var s := Print(Arr(items));
              s != "" && Print(Arr(items + [x])) == s[..|s| - 1] + "," + Print(x) + "]"
  {
    hide Print, Join;
    var ts := ItemTexts(Arr(items));
    assert ItemTexts(Arr(items + [x])) == ts + [Print(x)];
    assert ItemTexts(Arr([x])) == [Print(x)];
    PrintArray([]);
    PrintArray([x]);
    PrintArray(items);
    PrintArray(items + [x]);
    JoinShort(Print(x));
    if items != [] {
      JoinSnoc(ts, Print(x));
    }
  }

  lemma PrintArray(items: seq<Value>)
    ensures Print(Arr(items)) == "[" + Join(ItemTexts(Arr(items))) + "]"
  {
  }

  /** And so a member, with its key in quotes and a colon. */
  lemma PrintMember(ms: seq<Member>, m: Member)
    ensures Print(Obj([])) == "{}" && Print(Obj([m])) == "{\"" + m.key + "\":" + Print(m.value) + "}"
    ensures ms != [] ==>
              var s := Print(Obj(ms));
              s != "" && Print(Obj(ms + [m])) == s[..|s| - 1] + ",\"" + m.key + "\":" + Print(m.value) + "}"
  {
    hide Print, Join;
    var ts, last := MemberTexts(Obj(ms)), "\"" + m.key + "\":" + Print(m.value);
    assert MemberTexts(Obj(ms + [m])) == ts + [last];
    assert MemberTexts(Obj([m])) == [last];
    PrintObject([]);
    PrintObject([m]);
    PrintObject(ms);
    PrintObject(ms + [m]);
    JoinShort(last);
    assert "{" + last == "{\"" + m.key + "\":" + Print(m.value);
    if ms != [] {
      JoinSnoc(ts, last);
      assert "," + last == ",\"" + m.key + "\":" + Print(m.value);
    }
  }

  lemma PrintObject(ms: seq<Member>)
    ensures Print(Obj(ms)) == "{" + Join(MemberTexts(Obj(ms))) + "}"
  {
  }

  lemma JoinShort(t: string)
    ensures Join([]) == "" && Join([t]) == t
  {
  }

  lemma {:induction false} JoinSnoc(ts: seq<string>, t: string)
    requires ts != []
    ensures Join(ts + [t]) == Join(ts) + "," + t
  {
    if |ts| > 1 {
      assert (ts + [t])[1..] == ts[1..] + [t];
      JoinSnoc(ts[1..], t);
    } else {
      assert (ts + [t])[1..] == [t];
    }
  }

  // ---------- parsing, by positions ----------

  datatype Error =
    | EndOfInput | UnexpectedCharacter | NullError | BoolError | NumberError | FractionError
    | CommaExpected | QuoteExpected | ColonExpected
    | PastTheEnd   // an escape led behind the end, where the source reads out of bounds
    | IsDouble     // a number with a fraction, not part of this model

  /** next is where the parser stands afterwards. */
  datatype Outcome<+T> = Ok(value: T, next: nat) | Fail(error: Error)

  /** get_next_token. */
  function NextToken(s: string, i: nat): (r: Outcome<char>)
    ensures r.Ok? ==> i < r.next <= |s| && r.value == s[r.next - 1] && !IsSpace(r.value)
  {
    if i > |s| then Fail(PastTheEnd) else
    var j := SkipSpace(s, i);
    SkipInside(s, i);
    if j == |s| then Fail(EndOfInput) else Ok(s[j], j + 1)
  }

  lemma {:induction false} SkipInside(s: string, i: nat)
    requires i <= |s|
    ensures i <= SkipSpace(s, i) <= |s|
    decreases |s| - i
  {
    if i < |s| && IsSpace(s[i]) {
      SkipInside(s, i + 1);
    }
  }

  predicate Literal(s: string, i: nat, word: string) {
    i + |word| <= |s| && s[i..i + |word|] == word
  }

  /** parse_string from i on, the text having started at start. White space is passed over but
      stays in the text. */
  function ParseString(s: string, start: nat, i: nat): (r: Outcome<string>)
    requires start <= i
    ensures r.Ok? ==> i < r.next <= |s| && r.value == s[start..r.next - 1]
    decreases |s| - i
  {
    match NextToken(s, i)
    case Fail(e) => Fail(e)
    case Ok(c, j) =>
      if c == '"' then Ok(s[start..j - 1], j)
      else if c == '\\' then ParseString(s, start, if CharAt(s, j) == 'u' then j + 5 else j + 1)
      else ParseString(s, start, j)
  }

  /** atoi, clamped as strtol does and then cut to an int. */
  function Atoi(s: string, i: nat): int32
    requires i < |s|
  {
    var negative := s[i] == '-';
    var start := if negative then i + 1 else i;
    var n: int := Decimal(s[start..DigitsEnd(s, start)]);
    Trunc32(if negative then (if n > 0x8000_0000_0000_0000 then -0x8000_0000_0000_0000 else -n)
            else (if n > 0x7FFF_FFFF_FFFF_FFFF then 0x7FFF_FFFF_FFFF_FFFF else n))
  }

  /** A number that no 64 bits hold reads as -1, or as 0 with a minus sign in front. */
  lemma AtoiClamps(s: string, i: nat)
    requires i < |s| && IsDigit(s[i]) && Decimal(s[i..DigitsEnd(s, i)]) >= 0x7FFF_FFFF_FFFF_FFFF
    ensures Atoi(s, i) == -1
    ensures i > 0 && s[i - 1] == '-' && Decimal(s[i..DigitsEnd(s, i)]) > 0x7FFF_FFFF_FFFF_FFFF ==> Atoi(s, i - 1) == 0
  {
  }

  function ParseNumber(s: string, i: nat): (r: Outcome<Value>)
    requires i < |s| && (s[i] == '-' || IsDigit(s[i]))
    ensures r.Ok? ==> i < r.next <= |s| && r.value.Int?
  {
    var j := if s[i] == '-' then i + 1 else i;
    if !IsDigit(CharAt(s, j)) then Fail(NumberError) else
    var e := if s[j] == '0' then j + 1 else DigitsEnd(s, j + 1);
    if CharAt(s, e) != '.' then Ok(Int(Atoi(s, i)), e)
    else if IsDigit(CharAt(s, e + 1)) then Fail(IsDouble)
    else Fail(FractionError)
  }

  /** A number that starts with a zero ends there, although its value takes in the digits behind. */
  lemma LeadingZero(s: string, i: nat)
    requires i < |s| && s[i] == '0' && CharAt(s, i + 1) != '.'
    ensures ParseNumber(s, i) == Ok(Int(Atoi(s, i)), i + 1)
  {
  }

  function ParseNull(s: string, i: nat): (r: Outcome<Value>)
    ensures r.Ok? ==> i < r.next <= |s| && r.value.Null?
  {
    if Literal(s, i, "null") then Ok(Null, i + 4) else Fail(NullError)
  }

  function ParseBool(s: string, i: nat): (r: Outcome<Value>)
    ensures r.Ok? ==> i < r.next <= |s| && r.value.Bool?
  {
    if Literal(s, i, "true") then Ok(Bool(true), i + 4)
    else if Literal(s, i, "false") then Ok(Bool(false), i + 5)
    else Fail(BoolError)
  }

  function ParseText(s: string, i: nat): (r: Outcome<Value>)
    ensures r.Ok? ==> i < r.next <= |s| && r.value.Str?
  {
    match ParseString(s, i, i)
    case Ok(t, k) => Ok(Str(t), k)
    case Fail(e) => Fail(e)
  }

  function Parse(s: string, i: nat): (r: Outcome<Value>)
    ensures r.Ok? ==> i < r.next <= |s|
    decreases |s| - i, 1
  {
    match NextToken(s, i)
    case Fail(e) => Fail(e)
    case Ok(c, j) =>
      if c == 'n' then ParseNull(s, j - 1)
      else if c == 't' || c == 'f' then ParseBool(s, j - 1)
      else if c == '-' || IsDigit(c) then ParseNumber(s, j - 1)
      else if c == '"' then ParseText(s, j)
      else if c == '[' then ParseArray(s, j)
      else if c == '{' then ParseObject(s, j)
      else Fail(UnexpectedCharacter)
  }

  /** Behind the opening bracket. */
  function ParseArray(s: string, i: nat): (r: Outcome<Value>)
    ensures r.Ok? ==> i < r.next <= |s|
    decreases |s| - i, 4
  {
    match NextToken(s, i)
    case Fail(e) => Fail(e)
    case Ok(c, j) => if c == ']' then Ok(Arr([]), j) else ParseItems(s, j - 1, Arr([]))
  }

  /** Behind the opening brace. */
  function ParseObject(s: string, i: nat): (r: Outcome<Value>)
    ensures r.Ok? ==> i < r.next <= |s|
    decreases |s| - i, 4
  {
    match NextToken(s, i)
    case Fail(e) => Fail(e)
    case Ok(c, j) => if c == '}' then Ok(Obj([]), j) else ParseMembers(s, j - 1, Obj([]))
  }

  /** The loop of parse_array, arr holding the values so far. */
  function ParseItems(s: string, i: nat, arr: Value): (r: Outcome<Value>)
    ensures r.Ok? ==> i < r.next <= |s|
    decreases |s| - i, 2
  {
    match Parse(s, i)
    case Fail(e) => Fail(e)
    case Ok(v, j) =>
      match NextToken(s, j)
      case Fail(e) => Fail(e)
      case Ok(c, k) =>
        if c == ']' then Ok(Append(arr, v), k)
        else if c == ',' then ParseItems(s, k, Append(arr, v))
        else Fail(CommaExpected)
  }

  /** A quoted key, a colon and a value. */
  function ParseMember(s: string, i: nat): (r: Outcome<Member>)
    ensures r.Ok? ==> i < r.next <= |s|
    decreases |s| - i, 2
  {
    match NextToken(s, i)
    case Fail(e) => Fail(e)
    case Ok(q, a) =>
      if q != '"' then Fail(QuoteExpected) else
      match ParseString(s, a, a)
      case Fail(e) => Fail(e)
      case Ok(key, b) =>
        match NextToken(s, b)
        case Fail(e) => Fail(e)
        case Ok(colon, d) =>
          if colon != ':' then Fail(ColonExpected) else
          match Parse(s, d)
          case Fail(e) => Fail(e)
          case Ok(v, j) => Ok(Member(key, v), j)
  }

  /** The loop of parse_object, obj holding the members so far. */
  function ParseMembers(s: string, i: nat, obj: Value): (r: Outcome<Value>)
    ensures r.Ok? ==> i < r.next <= |s|
    decreases |s| - i, 3
  {
    match ParseMember(s, i)
    case Fail(e) => Fail(e)
    case Ok(m, j) =>
      match NextToken(s, j)
      case Fail(e) => Fail(e)
      case Ok(c, k) =>
        if c == '}' then Ok(Put(obj, m.key, m.value), k)
        else if c == ',' then ParseMembers(s, k, Put(obj, m.key, m.value))
        else Fail(CommaExpected)
  }

  // ---------- the parser object ----------

  class Parser {
    const str: string
    var idx: nat

    constructor (text: string)
      ensures str == text && idx == 0
    {
      str := text;
      idx := 0;
    }

    method GetNextToken() returns (r: Outcome<char>)
      modifies this
      ensures r == NextToken(str, old(idx)) && (r.Ok? ==> idx == r.next)
    {
      if idx > |str| {
        return Fail(PastTheEnd);
      }
      SkipInside(str, idx);
      while IsSpace(CharAt(str, idx))
        invariant old(idx) <= idx <= |str| && SkipSpace(str, idx) == SkipSpace(str, old(idx))
        decreases |str| - idx
      {
        idx := idx + 1;
      }
      if idx == |str| {
        return Fail(EndOfInput);
      }
      idx := idx + 1;
      r := Ok(str[idx - 1], idx);
    }

    method ReadString() returns (r: Outcome<string>)
      modifies this
      ensures r == ParseString(str, old(idx), old(idx)) && (r.Ok? ==> idx == r.next)
    {
      var start := idx;
      while true
        invariant start <= idx && ParseString(str, start, idx) == ParseString(str, start, start)
        decreases |str| - idx
      {
        var token := GetNextToken();
        if token.Fail? {
          return Fail(token.error);
        }
        if token.value == '"' {
          return Ok(str[start..idx - 1], idx);
        }
        if token.value == '\\' {
          var escaped := CharAt(str, idx);
          idx := idx + 1;
          if escaped == 'u' {
            idx := idx + 4;
          }
        }
      }
    }

    method ReadNumber() returns (r: Outcome<Value>)
      requires idx < |str| && (str[idx] == '-' || IsDigit(str[idx]))
      modifies this
      ensures r == ParseNumber(str, old(idx)) && (r.Ok? ==> idx == r.next)
    {
      var pos := idx;
      if str[idx] == '-' {
        idx := idx + 1;
      }
      if CharAt(str, idx) == '0' {
        idx := idx + 1;
      } else if '1' <= CharAt(str, idx) <= '9' {
        idx := idx + 1;
        ghost var first := idx;
        while IsDigit(CharAt(str, idx))
          invariant first <= idx <= |str| && DigitsEnd(str, idx) == DigitsEnd(str, first)
          decreases |str| - idx
        {
          idx := idx + 1;
        }
      } else {
        return Fail(NumberError);
      }
      if CharAt(str, idx) != '.' {
        return Ok(Int(Atoi(str, pos)), idx);
      }
      idx := idx + 1;
      r := if IsDigit(CharAt(str, idx)) then Fail(IsDouble) else Fail(FractionError);
    }

    method Read() returns (r: Outcome<Value>)
      modifies this
      ensures r == Parse(str, old(idx)) && (r.Ok? ==> idx == r.next)
      decreases |str| - idx, 1
    {
      hide NextToken, ParseNull, ParseBool, ParseNumber, ParseString, ParseArray, ParseObject;
      var token := GetNextToken();
      if token.Fail? {
        return Fail(token.error);
      }
      match token.value {
        case 'n' =>
          idx := idx - 1;
          r := ReadNull();
        case 't' | 'f' =>
          idx := idx - 1;
          r := ReadBool();
        case '"' =>
          var text := ReadString();
          r := if text.Ok? then Ok(Str(text.value), idx) else Fail(text.error);
        case '[' =>
          r := ReadArray();
        case '{' =>
          r := ReadObject();
        case _ =>
          if token.value == '-' || IsDigit(token.value) {
            idx := idx - 1;
            r := ReadNumber();
          } else {
            r := Fail(UnexpectedCharacter);
          }
      }
    }

    method ReadNull() returns (r: Outcome<Value>)
      modifies this
      ensures r == ParseNull(str, old(idx)) && (r.Ok? ==> idx == r.next)
    {
      if Literal(str, idx, "null") {
        idx := idx + 4;
        return Ok(Null, idx);
      }
      r := Fail(NullError);
    }

    method ReadBool() returns (r: Outcome<Value>)
      modifies this
      ensures r == ParseBool(str, old(idx)) && (r.Ok? ==> idx == r.next)
    {
      if Literal(str, idx, "true") {
        idx := idx + 4;
        return Ok(Bool(true), idx);
      }
      if Literal(str, idx, "false") {
        idx := idx + 5;
        return Ok(Bool(false), idx);
      }
      r := Fail(BoolError);
    }

    /** Behind the opening bracket. */
    method ReadArray() returns (r: Outcome<Value>)
      modifies this
      ensures r == ParseArray(str, old(idx)) && (r.Ok? ==> idx == r.next)
      decreases |str| - idx, 4
    {
      hide Parse, Append;
      var arr := Arr([]);
      var token := GetNextToken();
      if token.Fail? {
        return Fail(token.error);
      }
      if token.value == ']' {
        return Ok(arr, idx);
      }
      idx := idx - 1;
      ghost var first := idx;
      while true
        invariant first <= idx <= |str| && ParseItems(str, idx, arr) == ParseItems(str, first, Arr([]))
        decreases |str| - idx
      {
        var v := Read();
        if v.Fail? {
          return Fail(v.error);
        }
        arr := Append(arr, v.value);
        token := GetNextToken();
        if token.Fail? {
          return Fail(token.error);
        }
        if token.value == ']' {
          break;
        }
        if token.value != ',' {
          return Fail(CommaExpected);
        }
      }
      r := Ok(arr, idx);
    }

    /** Behind the opening brace. */
    method ReadObject() returns (r: Outcome<Value>)
      modifies this
      ensures r == ParseObject(str, old(idx)) && (r.Ok? ==> idx == r.next)
      decreases |str| - idx, 4
    {
      hide Parse, Put;
      var obj := Obj([]);
      var token := GetNextToken();
      if token.Fail? {
        return Fail(token.error);
      }
      if token.value == '}' {
        return Ok(obj, idx);
      }
      idx := idx - 1;
      ghost var first := idx;
      while true
        invariant first <= idx <= |str| && ParseMembers(str, idx, obj) == ParseMembers(str, first, Obj([]))
        decreases |str| - idx
      {
        var m := ReadMember();
        if m.Fail? {
          return Fail(m.error);
        }
        obj := Put(obj, m.value.key, m.value.value);
        token := GetNextToken();
        if token.Fail? {
          return Fail(token.error);
        }
        if token.value == '}' {
          break;
        }
        if token.value != ',' {
          return Fail(CommaExpected);
        }
      }
      r := Ok(obj, idx);
    }

    method ReadMember() returns (r: Outcome<Member>)
      modifies this
      ensures r == ParseMember(str, old(idx)) && (r.Ok? ==> idx == r.next)
      decreases |str| - idx, 2
    {
      hide Parse;
      var token := GetNextToken();
      if token.Fail? {
        return Fail(token.error);
      }
      if token.value != '"' {
        return Fail(QuoteExpected);
      }
      var key := ReadString();
      if key.Fail? {
        return Fail(key.error);
      }
      token := GetNextToken();
      if token.Fail? {
        return Fail(token.error);
      }
      if token.value != ':' {
        return Fail(ColonExpected);
      }
      var v := Read();
      r := if v.Ok? then Ok(Member(key.value, v.value), idx) else Fail(v.error);
    }
  }
}
