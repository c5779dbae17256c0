/** The SQL lexer of lexer/lexer.cpp: a cursor with one character of lookahead that can be
    stepped back, over a string whose end reads as the zero character. */
module Lexer {
  import opened Chars

  datatype TokenType =
    | ILLEGAL | EOF | INTEGER | FLOAT | STRING
    | PLUS | MINUS | ASTERISK | SLASH | MODULO | DECREASE
    | AND | OR | LT | GT | LE | GE | EQ | NE
    | LPAREN | RPAREN | DOT | COMMA | SEMICOLON
    | IDENTIFIER | NULL
    | DATABASE | DATABASES | TABLE | TABLES | ENGINE
    | SHOW | USE | CREATE | INSERT | INTO | UPDATE | SELECT | TTL | FROM | WHERE
    | TSM | CLT | REDUCE | SYSTEM

  datatype Token = Token(kind: TokenType, literal: string)

  const END := Token(EOF, "EOF")

  function Keyword(word: string): TokenType {
    if word == "null" then NULL
    else if word == "and" then AND
    else if word == "or" then OR
    else if word == "database" then DATABASE
    else if word == "databases" then DATABASES
    else if word == "table" then TABLE
    else if word == "tables" then TABLES
    else if word == "show" then SHOW
    else if word == "use" then USE
    else if word == "engine" then ENGINE
    else if word == "create" then CREATE
    else if word == "insert" then INSERT
    else if word == "into" then INTO
    else if word == "update" then UPDATE
    else if word == "select" then SELECT
    else if word == "from" then FROM
    else if word == "where" then WHERE
    else if word == "ttl" then TTL
    else if word == "tsm" then TSM
    else if word == "clt" then CLT
    else if word == "system" then SYSTEM
    else if word in REDUCERS then REDUCE
    else IDENTIFIER
  }

  const REDUCERS: set<string> := {"sum", "count", "mean", "median", "min", "max", "mode", "stddev",
                                  "percentile", "first", "last"}

  predicate IsLetter(c: char) {
    'a' <= c <= 'z' || 'A' <= c <= 'Z' || c == '_'
  }

  function LowerChar(c: char): char {
    if 'A' <= c <= 'Z' then c - 'A' + 'a' else c
  }

  function Lower(s: string): (r: string)
    ensures |r| == |s| && forall k :: 0 <= k < |s| ==> r[k] == LowerChar(s[k])
  {
    seq(|s|, k requires 0 <= k < |s| => LowerChar(s[k]))
  }

  // ---------- the specification, by positions ----------

  function WordEnd(s: string, i: nat): (j: nat)
    ensures i <= j && (i <= |s| ==> j <= |s|)
    ensures !IsLetter(CharAt(s, j)) && !IsDigit(CharAt(s, j))
    decreases |s| - i
  {
    if i < |s| && (IsLetter(s[i]) || IsDigit(s[i])) then WordEnd(s, i + 1) else i
  }

  /** The text from i to the closing quote or the end, and the position behind it. */
  function SingleQuoted(s: string, i: nat): (r: (string, nat))
    ensures r.1 > i
    decreases |s| - i
  {
    var c := CharAt(s, i);
    if c == '\'' || c == '\0' then ("", i + 1)
    else if c == '\\' && CharAt(s, i + 1) == '\'' then
      var r := SingleQuoted(s, i + 2);
      (['\''] + r.0, r.1)
    else
      var r := SingleQuoted(s, i + 1);
      ([c] + r.0, r.1)
  }

  /** What a backslash before c stands for. */
  function Escaped(c: char): (r: char)
  {
    match c
    case 'n' => '\n'
    case 'r' => '\r'
    case 't' => '\t'
    case _ => c
  }

  predicate IsEscape(c: char) {
    c == 'n' || c == 'r' || c == 't' || c == '"' || c == '\\'
  }

  function DoubleQuoted(s: string, i: nat): (r: (string, nat))
    ensures r.1 > i
    decreases |s| - i
  {
    var c := CharAt(s, i);
    if c == '"' || c == '\0' then ("", i + 1)
    else if c == '\\' && IsEscape(CharAt(s, i + 1)) then
      var r := DoubleQuoted(s, i + 2);
      ([Escaped(CharAt(s, i + 1))] + r.0, r.1)
    else
      var r := DoubleQuoted(s, i + 1);
      ([c] + r.0, r.1)
  }

  /** One round of the loop over a single-quoted string, str being read already. */
  lemma SingleQuotedRound(s: string, i: nat, str: string)
    ensures var c := CharAt(s, i);
            if c == '\'' || c == '\0' then
              SingleQuoted(s, i) == ("", i + 1) && str + SingleQuoted(s, i).0 == str
            else
              var (d, j) := if c == '\\' && CharAt(s, i + 1) == '\'' then ('\'', i + 2) else (c, i + 1);
              && str + SingleQuoted(s, i).0 == str + [d] + SingleQuoted(s, j).0
              && SingleQuoted(s, i).1 == SingleQuoted(s, j).1
  {
  }

  /** One round of the loop over a double-quoted string, str being read already: the closing quote
      or the end, an escape, or a plain character. */
  lemma DoubleQuotedRound(s: string, i: nat, str: string)
    ensures var c := CharAt(s, i);
            if c == '"' || c == '\0' then
              DoubleQuoted(s, i) == ("", i + 1) && str + DoubleQuoted(s, i).0 == str
            else
              var (d, j) := if c == '\\' && IsEscape(CharAt(s, i + 1)) then (Escaped(CharAt(s, i + 1)), i + 2)
                            else (c, i + 1);
              && str + DoubleQuoted(s, i).0 == str + [d] + DoubleQuoted(s, j).0
              && DoubleQuoted(s, i).1 == DoubleQuoted(s, j).1
  {
  }

  /** The token that starts at the first character that is not a space, and where the next
      call goes on. */
  function LexAt(s: string, i: nat): (r: (Token, nat))
    ensures r.1 > i
  {
    LexFrom(s, SkipSpace(s, i))
  }

  function LexFrom(s: string, j: nat): (r: (Token, nat))
    requires !IsSpace(CharAt(s, j))
    ensures r.1 > j
  {
    var c := CharAt(s, j);
    match c
    case '+' => (Token(PLUS, "+"), j + 1)
    case '-' => if CharAt(s, j + 1) == '-' then (Token(DECREASE, "--"), j + 2) else (Token(MINUS, "-"), j + 1)
    case '*' => (Token(ASTERISK, "*"), j + 1)
    case '/' => (Token(SLASH, "/"), j + 1)
    case '%' => (Token(MODULO, "%"), j + 1)
    case '.' => (Token(DOT, "."), j + 1)
    case ',' => (Token(COMMA, ","), j + 1)
    case '<' => if CharAt(s, j + 1) == '=' then (Token(LE, "<="), j + 2) else (Token(LT, "<"), j + 1)
    case '>' => if CharAt(s, j + 1) == '=' then (Token(GE, ">="), j + 2) else (Token(GT, ">"), j + 1)
    case '=' => (Token(EQ, "="), j + 1)
    case '(' => (Token(LPAREN, "("), j + 1)
    case ')' => (Token(RPAREN, ")"), j + 1)
    case '\'' => var r := SingleQuoted(s, j + 1); (Token(STRING, r.0), r.1)
    case '"' => var r := DoubleQuoted(s, j + 1); (Token(STRING, r.0), r.1)
    case '\0' => (END, j + 1)
    case _ =>
      if IsDigit(c) then LexNumber(s, j)
      else if IsLetter(c) then LexWord(s, j)
      else (Token(ILLEGAL, [c]), j + 1)
  }

  function LexNumber(s: string, j: nat): (r: (Token, nat))
    requires j < |s| && IsDigit(s[j])
    ensures r.1 > j
  {
    var e := DigitsEnd(s, j + 1);
    if CharAt(s, e) == '.' && IsDigit(CharAt(s, e + 1)) then
      var f := DigitsEnd(s, e + 1);
      (Token(FLOAT, s[j..e] + "." + s[e + 1..f]), f)
    else
      (Token(INTEGER, s[j..e]), e)
  }

  function LexWord(s: string, j: nat): (r: (Token, nat))
    requires j < |s| && IsLetter(s[j])
    ensures r.1 > j
  {
    var e := WordEnd(s, j + 1);
    var word := s[j..e];
    var kind := Keyword(Lower(word));
    if kind != IDENTIFIER then (Token(kind, Lower(word)), e) else (Token(STRING, word), e)
  }

  /** Every token from i on; behind the end of the text there are only end tokens. */
  function Tokens(s: string, i: nat): seq<Token>
    decreases if i > |s| then 0 else |s| + 1 - i
  {
    if i > |s| then []
    else
      var r := LexAt(s, i);
      [r.0] + Tokens(s, r.1)
  }

  // ---------- words ----------

  predicate IsWordChar(c: char) {
    'a' <= c <= 'z' || 'A' <= c <= 'Z' || c == '_' || '0' <= c <= '9'
  }

  /** A word of n characters begins at i. */
  predicate WordAt(s: string, i: nat, n: nat) {
    && 0 < n && i + n <= |s| && !('0' <= s[i] <= '9')
    && (forall k :: i <= k < i + n ==> IsWordChar(s[k]))
    && (i + n < |s| ==> !IsWordChar(s[i + n]))
  }

  lemma {:induction false} WordEnds(s: string, i: nat, e: nat)
    requires i <= e <= |s| && (forall k :: i <= k < e ==> IsWordChar(s[k])) && (e < |s| ==> !IsWordChar(s[e]))
    ensures WordEnd(s, i) == e
    decreases e - i
  {
    if i < e {
      WordEnds(s, i + 1, e);
    }
  }

  /** A word becomes one token. If it is a keyword, in capitals or not, the token is the keyword in
      small letters; any other word is a string, spelt as it stands. */
  lemma WordSpelt(s: string, i: nat, n: nat)
    requires WordAt(s, i, n)
    ensures LexAt(s, i) ==
            var word := s[i..i + n];
            var kind := Keyword(Lower(word));
            (if kind == IDENTIFIER then Token(STRING, word) else Token(kind, Lower(word)), i + n)
  {
    hide Keyword, LowerChar;
    WordEnds(s, i, i + n);
    assert WordEnd(s, i + 1) == i + n by {
      WordEnds(s, i + 1, i + n);
    }
    assert SkipSpace(s, i) == i;
  }

  lemma CapitalsLowered(i: nat, c: char)
    requires i < 26
    ensures LowerChar("ABCDEFGHIJKLMNOPQRSTUVWXYZ"[i]) == "abcdefghijklmnopqrstuvwxyz"[i]
    ensures c < 'A' || 'Z' < c ==> LowerChar(c) == c
  {
  }

  /** The words of the language. */
  lemma QueryWords(word: string)
    ensures word == "select" ==> Keyword(word) == SELECT
    ensures word == "from" ==> Keyword(word) == FROM
    ensures word == "where" ==> Keyword(word) == WHERE
  {
  }

  lemma ChangeWords(word: string)
    ensures word == "insert" ==> Keyword(word) == INSERT
    ensures word == "into" ==> Keyword(word) == INTO
    ensures word == "update" ==> Keyword(word) == UPDATE
  {
  }

  lemma OperatorWords(word: string)
    ensures word == "and" ==> Keyword(word) == AND
    ensures word == "or" ==> Keyword(word) == OR
    ensures word == "null" ==> Keyword(word) == NULL
  {
  }

  lemma SchemaWords(word: string)
    ensures word == "show" ==> Keyword(word) == SHOW
    ensures word == "use" ==> Keyword(word) == USE
    ensures word == "create" ==> Keyword(word) == CREATE
    ensures word == "database" ==> Keyword(word) == DATABASE
    ensures word == "databases" ==> Keyword(word) == DATABASES
    ensures word == "table" ==> Keyword(word) == TABLE
    ensures word == "tables" ==> Keyword(word) == TABLES
  {
  }

  lemma EngineWords(word: string)
    ensures word == "engine" ==> Keyword(word) == ENGINE
    ensures word == "ttl" ==> Keyword(word) == TTL
    ensures word == "system" ==> Keyword(word) == SYSTEM
    ensures word == "tsm" ==> Keyword(word) == TSM
    ensures word == "clt" ==> Keyword(word) == CLT
  {
  }

  lemma SumWords(word: string)
    requires word == "sum" || word == "count"
    ensures Keyword(word) == REDUCE
  {
  }

  lemma MeanWords(word: string)
    requires word == "mean" || word == "median"
    ensures Keyword(word) == REDUCE
  {
  }

  lemma ExtremeWords(word: string)
    requires word == "min" || word == "max"
    ensures Keyword(word) == REDUCE
  {
  }

  lemma PlaceWords(word: string)
    requires word == "first" || word == "last"
    ensures Keyword(word) == REDUCE
  {
  }

  lemma SpreadWords(word: string)
    requires word == "mode" || word == "stddev"
    ensures Keyword(word) == REDUCE
  {
  }

  lemma PercentileWord(word: string)
    requires word == "percentile"
    ensures Keyword(word) == REDUCE
  {
  }

  /** There are no others. */
  lemma NoOtherWords(word: string)
    requires Keyword(word) != IDENTIFIER
    ensures word in {"select", "from", "where", "and", "or", "null", "insert", "into", "update",
                     "show", "use", "create", "database", "databases", "table", "tables",
                     "engine", "ttl", "system", "tsm", "clt", "sum", "count", "mean", "median",
                     "min", "max", "mode", "stddev", "percentile", "first", "last"}
  {
  }

  // ---------- signs ----------

  /** The signs that no operator is written with, and what is no sign at all. */
  lemma OtherSigns(s: string, i: nat)
    requires i < |s|
    ensures s[i] == '.' ==> LexAt(s, i) == (Token(DOT, "."), i + 1)
    ensures s[i] == ',' ==> LexAt(s, i) == (Token(COMMA, ","), i + 1)
    ensures s[i] == '-' && i + 1 < |s| && s[i + 1] == '-' ==> LexAt(s, i) == (Token(DECREASE, "--"), i + 2)
    ensures s[i] in {';', '!', '#', '&', '|', '[', ']', '{', '}'} ==> LexAt(s, i) == (Token(ILLEGAL, [s[i]]), i + 1)
  {
    if !IsSpace(s[i]) {
      assert SkipSpace(s, i) == i;
    }
  }

  // ---------- numbers ----------

  /** From i to j there are digits, and no more behind them. */
  predicate DigitsAt(s: string, i: nat, j: nat) {
    && i < j <= |s|
    && (forall k :: i <= k < j ==> '0' <= s[k] <= '9')
    && (j < |s| ==> !('0' <= s[j] <= '9'))
  }

  lemma Pointed(s: string, i: nat, j: nat, k: nat)
    requires i <= j < k <= |s| && s[j] == '.'
    ensures s[i..j] + "." + s[j + 1..k] == s[i..k]
  {
    assert s[i..k] == s[i..j] + [s[j]] + s[j + 1..k];
  }

  lemma DigitStarts(s: string, i: nat)
    requires i < |s| && IsDigit(s[i])
    ensures LexAt(s, i) == LexNumber(s, i)
  {
    hide LexNumber;
    assert SkipSpace(s, i) == i;
  }

  /** Digits are an integer, unless a point and more digits follow: then all of it is one float. */
  lemma NumberSpelt(s: string, i: nat, j: nat, k: nat)
    requires DigitsAt(s, i, j)
    ensures j < |s| && s[j] == '.' && DigitsAt(s, j + 1, k) ==> LexAt(s, i) == (Token(FLOAT, s[i..k]), k)
    ensures !(j + 1 < |s| && s[j] == '.' && '0' <= s[j + 1] <= '9') ==> LexAt(s, i) == (Token(INTEGER, s[i..j]), j)
  {
    hide LexFrom;
    DigitStarts(s, i);
    DigitsRun(s, i + 1, j);
    if j < |s| && s[j] == '.' && DigitsAt(s, j + 1, k) {
      DigitsRun(s, j + 1, k);
      Pointed(s, i, j, k);
    }
  }

  // ---------- the lexer object ----------

  class Scanner {
    const input: string
    var ch: char
    var pos: int
    var nextPos: nat

    /** ch is the character just read, at pos. */
    ghost predicate Reading()
      reads this
    {
      nextPos >= 1 && pos == nextPos - 1 && ch == CharAt(input, pos)
    }

    constructor (input: string)
      ensures this.input == input && nextPos == 0
    {
      this.input := input;
      ch, pos, nextPos := '\0', 0, 0;
    }

    method ReadChar()
      modifies this
      ensures nextPos == old(nextPos) + 1 && Reading()
    {
      ch := if nextPos >= |input| then '\0' else input[nextPos];
      pos := nextPos;
      nextPos := nextPos + 1;
    }

    method PeekChar() returns (c: char)
      ensures c == CharAt(input, nextPos)
    {
      c := if nextPos >= |input| then '\0' else input[nextPos];
    }

    method UnreadChar()
      requires pos >= 0
      modifies this
      ensures nextPos == old(pos) && pos == old(pos) - 1
    {
      nextPos := pos;
      pos := pos - 1;
    }

    method SkipWhiteSpace()
      requires Reading()
      modifies this
      ensures Reading() && pos == SkipSpace(input, old(pos))
    {
      while IsSpace(ch)
        invariant Reading() && SkipSpace(input, pos) == SkipSpace(input, old(pos))
        decreases |input| - pos
      {
        ReadChar();
      }
    }

    method ReadNumber() returns (literal: string)
      requires Reading() && pos <= |input|
      modifies this
      ensures Reading() && pos == DigitsEnd(input, old(pos)) && old(pos) <= pos <= |input|
      ensures literal == input[old(pos)..pos]
    {
      var start := pos;
      while IsDigit(ch)
        invariant Reading() && start <= pos <= |input| && DigitsEnd(input, pos) == DigitsEnd(input, start)
        decreases |input| - pos
      {
        ReadChar();
      }
      literal := input[start..pos];
    }

    method ReadIdentifier() returns (literal: string)
      requires Reading() && pos <= |input|
      modifies this
      ensures Reading() && pos == WordEnd(input, old(pos)) && old(pos) <= pos <= |input|
      ensures literal == input[old(pos)..pos]
    {
      var start := pos;
      while IsLetter(ch) || IsDigit(ch)
        invariant Reading() && start <= pos <= |input| && WordEnd(input, pos) == WordEnd(input, start)
        decreases |input| - pos
      {
        ReadChar();
      }
      literal := input[start..pos];
    }

    method ReadSingleQuoteString() returns (str: string)
      modifies this
      ensures (str, nextPos) == SingleQuoted(input, old(nextPos))
    {
      hide SingleQuoted;
      str := "";
      while true
        invariant var r, all := SingleQuoted(input, nextPos), SingleQuoted(input, old(nextPos));
                  str + r.0 == all.0 && r.1 == all.1
        decreases |input| - nextPos
      {
        SingleQuotedRound(input, nextPos, str);
        ReadChar();
        if ch == '\'' || ch == '\0' {
          return;
        }
        var ahead := PeekChar();
        if ch == '\\' && ahead == '\'' {
          ReadChar();
        }
        str := str + [ch];
      }
    }

    method ReadDoubleQuoteString() returns (str: string)
      modifies this
      ensures (str, nextPos) == DoubleQuoted(input, old(nextPos))
    {
      hide DoubleQuoted;
      str := "";
      while true
        invariant var r, all := DoubleQuoted(input, nextPos), DoubleQuoted(input, old(nextPos));
                  str + r.0 == all.0 && r.1 == all.1
        decreases |input| - nextPos
      {
        DoubleQuotedRound(input, nextPos, str);
        ReadChar();
        if ch == '"' || ch == '\0' {
          return;
        }
        if ch == '\\' {
          var ahead := PeekChar();
          if IsEscape(ahead) {
            ReadChar();
            ch := Escaped(ahead);
          }
        }
        str := str + [ch];
      }
    }

    method NextToken() returns (t: Token)
      modifies this
      ensures (t, nextPos) == LexAt(input, old(nextPos))
    {
      ReadChar();
      SkipWhiteSpace();
      t := ReadToken();
    }

    /** The switch of next_token. */
    method ReadToken() returns (t: Token)
      requires Reading() && !IsSpace(ch)
      modifies this
      ensures (t, nextPos) == LexFrom(input, old(pos))
    {
      var ahead := PeekChar();
      match ch
      case '+' => t := Token(PLUS, "+");
      case '-' =>
        if ahead == '-' {
          ReadChar();
          t := Token(DECREASE, "--");
        } else {
          t := Token(MINUS, "-");
        }
      case '*' => t := Token(ASTERISK, "*");
      case '/' => t := Token(SLASH, "/");
      case '%' => t := Token(MODULO, "%");
      case '.' => t := Token(DOT, ".");
      case ',' => t := Token(COMMA, ",");
      case '<' =>
        if ahead == '=' {
          ReadChar();
          t := Token(LE, "<=");
        } else {
          t := Token(LT, "<");
        }
      case '>' =>
        if ahead == '=' {
          ReadChar();
          t := Token(GE, ">=");
        } else {
          t := Token(GT, ">");
        }
      case '=' => t := Token(EQ, "=");
      case '(' => t := Token(LPAREN, "(");
      case ')' => t := Token(RPAREN, ")");
      case '\'' =>
        var text := ReadSingleQuoteString();
        t := Token(STRING, text);
      case '"' =>
        var text := ReadDoubleQuoteString();
        t := Token(STRING, text);
      case '\0' => t := END;
      case _ =>
        if IsDigit(ch) {
          t := ReadNumberToken();
        } else if IsLetter(ch) {
          t := ReadWordToken();
        } else {
          t := Token(ILLEGAL, [ch]);
        }
    }

    method ReadNumberToken() returns (t: Token)
      requires Reading() && pos < |input| && IsDigit(ch)
      modifies this
      ensures (t, nextPos) == LexNumber(input, old(pos))
    {
      var integer := ReadNumber();
      var ahead := PeekChar();
      if ch == '.' && IsDigit(ahead) {
        ReadChar();
        var fraction := ReadNumber();
        UnreadChar();
        return Token(FLOAT, integer + "." + fraction);
      }
      UnreadChar();
      return Token(INTEGER, integer);
    }

    method ReadWordToken() returns (t: Token)
      requires Reading() && pos < |input| && IsLetter(ch)
      modifies this
      ensures (t, nextPos) == LexWord(input, old(pos))
    {
      var word := ReadIdentifier();
      UnreadChar();
      var kind := Keyword(Lower(word));
      if kind != IDENTIFIER {
        return Token(kind, Lower(word));
      }
      return Token(STRING, word);
    }
  }
}
