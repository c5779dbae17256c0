/** Expressions as text: a printer with as few parentheses as the precedences allow, and the
    proof that lexing and parsing its output gives the tree back. */
module SqlText {
  import opened Chars
  import opened Lexer
  import opened Pratt

  // ---------- trees that have a text ----------

  /** The spelling of the twelve infix operators the lexer can produce. */
  function Symbol(k: TokenType): string {
    match k
    case PLUS => "+"
    case MINUS => "-"
    case ASTERISK => "*"
    case SLASH => "/"
    case MODULO => "%"
    case AND => "and"
    case OR => "or"
    case LT => "<"
    case GT => ">"
    case LE => "<="
    case GE => ">="
    case EQ => "="
    case _ => ""
  }

  predicate IsOperator(t: Token) {
    IsInfix(t.kind) && t.kind != NE && t.literal == Symbol(t.kind)
  }

  predicate Printable(e: Tree) {
    match e
    case IntegerNode(n) => n <= LONG_MAX
    case StringNode(v) => '\0' !in v
    case NullNode => true
    case Prefix(op, r) => op == NEGATE && Printable(r)
    case Infix(op, l, r) => IsOperator(op) && Printable(l) && Printable(r)
    case _ => false
  }

  /** How tightly the top of a tree binds. */
  function Level(e: Tree): nat {
    match e
    case Infix(op, _, _) => Precedence(op.kind)
    case Prefix(_, _) => PREFIX
    case _ => PREFIX + 1
  }

  // ---------- printing ----------

  const OPEN := Token(LPAREN, "(")
  const CLOSE := Token(RPAREN, ")")
  const NEGATE := Token(MINUS, "-")

  function Print(e: Tree): (ts: seq<Token>)
    requires Printable(e)
    ensures ts != []
    decreases e, 0
  {
    match e
    case IntegerNode(n) => [Token(INTEGER, DecimalText(n))]
    case StringNode(v) => [Token(STRING, v)]
    case NullNode => [Token(NULL, "null")]
    case Prefix(op, r) => [op] + Wrapped(r, PREFIX)
    case Infix(op, l, r) => Wrapped(l, Precedence(op.kind)) + [op] + Wrapped(r, Precedence(op.kind) + 1)
  }

  /** Parentheses only around a tree that binds less than required. */
  function Wrapped(e: Tree, required: nat): (ts: seq<Token>)
    requires Printable(e)
    ensures ts != []
    decreases e, 1
  {
    if Level(e) < required then [OPEN] + Print(e) + [CLOSE] else Print(e)
  }

  // ---------- parsing the tokens back ----------

  /** The cursor with ts[0] current. */
  function CursorOf(ts: seq<Token>): Cursor
    requires ts != []
  {
    Cursor(ts[0], if |ts| > 1 then ts[1] else END, if |ts| > 2 then ts[2..] else [], 0)
  }

  lemma NextCursor(t: Token, ts: seq<Token>)
    requires ts != []
    ensures CursorOf([t] + ts).Next() == CursorOf(ts)
  {
    assert ([t] + ts)[2..] == ts[1..];
  }

  /** What may follow an operand: anything that does not bind tighter than required. */
  predicate Follows(k: seq<Token>, required: nat) {
    k != [] && k[0].kind != SEMICOLON && Precedence(k[0].kind) <= required
  }

  function LastOf(ts: seq<Token>): Token
    requires ts != []
  {
    ts[|ts| - 1]
  }

  lemma LevelBounds(e: Tree)
    requires Printable(e)
    ensures 1 <= Level(e) && (e.Infix? ==> Level(e) <= 4 && e.op.kind != SEMICOLON)
  {
  }

  /** Parsing the tokens of a tree, followed by k, is carrying on the loop with the tree in
      hand and its last token current. */
  lemma {:induction false} ParsePrinted(e: Tree, p: nat, k: seq<Token>)
    requires Printable(e) && (e.Infix? ==> p < Level(e)) && Follows(k, Level(e))
    ensures ParseExpression(CursorOf(Print(e) + k), p) == Climb(CursorOf([LastOf(Print(e))] + k), p, e)
    decreases e, 1, 0
  {
    if e.Infix? {
      ParsePrintedInfix(e, p, k);
    } else if e.Prefix? {
      ParsePrintedPrefix(e, p, k);
    } else {
      ParsePrintedLeaf(e, p, k);
    }
  }

  lemma ParsePrintedLeaf(e: Tree, p: nat, k: seq<Token>)
    requires Printable(e) && !e.Infix? && !e.Prefix? && Follows(k, Level(e))
    ensures ParseExpression(CursorOf(Print(e) + k), p) == Climb(CursorOf([LastOf(Print(e))] + k), p, e)
  {
    hide Climb, ParseExpression, ParseOperand, HasPrefixFn, CursorOf, Follows;
    LeafOperand(e, k);
    ExpressionOfLeaf(CursorOf(Print(e) + k), p, e);
  }

  lemma LeafOperand(e: Tree, k: seq<Token>)
    requires Printable(e) && !e.Infix? && !e.Prefix? && Follows(k, Level(e))
    ensures var c := CursorOf(Print(e) + k);
            HasPrefixFn(c.curr.kind) && ParseOperand(c) == (e, c) && c == CursorOf([LastOf(Print(e))] + k)
  {
    hide ParseExpression, Decimal, DecimalText, Precedence;
    if e.IntegerNode? {
      DecimalRoundTrip(e.value);
    }
  }

  lemma ExpressionOfLeaf(c: Cursor, p: nat, e: Tree)
    requires HasPrefixFn(c.curr.kind) && ParseOperand(c) == (e, c)
    ensures ParseExpression(c, p) == Climb(c, p, e)
  {
    hide Climb, ParseOperand;
  }

  lemma {:induction false} ParsePrintedPrefix(e: Tree, p: nat, k: seq<Token>)
    requires Printable(e) && e.Prefix? && Follows(k, Level(e))
    ensures ParseExpression(CursorOf(Print(e) + k), p) == Climb(CursorOf([LastOf(Print(e))] + k), p, e)
    decreases e, 0
  {
    hide ParseExpression, Climb, CursorOf, Wrapped, Printable, Precedence, Print, LastOf, Level, Cursor.Next;
    PrefixTokens(e, k);
    var w := Wrapped(e.right, PREFIX);
    NextCursor(NEGATE, w + k);
    ParseWrapped(e.right, PREFIX, PREFIX, k);
    ClimbStops(w, k, PREFIX, e.right);
    ExpressionOfPrefix(CursorOf([NEGATE] + (w + k)), p, e.right, CursorOf([LastOf(w)] + k));
  }

  lemma PrefixTokens(e: Tree, k: seq<Token>)
    requires Printable(e) && e.Prefix? && Follows(k, Level(e))
    ensures Printable(e.right) && e == Prefix(NEGATE, e.right) && Follows(k, PREFIX)
    ensures var w := Wrapped(e.right, PREFIX);
            Print(e) + k == [NEGATE] + (w + k) && LastOf(Print(e)) == LastOf(w)
    ensures Precedence(k[0].kind) <= PREFIX && CursorOf([NEGATE] + (Wrapped(e.right, PREFIX) + k)).curr == NEGATE
  {
    hide Wrapped;
  }

  /** parse_expression on a minus sign. */
  lemma ExpressionOfPrefix(c: Cursor, p: nat, r: Tree, d: Cursor)
    requires c.curr == NEGATE && ParseExpression(c.Next(), PREFIX) == (r, d)
    ensures ParseExpression(c, p) == Climb(d, p, Prefix(NEGATE, r))
  {
  }

  lemma {:induction false} ParsePrintedInfix(e: Tree, p: nat, k: seq<Token>)
    requires Printable(e) && e.Infix? && p < Level(e) && Follows(k, Level(e))
    ensures ParseExpression(CursorOf(Print(e) + k), p) == Climb(CursorOf([LastOf(Print(e))] + k), p, e)
    decreases e, 0
  {
    var q, t := Precedence(e.op.kind), e.op;
    LevelBounds(e);
    var wl, wr := Wrapped(e.left, q), Wrapped(e.right, q + 1);
    hide ParseExpression, Climb, CursorOf, Wrapped, Printable, Precedence, Print, LastOf, Level;
    InfixTokens(e, k);
    ParseWrapped(e.left, q, p, [t] + (wr + k));
    ParseWrapped(e.right, q + 1, q, k);
    ClimbStops(wr, k, q, e.right);
    ClimbOperator(LastOf(wl), t, wr + k, p, e.left, e.right, CursorOf([LastOf(wr)] + k));
  }

  lemma InfixTokens(e: Tree, k: seq<Token>)
    requires Printable(e) && e.Infix?
    ensures var wl, wr := Wrapped(e.left, Precedence(e.op.kind)), Wrapped(e.right, Precedence(e.op.kind) + 1);
            Print(e) + k == wl + ([e.op] + (wr + k)) && LastOf(Print(e)) == LastOf(wr)
    ensures Level(e) == Precedence(e.op.kind) && IsOperator(e.op)
  {
    hide Wrapped, Precedence, IsOperator;
  }

  lemma {:induction false} ParseWrapped(e: Tree, required: nat, p: nat, k: seq<Token>)
    requires Printable(e) && (p < required || required >= PREFIX) && Follows(k, required)
    ensures var w := Wrapped(e, required);
            ParseExpression(CursorOf(w + k), p) == Climb(CursorOf([LastOf(w)] + k), p, e)
    decreases e, 2
  {
    LevelBounds(e);
    if Level(e) < required {
      ParseParenthesised(e, p, k);
      assert Wrapped(e, required) == [OPEN] + Print(e) + [CLOSE];
    } else {
      ParsePrinted(e, p, k);
    }
  }

  lemma {:induction false} ParseParenthesised(e: Tree, p: nat, k: seq<Token>)
    requires Printable(e) && k != []
    ensures ParseExpression(CursorOf([OPEN] + Print(e) + [CLOSE] + k), p) == Climb(CursorOf([CLOSE] + k), p, e)
    decreases e, 1, 1
  {
    var inner, after := Print(e), [CLOSE] + k;
    LevelBounds(e);
    assert Precedence(CLOSE.kind) == LOWEST;
    hide Climb, Print, Printable, ParseExpression, Level, Precedence, Wrapped;
    assert [OPEN] + inner + [CLOSE] + k == [OPEN] + (inner + after);
    NextCursor(OPEN, inner + after);
    ParsePrinted(e, LOWEST, after);
    ClimbStops(inner, after, LOWEST, e);
    NextCursor(LastOf(inner), after);
    assert CursorOf([LastOf(inner)] + after).peek == CLOSE;
    ExpressionOfGroup(CursorOf([OPEN] + (inner + after)), p, e, CursorOf([LastOf(inner)] + after));
  }

  /** parse_expression on an opening parenthesis that gets closed. */
  lemma ExpressionOfGroup(c: Cursor, p: nat, e: Tree, d: Cursor)
    requires c.curr == OPEN && ParseExpression(c.Next(), LOWEST) == (e, d) && d.peek == CLOSE
    ensures ParseExpression(c, p) == Climb(d.Next(), p, e)
  {
    hide ParseOperand, Climb, Cursor.Next;
    OperandOfGroup(c, e, d);
  }

  lemma OperandOfGroup(c: Cursor, e: Tree, d: Cursor)
    requires c.curr == OPEN && ParseExpression(c.Next(), LOWEST) == (e, d) && d.peek == CLOSE
    ensures ParseOperand(c) == (e, d.Next())
  {
    hide ParseExpression, Cursor.Next;
  }

  /** The loop ends before a token that does not bind tighter. */
  lemma ClimbStops(w: seq<Token>, k: seq<Token>, p: nat, e: Tree)
    requires w != [] && k != [] && Precedence(k[0].kind) <= p
    ensures Climb(CursorOf([LastOf(w)] + k), p, e) == (e, CursorOf([LastOf(w)] + k))
  {
  }

  /** The loop takes an operator that binds tighter and goes on behind its right operand. */
  lemma ClimbOperator(last: Token, t: Token, ts: seq<Token>, p: nat, l: Tree, r: Tree, d: Cursor)
    requires ts != [] && p < Precedence(t.kind) && t.kind != SEMICOLON
    requires ParseExpression(CursorOf(ts), Precedence(t.kind)) == (r, d)
    ensures Climb(CursorOf([last] + ([t] + ts)), p, l) == Climb(d, p, Infix(t, l, r))
  {
    NextCursor(last, [t] + ts);
    NextCursor(t, ts);
  }

  // ---------- from tokens to text ----------

  function EscapeChar(c: char): string {
    match c
    case '\n' => "\\n"
    case '\r' => "\\r"
    case '\t' => "\\t"
    case '"' => "\\\""
    case '\\' => "\\\\"
    case _ => [c]
  }

  function Escape(v: string): string {
    if v == "" then "" else EscapeChar(v[0]) + Escape(v[1..])
  }

  function TokenText(t: Token): string {
    if t.kind == STRING then "\"" + Escape(t.literal) + "\"" else t.literal
  }

  /** A space before every token. */
  function Render(ts: seq<Token>): string {
    if ts == [] then "" else " " + TokenText(ts[0]) + Render(ts[1..])
  }

  /** The tokens the printer uses. */
  predicate Lexable(t: Token) {
    match t.kind
    case INTEGER => t.literal != "" && forall k :: 0 <= k < |t.literal| ==> IsDigit(t.literal[k])
    case STRING => '\0' !in t.literal
    case NULL => t.literal == "null"
    case LPAREN => t.literal == "("
    case RPAREN => t.literal == ")"
    case _ => IsOperator(t)
  }

  ghost predicate AllLexable(ts: seq<Token>) {
    forall t :: t in ts ==> Lexable(t)
  }

  lemma LexableConcat(a: seq<Token>, b: seq<Token>)
    requires AllLexable(a) && AllLexable(b)
    ensures AllLexable(a + b)
  {
  }

  lemma {:induction false} PrintLexable(e: Tree)
    requires Printable(e)
    ensures AllLexable(Print(e))
    decreases e, 0
  {
    match e
    case Prefix(op, r) =>
      WrapLexable(r, PREFIX);
      hide Lexable, Wrapped, Printable;
      OperatorLexable(op);
      LexableConcat([op], Wrapped(r, PREFIX));
    case Infix(op, l, r) =>
      WrapLexable(l, Precedence(op.kind));
      WrapLexable(r, Precedence(op.kind) + 1);
      OperatorLexable(op);
      hide Lexable, Wrapped, Printable;
      LexableConcat(Wrapped(l, Precedence(op.kind)), [op]);
      LexableConcat(Wrapped(l, Precedence(op.kind)) + [op], Wrapped(r, Precedence(op.kind) + 1));
    case _ =>
  }

  lemma OperatorLexable(t: Token)
    requires IsOperator(t)
    ensures AllLexable([t])
  {
  }

  lemma {:induction false} WrapLexable(e: Tree, required: nat)
    requires Printable(e)
    ensures AllLexable(Wrapped(e, required))
    decreases e, 1
  {
    PrintLexable(e);
    assert AllLexable([OPEN]) && AllLexable([CLOSE]);
    hide Lexable, Print;
    LexableConcat([OPEN], Print(e));
    LexableConcat([OPEN] + Print(e), [CLOSE]);
  }

  /** text stands in s at j, and a space or the end of s follows. */
  ghost predicate Standing(s: string, j: nat, text: string) {
    Stands(s, j, text) && (j + |text| == |s| || s[j + |text|] == ' ')
  }

  lemma {:induction false} WordRun(s: string, i: nat, e: nat)
    requires i <= e <= |s| && forall k :: i <= k < e ==> IsLetter(s[k])
    requires !IsDigit(CharAt(s, e)) && !IsLetter(CharAt(s, e))
    ensures WordEnd(s, i) == e
    decreases e - i
  {
    if i < e {
      WordRun(s, i + 1, e);
    }
  }

  lemma {:induction false} LexEscaped(s: string, i: nat, v: string)
    requires '\0' !in v && i + |Escape(v)| < |s|
    requires Stands(s, i, Escape(v)) && s[i + |Escape(v)|] == '"'
    ensures DoubleQuoted(s, i) == (v, i + |Escape(v)| + 1)
    decreases |v|
  {
    hide EscapeChar, DoubleQuoted;
    if v == "" {
      LexClosingQuote(s, i);
    } else {
      var x, y := EscapeChar(v[0]), Escape(v[1..]);
      assert Escape(v) == x + y;
      assert v[0] in v;
      hide Escape;
      StandsSplit(s, i, x, y);
      LexEscaped(s, i + |x|, v[1..]);
      LexEscapedChar(s, i, v[0]);
      assert v == [v[0]] + v[1..];
    }
  }

  lemma LexClosingQuote(s: string, i: nat)
    requires i < |s| && s[i] == '"'
    ensures DoubleQuoted(s, i) == ("", i + 1)
  {
  }

  /** One character inside the quotes. */
  lemma LexEscapedChar(s: string, i: nat, c: char)
    requires c != '\0' && Stands(s, i, EscapeChar(c))
    ensures var r := DoubleQuoted(s, i + |EscapeChar(c)|);
            DoubleQuoted(s, i) == ([c] + r.0, r.1)
  {
    var x := EscapeChar(c);
    StandsChars(s, i, x);
    assert s[i] == x[0];
    assert |x| > 1 ==> s[i + 1] == x[1];
  }

  /** Token t is what the lexer finds at j. */
  ghost predicate LexesTo(s: string, j: nat, t: Token, length: nat) {
    !IsSpace(CharAt(s, j)) && LexFrom(s, j) == (t, j + length)
  }

  lemma LexInteger(s: string, j: nat, t: Token)
    requires Lexable(t) && t.kind == INTEGER && Standing(s, j, t.literal)
    ensures t.literal != "" && LexesTo(s, j, t, |t.literal|)
  {
    var text := t.literal;
    StandsChars(s, j, text);
    assert s[j] == text[0];
    forall k | j + 1 <= k < j + |text|
      ensures IsDigit(s[k])
    {
      assert text[k - j] == s[k];
    }
    DigitsRun(s, j + 1, j + |text|);
  }

  lemma LexString(s: string, j: nat, t: Token)
    requires Lexable(t) && t.kind == STRING && Standing(s, j, TokenText(t))
    ensures LexesTo(s, j, t, |TokenText(t)|)
  {
    hide DoubleQuoted, Escape;
    var text, x := TokenText(t), Escape(t.literal);
    StandsChars(s, j, text);
    assert s[j] == text[0] == '"';
    assert s[j + 1..j + 1 + |x|] == text[1..1 + |x|] == x;
    assert s[j + 1 + |x|] == text[1 + |x|] == '"';
    LexEscaped(s, j + 1, t.literal);
  }

  lemma LexKeyword(s: string, j: nat, t: Token)
    requires Lexable(t) && Standing(s, j, t.literal) && (t.kind == NULL || t.kind == AND || t.kind == OR)
    ensures t.literal != "" && LexesTo(s, j, t, |t.literal|)
  {
    hide Lexable, Keyword, Lower, Escape, DoubleQuoted, LexFrom;
    var text := t.literal;
    KeywordLetters(t);
    LettersStand(s, j, text);
    WordRun(s, j + 1, j + |text|);
    LexLetter(s, j);
  }

  /** The lexer at a letter. */
  lemma LexLetter(s: string, j: nat)
    requires j < |s| && IsLetter(s[j])
    ensures !IsSpace(CharAt(s, j)) && LexFrom(s, j) == LexWord(s, j)
  {
    hide LexWord;
  }

  lemma LettersStand(s: string, j: nat, text: string)
    requires Stands(s, j, text) && forall k :: 0 <= k < |text| ==> IsLetter(text[k])
    ensures forall k :: j <= k < j + |text| ==> IsLetter(s[k])
  {
    forall k | j <= k < j + |text|
      ensures IsLetter(s[k])
    {
      StandsChars(s, j, text);
      assert text[k - j] == s[k];
    }
  }

  lemma KeywordLetters(t: Token)
    requires Lexable(t) && (t.kind == NULL || t.kind == AND || t.kind == OR)
    ensures t.literal != "" && Lower(t.literal) == t.literal && Keyword(t.literal) == t.kind
    ensures forall k :: 0 <= k < |t.literal| ==> IsLetter(t.literal[k])
  {
    assert t.literal == "null" || t.literal == "and" || t.literal == "or";
  }

  lemma LexSymbol(s: string, j: nat, t: Token)
    requires Lexable(t) && Standing(s, j, t.literal)
    requires t.kind != NULL && t.kind != AND && t.kind != OR && t.kind != INTEGER && t.kind != STRING
    ensures t.literal != "" && LexesTo(s, j, t, |t.literal|)
  {
    var text := t.literal;
    assert 1 <= |text| <= 2;
    StandsChars(s, j, text);
    assert s[j] == text[0];
    assert |text| == 2 ==> s[j + 1] == text[1];
  }

  /** Each kind of token lexes back, up to the space or the end behind it. */
  lemma LexOne(s: string, j: nat, t: Token)
    requires Lexable(t) && Standing(s, j, TokenText(t))
    ensures TokenText(t) != "" && LexesTo(s, j, t, |TokenText(t)|)
  {
    hide LexesTo, Lexable, Escape, Standing, Keyword, LexFrom;
    if t.kind == INTEGER {
      LexInteger(s, j, t);
    } else if t.kind == STRING {
      LexString(s, j, t);
    } else if t.kind == NULL || t.kind == AND || t.kind == OR {
      LexKeyword(s, j, t);
    } else {
      LexSymbol(s, j, t);
    }
  }

  /** Lexing what was rendered. */
  lemma {:induction false} LexRendered(s: string, i: nat, ts: seq<Token>)
    requires AllLexable(ts)
    requires i <= |s| && s[i..] == Render(ts)
    ensures Tokens(s, i) == ts + [END]
    decreases |ts|
  {
    hide LexesTo, TokenText, Lexable, Tokens;
    if ts == [] {
      LexEnd(s, i);
    } else {
      var text, rest := TokenText(ts[0]), Render(ts[1..]);
      assert ts[0] in ts;
      SpacedParts(s, i, text, rest);
      LexOne(s, i + 1, ts[0]);
      LexRendered(s, i + 1 + |text|, ts[1..]);
      TokensCons(s, i, ts[0], |text|);
      assert [ts[0]] + (ts[1..] + [END]) == ts + [END];
    }
  }

  lemma SpacedParts(s: string, i: nat, text: string, rest: string)
    requires i <= |s| && s[i..] == " " + text + rest
    ensures i + 1 + |text| <= |s| && s[i] == ' ' && s[i + 1 + |text|..] == rest
    ensures s[i + 1..i + 1 + |text|] == text && (rest != "" ==> s[i + 1 + |text|] == rest[0])
  {
    var all := " " + text + rest;
    assert |all| == 1 + |text| + |rest|;
    assert s[i] == s[i..][0];
    assert s[i + 1..i + 1 + |text|] == all[1..1 + |text|] == text;
    assert s[i + 1 + |text|..] == all[1 + |text|..] == rest;
    if rest != "" {
      assert s[i + 1 + |text|] == s[i + 1 + |text|..][0];
    }
  }

  lemma TokensCons(s: string, i: nat, t: Token, length: nat)
    requires i < |s| && s[i] == ' ' && LexesTo(s, i + 1, t, length)
    ensures Tokens(s, i) == [t] + Tokens(s, i + 1 + length)
  {
    hide LexFrom;
    assert SkipSpace(s, i + 1) == i + 1;
    assert SkipSpace(s, i) == i + 1;
  }

  lemma LexEnd(s: string, i: nat)
    requires i == |s|
    ensures Tokens(s, i) == [END]
  {
    assert SkipSpace(s, i) == i;
    assert Tokens(s, i + 1) == [];
  }

  /** The text round trip: printing a tree and parsing the text gives the same tree, records
      no error and stops at the end of the text. */
  lemma TextRoundTrip(e: Tree)
    requires Printable(e)
    ensures var r := ParseExpression(Start(Tokens(Render(Print(e)), 0)), LOWEST);
            r.0 == e && r.1.errors == 0 && r.1.peek == END
  {
    hide Print, Render, ParseExpression, Tokens, Printable, Lexable, AllLexable, CursorOf, Start;
    var ts := Print(e);
    var s := Render(ts);
    PrintLexable(e);
    assert s[0..] == s;
    LexRendered(s, 0, ts);
    StartCursor(ts + [END]);
    ParseTokens(e);
  }

  lemma LastCursor(t: Token)
    ensures CursorOf([t] + [END]) == Cursor(t, END, [], 0)
  {
  }

  /** The tokens of a tree and the end mark parse to the tree. */
  lemma ParseTokens(e: Tree)
    requires Printable(e)
    ensures var r := ParseExpression(CursorOf(Print(e) + [END]), LOWEST);
            r.0 == e && r.1.errors == 0 && r.1.peek == END
  {
    LevelBounds(e);
    assert Precedence(END.kind) == LOWEST;
    hide Print, ParseExpression, Climb, Printable, Level, Precedence, CursorOf, LastOf;
    ParsePrinted(e, LOWEST, [END]);
    ClimbStops(Print(e), [END], LOWEST, e);
    LastCursor(LastOf(Print(e)));
  }

  lemma StartCursor(ts: seq<Token>)
    requires |ts| >= 2
    ensures Start(ts) == CursorOf(ts)
  {
  }

  /** Two trees with one text are one tree. */
  lemma TextDetermines(a: Tree, b: Tree)
    requires Printable(a) && Printable(b) && Render(Print(a)) == Render(Print(b))
    ensures a == b
  {
    hide Print, Render, ParseExpression, Tokens, Printable;
    TextRoundTrip(a);
    TextRoundTrip(b);
  }

  /** `x op y op2 z` with two operators of one level, be they and and or, groups to the left. */
  lemma LeftAssociative(x: Tree, op: Token, y: Tree, op2: Token, z: Tree)
    requires IsOperator(op) && IsOperator(op2) && Precedence(op.kind) == Precedence(op2.kind)
    requires Printable(x) && Printable(y) && Printable(z)
    requires Level(x) > Precedence(op.kind) && Level(y) > Precedence(op.kind) && Level(z) > Precedence(op.kind)
    ensures var ts := Print(x) + [op] + Print(y) + [op2] + Print(z);
            ParseExpression(Start(Tokens(Render(ts), 0)), LOWEST).0 == Infix(op2, Infix(op, x, y), z)
  {
    hide Render, ParseExpression, Tokens, Start, Printable, Print, Level, Precedence, IsOperator;
    LeftPrint(x, op, y, op2, z);
    TextRoundTrip(Infix(op2, Infix(op, x, y), z));
  }

  /** The printer puts no parentheses around a left operand of the same level. */
  lemma LeftPrint(x: Tree, op: Token, y: Tree, op2: Token, z: Tree)
    requires IsOperator(op) && IsOperator(op2) && Precedence(op.kind) == Precedence(op2.kind)
    requires Printable(x) && Printable(y) && Printable(z)
    requires Level(x) > Precedence(op.kind) && Level(y) > Precedence(op.kind) && Level(z) > Precedence(op.kind)
    ensures var e := Infix(op2, Infix(op, x, y), z);
            Printable(e) && Print(e) == Print(x) + [op] + Print(y) + [op2] + Print(z)
  {
    hide Printable, Level, Precedence, Wrapped, Print, IsOperator;
    TightPrint(op, x, y);
    TightPrint(op2, Infix(op, x, y), z);
  }

  lemma TightPrint(op: Token, l: Tree, r: Tree)
    requires IsOperator(op) && Printable(l) && Printable(r)
    requires Level(l) >= Precedence(op.kind) && Level(r) > Precedence(op.kind)
    ensures Printable(Infix(op, l, r)) && Print(Infix(op, l, r)) == Print(l) + [op] + Print(r)
    ensures Level(Infix(op, l, r)) == Precedence(op.kind)
  {
    hide Level, Precedence, IsOperator;
    assert Wrapped(l, Precedence(op.kind)) == Print(l) && Wrapped(r, Precedence(op.kind) + 1) == Print(r);
    assert Level(Infix(op, l, r)) == Precedence(op.kind) by {
      LevelOf(op, l, r);
    }
  }

  lemma LevelOf(op: Token, l: Tree, r: Tree)
    ensures Level(Infix(op, l, r)) == Precedence(op.kind)
  {
  }

  /** As text: two operators between numbers, strings and nulls group by how tightly they bind, and
      to the left where they bind alike. */
  lemma OperatorsGroup(x: Token, op: Token, y: Token, op2: Token, z: Token)
    requires IsLeaf(x) && IsLeaf(y) && IsLeaf(z) && Lexable(x) && Lexable(y) && Lexable(z)
    requires IsOperator(op) && IsOperator(op2)
    ensures ParseExpression(Start(Tokens(Render([x, op, y, op2, z]), 0)), 0).0 ==
            if Tighter(op2.kind, op.kind) then Infix(op, Leaf(x), Infix(op2, Leaf(y), Leaf(z)))
            else Infix(op2, Infix(op, Leaf(x), Leaf(y)), Leaf(z))
  {
    hide Render, ParseExpression, Tokens, Start, Lexable, IsOperator, Tighter, Leaf, IsLeaf;
    OperatorBinary(op);
    OperatorBinary(op2);
    var ts := [x, op, y, op2, z];
    var s := Render(ts);
    assert s[0..] == s;
    LexRendered(s, 0, ts);
    assert ts + [END] == [x, op, y, op2, z, END];
    TwoOperators(x, op, y, op2, z);
  }

  lemma OperatorBinary(op: Token)
    requires IsOperator(op)
    ensures IsBinary(op.kind) && Lexable(op)
  {
  }

  /** And a minus sign in front takes only what stands next to it. */
  lemma MinusGroups(x: Token, op: Token, y: Token)
    requires IsLeaf(x) && IsLeaf(y) && Lexable(x) && Lexable(y) && IsOperator(op)
    ensures ParseExpression(Start(Tokens(Render([NEGATE, x, op, y]), 0)), 0).0 ==
            Infix(op, Prefix(NEGATE, Leaf(x)), Leaf(y))
  {
    hide Render, ParseExpression, Tokens, Start, Lexable, IsOperator, Leaf, IsLeaf;
    OperatorBinary(op);
    NegateOperator();
    OperatorBinary(NEGATE);
    var ts := [NEGATE, x, op, y];
    var s := Render(ts);
    assert s[0..] == s;
    LexRendered(s, 0, ts);
    assert ts + [END] == [NEGATE, x, op, y, END];
    MinusBinds(NEGATE, x, op, y);
  }

  lemma NegateOperator()
    ensures IsOperator(NEGATE) && NEGATE.kind == MINUS
  {
  }

  // ---------- what parsing gives has a text ----------

  /** What the lexer makes: operators in their spelling, strings without the zero character, and no
      identifiers, as a word that is no keyword becomes a string. */
  predicate Lexed(t: Token) {
    && (IsInfix(t.kind) ==> IsOperator(t))
    && (t.kind == STRING ==> '\0' !in t.literal)
    && t.kind != IDENTIFIER
  }

  ghost predicate AllLexed(ts: seq<Token>) {
    forall t :: t in ts ==> Lexed(t)
  }

  lemma {:induction false} SingleQuotedPlain(s: string, i: nat)
    ensures '\0' !in SingleQuoted(s, i).0
    decreases |s| - i
  {
    var c := CharAt(s, i);
    if c != '\'' && c != '\0' {
      SingleQuotedPlain(s, if c == '\\' && CharAt(s, i + 1) == '\'' then i + 2 else i + 1);
    }
  }

  lemma {:induction false} DoubleQuotedPlain(s: string, i: nat)
    ensures '\0' !in DoubleQuoted(s, i).0
    decreases |s| - i
  {
    var c := CharAt(s, i);
    if c != '"' && c != '\0' {
      DoubleQuotedPlain(s, if c == '\\' && IsEscape(CharAt(s, i + 1)) then i + 2 else i + 1);
    }
  }

  lemma {:induction false} WordPlain(s: string, i: nat, j: nat)
    requires i <= j <= WordEnd(s, i) && WordEnd(s, i) <= |s|
    ensures '\0' !in s[i..j]
    decreases j - i
  {
    if i < j {
      WordPlain(s, i + 1, j);
      assert s[i..j] == [s[i]] + s[i + 1..j];
    }
  }

  lemma WordLexed(s: string, j: nat)
    requires j < |s| && IsLetter(s[j])
    ensures Lexed(LexWord(s, j).0)
  {
    var e := WordEnd(s, j + 1);
    WordPlain(s, j, e);
    KeywordKinds(Lower(s[j..e]));
  }

  lemma KeywordKinds(word: string)
    ensures Keyword(word) != STRING && (IsInfix(Keyword(word)) ==> IsOperator(Token(Keyword(word), word)))
  {
  }

  lemma LexFromLexed(s: string, j: nat)
    requires !IsSpace(CharAt(s, j))
    ensures Lexed(LexFrom(s, j).0)
  {
    hide Lexed, LexWord, LexNumber, SingleQuoted, DoubleQuoted;
    ArithmeticLexed();
    StrictLexed();
    OrEqualLexed();
    StringLexed(s, j + 1);
    if j < |s| && IsLetter(s[j]) {
      WordLexed(s, j);
    } else if j < |s| && IsDigit(s[j]) {
      NumberLexed(s, j);
    } else {
      var t := LexFrom(s, j).0;
      if !IsInfix(t.kind) && t.kind != STRING && t.kind != IDENTIFIER {
        OthersLexed(t);
      }
    }
  }

  lemma ArithmeticLexed()
    ensures Lexed(Token(PLUS, "+")) && Lexed(Token(MINUS, "-"))
    ensures Lexed(Token(ASTERISK, "*")) && Lexed(Token(SLASH, "/")) && Lexed(Token(MODULO, "%"))
  {
  }

  lemma StrictLexed()
    ensures Lexed(Token(LT, "<")) && Lexed(Token(GT, ">")) && Lexed(Token(EQ, "="))
  {
  }

  lemma OrEqualLexed()
    ensures Lexed(Token(LE, "<=")) && Lexed(Token(GE, ">="))
  {
  }

  lemma OthersLexed(t: Token)
    requires !IsInfix(t.kind) && t.kind != STRING && t.kind != IDENTIFIER
    ensures Lexed(t)
  {
    hide IsOperator;
  }

  lemma StringLexed(s: string, i: nat)
    ensures Lexed(Token(STRING, SingleQuoted(s, i).0)) && Lexed(Token(STRING, DoubleQuoted(s, i).0))
  {
    SingleQuotedPlain(s, i);
    DoubleQuotedPlain(s, i);
  }

  lemma NumberLexed(s: string, j: nat)
    requires j < |s| && IsDigit(s[j])
    ensures Lexed(LexNumber(s, j).0)
  {
  }

  lemma {:induction false} TokensLexed(s: string, i: nat)
    ensures AllLexed(Tokens(s, i))
    decreases if i > |s| then 0 else |s| + 1 - i
  {
    hide Lexed, LexFrom;
    if i <= |s| {
      LexFromLexed(s, SkipSpace(s, i));
      TokensLexed(s, LexAt(s, i).1);
    }
  }

  ghost predicate CursorLexed(c: Cursor) {
    Lexed(c.curr) && Lexed(c.peek) && AllLexed(c.rest)
  }

  lemma NextLexed(c: Cursor)
    requires CursorLexed(c)
    ensures CursorLexed(c.Next())
  {
  }

  lemma {:induction false} SkipLexed(c: Cursor)
    requires CursorLexed(c)
    ensures CursorLexed(SkipSemicolons(c))
    decreases |c.rest|, c.peek.kind == SEMICOLON
  {
    if c.peek.kind == SEMICOLON {
      NextLexed(c);
      SkipLexed(c.Next());
    }
  }

  /** No floating-point number and no statement stands in the tree. */
  predicate Plain(e: Tree) {
    match e
    case FloatNode(_) => false
    case Statement(_) => false
    case Prefix(_, r) => Plain(r)
    case Infix(_, l, r) => Plain(l) && Plain(r)
    case _ => true
  }

  predicate HasText(e: Tree) {
    Plain(e) ==> Printable(e)
  }

  /** Parsing from c to d gave e: a step that recorded no error gave a tree with a text. */
  ghost predicate Sound(c: Cursor, e: Tree, d: Cursor) {
    CursorLexed(d) && d.errors >= c.errors && (d.errors == c.errors ==> HasText(e))
  }

  lemma {:induction false} ExpressionSound(c: Cursor, p: nat)
    requires CursorLexed(c)
    ensures var (e, d) := ParseExpression(c, p); Sound(c, e, d)
    decreases c.Left(), 2
  {
    hide ParseOperand, Climb, HasText, CursorLexed;
    if HasPrefixFn(c.curr.kind) {
      OperandSound(c);
      var (e, d) := ParseOperand(c);
      ClimbSound(d, p, e);
    } else {
      ErrorLexed(c);
    }
  }

  lemma ErrorLexed(c: Cursor)
    requires CursorLexed(c)
    ensures CursorLexed(c.Error())
  {
  }

  lemma {:induction false} OperandSound(c: Cursor)
    requires CursorLexed(c) && HasPrefixFn(c.curr.kind)
    ensures var (e, d) := ParseOperand(c); Sound(c, e, d)
    decreases c.Left(), 1
  {
    hide ParseExpression, AllLexed;
    if c.curr.kind == LPAREN {
      NextLexed(c);
      ExpressionSound(c.Next(), LOWEST);
      NextLexed(ParseExpression(c.Next(), LOWEST).1);
    } else if c.curr.kind == MINUS {
      NextLexed(c);
      ExpressionSound(c.Next(), PREFIX);
    } else if c.curr.kind == NULL {
      SkipLexed(c);
    }
  }

  lemma {:induction false} ClimbSound(c: Cursor, p: nat, e: Tree)
    requires CursorLexed(c)
    ensures var (t, d) := Climb(c, p, e); CursorLexed(d) && d.errors >= c.errors &&
                                          (d.errors == c.errors && HasText(e) ==> HasText(t))
    decreases c.Left(), 0
  {
    hide ParseExpression, AllLexed;
    if c.peek.kind != SEMICOLON && p < Precedence(c.peek.kind) {
      var op := c.Next();
      assert op.curr.kind != EOF;
      NextLexed(c);
      NextLexed(op);
      ExpressionSound(op.Next(), Precedence(op.curr.kind));
      var (right, d) := ParseExpression(op.Next(), Precedence(op.curr.kind));
      ClimbSound(d, p, Infix(op.curr, e, right));
    }
  }

  /** Of the texts that parse without an error exactly those without floating-point numbers and
      statements give a tree that can be printed, and its printed form parses to it again. */
  lemma PrintedAgain(text: string)
    requires ParseExpression(Start(Tokens(text, 0)), LOWEST).1.errors == 0
    ensures var e := ParseExpression(Start(Tokens(text, 0)), LOWEST).0;
            && (Printable(e) <==> Plain(e))
            && (Plain(e) ==>
                  var again := ParseExpression(Start(Tokens(Render(Print(e)), 0)), LOWEST);
                  again.0 == e && again.1.errors == 0 && again.1.peek == END)
  {
    hide ParseExpression, Tokens, Render, Print, Start;
    var e := ParseExpression(Start(Tokens(text, 0)), LOWEST).0;
    TokensLexed(text, 0);
    StartLexed(Tokens(text, 0));
    ExpressionSound(Start(Tokens(text, 0)), LOWEST);
    PrintablePlain(e);
    if Plain(e) {
      TextRoundTrip(e);
    }
  }

  lemma StartLexed(ts: seq<Token>)
    requires AllLexed(ts)
    ensures CursorLexed(Start(ts)) && Start(ts).errors == 0
  {
  }

  lemma {:induction false} PrintablePlain(e: Tree)
    ensures Printable(e) ==> Plain(e)
  {
    match e
    case Prefix(_, r) => PrintablePlain(r);
    case Infix(_, l, r) =>
      PrintablePlain(l);
      PrintablePlain(r);
    case _ =>
  }

  /** The lexer and the parser together on a text. */
  method ParseText(text: string) returns (e: Tree, errors: nat)
    ensures var r := ParseExpression(Start(Tokens(text, 0)), LOWEST);
            e == r.0 && errors == r.1.errors
  {
    hide ParseExpression, Tokens;
    var scanner := new Scanner(text);
    var parser := new Parser(scanner);
    e := parser.Parse(LOWEST);
    errors := parser.errors;
  }
}
