/** The expression parser of the parser directory: precedence climbing over a token cursor with one
    token of lookahead. */
module Pratt {
  import opened Chars
  import opened Lexer

  /** The syntax tree, operators with their token; NoTree is the null pointer a failed parse leaves behind, Statement
      stands for whatever the statement parsers, not part of this model, would build. */
  datatype Tree =
    | NoTree
    | IntegerNode(value: nat)
    | FloatNode(literal: string)
    | StringNode(text: string)
    | NullNode
    | IdentifierNode(name: string)
    | Statement(kind: TokenType)
    | Prefix(op: Token, right: Tree)
    | Infix(op: Token, left: Tree, right: Tree)

  const LOWEST := 0
  const PREFIX := 5

  function Precedence(k: TokenType): (p: nat)
    ensures p <= 4
  {
    match k
    case PLUS | MINUS => 3
    case ASTERISK | SLASH | MODULO => 4
    case AND | OR => 1
    case LT | GT | LE | GE | EQ | NE => 2
    case _ => LOWEST
  }

  /** The keys of the infix table are exactly the operators with a precedence. */
  predicate IsInfix(k: TokenType) {
    match k
    case PLUS | MINUS | ASTERISK | SLASH | MODULO | AND | OR | LT | GT | LE | GE | EQ | NE => true
    case _ => false
  }

  lemma InfixHasPrecedence(k: TokenType)
    ensures IsInfix(k) <==> Precedence(k) > LOWEST
  {
  }

  /** atol on a run of digits, clamped as strtol does. */
  const LONG_MAX: nat := 0x7FFF_FFFF_FFFF_FFFF

  function Atol(s: string): nat {
    if Decimal(s) > LONG_MAX then LONG_MAX else Decimal(s)
  }

  // ---------- the specification ----------

  /** m_curr, m_peek, what the lexer still holds, and how many errors were recorded. */
  datatype Cursor = Cursor(curr: Token, peek: Token, rest: seq<Token>, errors: nat) {
    /** The tokens that are not the end, an upper bound of what can still be consumed. */
    function Left(): nat {
      |rest| + (if peek.kind == EOF then 0 else 1) + (if curr.kind == EOF then 0 else 1)
    }

    function Next(): (c: Cursor)
      ensures c.Left() <= Left() && c.errors == errors && c.curr == peek
      ensures curr.kind != EOF ==> c.Left() < Left()
    {
      Cursor(peek, if rest == [] then END else rest[0], if rest == [] then [] else rest[1..], errors)
    }

    function Error(): Cursor {
      this.(errors := errors + 1)
    }
  }

  /** parse_null passes over semicolons. */
  function SkipSemicolons(c: Cursor): (d: Cursor)
    ensures d.Left() <= c.Left() && d.errors == c.errors
    decreases |c.rest|, c.peek.kind == SEMICOLON
  {
    if c.peek.kind == SEMICOLON then SkipSemicolons(c.Next()) else c
  }

  /** The keys of the prefix table. */
  predicate HasPrefixFn(k: TokenType) {
    match k
    case INTEGER | FLOAT | STRING | NULL | IDENTIFIER | LPAREN | MINUS => true
    case SHOW | USE | CREATE | SELECT | INSERT | SYSTEM => true
    case _ => false
  }

  /** parse_expression. */
  function ParseExpression(c: Cursor, precedence: nat): (r: (Tree, Cursor))
    ensures r.1.Left() <= c.Left()
    decreases c.Left(), 2
  {
    if !HasPrefixFn(c.curr.kind) then (NoTree, c.Error())
    else
      var (e, d) := ParseOperand(c);
      Climb(d, precedence, e)
  }

  /** The function of the prefix table for the current token. */
  function ParseOperand(c: Cursor): (r: (Tree, Cursor))
    requires HasPrefixFn(c.curr.kind)
    ensures r.1.Left() <= c.Left()
    decreases c.Left(), 1
  {
    match c.curr.kind
    case INTEGER => (IntegerNode(Atol(c.curr.literal)), c)
    case FLOAT => (FloatNode(c.curr.literal), c)
    case STRING => (StringNode(c.curr.literal), c)
    case NULL => (NullNode, SkipSemicolons(c))
    case IDENTIFIER => (IdentifierNode(c.curr.literal), c)
    case LPAREN =>
      var (e, d) := ParseExpression(c.Next(), LOWEST);
      if d.peek.kind == RPAREN then (e, d.Next()) else (NoTree, d.Error())
    case MINUS =>
      var (e, d) := ParseExpression(c.Next(), PREFIX);
      (Prefix(c.curr, e), d)
    case _ => (Statement(c.curr.kind), c)
  }

  /** The loop of parse_expression: e is the tree so far. */
  function Climb(c: Cursor, precedence: nat, e: Tree): (r: (Tree, Cursor))
    ensures r.1.Left() <= c.Left()
    decreases c.Left(), 0
  {
    if c.peek.kind == SEMICOLON || precedence >= Precedence(c.peek.kind) then (e, c)
    else
      var op := c.Next();
      assert op.curr.kind != EOF;
      var (right, d) := ParseExpression(op.Next(), Precedence(op.curr.kind));
      Climb(d, precedence, Infix(op.curr, e, right))
  }

  /** How parse_expression starts. */
  lemma ExpressionStarts(c: Cursor, precedence: nat)
    ensures ParseExpression(c, precedence) ==
            if HasPrefixFn(c.curr.kind) then Climb(ParseOperand(c).1, precedence, ParseOperand(c).0)
            else (NoTree, c.Error())
  {
    hide ParseOperand, Climb;
  }

  /** One round of its loop. */
  lemma ClimbStep(c: Cursor, precedence: nat, e: Tree)
    ensures c.peek.kind == SEMICOLON || precedence >= Precedence(c.peek.kind) ==> Climb(c, precedence, e) == (e, c)
    ensures c.peek.kind != SEMICOLON && precedence < Precedence(c.peek.kind) ==>
              var op := c.Next();
              var (right, d) := ParseExpression(op.Next(), Precedence(op.curr.kind));
              op.curr.kind != EOF && Climb(c, precedence, e) == Climb(d, precedence, Infix(op.curr, e, right))
  {
    hide ParseExpression;
  }

  // ---------- how tightly the operators bind ----------

  const LOGIC: set<TokenType> := {AND, OR}
  const COMPARISONS: set<TokenType> := {LT, GT, LE, GE, EQ, NE}
  const SUMS: set<TokenType> := {PLUS, MINUS}
  const PRODUCTS: set<TokenType> := {ASTERISK, SLASH, MODULO}

  predicate IsBinary(k: TokenType) {
    k in LOGIC || k in COMPARISONS || k in SUMS || k in PRODUCTS
  }

  /** Operator k binds tighter than j. */
  predicate Tighter(k: TokenType, j: TokenType) {
    || (j in LOGIC && k !in LOGIC)
    || (j in COMPARISONS && (k in SUMS || k in PRODUCTS))
    || (j in SUMS && k in PRODUCTS)
  }

  lemma TighterPrecedes(k: TokenType, j: TokenType)
    requires IsBinary(k) && IsBinary(j)
    ensures Tighter(k, j) <==> Precedence(k) > Precedence(j)
    ensures 0 < Precedence(k) < PREFIX && k != SEMICOLON && k != EOF
  {
    LevelOfKind(k);
    LevelOfKind(j);
    hide Precedence;
  }

  lemma LevelOfKind(k: TokenType)
    requires IsBinary(k)
    ensures k !in {SEMICOLON, EOF}
    ensures Precedence(k) == if k in LOGIC then 1 else if k in COMPARISONS then 2 else if k in SUMS then 3 else 4
  {
  }

  predicate IsLeaf(t: Token) {
    t.kind == INTEGER || t.kind == STRING || t.kind == NULL
  }

  function Leaf(t: Token): Tree
    requires IsLeaf(t)
  {
    if t.kind == INTEGER then IntegerNode(Atol(t.literal)) else if t.kind == STRING then StringNode(t.literal)
    else NullNode
  }

  /** A leaf followed by something else is parsed to it, and the loop goes on. */
  lemma LeafClimbs(t: Token, next: Token, rest: seq<Token>, precedence: nat)
    requires IsLeaf(t) && next.kind != SEMICOLON
    ensures var c := Cursor(t, next, rest, 0);
            ParseExpression(c, precedence) == Climb(c, precedence, Leaf(t))
  {
    hide Climb, Atol;
    ExpressionStarts(Cursor(t, next, rest, 0), precedence);
  }

  /** The loop stops before an operator that binds no tighter, and at the end. */
  lemma LeafStops(t: Token, next: Token, rest: seq<Token>, precedence: nat)
    requires IsLeaf(t) && next.kind != SEMICOLON && Precedence(next.kind) <= precedence
    ensures var c := Cursor(t, next, rest, 0);
            ParseExpression(c, precedence) == (Leaf(t), c)
  {
    hide ParseExpression, Climb, Leaf, Precedence;
    LeafClimbs(t, next, rest, precedence);
    ClimbStep(Cursor(t, next, rest, 0), precedence, Leaf(t));
  }

  /** `x op y op2 z` is `x op (y op2 z)` if the second operator binds tighter, and `(x op y) op2 z`
      otherwise: and and or are one level, comparisons bind tighter, sums tighter still, and
      products tightest. */
  lemma TwoOperators(x: Token, op: Token, y: Token, op2: Token, z: Token)
    requires IsLeaf(x) && IsLeaf(y) && IsLeaf(z) && IsBinary(op.kind) && IsBinary(op2.kind)
    ensures ParseExpression(Start([x, op, y, op2, z, END]), 0) ==
            (if Tighter(op2.kind, op.kind) then Infix(op, Leaf(x), Infix(op2, Leaf(y), Leaf(z)))
             else Infix(op2, Infix(op, Leaf(x), Leaf(y)), Leaf(z)),
             Cursor(z, END, [], 0))
  {
    hide ParseExpression, Climb, Leaf, Precedence, Tighter, IsBinary, IsLeaf;
    TighterPrecedes(op2.kind, op.kind);
    TighterPrecedes(op.kind, op2.kind);
    EndStops();
    LeafKinds(x);
    var c, d, last := Cursor(x, op, [y, op2, z, END], 0), Cursor(y, op2, [z, END], 0), Cursor(z, END, [], 0);
    assert Start([x, op, y, op2, z, END]) == c;
    LeafClimbs(x, op, [y, op2, z, END], 0);
    ClimbStep(c, 0, Leaf(x));
    assert c.Next().Next() == d;
    assert d.Next().Next() == last;
    if Tighter(op2.kind, op.kind) {
      LeafClimbs(y, op2, [z, END], Precedence(op.kind));
      ClimbStep(d, Precedence(op.kind), Leaf(y));
      LeafStops(z, END, [], Precedence(op2.kind));
      ClimbStep(last, Precedence(op.kind), Infix(op2, Leaf(y), Leaf(z)));
      ClimbStep(last, 0, Infix(op, Leaf(x), Infix(op2, Leaf(y), Leaf(z))));
    } else {
      LeafStops(y, op2, [z, END], Precedence(op.kind));
      ClimbStep(d, 0, Infix(op, Leaf(x), Leaf(y)));
      LeafStops(z, END, [], Precedence(op2.kind));
      ClimbStep(last, 0, Infix(op2, Infix(op, Leaf(x), Leaf(y)), Leaf(z)));
    }
  }

  lemma EndStops()
    ensures Precedence(END.kind) == 0 && END.kind != SEMICOLON
  {
  }

  lemma LeafKinds(t: Token)
    requires IsLeaf(t)
    ensures t.kind != EOF && t.kind != SEMICOLON
  {
  }

  /** A token that starts nothing is an error and no tree. */
  lemma StartsNothing(c: Cursor, precedence: nat)
    requires c.curr.kind !in {INTEGER, FLOAT, STRING, NULL, IDENTIFIER, LPAREN, MINUS}
    requires c.curr.kind !in {SHOW, USE, CREATE, SELECT, INSERT, SYSTEM}
    ensures ParseExpression(c, precedence) == (NoTree, c.(errors := c.errors + 1))
  {
  }

  /** A statement is a leaf, as are numbers; an integer that no 64 bits hold is the greatest they do. */
  lemma OtherLeaves(c: Cursor, precedence: nat)
    requires c.peek == END
    ensures c.curr.kind in {SHOW, USE, CREATE, SELECT, INSERT, SYSTEM} ==>
              ParseExpression(c, precedence) == (Statement(c.curr.kind), c)
    ensures c.curr.kind == FLOAT ==> ParseExpression(c, precedence) == (FloatNode(c.curr.literal), c)
    ensures c.curr.kind == IDENTIFIER ==> ParseExpression(c, precedence) == (IdentifierNode(c.curr.literal), c)
    ensures c.curr.kind == INTEGER ==>
              var n := Decimal(c.curr.literal);
              ParseExpression(c, precedence) ==
              (IntegerNode(if n < 9223372036854775807 then n else 9223372036854775807), c)
  {
    hide ParseExpression, Climb, Decimal;
    ExpressionStarts(c, precedence);
    if HasPrefixFn(c.curr.kind) {
      EndStops();
      ClimbStep(c, precedence, ParseOperand(c).0);
    }
  }

  /** A group that is not closed is an error and no tree. */
  lemma OpenGroup(c: Cursor, precedence: nat)
    requires c.curr.kind == LPAREN
    ensures var (e, d) := ParseExpression(c.Next(), 0);
            d.peek.kind != RPAREN ==>
              ParseExpression(c, precedence) == Climb(d.(errors := d.errors + 1), precedence, NoTree)
  {
    hide Climb, ParseExpression;
    ExpressionStarts(c, precedence);
  }

  lemma ExpressionOfMinus(c: Cursor, precedence: nat)
    requires c.curr.kind == MINUS
    ensures var (e, d) := ParseExpression(c.Next(), PREFIX);
            ParseExpression(c, precedence) == Climb(d, precedence, Prefix(c.curr, e))
  {
    hide ParseExpression, Climb;
    ExpressionStarts(c, precedence);
  }

  /** A minus sign in front takes its leaf alone. */
  lemma MinusBinds(minus: Token, x: Token, op: Token, y: Token)
    requires minus.kind == MINUS && IsLeaf(x) && IsLeaf(y) && IsBinary(op.kind)
    ensures ParseExpression(Start([minus, x, op, y, END]), 0) ==
            (Infix(op, Prefix(minus, Leaf(x)), Leaf(y)), Cursor(y, END, [], 0))
  {
    hide ParseExpression, ParseOperand, Climb, Leaf, Precedence, IsBinary, IsLeaf;
    TighterPrecedes(op.kind, op.kind);
    EndStops();
    var c, d, last := Cursor(minus, x, [op, y, END], 0), Cursor(x, op, [y, END], 0), Cursor(y, END, [], 0);
    assert Start([minus, x, op, y, END]) == c;
    assert c.Next() == d && d.Next().Next() == last;
    ExpressionOfMinus(c, 0);
    LeafStops(x, op, [y, END], PREFIX);
    ClimbStep(d, 0, Prefix(minus, Leaf(x)));
    LeafStops(y, END, [], Precedence(op.kind));
    ClimbStep(last, 0, Infix(op, Prefix(minus, Leaf(x)), Leaf(y)));
  }

  // ---------- the parser object ----------

  class Parser {
    const scanner: Scanner
    var curr: Token
    var peek: Token
    var errors: nat

    ghost function View(): Cursor
      reads this, scanner
    {
      Cursor(curr, peek, Tokens(scanner.input, scanner.nextPos), errors)
    }

    /** Two calls of next_token fill the lookahead. */
    constructor (scanner: Scanner)
      modifies scanner
      ensures this.scanner == scanner
      ensures View() == Start(old(Tokens(scanner.input, scanner.nextPos)))
    {
      this.scanner := scanner;
      curr, peek, errors := Token(ILLEGAL, ""), Token(ILLEGAL, ""), 0;
      new;
      NextToken();
      NextToken();
    }

    method NextToken()
      modifies this, scanner
      ensures View() == old(View()).Next()
    {
      curr := peek;
      PastTheEnd(scanner.input, scanner.nextPos);
      peek := scanner.NextToken();
    }

    method ExpectPeek(kind: TokenType) returns (ok: bool)
      modifies this, scanner
      ensures ok == (old(peek).kind == kind)
      ensures View() == if ok then old(View()).Next() else old(View()).Error()
    {
      if peek.kind == kind {
        NextToken();
        return true;
      }
      errors := errors + 1;
      return false;
    }

    method Parse(precedence: nat) returns (e: Tree)
      modifies this, scanner
      ensures (e, View()) == ParseExpression(old(View()), precedence)
      decreases View().Left(), 2
    {
      hide ParseOperand, ParseExpression, Climb;
      ExpressionStarts(View(), precedence);
      if !HasPrefixFn(curr.kind) {
        errors := errors + 1;
        return NoTree;
      }
      e := ParsePrefixFn();
      ghost var start, first := View(), e;
      while peek.kind != SEMICOLON && precedence < Precedence(peek.kind)
        invariant Climb(View(), precedence, e) == Climb(start, precedence, first)
        invariant View().Left() <= start.Left() <= old(View()).Left()
        decreases View().Left()
      {
        ClimbStep(View(), precedence, e);
        NextToken();
        e := ParseInfix(e);
      }
      ClimbStep(View(), precedence, e);
    }

    /** The call through the prefix table. */
    method ParsePrefixFn() returns (e: Tree)
      requires HasPrefixFn(curr.kind)
      modifies this, scanner
      ensures (e, View()) == ParseOperand(old(View()))
      decreases View().Left(), 1
    {
      match curr.kind
      case INTEGER => e := IntegerNode(Atol(curr.literal));
      case FLOAT => e := FloatNode(curr.literal);
      case STRING => e := StringNode(curr.literal);
      case IDENTIFIER => e := IdentifierNode(curr.literal);
      case NULL => e := ParseNull();
      case LPAREN => e := ParseGroup();
      case MINUS => e := ParsePrefix();
      case _ => e := Statement(curr.kind);
    }

    method ParseNull() returns (e: Tree)
      modifies this, scanner
      ensures e == NullNode && View() == SkipSemicolons(old(View()))
    {
      e := NullNode;
      while peek.kind == SEMICOLON
        invariant SkipSemicolons(View()) == SkipSemicolons(old(View()))
        decreases |View().rest|, peek.kind == SEMICOLON
      {
        NextToken();
      }
    }

    method ParseGroup() returns (e: Tree)
      requires curr.kind == LPAREN
      modifies this, scanner
      ensures var (t, d) := ParseExpression(old(View()).Next(), LOWEST);
              if d.peek.kind == RPAREN then e == t && View() == d.Next() else e == NoTree && View() == d.Error()
      decreases View().Left(), 0
    {
      NextToken();
      e := Parse(LOWEST);
      var closed := ExpectPeek(RPAREN);
      if !closed {
        return NoTree;
      }
    }

    method ParsePrefix() returns (e: Tree)
      requires curr.kind == MINUS
      modifies this, scanner
      ensures var (t, d) := ParseExpression(old(View()).Next(), PREFIX);
              e == Prefix(old(curr), t) && View() == d
      decreases View().Left(), 0
    {
      var op := curr;
      NextToken();
      var right := Parse(PREFIX);
      e := Prefix(op, right);
    }

    /** The operator is current; its precedence bounds the right operand. */
    method ParseInfix(left: Tree) returns (e: Tree)
      requires curr.kind != EOF
      modifies this, scanner
      ensures var (t, d) := ParseExpression(old(View()).Next(), Precedence(old(curr).kind));
              e == Infix(old(curr), left, t) && View() == d
      decreases View().Left(), 0
    {
      var op := curr;
      var precedence := Precedence(curr.kind);
      NextToken();
      var right := Parse(precedence);
      e := Infix(op, left, right);
    }
  }

  function Start(ts: seq<Token>): Cursor {
    Cursor(Token(ILLEGAL, ""), Token(ILLEGAL, ""), ts, 0).Next().Next()
  }

  /** Behind the text the lexer answers the end token for ever. */
  lemma PastTheEnd(s: string, i: nat)
    ensures i > |s| ==> LexAt(s, i).0 == END && LexAt(s, i).1 == i + 1
    ensures i <= |s| ==> Tokens(s, i) == [LexAt(s, i).0] + Tokens(s, LexAt(s, i).1)
  {
    assert i > |s| ==> SkipSpace(s, i) == i;
  }
}
