/** Queries before they run: taking the tag comparisons out of a where tree, and dropping the day
    shards the rest of the tree rules out. Both are related to the meaning of the tree, row by
    row. */
module QueryRewrite {
  import opened Bytes

  /** ExprNode; Nil is the null pointer. */
  datatype Node = Nil | Node(val: string, left: Node, right: Node)

  /** What the code takes from libraries: reading a date, and comparing a column with a text. */
  datatype Env = Env(parse: string -> int, compare: (string, string, string) -> bool)

  datatype Row = Row(seconds: int, columns: map<string, string>)

  type Tag = (string, string)

  // ---------- where trees ----------

  predicate IsLogical(val: string) {
    val == "and" || val == "or"
  }

  /** is_comparison, which does not know the single equals sign. */
  predicate IsComparison(val: string) {
    val == ">" || val == "<" || val == "==" || val == ">=" || val == "<=" || val == "!="
  }

  /** A column name or a literal; the three words would be taken for operators. */
  predicate Operand(n: Node) {
    n.Node? && n.left.Nil? && n.right.Nil? && !IsLogical(n.val) && n.val != "="
  }

  predicate Comparison(n: Node) {
    n.Node? && (IsComparison(n.val) || n.val == "=") && Operand(n.left) && Operand(n.right)
  }

  predicate Where(n: Node) {
    n.Node? && (if IsLogical(n.val) then Where(n.left) && Where(n.right) else Comparison(n))
  }

  /** The seven signs two operands can be compared by; the two words connect. */
  lemma SignsKnown(sign: string, l: Node, r: Node)
    requires Operand(l) && Operand(r)
    ensures Comparison(Node(sign, l, r)) <==> sign in {">", "<", "==", ">=", "<=", "!=", "="}
    ensures Where(Node("and", Node("<", l, r), Node(">", l, r))) && Where(Node("or", Node("<", l, r), Node(">", l, r)))
  {
    assert Where(Node("<", l, r)) && Where(Node(">", l, r));
  }

  // ---------- taking the tags out ----------

  /** is_tag_comparison, for a measurement with the given tag keys. */
  predicate IsTag(keys: set<string>, n: Node)
    requires n.Node? && n.val == "=" ==> n.left.Node?
  {
    n.Node? && n.val == "=" && n.left.val in keys
  }

  /** Every equals sign has two operands to look at. */
  predicate Guarded(n: Node) {
    n.Node? ==> (n.val == "=" ==> n.left.Node? && n.right.Node?) && Guarded(n.left) && Guarded(n.right)
  }

  /** rebuild_tree_without_tags: what is left of the tree, and the tags in the order they are
      found. */
  function Rebuild(keys: set<string>, n: Node): (r: (Node, seq<Tag>))
    requires Guarded(n)
  {
    if n.Nil? then (Nil, [])
    else if IsTag(keys, n) then (Nil, [(n.left.val, n.right.val)])
    else
      var (left, leftTags) := Rebuild(keys, n.left);
      var (right, rightTags) := Rebuild(keys, n.right);
      (if IsLogical(n.val) && (left.Nil? || right.Nil?) then (if left.Node? then left else right)
       else Node(n.val, left, right),
       leftTags + rightTags)
  }

  /** The tag list grows by reference through the recursion. */
  method RebuildTree(keys: set<string>, n: Node, tags: seq<Tag>) returns (m: Node, grown: seq<Tag>)
    requires Guarded(n)
    ensures m == Rebuild(keys, n).0 && grown == tags + Rebuild(keys, n).1
  {
    grown := tags;
    if n.Nil? {
      return Nil, grown;
    }
    if IsTag(keys, n) {
      grown := grown + [(n.left.val, n.right.val)];
      return Nil, grown;
    }
    var left, right;
    left, grown := RebuildTree(keys, n.left, grown);
    right, grown := RebuildTree(keys, n.right, grown);
    if IsLogical(n.val) && (left.Nil? || right.Nil?) {
      m := if left.Node? then left else right;
    } else {
      m := Node(n.val, left, right);
    }
  }

  lemma {:induction false} WhereGuarded(n: Node)
    requires Where(n)
    ensures Guarded(n)
  {
    if IsLogical(n.val) {
      WhereGuarded(n.left);
      WhereGuarded(n.right);
    } else {
      assert Guarded(Nil);
      assert Guarded(n.left) && Guarded(n.right);
    }
  }

  /** A comparison by a single equals sign of a column that is a tag key becomes a tag; every other
      comparison is copied as it is. */
  lemma RebuildComparison(keys: set<string>, n: Node)
    requires Comparison(n) && Guarded(n)
    ensures Rebuild(keys, n) ==
            if n.val == "=" && n.left.val in keys then (Nil, [(n.left.val, n.right.val)]) else (n, [])
  {
    RebuildOperand(keys, n.left);
    RebuildOperand(keys, n.right);
  }

  /** A comparison by a single equals sign that stands somewhere in the tree. */
  ghost predicate Asks(n: Node, t: Tag) {
    && n.Node?
    && ((n.val == "=" && n.left.Node? && n.right.Node? && t == (n.left.val, n.right.val))
        || Asks(n.left, t) || Asks(n.right, t))
  }

  /** Whatever the tree, the tags taken out of it are comparisons of it, of columns that are tag
      keys. */
  lemma {:induction false} TagsAreKeys(keys: set<string>, n: Node)
    requires Guarded(n)
    ensures forall t :: t in Rebuild(keys, n).1 ==> t.0 in keys && Asks(n, t)
  {
    if n.Node? {
      TagsAreKeys(keys, n.left);
      TagsAreKeys(keys, n.right);
    }
  }

  /** Of a where tree they are exactly those. */
  lemma {:induction false} TagsExactly(keys: set<string>, n: Node, t: Tag)
    requires Where(n) && Guarded(n)
    ensures t in Rebuild(keys, n).1 <==> t.0 in keys && Asks(n, t)
  {
    if IsLogical(n.val) {
      TagsExactly(keys, n.left, t);
      TagsExactly(keys, n.right, t);
    } else {
      assert n.left.left == n.left.right == n.right.left == n.right.right == Nil && !Asks(Nil, t);
      assert !Asks(n.left, t) && !Asks(n.right, t);
      RebuildComparison(keys, n);
    }
  }

  lemma RebuildOperand(keys: set<string>, n: Node)
    requires Operand(n) && Guarded(n)
    ensures Rebuild(keys, n) == (n, [])
  {
    assert n.left == Nil && n.right == Nil;
    assert Rebuild(keys, Nil) == (Nil, []);
    assert Rebuild(keys, n).0 == n;
    assert Rebuild(keys, n).1 == [];
  }

  /** An operand spelt like a logical operator gets lost, together with its comparison's
      meaning: no equals sign, no tag, and still the copy differs. */
  lemma OperandLost(keys: set<string>, op: string, column: Node, word: string)
    requires IsComparison(op) && Operand(column) && IsLogical(word)
    ensures var n := Node(op, column, Node(word, Nil, Nil));
            Guarded(n) && Rebuild(keys, n) == (Node(op, column, Nil), [])
  {
    var n := Node(op, column, Node(word, Nil, Nil));
    assert Guarded(Nil);
    assert Guarded(column) && Guarded(n.right);
    RebuildOperand(keys, column);
    assert Rebuild(keys, Nil) == (Nil, []);
    assert Rebuild(keys, n.right) == (Nil, []);
  }

  /** What is left is nothing or a where tree. */
  lemma {:induction false} RebuildWhere(keys: set<string>, n: Node)
    requires Where(n) && Guarded(n)
    ensures Rebuild(keys, n).0.Nil? || Where(Rebuild(keys, n).0)
  {
    if IsLogical(n.val) {
      RebuildWhere(keys, n.left);
      RebuildWhere(keys, n.right);
    } else {
      RebuildComparison(keys, n);
    }
  }

  // ---------- rows ----------

  /** compare_timestamps; other operators throw. */
  function CompareTime(op: string, time: int, bound: int): Option<bool> {
    if op == ">" then Some(time > bound)
    else if op == "<" then Some(time < bound)
    else if op == ">=" then Some(time >= bound)
    else if op == "<=" then Some(time <= bound)
    else if op == "==" then Some(time == bound)
    else if op == "!=" then Some(time != bound)
    else None
  }

  /** evaluate_expr_node_for_row; None if it throws. */
  function EvaluateRow(env: Env, n: Node, row: Row): Option<bool>
    requires n.Nil? || Where(n)
  {
    if n.Nil? then Some(true)
    else if n.left.Node? && n.left.val == "time" then
      if n.right.Node? then CompareTime(n.val, row.seconds, env.parse(n.right.val)) else None
    else if n.val == "and" then
      match EvaluateRow(env, n.left, row)
      case Some(true) => EvaluateRow(env, n.right, row)
      case other => other
    else if n.val == "or" then
      match EvaluateRow(env, n.left, row)
      case Some(false) => EvaluateRow(env, n.right, row)
      case other => other
    else if n.left.val !in row.columns then Some(false)
    else Some(env.compare(n.val, row.columns[n.left.val], n.right.val))
  }

  /** What one comparison says about a row of a series. */
  ghost predicate Says(env: Env, keys: set<string>, series: set<Tag>, n: Node, row: Row)
    requires Comparison(n)
  {
    if n.val == "=" && n.left.val in keys then (n.left.val, n.right.val) in series
    else if n.left.val == "time" then CompareTime(n.val, row.seconds, env.parse(n.right.val)) == Some(true)
    else n.left.val in row.columns && env.compare(n.val, row.columns[n.left.val], n.right.val)
  }

  /** What the whole tree says, tags and all. */
  ghost predicate Meaning(env: Env, keys: set<string>, series: set<Tag>, n: Node, row: Row)
    requires Where(n)
  {
    if n.val == "and" then Meaning(env, keys, series, n.left, row) && Meaning(env, keys, series, n.right, row)
    else if n.val == "or" then Meaning(env, keys, series, n.left, row) || Meaning(env, keys, series, n.right, row)
    else Says(env, keys, series, n, row)
  }

  /** Times are not compared with the single equals sign, unless time is a tag. */
  predicate TimesComparable(keys: set<string>, n: Node)
    requires Where(n)
  {
    if IsLogical(n.val) then TimesComparable(keys, n.left) && TimesComparable(keys, n.right)
    else n.left.val == "time" && n.val == "=" ==> "time" in keys
  }

  // ---------- taking the tags out keeps the meaning ----------

  ghost predicate Carries(series: set<Tag>, tags: seq<Tag>) {
    forall t :: t in tags ==> t in series
  }

  /** A tree without tag comparisons evaluates to what it says, short cuts and all. */
  lemma {:induction false} EvaluatesMeaning(env: Env, keys: set<string>, series: set<Tag>, n: Node, row: Row)
    requires Where(n) && Guarded(n) && TimesComparable(keys, n) && Rebuild(keys, n).1 == []
    ensures EvaluateRow(env, n, row) == Some(Meaning(env, keys, series, n, row))
  {
    if IsLogical(n.val) {
      EvaluatesMeaning(env, keys, series, n.left, row);
      EvaluatesMeaning(env, keys, series, n.right, row);
    } else {
      RebuildComparison(keys, n);
    }
  }

  /** The code's answer: the series carries every extracted tag and the row passes the rest. */
  ghost predicate Answers(env: Env, keys: set<string>, series: set<Tag>, n: Node, row: Row)
    requires Where(n) && Guarded(n)
  {
    RebuildWhere(keys, n);
    Carries(series, Rebuild(keys, n).1) && EvaluateRow(env, Rebuild(keys, n).0, row) == Some(true)
  }

  lemma AnswersAtom(env: Env, keys: set<string>, series: set<Tag>, n: Node, row: Row)
    requires Comparison(n) && Where(n) && Guarded(n) && TimesComparable(keys, n)
    ensures Answers(env, keys, series, n, row) <==> Meaning(env, keys, series, n, row)
  {
    RebuildComparison(keys, n);
  }

  /** The rest of the tree never throws on a row. */
  lemma {:induction false} RestEvaluates(env: Env, keys: set<string>, n: Node, row: Row)
    requires Where(n) && Guarded(n) && TimesComparable(keys, n)
    ensures Rebuild(keys, n).0.Nil? || Where(Rebuild(keys, n).0)
    ensures EvaluateRow(env, Rebuild(keys, n).0, row).Some?
  {
    RebuildWhere(keys, n);
    if IsLogical(n.val) {
      RestEvaluates(env, keys, n.left, row);
      RestEvaluates(env, keys, n.right, row);
    } else {
      RebuildComparison(keys, n);
    }
  }

  /** What an `or` answers, from what its sides answer. A side that is all tags leaves its
      connective, so the other side is then demanded as well; otherwise one side's answer is
      enough, but the tags of both sides have been taken out and are demanded. */
  ghost predicate OrAnswers(keys: set<string>, series: set<Tag>, l: Node, r: Node, left: bool, right: bool)
    requires Guarded(l) && Guarded(r)
  {
    if Rebuild(keys, l).0.Nil? || Rebuild(keys, r).0.Nil? then left && right
    else Carries(series, Rebuild(keys, l).1) && Carries(series, Rebuild(keys, r).1) && (left || right)
  }

  /** How the answers to a connective come from the answers to its sides. */
  lemma AnswersConnective(env: Env, keys: set<string>, series: set<Tag>, n: Node, row: Row)
    requires Where(n) && Guarded(n) && TimesComparable(keys, n) && IsLogical(n.val)
    ensures Answers(env, keys, series, n, row) <==>
            var left, right := Answers(env, keys, series, n.left, row), Answers(env, keys, series, n.right, row);
            if n.val == "and" then left && right else OrAnswers(keys, series, n.left, n.right, left, right)
  {
    hide CompareTime;
    RebuildWhere(keys, n);
    RebuildWhere(keys, n.left);
    RebuildWhere(keys, n.right);
    RestEvaluates(env, keys, n.left, row);
    RestEvaluates(env, keys, n.right, row);
  }

  /** The answer to a whole tree, from what its comparisons say. */
  ghost predicate Answered(env: Env, keys: set<string>, series: set<Tag>, n: Node, row: Row)
    requires Where(n) && Guarded(n)
  {
    if IsLogical(n.val) then
      var left, right := Answered(env, keys, series, n.left, row), Answered(env, keys, series, n.right, row);
      if n.val == "and" then left && right else OrAnswers(keys, series, n.left, n.right, left, right)
    else Says(env, keys, series, n, row)
  }

  /** The code answers exactly that. */
  lemma {:induction false} AnswersExactly(env: Env, keys: set<string>, series: set<Tag>, n: Node, row: Row)
    requires Where(n) && Guarded(n) && TimesComparable(keys, n)
    ensures Answers(env, keys, series, n, row) <==> Answered(env, keys, series, n, row)
  {
    hide Answers, OrAnswers;
    if IsLogical(n.val) {
      AnswersExactly(env, keys, series, n.left, row);
      AnswersExactly(env, keys, series, n.right, row);
      AnswersConnective(env, keys, series, n, row);
    } else {
      AnswersAtom(env, keys, series, n, row);
    }
  }

  /** Without tags something is left. */
  lemma {:induction false} SomeRest(keys: set<string>, n: Node)
    requires Where(n) && Guarded(n) && Rebuild(keys, n).1 == []
    ensures Rebuild(keys, n).0.Node?
  {
    if IsLogical(n.val) {
      SomeRest(keys, n.left);
    }
  }

  predicate SameTags(s: seq<Tag>, t: seq<Tag>) {
    (forall k :: k in s ==> k in t) && (forall k :: k in t ==> k in s)
  }

  /** Both sides of every `or` demand the same tags, and both leave something or neither does. */
  predicate TagsAgree(keys: set<string>, n: Node)
    requires Where(n) && Guarded(n)
  {
    IsLogical(n.val) ==>
      && TagsAgree(keys, n.left) && TagsAgree(keys, n.right)
      && (n.val == "or" ==>
            && SameTags(Rebuild(keys, n.left).1, Rebuild(keys, n.right).1)
            && (Rebuild(keys, n.left).0.Nil? <==> Rebuild(keys, n.right).0.Nil?))
  }

  /** No tag comparison stands below an `or`. */
  predicate TagsUnderAnd(keys: set<string>, n: Node)
    requires Where(n) && Guarded(n)
  {
    if n.val == "and" then TagsUnderAnd(keys, n.left) && TagsUnderAnd(keys, n.right)
    else if n.val == "or" then Rebuild(keys, n).1 == []
    else true
  }

  lemma {:induction false} TagsUnderAndAgree(keys: set<string>, n: Node)
    requires Where(n) && Guarded(n) && (TagsUnderAnd(keys, n) || Rebuild(keys, n).1 == [])
    ensures TagsAgree(keys, n)
  {
    if IsLogical(n.val) {
      TagsUnderAndAgree(keys, n.left);
      TagsUnderAndAgree(keys, n.right);
      if n.val == "or" {
        SomeRest(keys, n.left);
        SomeRest(keys, n.right);
      }
    }
  }

  /** For one: a tag and, beside it, either of two comparisons of something else. */
  lemma TagAndEither(keys: set<string>, tag: Node, l: Node, r: Node)
    requires Comparison(tag) && Comparison(l) && Comparison(r)
    requires l.val != "=" && r.val != "="
    ensures var n := Node("and", tag, Node("or", l, r)); Where(n) && Guarded(n) && TagsAgree(keys, n)
  {
    var either := Node("or", l, r);
    var n := Node("and", tag, either);
    assert Where(l) && Where(r) && Where(tag);
    assert Where(either);
    WhereGuarded(n);
    RebuildComparison(keys, l);
    RebuildComparison(keys, r);
    assert Rebuild(keys, either).1 == [] + [];
    TagsUnderAndAgree(keys, n);
  }

  /** A side without a rest has answered when its tags are carried. */
  lemma AnswersTags(env: Env, keys: set<string>, series: set<Tag>, n: Node, row: Row)
    requires Where(n) && Guarded(n)
    ensures Answers(env, keys, series, n, row) ==> Carries(series, Rebuild(keys, n).1)
    ensures Rebuild(keys, n).0.Nil? ==> (Answers(env, keys, series, n, row) <==> Carries(series, Rebuild(keys, n).1))
  {
    RebuildWhere(keys, n);
  }

  /** Every row the code answers with is meant, and every row that is meant is among the answers
      if the sides of every `or` agree on the tags. */
  lemma {:induction false} ExtractionKeepsMeaning(env: Env, keys: set<string>, series: set<Tag>, n: Node, row: Row)
    requires Where(n) && Guarded(n) && TimesComparable(keys, n)
    ensures Answers(env, keys, series, n, row) ==> Meaning(env, keys, series, n, row)
    ensures TagsAgree(keys, n) ==> (Answers(env, keys, series, n, row) <==> Meaning(env, keys, series, n, row))
  {
    hide Answers;
    if IsLogical(n.val) {
      ExtractionKeepsMeaning(env, keys, series, n.left, row);
      ExtractionKeepsMeaning(env, keys, series, n.right, row);
      AnswersConnective(env, keys, series, n, row);
      AnswersTags(env, keys, series, n.left, row);
      AnswersTags(env, keys, series, n.right, row);
    } else {
      AnswersAtom(env, keys, series, n, row);
    }
  }

  /** Exactly when an `or` loses a row that is meant, its sides having lost nothing: a side is all
      tags and only one side holds, or a side holds and the series lacks a tag of either. */
  lemma OrLosesExactly(env: Env, keys: set<string>, series: set<Tag>, l: Node, r: Node, row: Row)
    requires Where(l) && Where(r) && Guarded(l) && Guarded(r) && TimesComparable(keys, l) && TimesComparable(keys, r)
    requires Answers(env, keys, series, l, row) <==> Meaning(env, keys, series, l, row)
    requires Answers(env, keys, series, r, row) <==> Meaning(env, keys, series, r, row)
    ensures var n := Node("or", l, r);
            var left, right := Meaning(env, keys, series, l, row), Meaning(env, keys, series, r, row);
            Where(n) && Guarded(n) &&
            (Meaning(env, keys, series, n, row) && !Answers(env, keys, series, n, row) <==>
             if Rebuild(keys, l).0.Nil? || Rebuild(keys, r).0.Nil? then left != right
             else (left || right) && !(Carries(series, Rebuild(keys, l).1) && Carries(series, Rebuild(keys, r).1)))
  {
    hide Answers;
    AnswersConnective(env, keys, series, Node("or", l, r), row);
  }

  /** So rows do get lost below an `or`, whatever the two sides are: a series that lacks a tag of
      one side answers nothing, even if the other side holds. */
  lemma OrLosesRows(env: Env, keys: set<string>, series: set<Tag>, l: Node, r: Node, row: Row)
    requires Where(l) && Where(r) && Guarded(l) && Guarded(r)
    requires (!Carries(series, Rebuild(keys, l).1) && Meaning(env, keys, series, r, row)) ||
             (!Carries(series, Rebuild(keys, r).1) && Meaning(env, keys, series, l, row))
    ensures var n := Node("or", l, r);
            Where(n) && Guarded(n) && Meaning(env, keys, series, n, row) && !Answers(env, keys, series, n, row)
  {
    assert Rebuild(keys, Node("or", l, r)).1 == Rebuild(keys, l).1 + Rebuild(keys, r).1;
  }

  /** And a series that carries every tag loses rows too: where one side is all tags it is
      forgotten, and the row has to pass the other. */
  lemma OrForgetsTags(env: Env, keys: set<string>, series: set<Tag>, l: Node, r: Node, row: Row)
    requires Where(l) && Where(r) && Guarded(l) && Guarded(r) && TimesComparable(keys, l) && TimesComparable(keys, r)
    requires Carries(series, Rebuild(keys, l).1) && Carries(series, Rebuild(keys, r).1)
    requires (Rebuild(keys, l).0.Nil? && !Answers(env, keys, series, r, row)) ||
             (Rebuild(keys, r).0.Nil? && !Answers(env, keys, series, l, row))
    ensures var n := Node("or", l, r);
            Where(n) && Guarded(n) && Meaning(env, keys, series, n, row) && !Answers(env, keys, series, n, row)
  {
    hide Answers;
    AnswersConnective(env, keys, series, Node("or", l, r), row);
    if Rebuild(keys, l).0.Nil? && !Answers(env, keys, series, r, row) {
      AnswersTags(env, keys, series, l, row);
      ExtractionKeepsMeaning(env, keys, series, l, row);
    } else {
      AnswersTags(env, keys, series, r, row);
      ExtractionKeepsMeaning(env, keys, series, r, row);
    }
  }

  // ---------- dropping shards ----------

  /** The first and the last second of the day that names a shard. */
  datatype Day = Day(start: int, end: int)

  /** evaluate_shard. */
  predicate EvaluateShard(env: Env, day: Day, n: Node)
    requires Comparison(n)
  {
    if n.left.val != "time" then false
    else
      var bound := env.parse(n.right.val);
      if n.val == ">" then bound < day.end
      else if n.val == "<" then bound > day.start
      else if n.val == ">=" then bound <= day.end
      else if n.val == "<=" then bound >= day.start
      else if n.val == "==" then bound >= day.start && bound <= day.end
      else if n.val == "!=" then bound < day.start || bound > day.end
      else false
  }

  /** evaluate_condition: whether the shard of the day is read at all. */
  predicate EvaluateCondition(env: Env, day: Day, n: Node)
    requires n.Nil? || Where(n)
  {
    if n.Nil? then true
    else if IsComparison(n.val) then EvaluateShard(env, day, n)
    else if IsLogical(n.val) then
      var left, right := EvaluateCondition(env, day, n.left), EvaluateCondition(env, day, n.right);
      if n.val == "and" then left && right else left || right
    else false
  }

  /** A comparison of the time the shard test is made for; `!=` is, when it names another day. */
  predicate DayTest(env: Env, day: Day, n: Node)
    requires Comparison(n)
  {
    && n.left.val == "time" && IsComparison(n.val)
    && (n.val == "!=" ==> !(day.start <= env.parse(n.right.val) <= day.end))
  }

  predicate DayTests(env: Env, day: Day, n: Node)
    requires Where(n)
  {
    if IsLogical(n.val) then DayTests(env, day, n.left) && DayTests(env, day, n.right)
    else DayTest(env, day, n)
  }

  predicate OnlyOr(n: Node)
    requires Where(n)
  {
    IsLogical(n.val) ==> n.val == "or" && OnlyOr(n.left) && OnlyOr(n.right)
  }

  ghost predicate Passes(env: Env, n: Node, seconds: int)
    requires Where(n)
  {
    EvaluateRow(env, n, Row(seconds, map[])) == Some(true)
  }

  /** On one comparison the shard test is exact: some second of the day passes. */
  lemma ShardTestExact(env: Env, day: Day, n: Node)
    requires Comparison(n) && Where(n) && DayTest(env, day, n) && day.start <= day.end
    ensures EvaluateShard(env, day, n) <==> exists t :: day.start <= t <= day.end && Passes(env, n, t)
  {
    var bound := env.parse(n.right.val);
    if EvaluateShard(env, day, n) {
      var t := if n.val == ">" || n.val == ">=" then day.end else if n.val == "==" then bound else day.start;
      assert Passes(env, n, t);
    }
  }

  /** No time is compared with `!=` and a second of the day. */
  predicate NoSecondExcluded(env: Env, day: Day, n: Node)
    requires Where(n)
  {
    if IsLogical(n.val) then NoSecondExcluded(env, day, n.left) && NoSecondExcluded(env, day, n.right)
    else n.left.val == "time" && n.val == "!=" ==> !(day.start <= env.parse(n.right.val) <= day.end)
  }

  /** A shard is read whenever a second of its day passes, fields standing anywhere, on the time
      alone. */
  lemma {:induction false} PruningSound(env: Env, day: Day, n: Node, t: int)
    requires Where(n) && NoSecondExcluded(env, day, n) && day.start <= t <= day.end && Passes(env, n, t)
    ensures EvaluateCondition(env, day, n)
  {
    if n.val == "and" {
      PruningSound(env, day, n.left, t);
      PruningSound(env, day, n.right, t);
    } else if n.val == "or" {
      if Passes(env, n.left, t) {
        PruningSound(env, day, n.left, t);
      } else {
        PruningSound(env, day, n.right, t);
      }
    }
  }

  /** Day tests do not look at the columns of a row. */
  lemma {:induction false} DayTestsSeeTime(env: Env, day: Day, n: Node, row: Row)
    requires Where(n) && DayTests(env, day, n)
    ensures EvaluateRow(env, n, row) == EvaluateRow(env, n, Row(row.seconds, map[]))
    ensures NoSecondExcluded(env, day, n)
  {
    if IsLogical(n.val) {
      DayTestsSeeTime(env, day, n.left, row);
      DayTestsSeeTime(env, day, n.right, row);
    }
  }

  /** With `or` alone only such shards are read, fields standing anywhere. */
  lemma {:induction false} PruningExact(env: Env, day: Day, n: Node)
    requires Where(n) && NoSecondExcluded(env, day, n) && TimesComparable({}, n) && OnlyOr(n)
    requires day.start <= day.end
    ensures EvaluateCondition(env, day, n) <==> exists t :: day.start <= t <= day.end && Passes(env, n, t)
  {
    if IsLogical(n.val) {
      PruningExact(env, day, n.left);
      PruningExact(env, day, n.right);
      forall t
        ensures Passes(env, n, t) <==> Passes(env, n.left, t) || Passes(env, n.right, t)
      {
        Evaluates(env, n.left, Row(t, map[]));
      }
    } else if n.left.val == "time" {
      ShardTestExact(env, day, n);
    } else {
      assert forall t :: !Passes(env, n, t);
    }
  }

  /** For one: an `or` of two times is read exactly on the days that have a second before the one or
      behind the other. */
  lemma OrReadsExactly(env: Env, day: Day, first: Node, last: Node)
    requires Operand(first) && Operand(last) && day.start <= day.end
    ensures var n := Node("or", Node("<", Node("time", Nil, Nil), first), Node(">", Node("time", Nil, Nil), last));
            Where(n) &&
            (EvaluateCondition(env, day, n) <==> day.start < env.parse(first.val) || env.parse(last.val) < day.end)
  {
    var n := Node("or", Node("<", Node("time", Nil, Nil), first), Node(">", Node("time", Nil, Nil), last));
    assert Where(n.left) && Where(n.right);
    PruningExact(env, day, n);
    if EvaluateCondition(env, day, n) {
      var t :| day.start <= t <= day.end && Passes(env, n, t);
      assert EvaluateRow(env, n.left, Row(t, map[])) == Some(t < env.parse(first.val));
      assert EvaluateRow(env, n.right, Row(t, map[])) == Some(t > env.parse(last.val));
      assert t < env.parse(first.val) || t > env.parse(last.val);
    }
    if day.start < env.parse(first.val) {
      assert Passes(env, n, day.start);
    }
    if env.parse(last.val) < day.end {
      assert Passes(env, n, day.end);
    }
  }

  lemma {:induction false} Evaluates(env: Env, n: Node, row: Row)
    requires Where(n) && TimesComparable({}, n)
    ensures EvaluateRow(env, n, row).Some?
  {
    if IsLogical(n.val) {
      Evaluates(env, n.left, row);
      Evaluates(env, n.right, row);
    }
  }

  /** A comparison that no row's day decides: of a field, or with the single equals sign. */
  predicate NotOfTime(n: Node)
    requires Comparison(n)
  {
    n.left.val != "time" || n.val == "="
  }

  /** Such a comparison stands under nothing but `and`. */
  predicate Demands(n: Node)
    requires Where(n)
  {
    if n.val == "and" then Demands(n.left) || Demands(n.right)
    else if n.val == "or" then Demands(n.left) && Demands(n.right)
    else NotOfTime(n)
  }

  /** A tree that demands something of a field reads no shard at all, whatever its rows. */
  lemma {:induction false} FieldsReadNothing(env: Env, day: Day, n: Node)
    requires Where(n) && Demands(n)
    ensures !EvaluateCondition(env, day, n)
  {
    if IsLogical(n.val) {
      if Demands(n.left) {
        FieldsReadNothing(env, day, n.left);
      }
      if Demands(n.right) {
        FieldsReadNothing(env, day, n.right);
      }
    }
  }

  /** It is enough that one side of an `and` compares a field, or both sides of an `or` do. */
  lemma FieldSideReadsNothing(env: Env, day: Day, field: Node, other: Node, more: Node)
    requires Comparison(field) && field.left.val != "time" && Where(other)
    requires Comparison(more) && more.left.val != "time"
    ensures var n := Node("and", field, other); Where(n) && !EvaluateCondition(env, day, n)
    ensures var n := Node("and", other, field); Where(n) && !EvaluateCondition(env, day, n)
    ensures var n := Node("or", field, more); Where(n) && !EvaluateCondition(env, day, n)
  {
    FieldsReadNothing(env, day, Node("and", field, other));
    FieldsReadNothing(env, day, Node("and", other, field));
    FieldsReadNothing(env, day, Node("or", field, more));
  }

  /** A time compared with the single equals sign, the only equality the SQL lexer knows, reads no
      shard, and would throw on every row. */
  lemma SingleEqualsFails(env: Env, day: Day, bound: Node, row: Row)
    requires Operand(bound)
    ensures var n := Node("=", Node("time", Nil, Nil), bound);
            Where(n) && !EvaluateCondition(env, day, n) && EvaluateRow(env, n, row) == None
  {
  }

  /** `!=` with a second of the day drops the shard although all other seconds pass. */
  lemma NotEqualDropsDay(env: Env, day: Day, bound: Node, t: int)
    requires Operand(bound) && day.start <= env.parse(bound.val) <= day.end
    requires day.start <= t <= day.end && t != env.parse(bound.val)
    ensures var n := Node("!=", Node("time", Nil, Nil), bound);
            Where(n) && Passes(env, n, t) && !EvaluateCondition(env, day, n)
  {
  }

  /** With `and` a shard may be read in vain: both sides have a second, but not the same. */
  lemma AndReadsInVain(env: Env, day: Day, low: Node, high: Node)
    requires Operand(low) && Operand(high)
    requires day.start < env.parse(high.val) <= env.parse(low.val) < day.end
    ensures var n := Node("and", Node(">", Node("time", Nil, Nil), low), Node("<", Node("time", Nil, Nil), high));
            Where(n) && EvaluateCondition(env, day, n) && forall t :: !Passes(env, n, t)
  {
    var n := Node("and", Node(">", Node("time", Nil, Nil), low), Node("<", Node("time", Nil, Nil), high));
    assert Comparison(n.left) && Comparison(n.right);
    assert Where(n.left) && Where(n.right);
    assert Where(n);
    forall t
      ensures !Passes(env, n, t)
    {
      assert EvaluateRow(env, n.left, Row(t, map[])) == Some(t > env.parse(low.val));
      assert EvaluateRow(env, n.right, Row(t, map[])) == Some(t < env.parse(high.val));
    }
  }

  // ---------- both together ----------

  /** The whole query on one row of the day: with day tests and the sides of every `or` agreeing on
      the tags, a row is found in a shard that is read, for a series with the extracted tags, exactly if the tree
      means it. */
  lemma QueryExact(env: Env, keys: set<string>, series: set<Tag>, n: Node, day: Day, row: Row)
    requires Where(n) && Guarded(n) && TimesComparable(keys, n) && TagsAgree(keys, n)
    requires day.start <= row.seconds <= day.end
    requires Rebuild(keys, n).0.Node? ==> Where(Rebuild(keys, n).0) && DayTests(env, day, Rebuild(keys, n).0)
    ensures Answers(env, keys, series, n, row) && EvaluateCondition(env, day, Rebuild(keys, n).0)
            <==> Meaning(env, keys, series, n, row)
  {
    ExtractionKeepsMeaning(env, keys, series, n, row);
    if Meaning(env, keys, series, n, row) && Rebuild(keys, n).0.Node? {
      DayTestsSeeTime(env, day, Rebuild(keys, n).0, row);
      PruningSound(env, day, Rebuild(keys, n).0, row.seconds);
    }
  }
}
