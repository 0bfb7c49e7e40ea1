/** The grammar of the query language on its own, and the proof that the parser accepts just what it derives:
    connectives associate to the left, AND binds tighter than OR, NOT tighter than both, and parentheses may
    stand around any expression. */
module QueryGrammar {
  import opened Basics
  import opened Wrappers
  import opened QueryTokens
  import opened QueryParser
  import opened QueryLanguage
  import opened QueryRoundTrip

  /** How a text is put together, parentheses included. */
  datatype Form =
    | Leaf(field: string, op: Operator, values: seq<string>)
    | Negated(value: Form)
    | Both(left: Form, right: Form)
    | Either(left: Form, right: Form)
    | Enclosed(value: Form)

  function TreeOf(f: Form): Ast {
    match f
    case Leaf(field, op, values) => Term(field, op, values)
    case Negated(v) => Not(TreeOf(v))
    case Both(l, r) => And(TreeOf(l), TreeOf(r))
    case Either(l, r) => Or(TreeOf(l), TreeOf(r))
    case Enclosed(v) => TreeOf(v)
  }

  // ---- Terms

  ghost predicate ReadsOperator(ts: seq<Symbol>, from: nat, to: nat, op: Operator) {
    || (to == from + 1 && Peek(ts, from, Comparison(op)))
    || (to == from + 2 && op.NotIn? && Peek(ts, from, NotWord) && Peek(ts, from + 1, Comparison(In)))
  }

  ghost predicate ReadsValue(ts: seq<Symbol>, c: nat, value: string) {
    c < |ts| && ts[c].value == value && !Peek(ts, c, Close) && !Peek(ts, c, Comma)
  }

  /** Values at every second place, commas between them. */
  ghost predicate ReadsValues(ts: seq<Symbol>, from: nat, to: nat, values: seq<string>) {
    && values != [] && to == from + 2 * |values| - 1
    && (forall i :: 0 <= i < |values| ==> ReadsValue(ts, from + 2 * i, values[i]))
    && forall i :: 0 <= i < |values| - 1 ==> Peek(ts, from + 2 * i + 1, Comma)
  }

  ghost predicate ReadsOperand(ts: seq<Symbol>, from: nat, to: nat, op: Operator, values: seq<string>) {
    if op.In? || op.NotIn? then
      from + 1 < to && Peek(ts, from, Open) && ReadsValues(ts, from + 1, to - 1, values) && Peek(ts, to - 1, Close)
    else
      to == from + 1 && |values| == 1 && ReadsValue(ts, from, values[0]) && !Peek(ts, from, Open)
  }

  ghost predicate ReadsTerm(
    ts: seq<Symbol>, from: nat, to: nat, field: string, op: Operator, values: seq<string>)
  {
    && from < |ts| && ts[from].field == Some(field) && !Peek(ts, from, NotWord) && !Peek(ts, from, Open)
    && exists mid :: ReadsOperator(ts, from + 1, mid, op) && ReadsOperand(ts, mid, to, op, values)
  }

  // ---- Expressions

  /** The tokens between two places are a text of the form: an expression at level 0, a conjunction at level
      1, an operand of AND or NOT at level 2. */
  ghost predicate Reads(ts: seq<Symbol>, from: nat, to: nat, f: Form, level: nat)
    decreases f
  {
    match f
    case Leaf(field, op, values) => ReadsTerm(ts, from, to, field, op, values)
    case Negated(v) => Peek(ts, from, NotWord) && Reads(ts, from + 1, to, v, 2)
    case Both(l, r) =>
      level <= 1
      && exists mid: nat :: Peek(ts, mid, AndWord) && Reads(ts, from, mid, l, 1) && Reads(ts, mid + 1, to, r, 2)
    case Either(l, r) =>
      level == 0
      && exists mid: nat :: Peek(ts, mid, OrWord) && Reads(ts, from, mid, l, 0) && Reads(ts, mid + 1, to, r, 1)
    case Enclosed(v) =>
      Peek(ts, from, Open) && to > 0 && Peek(ts, to - 1, Close) && Reads(ts, from + 1, to - 1, v, 0)
  }

  lemma {:induction false} ReadsAtLower(ts: seq<Symbol>, from: nat, to: nat, f: Form, level: nat, lower: nat)
    requires Reads(ts, from, to, f, level) && lower <= level
    ensures Reads(ts, from, to, f, lower)
  {}

  // ---- What the parser accepts has a form

  lemma {:induction false} ValuesRead(ts: seq<Symbol>, length: nat, c: nat, acc: seq<string>)
    requires ParseValues(ts, length, c, acc).Ok?
    ensures var p := ParseValues(ts, length, c, acc).value;
      && acc <= p.value && ReadsValues(ts, c, p.cursor, p.value[|acc|..])
    decreases |ts| - c
  {
    var p := ParseValues(ts, length, c, acc).value;
    if Peek(ts, c + 1, Comma) {
      ValuesRead(ts, length, c + 2, acc + [ts[c].value]);
      var rest := p.value[|acc| + 1..];
      var values := p.value[|acc|..];
      assert values == [ts[c].value] + rest;
      forall i | 0 <= i < |values| ensures ReadsValue(ts, c + 2 * i, values[i]) {
        if i > 0 { assert ReadsValue(ts, c + 2 + 2 * (i - 1), rest[i - 1]); }
      }
      forall i | 0 <= i < |values| - 1 ensures Peek(ts, c + 2 * i + 1, Comma) {
        if i > 0 { assert Peek(ts, c + 2 + 2 * (i - 1) + 1, Comma); }
      }
    } else {
      assert p.value[|acc|..] == [ts[c].value];
    }
  }

  lemma TermReads(ts: seq<Symbol>, length: nat, c: nat, cost: nat, p: Parsed<Ast>)
    requires ParseTerm(ts, length, c, cost) == Ok(p) && !Peek(ts, c, NotWord) && !Peek(ts, c, Open)
    ensures p.value.Term? && ReadsTerm(ts, c, p.cursor, p.value.field, p.value.op, p.value.values)
  {
    var o := ParseOperator(ts, length, c + 1).value;
    assert ReadsOperator(ts, c + 1, o.cursor, o.value);
    if o.value.In? || o.value.NotIn? {
      ValuesRead(ts, length, o.cursor + 1, []);
      var v := ParseValues(ts, length, o.cursor + 1, []).value;
      assert v.value[0..] == v.value;
    }
    assert ReadsOperand(ts, o.cursor, p.cursor, o.value, p.value.values);
  }

  lemma {:induction false} UnaryReads(ts: seq<Symbol>, length: nat, c: nat, cost: nat, p: Parsed<Ast>)
    returns (f: Form)
    requires ParseUnary(ts, length, c, cost) == Ok(p)
    ensures Reads(ts, c, p.cursor, f, 2) && TreeOf(f) == p.value
    decreases |ts| - c, 0
  {
    if Peek(ts, c, NotWord) {
      var q := ParseUnary(ts, length, c + 1, cost + 2).value;
      var v := UnaryReads(ts, length, c + 1, cost + 2, q);
      f := Negated(v);
    } else if Peek(ts, c, Open) {
      var q := ParseExpression(ts, length, c + 1, cost).value;
      var v := ExpressionReads(ts, length, c + 1, cost, q);
      f := Enclosed(v);
    } else {
      TermReads(ts, length, c, cost, p);
      f := Leaf(p.value.field, p.value.op, p.value.values);
    }
  }

  lemma {:induction false} ConjunctionReads(ts: seq<Symbol>, length: nat, c: nat, cost: nat, p: Parsed<Ast>)
    returns (f: Form)
    requires ParseConjunction(ts, length, c, cost) == Ok(p)
    ensures Reads(ts, c, p.cursor, f, 1) && TreeOf(f) == p.value
    decreases |ts| - c, 1
  {
    var q := ParseUnary(ts, length, c, cost).value;
    var left := UnaryReads(ts, length, c, cost, q);
    ReadsAtLower(ts, c, q.cursor, left, 2, 1);
    f := AndsRead(ts, length, c, left, q.cursor, q.cost, p);
  }

  lemma {:induction false} AndsRead(
    ts: seq<Symbol>, length: nat, from: nat, left: Form, c: nat, cost: nat, p: Parsed<Ast>) returns (f: Form)
    requires from < c <= |ts| && Reads(ts, from, c, left, 1)
    requires MoreAnds(ts, length, TreeOf(left), c, cost) == Ok(p)
    ensures Reads(ts, from, p.cursor, f, 1) && TreeOf(f) == p.value
    decreases |ts| - c, 1
  {
    if Peek(ts, c, AndWord) {
      var q := ParseUnary(ts, length, c + 1, cost).value;
      var right := UnaryReads(ts, length, c + 1, cost, q);
      AndStep(ts, length, TreeOf(left), c, cost, q);
      f := AndsRead(ts, length, from, Both(left, right), q.cursor, q.cost + 1, p);
    } else {
      f := left;
    }
  }

  lemma {:induction false} ExpressionReads(ts: seq<Symbol>, length: nat, c: nat, cost: nat, p: Parsed<Ast>)
    returns (f: Form)
    requires ParseExpression(ts, length, c, cost) == Ok(p)
    ensures Reads(ts, c, p.cursor, f, 0) && TreeOf(f) == p.value
    decreases |ts| - c, 2
  {
    var q := ParseConjunction(ts, length, c, cost).value;
    var left := ConjunctionReads(ts, length, c, cost, q);
    ReadsAtLower(ts, c, q.cursor, left, 1, 0);
    f := OrsRead(ts, length, c, left, q.cursor, q.cost, p);
  }

  lemma {:induction false} OrsRead(
    ts: seq<Symbol>, length: nat, from: nat, left: Form, c: nat, cost: nat, p: Parsed<Ast>) returns (f: Form)
    requires from < c <= |ts| && Reads(ts, from, c, left, 0)
    requires MoreOrs(ts, length, TreeOf(left), c, cost) == Ok(p)
    ensures Reads(ts, from, p.cursor, f, 0) && TreeOf(f) == p.value
    decreases |ts| - c, 2
  {
    if Peek(ts, c, OrWord) {
      var q := ParseConjunction(ts, length, c + 1, cost).value;
      var right := ConjunctionReads(ts, length, c + 1, cost, q);
      OrStep(ts, length, TreeOf(left), c, cost, q);
      f := OrsRead(ts, length, from, Either(left, right), q.cursor, q.cost + 3, p);
    } else {
      f := left;
    }
  }

  // ---- What has a form the parser accepts

  lemma {:induction false} ValuesParse(
    ts: seq<Symbol>, length: nat, from: nat, to: nat, values: seq<string>, acc: seq<string>)
    requires ReadsValues(ts, from, to, values) && !Peek(ts, to, Comma)
    ensures ParseValues(ts, length, from, acc) == Ok(Parsed(acc + values, to, 0))
    decreases |values|
  {
    assert ReadsValue(ts, from + 2 * 0, values[0]);
    if |values| == 1 {
      assert values == [values[0]];
    } else {
      var rest := values[1..];
      assert Peek(ts, from + 2 * 0 + 1, Comma);
      forall i | 0 <= i < |rest| ensures ReadsValue(ts, from + 2 + 2 * i, rest[i]) {
        assert ReadsValue(ts, from + 2 * (i + 1), values[i + 1]);
      }
      forall i | 0 <= i < |rest| - 1 ensures Peek(ts, from + 2 + 2 * i + 1, Comma) {
        assert Peek(ts, from + 2 * (i + 1) + 1, Comma);
      }
      ValuesParse(ts, length, from + 2, to, rest, acc + [values[0]]);
      assert acc + [values[0]] + rest == acc + values;
    }
  }

  lemma ListParses(ts: seq<Symbol>, length: nat, from: nat, to: nat, op: Operator, values: seq<string>)
    requires (op.In? || op.NotIn?) && from + 1 < to && Peek(ts, from, Open) && Peek(ts, to - 1, Close)
    requires ParseValues(ts, length, from + 1, []) == Ok(Parsed(values, to - 1, 0))
    ensures ParseOperand(ts, length, op, from) == Ok(Parsed(values, to, 0))
  {}

  lemma OperandParses(ts: seq<Symbol>, length: nat, from: nat, to: nat, op: Operator, values: seq<string>)
    requires ReadsOperand(ts, from, to, op, values)
    ensures ParseOperand(ts, length, op, from) == Ok(Parsed(values, to, 0))
  {
    if op.In? || op.NotIn? {
      ValuesParse(ts, length, from + 1, to - 1, values, []);
      assert [] + values == values;
      ListParses(ts, length, from, to, op, values);
    } else {
      assert values == [values[0]];
    }
  }

  lemma TermParses(
    ts: seq<Symbol>, length: nat, from: nat, to: nat, field: string, op: Operator, values: seq<string>, cost: nat)
    requires ReadsTerm(ts, from, to, field, op, values) && Affordable(Term(field, op, values), cost)
    ensures ParseTerm(ts, length, from, cost)
      == Ok(Parsed(Term(field, op, values), to, cost + Cost(Term(field, op, values))))
  {
    var mid :| ReadsOperator(ts, from + 1, mid, op) && ReadsOperand(ts, mid, to, op, values);
    OperandParses(ts, length, mid, to, op, values);
  }

  /** Where the sides of a connective stand, and what each may spend. */
  lemma BothParts(ts: seq<Symbol>, from: nat, to: nat, f: Form, cost: nat) returns (mid: nat, paid: nat)
    requires f.Both? && Reads(ts, from, to, f, 1) && Affordable(TreeOf(f), cost)
    ensures Peek(ts, mid, AndWord) && Reads(ts, from, mid, f.left, 1) && Reads(ts, mid + 1, to, f.right, 2)
    ensures paid == cost + Cost(TreeOf(f.left)) && cost + Cost(TreeOf(f)) == paid + Cost(TreeOf(f.right)) + 1
    ensures Affordable(TreeOf(f.left), cost) && Affordable(TreeOf(f.right), paid)
  {
    mid :| Peek(ts, mid, AndWord) && Reads(ts, from, mid, f.left, 1) && Reads(ts, mid + 1, to, f.right, 2);
    paid := cost + Cost(TreeOf(f.left));
  }

  lemma EitherParts(ts: seq<Symbol>, from: nat, to: nat, f: Form, cost: nat) returns (mid: nat, paid: nat)
    requires f.Either? && Reads(ts, from, to, f, 0) && Affordable(TreeOf(f), cost)
    ensures Peek(ts, mid, OrWord) && Reads(ts, from, mid, f.left, 0) && Reads(ts, mid + 1, to, f.right, 1)
    ensures paid == cost + Cost(TreeOf(f.left)) && cost + Cost(TreeOf(f)) == paid + Cost(TreeOf(f.right)) + 3
    ensures Affordable(TreeOf(f.left), cost) && Affordable(TreeOf(f.right), paid)
  {
    mid :| Peek(ts, mid, OrWord) && Reads(ts, from, mid, f.left, 0) && Reads(ts, mid + 1, to, f.right, 1);
    paid := cost + Cost(TreeOf(f.left));
  }

  /** A text of an operand is read as its tree, with the cursor behind it and its cost added. */
  lemma {:induction false} FormParsesUnary(ts: seq<Symbol>, length: nat, from: nat, to: nat, f: Form, cost: nat)
    requires Reads(ts, from, to, f, 2) && Affordable(TreeOf(f), cost)
    ensures ParseUnary(ts, length, from, cost) == Ok(Parsed(TreeOf(f), to, cost + Cost(TreeOf(f))))
    decreases f, 0
  {
    match f
    case Leaf(field, op, values) => TermParses(ts, length, from, to, field, op, values, cost);
    case Negated(v) => FormParsesUnary(ts, length, from + 1, to, v, cost + 2);
    case Enclosed(v) =>
      FormParsesExpression(ts, length, from + 1, to - 1, v, cost);
      assert MoreOrs(ts, length, TreeOf(v), to - 1, cost + Cost(TreeOf(v)))
        == Ok(Parsed(TreeOf(v), to - 1, cost + Cost(TreeOf(v))));
  }

  /** A text of a conjunction brings the parser to its loop with the tree as left side. */
  lemma {:induction false} FormParsesConjunction(
    ts: seq<Symbol>, length: nat, from: nat, to: nat, f: Form, cost: nat)
    requires Reads(ts, from, to, f, 1) && Affordable(TreeOf(f), cost)
    ensures to <= |ts|
    ensures ParseConjunction(ts, length, from, cost) == MoreAnds(ts, length, TreeOf(f), to, cost + Cost(TreeOf(f)))
    decreases f, 1
  {
    if f.Both? {
      BothParses(ts, length, from, to, f, cost);
    } else {
      FormParsesUnary(ts, length, from, to, f, cost);
      ConjunctionOfUnary(ts, length, from, cost, Parsed(TreeOf(f), to, cost + Cost(TreeOf(f))));
    }
  }

  lemma {:induction false} BothParses(ts: seq<Symbol>, length: nat, from: nat, to: nat, f: Form, cost: nat)
    requires f.Both? && Reads(ts, from, to, f, 1) && Affordable(TreeOf(f), cost)
    ensures to <= |ts|
    ensures ParseConjunction(ts, length, from, cost) == MoreAnds(ts, length, TreeOf(f), to, cost + Cost(TreeOf(f)))
    decreases f, 0
  {
    var mid, paid := BothParts(ts, from, to, f, cost);
    FormParsesConjunction(ts, length, from, mid, f.left, cost);
    FormParsesUnary(ts, length, mid + 1, to, f.right, paid);
    AndStep(ts, length, TreeOf(f.left), mid, paid, Parsed(TreeOf(f.right), to, paid + Cost(TreeOf(f.right))));
  }

  /** The same for expressions, unless an AND follows. */
  lemma {:induction false} FormParsesExpression(
    ts: seq<Symbol>, length: nat, from: nat, to: nat, f: Form, cost: nat)
    requires Reads(ts, from, to, f, 0) && Affordable(TreeOf(f), cost) && !Peek(ts, to, AndWord)
    ensures to <= |ts|
    ensures ParseExpression(ts, length, from, cost) == MoreOrs(ts, length, TreeOf(f), to, cost + Cost(TreeOf(f)))
    decreases f, 3
  {
    if f.Either? {
      EitherParses(ts, length, from, to, f, cost);
    } else {
      FormParsesConjunction(ts, length, from, to, f, cost);
      ExpressionOfConjunction(ts, length, from, cost, Parsed(TreeOf(f), to, cost + Cost(TreeOf(f))));
    }
  }

  lemma {:induction false} EitherParses(ts: seq<Symbol>, length: nat, from: nat, to: nat, f: Form, cost: nat)
    requires f.Either? && Reads(ts, from, to, f, 0) && Affordable(TreeOf(f), cost) && !Peek(ts, to, AndWord)
    ensures to <= |ts|
    ensures ParseExpression(ts, length, from, cost) == MoreOrs(ts, length, TreeOf(f), to, cost + Cost(TreeOf(f)))
    decreases f, 2
  {
    var mid, paid := EitherParts(ts, from, to, f, cost);
    var spent := paid + Cost(TreeOf(f.right));
    FormParsesExpression(ts, length, from, mid, f.left, cost);
    FormParsesConjunction(ts, length, mid + 1, to, f.right, paid);
    EitherTurn(ts, length, TreeOf(f), mid, paid, to, spent);
  }

  lemma EitherTurn(ts: seq<Symbol>, length: nat, a: Ast, mid: nat, paid: nat, to: nat, spent: nat)
    requires a.Or? && to <= |ts| && Peek(ts, mid, OrWord) && !Peek(ts, to, AndWord)
    requires ParseConjunction(ts, length, mid + 1, paid) == MoreAnds(ts, length, a.right, to, spent)
    ensures MoreOrs(ts, length, a.left, mid, paid) == MoreOrs(ts, length, a, to, spent + 3)
  {
    OrTurn(ts, length, a.left, mid, paid, Parsed(a.right, to, spent));
  }

  // ---- The two together

  ghost predicate Derives(ts: seq<Symbol>, a: Ast) {
    exists f :: Reads(ts, 0, |ts|, f, 0) && TreeOf(f) == a
  }

  /** Accepted with a tree is exactly what the grammar derives the tree from, within the limit at each term. */
  lemma AcceptsIffDerives(ts: seq<Symbol>, length: nat, a: Ast, cost: nat)
    ensures ParseTokens(ts, length) == Ok(Query(a, cost)) ==> Derives(ts, a)
    ensures Derives(ts, a) && Affordable(a, 0) && cost == Cost(a) ==> ParseTokens(ts, length) == Ok(Query(a, cost))
  {
    if ParseTokens(ts, length) == Ok(Query(a, cost)) {
      var f := ExpressionReads(ts, length, 0, 0, ParseExpression(ts, length, 0, 0).value);
    }
    if Derives(ts, a) && Affordable(a, 0) {
      var f :| Reads(ts, 0, |ts|, f, 0) && TreeOf(f) == a;
      FormParsesExpression(ts, length, 0, |ts|, f, 0);
      assert MoreOrs(ts, length, a, |ts|, Cost(a)) == Ok(Parsed(a, |ts|, Cost(a)));
    }
  }

  /** The symbols of a source, if it has tokens. */
  function SymbolsOf(source: string): Option<seq<Symbol>> {
    match Lex(source, 0)
    case Ok(ts) => Some(ClassifyAll(MeasuredAll(source, ts)))
    case Err(_) => None
  }

  /** A query is accepted with a tree exactly when it is short enough, has tokens from which the grammar
      derives the tree, and no term overruns the limit; its cost is that of the tree. */
  lemma AcceptedIff(source: string, a: Ast, cost: nat)
    ensures Parse(source) == Ok(Query(a, cost)) <==>
      && Units(source) <= MAX_QUERY_LENGTH && SymbolsOf(source).Some? && Derives(SymbolsOf(source).value, a)
      && Affordable(a, 0) && cost == Cost(a)
  {
    if SymbolsOf(source).Some? { AcceptsIffDerives(SymbolsOf(source).value, Units(source), a, cost); }
    if Parse(source) == Ok(Query(a, cost)) { AcceptedQueries(source); }
  }
}
