/** Printing a query tree with the fewest parentheses, and the parser as its inverse. */
module QueryRoundTrip {
  import opened Basics
  import opened Wrappers
  import opened QueryTokens
  import opened QueryParser
  import opened QueryLanguage

  // ---- The printer

  /** What the printer emits: a keyword or sign, a field name, or a quoted value. */
  datatype Piece = Sign(keyword: Keyword) | Name(field: string) | Value(value: string)

  function OperatorPieces(op: Operator): seq<Piece> {
    if op.NotIn? then [Sign(NotWord), Sign(Comparison(In))] else [Sign(Comparison(op))]
  }

  function ListPieces(values: seq<string>): seq<Piece> {
    if values == [] then []
    else if |values| == 1 then [Value(values[0])]
    else [Value(values[0])] + ([Sign(Comma)] + ListPieces(values[1..]))
  }

  function OperandPieces(op: Operator, values: seq<string>): seq<Piece> {
    if op.In? || op.NotIn? then [Sign(Open)] + (ListPieces(values) + [Sign(Close)]) else ListPieces(values)
  }

  /** Binding strength of the outermost connective. */
  function Strength(a: Ast): nat {
    match a
    case Or(_, _) => 0
    case And(_, _) => 1
    case _ => 2
  }

  /** The tree in pieces; parentheses only where `context` binds more strongly than the tree. */
  function Print(a: Ast, context: nat): seq<Piece>
    decreases a, if Strength(a) < context then 1 else 0
  {
    if Strength(a) < context then [Sign(Open)] + (Print(a, 0) + [Sign(Close)])
    else
      match a
      case Term(field, op, values) => [Name(field)] + (OperatorPieces(op) + OperandPieces(op, values))
      case Not(v) => [Sign(NotWord)] + Print(v, 2)
      case And(l, r) => Print(l, 1) + ([Sign(AndWord)] + Print(r, 2))
      case Or(l, r) => Print(l, 0) + ([Sign(OrWord)] + Print(r, 1))
  }

  function Spell(keyword: Keyword): string {
    match keyword
    case AndWord => "AND"
    case OrWord => "OR"
    case NotWord => "NOT"
    case Open => "("
    case Close => ")"
    case Comma => ","
    case Comparison(op) =>
      (match op
       case Eq => "="
       case Ne => "!="
       case Gt => ">"
       case Ge => ">="
       case Lt => "<"
       case Le => "<="
       case Like => "~"
       case In => "IN"
       case NotIn => "NOT IN")
    case Plain => ""
  }

  function LexemeOf(p: Piece): Lexeme {
    match p
    case Sign(keyword) => Bare(Spell(keyword))
    case Name(field) => Bare(field)
    case Value(value) => Quoted(value)
  }

  function Lexemes(ps: seq<Piece>): (ls: seq<Lexeme>)
    ensures |ls| == |ps| && forall i :: 0 <= i < |ps| ==> ls[i] == LexemeOf(ps[i])
  {
    seq(|ps|, i requires 0 <= i < |ps| => LexemeOf(ps[i]))
  }

  function PrintQuery(a: Ast): string {
    Render(Lexemes(Print(a, 0)))
  }

  // ---- Printed trees, seen through the parser's eyes

  function OperatorSize(op: Operator): nat {
    if op.NotIn? then 2 else 1
  }

  function OperandSize(op: Operator, count: nat): nat
    requires count > 0
  {
    if op.In? || op.NotIn? then 2 * count + 1 else 1
  }

  /** The number of pieces a tree prints to. */
  function Size(a: Ast, context: nat): nat
    decreases a, if Strength(a) < context then 1 else 0
  {
    if Strength(a) < context then Size(a, 0) + 2
    else
      match a
      case Term(_, op, values) => 1 + OperatorSize(op) + if values == [] then 0 else OperandSize(op, |values|)
      case Not(v) => 1 + Size(v, 2)
      case And(l, r) => Size(l, 1) + 1 + Size(r, 2)
      case Or(l, r) => Size(l, 0) + 1 + Size(r, 1)
  }

  ghost predicate ShowsValue(ts: seq<Symbol>, c: nat, value: string) {
    c < |ts| && ts[c].value == value && !ListSign(ts[c])
  }

  ghost predicate ShowsValues(ts: seq<Symbol>, c: nat, values: seq<string>)
    requires values != []
    decreases |values|
  {
    && ShowsValue(ts, c, values[0])
    && (|values| > 1 ==> Peek(ts, c + 1, Comma) && ShowsValues(ts, c + 2, values[1..]))
  }

  ghost predicate ShowsOperator(ts: seq<Symbol>, c: nat, op: Operator) {
    if op.NotIn? then Peek(ts, c, NotWord) && Peek(ts, c + 1, Comparison(In)) else Peek(ts, c, Comparison(op))
  }

  ghost predicate ShowsOperand(ts: seq<Symbol>, c: nat, op: Operator, values: seq<string>) {
    && values != []
    && if op.In? || op.NotIn? then
         Peek(ts, c, Open) && ShowsValues(ts, c + 1, values) && Peek(ts, c + 2 * |values|, Close)
       else |values| == 1 && ShowsValue(ts, c, values[0]) && !Peek(ts, c, Open)
  }

  ghost predicate ShowsTerm(ts: seq<Symbol>, c: nat, field: string, op: Operator, values: seq<string>) {
    && c < |ts| && ts[c].keyword == Plain && ts[c].field == Some(field)
    && ShowsOperator(ts, c + 1, op) && ShowsOperand(ts, c + 1 + OperatorSize(op), op, values)
  }

  /** The symbols from `c` on are a print of the tree. */
  ghost predicate Shows(ts: seq<Symbol>, c: nat, a: Ast, context: nat)
    decreases a, if Strength(a) < context then 1 else 0
  {
    if Strength(a) < context then
      Peek(ts, c, Open) && Shows(ts, c + 1, a, 0) && Peek(ts, c + 1 + Size(a, 0), Close)
    else
      match a
      case Term(field, op, values) => ShowsTerm(ts, c, field, op, values)
      case Not(v) => Peek(ts, c, NotWord) && Shows(ts, c + 1, v, 2)
      case And(l, r) =>
        Shows(ts, c, l, 1) && Peek(ts, c + Size(l, 1), AndWord) && Shows(ts, c + Size(l, 1) + 1, r, 2)
      case Or(l, r) =>
        Shows(ts, c, l, 0) && Peek(ts, c + Size(l, 0), OrWord) && Shows(ts, c + Size(l, 0) + 1, r, 1)
  }

  // ---- Parsing a printed tree
  // In the lemmas below `next` is the cursor behind the print and `spent` the cost after it.

  lemma {:induction false} ParsesValues(
    ts: seq<Symbol>, length: nat, op: Operator, c: nat, values: seq<string>, acc: seq<string>, next: nat)
    requires (op.In? || op.NotIn?) && values != []
    requires ShowsValues(ts, c, values) && next == c + 2 * |values| - 1 && Peek(ts, next, Close)
    ensures ParseValues(ts, length, c, acc) == Ok(Parsed(acc + values, next, 0))
    decreases |values|
  {
    if |values| == 1 {
      assert values == [values[0]];
    } else {
      ParsesValues(ts, length, op, c + 2, values[1..], acc + [values[0]], next);
      assert acc + [values[0]] + values[1..] == acc + values;
    }
  }

  lemma ParsesOperator(ts: seq<Symbol>, length: nat, op: Operator, c: nat)
    requires ShowsOperator(ts, c, op)
    ensures ParseOperator(ts, length, c) == Ok(Parsed(op, c + OperatorSize(op), 0))
  {}

  lemma ParsesList(ts: seq<Symbol>, length: nat, op: Operator, c: nat, values: seq<string>, next: nat)
    requires (op.In? || op.NotIn?) && values != []
    requires Peek(ts, c, Open) && ShowsValues(ts, c + 1, values) && Peek(ts, next, Close)
    requires next == c + 2 * |values|
    ensures ParseOperand(ts, length, op, c) == Ok(Parsed(values, next + 1, 0))
  {
    ParsesValues(ts, length, op, c + 1, values, [], next);
    assert [] + values == values;
  }

  lemma ParsesOperand(ts: seq<Symbol>, length: nat, op: Operator, c: nat, values: seq<string>, next: nat)
    requires ShowsOperand(ts, c, op, values)
    requires next == c + OperandSize(op, |values|)
    ensures ParseOperand(ts, length, op, c) == Ok(Parsed(values, next, 0))
  {
    if op.In? || op.NotIn? {
      ParsesList(ts, length, op, c, values, next - 1);
    } else {
      assert values == [values[0]];
    }
  }

  lemma ParsesTerm(ts: seq<Symbol>, length: nat, a: Ast, c: nat, cost: nat, next: nat, spent: nat)
    requires a.Term? && Affordable(a, cost) && Shows(ts, c, a, 2)
    requires next == c + Size(a, 2) && spent == cost + Cost(a)
    ensures ParseTerm(ts, length, c, cost) == Ok(Parsed(a, next, spent)) && ts[c].keyword == Plain
  {
    ParsesOperator(ts, length, a.op, c + 1);
    ParsesOperand(ts, length, a.op, c + 1 + OperatorSize(a.op), a.values, next);
  }

  /** The lemmas below call each other on one tree from the level that binds as it does outwards. */
  function Stage(a: Ast, level: nat): nat
    requires level <= 2
  {
    2 + (Strength(a) + 3 - level) % 3
  }

  lemma {:induction false} ParsesUnary(ts: seq<Symbol>, length: nat, a: Ast, c: nat, cost: nat, next: nat, spent: nat)
    requires Affordable(a, cost) && Shows(ts, c, a, 2)
    requires next == c + Size(a, 2) && spent == cost + Cost(a)
    ensures ParseUnary(ts, length, c, cost) == Ok(Parsed(a, next, spent))
    decreases a, Stage(a, 2)
  {
    if a.Term? {
      ParsesTerm(ts, length, a, c, cost, next, spent);
    } else if a.Not? {
      ParsesUnary(ts, length, a.value, c + 1, cost + 2, next, spent);
    } else {
      ParsesExpression(ts, length, a, c + 1, cost, next - 1, spent);
    }
  }

  lemma ConjunctionOfUnary(ts: seq<Symbol>, length: nat, c: nat, cost: nat, p: Parsed<Ast>)
    requires ParseUnary(ts, length, c, cost) == Ok(p)
    ensures p.cursor <= |ts| && ParseConjunction(ts, length, c, cost) == MoreAnds(ts, length, p.value, p.cursor, p.cost)
  {}

  lemma ExpressionOfConjunction(ts: seq<Symbol>, length: nat, c: nat, cost: nat, p: Parsed<Ast>)
    requires p.cursor <= |ts| && !Peek(ts, p.cursor, AndWord)
    requires ParseConjunction(ts, length, c, cost) == MoreAnds(ts, length, p.value, p.cursor, p.cost)
    ensures ParseConjunction(ts, length, c, cost) == Ok(p)
    ensures ParseExpression(ts, length, c, cost) == MoreOrs(ts, length, p.value, p.cursor, p.cost)
  {
    assert MoreAnds(ts, length, p.value, p.cursor, p.cost) == Ok(p);
  }

  lemma OrTurn(ts: seq<Symbol>, length: nat, left: Ast, c: nat, cost: nat, p: Parsed<Ast>)
    requires p.cursor <= |ts| && Peek(ts, c, OrWord) && !Peek(ts, p.cursor, AndWord)
    requires ParseConjunction(ts, length, c + 1, cost) == MoreAnds(ts, length, p.value, p.cursor, p.cost)
    ensures MoreOrs(ts, length, left, c, cost) == MoreOrs(ts, length, Or(left, p.value), p.cursor, p.cost + 3)
  {
    ExpressionOfConjunction(ts, length, c + 1, cost, p);
    OrStep(ts, length, left, c, cost, p);
  }

  /** The printed tree brings the conjunction parser to its loop with the tree as left side. */
  lemma {:induction false} ParsesConjunction(
    ts: seq<Symbol>, length: nat, a: Ast, c: nat, cost: nat, next: nat, spent: nat)
    requires Affordable(a, cost) && Shows(ts, c, a, 1)
    requires next == c + Size(a, 1) && spent == cost + Cost(a)
    ensures next <= |ts| && ParseConjunction(ts, length, c, cost) == MoreAnds(ts, length, a, next, spent)
    decreases a, Stage(a, 1)
  {
    if a.And? {
      ParsesAnd(ts, length, a, c, cost, next, spent);
    } else {
      ParsesUnary(ts, length, a, c, cost, next, spent);
      ConjunctionOfUnary(ts, length, c, cost, Parsed(a, next, spent));
    }
  }

  /** The same for the expression parser, unless an AND follows. */
  lemma {:induction false} ParsesExpression(
    ts: seq<Symbol>, length: nat, a: Ast, c: nat, cost: nat, next: nat, spent: nat)
    requires Affordable(a, cost) && Shows(ts, c, a, 0)
    requires next == c + Size(a, 0) && spent == cost + Cost(a)
    requires !Peek(ts, next, AndWord)
    ensures next <= |ts| && ParseExpression(ts, length, c, cost) == MoreOrs(ts, length, a, next, spent)
    decreases a, Stage(a, 0)
  {
    if a.Or? {
      ParsesOr(ts, length, a, c, cost, next, spent);
    } else {
      ParsesConjunction(ts, length, a, c, cost, next, spent);
      ExpressionOfConjunction(ts, length, c, cost, Parsed(a, next, spent));
    }
  }

  /** Where the parts of a printed connective stand, and what each may spend. */
  lemma AndParts(ts: seq<Symbol>, a: Ast, c: nat, cost: nat, middle: nat, paid: nat)
    requires a.And? && Affordable(a, cost) && Shows(ts, c, a, 1)
    requires middle == c + Size(a.left, 1) && paid == cost + Cost(a.left)
    ensures Affordable(a.left, cost) && Shows(ts, c, a.left, 1) && Peek(ts, middle, AndWord)
    ensures Affordable(a.right, paid) && Shows(ts, middle + 1, a.right, 2)
    ensures c + Size(a, 1) == middle + 1 + Size(a.right, 2) && cost + Cost(a) == paid + Cost(a.right) + 1
  {}

  lemma OrParts(ts: seq<Symbol>, a: Ast, c: nat, cost: nat, middle: nat, paid: nat)
    requires a.Or? && Affordable(a, cost) && Shows(ts, c, a, 0)
    requires middle == c + Size(a.left, 0) && paid == cost + Cost(a.left)
    ensures Affordable(a.left, cost) && Shows(ts, c, a.left, 0) && Peek(ts, middle, OrWord)
    ensures Affordable(a.right, paid) && Shows(ts, middle + 1, a.right, 1)
    ensures c + Size(a, 0) == middle + 1 + Size(a.right, 1) && cost + Cost(a) == paid + Cost(a.right) + 3
  {}

  lemma {:induction false} ParsesAnd(ts: seq<Symbol>, length: nat, a: Ast, c: nat, cost: nat, next: nat, spent: nat)
    requires a.And? && Affordable(a, cost) && Shows(ts, c, a, 1)
    requires next == c + Size(a, 1) && spent == cost + Cost(a)
    ensures next <= |ts| && ParseConjunction(ts, length, c, cost) == MoreAnds(ts, length, a, next, spent)
    decreases a, 1
  {
    var middle, paid := c + Size(a.left, 1), cost + Cost(a.left);
    AndParts(ts, a, c, cost, middle, paid);
    ParsesConjunction(ts, length, a.left, c, cost, middle, paid);
    ParsesAndRight(ts, length, a, middle, paid, next, spent - 1);
  }

  lemma {:induction false} ParsesAndRight(
    ts: seq<Symbol>, length: nat, a: Ast, middle: nat, paid: nat, next: nat, spent: nat)
    requires a.And? && Peek(ts, middle, AndWord)
    requires Affordable(a.right, paid) && Shows(ts, middle + 1, a.right, 2)
    requires next == middle + 1 + Size(a.right, 2) && spent == paid + Cost(a.right)
    ensures next <= |ts| && MoreAnds(ts, length, a.left, middle, paid) == MoreAnds(ts, length, a, next, spent + 1)
    decreases a, 0
  {
    ParsesUnary(ts, length, a.right, middle + 1, paid, next, spent);
    AndStep(ts, length, a.left, middle, paid, Parsed(a.right, next, spent));
  }

  lemma {:induction false} ParsesOr(ts: seq<Symbol>, length: nat, a: Ast, c: nat, cost: nat, next: nat, spent: nat)
    requires a.Or? && Affordable(a, cost) && Shows(ts, c, a, 0)
    requires next == c + Size(a, 0) && spent == cost + Cost(a)
    requires !Peek(ts, next, AndWord)
    ensures next <= |ts| && ParseExpression(ts, length, c, cost) == MoreOrs(ts, length, a, next, spent)
    decreases a, 1
  {
    var middle, paid := c + Size(a.left, 0), cost + Cost(a.left);
    OrParts(ts, a, c, cost, middle, paid);
    ParsesExpression(ts, length, a.left, c, cost, middle, paid);
    ParsesOrRight(ts, length, a, middle, paid, next, spent - 3);
  }

  lemma {:induction false} ParsesOrRight(
    ts: seq<Symbol>, length: nat, a: Ast, middle: nat, paid: nat, next: nat, spent: nat)
    requires a.Or? && Peek(ts, middle, OrWord) && !Peek(ts, next, AndWord)
    requires Affordable(a.right, paid) && Shows(ts, middle + 1, a.right, 1)
    requires next == middle + 1 + Size(a.right, 1) && spent == paid + Cost(a.right)
    ensures next <= |ts| && MoreOrs(ts, length, a.left, middle, paid) == MoreOrs(ts, length, a, next, spent + 3)
    decreases a, 0
  {
    ParsesConjunction(ts, length, a.right, middle + 1, paid, next, spent);
    OrTurn(ts, length, a.left, middle, paid, Parsed(a.right, next, spent));
  }

  // ---- What a printed tree shows

  lemma {:induction false} ListSize(values: seq<string>)
    requires values != []
    ensures |ListPieces(values)| == 2 * |values| - 1
    decreases |values|
  {
    if |values| > 1 { ListSize(values[1..]); }
  }

  lemma {:induction false} PrintSize(a: Ast, context: nat)
    requires WellFormed(a)
    ensures |Print(a, context)| == Size(a, context)
    decreases a, if Strength(a) < context then 1 else 0
  {
    if Strength(a) < context {
      PrintSize(a, 0);
    } else {
      match a
      case Term(_, op, values) => ListSize(values);
      case Not(v) => PrintSize(v, 2);
      case And(l, r) => PrintSize(l, 1); PrintSize(r, 2);
      case Or(l, r) => PrintSize(l, 0); PrintSize(r, 1);
    }
  }

  /** A symbol that carries the reading of a piece. */
  ghost predicate ReadsAs(s: Symbol, p: Piece) {
    match p
    case Sign(keyword) => s.keyword == keyword
    case Name(field) => s.keyword == Plain && s.field == Some(field)
    case Value(value) => s.value == value && s.keyword == KeywordOf(value)
  }

  ghost predicate At(ts: seq<Symbol>, c: nat, ps: seq<Piece>) {
    c + |ps| <= |ts| && forall i :: 0 <= i < |ps| ==> ReadsAs(ts[c + i], ps[i])
  }

  lemma AtSplit(ts: seq<Symbol>, c: nat, xs: seq<Piece>, ys: seq<Piece>)
    requires At(ts, c, xs + ys)
    ensures At(ts, c, xs) && At(ts, c + |xs|, ys)
  {
    assert forall i :: 0 <= i < |xs| ==> (xs + ys)[i] == xs[i];
    forall i | 0 <= i < |ys| ensures ReadsAs(ts[c + |xs| + i], ys[i]) {
      assert ReadsAs(ts[c + (|xs| + i)], (xs + ys)[|xs| + i]);
    }
  }

  lemma AtFirst(ts: seq<Symbol>, c: nat, p: Piece)
    requires At(ts, c, [p])
    ensures c < |ts| && ReadsAs(ts[c], p)
  {
    assert ReadsAs(ts[c + 0], [p][0]);
  }

  lemma InfixAt(ts: seq<Symbol>, c: nat, left: seq<Piece>, word: Keyword, right: seq<Piece>)
    requires At(ts, c, left + ([Sign(word)] + right))
    ensures At(ts, c, left) && Peek(ts, c + |left|, word) && At(ts, c + |left| + 1, right)
  {
    AtSplit(ts, c, left, [Sign(word)] + right);
    AtSplit(ts, c + |left|, [Sign(word)], right);
    AtFirst(ts, c + |left|, Sign(word));
  }

  lemma BracketAt(ts: seq<Symbol>, c: nat, inner: seq<Piece>)
    requires At(ts, c, [Sign(Open)] + (inner + [Sign(Close)]))
    ensures Peek(ts, c, Open) && At(ts, c + 1, inner) && Peek(ts, c + 1 + |inner|, Close)
  {
    AtSplit(ts, c, [Sign(Open)], inner + [Sign(Close)]);
    AtSplit(ts, c + 1, inner, [Sign(Close)]);
    AtFirst(ts, c, Sign(Open));
    AtFirst(ts, c + 1 + |inner|, Sign(Close));
  }

  lemma {:induction false} ValuesShow(ts: seq<Symbol>, c: nat, op: Operator, values: seq<string>)
    requires values != [] && At(ts, c, ListPieces(values)) && forall v <- values :: ValueAllowed(op, v)
    ensures ShowsValues(ts, c, values)
    decreases |values|
  {
    assert ValueAllowed(op, values[0]);
    if |values| == 1 {
      AtFirst(ts, c, Value(values[0]));
    } else {
      InfixAt(ts, c, [Value(values[0])], Comma, ListPieces(values[1..]));
      AtFirst(ts, c, Value(values[0]));
      ValuesShow(ts, c + 2, op, values[1..]);
    }
  }

  lemma ListShows(ts: seq<Symbol>, c: nat, op: Operator, values: seq<string>)
    requires (op.In? || op.NotIn?) && values != [] && At(ts, c, OperandPieces(op, values)) && AllAllowed(op, values)
    ensures ShowsOperand(ts, c, op, values)
  {
    forall v <- values ensures ValueAllowed(op, v) {
      EachAllowed(op, values, v);
    }
    BracketAt(ts, c, ListPieces(values));
    ListSize(values);
    ValuesShow(ts, c + 1, op, values);
  }

  lemma SingleShows(ts: seq<Symbol>, c: nat, op: Operator, values: seq<string>)
    requires !op.In? && !op.NotIn? && |values| == 1 && At(ts, c, OperandPieces(op, values)) && AllAllowed(op, values)
    ensures ShowsOperand(ts, c, op, values)
  {
    EachAllowed(op, values, values[0]);
    AtFirst(ts, c, Value(values[0]));
  }

  lemma OperatorShows(ts: seq<Symbol>, c: nat, op: Operator)
    requires At(ts, c, OperatorPieces(op))
    ensures ShowsOperator(ts, c, op)
  {
    if op.NotIn? {
      assert OperatorPieces(op) == [Sign(NotWord)] + [Sign(Comparison(In))];
      AtSplit(ts, c, [Sign(NotWord)], [Sign(Comparison(In))]);
      AtFirst(ts, c, Sign(NotWord));
      AtFirst(ts, c + 1, Sign(Comparison(In)));
    } else {
      AtFirst(ts, c, Sign(Comparison(op)));
    }
  }

  lemma TermShows(ts: seq<Symbol>, c: nat, a: Ast)
    requires a.Term? && WellFormed(a) && At(ts, c, Print(a, 2))
    ensures ShowsTerm(ts, c, a.field, a.op, a.values)
  {
    var op, operand := OperatorPieces(a.op), OperandPieces(a.op, a.values);
    AtSplit(ts, c, [Name(a.field)], op + operand);
    AtSplit(ts, c + 1, op, operand);
    AtFirst(ts, c, Name(a.field));
    OperatorShows(ts, c + 1, a.op);
    if a.op.In? || a.op.NotIn? {
      ListShows(ts, c + 1 + |op|, a.op, a.values);
    } else {
      SingleShows(ts, c + 1 + |op|, a.op, a.values);
    }
  }

  lemma {:induction false} PrintShows(ts: seq<Symbol>, c: nat, a: Ast, context: nat)
    requires WellFormed(a) && At(ts, c, Print(a, context))
    ensures Shows(ts, c, a, context)
    decreases a, if Strength(a) < context then 3 else 1
  {
    if Strength(a) < context {
      BracketShows(ts, c, a, context);
    } else if a.Term? {
      TermShows(ts, c, a);
    } else if a.Not? {
      NotShows(ts, c, a);
    } else if a.And? {
      AndShows(ts, c, a, context);
    } else {
      OrShows(ts, c, a);
    }
  }

  lemma {:induction false} BracketShows(ts: seq<Symbol>, c: nat, a: Ast, context: nat)
    requires Strength(a) < context && WellFormed(a) && At(ts, c, Print(a, context))
    ensures Shows(ts, c, a, context)
    decreases a, 2
  {
    BracketAt(ts, c, Print(a, 0));
    PrintSize(a, 0);
    PrintShows(ts, c + 1, a, 0);
  }

  lemma {:induction false} NotShows(ts: seq<Symbol>, c: nat, a: Ast)
    requires a.Not? && WellFormed(a) && At(ts, c, Print(a, 2))
    ensures Shows(ts, c, a, 2)
    decreases a, 0
  {
    AtSplit(ts, c, [Sign(NotWord)], Print(a.value, 2));
    AtFirst(ts, c, Sign(NotWord));
    PrintShows(ts, c + 1, a.value, 2);
  }

  lemma {:induction false} AndShows(ts: seq<Symbol>, c: nat, a: Ast, context: nat)
    requires a.And? && context <= 1 && WellFormed(a) && At(ts, c, Print(a, context))
    ensures Shows(ts, c, a, context)
    decreases a, 0
  {
    InfixAt(ts, c, Print(a.left, 1), AndWord, Print(a.right, 2));
    PrintSize(a.left, 1);
    PrintShows(ts, c, a.left, 1);
    PrintShows(ts, c + Size(a.left, 1) + 1, a.right, 2);
  }

  lemma {:induction false} OrShows(ts: seq<Symbol>, c: nat, a: Ast)
    requires a.Or? && WellFormed(a) && At(ts, c, Print(a, 0))
    ensures Shows(ts, c, a, 0)
    decreases a, 0
  {
    InfixAt(ts, c, Print(a.left, 0), OrWord, Print(a.right, 1));
    PrintSize(a.left, 0);
    PrintShows(ts, c, a.left, 0);
    PrintShows(ts, c + Size(a.left, 0) + 1, a.right, 1);
  }

  // ---- From text to symbols

  /** Keywords and signs that occur in prints. */
  predicate Printed(keyword: Keyword) {
    !keyword.Plain? && keyword != Comparison(NotIn)
  }

  predicate Printable(p: Piece) {
    match p
    case Sign(keyword) => Printed(keyword)
    case Name(field) => FieldOf(field) == Some(field)
    case Value(_) => true
  }

  lemma {:induction false} ListPrintable(values: seq<string>)
    ensures forall p <- ListPieces(values) :: Printable(p)
    decreases |values|
  {
    if |values| > 1 { ListPrintable(values[1..]); }
  }

  lemma TermPrintable(a: Ast)
    requires a.Term? && FieldOf(a.field) == Some(a.field)
    ensures forall p <- Print(a, 2) :: Printable(p)
  {
    ListPrintable(a.values);
  }

  lemma {:induction false} PrintPrintable(a: Ast, context: nat)
    requires WellFormed(a)
    ensures AllPrintable(Print(a, context))
    decreases a, if Strength(a) < context then 1 else 0
  {
    if Strength(a) < context {
      PrintPrintable(a, 0);
      BracketPrintable(a, context);
    } else {
      match a
      case Term(_, _, _) => TermPrintable(a);
      case Not(v) => PrintPrintable(v, 2); NotPrintable(a);
      case And(l, r) => PrintPrintable(l, 1); PrintPrintable(r, 2); InfixPrintable(Print(l, 1), AndWord, Print(r, 2));
      case Or(l, r) => PrintPrintable(l, 0); PrintPrintable(r, 1); InfixPrintable(Print(l, 0), OrWord, Print(r, 1));
    }
  }

  ghost predicate AllPrintable(ps: seq<Piece>) {
    forall p <- ps :: Printable(p)
  }

  lemma BracketPrintable(a: Ast, context: nat)
    requires Strength(a) < context && AllPrintable(Print(a, 0))
    ensures AllPrintable(Print(a, context))
  {}

  lemma NotPrintable(a: Ast)
    requires a.Not? && AllPrintable(Print(a.value, 2))
    ensures AllPrintable(Print(a, 2))
  {}

  lemma InfixPrintable(left: seq<Piece>, word: Keyword, right: seq<Piece>)
    requires Printed(word) && AllPrintable(left) && AllPrintable(right)
    ensures AllPrintable(left + ([Sign(word)] + right))
  {}

  lemma {:induction false} FoldedAt(s: string)
    ensures |Upper(s)| == |s| && forall i :: 0 <= i < |s| ==> Upper(s)[i] == UpperChar(s[i])
    ensures |Lower(s)| == |s| && forall i :: 0 <= i < |s| ==> Lower(s)[i] == LowerChar(s[i])
    decreases |s|
  {
    if s != "" {
      FoldedAt(s[1..]);
      assert forall i :: 0 < i < |s| ==> s[i] == s[1..][i - 1];
    }
  }

  lemma {:induction false} LookupAt(table: seq<(string, Keyword)>, i: nat, word: string)
    requires i < |table| && table[i].0 == word && forall k :: 0 <= k < i ==> table[k].0 != word
    ensures Lookup(table, word) == table[i].1
    decreases |table|
  {
    if i > 0 {
      assert table[0].0 != word;
      LookupAt(table[1..], i - 1, word);
    }
  }

  lemma {:induction false} LookupFinds(table: seq<(string, Keyword)>, word: string) returns (i: nat)
    ensures Lookup(table, word) != Plain ==> i < |table| && table[i].0 == word
    decreases |table|
  {
    i := 0;
    if table != [] && table[0].0 != word {
      i := LookupFinds(table[1..], word);
      i := i + 1;
    }
  }

  lemma {:induction false} IncludesAt(list: seq<string>, s: string) returns (i: nat)
    requires Includes(list, s)
    ensures i < |list| && list[i] == s
    decreases |list|
  {
    i := 0;
    if list[0] != s {
      i := IncludesAt(list[1..], s);
      i := i + 1;
    }
  }

  lemma {:induction false} IncludedAt(list: seq<string>, i: nat)
    requires i < |list|
    ensures Includes(list, list[i])
    decreases i
  {
    if i > 0 { IncludedAt(list[1..], i - 1); }
  }

  lemma KeywordsDiffer()
    ensures forall i, j :: 0 <= i < j < |KEYWORDS| ==> KEYWORDS[i].0 != KEYWORDS[j].0
  {}

  function Place(keyword: Keyword): nat {
    match keyword
    case AndWord => 0
    case OrWord => 1
    case NotWord => 2
    case Open => 3
    case Close => 4
    case Comma => 5
    case Comparison(op) =>
      (match op
       case Eq => 6
       case Ne => 7
       case Gt => 8
       case Ge => 9
       case Lt => 10
       case Le => 11
       case Like => 12
       case In => 13
       case NotIn => 14)
    case Plain => 15
  }

  lemma SpellingIsUpper(keyword: Keyword)
    ensures Upper(Spell(keyword)) == Spell(keyword)
  {
    FoldedAt(Spell(keyword));
    SpellingIsFixed(keyword);
    assert forall i :: 0 <= i < |Spell(keyword)| ==> Upper(Spell(keyword))[i] == Spell(keyword)[i];
  }

  lemma SpellingIsFixed(keyword: Keyword)
    ensures forall i :: 0 <= i < |Spell(keyword)| ==> UpperChar(Spell(keyword)[i]) == Spell(keyword)[i]
  {}

  lemma SpellingAtPlace(keyword: Keyword)
    requires !keyword.Plain?
    ensures Place(keyword) < |KEYWORDS| && KEYWORDS[Place(keyword)] == (Spell(keyword), keyword)
  {}

  lemma SpellingIsLexable(keyword: Keyword)
    requires Printed(keyword)
    ensures Lexable(Bare(Spell(keyword)))
  {}

  /** Every word and sign the printer uses is one token and read as itself. */
  lemma SpellingReads(keyword: Keyword)
    requires !keyword.Plain?
    ensures KeywordOf(Spell(keyword)) == keyword
  {
    SpellingIsUpper(keyword);
    SpellingAtPlace(keyword);
    KeywordsDiffer();
    LookupAt(KEYWORDS, Place(keyword), Spell(keyword));
  }

  /** Every listed field but one is a lower-case word of at least three letters. */
  lemma FieldShapes()
    ensures forall i :: 0 <= i < |QUERY_FIELDS| && i != 15 ==>
      2 < |QUERY_FIELDS[i]| <= 11 && forall k :: 0 <= k < |QUERY_FIELDS[i]| ==> 'a' <= QUERY_FIELDS[i][k] <= 'z'
    ensures QUERY_FIELDS[15][7] == 'T'
  {}

  /** A field and a keyword of the same length differ in their first or third letter. */
  lemma FieldsDifferFromKeywords()
    ensures forall i, j :: 0 <= i < |QUERY_FIELDS| && 0 <= j < |KEYWORDS| && |QUERY_FIELDS[i]| == |KEYWORDS[j].0| ==>
      UpperChar(QUERY_FIELDS[i][0]) != KEYWORDS[j].0[0] || UpperChar(QUERY_FIELDS[i][2]) != KEYWORDS[j].0[2]
  {}

  /** The camel-cased `requestType` can never be read as a field. */
  lemma RequestTypeIsNoField(value: string)
    ensures Lower(value) != "requestType" && FieldOf(value) != Some("requestType")
  {
    FoldedAt(value);
    var listed := "requestType";
    assert listed[7] == 'T';
    assert |value| > 7 ==> Lower(value)[7] != listed[7];
  }

  /** The place of a field that is its own lower case. */
  lemma FieldPlace(field: string) returns (i: nat)
    requires FieldOf(field) == Some(field)
    ensures i < |QUERY_FIELDS| && QUERY_FIELDS[i] == field && i != 15
  {
    i := IncludesAt(QUERY_FIELDS, Lower(field));
    RequestTypeIsNoField(field);
  }

  lemma FieldIsPlain(field: string)
    requires FieldOf(field) == Some(field)
    ensures KeywordOf(field) == Plain
  {
    var i := FieldPlace(field);
    FoldedAt(field);
    var j := LookupFinds(KEYWORDS, Upper(field));
    FieldShapes();
    FieldsDifferFromKeywords();
  }

  lemma FieldIsLexable(field: string)
    requires FieldOf(field) == Some(field)
    ensures Lexable(Bare(field))
  {
    var i := FieldPlace(field);
    FieldShapes();
    forall c <- field ensures WordChar(c) {
      var k :| 0 <= k < |field| && field[k] == c;
    }
  }

  lemma PrintedSymbols(a: Ast) returns (ts: seq<Symbol>)
    requires WellFormed(a)
    ensures Lex(PrintQuery(a), 0).Ok? && ts == ClassifyAll(MeasuredAll(PrintQuery(a), Lex(PrintQuery(a), 0).value))
    ensures |ts| == Size(a, 0) && Shows(ts, 0, a, 0)
  {
    var ps := Print(a, 0);
    var ls := Lexemes(ps);
    PrintPrintable(a, 0);
    forall i | 0 <= i < |ps| ensures Lexable(ls[i]) && KeywordReads(ps[i]) {
      assert Printable(ps[i]);
      PieceReads(ps[i]);
    }
    EachLexable(ls);
    LexRender(ls, 0);
    ts := ClassifyAll(MeasuredAll(PrintQuery(a), Lex(PrintQuery(a), 0).value));
    forall i | 0 <= i < |ps| ensures ReadsAs(ts[0 + i], ps[i]) {
      assert KeywordReads(ps[i]);
    }
    PrintSize(a, 0);
    PrintShows(ts, 0, a, 0);
  }

  /** The text of a piece is read as the piece. */
  ghost predicate KeywordReads(p: Piece) {
    match p
    case Sign(keyword) => KeywordOf(LexemeOf(p).text) == keyword
    case Name(field) => KeywordOf(LexemeOf(p).text) == Plain && FieldOf(LexemeOf(p).text) == Some(field)
    case Value(value) => LexemeOf(p).text == value
  }

  lemma PieceReads(p: Piece)
    requires Printable(p)
    ensures Lexable(LexemeOf(p)) && KeywordReads(p)
  {
    match p
    case Sign(keyword) => SpellingReads(keyword); SpellingIsLexable(keyword);
    case Name(field) => FieldIsPlain(field); FieldIsLexable(field);
    case Value(_) =>
  }

  // ---- The round trip

  /** Parsing the print of a tree gives back exactly that tree, at its structural cost, if and
      only if the tree is well formed, affordable from the left and short enough in print. */
  lemma RoundTrip(a: Ast)
    ensures Parse(PrintQuery(a)) == Ok(Query(a, Cost(a)))
      <==> WellFormed(a) && Affordable(a, 0) && Units(PrintQuery(a)) <= MAX_QUERY_LENGTH
  {
    var source := PrintQuery(a);
    if Parse(source) == Ok(Query(a, Cost(a))) { AcceptedQueries(source); }
    if WellFormed(a) && Affordable(a, 0) && Units(source) <= MAX_QUERY_LENGTH { PrintParses(a); }
  }

  lemma PrintParses(a: Ast)
    requires WellFormed(a) && Affordable(a, 0) && Units(PrintQuery(a)) <= MAX_QUERY_LENGTH
    ensures Parse(PrintQuery(a)) == Ok(Query(a, Cost(a)))
  {
    var length := Units(PrintQuery(a));
    var ts := PrintedSymbols(a);
    ParsesExpression(ts, length, a, 0, 0, |ts|, Cost(a));
    assert ParseExpression(ts, length, 0, 0) == Ok(Parsed(a, |ts|, Cost(a)));
    SizePositive(a, 0);
  }

  lemma {:induction false} SizePositive(a: Ast, context: nat)
    ensures Size(a, context) > 0
  {}

  /** In particular every well-formed tree of structural cost at most 100 survives. */
  lemma RoundTripWithinCost(a: Ast)
    requires WellFormed(a) && Cost(a) <= MAX_QUERY_COST && Units(PrintQuery(a)) <= MAX_QUERY_LENGTH
    ensures Parse(PrintQuery(a)) == Ok(Query(a, Cost(a)))
  {
    WithinLimitIsAffordable(a, 0);
    RoundTrip(a);
  }

  /** Whatever the spelling of an accepted query, printing its tree and parsing again changes nothing. */
  lemma Reprint(source: string)
    requires Parse(source).Ok? && Units(PrintQuery(Parse(source).value.ast)) <= MAX_QUERY_LENGTH
    ensures Parse(PrintQuery(Parse(source).value.ast)) == Parse(source)
  {
    AcceptedQueries(source);
    RoundTrip(Parse(source).value.ast);
  }
}
