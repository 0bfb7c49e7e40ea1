/** Where a rejected query is said to be wrong: the first token at which the grammar cannot go on, the
    operator of a term that has none, or the field of a term that is too dear. */
module QueryErrors {
  import opened Basics
  import opened Wrappers
  import opened QueryTokens
  import opened QueryParser
  import opened QueryLanguage
  import opened QueryGrammar

  /** The error names the token at `k`, or the end of the source behind the last token. */
  ghost predicate At(ts: seq<Symbol>, length: nat, k: nat, e: QueryError) {
    e.code.InvalidQuery? && e.offset == if k < |ts| then ts[k].offset else length
  }

  predicate NoValue(ts: seq<Symbol>, k: nat) {
    k >= |ts| || Peek(ts, k, Close) || Peek(ts, k, Comma)
  }

  /** `n` values, each with a comma behind it. */
  ghost predicate Items(ts: seq<Symbol>, from: nat, n: nat) {
    forall i :: 0 <= i < n ==> !NoValue(ts, from + 2 * i) && Peek(ts, from + 2 * i + 1, Comma)
  }

  ghost predicate FailsList(ts: seq<Symbol>, length: nat, from: nat, e: QueryError) {
    || (exists n: nat :: Items(ts, from, n) && NoValue(ts, from + 2 * n) && At(ts, length, from + 2 * n, e))
    || exists to: nat, values :: ReadsValues(ts, from, to, values) && !Peek(ts, to, Comma) && !Peek(ts, to, Close)
         && At(ts, length, to, e)
  }

  ghost predicate FailsOperand(ts: seq<Symbol>, length: nat, from: nat, op: Operator, e: QueryError) {
    if op.In? || op.NotIn? then
      if Peek(ts, from, Open) then FailsList(ts, length, from + 1, e) else At(ts, length, from, e)
    else (NoValue(ts, from) || Peek(ts, from, Open)) && At(ts, length, from, e)
  }

  ghost predicate TooDear(ts: seq<Symbol>, from: nat, e: QueryError) {
    && from < |ts| && e == QueryError(ts[from].offset, QueryTooComplex)
    && exists to: nat, field, op, values :: ReadsTerm(ts, from, to, field, op, values)
  }

  ghost predicate HasOperator(ts: seq<Symbol>, from: nat) {
    exists mid: nat, op :: ReadsOperator(ts, from, mid, op)
  }

  ghost predicate FailsTerm(ts: seq<Symbol>, length: nat, from: nat, e: QueryError) {
    if from >= |ts| || ts[from].field.None? then At(ts, length, from, e)
    else if !HasOperator(ts, from + 1) then At(ts, length, from + 1, e)
    else
      || TooDear(ts, from, e)
      || exists mid: nat, op :: ReadsOperator(ts, from + 1, mid, op) && FailsOperand(ts, length, mid, op, e)
  }

  /** An expression ends where neither a connective nor a closing parenthesis stands. */
  ghost predicate Unclosed(ts: seq<Symbol>, length: nat, from: nat, e: QueryError) {
    exists mid: nat, f ::
      Reads(ts, from, mid, f, 0) && !Goes(ts, mid) && !Peek(ts, mid, Close) && At(ts, length, mid, e)
  }

  /** An operand of AND or NOT goes wrong. */
  ghost predicate FailsUnary(ts: seq<Symbol>, length: nat, from: nat, e: QueryError)
    decreases |ts| - from, 0
  {
    if Peek(ts, from, NotWord) then FailsUnary(ts, length, from + 1, e)
    else if Peek(ts, from, Open) then
      FailsExpression(ts, length, from + 1, e) || Unclosed(ts, length, from + 1, e)
    else FailsTerm(ts, length, from, e)
  }

  /** A connective stands here. */
  predicate Goes(ts: seq<Symbol>, c: nat) {
    Peek(ts, c, AndWord) || Peek(ts, c, OrWord)
  }

  ghost predicate FailsConjunction(ts: seq<Symbol>, length: nat, from: nat, e: QueryError)
    decreases |ts| - from, 1
  {
    || FailsUnary(ts, length, from, e)
    || exists mid: nat, f :: from < mid && Peek(ts, mid, AndWord) && Reads(ts, from, mid, f, 1)
         && FailsUnary(ts, length, mid + 1, e)
  }

  ghost predicate FailsExpression(ts: seq<Symbol>, length: nat, from: nat, e: QueryError)
    decreases |ts| - from, 2
  {
    || FailsConjunction(ts, length, from, e)
    || exists mid: nat, f :: from < mid && Peek(ts, mid, OrWord) && Reads(ts, from, mid, f, 0)
         && FailsConjunction(ts, length, mid + 1, e)
  }

  // ---- Terms

  lemma {:induction false} ListFails(ts: seq<Symbol>, length: nat, start: nat, c: nat, acc: seq<string>)
    requires c == start + 2 * |acc| && Items(ts, start, |acc|)
    requires forall i :: 0 <= i < |acc| ==> ReadsValue(ts, start + 2 * i, acc[i])
    ensures var r := ParseValues(ts, length, c, acc);
      && (r.Err? ==> FailsList(ts, length, start, r.error))
      && (r.Ok? && !Peek(ts, r.value.cursor, Close) ==>
            FailsList(ts, length, start, ErrorAt(ts, length, r.value.cursor)))
    decreases |ts| - c
  {
    if NoValue(ts, c) {
      assert At(ts, length, start + 2 * |acc|, ErrorAt(ts, length, c));
    } else {
      var more := acc + [ts[c].value];
      forall i | 0 <= i < |more| ensures ReadsValue(ts, start + 2 * i, more[i]) {
        if i < |acc| { assert more[i] == acc[i]; }
      }
      if Peek(ts, c + 1, Comma) {
        ListFails(ts, length, start, c + 2, more);
      } else {
        assert ReadsValues(ts, start, c + 1, more);
      }
    }
  }

  lemma OperandFails(ts: seq<Symbol>, length: nat, op: Operator, c: nat)
    requires ParseOperand(ts, length, op, c).Err?
    ensures FailsOperand(ts, length, c, op, ParseOperand(ts, length, op, c).error)
  {
    if (op.In? || op.NotIn?) && Peek(ts, c, Open) { ListFails(ts, length, c + 1, c + 1, []); }
  }

  lemma OperatorFound(ts: seq<Symbol>, length: nat, c: nat)
    ensures ParseOperator(ts, length, c).Ok? ==>
      ReadsOperator(ts, c, ParseOperator(ts, length, c).value.cursor, ParseOperator(ts, length, c).value.value)
    ensures ParseOperator(ts, length, c).Err? ==>
      !HasOperator(ts, c) && At(ts, length, c, ParseOperator(ts, length, c).error)
  {}

  lemma TermFails(ts: seq<Symbol>, length: nat, c: nat, cost: nat, e: QueryError)
    requires ParseTerm(ts, length, c, cost) == Err(e) && !Peek(ts, c, NotWord) && !Peek(ts, c, Open)
    ensures FailsTerm(ts, length, c, e)
  {
    if c < |ts| && ts[c].field.Some? {
      OperatorFound(ts, length, c + 1);
      if ParseOperator(ts, length, c + 1).Ok? {
        var o := ParseOperator(ts, length, c + 1).value;
        var v := ParseOperand(ts, length, o.value, o.cursor);
        if v.Err? {
          OperandFails(ts, length, o.value, o.cursor);
        } else {
          DearTermReads(ts, length, c, o.value, o.cursor, v.value);
        }
      }
    }
  }

  lemma DearTermReads(ts: seq<Symbol>, length: nat, c: nat, op: Operator, mid: nat, v: Parsed<seq<string>>)
    requires c < |ts| && ts[c].field.Some? && !Peek(ts, c, NotWord) && !Peek(ts, c, Open)
    requires ReadsOperator(ts, c + 1, mid, op) && ParseOperand(ts, length, op, mid) == Ok(v)
    ensures ReadsTerm(ts, c, v.cursor, ts[c].field.value, op, v.value)
  {
    if op.In? || op.NotIn? {
      ValuesRead(ts, length, mid + 1, []);
      var p := ParseValues(ts, length, mid + 1, []).value;
      assert p.value[0..] == p.value;
    }
    assert ReadsOperand(ts, mid, v.cursor, op, v.value);
  }

  // ---- Expressions

  lemma {:induction false} UnaryFails(ts: seq<Symbol>, length: nat, c: nat, cost: nat, e: QueryError)
    requires ParseUnary(ts, length, c, cost) == Err(e)
    ensures FailsUnary(ts, length, c, e)
    decreases |ts| - c, 0
  {
    if Peek(ts, c, NotWord) {
      UnaryFails(ts, length, c + 1, cost + 2, e);
    } else if Peek(ts, c, Open) {
      var r := ParseExpression(ts, length, c + 1, cost);
      if r.Err? {
        ExpressionFails(ts, length, c + 1, cost, e);
      } else {
        var f := ExpressionReads(ts, length, c + 1, cost, r.value);
        ExpressionStops(ts, length, c + 1, cost, r.value);
      }
    } else {
      TermFails(ts, length, c, cost, e);
    }
  }

  lemma {:induction false} AndsStop(ts: seq<Symbol>, length: nat, left: Ast, c: nat, cost: nat, p: Parsed<Ast>)
    requires c <= |ts| && MoreAnds(ts, length, left, c, cost) == Ok(p)
    ensures !Peek(ts, p.cursor, AndWord)
    decreases |ts| - c
  {
    if Peek(ts, c, AndWord) {
      var q := ParseUnary(ts, length, c + 1, cost).value;
      AndsStop(ts, length, And(left, q.value), q.cursor, q.cost + 1, p);
    }
  }

  lemma {:induction false} OrsStop(ts: seq<Symbol>, length: nat, left: Ast, c: nat, cost: nat, p: Parsed<Ast>)
    requires c <= |ts| && MoreOrs(ts, length, left, c, cost) == Ok(p) && !Peek(ts, c, AndWord)
    ensures !Goes(ts, p.cursor)
    decreases |ts| - c
  {
    if Peek(ts, c, OrWord) {
      var q := ParseConjunction(ts, length, c + 1, cost).value;
      ConjunctionStops(ts, length, c + 1, cost, q);
      OrsStop(ts, length, Or(left, q.value), q.cursor, q.cost + 3, p);
    }
  }

  lemma ConjunctionStops(ts: seq<Symbol>, length: nat, c: nat, cost: nat, p: Parsed<Ast>)
    requires ParseConjunction(ts, length, c, cost) == Ok(p)
    ensures !Peek(ts, p.cursor, AndWord)
  {
    var q := ParseUnary(ts, length, c, cost).value;
    AndsStop(ts, length, q.value, q.cursor, q.cost, p);
  }

  lemma ExpressionStops(ts: seq<Symbol>, length: nat, c: nat, cost: nat, p: Parsed<Ast>)
    requires ParseExpression(ts, length, c, cost) == Ok(p)
    ensures !Goes(ts, p.cursor)
  {
    var q := ParseConjunction(ts, length, c, cost).value;
    ConjunctionStops(ts, length, c, cost, q);
    OrsStop(ts, length, q.value, q.cursor, q.cost, p);
  }

  lemma {:induction false} ConjunctionFails(ts: seq<Symbol>, length: nat, c: nat, cost: nat, e: QueryError)
    requires ParseConjunction(ts, length, c, cost) == Err(e)
    ensures FailsConjunction(ts, length, c, e)
    decreases |ts| - c, 1
  {
    var r := ParseUnary(ts, length, c, cost);
    if r.Err? {
      UnaryFails(ts, length, c, cost, e);
    } else {
      var f := UnaryReads(ts, length, c, cost, r.value);
      ReadsAtLower(ts, c, r.value.cursor, f, 2, 1);
      AndsFail(ts, length, c, f, r.value.cursor, r.value.cost, e);
    }
  }

  lemma {:induction false} AndsFail(
    ts: seq<Symbol>, length: nat, from: nat, left: Form, c: nat, cost: nat, e: QueryError)
    requires from < c <= |ts| && Reads(ts, from, c, left, 1)
    requires MoreAnds(ts, length, TreeOf(left), c, cost) == Err(e)
    ensures FailsConjunction(ts, length, from, e)
    decreases |ts| - c, 1
  {
    var r := ParseUnary(ts, length, c + 1, cost);
    if r.Err? {
      UnaryFails(ts, length, c + 1, cost, e);
    } else {
      var right := UnaryReads(ts, length, c + 1, cost, r.value);
      AndStep(ts, length, TreeOf(left), c, cost, r.value);
      AndsFail(ts, length, from, Both(left, right), r.value.cursor, r.value.cost + 1, e);
    }
  }

  lemma {:induction false} ExpressionFails(ts: seq<Symbol>, length: nat, c: nat, cost: nat, e: QueryError)
    requires ParseExpression(ts, length, c, cost) == Err(e)
    ensures FailsExpression(ts, length, c, e)
    decreases |ts| - c, 2
  {
    var r := ParseConjunction(ts, length, c, cost);
    if r.Err? {
      ConjunctionFails(ts, length, c, cost, e);
    } else {
      var f := ConjunctionReads(ts, length, c, cost, r.value);
      ReadsAtLower(ts, c, r.value.cursor, f, 1, 0);
      OrsFail(ts, length, c, f, r.value.cursor, r.value.cost, e);
    }
  }

  lemma {:induction false} OrsFail(
    ts: seq<Symbol>, length: nat, from: nat, left: Form, c: nat, cost: nat, e: QueryError)
    requires from < c <= |ts| && Reads(ts, from, c, left, 0)
    requires MoreOrs(ts, length, TreeOf(left), c, cost) == Err(e)
    ensures FailsExpression(ts, length, from, e)
    decreases |ts| - c, 2
  {
    var r := ParseConjunction(ts, length, c + 1, cost);
    if r.Err? {
      ConjunctionFails(ts, length, c + 1, cost, e);
    } else {
      var right := ConjunctionReads(ts, length, c + 1, cost, r.value);
      OrStep(ts, length, TreeOf(left), c, cost, r.value);
      OrsFail(ts, length, from, Either(left, right), r.value.cursor, r.value.cost + 3, e);
    }
  }

  // ---- Whole queries

  /** The tokens go wrong inside an expression, or go on behind one. */
  ghost predicate FailsTokens(ts: seq<Symbol>, length: nat, e: QueryError) {
    || FailsExpression(ts, length, 0, e)
    || exists mid: nat, f :: mid < |ts| && Reads(ts, 0, mid, f, 0) && !Goes(ts, mid) && At(ts, length, mid, e)
  }

  ghost predicate Explains(source: string, e: QueryError) {
    if Units(source) > 2_000 then e == QueryError(2_000, QueryTooComplex)
    else
      match Lex(source, 0)
      case Err(bad) => e == QueryError(Before(source, bad.offset), InvalidQuery)
      case Ok(tokens) =>
        if tokens == [] then e == QueryError(0, InvalidQuery)
        else FailsTokens(ClassifyAll(MeasuredAll(source, tokens)), Units(source), e)
  }

  /** Every rejection says what is wrong: too long a source, a place where no token begins, no tokens at all,
      or the token at which the grammar cannot go on. */
  lemma RejectionMeans(source: string)
    ensures Parse(source).Err? ==> Explains(source, Parse(source).error)
  {
    LexErrorsAreInvalid(source, 0);
    if Units(source) <= 2_000 && Lex(source, 0).Ok? && Lex(source, 0).value != [] {
      var ts, length := ClassifyAll(MeasuredAll(source, Lex(source, 0).value)), Units(source);
      var r := ParseExpression(ts, length, 0, 0);
      if r.Err? {
        ExpressionFails(ts, length, 0, 0, r.error);
      } else {
        var f := ExpressionReads(ts, length, 0, 0, r.value);
        ExpressionStops(ts, length, 0, 0, r.value);
      }
    }
  }

  lemma {:induction false} LexErrorsAreInvalid(s: string, offset: nat)
    ensures Lex(s, offset).Err? ==> Lex(s, offset).error.code == InvalidQuery
    decreases |s|
  {
    if s != "" {
      match Head(s)
      case Blank => LexErrorsAreInvalid(s[1..], offset + 1);
      case Found(_, n) => LexErrorsAreInvalid(s[n..], offset + n);
      case Bad =>
    }
  }
}
