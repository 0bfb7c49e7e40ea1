/** What the query language promises: the parser's cost is the cost of the tree, accepted
    trees are bounded, rejections point into the source, and parsing undoes printing. */
module QueryLanguage {
  import opened Basics
  import opened Wrappers
  import opened QueryTokens
  import opened QueryParser

  // ---- The trees the parser can return

  /** A value that can stand for itself after a comparison, or inside a list. */
  predicate ValueAllowed(op: Operator, value: string) {
    var keyword := KeywordOf(value);
    !keyword.Close? && !keyword.Comma? && (op.In? || op.NotIn? || !keyword.Open?)
  }

  predicate AllAllowed(op: Operator, values: seq<string>) {
    values == [] || (ValueAllowed(op, values[|values| - 1]) && AllAllowed(op, values[..|values| - 1]))
  }

  lemma {:induction false} EachAllowed(op: Operator, values: seq<string>, v: string)
    requires AllAllowed(op, values) && v in values
    ensures ValueAllowed(op, v)
    decreases |values|
  {
    if v != values[|values| - 1] { EachAllowed(op, values[..|values| - 1], v); }
  }

  predicate WellFormed(a: Ast) {
    match a
    case Term(field, op, values) =>
      && FieldOf(field) == Some(field)
      && (if op.In? || op.NotIn? then values != [] else |values| == 1)
      && AllAllowed(op, values)
    case Not(v) => WellFormed(v)
    case And(l, r) => WellFormed(l) && WellFormed(r)
    case Or(l, r) => WellFormed(l) && WellFormed(r)
  }

  /** The structural cost: terms, two per NOT, one per AND, three per OR. */
  function Cost(a: Ast): nat {
    match a
    case Term(field, op, values) => TermCost(field, op, |values|)
    case Not(v) => 2 + Cost(v)
    case And(l, r) => Cost(l) + Cost(r) + 1
    case Or(l, r) => Cost(l) + Cost(r) + 3
  }

  /** The part of the cost that is checked: terms and NOTs, no connectives. */
  function CheckedCost(a: Ast): nat {
    match a
    case Term(_, _, _) => Cost(a)
    case Not(v) => 2 + CheckedCost(v)
    case And(l, r) => CheckedCost(l) + CheckedCost(r)
    case Or(l, r) => CheckedCost(l) + CheckedCost(r)
  }

  function TermCount(a: Ast): nat {
    match a
    case Term(_, _, _) => 1
    case Not(v) => TermCount(v)
    case And(l, r) => TermCount(l) + TermCount(r)
    case Or(l, r) => TermCount(l) + TermCount(r)
  }

  /** With `cost` already spent, no term overruns the limit when it is reached from the left;
      a connective is charged after its right side. */
  predicate Affordable(a: Ast, cost: nat) {
    match a
    case Term(_, _, _) => cost + Cost(a) <= MAX_QUERY_COST
    case Not(v) => Affordable(v, cost + 2)
    case And(l, r) => Affordable(l, cost) && Affordable(r, cost + Cost(l))
    case Or(l, r) => Affordable(l, cost) && Affordable(r, cost + Cost(l))
  }

  lemma {:induction false} WithinLimitIsAffordable(a: Ast, cost: nat)
    requires cost + Cost(a) <= MAX_QUERY_COST
    ensures Affordable(a, cost)
  {
    match a
    case Term(_, _, _) =>
    case Not(v) => WithinLimitIsAffordable(v, cost + 2);
    case And(l, r) => WithinLimitIsAffordable(l, cost); WithinLimitIsAffordable(r, cost + Cost(l));
    case Or(l, r) => WithinLimitIsAffordable(l, cost); WithinLimitIsAffordable(r, cost + Cost(l));
  }

  /** Terms and NOTs of an affordable tree stay within the limit; connectives add at most
      three for each term but one. */
  lemma {:induction false} AffordableBounds(a: Ast, cost: nat)
    requires Affordable(a, cost)
    ensures cost + CheckedCost(a) <= MAX_QUERY_COST
    ensures 1 <= TermCount(a) <= CheckedCost(a) <= Cost(a) <= CheckedCost(a) + 3 * (TermCount(a) - 1)
  {
    match a
    case Term(_, _, _) =>
    case Not(v) => AffordableBounds(v, cost + 2);
    case And(l, r) => AffordableBounds(l, cost); AffordableBounds(r, cost + Cost(l));
    case Or(l, r) => AffordableBounds(l, cost); AffordableBounds(r, cost + Cost(l));
  }

  // ---- Soundness: what an accepted tree looks like

  /** The readings attached to the symbols are those of their values. */
  ghost predicate Classified(ts: seq<Symbol>) {
    forall s <- ts :: s.keyword == KeywordOf(s.value) && s.field == FieldOf(s.value)
  }

  lemma {:induction false} ValuesSound(ts: seq<Symbol>, length: nat, op: Operator, c: nat, acc: seq<string>)
    requires Classified(ts) && (op.In? || op.NotIn?)
    requires AllAllowed(op, acc)
    ensures var r := ParseValues(ts, length, c, acc);
      r.Ok? ==> r.value.value != [] && AllAllowed(op, r.value.value)
    decreases |ts| - c
  {
    if c < |ts| && !ListSign(ts[c]) {
      assert ts[c] in ts && (acc + [ts[c].value])[..|acc|] == acc;
    }
    if c < |ts| && !ListSign(ts[c]) && Peek(ts, c + 1, Comma) {
      ValuesSound(ts, length, op, c + 2, acc + [ts[c].value]);
    }
  }

  lemma FieldIsItsOwnReading(value: string)
    requires FieldOf(value).Some?
    ensures FieldOf(FieldOf(value).value) == FieldOf(value)
  {
    LowerIdempotent(value);
  }

  lemma {:induction false} LowerIdempotent(s: string)
    ensures Lower(Lower(s)) == Lower(s)
    decreases |s|
  {
    if s != "" {
      LowerIdempotent(s[1..]);
      assert Lower(s)[1..] == Lower(s[1..]);
    }
  }

  lemma OperandSound(ts: seq<Symbol>, length: nat, op: Operator, c: nat)
    requires Classified(ts) && ParseOperand(ts, length, op, c).Ok?
    ensures var values := ParseOperand(ts, length, op, c).value.value;
      (if op.In? || op.NotIn? then values != [] else |values| == 1) && AllAllowed(op, values)
  {
    if op.In? || op.NotIn? {
      ValuesSound(ts, length, op, c + 1, []);
    } else {
      assert ts[c] in ts && [ts[c].value][..0] == [];
    }
  }

  lemma WellFormedTerm(field: string, op: Operator, values: seq<string>)
    requires FieldOf(field) == Some(field)
    requires if op.In? || op.NotIn? then values != [] else |values| == 1
    requires AllAllowed(op, values)
    ensures Fits(Term(field, op, values))
  {}

  predicate Fits(a: Ast) {
    a.Term? && WellFormed(a)
  }

  lemma TermFits(ts: seq<Symbol>, length: nat, c: nat, cost: nat)
    requires Classified(ts) && ParseTerm(ts, length, c, cost).Ok?
    ensures Fits(ParseTerm(ts, length, c, cost).value.value)
  {
    assert ts[c] in ts;
    FieldIsItsOwnReading(ts[c].value);
    var o := ParseOperator(ts, length, c + 1).value;
    OperandSound(ts, length, o.value, o.cursor);
    WellFormedTerm(ts[c].field.value, o.value, ParseTerm(ts, length, c, cost).value.value.values);
  }

  // What follows holds whatever it is that the parser's terms satisfy.

  ghost predicate TermsFit(fits: Ast -> bool, ts: seq<Symbol>, length: nat) {
    forall c: nat, cost: nat :: ParseTerm(ts, length, c, cost).Ok? ==> fits(ParseTerm(ts, length, c, cost).value.value)
  }

  ghost predicate Built(fits: Ast -> bool, a: Ast) {
    match a
    case Term(_, _, _) => fits(a)
    case Not(v) => Built(fits, v)
    case And(l, r) => Built(fits, l) && Built(fits, r)
    case Or(l, r) => Built(fits, l) && Built(fits, r)
  }

  /** Every term fits, and the cost was charged on top of `before` without overrunning. */
  ghost predicate Charged(fits: Ast -> bool, a: Ast, before: nat, after: nat) {
    Built(fits, a) && Affordable(a, before) && after == before + Cost(a)
  }

  ghost predicate SoundFrom(fits: Ast -> bool, before: nat, r: Outcome) {
    r.Ok? ==> Charged(fits, r.value.value, before, r.value.cost)
  }

  lemma {:induction false} UnarySound(fits: Ast -> bool, ts: seq<Symbol>, length: nat, c: nat, cost: nat, r: Outcome)
    requires TermsFit(fits, ts, length) && r == ParseUnary(ts, length, c, cost)
    ensures SoundFrom(fits, cost, r)
    decreases |ts| - c, 0
  {
    if Peek(ts, c, NotWord) {
      UnarySound(fits, ts, length, c + 1, cost + 2, ParseUnary(ts, length, c + 1, cost + 2));
    } else if Peek(ts, c, Open) {
      ExpressionSound(fits, ts, length, c + 1, cost, ParseExpression(ts, length, c + 1, cost));
    } else {
      assert r == ParseTerm(ts, length, c, cost);
    }
  }

  lemma {:induction false} ConjunctionSound(
    fits: Ast -> bool, ts: seq<Symbol>, length: nat, c: nat, cost: nat, r: Outcome)
    requires TermsFit(fits, ts, length) && r == ParseConjunction(ts, length, c, cost)
    ensures SoundFrom(fits, cost, r)
    decreases |ts| - c, 1
  {
    var p := ParseUnary(ts, length, c, cost);
    UnarySound(fits, ts, length, c, cost, p);
    if p.Ok? { AndsSound(fits, ts, length, p.value.value, p.value.cursor, p.value.cost, cost, r); }
  }

  lemma ChargedConnective(fits: Ast -> bool, left: Ast, right: Ast, before: nat, middle: nat, after: nat)
    requires Charged(fits, left, before, middle) && Charged(fits, right, middle, after)
    ensures Charged(fits, And(left, right), before, after + 1) && Charged(fits, Or(left, right), before, after + 3)
  {}

  /** One turn of either loop. */
  lemma AndStep(ts: seq<Symbol>, length: nat, left: Ast, c: nat, cost: nat, p: Parsed<Ast>)
    requires c <= |ts| && Peek(ts, c, AndWord) && ParseUnary(ts, length, c + 1, cost) == Ok(p)
    ensures p.cursor <= |ts|
    ensures MoreAnds(ts, length, left, c, cost) == MoreAnds(ts, length, And(left, p.value), p.cursor, p.cost + 1)
  {}

  lemma OrStep(ts: seq<Symbol>, length: nat, left: Ast, c: nat, cost: nat, p: Parsed<Ast>)
    requires c <= |ts| && Peek(ts, c, OrWord) && ParseConjunction(ts, length, c + 1, cost) == Ok(p)
    ensures p.cursor <= |ts|
    ensures MoreOrs(ts, length, left, c, cost) == MoreOrs(ts, length, Or(left, p.value), p.cursor, p.cost + 3)
  {}

  lemma {:induction false} AndsSound(
    fits: Ast -> bool, ts: seq<Symbol>, length: nat, left: Ast, c: nat, cost: nat, before: nat, r: Outcome)
    requires TermsFit(fits, ts, length) && c <= |ts| && Charged(fits, left, before, cost)
    requires r == MoreAnds(ts, length, left, c, cost)
    ensures SoundFrom(fits, before, r)
    decreases |ts| - c, 1
  {
    if Peek(ts, c, AndWord) {
      var p := ParseUnary(ts, length, c + 1, cost);
      UnarySound(fits, ts, length, c + 1, cost, p);
      if p.Ok? {
        AndStep(ts, length, left, c, cost, p.value);
        ChargedConnective(fits, left, p.value.value, before, cost, p.value.cost);
        AndsSound(fits, ts, length, And(left, p.value.value), p.value.cursor, p.value.cost + 1, before, r);
      }
    }
  }

  lemma {:induction false} ExpressionSound(
    fits: Ast -> bool, ts: seq<Symbol>, length: nat, c: nat, cost: nat, r: Outcome)
    requires TermsFit(fits, ts, length) && r == ParseExpression(ts, length, c, cost)
    ensures SoundFrom(fits, cost, r)
    decreases |ts| - c, 2
  {
    var p := ParseConjunction(ts, length, c, cost);
    ConjunctionSound(fits, ts, length, c, cost, p);
    if p.Ok? { OrsSound(fits, ts, length, p.value.value, p.value.cursor, p.value.cost, cost, r); }
  }

  lemma {:induction false} OrsSound(
    fits: Ast -> bool, ts: seq<Symbol>, length: nat, left: Ast, c: nat, cost: nat, before: nat, r: Outcome)
    requires TermsFit(fits, ts, length) && c <= |ts| && Charged(fits, left, before, cost)
    requires r == MoreOrs(ts, length, left, c, cost)
    ensures SoundFrom(fits, before, r)
    decreases |ts| - c, 2
  {
    if Peek(ts, c, OrWord) {
      var p := ParseConjunction(ts, length, c + 1, cost);
      ConjunctionSound(fits, ts, length, c + 1, cost, p);
      if p.Ok? {
        OrStep(ts, length, left, c, cost, p.value);
        ChargedConnective(fits, left, p.value.value, before, cost, p.value.cost);
        OrsSound(fits, ts, length, Or(left, p.value.value), p.value.cursor, p.value.cost + 3, before, r);
      }
    }
  }

  lemma {:induction false} BuiltIsWellFormed(a: Ast)
    requires Built(Fits, a)
    ensures WellFormed(a)
  {
    match a
    case Term(_, _, _) =>
    case Not(v) => BuiltIsWellFormed(v);
    case And(l, r) => BuiltIsWellFormed(l); BuiltIsWellFormed(r);
    case Or(l, r) => BuiltIsWellFormed(l); BuiltIsWellFormed(r);
  }

  /** Every accepted query: the reported cost is the cost of the tree, at most 397, over at
      most 100 terms whose cost, NOTs included, is at most 100. */
  lemma AcceptedQueries(source: string)
    requires Parse(source).Ok?
    ensures var q := Parse(source).value;
      && WellFormed(q.ast) && Affordable(q.ast, 0) && q.cost == Cost(q.ast)
      && CheckedCost(q.ast) <= 100 && TermCount(q.ast) <= 100 && q.cost <= 397
  {
    var ts, a := ClassifyAll(MeasuredAll(source, Lex(source, 0).value)), Parse(source).value.ast;
    forall c: nat, cost: nat | ParseTerm(ts, Units(source), c, cost).Ok?
      ensures Fits(ParseTerm(ts, Units(source), c, cost).value.value)
    {
      TermFits(ts, Units(source), c, cost);
    }
    ExpressionSound(Fits, ts, Units(source), 0, 0, ParseExpression(ts, Units(source), 0, 0));
    BuiltIsWellFormed(a);
    AffordableBounds(a, 0);
  }

  // ---- Rejections

  lemma {:induction false} ValuesErrorIn(ts: seq<Symbol>, length: nat, c: nat, acc: seq<string>)
    requires forall t <- ts :: t.offset <= length
    ensures var r := ParseValues(ts, length, c, acc); r.Err? ==> r.error.offset <= length
    decreases |ts| - c
  {
    if c < |ts| { ValuesErrorIn(ts, length, c + 2, acc + [ts[c].value]); }
  }

  lemma TermErrorIn(ts: seq<Symbol>, length: nat, c: nat, cost: nat)
    requires forall t <- ts :: t.offset <= length
    ensures var r := ParseTerm(ts, length, c, cost); r.Err? ==> r.error.offset <= length
  {
    var o := ParseOperator(ts, length, c + 1);
    if o.Ok? { ValuesErrorIn(ts, length, o.value.cursor + 1, []); }
  }

  lemma {:induction false} ErrorsIn(ts: seq<Symbol>, length: nat, c: nat, cost: nat)
    requires forall t <- ts :: t.offset <= length
    ensures ParseUnary(ts, length, c, cost).Err? ==> ParseUnary(ts, length, c, cost).error.offset <= length
    ensures ParseConjunction(ts, length, c, cost).Err? ==> ParseConjunction(ts, length, c, cost).error.offset <= length
    ensures ParseExpression(ts, length, c, cost).Err? ==> ParseExpression(ts, length, c, cost).error.offset <= length
    decreases |ts| - c, 0
  {
    if c < |ts| {
      ErrorsIn(ts, length, c + 1, cost + 2);
      ErrorsIn(ts, length, c + 1, cost);
    }
    TermErrorIn(ts, length, c, cost);
    var u := ParseUnary(ts, length, c, cost);
    if u.Ok? { AndsErrorIn(ts, length, u.value.value, u.value.cursor, u.value.cost); }
    var k := ParseConjunction(ts, length, c, cost);
    if k.Ok? { OrsErrorIn(ts, length, k.value.value, k.value.cursor, k.value.cost); }
  }

  lemma {:induction false} AndsErrorIn(ts: seq<Symbol>, length: nat, left: Ast, c: nat, cost: nat)
    requires c <= |ts| && forall t <- ts :: t.offset <= length
    ensures var r := MoreAnds(ts, length, left, c, cost); r.Err? ==> r.error.offset <= length
    decreases |ts| - c, 1
  {
    if Peek(ts, c, AndWord) {
      ErrorsIn(ts, length, c + 1, cost);
      var p := ParseUnary(ts, length, c + 1, cost);
      if p.Ok? { AndsErrorIn(ts, length, And(left, p.value.value), p.value.cursor, p.value.cost + 1); }
    }
  }

  lemma {:induction false} OrsErrorIn(ts: seq<Symbol>, length: nat, left: Ast, c: nat, cost: nat)
    requires c <= |ts| && forall t <- ts :: t.offset <= length
    ensures var r := MoreOrs(ts, length, left, c, cost); r.Err? ==> r.error.offset <= length
    decreases |ts| - c, 1
  {
    if Peek(ts, c, OrWord) {
      ErrorsIn(ts, length, c + 1, cost);
      var p := ParseConjunction(ts, length, c + 1, cost);
      if p.Ok? { OrsErrorIn(ts, length, Or(left, p.value.value), p.value.cursor, p.value.cost + 3); }
    }
  }

  /** Every rejection names a place in the source, or its end. */
  lemma RejectionsPointIntoSource(source: string)
    ensures Parse(source).Err? ==> Parse(source).error.offset <= Units(source)
  {
    if Lex(source, 0).Ok? {
      var tokens := Lex(source, 0).value;
      forall t <- MeasuredAll(source, tokens) ensures t.offset <= Units(source) {
        var i :| 0 <= i < |tokens| && t == MeasuredAll(source, tokens)[i];
        BeforeWithin(source, tokens[i].offset);
      }
      TokenErrorsIn(MeasuredAll(source, tokens), Units(source));
    } else {
      BeforeWithin(source, Lex(source, 0).error.offset);
    }
  }

  lemma TokenErrorsIn(tokens: seq<Token>, length: nat)
    requires forall t <- tokens :: t.offset <= length
    ensures var r := ParseTokens(ClassifyAll(tokens), length); r.Err? ==> r.error.offset <= length
  {
    var ts := ClassifyAll(tokens);
    forall t <- ts ensures t.offset <= length {
      var i :| 0 <= i < |tokens| && t == Classify(tokens[i]);
      assert tokens[i] in tokens;
    }
    ErrorsIn(ts, length, 0, 0);
  }
}
