/** The query language in practice: which fields a query can name, and what the most expensive costs. */
module QueryLimits {
  import opened Basics
  import opened Wrappers
  import opened QueryTokens
  import opened QueryParser
  import opened QueryLanguage
  import opened QueryRoundTrip

  function Fields(a: Ast): set<string> {
    match a
    case Term(field, _, _) => {field}
    case Not(v) => Fields(v)
    case And(l, r) => Fields(l) + Fields(r)
    case Or(l, r) => Fields(l) + Fields(r)
  }

  lemma {:induction false} FieldsAreReadable(a: Ast)
    requires WellFormed(a)
    ensures forall f <- Fields(a) :: FieldOf(f) == Some(f)
  {
    match a
    case Term(_, _, _) =>
    case Not(v) => FieldsAreReadable(v);
    case And(l, r) => FieldsAreReadable(l); FieldsAreReadable(r);
    case Or(l, r) => FieldsAreReadable(l); FieldsAreReadable(r);
  }

  lemma AcceptedFields(source: string, field: string)
    requires Parse(source).Ok? && field in Fields(Parse(source).value.ast)
    ensures field in QUERY_FIELDS && field != "requestType"
  {
    AcceptedQueries(source);
    FieldsAreReadable(Parse(source).value.ast);
    var i := FieldPlace(field);
    RequestTypeIsNoField(field);
  }

  lemma ListedFieldIsReadable(i: nat)
    requires i < |QUERY_FIELDS| && i != 15
    ensures FieldOf(QUERY_FIELDS[i]) == Some(QUERY_FIELDS[i]) && |QUERY_FIELDS[i]| <= 11
  {
    var field := QUERY_FIELDS[i];
    FieldShapes();
    FoldedAt(field);
    assert Lower(field) == field;
    IncludedAt(QUERY_FIELDS, i);
  }

  lemma SimpleQuery(field: string)
    requires FieldOf(field) == Some(field) && |field| <= 11
    ensures var a := Term(field, Eq, [""]); Parse(PrintQuery(a)) == Ok(Query(a, Cost(a)))
  {
    var a := Term(field, Eq, [""]);
    EmptyValueIsPlain("");
    PlainTermWellFormed(field, "");
    SimpleWidth(field);
    RenderWithinWidth(Print(a, 0));
    RoundTrip(a);
  }

  lemma SimpleWidth(field: string)
    requires |field| <= 11
    ensures Width(Print(Term(field, Eq, [""]), 0)) <= 40
  {
    var ps := Print(Term(field, Eq, [""]), 0);
    assert ps == [Name(field), Sign(Comparison(Eq)), Value("")];
    assert ps[1..] == [Sign(Comparison(Eq)), Value("")] && ps[1..][1..] == [Value("")];
    UnitsWithin(RenderOne(LexemeOf(Value(""))));
    UnitsWithin(RenderOne(LexemeOf(Sign(Comparison(Eq)))));
    UnitsWithin(RenderOne(LexemeOf(Name(field))));
    assert Width([Value("")]) <= 5;
    assert Width([Sign(Comparison(Eq)), Value("")]) <= 8;
  }

  /** Of all strings, exactly the listed fields other than `requestType` can be queried. */
  lemma QueryableIff(field: string)
    ensures (exists source :: Parse(source).Ok? && field in Fields(Parse(source).value.ast))
      <==> field in QUERY_FIELDS && field != "requestType"
  {
    if source :| Parse(source).Ok? && field in Fields(Parse(source).value.ast) {
      AcceptedFields(source, field);
    } else if field in QUERY_FIELDS && field != "requestType" {
      var i :| 0 <= i < |QUERY_FIELDS| && QUERY_FIELDS[i] == field;
      ListedFieldIsReadable(i);
      SimpleQuery(field);
    }
  }

  // ---- The most expensive accepted query

  const CHEAP := Term("due", Eq, [""])

  /** One term, or a term joined by OR to the same with one term fewer. */
  function RightOrs(n: nat): Ast
    requires n > 0
  {
    if n == 1 then CHEAP else Or(CHEAP, RightOrs(n - 1))
  }

  /** An upper bound for the rendered length: a blank after every piece. */
  function Width(ps: seq<Piece>): nat {
    if ps == [] then 0 else Units(RenderOne(LexemeOf(ps[0]))) + 1 + Width(ps[1..])
  }

  lemma {:induction false} RenderWithinWidth(ps: seq<Piece>)
    ensures Units(Render(Lexemes(ps))) <= Width(ps)
    decreases |ps|
  {
    if ps != [] {
      var rest := Lexemes(ps[1..]);
      assert Lexemes(ps)[1..] == rest;
      RenderWithinWidth(ps[1..]);
      UnitsConcat(RenderOne(LexemeOf(ps[0])), Trail(rest));
      UnitsConcat(" ", Render(rest));
    }
  }

  lemma {:induction false} WidthConcat(xs: seq<Piece>, ys: seq<Piece>)
    ensures Width(xs + ys) == Width(xs) + Width(ys)
    decreases |xs|
  {
    if xs == [] {
      assert xs + ys == ys;
    } else {
      assert (xs + ys)[1..] == xs[1..] + ys;
      WidthConcat(xs[1..], ys);
    }
  }

  lemma CheapWidth()
    ensures Width(Print(CHEAP, 2)) == 9 && Print(CHEAP, 0) == Print(CHEAP, 2) && Print(CHEAP, 1) == Print(CHEAP, 2)
  {
    var ps := Print(CHEAP, 2);
    assert ps == [Name("due"), Sign(Comparison(Eq)), Value("")];
    CheapPieces();
    WidthOfThree(Name("due"), Sign(Comparison(Eq)), Value(""));
  }

  lemma CheapPieces()
    ensures Units(RenderOne(LexemeOf(Value("")))) == 2 && Units(RenderOne(LexemeOf(Name("due")))) == 3
    ensures Units(RenderOne(LexemeOf(Sign(Comparison(Eq))))) == 1
  {
    UnitsAreCharsIff(RenderOne(LexemeOf(Value(""))));
    UnitsAreCharsIff(RenderOne(LexemeOf(Sign(Comparison(Eq)))));
    UnitsAreCharsIff(RenderOne(LexemeOf(Name("due"))));
  }

  lemma WidthOfThree(x: Piece, y: Piece, z: Piece)
    ensures Width([x, y, z])
      == Units(RenderOne(LexemeOf(x))) + Units(RenderOne(LexemeOf(y))) + Units(RenderOne(LexemeOf(z))) + 3
  {
    assert [x, y, z][1..] == [y, z] && [y, z][1..] == [z] && [z][1..] == [];
    assert Width([z]) == Units(RenderOne(LexemeOf(z))) + 1;
    assert Width([y, z]) == Units(RenderOne(LexemeOf(y))) + 1 + Width([z]);
  }

  lemma SignWidths()
    ensures Width([Sign(OrWord)]) == 3 && Width([Sign(Open)]) == 2 && Width([Sign(Close)]) == 2
  {
    UnitsAreCharsIff("OR");
    UnitsAreCharsIff("(");
    UnitsAreCharsIff(")");
  }

  lemma {:induction false} RightOrsWidth(n: nat)
    requires n > 0
    ensures Width(Print(RightOrs(n), 0)) <= 16 * n - 4 && Width(Print(RightOrs(n), 1)) <= 16 * n
  {
    CheapWidth();
    SignWidths();
    if n > 1 {
      var a, rest := RightOrs(n), RightOrs(n - 1);
      RightOrsWidth(n - 1);
      WidthConcat(Print(CHEAP, 0), [Sign(OrWord)] + Print(rest, 1));
      WidthConcat([Sign(OrWord)], Print(rest, 1));
      WidthConcat([Sign(Open)], Print(a, 0) + [Sign(Close)]);
      WidthConcat(Print(a, 0), [Sign(Close)]);
    }
  }

  lemma {:induction false} RightOrsCost(n: nat, cost: nat)
    requires n > 0 && cost + n <= MAX_QUERY_COST
    ensures Cost(RightOrs(n)) == 4 * n - 3 && Affordable(RightOrs(n), cost)
    decreases n
  {
    assert TermCost("due", Eq, 1) == 1;
    if n > 1 { RightOrsCost(n - 1, cost + 1); }
  }

  lemma {:induction false} RightOrsWellFormed(n: nat)
    requires n > 0
    ensures WellFormed(RightOrs(n))
  {
    if n > 1 { RightOrsWellFormed(n - 1); }
    CheapWellFormed();
  }

  lemma KeywordsAreNotEmpty()
    ensures forall k :: 0 <= k < |KEYWORDS| ==> |KEYWORDS[k].0| > 0
  {}

  lemma AbsentIsPlain(table: seq<(string, Keyword)>, word: string)
    requires forall k :: 0 <= k < |table| ==> table[k].0 != word
    ensures Lookup(table, word) == Plain
  {
    var i := LookupFinds(table, word);
  }

  lemma EmptyValueIsPlain(value: string)
    requires |value| == 0
    ensures KeywordOf(value) == Plain
  {
    KeywordsAreNotEmpty();
    FoldedAt(value);
    AbsentIsPlain(KEYWORDS, Upper(value));
  }

  lemma DueIsAField()
    ensures FieldOf("due") == Some("due")
  {
    assert QUERY_FIELDS[18] == "due";
    ListedFieldIsReadable(18);
  }

  lemma PlainTermWellFormed(field: string, value: string)
    requires FieldOf(field) == Some(field) && KeywordOf(value) == Plain
    ensures WellFormed(Term(field, Eq, [value]))
  {
    assert [value][..0] == [];
  }

  lemma CheapWellFormed()
    ensures WellFormed(CHEAP)
  {
    DueIsAField();
    EmptyValueIsPlain("");
    PlainTermWellFormed("due", "");
  }

  /** A hundred terms nested to the right under OR are accepted and cost 397: the limit of 100
      bounds what is checked, not what is reported. */
  lemma MostExpensiveQuery()
    ensures var q := Query(RightOrs(100), 397); Parse(PrintQuery(q.ast)) == Ok(q)
  {
    RightOrsCost(100, 0);
    RightOrsWellFormed(100);
    RightOrsWidth(100);
    RenderWithinWidth(Print(RightOrs(100), 0));
    RoundTrip(RightOrs(100));
  }

  // ---- What a query costs

  /** What a query consists of: connectives, terms that search texts and other terms, and the values in lists. */
  datatype Tally = Tally(nots: nat, ands: nat, ors: nat, searches: nat, others: nat, listed: nat)

  function Together(a: Tally, b: Tally): Tally {
    Tally(a.nots + b.nots, a.ands + b.ands, a.ors + b.ors, a.searches + b.searches, a.others + b.others,
          a.listed + b.listed)
  }

  function TallyOf(a: Ast): Tally {
    match a
    case Term(field, op, values) =>
      var search := op == Like || field in ["description", "text"];
      Tally(0, 0, 0, if search then 1 else 0, if search then 0 else 1, if op == In || op == NotIn then |values| else 0)
    case Not(v) => Together(Tally(1, 0, 0, 0, 0, 0), TallyOf(v))
    case And(l, r) => Together(Tally(0, 1, 0, 0, 0, 0), Together(TallyOf(l), TallyOf(r)))
    case Or(l, r) => Together(Tally(0, 0, 1, 0, 0, 0), Together(TallyOf(l), TallyOf(r)))
  }

  /** The price list: two for a NOT, one for an AND, three for an OR, five for a term that searches texts,
      one for any other, and two for each value in a list. */
  lemma {:induction false} CostMeans(a: Ast)
    ensures var t := TallyOf(a);
      Cost(a) == 2 * t.nots + t.ands + 3 * t.ors + 5 * t.searches + t.others + 2 * t.listed
  {
    match a
    case Term(_, _, _) =>
    case Not(v) => CostMeans(v);
    case And(l, r) => CostMeans(l); CostMeans(r);
    case Or(l, r) => CostMeans(l); CostMeans(r);
  }
}
