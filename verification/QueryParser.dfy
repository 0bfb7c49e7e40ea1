/** The query language's recursive-descent parser: three precedence levels over one
    cursor and one cost accumulator.  Each method of `Parser` is matched by a function of
    the tokens, the cursor and the cost it starts from. */
module QueryParser {
  import opened Basics
  import opened Wrappers
  import opened QueryTokens

  const MAX_QUERY_LENGTH := 2_000
  const MAX_QUERY_COST := 100

  /** The supported fields, spelled as the program lists them. */
  const QUERY_FIELDS: seq<string> := [
    "key", "text", "summary", "description", "project", "type", "status", "assignee", "reporter", "priority",
    "label", "sprint", "release", "parent", "link", "requestType", "created", "updated", "due", "resolved"]

  datatype Operator = Eq | Ne | Gt | Ge | Lt | Le | Like | In | NotIn

  datatype Ast =
    | Term(field: string, op: Operator, values: seq<string>)
    | Not(value: Ast)
    | And(left: Ast, right: Ast)
    | Or(left: Ast, right: Ast)

  // ---- Case folding, as far as comparison with ASCII words can observe it

  /** Upper case; besides the ASCII letters only the dotless i becomes an ASCII letter used in a keyword. */
  function UpperChar(c: char): char {
    if 'a' <= c <= 'z' then c - 'a' + 'A' else if c == '\U{131}' then 'I' else c
  }

  /** Lower case; besides the ASCII letters only the Kelvin sign becomes an ASCII letter used in a field. */
  function LowerChar(c: char): char {
    if 'A' <= c <= 'Z' then c - 'A' + 'a' else if c == '\U{212A}' then 'k' else c
  }

  function Upper(s: string): string {
    if s == "" then "" else [UpperChar(s[0])] + Upper(s[1..])
  }

  function Lower(s: string): string {
    if s == "" then "" else [LowerChar(s[0])] + Lower(s[1..])
  }

  // ---- How the parser reads a token

  datatype Keyword = AndWord | OrWord | NotWord | Open | Close | Comma | Comparison(op: Operator) | Plain

  const KEYWORDS: seq<(string, Keyword)> := [
    ("AND", AndWord), ("OR", OrWord), ("NOT", NotWord), ("(", Open), (")", Close), (",", Comma),
    ("=", Comparison(Eq)), ("!=", Comparison(Ne)), (">", Comparison(Gt)), (">=", Comparison(Ge)),
    ("<", Comparison(Lt)), ("<=", Comparison(Le)), ("~", Comparison(Like)),
    ("IN", Comparison(In)), ("NOT IN", Comparison(NotIn))]

  function Lookup(table: seq<(string, Keyword)>, word: string): Keyword {
    if table == [] then Plain else if table[0].0 == word then table[0].1 else Lookup(table[1..], word)
  }

  /** The word or sign the parser takes a token's value for, case folded. */
  function KeywordOf(value: string): Keyword {
    Lookup(KEYWORDS, Upper(value))
  }

  predicate Includes(list: seq<string>, s: string) {
    list != [] && (list[0] == s || Includes(list[1..], s))
  }

  /** The field a token's value names, case folded. */
  function FieldOf(value: string): Option<string> {
    if Includes(QUERY_FIELDS, Lower(value)) then Some(Lower(value)) else None
  }

  /** A token together with its readings. */
  datatype Symbol = Symbol(value: string, offset: nat, keyword: Keyword, field: Option<string>)

  function Classify(t: Token): Symbol {
    Symbol(t.value, t.offset, KeywordOf(t.value), FieldOf(t.value))
  }

  function ClassifyAll(ts: seq<Token>): (r: seq<Symbol>)
    ensures |r| == |ts| && forall i :: 0 <= i < |ts| ==> r[i] == Classify(ts[i])
  {
    seq(|ts|, i requires 0 <= i < |ts| => Classify(ts[i]))
  }

  // ---- Costs

  function TermCost(field: string, op: Operator, count: nat): nat {
    (if op.In? || op.NotIn? then 2 * count else 0)
    + if field == "text" || field == "description" || op.Like? then 5 else 1
  }

  // ---- The grammar as functions

  datatype Parsed<T> = Parsed(value: T, cursor: nat, cost: nat)
  type Outcome = Result<Parsed<Ast>, QueryError>

  predicate Peek(ts: seq<Symbol>, c: nat, word: Keyword) {
    c < |ts| && ts[c].keyword == word
  }

  /** An error at token `c`, or at the end of the source when there is none. */
  function ErrorAt(ts: seq<Symbol>, length: nat, c: nat): QueryError {
    QueryError(if c < |ts| then ts[c].offset else length, InvalidQuery)
  }

  predicate ListSign(s: Symbol) {
    s.keyword.Close? || s.keyword.Comma?
  }

  /** The values of a list from `c` on, `acc` being those already read, up to the token after the last. */
  function ParseValues(
    ts: seq<Symbol>, length: nat, c: nat, acc: seq<string>)
    : (r: Result<Parsed<seq<string>>, QueryError>)
    ensures r.Ok? ==> c < r.value.cursor <= |ts|
    decreases |ts| - c
  {
    if c >= |ts| || ListSign(ts[c]) then Err(ErrorAt(ts, length, c))
    else if Peek(ts, c + 1, Comma) then ParseValues(ts, length, c + 2, acc + [ts[c].value])
    else Ok(Parsed(acc + [ts[c].value], c + 1, 0))
  }

  /** The operator after a field and the cursor behind it. */
  function ParseOperator(ts: seq<Symbol>, length: nat, c: nat): (r: Result<Parsed<Operator>, QueryError>)
    ensures r.Ok? ==> c < r.value.cursor <= |ts|
  {
    if c >= |ts| then Err(ErrorAt(ts, length, c))
    else if Peek(ts, c, NotWord) && Peek(ts, c + 1, Comparison(In)) then Ok(Parsed(NotIn, c + 2, 0))
    else if ts[c].keyword.Comparison? then Ok(Parsed(ts[c].keyword.op, c + 1, 0))
    else Err(ErrorAt(ts, length, c))
  }

  /** The values an operator takes and the cursor behind them. */
  function ParseOperand(
    ts: seq<Symbol>, length: nat, op: Operator, c: nat)
    : (r: Result<Parsed<seq<string>>, QueryError>)
    ensures r.Ok? ==> c < r.value.cursor <= |ts|
  {
    if op.In? || op.NotIn? then
      if !Peek(ts, c, Open) then Err(ErrorAt(ts, length, c))
      else
        match ParseValues(ts, length, c + 1, [])
        case Err(e) => Err(e)
        case Ok(p) =>
          if !Peek(ts, p.cursor, Close) then Err(ErrorAt(ts, length, p.cursor))
          else Ok(p.(cursor := p.cursor + 1))
    else if c >= |ts| || ts[c].keyword.Open? || ListSign(ts[c]) then Err(ErrorAt(ts, length, c))
    else Ok(Parsed([ts[c].value], c + 1, 0))
  }

  function ParseTerm(ts: seq<Symbol>, length: nat, c: nat, cost: nat): (r: Outcome)
    ensures r.Ok? ==> c < r.value.cursor <= |ts|
  {
    if c >= |ts| || ts[c].field.None? then Err(ErrorAt(ts, length, c))
    else
      match ParseOperator(ts, length, c + 1)
      case Err(e) => Err(e)
      case Ok(o) =>
        match ParseOperand(ts, length, o.value, o.cursor)
        case Err(e) => Err(e)
        case Ok(v) =>
          var field := ts[c].field.value;
          var total := cost + TermCost(field, o.value, |v.value|);
          if total > MAX_QUERY_COST then Err(QueryError(ts[c].offset, QueryTooComplex))
          else Ok(Parsed(Term(field, o.value, v.value), v.cursor, total))
  }

  function ParseUnary(ts: seq<Symbol>, length: nat, c: nat, cost: nat): (r: Outcome)
    ensures r.Ok? ==> c < r.value.cursor <= |ts|
    decreases |ts| - c, 0
  {
    if Peek(ts, c, NotWord) then
      match ParseUnary(ts, length, c + 1, cost + 2)
      case Err(e) => Err(e)
      case Ok(p) => Ok(p.(value := Not(p.value)))
    else if Peek(ts, c, Open) then
      match ParseExpression(ts, length, c + 1, cost)
      case Err(e) => Err(e)
      case Ok(p) =>
        if !Peek(ts, p.cursor, Close) then Err(ErrorAt(ts, length, p.cursor))
        else Ok(p.(cursor := p.cursor + 1))
    else ParseTerm(ts, length, c, cost)
  }

  function ParseConjunction(ts: seq<Symbol>, length: nat, c: nat, cost: nat): (r: Outcome)
    ensures r.Ok? ==> c < r.value.cursor <= |ts|
    decreases |ts| - c, 1
  {
    match ParseUnary(ts, length, c, cost)
    case Err(e) => Err(e)
    case Ok(p) => MoreAnds(ts, length, p.value, p.cursor, p.cost)
  }

  /** The loop of a conjunction with `left` read so far. */
  function MoreAnds(ts: seq<Symbol>, length: nat, left: Ast, c: nat, cost: nat): (r: Outcome)
    requires c <= |ts|
    ensures r.Ok? ==> c <= r.value.cursor <= |ts|
    decreases |ts| - c, 1
  {
    if !Peek(ts, c, AndWord) then Ok(Parsed(left, c, cost))
    else
      match ParseUnary(ts, length, c + 1, cost)
      case Err(e) => Err(e)
      case Ok(p) => MoreAnds(ts, length, And(left, p.value), p.cursor, p.cost + 1)
  }

  function ParseExpression(ts: seq<Symbol>, length: nat, c: nat, cost: nat): (r: Outcome)
    ensures r.Ok? ==> c < r.value.cursor <= |ts|
    decreases |ts| - c, 2
  {
    match ParseConjunction(ts, length, c, cost)
    case Err(e) => Err(e)
    case Ok(p) => MoreOrs(ts, length, p.value, p.cursor, p.cost)
  }

  /** The loop of an expression with `left` read so far. */
  function MoreOrs(ts: seq<Symbol>, length: nat, left: Ast, c: nat, cost: nat): (r: Outcome)
    requires c <= |ts|
    ensures r.Ok? ==> c <= r.value.cursor <= |ts|
    decreases |ts| - c, 2
  {
    if !Peek(ts, c, OrWord) then Ok(Parsed(left, c, cost))
    else
      match ParseConjunction(ts, length, c + 1, cost)
      case Err(e) => Err(e)
      case Ok(p) => MoreOrs(ts, length, Or(left, p.value), p.cursor, p.cost + 3)
  }

  datatype Query = Query(ast: Ast, cost: nat)

  function ParseTokens(ts: seq<Symbol>, length: nat): Result<Query, QueryError> {
    if ts == [] then Err(QueryError(0, InvalidQuery))
    else
      match ParseExpression(ts, length, 0, 0)
      case Err(e) => Err(e)
      case Ok(p) =>
        if p.cursor != |ts| then Err(ErrorAt(ts, length, p.cursor)) else Ok(Query(p.value, p.cost))
  }

  function Parse(source: string): Result<Query, QueryError> {
    if Units(source) > MAX_QUERY_LENGTH then Err(QueryError(MAX_QUERY_LENGTH, QueryTooComplex))
    else
      match Measured(source, Lex(source, 0))
      case Err(e) => Err(e)
      case Ok(ts) => ParseTokens(ClassifyAll(ts), Units(source))
  }

  // ---- The parser as the program runs it

  /** The cursor and cost that the parser's nested functions share. */
  class Parser {
    const tokens: seq<Symbol>
    const length: nat
    var cursor: nat
    var cost: nat

    constructor (tokens: seq<Symbol>, length: nat)
      ensures this.tokens == tokens && this.length == length && cursor == 0 && cost == 0
    {
      this.tokens, this.length := tokens, length;
      cursor, cost := 0, 0;
    }

    /** The method returned `r` and left cursor and cost as the function says. */
    ghost predicate Agrees(r: Result<Ast, QueryError>, spec: Outcome)
      reads this
    {
      match spec
      case Err(e) => r == Err(e)
      case Ok(p) => r == Ok(p.value) && cursor == p.cursor && cost == p.cost
    }

    method Expression() returns (r: Result<Ast, QueryError>)
      requires cursor <= |tokens|
      modifies this`cursor, this`cost
      ensures Agrees(r, ParseExpression(tokens, length, old(cursor), old(cost)))
      decreases |tokens| - cursor, 2
    {
      r := Conjunction();
      if r.Err? { return; }
      var node := r.value;
      while Peek(tokens, cursor, OrWord)
        invariant old(cursor) < cursor <= |tokens|
        invariant ParseExpression(tokens, length, old(cursor), old(cost)) == MoreOrs(tokens, length, node, cursor, cost)
        decreases |tokens| - cursor
      {
        cursor := cursor + 1;
        r := Conjunction();
        if r.Err? { return; }
        node := Or(node, r.value);
        cost := cost + 3;
      }
      r := Ok(node);
    }

    method Conjunction() returns (r: Result<Ast, QueryError>)
      requires cursor <= |tokens|
      modifies this`cursor, this`cost
      ensures Agrees(r, ParseConjunction(tokens, length, old(cursor), old(cost)))
      decreases |tokens| - cursor, 1
    {
      r := Unary();
      if r.Err? { return; }
      var node := r.value;
      while Peek(tokens, cursor, AndWord)
        invariant old(cursor) < cursor <= |tokens|
        invariant ParseConjunction(tokens, length, old(cursor), old(cost)) ==
          MoreAnds(tokens, length, node, cursor, cost)
        decreases |tokens| - cursor
      {
        cursor := cursor + 1;
        r := Unary();
        if r.Err? { return; }
        node := And(node, r.value);
        cost := cost + 1;
      }
      r := Ok(node);
    }

    method Unary() returns (r: Result<Ast, QueryError>)
      requires cursor <= |tokens|
      modifies this`cursor, this`cost
      ensures Agrees(r, ParseUnary(tokens, length, old(cursor), old(cost)))
      decreases |tokens| - cursor, 0
    {
      if Peek(tokens, cursor, NotWord) {
        cursor, cost := cursor + 1, cost + 2;
        r := Unary();
        if r.Ok? { r := Ok(Not(r.value)); }
      } else if Peek(tokens, cursor, Open) {
        cursor := cursor + 1;
        r := Expression();
        if r.Ok? {
          if !Peek(tokens, cursor, Close) { return Err(ErrorAt(tokens, length, cursor)); }
          cursor := cursor + 1;
        }
      } else {
        r := TermNode();
      }
    }

    method TermNode() returns (r: Result<Ast, QueryError>)
      requires cursor <= |tokens|
      modifies this`cursor, this`cost
      ensures Agrees(r, ParseTerm(tokens, length, old(cursor), old(cost)))
    {
      if cursor == |tokens| || tokens[cursor].field.None? {
        return Err(ErrorAt(tokens, length, cursor));
      }
      var fieldToken := tokens[cursor];
      cursor := cursor + 1;
      var operator := ParseOperator(tokens, length, cursor);
      if operator.Err? { return Err(operator.error); }
      cursor := operator.value.cursor;
      var op := operator.value.value;
      var values := Operand(op);
      if values.Err? { return Err(values.error); }
      var field := fieldToken.field.value;
      if op.In? || op.NotIn? { cost := cost + 2 * |values.value|; }
      cost := cost + if field == "text" || field == "description" || op.Like? then 5 else 1;
      if cost > MAX_QUERY_COST { return Err(QueryError(fieldToken.offset, QueryTooComplex)); }
      r := Ok(Term(field, op, values.value));
    }

    /** The part of a term after its operator: a value, or a list of values in parentheses. */
    method Operand(op: Operator) returns (r: Result<seq<string>, QueryError>)
      requires cursor <= |tokens|
      modifies this`cursor
      ensures match ParseOperand(tokens, length, op, old(cursor))
              case Err(e) => r == Err(e)
              case Ok(p) => r == Ok(p.value) && cursor == p.cursor
    {
      if !op.In? && !op.NotIn? {
        if cursor >= |tokens| || tokens[cursor].keyword.Open? || ListSign(tokens[cursor]) {
          return Err(ErrorAt(tokens, length, cursor));
        }
        cursor := cursor + 1;
        return Ok([tokens[cursor - 1].value]);
      }
      if !Peek(tokens, cursor, Open) { return Err(ErrorAt(tokens, length, cursor)); }
      cursor := cursor + 1;
      ghost var start := cursor;
      var values: seq<string>, more := [], true;
      while more
        invariant more ==> ParseValues(tokens, length, start, []) == ParseValues(tokens, length, cursor, values)
        invariant !more ==> ParseValues(tokens, length, start, []) == Ok(Parsed(values, cursor, 0))
        decreases |tokens| - cursor, more
      {
        if cursor >= |tokens| || ListSign(tokens[cursor]) {
          return Err(ErrorAt(tokens, length, cursor));
        }
        values := values + [tokens[cursor].value];
        cursor := cursor + 1;
        more := Peek(tokens, cursor, Comma);
        if more { cursor := cursor + 1; }
      }
      if !Peek(tokens, cursor, Close) { return Err(ErrorAt(tokens, length, cursor)); }
      cursor := cursor + 1;
      r := Ok(values);
    }
  }

  method ParseAdvancedQuery(source: string) returns (r: Result<Query, QueryError>)
    ensures r == Parse(source)
  {
    if Units(source) > MAX_QUERY_LENGTH { return Err(QueryError(MAX_QUERY_LENGTH, QueryTooComplex)); }
    var scanned := Tokenize(source);
    if scanned.Err? { return Err(scanned.error); }
    var tokens := ClassifyAll(scanned.value);
    if tokens == [] { return Err(QueryError(0, InvalidQuery)); }
    var parser := new Parser(tokens, Units(source));
    var ast := parser.Expression();
    if ast.Err? { return Err(ast.error); }
    if parser.cursor != |tokens| { return Err(ErrorAt(tokens, Units(source), parser.cursor)); }
    r := Ok(Query(ast.value, parser.cost));
  }
}
