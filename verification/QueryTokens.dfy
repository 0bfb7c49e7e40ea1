/** The tokenizer of the query language, and a renderer it undoes. */
module QueryTokens {
  import opened Basics
  import opened Wrappers

  datatype Token = Token(value: string, offset: nat)
  datatype ErrorCode = InvalidQuery | QueryTooComplex
  datatype QueryError = QueryError(offset: nat, code: ErrorCode)
  type Tokens = Result<seq<Token>, QueryError>

  /** The characters that a JavaScript regular expression counts as white space. */
  predicate Space(c: char) {
    || '\t' <= c <= '\r' || c == ' ' || c == '\U{A0}' || c == '\U{1680}' || '\U{2000}' <= c <= '\U{200A}'
    || c == '\U{2028}' || c == '\U{2029}' || c == '\U{202F}' || c == '\U{205F}' || c == '\U{3000}' || c == '\U{FEFF}'
  }

  predicate Punctuation(c: char) {
    c == '(' || c == ')' || c == ','
  }

  /** Characters that may stand in an unquoted word. */
  predicate WordChar(c: char) {
    !Space(c) && !Punctuation(c) && c != '=' && c != '<' && c != '>' && c != '!' && c != '~'
  }

  /** Length of the comparison operator at the head of `s`, or 0. */
  function OperatorLength(s: string): (n: nat)
    ensures n <= |s| && n <= 2
  {
    if s == "" then 0
    else if |s| > 1 && s[1] == '=' && (s[0] == '>' || s[0] == '<' || s[0] == '!') then 2
    else if s[0] == '=' || s[0] == '>' || s[0] == '<' || s[0] == '~' then 1
    else 0
  }

  function WordLength(s: string): (n: nat)
    ensures n <= |s|
  {
    if s != "" && WordChar(s[0]) then 1 + WordLength(s[1..]) else 0
  }

  /** The value of a quoted string whose opening quote is already consumed, and how many
      characters it takes, closing quote included. */
  function Unquote(s: string): (r: Option<(string, nat)>)
    ensures r.Some? ==> r.value.1 <= |s|
  {
    if s == "" then None
    else if s[0] == '"' then Some(("", 1))
    else
      var skip := if s[0] == '\\' && |s| > 1 then 1 else 0;
      Resume([s[skip]], skip + 1, Unquote(s[skip + 1..]))
  }

  /** What stands at the head of a non-empty rest: a blank, a token and its length, or an error. */
  datatype Scan = Blank | Found(value: string, length: nat) | Bad

  function Head(s: string): (h: Scan)
    requires s != ""
    ensures h.Found? ==> 0 < h.length <= |s|
  {
    if Space(s[0]) then Blank
    else if Punctuation(s[0]) then Found(s[..1], 1)
    else if OperatorLength(s) > 0 then Found(s[..OperatorLength(s)], OperatorLength(s))
    else if s[0] == '"' then
      match Unquote(s[1..])
      case None => Bad
      case Some((value, n)) => Found(value, 1 + n)
    else if WordLength(s) > 0 then Found(s[..WordLength(s)], WordLength(s))
    else Bad
  }

  function Cons(t: Token, rest: Tokens): Tokens {
    match rest
    case Ok(ts) => Ok([t] + ts)
    case Err(e) => Err(e)
  }

  /** The tokens of `s`, the rest of a source from character `offset` on. */
  function Lex(s: string, offset: nat): Tokens
    decreases |s|
  {
    if s == "" then Ok([])
    else
      match Head(s)
      case Blank => Lex(s[1..], offset + 1)
      case Found(value, n) => Cons(Token(value, offset), Lex(s[n..], offset + n))
      case Bad => Err(QueryError(offset, InvalidQuery))
  }

  /** Tokens already produced, put before the tokens still to come. */
  function Prepend(front: seq<Token>, rest: Tokens): Tokens {
    match rest
    case Ok(ts) => Ok(front + ts)
    case Err(e) => Err(e)
  }

  lemma PrependCons(front: seq<Token>, t: Token, rest: Tokens)
    ensures Prepend(front, Cons(t, rest)) == Prepend(front + [t], rest)
  {
    if rest.Ok? { assert front + ([t] + rest.value) == (front + [t]) + rest.value; }
  }

  /** A scan that has already consumed `n` characters into `value`. */
  function Resume(value: string, n: nat, rest: Option<(string, nat)>): Option<(string, nat)> {
    match rest
    case None => None
    case Some((v, m)) => Some((value + v, n + m))
  }

  lemma ResumeStep(value: string, n: nat, c: char, k: nat, rest: Option<(string, nat)>)
    ensures Resume(value, n, Resume([c], k, rest)) == Resume(value + [c], n + k, rest)
  {
    if rest.Some? { assert value + ([c] + rest.value.0) == (value + [c]) + rest.value.0; }
  }

  lemma UnquoteStep(source: string, i: nat, skip: nat)
    requires i < |source| && source[i] != '"'
    requires skip == if source[i] == '\\' && i + 1 < |source| then 1 else 0
    ensures Unquote(source[i..]) == Resume([source[i + skip]], skip + 1, Unquote(source[i + skip + 1..]))
  {
    assert source[i..][skip + 1..] == source[i + skip + 1..];
  }

  lemma QuotedStep(whole: Option<(string, nat)>, source: string, start: nat, value: string, index: nat, skip: nat)
    requires start <= index < |source| && source[index] != '"'
    requires skip == if source[index] == '\\' && index + 1 < |source| then 1 else 0
    requires whole == Resume(value, index - start, Unquote(source[index..]))
    ensures whole ==
      Resume(value + [source[index + skip]], index + skip + 1 - start, Unquote(source[index + skip + 1..]))
  {
    UnquoteStep(source, index, skip);
    ResumeStep(value, index - start, source[index + skip], skip + 1, Unquote(source[index + skip + 1..]));
  }

  lemma QuotedStart(rest: Option<(string, nat)>)
    ensures rest == Resume("", 0, rest)
  {
    if rest.Some? { assert "" + rest.value.0 == rest.value.0; }
  }

  lemma QuotedEnd(source: string, value: string, n: nat, index: nat)
    requires index <= |source| && (index < |source| ==> source[index] == '"')
    ensures Resume(value, n, Unquote(source[index..])) == if index < |source| then Some((value, n + 1)) else None
  {
    assert value + "" == value;
  }

  method ScanQuoted(source: string, start: nat) returns (value: string, index: nat)
    requires start <= |source|
    ensures start <= index <= |source|
    ensures Unquote(source[start..]) == if index < |source| then Some((value, index + 1 - start)) else None
  {
    value, index := "", start;
    ghost var whole := Unquote(source[start..]);
    QuotedStart(whole);
    while index < |source| && source[index] != '"'
      invariant start <= index <= |source|
      invariant whole == Resume(value, index - start, Unquote(source[index..]))
    {
      var skip := if source[index] == '\\' && index + 1 < |source| then 1 else 0;
      QuotedStep(whole, source, start, value, index, skip);
      index := index + skip;
      value := value + [source[index]];
      index := index + 1;
    }
    QuotedEnd(source, value, index - start, index);
  }

  method ScanWord(source: string, start: nat) returns (index: nat)
    requires start <= |source|
    ensures index == start + WordLength(source[start..])
  {
    index := start;
    while index < |source| && WordChar(source[index])
      invariant start <= index <= |source|
      invariant start + WordLength(source[start..]) == index + WordLength(source[index..])
    {
      assert source[index..][1..] == source[index + 1..];
      index := index + 1;
    }
  }

  /** One turn of the tokenizer on a character that is not a blank; `next == index` is an error. */
  method NextToken(source: string, index: nat) returns (value: string, next: nat)
    requires index < |source| && !Space(source[index])
    ensures index <= next <= |source|
    ensures Head(source[index..]) == if next > index then Found(value, next - index) else Bad
  {
    var rest := source[index..];
    value, next := "", index;
    if Punctuation(source[index]) {
      return rest[..1], index + 1;
    }
    var n := OperatorLength(rest);
    if n > 0 {
      return rest[..n], index + n;
    }
    if source[index] == '"' {
      assert rest[1..] == source[index + 1..];
      var stop;
      value, stop := ScanQuoted(source, index + 1);
      if stop < |source| { next := stop + 1; }
    } else {
      next := ScanWord(source, index);
      value := rest[..next - index];
    }
  }

  // ---- Offsets in UTF-16 code units, as the program reports them

  function Before(source: string, offset: nat): nat {
    Units(source[..if offset <= |source| then offset else |source|])
  }

  function MeasuredAll(source: string, tokens: seq<Token>): (r: seq<Token>)
    ensures |r| == |tokens|
    ensures forall i :: 0 <= i < |r| ==> r[i] == Token(tokens[i].value, Before(source, tokens[i].offset))
  {
    seq(|tokens|, i requires 0 <= i < |tokens| => Token(tokens[i].value, Before(source, tokens[i].offset)))
  }

  function Measured(source: string, ts: Tokens): Tokens {
    match ts
    case Ok(tokens) => Ok(MeasuredAll(source, tokens))
    case Err(e) => Err(QueryError(Before(source, e.offset), e.code))
  }

  lemma BeforeStep(source: string, index: nat, next: nat)
    requires index <= next <= |source|
    ensures Before(source, next) == Before(source, index) + Units(source[index..next])
  {
    assert source[..next] == source[..index] + source[index..next];
    UnitsConcat(source[..index], source[index..next]);
  }

  lemma BeforeWithin(source: string, offset: nat)
    ensures Before(source, offset) <= Units(source)
  {
    var n := if offset <= |source| then offset else |source|;
    assert source == source[..n] + source[n..];
    UnitsConcat(source[..n], source[n..]);
  }

  lemma MeasuredMore(source: string, tokens: seq<Token>, t: Token)
    ensures MeasuredAll(source, tokens + [t])
         == MeasuredAll(source, tokens) + [Token(t.value, Before(source, t.offset))]
  {}

  lemma BlankTurn(whole: Tokens, source: string, plain: seq<Token>, index: nat)
    requires index < |source| && Space(source[index])
    requires whole == Prepend(plain, Lex(source[index..], index))
    ensures whole == Prepend(plain, Lex(source[index + 1..], index + 1))
    ensures Before(source, index + 1) == Before(source, index) + 1
  {
    assert source[index..][1..] == source[index + 1..];
    assert source[index..index + 1] == [source[index]];
    BeforeStep(source, index, index + 1);
  }

  lemma LexFound(s: string, index: nat, value: string, next: nat, rest: string)
    requires s != "" && index <= next && Head(s) == Found(value, next - index) && rest == s[next - index..]
    ensures Lex(s, index) == Cons(Token(value, index), Lex(rest, next))
  {}

  lemma TokenTurn(whole: Tokens, source: string, plain: seq<Token>, index: nat, value: string, next: nat)
    requires index < next <= |source| && Head(source[index..]) == Found(value, next - index)
    requires whole == Prepend(plain, Lex(source[index..], index))
    ensures whole == Prepend(plain + [Token(value, index)], Lex(source[next..], next))
  {
    assert source[index..][next - index..] == source[next..];
    LexFound(source[index..], index, value, next, source[next..]);
    PrependCons(plain, Token(value, index), Lex(source[next..], next));
  }

  lemma BadTurn(whole: Tokens, source: string, plain: seq<Token>, index: nat)
    requires index < |source| && Head(source[index..]) == Bad
    requires whole == Prepend(plain, Lex(source[index..], index))
    ensures whole == Err(QueryError(index, InvalidQuery))
  {}

  lemma LastTurn(whole: Tokens, plain: seq<Token>, index: nat)
    requires whole == Prepend(plain, Lex("", index))
    ensures whole == Ok(plain)
  {
    assert plain + [] == plain;
  }

  method Tokenize(source: string) returns (r: Tokens)
    ensures r == Measured(source, Lex(source, 0))
  {
    var tokens: seq<Token>, index, offset: nat := [], 0, 0;
    ghost var plain: seq<Token>, whole := [], Lex(source, 0);
    assert source[0..] == source;
    PrependNothing(whole);
    while index < |source|
      invariant 0 <= index <= |source| && offset == Before(source, index)
      invariant tokens == MeasuredAll(source, plain)
      invariant whole == Prepend(plain, Lex(source[index..], index))
    {
      if Space(source[index]) {
        BlankTurn(whole, source, plain, index);
        index, offset := index + 1, offset + 1;
      } else {
        var value, next := NextToken(source, index);
        if next == index {
          BadTurn(whole, source, plain, index);
          return Err(QueryError(offset, InvalidQuery));
        }
        TokenTurn(whole, source, plain, index, value, next);
        BeforeStep(source, index, next);
        MeasuredMore(source, plain, Token(value, index));
        tokens, offset := tokens + [Token(value, offset)], offset + Units(source[index..next]);
        plain, index := plain + [Token(value, index)], next;
      }
    }
    r := Ok(tokens);
    assert source[index..] == "";
    LastTurn(whole, plain, index);
  }

  lemma PrependNothing(rest: Tokens)
    ensures Prepend([], rest) == rest
  {
    if rest.Ok? { assert [] + rest.value == rest.value; }
  }

  /** Every token, and every rejection, points into the source. */
  lemma {:induction false} LexOffsets(s: string, offset: nat)
    ensures Lex(s, offset).Ok? ==> forall t <- Lex(s, offset).value :: offset <= t.offset < offset + |s|
    ensures Lex(s, offset).Err? ==> offset <= Lex(s, offset).error.offset < offset + |s|
    decreases |s|
  {
    if s != "" {
      match Head(s)
      case Blank => LexOffsets(s[1..], offset + 1);
      case Found(value, n) => LexOffsets(s[n..], offset + n);
      case Bad =>
    }
  }

  // ---- Rendering

  datatype Lexeme = Bare(text: string) | Quoted(text: string)

  function Escape(text: string): string {
    if text == "" then ""
    else (if text[0] == '"' || text[0] == '\\' then ['\\', text[0]] else [text[0]]) + Escape(text[1..])
  }

  function RenderOne(l: Lexeme): string {
    match l
    case Bare(text) => text
    case Quoted(text) => "\"" + Escape(text) + "\""
  }

  /** The lexemes in order, one blank between neighbours. */
  function Render(ls: seq<Lexeme>): string
    decreases |ls|, 0
  {
    if ls == [] then "" else RenderOne(ls[0]) + Trail(ls[1..])
  }

  function Trail(ls: seq<Lexeme>): string
    decreases |ls|, 1
  {
    if ls == [] then "" else " " + Render(ls)
  }

  /** A bare lexeme that the tokenizer reads back as one token when a blank or the end follows. */
  predicate Lexable(l: Lexeme) {
    match l
    case Quoted(_) => true
    case Bare(text) =>
      || (|text| == 1 && Punctuation(text[0]))
      || text in {"=", "!=", ">", ">=", "<", "<=", "~"}
      || (text != "" && text[0] != '"' && forall c <- text :: WordChar(c))
  }

  lemma {:induction false} UnquoteEscape(text: string, rest: string)
    ensures Unquote(Escape(text) + "\"" + rest) == Some((text, |Escape(text)| + 1))
    decreases |text|
  {
    var s := Escape(text) + "\"" + rest;
    if text != "" {
      var tail := Escape(text[1..]) + "\"" + rest;
      UnquoteEscape(text[1..], rest);
      if text[0] == '"' || text[0] == '\\' {
        assert s == ['\\', text[0]] + tail;
        assert s[2..] == tail && s[0] == '\\' && s[1] == text[0];
      } else {
        assert s == [text[0]] + tail;
        assert s[1..] == tail;
      }
      assert [text[0]] + text[1..] == text;
    }
  }

  lemma {:induction false} WordBeforeBlank(text: string, rest: string)
    requires forall c <- text :: WordChar(c)
    requires rest == "" || Space(rest[0])
    ensures WordLength(text + rest) == |text|
    decreases |text|
  {
    if text != "" {
      assert (text + rest)[1..] == text[1..] + rest;
      WordBeforeBlank(text[1..], rest);
    } else {
      assert text + rest == rest;
    }
  }

  lemma HeadQuoted(text: string, rest: string)
    ensures Head(RenderOne(Quoted(text)) + rest) == Found(text, |RenderOne(Quoted(text))|)
  {
    var s := RenderOne(Quoted(text)) + rest;
    UnquoteEscape(text, rest);
    assert s[1..] == Escape(text) + "\"" + rest;
  }

  lemma HeadBare(text: string, rest: string)
    requires Lexable(Bare(text)) && (rest == "" || Space(rest[0]))
    ensures Head(text + rest) == Found(text, |text|)
  {
    var s := text + rest;
    assert s[..|text|] == text && s[0] == text[0];
    if |text| == 1 && Punctuation(text[0]) {
    } else if text in {"=", "!=", ">", ">=", "<", "<=", "~"} {
      if |text| == 2 { assert s[1] == text[1]; }
      else if rest != "" { assert s[1] == rest[0] && s[1] != '='; }
    } else {
      assert WordChar(text[0]);
      WordBeforeBlank(text, rest);
    }
  }

  /** One rendered lexeme is read back as one token with its text as value. */
  lemma LexOne(l: Lexeme, rest: string, offset: nat)
    requires Lexable(l) && (rest == "" || Space(rest[0]))
    ensures Lex(RenderOne(l) + rest, offset)
         == Cons(Token(l.text, offset), Lex(rest, offset + |RenderOne(l)|))
  {
    var s := RenderOne(l) + rest;
    if l.Quoted? { HeadQuoted(l.text, rest); } else { HeadBare(l.text, rest); }
    assert s[|RenderOne(l)|..] == rest;
  }

  lemma LexTrail(ls: seq<Lexeme>, offset: nat)
    ensures Lex(Trail(ls), offset) == if ls == [] then Ok([]) else Lex(Render(ls), offset + 1)
  {
    if ls != [] { assert Trail(ls)[1..] == Render(ls); }
  }

  function Texts(ls: seq<Lexeme>): (r: seq<string>)
    ensures |r| == |ls| && forall i :: 0 <= i < |ls| ==> r[i] == ls[i].text
  {
    seq(|ls|, i requires 0 <= i < |ls| => ls[i].text)
  }

  /** The values of the tokens, if there was no error. */
  function Values(ts: Tokens): (r: Option<seq<string>>)
    ensures r.Some? <==> ts.Ok?
    ensures r.Some? ==> |r.value| == |ts.value| && forall i :: 0 <= i < |r.value| ==> r.value[i] == ts.value[i].value
  {
    match ts
    case Ok(tokens) => Some(seq(|tokens|, i requires 0 <= i < |tokens| => tokens[i].value))
    case Err(_) => None
  }

  lemma OneMoreValue(t: Token, rest: Tokens, ls: seq<Lexeme>)
    requires ls != [] && t.value == ls[0].text && Values(rest) == Some(Texts(ls[1..]))
    ensures Values(Cons(t, rest)) == Some(Texts(ls))
  {
    assert Values(Cons(t, rest)).value == Texts(ls);
  }

  predicate AllLexable(ls: seq<Lexeme>) {
    ls != [] ==> Lexable(ls[0]) && AllLexable(ls[1..])
  }

  lemma {:induction false} EachLexable(ls: seq<Lexeme>)
    requires forall i :: 0 <= i < |ls| ==> Lexable(ls[i])
    ensures AllLexable(ls)
    decreases |ls|
  {
    if ls != [] { EachLexable(ls[1..]); }
  }

  lemma LexFirst(ls: seq<Lexeme>, offset: nat)
    requires ls != [] && Lexable(ls[0])
    ensures Lex(Render(ls), offset)
         == Cons(Token(ls[0].text, offset), Lex(Trail(ls[1..]), offset + |RenderOne(ls[0])|))
  {
    LexOne(ls[0], Trail(ls[1..]), offset);
  }

  lemma NoValues(ls: seq<Lexeme>)
    requires ls == []
    ensures Values(Ok([])) == Some(Texts(ls))
  {
    assert Values(Ok([])).value == Texts(ls);
  }

  lemma {:induction false} LexRest(ls: seq<Lexeme>, offset: nat)
    requires AllLexable(ls)
    ensures Values(Lex(Trail(ls), offset)) == Some(Texts(ls))
    decreases |ls|, 1
  {
    LexTrail(ls, offset);
    if ls == [] { NoValues(ls); } else { LexRender(ls, offset + 1); }
  }

  /** Tokenizing undoes rendering, offsets aside. */
  lemma {:induction false} LexRender(ls: seq<Lexeme>, offset: nat)
    requires AllLexable(ls)
    ensures Values(Lex(Render(ls), offset)) == Some(Texts(ls))
    decreases |ls|, 0
  {
    if ls == [] {
      NoValues(ls);
    } else {
      var next := offset + |RenderOne(ls[0])|;
      LexRest(ls[1..], next);
      LexFirst(ls, offset);
      OneMoreValue(Token(ls[0].text, offset), Lex(Trail(ls[1..]), next), ls);
    }
  }
}
