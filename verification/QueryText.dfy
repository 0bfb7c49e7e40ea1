/** What the tokens of a query are, said about the characters of the source: where they stand, where they
    end, what a quoted one stands for, and which words the parser takes them for. */
module QueryText {
  import opened Wrappers
  import opened QueryTokens
  import opened QueryParser
  import opened QueryRoundTrip

  // ---- The head of a rest

  /** White space, character by character. */
  predicate White(c: char) {
    c in "\t\n\U{B}\U{C}\r \U{A0}\U{1680}\U{2000}\U{2001}\U{2002}\U{2003}\U{2004}\U{2005}\U{2006}\U{2007}"
    || c in "\U{2008}\U{2009}\U{200A}\U{2028}\U{2029}\U{202F}\U{205F}\U{3000}\U{FEFF}"
  }

  /** What an unquoted word cannot hold. */
  predicate Ends(c: char) {
    White(c) || c in "(),=<>!~"
  }

  /** The first `n` characters are a word, and no longer one would be. */
  ghost predicate Word(s: string, n: nat) {
    && 0 < n <= |s| && (forall i :: 0 <= i < n ==> !Ends(s[i])) && (n < |s| ==> Ends(s[n]))
  }

  predicate TwoSigns(s: string) {
    |s| > 1 && (s[..2] == ">=" || s[..2] == "<=" || s[..2] == "!=")
  }

  lemma SpaceIsWhite(c: char)
    ensures Space(c) <==> White(c)
  {}

  lemma SignAtHead(s: string)
    requires s != ""
    ensures s[0] in "()," ==> Head(s) == Found([s[0]], 1)
    ensures TwoSigns(s) ==> Head(s) == Found(s[..2], 2)
    ensures s[0] in "=<>~" && !TwoSigns(s) ==> Head(s) == Found([s[0]], 1)
    ensures s[0] == '!' && !TwoSigns(s) ==> Head(s) == Bad
  {
    assert s[..1] == [s[0]];
    if |s| > 1 { assert s[..2] == [s[0], s[1]]; }
  }

  lemma WordAtHead(s: string)
    requires s != "" && !Ends(s[0]) && s[0] != '"'
    ensures Head(s).Found? && Word(s, Head(s).length) && Head(s).value == s[..Head(s).length]
  {
    SpaceIsWhite(s[0]);
    WordIsLongest(s);
    assert WordLength(s) > 0 && OperatorLength(s) == 0 && !Punctuation(s[0]);
    assert Head(s) == Found(s[..WordLength(s)], WordLength(s));
  }

  /** What stands at the head of a rest, by its characters. */
  lemma HeadMeans(s: string)
    requires s != ""
    ensures Head(s) == Blank <==> White(s[0])
    ensures s[0] in "()," ==> Head(s) == Found([s[0]], 1)
    ensures TwoSigns(s) ==> Head(s) == Found(s[..2], 2)
    ensures s[0] in "=<>~" && !TwoSigns(s) ==> Head(s) == Found([s[0]], 1)
    ensures s[0] == '!' && !TwoSigns(s) ==> Head(s) == Bad
    ensures s[0] == '"' ==> Head(s) == match Unquote(s[1..]) case None => Bad case Some((v, n)) => Found(v, n + 1)
    ensures !Ends(s[0]) && s[0] != '"' ==>
      Head(s).Found? && Word(s, Head(s).length) && Head(s).value == s[..Head(s).length]
  {
    SpaceIsWhite(s[0]);
    SignAtHead(s);
    if !Ends(s[0]) && s[0] != '"' { WordAtHead(s); }
  }

  lemma {:induction false} WordIsLongest(s: string)
    ensures var n := WordLength(s);
      (forall i :: 0 <= i < n ==> !Ends(s[i])) && (n < |s| ==> Ends(s[n]))
    decreases |s|
  {
    if s != "" {
      SpaceIsWhite(s[0]);
      if WordChar(s[0]) {
        WordIsLongest(s[1..]);
        assert forall i :: 0 < i < |s| ==> s[i] == s[1..][i - 1];
      }
    }
  }

  // ---- Quoted values

  /** A value between quotes, with a backslash before each marked character. */
  function Quoting(value: string, marks: seq<bool>): string
    requires |marks| == |value|
  {
    if value == "" then "" else (if marks[0] then "\\" else "") + [value[0]] + Quoting(value[1..], marks[1..])
  }

  /** Quotes and backslashes have to be marked, other characters may be. */
  ghost predicate Marked(value: string, marks: seq<bool>) {
    |marks| == |value| && forall i :: 0 <= i < |value| ==> value[i] in "\"\\" ==> marks[i]
  }

  ghost predicate Quotes(s: string, value: string, n: nat) {
    exists marks :: Marked(value, marks) && QuotesSo(s, value, n, marks)
  }

  ghost predicate QuotesSo(s: string, value: string, n: nat, marks: seq<bool>)
    requires |marks| == |value|
  {
    0 < n <= |s| && s[..n - 1] == Quoting(value, marks) && s[n - 1] == '"'
  }

  lemma {:induction false} UnquoteOf(s: string, value: string, n: nat, marks: seq<bool>)
    requires Marked(value, marks) && QuotesSo(s, value, n, marks)
    ensures Unquote(s) == Some((value, n))
    decreases |value|
  {
    if value != "" {
      var k := if marks[0] then 2 else 1;
      var rest := Quoting(value[1..], marks[1..]);
      assert s[..n - 1] == s[..k] + rest;
      assert marks[0] ==> s[0] == s[..n - 1][0] && s[1] == s[..n - 1][1];
      assert !marks[0] ==> s[0] == s[..n - 1][0];
      assert s[k..][..n - k - 1] == s[..n - 1][k..] == rest;
      UnquoteOf(s[k..], value[1..], n - k, marks[1..]);
      assert [value[0]] + value[1..] == value;
    }
  }

  lemma {:induction false} UnquoteMarks(s: string) returns (marks: seq<bool>)
    requires Unquote(s).Some?
    ensures var (value, n) := Unquote(s).value; Marked(value, marks) && QuotesSo(s, value, n, marks)
    decreases |s|
  {
    marks := [];
    if s[0] != '"' {
      var skip := if s[0] == '\\' && |s| > 1 then 1 else 0;
      var rest := s[skip + 1..];
      var (v, m) := Unquote(rest).value;
      var more := UnquoteMarks(rest);
      marks := [skip == 1] + more;
      var value := [s[skip]] + v;
      assert value[1..] == v && marks[1..] == more;
      assert s[..skip + m] == s[..skip + 1] + rest[..m - 1];
    }
  }

  /** A quoted value is whatever stands before the first bare quote, taken literally behind a backslash. */
  lemma UnquoteIff(s: string, value: string, n: nat)
    ensures Unquote(s) == Some((value, n)) <==> Quotes(s, value, n)
  {
    if Unquote(s) == Some((value, n)) {
      var marks := UnquoteMarks(s);
    }
    if Quotes(s, value, n) {
      var marks :| Marked(value, marks) && QuotesSo(s, value, n, marks);
      UnquoteOf(s, value, n, marks);
    }
  }

  // ---- Where tokens stand

  ghost predicate AllWhite(s: string) {
    forall c <- s :: White(c)
  }

  /** From `at` on: white space, a token, and so on, up to the end or up to `stop`. */
  ghost predicate Cut(s: string, at: nat, ts: seq<Token>, stop: nat)
    decreases |ts|
  {
    if ts == [] then at <= stop <= |s| && AllWhite(s[at..stop])
    else
      && at <= ts[0].offset < |s| && AllWhite(s[at..ts[0].offset])
      && Head(s[ts[0].offset..]).Found? && Head(s[ts[0].offset..]).value == ts[0].value
      && Cut(s, ts[0].offset + Head(s[ts[0].offset..]).length, ts[1..], stop)
  }

  /** The tokens of an accepted source are what stands between its white space; a rejection names the first
      place where no token begins. */
  lemma LexMeans(source: string)
    ensures Lex(source, 0).Ok? ==> Cut(source, 0, Lex(source, 0).value, |source|)
    ensures Lex(source, 0).Err? ==>
      var stop := Lex(source, 0).error.offset;
      && Lex(source, 0).error.code == InvalidQuery && stop < |source| && Head(source[stop..]) == Bad
      && exists ts :: Cut(source, 0, ts, stop)
  {
    assert source[0..] == source;
    LexCuts(source, 0);
  }

  /** The outcome is the tokens if they reach the end, else the place where no token begins. */
  ghost predicate Stops(outcome: Tokens, s: string, ts: seq<Token>, stop: nat) {
    match outcome
    case Ok(tokens) => tokens == ts && stop == |s|
    case Err(e) => e == QueryError(stop, InvalidQuery) && stop < |s| && Head(s[stop..]) == Bad
  }

  lemma StopsLater(outcome: Tokens, t: Token, s: string, rest: seq<Token>, stop: nat)
    requires Stops(outcome, s, rest, stop)
    ensures Stops(Cons(t, outcome), s, [t] + rest, stop)
  {}

  ghost predicate ReadUpTo(s: string, at: nat, outcome: Tokens, ts: seq<Token>, stop: nat) {
    Cut(s, at, ts, stop) && Stops(outcome, s, ts, stop)
  }

  ghost predicate Readable(s: string, at: nat, outcome: Tokens) {
    at <= |s| && exists ts, stop :: ReadUpTo(s, at, outcome, ts, stop)
  }

  lemma {:induction false} LexCuts(s: string, at: nat)
    requires at <= |s|
    ensures Readable(s, at, Lex(s[at..], at))
    decreases |s| - at
  {
    if at == |s| {
      assert s[at..] == "";
      ReadEnd(s);
    } else if Head(s[at..]).Blank? {
      LexCuts(s, at + 1);
      ReadBlank(s, at, Lex(s[at + 1..], at + 1));
      LexBlank(s, at);
    } else if Head(s[at..]).Found? {
      var h := Head(s[at..]);
      LexCuts(s, at + h.length);
      ReadFound(s, at, Lex(s[at + h.length..], at + h.length));
      LexToken(s, at, h.value, h.length);
    } else {
      ReadNothing(s, at);
    }
  }

  lemma ReadEnd(s: string)
    ensures Readable(s, |s|, Ok([]))
  {
    assert s[|s|..|s|] == "" && ReadUpTo(s, |s|, Ok([]), [], |s|);
  }

  lemma ReadNothing(s: string, at: nat)
    requires at < |s| && Head(s[at..]).Bad?
    ensures Readable(s, at, Err(QueryError(at, InvalidQuery)))
  {
    assert s[at..at] == "" && ReadUpTo(s, at, Err(QueryError(at, InvalidQuery)), [], at);
  }

  lemma ReadBlank(s: string, at: nat, later: Tokens)
    requires at < |s| && Head(s[at..]).Blank? && Readable(s, at + 1, later)
    ensures Readable(s, at, later)
  {
    var ts, stop :| ReadUpTo(s, at + 1, later, ts, stop);
    CutBlank(s, at, ts, stop);
    assert ReadUpTo(s, at, later, ts, stop);
  }

  lemma ReadFound(s: string, at: nat, later: Tokens)
    requires at < |s| && Head(s[at..]).Found? && Readable(s, at + Head(s[at..]).length, later)
    ensures Readable(s, at, Cons(Token(Head(s[at..]).value, at), later))
  {
    var t := Token(Head(s[at..]).value, at);
    var rest, stop :| ReadUpTo(s, at + Head(s[at..]).length, later, rest, stop);
    CutToken(s, at, rest, stop);
    StopsLater(later, t, s, rest, stop);
    assert ReadUpTo(s, at, Cons(t, later), [t] + rest, stop);
  }

  lemma LexToken(s: string, at: nat, value: string, n: nat)
    requires at < |s| && Head(s[at..]) == Found(value, n)
    ensures Lex(s[at..], at) == Cons(Token(value, at), Lex(s[at + n..], at + n))
  {
    assert s[at..][n..] == s[at + n..];
    LexFound(s[at..], at, value, at + n, s[at + n..]);
  }

  lemma CutBlank(s: string, at: nat, ts: seq<Token>, stop: nat)
    requires at < |s| && Head(s[at..]).Blank? && Cut(s, at + 1, ts, stop)
    ensures Cut(s, at, ts, stop)
  {
    SpaceIsWhite(s[at]);
    CutAfterWhite(s, at, ts, stop);
  }

  lemma LexBlank(s: string, at: nat)
    requires at < |s| && Head(s[at..]).Blank?
    ensures Lex(s[at..], at) == Lex(s[at + 1..], at + 1)
  {
    assert s[at..][1..] == s[at + 1..];
  }

  lemma CutToken(s: string, at: nat, rest: seq<Token>, stop: nat)
    requires at < |s| && Head(s[at..]).Found? && Cut(s, at + Head(s[at..]).length, rest, stop)
    ensures Cut(s, at, [Token(Head(s[at..]).value, at)] + rest, stop)
  {
    assert ([Token(Head(s[at..]).value, at)] + rest)[1..] == rest && s[at..at] == "";
  }

  lemma CutAfterWhite(s: string, at: nat, ts: seq<Token>, stop: nat)
    requires at < |s| && White(s[at]) && Cut(s, at + 1, ts, stop)
    ensures Cut(s, at, ts, stop)
  {
    var next := if ts == [] then stop else ts[0].offset;
    assert s[at..next] == [s[at]] + s[at + 1..next];
  }

  // ---- Words and signs

  /** The word in capitals or small letters; a dotless i passes for I. */
  ghost predicate Spells(value: string, word: string) {
    |value| == |word| && forall i :: 0 <= i < |word| ==>
      value[i] == word[i] || ('A' <= word[i] <= 'Z' && value[i] == word[i] - 'A' + 'a')
      || (word[i] == 'I' && value[i] == '\U{131}')
  }

  lemma SpellsIff(value: string, word: string)
    requires forall c <- word :: !('a' <= c <= 'z') && c != '\U{131}'
    ensures Spells(value, word) <==> Upper(value) == word
  {
    FoldedAt(value);
    if Upper(value) == word {
      forall i | 0 <= i < |word|
        ensures value[i] == word[i] || ('A' <= word[i] <= 'Z' && value[i] == word[i] - 'A' + 'a')
          || (word[i] == 'I' && value[i] == '\U{131}')
      {
        assert Upper(value)[i] == word[i];
      }
    }
    if Spells(value, word) {
      forall i | 0 <= i < |word| ensures Upper(value)[i] == word[i] { assert word[i] in word; }
    }
  }

  /** What each word of the language is written as. */
  lemma KeywordMeans(value: string)
    ensures KeywordOf(value) == AndWord <==> Spells(value, "AND")
    ensures KeywordOf(value) == OrWord <==> Spells(value, "OR")
    ensures KeywordOf(value) == NotWord <==> Spells(value, "NOT")
    ensures KeywordOf(value) == Comparison(In) <==> Spells(value, "IN")
    ensures KeywordOf(value) == Comparison(NotIn) <==> Spells(value, "NOT IN")
  {
    KeywordIff(value, AndWord);
    KeywordIff(value, OrWord);
    KeywordIff(value, NotWord);
    KeywordIff(value, Comparison(In));
    KeywordIff(value, Comparison(NotIn));
  }

  /** And what each sign is. */
  lemma SignMeans(value: string)
    ensures KeywordOf(value) == Open <==> value == "("
    ensures KeywordOf(value) == Close <==> value == ")"
    ensures KeywordOf(value) == Comma <==> value == ","
    ensures KeywordOf(value) == Comparison(Eq) <==> value == "="
    ensures KeywordOf(value) == Comparison(Ne) <==> value == "!="
    ensures KeywordOf(value) == Comparison(Gt) <==> value == ">"
    ensures KeywordOf(value) == Comparison(Ge) <==> value == ">="
    ensures KeywordOf(value) == Comparison(Lt) <==> value == "<"
    ensures KeywordOf(value) == Comparison(Le) <==> value == "<="
    ensures KeywordOf(value) == Comparison(Like) <==> value == "~"
  {
    SignIff(value, Open);
    SignIff(value, Close);
    SignIff(value, Comma);
    SignIff(value, Comparison(Eq));
    SignIff(value, Comparison(Ne));
    SignIff(value, Comparison(Gt));
    SignIff(value, Comparison(Ge));
    SignIff(value, Comparison(Lt));
    SignIff(value, Comparison(Le));
    SignIff(value, Comparison(Like));
  }

  lemma SignIff(value: string, keyword: Keyword)
    requires !keyword.Plain? && forall c <- Spell(keyword) :: !('A' <= c <= 'Z')
    ensures KeywordOf(value) == keyword <==> value == Spell(keyword)
  {
    KeywordIff(value, keyword);
    if Spells(value, Spell(keyword)) {
      forall i | 0 <= i < |value| ensures value[i] == Spell(keyword)[i] { assert Spell(keyword)[i] in Spell(keyword); }
    }
  }

  lemma KeywordIff(value: string, keyword: Keyword)
    requires !keyword.Plain?
    ensures KeywordOf(value) == keyword <==> Spells(value, Spell(keyword))
  {
    SpellsIff(value, Spell(keyword));
    SpellingIsUpper(keyword);
    SpellingReads(keyword);
    if KeywordOf(value) == keyword {
      var i := LookupAtKeyword(value, keyword);
    }
  }

  lemma LookupAtKeyword(value: string, keyword: Keyword) returns (i: nat)
    requires KeywordOf(value) == keyword != Plain
    ensures Upper(value) == Spell(keyword)
  {
    i := LookupFinds(KEYWORDS, Upper(value));
    assert KEYWORDS[i].0 == Spell(KEYWORDS[i].1);
    KeywordsDiffer();
    LookupAt(KEYWORDS, i, Upper(value));
  }

  // ---- Fields

  /** The field in small letters or capitals; a Kelvin sign passes for k. */
  ghost predicate Names(value: string, field: string) {
    |value| == |field| && forall i :: 0 <= i < |field| ==>
      value[i] == field[i] || ('a' <= field[i] <= 'z' && value[i] == field[i] - 'a' + 'A')
      || (field[i] == 'k' && value[i] == '\U{212A}')
  }

  lemma NamesIff(value: string, field: string)
    requires forall c <- field :: 'a' <= c <= 'z'
    ensures Names(value, field) <==> Lower(value) == field
  {
    FoldedAt(value);
    if Lower(value) == field {
      forall i | 0 <= i < |field|
        ensures value[i] == field[i] || ('a' <= field[i] <= 'z' && value[i] == field[i] - 'a' + 'A')
          || (field[i] == 'k' && value[i] == '\U{212A}')
      {
        assert Lower(value)[i] == field[i] && field[i] in field;
      }
    }
    if Names(value, field) {
      forall i | 0 <= i < |field| ensures Lower(value)[i] == field[i] { assert field[i] in field; }
    }
  }

  /** The fields a query can name. */
  predicate Queryable(field: string) {
    || field == "key" || field == "text" || field == "summary" || field == "description" || field == "project"
    || field == "type" || field == "status" || field == "assignee" || field == "reporter" || field == "priority"
    || field == "label" || field == "sprint" || field == "release" || field == "parent" || field == "link"
    || field == "created" || field == "updated" || field == "due" || field == "resolved"
  }

  lemma QueryableIffListed(field: string)
    ensures Queryable(field) <==> field in QUERY_FIELDS && field != "requestType"
  {
    if Queryable(field) {
      var i := PlaceOf(field);
    }
  }

  lemma PlaceOf(field: string) returns (i: nat)
    requires Queryable(field)
    ensures i < |QUERY_FIELDS| && QUERY_FIELDS[i] == field && i != 15
  {
    i := if field == "key" then 0 else if field == "text" then 1 else if field == "summary" then 2
      else if field == "description" then 3 else if field == "project" then 4 else if field == "type" then 5
      else if field == "status" then 6 else if field == "assignee" then 7 else if field == "reporter" then 8
      else if field == "priority" then 9 else if field == "label" then 10 else if field == "sprint" then 11
      else if field == "release" then 12 else if field == "parent" then 13 else if field == "link" then 14
      else if field == "created" then 16 else if field == "updated" then 17 else if field == "due" then 18 else 19;
  }

  /** What each field is written as. */
  lemma FieldMeans(value: string, field: string)
    ensures FieldOf(value) == Some(field) <==> Queryable(field) && Names(value, field)
  {
    QueryableIffListed(field);
    FieldShapes();
    if FieldOf(value) == Some(field) {
      var i := IncludesAt(QUERY_FIELDS, Lower(value));
      RequestTypeIsNoField(value);
      FieldLetters(i);
      NamesIff(value, field);
    }
    if Queryable(field) && Names(value, field) {
      var i := PlaceOf(field);
      FieldLetters(i);
      NamesIff(value, field);
      IncludedAt(QUERY_FIELDS, i);
    }
  }

  lemma FieldLetters(i: nat)
    requires i < |QUERY_FIELDS| && i != 15
    ensures forall c <- QUERY_FIELDS[i] :: 'a' <= c <= 'z'
  {
    FieldShapes();
    forall c <- QUERY_FIELDS[i] ensures 'a' <= c <= 'z' {
      var k :| 0 <= k < |QUERY_FIELDS[i]| && QUERY_FIELDS[i][k] == c;
    }
  }
}
