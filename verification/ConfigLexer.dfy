/** The lexer of the configuration parser. */
module ConfigLexer {
  import opened Streams

  datatype TokenType =
    | START | NORMAL | START_BLOCK | END_BLOCK | COMMENT | STATEMENT_END | EOF | ERROR

  datatype LexerState = INITIAL_WHITESPACE | SINGLE_QUOTE | DOUBLE_QUOTE | IN_COMMENT | IN_NORMAL

  datatype Lexed = Lexed(kind: TokenType, value: string, rest: string)

  predicate IsSpace(c: char) {
    c == ' ' || c == '\t' || c == '\n' || c == '\r'
  }

  /** A character that ends a bare word. */
  predicate EndsWord(c: char) {
    c == ' ' || c == '\t' || c == '\n' || c == ';' || c == '{' || c == '}' || c == '"' || c == '\''
  }

  /** A character that a bare word can start with. */
  predicate StartsWord(c: char) {
    !EndsWord(c) && c != '\r' && c != '#'
  }

  /** The next token of `s`, when the lexer is in `state` and has read `value` so far. */
  function Lex(state: LexerState, value: string, s: string): (t: Lexed)
    ensures t.kind.EOF? || t.kind.ERROR? || |t.rest| < |s| || (state.IN_NORMAL? && |t.rest| <= |s|)
    ensures !t.kind.START?
    decreases |s|
  {
    if s == "" then Lexed(if state.SINGLE_QUOTE? || state.DOUBLE_QUOTE? then ERROR else EOF, value, "")
    else
      var c, rest := s[0], s[1..];
      match state
      case INITIAL_WHITESPACE =>
        if c == '{' then Lexed(START_BLOCK, [c], rest)
        else if c == '}' then Lexed(END_BLOCK, [c], rest)
        else if c == '#' then Lex(IN_COMMENT, [c], rest)
        else if c == '"' then Lex(DOUBLE_QUOTE, [c], rest)
        else if c == '\'' then Lex(SINGLE_QUOTE, [c], rest)
        else if c == ';' then Lexed(STATEMENT_END, [c], rest)
        else if IsSpace(c) then Lex(INITIAL_WHITESPACE, value, rest)
        else Lex(IN_NORMAL, value + [c], rest)
      case SINGLE_QUOTE =>
        if c == '\'' then Lexed(NORMAL, value + [c], rest) else Lex(SINGLE_QUOTE, value + [c], rest)
      case DOUBLE_QUOTE =>
        if c == '"' then Lexed(NORMAL, value + [c], rest) else Lex(DOUBLE_QUOTE, value + [c], rest)
      case IN_COMMENT =>
        if c == '\n' || c == '\r' then Lexed(COMMENT, value, rest) else Lex(IN_COMMENT, value + [c], rest)
      case IN_NORMAL =>
        if EndsWord(c) then Lexed(NORMAL, value, s) else Lex(IN_NORMAL, value + [c], rest)
  }

  /** The lexer reads the stream one character at a time, and puts the character that ends a bare word back. */
  method ParseToken(input: InputStream, value0: string) returns (kind: TokenType, value: string)
    requires input.Valid()
    modifies input
    ensures input.Valid()
    ensures var t := Lex(INITIAL_WHITESPACE, value0, old(input.Rest()));
            kind == t.kind && value == t.value && input.Rest() == t.rest
  {
    ghost var t := Lex(INITIAL_WHITESPACE, value0, input.Rest());
    var state := INITIAL_WHITESPACE;
    value := value0;
    while input.good
      invariant input.Valid() && Lex(state, value, input.Rest()) == t
      decreases |input.Rest()|, input.good
    {
      var ok, c := input.Get();
      if !ok { break; }
      match state {
        case INITIAL_WHITESPACE =>
          if c == '{' { return START_BLOCK, [c]; }
          else if c == '}' { return END_BLOCK, [c]; }
          else if c == '#' { value, state := [c], IN_COMMENT; }
          else if c == '"' { value, state := [c], DOUBLE_QUOTE; }
          else if c == '\'' { value, state := [c], SINGLE_QUOTE; }
          else if c == ';' { return STATEMENT_END, [c]; }
          else if c == ' ' || c == '\t' || c == '\n' || c == '\r' { }
          else { value, state := value + [c], IN_NORMAL; }
        case SINGLE_QUOTE =>
          value := value + [c];
          if c == '\'' { return NORMAL, value; }
        case DOUBLE_QUOTE =>
          value := value + [c];
          if c == '"' { return NORMAL, value; }
        case IN_COMMENT =>
          if c == '\n' || c == '\r' { return COMMENT, value; }
          value := value + [c];
        case IN_NORMAL =>
          if c == ' ' || c == '\t' || c == '\n' || c == ';' || c == '{' || c == '}' || c == '"' || c == '\'' {
            input.Unget();
            return NORMAL, value;
          }
          value := value + [c];
      }
    }
    kind := if state == SINGLE_QUOTE || state == DOUBLE_QUOTE then ERROR else EOF;
  }

  // ----- Words -----

  predicate IsBare(w: string) {
    w != "" && StartsWord(w[0]) && forall k :: 1 <= k < |w| ==> !EndsWord(w[k])
  }

  predicate IsQuoted(w: string, q: char) {
    2 <= |w| && w[0] == q && w[|w|-1] == q && forall k :: 1 <= k < |w| - 1 ==> w[k] != q
  }

  /** A string the lexer can deliver as one word. */
  predicate IsWord(w: string) {
    IsBare(w) || IsQuoted(w, '"') || IsQuoted(w, '\'')
  }

  /** The word read so far, while the lexer is in `state`. */
  predicate Unfinished(state: LexerState, v: string) {
    match state
    case INITIAL_WHITESPACE => v == ""
    case SINGLE_QUOTE => v != "" && v[0] == '\'' && '\'' !in v[1..]
    case DOUBLE_QUOTE => v != "" && v[0] == '"' && '"' !in v[1..]
    case IN_COMMENT => true
    case IN_NORMAL => IsBare(v)
  }

  /** Every word the lexer delivers is one. */
  lemma {:induction false} LexGivesWords(state: LexerState, v: string, s: string)
    requires Unfinished(state, v)
    ensures var t := Lex(state, v, s); t.kind.NORMAL? ==> IsWord(t.value)
    decreases |s|
  {
    if s != "" {
      var c, rest := s[0], s[1..];
      match state
      case INITIAL_WHITESPACE =>
        if c == '#' { LexGivesWords(IN_COMMENT, [c], rest); }
        else if c == '"' { LexGivesWords(DOUBLE_QUOTE, [c], rest); }
        else if c == '\'' { LexGivesWords(SINGLE_QUOTE, [c], rest); }
        else if IsSpace(c) { LexGivesWords(INITIAL_WHITESPACE, v, rest); }
        else if StartsWord(c) { LexGivesWords(IN_NORMAL, v + [c], rest); }
      case SINGLE_QUOTE =>
        assert (v + [c])[1..] == v[1..] + [c];
        if c == '\'' { QuoteIsClosed(v, c); } else { LexGivesWords(state, v + [c], rest); }
      case DOUBLE_QUOTE =>
        assert (v + [c])[1..] == v[1..] + [c];
        if c == '"' { QuoteIsClosed(v, c); } else { LexGivesWords(state, v + [c], rest); }
      case IN_COMMENT =>
        if c != '\n' && c != '\r' { LexGivesWords(state, v + [c], rest); }
      case IN_NORMAL =>
        if !EndsWord(c) { LexGivesWords(state, v + [c], rest); }
    }
  }

  lemma QuoteIsClosed(v: string, q: char)
    requires v != "" && v[0] == q && q !in v[1..]
    ensures IsQuoted(v + [q], q)
  {
  }

  lemma {:induction false} LexBare(v: string, w: string, rest: string)
    requires forall k :: 0 <= k < |w| ==> !EndsWord(w[k])
    requires rest != "" ==> EndsWord(rest[0])
    ensures Lex(IN_NORMAL, v, w + rest) == Lexed(if rest == "" then EOF else NORMAL, v + w, rest)
    decreases |w|
  {
    if w == "" {
      assert w + rest == rest && v + w == v;
    } else {
      assert (w + rest)[1..] == w[1..] + rest;
      LexBare(v + [w[0]], w[1..], rest);
      assert v + [w[0]] + w[1..] == v + w;
    }
  }

  lemma {:induction false} LexQuoted(q: char, v: string, w: string, rest: string)
    requires q == '"' || q == '\''
    requires w != "" && w[|w|-1] == q && forall k :: 0 <= k < |w| - 1 ==> w[k] != q
    ensures Lex(if q == '"' then DOUBLE_QUOTE else SINGLE_QUOTE, v, w + rest) == Lexed(NORMAL, v + w, rest)
    decreases |w|
  {
    assert (w + rest)[1..] == w[1..] + rest;
    if |w| == 1 {
      assert w == [q];
    } else {
      LexQuoted(q, v + [w[0]], w[1..], rest);
      assert v + [w[0]] + w[1..] == v + w;
    }
  }

  /** A word followed by a character that ends bare words is read back as that word, up to that character. */
  lemma LexWord(w: string, rest: string)
    requires IsWord(w) && rest != "" && EndsWord(rest[0])
    ensures Lex(INITIAL_WHITESPACE, "", w + rest) == Lexed(NORMAL, w, rest)
  {
    assert (w + rest)[1..] == w[1..] + rest && [w[0]] + w[1..] == w && "" + [w[0]] == [w[0]];
    if IsBare(w) {
      LexBare([w[0]], w[1..], rest);
    } else {
      LexQuoted(w[0], [w[0]], w[1..], rest);
    }
  }

  /** A bare word at the very end of the text is not delivered: the lexer reports the end of the text. */
  lemma LexCutOff(w: string)
    requires IsBare(w)
    ensures Lex(INITIAL_WHITESPACE, "", w) == Lexed(EOF, w, "")
  {
    assert w[1..] + "" == w[1..] && [w[0]] + w[1..] == w && "" + [w[0]] == [w[0]];
    LexBare([w[0]], w[1..], "");
  }

  // ----- The same in characters -----

  predicate Avoids(s: string, chars: string) {
    forall i :: 0 <= i < |s| ==> s[i] !in chars
  }

  /** A bare word goes up to white space, punctuation or a quote: a number sign and a carriage return can stand in it,
      but not at its start. */
  lemma LexBareCharacters(w: string, rest: string)
    requires w != "" && w[0] !in " \t\n\r;{}\"'#" && Avoids(w[1..], " \t\n;{}\"'")
    requires rest != "" ==> rest[0] in " \t\n;{}\"'"
    ensures Lex(INITIAL_WHITESPACE, "", w + rest) == Lexed(if rest == "" then EOF else NORMAL, w, rest)
  {
    assert forall k :: 0 <= k < |w[1..]| ==> !EndsWord(w[1..][k]);
    assert IsBare(w) by { assert forall k :: 1 <= k < |w| ==> w[k] == w[1..][k-1]; }
    if rest == "" {
      assert w + rest == w;
      LexCutOff(w);
    } else {
      LexWord(w, rest);
    }
  }

  /** A quoted word goes up to the next quote of that kind, and is an error without one. */
  lemma LexQuotedCharacters(q: char, w: string, rest: string)
    requires q in "\"'" && q !in w
    ensures Lex(INITIAL_WHITESPACE, "", [q] + w + [q] + rest) == Lexed(NORMAL, [q] + w + [q], rest)
    ensures Lex(INITIAL_WHITESPACE, "", [q] + w) == Lexed(ERROR, [q] + w, "")
  {
    LexQuoted(q, [q], w + [q], rest);
    LexUnclosed(q, [q], w);
    LexOpens(q, w + [q] + rest);
    LexOpens(q, w);
    hide *;
    assert [q] + (w + [q] + rest) == [q] + w + [q] + rest && [q] + (w + [q]) == [q] + w + [q];
  }

  lemma LexOpens(q: char, rest: string)
    requires q in "\"'"
    ensures Lex(INITIAL_WHITESPACE, "", [q] + rest) == Lex(if q == '"' then DOUBLE_QUOTE else SINGLE_QUOTE, [q], rest)
  {
    assert ([q] + rest)[1..] == rest;
  }

  lemma {:induction false} LexUnclosed(q: char, v: string, w: string)
    requires (q == '"' || q == '\'') && q !in w
    ensures Lex(if q == '"' then DOUBLE_QUOTE else SINGLE_QUOTE, v, w) == Lexed(ERROR, v + w, "")
    decreases |w|
  {
    if w == "" {
      assert v + w == v;
    } else {
      LexUnclosed(q, v + [w[0]], w[1..]);
      assert v + [w[0]] + w[1..] == v + w;
    }
  }

  lemma {:induction false} LexComment(v: string, w: string, rest: string)
    requires Avoids(w, "\n\r") && (rest != "" ==> rest[0] in "\n\r")
    ensures Lex(IN_COMMENT, v, w + rest) ==
            if rest == "" then Lexed(EOF, v + w, "") else Lexed(COMMENT, v + w, rest[1..])
    decreases |w|
  {
    if w == "" {
      assert w + rest == rest && v + w == v;
    } else {
      assert (w + rest)[1..] == w[1..] + rest;
      LexComment(v + [w[0]], w[1..], rest);
      assert v + [w[0]] + w[1..] == v + w;
    }
  }

  /** A comment goes from a number sign to the end of the line. */
  lemma LexCommentCharacters(w: string, rest: string)
    requires Avoids(w, "\n\r") && (rest != "" ==> rest[0] in "\n\r")
    ensures Lex(INITIAL_WHITESPACE, "", "#" + w + rest) ==
            if rest == "" then Lexed(EOF, "#" + w, "") else Lexed(COMMENT, "#" + w, rest[1..])
  {
    LexComment("#", w, rest);
    assert ("#" + w + rest)[1..] == w + rest;
  }

  /** White space before a token is skipped, and a punctuation character is a token. */
  lemma {:induction false} LexOtherCharacters(ws: string, rest: string)
    requires forall i :: 0 <= i < |ws| ==> ws[i] in " \t\n\r"
    ensures Lex(INITIAL_WHITESPACE, "", ws + rest) == Lex(INITIAL_WHITESPACE, "", rest)
    ensures Lex(INITIAL_WHITESPACE, "", ";" + rest) == Lexed(STATEMENT_END, ";", rest)
    ensures Lex(INITIAL_WHITESPACE, "", "{" + rest) == Lexed(START_BLOCK, "{", rest)
    ensures Lex(INITIAL_WHITESPACE, "", "}" + rest) == Lexed(END_BLOCK, "}", rest)
    decreases |ws|
  {
    if ws == "" {
      assert ws + rest == rest;
    } else {
      assert (ws + rest)[1..] == ws[1..] + rest;
      LexOtherCharacters(ws[1..], rest);
    }
  }

  // ----- The words and punctuation of a text -----

  datatype Lexeme = Word(text: string) | Semicolon | OpenBrace | CloseBrace

  /** The lexemes that the lexer delivers from a text, without the comments and without a bare word that the end of the
      text cuts off; `complete` if there is no lexical error. */
  datatype Scan = Scan(lexemes: seq<Lexeme>, complete: bool)

  function Lexemes(s: string): Scan
    decreases |s|
  {
    var t := Lex(INITIAL_WHITESPACE, "", s);
    match t.kind
    case EOF => Scan([], true)
    case NORMAL => Ahead([Word(t.value)], Lexemes(t.rest))
    case STATEMENT_END => Ahead([Semicolon], Lexemes(t.rest))
    case START_BLOCK => Ahead([OpenBrace], Lexemes(t.rest))
    case END_BLOCK => Ahead([CloseBrace], Lexemes(t.rest))
    case COMMENT => Lexemes(t.rest)
    case _ => Scan([], false)
  }

  /** The lexemes of a text that starts with `xs`, given those of the rest. */
  function Ahead(xs: seq<Lexeme>, r: Scan): Scan {
    Scan(xs + r.lexemes, r.complete)
  }

  lemma {:induction false} LexemesAreWords(s: string)
    ensures forall x :: x in Lexemes(s).lexemes && x.Word? ==> IsWord(x.text)
    decreases |s|
  {
    var t := Lex(INITIAL_WHITESPACE, "", s);
    LexGivesWords(INITIAL_WHITESPACE, "", s);
    if !t.kind.EOF? && !t.kind.ERROR? && !t.kind.START? {
      LexemesAreWords(t.rest);
    }
  }
}
