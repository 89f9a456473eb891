/** Backslash escapes are replaced by placeholders before the text is taken apart, and restored where the text is needed
    as it was written. */
module MarkdownEscapes {
  import opened Wrappers
  import opened Streams
  import opened Utils

  const ESCAPED_CHARACTERS := "\\`*_{}[]()#+-.!>"

  const MARK := '\U{0001}'

  // ----- Placeholders -----

  /** The placeholder of the item with a number, or with a number sign and a number for an escaped character. */
  function Placeholder(ref: string, kind: string): string {
    [MARK, '@'] + (ref + ("@" + kind + [MARK]))
  }

  /** The number of digits at the start. */
  function DigitCount(s: string): (k: nat)
    ensures k <= |s| && AllDigits(s[..k]) && (k < |s| ==> !IsDigit(s[k]))
  {
    if s == "" || !IsDigit(s[0]) then 0
    else
      var k := DigitCount(s[1..]) + 1;
      assert forall i :: 1 <= i < k ==> s[i] == s[1..][..k-1][i-1];
      k
  }

  function RefLength(s: string): (k: nat)
    ensures k <= |s|
  {
    if s != "" && s[0] == '#' then 1 + DigitCount(s[1..]) else DigitCount(s)
  }

  /** The match of the placeholder pattern at the start: the reference in it and where the match ends. */
  function MatchAt(s: string): (m: Option<(string, nat)>)
    ensures m.Some? ==> 0 < m.value.1 <= |s|
  {
    if !([MARK, '@'] <= s) then None
    else
      var q := 2 + RefLength(s[2..]);
      if q + 2 > |s| || s[q] != '@' then None
      else
        var e := q + 2 + IndexOf(s[q+2..], MARK);
        if e == |s| then None else Some((s[2..q], e + 1))
  }

  /** What takes the place of a placeholder; the character after the last of the table is the NUL character. `None`
      where a number is missing or out of range. */
  function Restored(ref: string, replacements: seq<string>): Option<string> {
    if ref == "" then Some("")
    else if ref[0] == '#' then
      if |ref| == 1 || !AllDigits(ref[1..]) || Number(ref[1..]) > |ESCAPED_CHARACTERS| then None
      else
        var n := Number(ref[1..]);
        Some(['\\', if n == |ESCAPED_CHARACTERS| then '\0' else ESCAPED_CHARACTERS[n]])
    else if !AllDigits(ref) || Number(ref) >= |replacements| then None
    else Some(replacements[Number(ref)])
  }

  // ----- The two passes -----

  /** The place of an escaped character in the table. */
  function EscapedIndex(c: char): Option<nat> {
    var e := IndexOf(ESCAPED_CHARACTERS, c);
    if e < |ESCAPED_CHARACTERS| then Some(e) else None
  }

  /** What takes the place of a backslash and the character after it. */
  function EscapedPair(c: char): string {
    match EscapedIndex(c)
    case Some(e) => Placeholder("#" + Decimal(e), "escaped")
    case None => ['\\', c]
  }

  function Escape(s: string): string {
    if s == "" then ""
    else if s[0] != '\\' then [s[0]] + Escape(s[1..])
    else if |s| == 1 then s
    else EscapedPair(s[1]) + Escape(s[2..])
  }

  function Append(a: string, b: Option<string>): Option<string> {
    if b.Some? then Some(a + b.value) else None
  }

  function Restore(s: string, replacements: seq<string>): Option<string>
    decreases |s|
  {
    if s == "" then Some("")
    else
      match MatchAt(s)
      case None => Append([s[0]], Restore(s[1..], replacements))
      case Some((ref, end)) =>
        match Restored(ref, replacements)
        case None => None
        case Some(text) => Append(text, Restore(s[end..], replacements))
  }

  // ----- Restoring undoes escaping -----

  /** A text in which code spans and tags have been replaced: characters, and placeholders of replaced items. */
  datatype Piece = Plain(c: char) | Item(n: nat, kind: string)

  predicate PieceOk(p: Piece, count: nat) {
    match p
    case Plain(c) => c != MARK
    case Item(n, kind) => n < count && kind != "" && MARK !in kind && '\\' !in kind
  }

  function PieceText(p: Piece): string {
    match p
    case Plain(c) => [c]
    case Item(n, kind) => Placeholder(Decimal(n), kind)
  }

  function PieceOriginal(p: Piece, replacements: seq<string>): string
    requires PieceOk(p, |replacements|)
  {
    match p
    case Plain(c) => [c]
    case Item(n, _) => replacements[n]
  }

  function Text(pieces: seq<Piece>): string {
    if pieces == [] then "" else PieceText(pieces[0]) + Text(pieces[1..])
  }

  /** The text with the originals of its items. */
  function Original(pieces: seq<Piece>, replacements: seq<string>): string
    requires WellFormed(pieces, replacements)
  {
    if pieces == [] then "" else PieceOriginal(pieces[0], replacements) + Original(pieces[1..], replacements)
  }

  predicate WellFormed(pieces: seq<Piece>, replacements: seq<string>) {
    forall i :: 0 <= i < |pieces| ==> PieceOk(pieces[i], |replacements|)
  }

  lemma {:induction false} EscapeCopies(plain: string, t: string)
    requires '\\' !in plain
    ensures Escape(plain + t) == plain + Escape(t)
  {
    if plain == "" {
      assert plain + t == t;
    } else {
      assert (plain + t)[1..] == plain[1..] + t;
      EscapeCopies(plain[1..], t);
    }
  }

  lemma NoBackslash(n: nat, kind: string)
    requires '\\' !in kind
    ensures '\\' !in Placeholder(Decimal(n), kind)
  {
  }

  lemma {:induction false} DigitsCounted(digits: string, t: string)
    requires AllDigits(digits) && t != "" && !IsDigit(t[0])
    ensures DigitCount(digits + t) == |digits|
  {
    if digits == "" {
      assert digits + t == t;
    } else {
      assert (digits + t)[1..] == digits[1..] + t;
      DigitsCounted(digits[1..], t);
    }
  }

  /** A reference: digits, or a number sign and digits. */
  predicate IsRef(ref: string) {
    AllDigits(ref) || (ref[0] == '#' && AllDigits(ref[1..]))
  }

  lemma RefMeasured(ref: string, t: string)
    requires IsRef(ref) && t != "" && t[0] == '@'
    ensures RefLength(ref + t) == |ref|
  {
    hide DigitCount, AllDigits;
    if ref != "" && ref[0] == '#' {
      assert AllDigits(ref[1..]) by { HashIsNoDigit(ref); }
      DigitsCounted(ref[1..], t);
      assert (ref + t)[1..] == ref[1..] + t;
    } else {
      DigitsCounted(ref, t);
      assert (ref + t)[0] == if ref != "" then ref[0] else t[0];
    }
  }

  lemma HashIsNoDigit(ref: string)
    requires ref != "" && ref[0] == '#'
    ensures !AllDigits(ref)
  {
    assert !IsDigit(ref[0]);
  }

  lemma DecimalIsRef(n: nat)
    ensures IsRef(Decimal(n)) && IsRef("#" + Decimal(n))
  {
    NumberOfDecimal(n);
    assert ("#" + Decimal(n))[1..] == Decimal(n);
  }

  lemma MatchShape(ref: string, kind: string, t: string)
    requires RefLength(ref + ("@" + kind + [MARK] + t)) == |ref| && kind != "" && MARK !in kind[1..]
    ensures MatchAt([MARK, '@'] + (ref + ("@" + kind + [MARK] + t))) == Some((ref, |ref| + |kind| + 4))
  {
    hide RefLength, IndexOf;
    var rest := "@" + kind + [MARK] + t;
    var s := [MARK, '@'] + (ref + rest);
    var q := 2 + |ref|;
    assert s[2..] == ref + rest && s[2..q] == ref && s[q] == '@';
    var tail := kind[1..] + [MARK] + t;
    assert s[q+2..] == rest[2..] == tail;
    assert tail[..|kind|-1] == kind[1..];
    FirstIndex(tail, MARK, |kind| - 1);
  }

  lemma PlaceholderThen(ref: string, kind: string, t: string)
    ensures Placeholder(ref, kind) + t == [MARK, '@'] + (ref + ("@" + kind + [MARK] + t))
    ensures |Placeholder(ref, kind)| == |ref| + |kind| + 4
  {
  }

  /** A placeholder with any reference is recognized, whatever comes after it. */
  lemma MatchesRef(ref: string, kind: string, t: string)
    requires IsRef(ref) && kind != "" && MARK !in kind[1..]
    ensures MatchAt(Placeholder(ref, kind) + t) == Some((ref, |Placeholder(ref, kind)|))
  {
    hide IsRef, RefLength, MatchAt, Placeholder;
    RefMeasured(ref, "@" + kind + [MARK] + t);
    MatchShape(ref, kind, t);
    PlaceholderThen(ref, kind, t);
  }

  lemma MatchesPlaceholder(n: nat, escaped: bool, kind: string, t: string)
    requires kind != "" && MARK !in kind
    ensures var ref := (if escaped then "#" else "") + Decimal(n);
            MatchAt(Placeholder(ref, kind) + t) == Some((ref, |Placeholder(ref, kind)|))
  {
    DecimalIsRef(n);
    hide IsRef, Decimal, MatchAt, Placeholder;
    assert "" + Decimal(n) == Decimal(n);
    MatchesRef((if escaped then "#" else "") + Decimal(n), kind, t);
  }

  lemma TableIndex(c: char, replacements: seq<string>)
    requires EscapedIndex(c).Some?
    ensures Restored("#" + Decimal(EscapedIndex(c).value), replacements) == Some(['\\', c])
  {
    var e := IndexOf(ESCAPED_CHARACTERS, c);
    NumberOfDecimal(e);
    hide IndexOf, Decimal;
    assert ("#" + Decimal(e))[1..] == Decimal(e);
  }

  /** What the references are replaced by: a number by that item, and a number sign and a number by a backslash and that
      character of the table; the number after the last one gives NUL, and larger ones give nothing. */
  lemma ReferencesRestored(n: nat, replacements: seq<string>)
    ensures Restored(Decimal(n), replacements) == if n < |replacements| then Some(replacements[n]) else None
    ensures Restored("#" + Decimal(n), replacements) ==
            if n < 16 then Some(['\\', ESCAPED_CHARACTERS[n]]) else if n == 16 then Some("\\\0") else None
  {
    NumberOfDecimal(n);
    hide Decimal, Number;
    assert IsDigit(Decimal(n)[0]) && |ESCAPED_CHARACTERS| == 16;
    assert ("#" + Decimal(n))[1..] == Decimal(n);
  }

  lemma AppendTwice(a: string, b: string, x: Option<string>)
    ensures Append(a, Append(b, x)) == Append(a + b, x) && Append("", x) == x
  {
    if x.Some? { assert a + (b + x.value) == a + b + x.value && "" + x.value == x.value; }
  }

  lemma EscapeSkipsItem(n: nat, kind: string, t: string)
    requires '\\' !in kind
    ensures Escape(Placeholder(Decimal(n), kind) + t) == Placeholder(Decimal(n), kind) + Escape(t)
  {
    NoBackslash(n, kind);
    EscapeCopies(Placeholder(Decimal(n), kind), t);
  }

  lemma RestoreMatch(s: string, ref: string, replacements: seq<string>, p: string, t: string)
    requires s == p + t && MatchAt(s) == Some((ref, |p|))
    ensures Restore(s, replacements) ==
            if Restored(ref, replacements).None? then None
            else Append(Restored(ref, replacements).value, Restore(t, replacements))
  {
  }

  lemma RestorePlain(c: char, t: string, replacements: seq<string>)
    requires c != MARK
    ensures Restore([c] + t, replacements) == Append([c], Restore(t, replacements))
  {
    assert ([c] + t)[1..] == t;
    assert !([MARK, '@'] <= [c] + t) by { assert ([c] + t)[0] == c; }
  }

  lemma EscapeUnfolds(c: char, t: string)
    ensures Escape(['\\', c] + t) == EscapedPair(c) + Escape(t)
  {
    hide EscapedPair;
    assert (['\\', c] + t)[2..] == t;
  }

  lemma RestorePair(c: char, t: string, replacements: seq<string>)
    requires EscapedIndex(c).Some?
    ensures Restore(EscapedPair(c) + t, replacements) == Append(['\\', c], Restore(t, replacements))
  {
    hide Restore, Restored, MatchAt, Placeholder, Decimal, EscapedIndex;
    var e := EscapedIndex(c).value;
    TableIndex(c, replacements);
    MatchesPlaceholder(e, true, "escaped", t);
    RestoreMatch(EscapedPair(c) + t, "#" + Decimal(e), replacements, EscapedPair(c), t);
  }

  lemma PlainPair(c: char, d: char, t: string, replacements: seq<string>)
    requires c != MARK && d != MARK
    ensures Restore([c, d] + t, replacements) == Append([c, d], Restore(t, replacements))
  {
    RestorePlain(c, [d] + t, replacements);
    RestorePlain(d, t, replacements);
    hide Restore;
    assert [c, d] + t == [c] + ([d] + t);
    if Restore(t, replacements).Some? {
      assert [c, d] + Restore(t, replacements).value == [c] + ([d] + Restore(t, replacements).value);
    }
  }

  /** A backslash and the character after it are escaped, if they are, and restored together. */
  lemma EscapePair(c: char, t: string, replacements: seq<string>)
    requires c != MARK
    ensures Restore(Escape(['\\', c] + t), replacements) == Append(['\\', c], Restore(Escape(t), replacements))
  {
    assert '\\' != MARK;
    hide *;
    EscapeUnfolds(c, t);
    if EscapedIndex(c).Some? {
      RestorePair(c, Escape(t), replacements);
    } else {
      UselessPair(c);
      PlainPair('\\', c, Escape(t), replacements);
    }
  }

  lemma UselessPair(c: char)
    requires EscapedIndex(c).None?
    ensures EscapedPair(c) == ['\\', c]
  {
  }

  lemma NotInTable(c: char)
    requires c !in ESCAPED_CHARACTERS
    ensures EscapedIndex(c) == None
  {
    FirstIndex(ESCAPED_CHARACTERS, c, |ESCAPED_CHARACTERS|);
  }

  lemma EscapeOne(c: char, t: string)
    requires c != '\\'
    ensures Escape([c] + t) == [c] + Escape(t)
  {
  }

  lemma EscapeLast()
    ensures Escape(['\\']) == ['\\'] && Escape("") == ""
  {
  }

  /** The first character is not escaped together with the one after it. */
  predicate Alone(s: string) {
    s != "" && (s[0] != '\\' || |s| == 1 || EscapedIndex(s[1]).None?)
  }

  lemma TwoInFront(b: char, c: char, s: string)
    ensures [b] + ([c] + s) == [b, c] + s
  {
  }

  lemma EscapeUseless(d: char, more: string)
    requires EscapedIndex(d).None?
    ensures Escape(['\\', d] + more) == ['\\'] + Escape([d] + more)
  {
    assert d != '\\';
    UselessPair(d);
    hide *;
    EscapeUnfolds(d, more);
    EscapeOne(d, more);
    TwoInFront('\\', d, Escape(more));
  }

  lemma EscapeAlone(s: string)
    requires Alone(s)
    ensures Escape(s) == [s[0]] + Escape(s[1..])
  {
    hide Escape, EscapedIndex;
    assert s == [s[0]] + s[1..];
    if s[0] != '\\' {
      EscapeOne(s[0], s[1..]);
      assert Escape(s) == Escape([s[0]] + s[1..]);
    } else if |s| == 1 {
      EscapeLast();
      assert s == ['\\'] && s[1..] == "";
    } else {
      EscapeUseless(s[1], s[2..]);
      assert s == ['\\', s[1]] + s[2..] && s[1..] == [s[1]] + s[2..];
    }
  }

  lemma EscapeTogether(s: string)
    requires s != "" && !Alone(s)
    ensures 2 <= |s| && s[0] == '\\' && EscapedIndex(s[1]).Some? && Escape(s) == EscapedPair(s[1]) + Escape(s[2..])
  {
    hide Escape, EscapedIndex, EscapedPair;
    EscapeUnfolds(s[1], s[2..]);
    assert s == ['\\', s[1]] + s[2..];
  }

  /** A backslash, a backquote, an asterisk, an underscore, braces, brackets, parentheses, a number sign, a plus, a minus,
      a full stop, an exclamation mark and a greater-than sign. */
  predicate Escapable(c: char) {
    || c == '\\' || c == '`' || c == '*' || c == '_' || c == '{' || c == '}' || c == '[' || c == ']' || c == '('
    || c == ')' || c == '#' || c == '+' || c == '-' || c == '.' || c == '!' || c == '>'
  }

  lemma TableHolds(c: char)
    ensures EscapedIndex(c).Some? <==> Escapable(c)
  {
    if !Escapable(c) { NotInTable(c); }
    var t := ESCAPED_CHARACTERS;
    assert |t| == 16 && t[0] == '\\' && t[1] == '`' && t[2] == '*' && t[3] == '_' && t[4] == '{' && t[5] == '}';
    assert t[6] == '[' && t[7] == ']' && t[8] == '(' && t[9] == ')' && t[10] == '#' && t[11] == '+' && t[12] == '-';
    assert t[13] == '.' && t[14] == '!' && t[15] == '>';
    assert Escapable(c) ==> c in t;
  }

  /** A backslash and one of these characters become a placeholder; another character leaves the backslash where it is,
      and is not looked at again. */
  lemma PairEscaped(c: char, t: string)
    ensures if Escapable(c) then
              exists n: nat :: n < 16 && Escape(['\\', c] + t) == "\U{0001}@#" + Decimal(n) + "@escaped\U{0001}" + Escape(t)
            else Escape(['\\', c] + t) == ['\\', c] + Escape(t)
  {
    TableHolds(c);
    EscapeUnfolds(c, t);
    if Escapable(c) {
      var n := EscapedIndex(c).value;
      PlaceholderText(n);
      assert EscapedPair(c) == "\U{0001}@#" + Decimal(n) + "@escaped\U{0001}";
    } else {
      UselessPair(c);
    }
  }

  lemma PlaceholderText(n: nat)
    ensures Placeholder("#" + Decimal(n), "escaped") == "\U{0001}@#" + Decimal(n) + "@escaped\U{0001}"
  {
    hide Decimal;
  }

  /** No backslash stands before a character that it would escape. */
  predicate NoEscapes(s: string) {
    forall i :: 0 <= i && i + 1 < |s| && s[i] == '\\' ==> !Escapable(s[i+1])
  }

  lemma NoEscapesTogether(a: string, b: string)
    requires NoEscapes(a) && NoEscapes(b) && a != "" && a[|a|-1] != '\\'
    ensures NoEscapes(a + b)
  {
  }

  lemma PlaceholderHasNone(n: nat)
    ensures var p := Placeholder("#" + Decimal(n), "escaped"); NoEscapes(p) && p != "" && p[|p|-1] != '\\'
  {
    NumberOfDecimal(n);
    NoBackslash(n, "escaped");
    var p := Placeholder("#" + Decimal(n), "escaped");
    assert p[|p|-1] == MARK;
    assert p == [MARK, '@', '#'] + Decimal(n) + ("@" + "escaped" + [MARK]);
    hide Decimal;
    assert forall i :: 0 <= i < |Decimal(n)| ==> IsDigit(Decimal(n)[i]);
  }

  /** Escaping leaves no escape behind. */
  lemma {:induction false} EscapedHasNone(s: string)
    ensures NoEscapes(Escape(s))
    decreases |s|
  {
    hide EscapedIndex, Decimal, Placeholder;
    if 2 <= |s| && s[0] == '\\' {
      var c := s[1];
      EscapedHasNone(s[2..]);
      TableHolds(c);
      if EscapedIndex(c).Some? { PlaceholderHasNone(EscapedIndex(c).value); }
      NoEscapesTogether(EscapedPair(c), Escape(s[2..]));
    } else if s != "" && s[0] != '\\' {
      EscapedHasNone(s[1..]);
      NoEscapesTogether([s[0]], Escape(s[1..]));
    }
  }

  lemma MarkIsNotEscaped()
    ensures EscapedIndex(MARK) == None && MARK != '\\'
  {
    NotInTable(MARK);
  }

  lemma EscapeLone(t: string, replacements: seq<string>)
    requires t == "" || t[0] == MARK
    ensures Restore(Escape(['\\'] + t), replacements) == Append(['\\'], Restore(Escape(t), replacements))
  {
    MarkIsNotEscaped();
    var s := ['\\'] + t;
    hide Escape, EscapedIndex, Restore, Append;
    assert s[0] == '\\' && s[1..] == t && (t != "" ==> s[1] == MARK);
    assert Alone(s);
    hide *;
    EscapeAlone(s);
    RestorePlain('\\', Escape(t), replacements);
  }

  lemma EscapePlain(c: char, t: string, replacements: seq<string>)
    requires c != MARK && c != '\\'
    ensures Restore(Escape([c] + t), replacements) == Append([c], Restore(Escape(t), replacements))
  {
    EscapeOne(c, t);
    RestorePlain(c, Escape(t), replacements);
  }

  lemma EscapeItem(n: nat, kind: string, t: string, replacements: seq<string>)
    requires n < |replacements| && kind != "" && MARK !in kind && '\\' !in kind
    ensures Restore(Escape(Placeholder(Decimal(n), kind) + t), replacements) ==
            Append(replacements[n], Restore(Escape(t), replacements))
  {
    NumberOfDecimal(n);
    hide Restore, Escape, MatchAt, Placeholder, Decimal;
    var p := Placeholder(Decimal(n), kind);
    EscapeSkipsItem(n, kind, t);
    MatchesPlaceholder(n, false, kind, Escape(t));
    assert "" + Decimal(n) == Decimal(n);
    assert IsDigit(Decimal(n)[0]);
    RestoreMatch(p + Escape(t), Decimal(n), replacements, p, Escape(t));
  }

  /** The pieces are well formed and restored to their originals. */
  ghost predicate Survives(pieces: seq<Piece>, replacements: seq<string>) {
    WellFormed(pieces, replacements) && Restore(Escape(Text(pieces)), replacements) == Some(Original(pieces, replacements))
  }

  lemma OnePieceMore(p: Piece, rest: seq<Piece>, replacements: seq<string>)
    requires PieceOk(p, |replacements|) && WellFormed(rest, replacements)
    ensures var pieces := [p] + rest;
            && WellFormed(pieces, replacements)
            && Text(pieces) == PieceText(p) + Text(rest)
            && Original(pieces, replacements) == PieceOriginal(p, replacements) + Original(rest, replacements)
  {
    hide PieceOk, PieceText, PieceOriginal;
    assert ([p] + rest)[1..] == rest;
  }

  lemma ItemSurvives(n: nat, kind: string, rest: seq<Piece>, replacements: seq<string>)
    requires PieceOk(Item(n, kind), |replacements|) && Survives(rest, replacements)
    ensures Survives([Item(n, kind)] + rest, replacements)
  {
    hide Restore, Escape, Text, Original, WellFormed, Placeholder, Decimal;
    OnePieceMore(Item(n, kind), rest, replacements);
    EscapeItem(n, kind, Text(rest), replacements);
  }

  lemma PlainSurvives(c: char, rest: seq<Piece>, replacements: seq<string>)
    requires c != MARK && (c != '\\' || rest == [] || rest[0].Item?) && Survives(rest, replacements)
    ensures Survives([Plain(c)] + rest, replacements)
  {
    ItemStarts(rest);
    hide Restore, Escape, Text, Original, WellFormed;
    OnePieceMore(Plain(c), rest, replacements);
    if c == '\\' { EscapeLone(Text(rest), replacements); } else { EscapePlain(c, Text(rest), replacements); }
  }

  lemma ItemStarts(pieces: seq<Piece>)
    ensures pieces == [] || pieces[0].Item? ==> Text(pieces) == "" || Text(pieces)[0] == MARK
  {
  }

  lemma PairSurvives(c: char, rest: seq<Piece>, replacements: seq<string>)
    requires c != MARK && Survives(rest, replacements)
    ensures Survives([Plain('\\')] + ([Plain(c)] + rest), replacements)
  {
    assert '\\' != MARK && PieceText(Plain(c)) == [c] && PieceText(Plain('\\')) == ['\\'];
    hide Restore, Escape, Text, Original, WellFormed, PieceText;
    OnePieceMore(Plain(c), rest, replacements);
    OnePieceMore(Plain('\\'), [Plain(c)] + rest, replacements);
    EscapePair(c, Text(rest), replacements);
    TwoInFront('\\', c, Text(rest));
    TwoInFront('\\', c, Original(rest, replacements));
  }

  lemma {:induction false} AllSurvive(pieces: seq<Piece>, replacements: seq<string>)
    requires WellFormed(pieces, replacements)
    ensures Survives(pieces, replacements)
    decreases |pieces|
  {
    if pieces == [] {
      EscapeLast();
      RestoredNothing(replacements);
    } else {
      var p, rest := pieces[0], pieces[1..];
      assert PieceOk(p, |replacements|) && WellFormed(rest, replacements) && pieces == [p] + rest;
      if p.Plain? && p.c == '\\' && rest != [] && rest[0].Plain? {
        var q, more := rest[0], rest[1..];
        assert PieceOk(q, |replacements|) && WellFormed(more, replacements) && rest == [q] + more;
        hide Survives, WellFormed;
        AllSurvive(more, replacements);
        PairSurvives(q.c, more, replacements);
      } else {
        hide Survives, WellFormed;
        AllSurvive(rest, replacements);
        if p.Item? { ItemSurvives(p.n, p.kind, rest, replacements); } else { PlainSurvives(p.c, rest, replacements); }
      }
    }
  }

  /** Escaping and then restoring gives every character and every item back as it was written. */
  lemma RestoreEscape(pieces: seq<Piece>, replacements: seq<string>)
    requires WellFormed(pieces, replacements)
    ensures Restore(Escape(Text(pieces)), replacements) == Some(Original(pieces, replacements))
  {
    AllSurvive(pieces, replacements);
  }

  function Characters(s: string): (pieces: seq<Piece>) {
    if s == "" then [] else [Plain(s[0])] + Characters(s[1..])
  }

  /** Plain text without the mark is restored as it was, with doubled, useless and trailing backslashes. */
  lemma PlainRestored(s: string, replacements: seq<string>)
    requires MARK !in s
    ensures Restore(Escape(s), replacements) == Some(s)
  {
    CharactersOf(s, replacements);
    RestoreEscape(Characters(s), replacements);
  }

  lemma {:induction false} CharactersOf(s: string, replacements: seq<string>)
    requires MARK !in s
    ensures var pieces := Characters(s);
            WellFormed(pieces, replacements) && Text(pieces) == s && Original(pieces, replacements) == s
  {
    if s != "" {
      CharactersOf(s[1..], replacements);
      assert Characters(s)[1..] == Characters(s[1..]);
    }
  }

  lemma RestoredNothing(replacements: seq<string>)
    ensures Restored("", replacements) == Some("") && Restore("", replacements) == Some("")
  {
  }

  /** With the mark in it, a text can be mistaken for a placeholder: one without a reference is gone when it is
      restored. */
  lemma MarkCanBeLost(kind: string, replacements: seq<string>)
    requires kind != "" && MARK !in kind && '\\' !in kind
    ensures var s := Placeholder("", kind); Escape(s) == s && Restore(s, replacements) == Some("")
  {
    var s := Placeholder("", kind);
    EscapeLast();
    EscapeCopies(s, "");
    PlaceholderThen("", kind, "");
    RestoredNothing(replacements);
    hide Escape, Restore, Restored, MatchAt, Placeholder;
    assert s + "" == s;
    MatchesRef("", kind, "");
    RestoreMatch(s, "", replacements, s, "");
    AppendTwice("", "", Some(""));
  }

  // ----- The loops -----

  lemma EscapeNext(s: string, prev: nat, i: nat)
    requires prev <= i <= |s| && '\\' !in s[prev..i]
    ensures Escape(s[prev..]) == s[prev..i] + Escape(s[i..])
  {
    assert s[prev..] == s[prev..i] + s[i..];
    EscapeCopies(s[prev..i], s[i..]);
  }

  method ProcessEscapedCharacters(src: string) returns (tgt: string)
    ensures tgt == Escape(src)
  {
    hide *;
    tgt := "";
    var prev := 0;
    assert src[0..] == src;
    while true
      invariant prev <= |src| && tgt + Escape(src[prev..]) == Escape(src)
      decreases |src| - prev
    {
      var i := prev + IndexOf(src[prev..], '\\');
      assert src[prev..][..i-prev] == src[prev..i];
      EscapeNext(src, prev, i);
      Appended(tgt, src[prev..i], Escape(src[i..]));
      tgt := tgt + src[prev..i];
      if i == |src| {
        EscapeEnd(src);
        break;
      }
      EscapeBackslash(src, i);
      i := i + 1;
      if i == |src| {
        tgt := tgt + "\\";
        break;
      }
      var e := EscapedIndex(src[i]);
      PairWritten(src[i]);
      Appended(tgt, EscapedPair(src[i]), Escape(src[i+1..]));
      if e.Some? {
        tgt := tgt + Placeholder("#" + Decimal(e.value), "escaped");
      } else {
        tgt := tgt + "\\" + [src[i]];
      }
      prev := i + 1;
    }
  }

  lemma Appended(a: string, b: string, c: string)
    ensures a + (b + c) == a + b + c
  {
  }

  lemma PairWritten(c: char)
    ensures EscapedPair(c) == match EscapedIndex(c)
                              case Some(e) => Placeholder("#" + Decimal(e), "escaped")
                              case None => "\\" + [c]
  {
  }

  lemma EscapeEnd(s: string)
    ensures Escape(s[|s|..]) == ""
  {
  }

  lemma EscapeBackslash(s: string, i: nat)
    requires i < |s| && s[i] == '\\'
    ensures i + 1 == |s| ==> Escape(s[i..]) == "\\"
    ensures i + 1 < |s| ==> Escape(s[i..]) == EscapedPair(s[i+1]) + Escape(s[i+2..])
  {
    if i + 1 < |s| {
      EscapeUnfolds(s[i+1], s[i+2..]);
      assert s[i..] == ['\\', s[i+1]] + s[i+2..];
    } else {
      assert s[i..] == ['\\'];
    }
  }

  /** The first placeholder at or after a position. */
  method Search(s: string, prev: nat) returns (found: bool, at: nat, ref: string, end: nat)
    requires prev <= |s|
    ensures prev <= at <= |s| && (found ==> at < end <= |s| && MatchAt(s[at..]) == Some((ref, end - at)))
    ensures !found ==> at == |s|
    ensures forall k :: prev <= k < at ==> MatchAt(s[k..]) == None
  {
    hide MatchAt;
    at, found, ref, end := prev, false, "", 0;
    while at < |s|
      invariant prev <= at <= |s| && !found
      invariant forall k :: prev <= k < at ==> MatchAt(s[k..]) == None
    {
      var m := MatchAt(s[at..]);
      if m.Some? { return true, at, m.value.0, at + m.value.1; }
      at := at + 1;
    }
  }

  lemma RestoreChar(s: string, k: nat, replacements: seq<string>)
    requires k < |s| && MatchAt(s[k..]) == None
    ensures Restore(s[k..], replacements) == Append([s[k]], Restore(s[k+1..], replacements))
  {
  }

  lemma {:induction false} RestoreCopies(s: string, prev: nat, at: nat, replacements: seq<string>)
    requires prev <= at <= |s| && forall k :: prev <= k < at ==> MatchAt(s[k..]) == None
    ensures Restore(s[prev..], replacements) == Append(s[prev..at], Restore(s[at..], replacements))
    decreases at - prev
  {
    hide MatchAt, Restore, Append;
    var x := Restore(s[at..], replacements);
    if prev < at {
      RestoreCopies(s, prev + 1, at, replacements);
      RestoreChar(s, prev, replacements);
      AppendTwice([s[prev]], s[prev+1..at], x);
      assert s[prev..at] == [s[prev]] + s[prev+1..at];
    } else {
      AppendTwice("", "", x);
      assert s[prev..at] == "";
    }
  }

  lemma RestoreNext(s: string, at: nat, ref: string, end: nat, replacements: seq<string>)
    requires at < end <= |s| && MatchAt(s[at..]) == Some((ref, end - at))
    ensures Restore(s[at..], replacements) ==
            if Restored(ref, replacements).None? then None
            else Append(Restored(ref, replacements).value, Restore(s[end..], replacements))
  {
    assert s[at..] == s[at..end] + s[end..];
    RestoreMatch(s[at..], ref, replacements, s[at..end], s[end..]);
  }

  method RestoreProcessedItems(src: string, replacements: seq<string>) returns (r: Option<string>)
    ensures r == Restore(src, replacements)
  {
    hide Restore, Restored, MatchAt, Append;
    var out, prev := "", 0;
    assert src[0..] == src;
    AppendTwice("", "", Restore(src, replacements));
    while true
      invariant prev <= |src| && Append(out, Restore(src[prev..], replacements)) == Restore(src, replacements)
      decreases |src| - prev
    {
      var found, at, ref, end := Search(src, prev);
      RestoreCopies(src, prev, at, replacements);
      AppendTwice(out, src[prev..at], Restore(src[at..], replacements));
      out := out + src[prev..at];
      if !found {
        RestoreEnd(src, out, replacements);
        return Some(out);
      }
      RestoreNext(src, at, ref, end, replacements);
      var text := Restored(ref, replacements);
      AppendNone(out);
      if text == None { return None; }
      AppendTwice(out, text.value, Restore(src[end..], replacements));
      out, prev := out + text.value, end;
    }
  }

  lemma RestoreEnd(s: string, out: string, replacements: seq<string>)
    ensures Append(out, Restore(s[|s|..], replacements)) == Some(out)
  {
    assert s[|s|..] == "" && out + "" == out;
  }

  lemma AppendNone(out: string)
    ensures Append(out, None) == None
  {
  }
}
