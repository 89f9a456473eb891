/** Reading the lines of a document: four newline conventions, and tabs that become spaces. */
module MarkdownLines {
  import opened Streams

  const SPACES_PER_INITIAL_TAB := 4

  // ----- Tabs -----

  function Spaces(n: nat): string {
    if n == 0 then "" else " " + Spaces(n - 1)
  }

  /** Only white space so far. */
  predicate IsInitial(s: string) {
    forall i :: 0 <= i < |s| ==> s[i] == ' ' || s[i] == '\t'
  }

  /** The tab width in force after `s`. */
  function TabWidth(s: string, width: nat): (w: nat)
    ensures 0 < width ==> 0 < w
  {
    if IsInitial(s) then SPACES_PER_INITIAL_TAB else width
  }

  /** The spaces from column `n` to the next tab stop. */
  function Gap(n: nat, w: nat): (g: nat)
    requires 0 < w
    ensures 1 <= g <= w
  {
    w - n % w
  }

  /** The line with its tabs expanded. */
  function Expand(s: string, width: nat): string
    requires 0 < width
  {
    if s == "" then ""
    else
      var before, c := s[..|s|-1], s[|s|-1];
      var line := Expand(before, width);
      if c == '\t' then line + Spaces(Gap(|line|, TabWidth(before, width))) else line + [c]
  }

  lemma ExpandOneMore(s: string, c: char, width: nat)
    requires 0 < width
    ensures var line := Expand(s, width); var w := TabWidth(s, width);
            Expand(s + [c], width) == if c == '\t' then line + Spaces(Gap(|line|, w)) else line + [c]
  {
  }

  lemma InitialOneMore(s: string, c: char)
    ensures IsInitial(s + [c]) <==> IsInitial(s) && (c == ' ' || c == '\t')
  {
    if IsInitial(s + [c]) {
      assert (s + [c])[|s|] == c && forall i :: 0 <= i < |s| ==> (s + [c])[i] == s[i];
    }
  }

  lemma {:induction false} SpacesLength(n: nat)
    ensures |Spaces(n)| == n && forall c :: c in Spaces(n) ==> c == ' '
  {
    if n > 0 { SpacesLength(n - 1); }
  }

  lemma Distributes(w: int, a: int, b: int)
    ensures w * (a - b) == w * a - w * b
  {
  }

  lemma AtLeast(w: nat, d: int)
    ensures 1 <= d ==> w <= w * d
    ensures d <= -1 ==> w * d + w <= 0
  {
  }

  lemma MultipleOf(w: nat, k: int)
    requires 0 < w
    ensures w * k % w == 0
  {
    var q := w * k / w;
    Distributes(w, k, q);
    AtLeast(w, k - q);
  }

  lemma NextStop(n: nat, w: nat)
    requires 0 < w
    ensures (n + Gap(n, w)) % w == 0
  {
    var q := n / w;
    Distributes(w, q + 1, 1);
    assert n + Gap(n, w) == w * (q + 1);
    MultipleOf(w, q + 1);
  }

  /** A tab adds at least one space and at most a tab width, and ends on a multiple of the width in force. */
  lemma TabStops(s: string, width: nat)
    requires 0 < width
    ensures var n := |Expand(s + "\t", width)| - |Expand(s, width)|;
            var w := if forall i :: 0 <= i < |s| ==> s[i] in " \t" then 4 else width;
            && 1 <= n <= w && |Expand(s + "\t", width)| % w == 0
            && Expand(s + "\t", width) == Expand(s, width) + Spaces(n)
  {
    assert IsInitial(s) <==> forall i :: 0 <= i < |s| ==> s[i] in " \t";
    assert TabWidth(s, width) == if IsInitial(s) then 4 else width;
    hide Spaces, Gap, Expand, TabWidth, IsInitial;
    ExpandOneMore(s, '\t', width);
    SpacesLength(Gap(|Expand(s, width)|, TabWidth(s, width)));
    NextStop(|Expand(s, width)|, TabWidth(s, width));
  }

  /** A line without tabs stays as it is. */
  lemma {:induction false} ExpandNothing(s: string, width: nat)
    requires 0 < width && '\t' !in s
    ensures Expand(s, width) == s
  {
    hide Spaces, Gap, TabWidth;
    if s != "" { ExpandNothing(s[..|s|-1], width); }
  }

  /** A tab at the start of a line indents it by four spaces, whatever the tab width. */
  lemma {:induction false} TabIndents(s: string, width: nat)
    requires 0 < width && '\t' !in s
    ensures Expand("\t" + s, width) == "    " + s
    decreases |s|
  {
    if s == "" {
      FourSpaces();
      assert "\t" + s == "\t" && "\t"[..0] == "" && Expand("", width) == "";
      assert "" + "    " == "    " + s;
    } else {
      var n := |s| - 1;
      TabIndents(s[..n], width);
      hide Spaces, Gap, TabWidth;
      assert ("\t" + s)[..|s|] == "\t" + s[..n] && ("\t" + s)[|s|] == s[n];
    }
  }

  lemma FourSpaces()
    ensures Spaces(4) == "    "
  {
    assert Spaces(2) == " " + Spaces(1) == "  ";
  }

  /** The text without its white space. */
  function Ink(s: string): string {
    if s == "" then ""
    else
      var c := s[|s|-1];
      Ink(s[..|s|-1]) + (if c == ' ' || c == '\t' then "" else [c])
  }

  lemma {:induction false} InkOfBlank(s: string, t: string)
    requires forall i :: 0 <= i < |t| ==> t[i] == ' '
    ensures Ink(s + t) == Ink(s)
  {
    if t == "" {
      assert s + t == s;
    } else {
      var k := |t| - 1;
      assert (s + t)[..|s + t|-1] == s + t[..k] && (s + t)[|s + t|-1] == t[k];
      InkOfBlank(s, t[..k]);
    }
  }

  lemma InkOfSpaces(s: string, n: nat)
    ensures Ink(s + Spaces(n)) == Ink(s)
  {
    SpacesLength(n);
    var t := Spaces(n);
    assert forall i :: 0 <= i < |t| ==> t[i] in t;
    InkOfBlank(s, t);
  }

  /** Expanding removes every tab, loses nothing else and is settled after one pass. */
  lemma {:induction false} ExpandKeepsText(s: string, width: nat)
    requires 0 < width
    ensures '\t' !in Expand(s, width) && Ink(Expand(s, width)) == Ink(s)
    ensures Expand(Expand(s, width), width) == Expand(s, width)
  {
    if s != "" {
      hide Gap, TabWidth;
      var before, c := s[..|s|-1], s[|s|-1];
      var line, g := Expand(before, width), Gap(|Expand(before, width)|, TabWidth(before, width));
      ExpandKeepsText(before, width);
      if c == '\t' {
        SpacesLength(g);
        InkOfSpaces(line, g);
      } else {
        assert (line + [c])[..|line|] == line;
      }
    }
    ExpandNothing(Expand(s, width), width);
  }

  // ----- Lines -----

  predicate IsBreak(c: char) {
    c == '\n' || c == '\r'
  }

  predicate OneLine(s: string) {
    forall i :: 0 <= i < |s| ==> !IsBreak(s[i])
  }

  /** The position of the first line break, or the length of the text. */
  function BreakAt(text: string): (k: nat)
    ensures k <= |text| && (k < |text| ==> IsBreak(text[k]))
  {
    if text == "" || IsBreak(text[0]) then 0 else 1 + BreakAt(text[1..])
  }

  lemma {:induction false} FirstBreak(line: string, rest: string)
    requires OneLine(line) && (rest == "" || IsBreak(rest[0]))
    ensures BreakAt(line + rest) == |line|
  {
    if line == "" {
      assert line + rest == rest;
    } else {
      assert (line + rest)[1..] == line[1..] + rest;
      FirstBreak(line[1..], rest);
    }
  }

  /** What follows a line break: the other of the two characters belongs to it. */
  function AfterBreak(text: string): (rest: string)
    requires text != "" && IsBreak(text[0])
    ensures |rest| < |text|
  {
    if 1 < |text| && IsBreak(text[1]) && text[1] != text[0] then text[2..] else text[1..]
  }

  function Lines(text: string, width: nat): seq<string>
    requires 0 < width
    decreases |text|
  {
    var k := BreakAt(text);
    var line := Expand(text[..k], width);
    if k < |text| then [line] + Lines(AfterBreak(text[k..]), width)
    else if line == "" then []
    else [line]
  }

  // ----- The newline conventions -----

  datatype Newline = LF | CR | CRLF | LFCR {
    function Chars(): (s: string)
      ensures s != "" && IsBreak(s[0])
    {
      match this
      case LF => "\n"
      case CR => "\r"
      case CRLF => "\r\n"
      case LFCR => "\n\r"
    }
  }

  /** A line and the way it is ended. */
  datatype Ended = Ended(line: string, end: Newline)

  function Join(lines: seq<Ended>): string {
    if lines == [] then "" else lines[0].line + lines[0].end.Chars() + Join(lines[1..])
  }

  function Texts(lines: seq<Ended>): (r: seq<string>)
    ensures |r| == |lines|
  {
    if lines == [] then [] else [lines[0].line] + Texts(lines[1..])
  }

  function Expanded(lines: seq<string>, width: nat): (r: seq<string>)
    requires 0 < width
    ensures |r| == |lines|
  {
    if lines == [] then [] else [Expand(lines[0], width)] + Expanded(lines[1..], width)
  }

  /** The end of one line does not run into the end of an empty line after it. */
  predicate Apart(a: Ended, b: Ended) {
    b.line == "" ==> |a.end.Chars()| == 2 || a.end.Chars()[0] == b.end.Chars()[0]
  }

  /** What is left of an end of two characters when the first is taken. */
  function Half(end: Newline): (h: Newline)
    requires |end.Chars()| == 2
    ensures h.Chars() == end.Chars()[1..]
  {
    if end.CRLF? then LF else CR
  }

  /** The lines after the first one, when the end of the first takes what it runs into. */
  function AfterFirst(lines: seq<Ended>): (rest: seq<Ended>)
    requires lines != []
    ensures |rest| < |lines|
  {
    if |lines| == 1 || Apart(lines[0], lines[1]) then lines[1..]
    else if |lines[1].end.Chars()| == 2 then [Ended("", Half(lines[1].end))] + lines[2..]
    else lines[2..]
  }

  /** The lines that the reader sees. */
  function Seen(lines: seq<Ended>): seq<string>
    decreases |lines|
  {
    if lines == [] then [] else [lines[0].line] + Seen(AfterFirst(lines))
  }

  /** No line is lost: an end may run into the end of an empty line only if that end has two characters, of which the
      second then ends the empty line and must not run on in its turn. */
  predicate Kept(lines: seq<Ended>)
    decreases |lines|
  {
    |lines| <= 1 || (AfterFirst(lines) != lines[2..] && Kept(AfterFirst(lines)))
  }

  predicate AllOneLine(lines: seq<Ended>) {
    forall i :: 0 <= i < |lines| ==> OneLine(lines[i].line)
  }

  lemma {:induction false} SeenIfKept(lines: seq<Ended>)
    ensures if Kept(lines) then Seen(lines) == Texts(lines) else |Seen(lines)| < |lines|
    decreases |lines|
  {
    if lines != [] {
      var rest := AfterFirst(lines);
      SeenIfKept(rest);
      if |lines| > 1 && rest != lines[1..] && rest != lines[2..] { assert rest[1..] == lines[2..] == lines[1..][1..]; }
      if 1 < |lines| && rest != lines[2..] { assert Texts(rest) == Texts(lines[1..]); }
    }
  }

  lemma {:induction false} ApartIsKept(lines: seq<Ended>)
    requires forall i :: 0 < i < |lines| ==> Apart(lines[i-1], lines[i])
    ensures Kept(lines)
    decreases |lines|
  {
    if 1 < |lines| {
      forall i | 0 < i < |lines[1..]|
        ensures Apart(lines[1..][i-1], lines[1..][i])
      {
        assert Apart(lines[i], lines[i+1]);
      }
      ApartIsKept(lines[1..]);
    }
  }

  /** The first line and its end are read on their own. */
  lemma EndStands(end: Newline, rest: string)
    requires |end.Chars()| == 1 && rest != "" ==> !IsBreak(rest[0]) || rest[0] == end.Chars()[0]
    ensures AfterBreak(end.Chars() + rest) == rest
  {
    if |end.Chars()| == 1 && rest != "" { assert (end.Chars() + rest)[1] == rest[0]; }
  }

  /** The end of the first line takes the first character of the end after it. */
  lemma EndTakes(end: Newline, next: Newline, more: string)
    requires |end.Chars()| == 1 && end.Chars()[0] != next.Chars()[0]
    ensures AfterBreak(end.Chars() + (next.Chars() + more)) == next.Chars()[1..] + more
  {
    assert end.Chars() + (next.Chars() + more) == [end.Chars()[0], next.Chars()[0]] + (next.Chars()[1..] + more);
  }

  lemma JoinUnfolds(lines: seq<Ended>, last: string)
    requires lines != []
    ensures Join(lines) + last == lines[0].line + (lines[0].end.Chars() + (Join(lines[1..]) + last))
  {
  }

  /** What the reader finds after the end of the first line. */
  lemma EndsFirst(lines: seq<Ended>, last: string)
    requires lines != [] && AllOneLine(lines) && OneLine(last)
    ensures AllOneLine(AfterFirst(lines))
    ensures AfterBreak(lines[0].end.Chars() + (Join(lines[1..]) + last)) == Join(AfterFirst(lines)) + last
  {
    var rest := Join(lines[1..]) + last;
    if |lines| == 1 {
      assert rest == last;
      EndStands(lines[0].end, rest);
    } else {
      var next, more := lines[1], Join(lines[2..]) + last;
      assert OneLine(next.line) && lines[1..][1..] == lines[2..];
      JoinUnfolds(lines[1..], last);
      hide Join, AfterBreak;
      if Apart(lines[0], next) {
        assert rest[0] == if next.line != "" then next.line[0] else next.end.Chars()[0];
        EndStands(lines[0].end, rest);
      } else {
        EndTakes(lines[0].end, next.end, more);
        assert next.line + (next.end.Chars() + more) == next.end.Chars() + more;
        HalfLeft(next, lines[2..], last);
      }
    }
  }

  lemma HalfLeft(next: Ended, rest: seq<Ended>, last: string)
    ensures |next.end.Chars()| == 2 ==>
              Join([Ended("", Half(next.end))] + rest) + last == next.end.Chars()[1..] + (Join(rest) + last)
    ensures |next.end.Chars()| == 1 ==> next.end.Chars()[1..] + (Join(rest) + last) == Join(rest) + last
  {
    if |next.end.Chars()| == 2 {
      var lines := [Ended("", Half(next.end))] + rest;
      JoinUnfolds(lines, last);
      assert lines[1..] == rest && "" + (next.end.Chars()[1..] + (Join(rest) + last)) == next.end.Chars()[1..] + (Join(rest) + last);
    }
  }

  lemma LinesUnfolds(line: string, rest: string, width: nat)
    requires 0 < width && OneLine(line) && rest != "" && IsBreak(rest[0])
    ensures Lines(line + rest, width) == [Expand(line, width)] + Lines(AfterBreak(rest), width)
  {
    FirstBreak(line, rest);
    assert (line + rest)[..|line|] == line && (line + rest)[|line|..] == rest;
    hide BreakAt, Expand, AfterBreak;
  }

  lemma LastLine(last: string, width: nat)
    requires 0 < width && OneLine(last)
    ensures Lines(last, width) == if Expand(last, width) == "" then [] else [Expand(last, width)]
  {
    FirstBreak(last, "");
    assert last + "" == last && last[..|last|] == last;
    hide BreakAt, Expand;
  }

  /** The line that is not ended, if there is one. */
  function Unended(last: string, width: nat): seq<string>
    requires 0 < width
  {
    if Expand(last, width) == "" then [] else [Expand(last, width)]
  }

  /** Lines with any mix of ends are read as the lines that are seen; text after the last end is one more line. */
  lemma {:induction false} LinesOfJoin(lines: seq<Ended>, last: string, width: nat)
    requires 0 < width && AllOneLine(lines) && OneLine(last)
    ensures Lines(Join(lines) + last, width) == Expanded(Seen(lines), width) + Unended(last, width)
    decreases |lines|
  {
    if lines == [] {
      assert Join(lines) + last == last;
      LastLine(last, width);
    } else {
      EndsFirst(lines, last);
      JoinUnfolds(lines, last);
      assert OneLine(lines[0].line);
      hide Lines, Expand, AfterBreak, Join, AfterFirst;
      LinesOfJoin(AfterFirst(lines), last, width);
      LinesUnfolds(lines[0].line, lines[0].end.Chars() + (Join(lines[1..]) + last), width);
    }
  }

  /** Lines are read as they were written, whatever their ends, exactly when no line is lost; the reader then finds as
      many lines as there are, and otherwise less. */
  lemma LinesKept(lines: seq<Ended>, last: string, width: nat)
    requires 0 < width && AllOneLine(lines) && OneLine(last)
    ensures var r := Lines(Join(lines) + last, width);
            && (r == Expanded(Texts(lines), width) + Unended(last, width) <==> Kept(lines))
            && (|r| < |lines| + |Unended(last, width)| <==> !Kept(lines))
  {
    LinesOfJoin(lines, last, width);
    SeenIfKept(lines);
    hide Lines, Expand, Expanded, Texts, Seen, Kept, Unended;
  }

  function EndAll(lines: seq<string>, end: Newline): (r: seq<Ended>)
    ensures |r| == |lines| && forall i :: 0 <= i < |r| ==> r[i] == Ended(lines[i], end)
  {
    if lines == [] then [] else [Ended(lines[0], end)] + EndAll(lines[1..], end)
  }

  lemma {:induction false} TextsOfEndAll(lines: seq<string>, end: Newline)
    ensures Texts(EndAll(lines, end)) == lines
  {
    if lines != [] { TextsOfEndAll(lines[1..], end); }
  }

  /** Each of the four conventions gives back all lines, so all of them give the same. */
  lemma SameLines(lines: seq<string>, end: Newline, width: nat)
    requires 0 < width && forall i :: 0 <= i < |lines| ==> OneLine(lines[i])
    ensures Lines(Join(EndAll(lines, end)), width) == Expanded(lines, width)
  {
    var all := EndAll(lines, end);
    ApartIsKept(all);
    TextsOfEndAll(lines, end);
    ExpandEmpty(width);
    assert OneLine("") && AllOneLine(all);
    hide Lines, Expand, Expanded, Texts, Kept, Join;
    LinesKept(all, "", width);
    assert Join(all) + "" == Join(all);
  }

  /** A line is lost wherever an end of one character runs into another one that ends an empty line. */
  lemma {:induction false} EndsCanMerge(lines: seq<Ended>, i: nat)
    requires i + 1 < |lines| && !Apart(lines[i], lines[i+1]) && |lines[i+1].end.Chars()| == 1
    ensures !Kept(lines)
    decreases |lines|
  {
    if 0 < i && AfterFirst(lines) != lines[2..] { EndsCanMerge(AfterFirst(lines), i - 1); }
  }

  // ----- The reader -----

  /** A line as it is read, or a token that holds no text to be marked up. */
  datatype LineToken = BlankLine(text: string) | RawText(text: string) | Processed

  function Tokens(lines: seq<string>, isBlank: string -> bool): seq<LineToken> {
    if lines == [] then []
    else [if isBlank(lines[0]) then BlankLine(lines[0]) else RawText(lines[0])] + Tokens(lines[1..], isBlank)
  }

  /** There is one token for each line, and blank lines are marked as such. */
  lemma {:induction false} TokensAre(lines: seq<string>, isBlank: string -> bool, i: nat)
    requires i < |lines|
    ensures |Tokens(lines, isBlank)| == |lines|
    ensures Tokens(lines, isBlank)[i] == if isBlank(lines[i]) then BlankLine(lines[i]) else RawText(lines[i])
    decreases i
  {
    TokenForEach(lines, isBlank);
    if i > 0 { TokensAre(lines[1..], isBlank, i - 1); }
  }

  lemma {:induction false} TokenForEach(lines: seq<string>, isBlank: string -> bool)
    ensures |Tokens(lines, isBlank)| == |lines|
  {
    if lines != [] { TokenForEach(lines[1..], isBlank); }
  }

  /** Moves the first element of the rest to the end of what is done. */
  lemma Advance<T>(done: seq<T>, x: T, rest: seq<T>)
    ensures done + ([x] + rest) == done + [x] + rest
  {
  }

  lemma BreakAfter(r: string, raw: string, rest: string)
    requires r == raw + rest && OneLine(raw) && (rest == "" || IsBreak(rest[0]))
    ensures BreakAt(r) == |raw| && r[..|raw|] == raw && r[|raw|..] == rest
  {
    FirstBreak(raw, rest);
  }

  class Document {
    const cSpacesPerTab: nat
    var mTokens: seq<LineToken>
    var mProcessed: bool

    constructor (spacesPerTab: nat)
      ensures cSpacesPerTab == spacesPerTab && mTokens == [] && !mProcessed
    {
      cSpacesPerTab, mTokens, mProcessed := spacesPerTab, [], false;
    }

    /** Takes the other half of a line break, and puts back anything else. */
    method FinishBreak(input: InputStream, first: char)
      requires input.Valid() && IsBreak(first)
      modifies input
      ensures input.Valid() && input.Rest() == AfterBreak([first] + old(input.Rest()))
    {
      ghost var r := input.Rest();
      assert ([first] + r)[1..] == r;
      var ok, c := input.Get();
      if ok {
        assert c == r[0] && ([first] + r)[1] == c && ([first] + r)[2..] == r[1..] == input.Rest();
        if c != (if first == '\r' then '\n' else '\r') { input.Unget(); }
      }
    }

    method GetLine(input: InputStream) returns (ok: bool, line: string)
      requires input.Valid() && 0 < cSpacesPerTab
      modifies input
      ensures input.Valid()
      ensures var r := old(input.Rest()); var k := BreakAt(r);
              && line == Expand(r[..k], cSpacesPerTab)
              && ok == (k < |r| || line != "")
              && input.Rest() == if k < |r| then AfterBreak(r[k..]) else ""
    {
      hide Expand, BreakAt, AfterBreak, IsInitial, OneLine;
      ghost var r, raw := input.Rest(), "";
      line := "";
      var initialWhitespace := true;
      ExpandEmpty(cSpacesPerTab);
      while true
        invariant input.Valid() && r == raw + input.Rest() && OneLine(raw)
        invariant line == Expand(raw, cSpacesPerTab) && initialWhitespace == IsInitial(raw)
        decreases |input.Rest()|
      {
        ghost var rest := input.Rest();
        var more, c := input.Get();
        if !more {
          BreakAfter(r, raw, rest);
          break;
        }
        if IsBreak(c) {
          BreakAfter(r, raw, rest);
          FinishBreak(input, c);
          return true, line;
        }
        line, initialWhitespace := Put(line, initialWhitespace, c, raw);
        Advance(raw, c, input.Rest());
        raw := raw + [c];
      }
      ok := line != "";
    }

    /** Appends a character other than a line break, or the spaces for a tab. */
    method Put(line: string, initialWhitespace: bool, c: char, ghost raw: string) returns (longer: string, initial: bool)
      requires 0 < cSpacesPerTab && !IsBreak(c) && OneLine(raw)
      requires line == Expand(raw, cSpacesPerTab) && initialWhitespace == IsInitial(raw)
      ensures longer == Expand(raw + [c], cSpacesPerTab) && initial == IsInitial(raw + [c]) && OneLine(raw + [c])
    {
      hide Expand, Gap, Spaces;
      ExpandOneMore(raw, c, cSpacesPerTab);
      longer, initial := line, initialWhitespace;
      if c == '\t' {
        var convert := if initial then SPACES_PER_INITIAL_TAB else cSpacesPerTab;
        longer := longer + Spaces(Gap(|longer|, convert));
      } else {
        longer := longer + [c];
        if c != ' ' { initial := false; }
      }
      InitialOneMore(raw, c);
    }

    /** The loop over the lines. */
    method ReadLines(input: InputStream, isBlank: string -> bool) returns (tgt: seq<LineToken>)
      requires input.Valid() && 0 < cSpacesPerTab
      modifies input
      ensures input.Valid() && tgt == Tokens(Lines(old(input.Rest()), cSpacesPerTab), isBlank)
    {
      hide Expand, BreakAt, AfterBreak, Lines, Tokens;
      tgt := [];
      ghost var all := Tokens(Lines(input.Rest(), cSpacesPerTab), isBlank);
      while true
        invariant input.Valid() && tgt + Tokens(Lines(input.Rest(), cSpacesPerTab), isBlank) == all
        decreases |input.Rest()|
      {
        ReadStep(input.Rest(), cSpacesPerTab, isBlank);
        var more, line := GetLine(input);
        if !more { break; }
        var token := if isBlank(line) then BlankLine(line) else RawText(line);
        Advance(tgt, token, Tokens(Lines(input.Rest(), cSpacesPerTab), isBlank));
        tgt := tgt + [token];
      }
    }

    /** Appends the lines of a text, each as a blank line or as raw text. */
    method Read(input: InputStream, isBlank: string -> bool) returns (ok: bool)
      requires input.Valid() && 0 < cSpacesPerTab
      modifies this`mTokens, input
      ensures ok == !mProcessed
      ensures mTokens == old(mTokens) + if ok then Tokens(Lines(old(input.Rest()), cSpacesPerTab), isBlank) else []
    {
      if mProcessed { return false; }
      hide *;
      var tgt := ReadLines(input, isBlank);
      mTokens, ok := mTokens + tgt, true;
    }
  }

  lemma ExpandEmpty(width: nat)
    requires 0 < width
    ensures Expand("", width) == "" && IsInitial("") && OneLine("")
  {
  }

  lemma ReadStep(text: string, width: nat, isBlank: string -> bool)
    requires 0 < width
    ensures var k := BreakAt(text); var line := Expand(text[..k], width);
            var rest := if k < |text| then AfterBreak(text[k..]) else "";
            && (k < |text| ==> |rest| < |text|)
            && Tokens(Lines(text, width), isBlank) ==
               if k < |text| || line != "" then
                 [if isBlank(line) then BlankLine(line) else RawText(line)] + Tokens(Lines(rest, width), isBlank)
               else []
  {
  }
}
