/** The texts that are accepted as responses, in any spacing. */
module ResponseGrammar {
  import opened Wrappers
  import opened Utils
  import opened HttpResponse
  import Request = HttpRequest

  /** No carriage return stands before a line feed. */
  predicate NoBreak(s: string) {
    forall i :: 0 <= i && i + 1 < |s| ==> !(s[i] == '\r' && s[i+1] == '\n')
  }

  datatype HeaderText = HeaderText(name: string, spaces: string, value: string)

  predicate HeaderTextOk(h: HeaderText) {
    && ':' !in h.name && !("\r\n" <= h.name) && AllSpaces(h.spaces) && NoBreak(h.value)
    && (h.value != "" ==> h.value[0] != ' ')
  }

  predicate AllOk(hs: seq<HeaderText>) {
    forall i :: 0 <= i < |hs| ==> HeaderTextOk(hs[i])
  }

  function LineOf(h: HeaderText): string {
    h.name + ":" + h.spaces + h.value + "\r\n"
  }

  function TextOf(hs: seq<HeaderText>): string {
    if hs == [] then "" else LineOf(hs[0]) + TextOf(hs[1..])
  }

  function HeadersOf(hs: seq<HeaderText>): (r: Headers)
    ensures |r| == |hs| && forall i :: 0 <= i < |hs| ==> r[i] == (hs[i].name, hs[i].value)
  {
    if hs == [] then [] else [(hs[0].name, hs[0].value)] + HeadersOf(hs[1..])
  }

  lemma NoBreakIff(s: string)
    ensures Find(s, CRLF) == None <==> NoBreak(s)
  {
    FindIsFirst(s, CRLF);
    hide Find;
    if NoBreak(s) {
      forall i | 0 <= i <= |s|
        ensures !(CRLF <= s[i..])
      {
        if i + 1 < |s| { assert s[i] == s[i..][0] && s[i+1] == s[i..][1]; }
      }
    } else {
      var i :| 0 <= i && i + 1 < |s| && s[i] == '\r' && s[i+1] == '\n';
      assert CRLF <= s[i..];
    }
  }

  lemma LineRead(h: HeaderText, rest: string)
    requires HeaderTextOk(h)
    ensures !(CRLF <= LineOf(h) + rest) && NextHeader(LineOf(h) + rest) == Some(((h.name, h.value), rest))
  {
    NoBreakIff(h.value);
    hide Find, NextHeader, DropSpaces, NoBreak;
    var tail := h.value + CRLF + rest;
    var text := LineOf(h) + rest;
    LineTogether(h, rest);
    NoCRLFAhead(h.name, h.spaces + tail);
    FindChar(h.name, ':', h.spaces + tail);
    SpacesDropped(h.spaces, tail);
    FindCRLF(h.value, rest);
    assert text[|h.name|+1..] == h.spaces + tail && text[..|h.name|] == h.name;
    assert tail[..|h.value|] == h.value && tail[|h.value|+2..] == rest;
    TakeApart(text, |h.name|, tail, |h.value|);
  }

  lemma LineTogether(h: HeaderText, rest: string)
    ensures LineOf(h) + rest == h.name + [':'] + (h.spaces + (h.value + CRLF + rest))
    ensures LineOf(h) + rest == h.name + ":" + (h.spaces + (h.value + CRLF + rest))
  {
  }

  /** Every location to be followed can be followed. */
  predicate CanFollowAll(code: int, headers: Headers) {
    forall i :: 0 <= i < |headers| && IsRedirect(code, headers[i].0) ==> CanFollow(headers[i].1)
  }

  lemma BodyRead(body: string, code: int, before: Headers, rd: Redirect)
    ensures ParseHeaders("\r\n" + body, code, before, rd) == Some(Parsed(ResponseValue(code, before, body), rd))
  {
    assert CRLF <= "\r\n" + body && ("\r\n" + body)[2..] == body;
  }

  lemma NextRead(h: HeaderText, rest: string, code: int, before: Headers, rd: Redirect)
    requires HeaderTextOk(h)
    ensures var header := (h.name, h.value);
            ParseHeaders(LineOf(h) + rest, code, before, rd) ==
            if IsRedirect(code, h.name) && !CanFollow(h.value) then None
            else ParseHeaders(rest, code, before + [header], AfterHeader(rd, code, header))
  {
    LineRead(h, rest);
    hide NextHeader, AfterHeader, CanFollow, HeaderTextOk, LineOf;
  }

  /** Header lines in any spacing are read up to the empty line, unless a location cannot be followed. */
  lemma {:induction false} HeadersRead(hs: seq<HeaderText>, body: string, code: int, before: Headers, rd: Redirect)
    requires AllOk(hs)
    ensures ParseHeaders(TextOf(hs) + "\r\n" + body, code, before, rd) ==
            if CanFollowAll(code, HeadersOf(hs)) then
              Some(Parsed(ResponseValue(code, before + HeadersOf(hs), body), AfterHeaders(rd, code, HeadersOf(hs))))
            else None
    decreases |hs|
  {
    hide ParseHeaders, AfterHeader, CanFollow, IsRedirect, HeaderTextOk, LineOf;
    if hs == [] {
      assert TextOf(hs) + "\r\n" + body == "\r\n" + body && before + HeadersOf(hs) == before;
      BodyRead(body, code, before, rd);
    } else {
      var h, rest := hs[0], TextOf(hs[1..]) + "\r\n" + body;
      var header, more := (h.name, h.value), HeadersOf(hs[1..]);
      assert TextOf(hs) + "\r\n" + body == LineOf(h) + rest;
      assert HeadersOf(hs) == [header] + more && HeadersOf(hs)[1..] == more;
      assert forall i :: 0 <= i < |more| ==> more[i] == HeadersOf(hs)[i+1];
      NextRead(h, rest, code, before, rd);
      HeadersRead(hs[1..], body, code, before + [header], AfterHeader(rd, code, header));
      assert before + [header] + more == before + HeadersOf(hs);
    }
  }

  lemma HeaderParts(text: string, h: (string, string), rest: string) returns (tail: string)
    requires NextHeader(text) == Some((h, rest))
    ensures h.0 <= text && text == h.0 + ":" + tail && DropSpaces(tail) == h.1 + CRLF + rest
  {
    var k := Find(text, ":").value;
    tail := text[k+1..];
    DropSpacesShrinks(tail);
    var after := DropSpaces(tail);
    FindIsFirst(text, ":");
    FindIsFirst(after, CRLF);
    hide Find, DropSpaces;
    CutAtBreak(after, Find(after, CRLF).value);
    assert text[k..][0] == text[k];
  }

  lemma LineFound(text: string, h: (string, string), rest: string) returns (line: HeaderText)
    requires !(CRLF <= text) && NextHeader(text) == Some((h, rest))
    ensures HeaderTextOk(line) && h == (line.name, line.value) && text == LineOf(line) + rest
  {
    NextHeaderIsOk(text);
    NoBreakIff(h.1);
    var tail := HeaderParts(text, h, rest);
    var sp := SpacesBefore(tail);
    line := HeaderText(h.0, sp, h.1);
    NotThisBreak(text, h.0);
    hide Find, NextHeader, DropSpaces, NoBreak, LineOf;
    LineTogether(line, rest);
  }

  lemma CutAtBreak(s: string, e: nat)
    requires e + 2 <= |s| && CRLF <= s[e..]
    ensures s == s[..e] + CRLF + s[e+2..]
  {
    assert s[e..] == CRLF + s[e+2..];
  }

  lemma NotThisBreak(text: string, name: string)
    requires !(CRLF <= text) && name <= text
    ensures !(CRLF <= name)
  {
  }

  /** Every text that is accepted has that form. */
  lemma {:induction false} HeadersFound(text: string, code: int, before: Headers, rd: Redirect)
    returns (hs: seq<HeaderText>, body: string)
    requires ParseHeaders(text, code, before, rd).Some?
    ensures AllOk(hs) && text == TextOf(hs) + "\r\n" + body
    decreases |text|
  {
    hide NextHeader, AfterHeader, CanFollow, HeaderTextOk, LineOf;
    if CRLF <= text {
      hs, body := [], text[2..];
    } else {
      var (h, rest) := NextHeader(text).value;
      var line := LineFound(text, h, rest);
      hs, body := HeadersFound(rest, code, before + [h], AfterHeader(rd, code, h));
      assert LineOf(line) + (TextOf(hs) + "\r\n" + body) == LineOf(line) + TextOf(hs) + "\r\n" + body;
      assert ([line] + hs)[1..] == hs;
      hs := [line] + hs;
    }
  }

  // ----- The status line -----

  predicate NoDigitFirst(s: string) {
    s != "" ==> !('0' <= s[0] <= '9')
  }

  lemma {:induction false} NumberFirst(n: nat, tail: string)
    requires n < 0x8000_0000 && NoDigitFirst(tail)
    ensures StoI(Decimal(n) + tail) == Some(n)
  {
    NumberOfDecimal(n);
    IntegerRead("", "", Decimal(n), tail);
    hide *;
    assert "" + "" + Decimal(n) + tail == Decimal(n) + tail;
  }

  /** What comes before the first space begins with the digits. */
  lemma DigitsStay(digits: string, tail: string) returns (part: string)
    requires AllDigits(digits) && NoDigitFirst(tail)
    ensures BeforeSpace(digits + tail) == digits + part && NoDigitFirst(part)
  {
    var text := digits + tail;
    FindIsFirst(text, " ");
    hide Find;
    match Find(text, " ")
    case None => part := tail;
    case Some(e) =>
      assert text[e..][0] == text[e] == ' ' && forall i :: 0 <= i < |digits| ==> IsDigit(text[i]);
      part := tail[..e-|digits|];
      assert text[..e] == digits + part;
  }

  lemma NoBreakInLine(digits: string, phrase: string, rest: string)
    requires AllDigits(digits) && NoBreak(phrase)
    ensures var text := digits + phrase + CRLF + rest; var l := |digits| + |phrase|;
            Find(text, CRLF) == Some(l) && text[l+2..] == rest
  {
    var line := digits + phrase;
    assert NoBreak(line) by {
      forall i | 0 <= i && i + 1 < |line|
        ensures !(line[i] == '\r' && line[i+1] == '\n')
      {
        if i < |digits| { assert IsDigit(digits[i]); }
      }
    }
    NoBreakIff(line);
    FindCRLF(line, rest);
  }

  lemma ParseUnfolds(raw: string, text: string, number: string, code: int, l: nat, rd: Redirect)
    requires AfterSpace(raw) == text && BeforeSpace(text) == number && StoI(number) == Some(code)
    requires Find(text, CRLF) == Some(l)
    ensures Parse(raw, rd) == ParseHeaders(text[l+2..], code, [], rd)
  {
    hide Find, StoI, ParseHeaders, AfterSpace, BeforeSpace;
  }

  lemma {:induction false} TextRead(raw: string, text: string, n: nat, tail: string, l: nat, rd: Redirect)
    requires AfterSpace(raw) == text && text == Decimal(n) + tail && n < 0x8000_0000 && NoDigitFirst(tail)
    requires Find(text, CRLF) == Some(l)
    ensures Parse(raw, rd) == ParseHeaders(text[l+2..], n, [], rd)
  {
    NumberOfDecimal(n);
    hide *;
    var part := DigitsStay(Decimal(n), tail);
    NumberFirst(n, part);
    ParseUnfolds(raw, text, Decimal(n) + part, n, l, rd);
  }

  lemma TailTogether(digits: string, phrase: string, rest: string)
    requires NoDigitFirst(phrase)
    ensures digits + phrase + CRLF + rest == digits + (phrase + CRLF + rest) && NoDigitFirst(phrase + CRLF + rest)
  {
  }

  /** The number after the first space of a response is its code, whatever comes before and after it in the line; in a
      response without spaces the number comes first. */
  lemma {:induction false} StatusLineRead(protocol: string, n: nat, phrase: string, rest: string, rd: Redirect)
    requires n < 0x8000_0000 && NoBreak(phrase) && NoDigitFirst(phrase)
    ensures ' ' !in protocol ==>
              Parse(protocol + " " + (Decimal(n) + phrase + "\r\n" + rest), rd) == ParseHeaders(rest, n, [], rd)
    ensures ' ' !in Decimal(n) + phrase + "\r\n" + rest ==>
              Parse(Decimal(n) + phrase + "\r\n" + rest, rd) == ParseHeaders(rest, n, [], rd)
  {
    var text, l := Decimal(n) + phrase + CRLF + rest, |Decimal(n)| + |phrase|;
    assert CRLF == "\r\n";
    NumberOfDecimal(n);
    hide *;
    TailTogether(Decimal(n), phrase, rest);
    NoBreakInLine(Decimal(n), phrase, rest);
    if ' ' !in protocol {
      SpaceSkipped(protocol, text);
      TextRead(protocol + " " + text, text, n, phrase + CRLF + rest, l, rd);
    }
    if ' ' !in text {
      NoSpace(text);
      TextRead(text, text, n, phrase + CRLF + rest, l, rd);
    }
  }

  lemma SpaceSkipped(protocol: string, text: string)
    requires ' ' !in protocol
    ensures AfterSpace(protocol + " " + text) == text
  {
    FindChar(protocol, ' ', text);
    hide Find;
    assert protocol + [' '] + text == protocol + " " + text;
  }

  lemma NoSpace(text: string)
    requires ' ' !in text
    ensures AfterSpace(text) == text
  {
    CharFound(text, ' ');
    hide Find;
  }

  /** A response in any spacing is read as its code, its headers and its body, with the redirects that the headers ask
      for, and refused exactly when one of them cannot be followed. */
  lemma {:induction false} ReadsResponse(protocol: string, n: nat, phrase: string, hs: seq<HeaderText>, body: string,
                                         rd: Redirect)
    requires ' ' !in protocol && n < 0x8000_0000 && NoBreak(phrase) && NoDigitFirst(phrase) && AllOk(hs)
    ensures Parse(protocol + " " + (Decimal(n) + phrase + "\r\n" + (TextOf(hs) + "\r\n" + body)), rd) ==
            if CanFollowAll(n, HeadersOf(hs)) then
              Some(Parsed(ResponseValue(n, HeadersOf(hs), body), AfterHeaders(rd, n, HeadersOf(hs))))
            else None
  {
    hide *;
    StatusLineRead(protocol, n, phrase, TextOf(hs) + "\r\n" + body, rd);
    HeadersRead(hs, body, n, [], rd);
    assert [] + HeadersOf(hs) == HeadersOf(hs);
  }
}
