/** Parsing a request and writing it back. */
module HttpRequest {
  import opened Wrappers
  import opened Streams
  import opened Utils

  /** A request as a value. */
  datatype RequestValue = RequestValue(verb: string, uri: string, version: string, headers: Headers, body: string)

  // ----- Content-Length -----

  /** White space that `strtol` skips. */
  predicate IsBlank(c: char) {
    c == ' ' || c == '\t' || c == '\n' || c == '\U{000B}' || c == '\U{000C}' || c == '\r'
  }

  /** The number that the digits at the start of `s` give, appended to `value`. */
  function Digits(s: string, value: nat): nat {
    if s != "" && IsDigit(s[0]) then Digits(s[1..], value * 10 + (s[0] as int - '0' as int)) else value
  }

  /** The nearest number that fits in 64 bits. */
  function Nearest64(n: int): (r: int)
    ensures -0x8000_0000_0000_0000 <= r <= 0x7FFF_FFFF_FFFF_FFFF
    ensures -0x8000_0000_0000_0000 <= n <= 0x7FFF_FFFF_FFFF_FFFF ==> r == n
    ensures n < -0x8000_0000_0000_0000 ==> r == -0x8000_0000_0000_0000
    ensures n > 0x7FFF_FFFF_FFFF_FFFF ==> r == 0x7FFF_FFFF_FFFF_FFFF
  {
    if n < -0x8000_0000_0000_0000 then -0x8000_0000_0000_0000
    else if n > 0x7FFF_FFFF_FFFF_FFFF then 0x7FFF_FFFF_FFFF_FFFF
    else n
  }

  /** `strtol` in base 10: 0 if there is no number, and the nearest 64-bit number if there is one out of range. */
  function StrToL(s: string): int {
    if s != "" && IsBlank(s[0]) then StrToL(s[1..])
    else
      var signed := s != "" && (s[0] == '-' || s[0] == '+');
      var digits: int := Digits(if signed then s[1..] else s, 0);
      Nearest64(if signed && s[0] == '-' then -digits else digits)
  }

  // ----- What is read as a number -----

  /** What decimal notation is, on examples. */
  lemma DecimalExample()
    ensures Decimal(1984) == "1984" && Decimal(2036) == "2036" && Decimal(57) == "57"
  {
    assert Decimal(1) == "1" && Decimal(19) == Decimal(1) + "9" && Decimal(198) == Decimal(19) + "8";
    assert Decimal(2) == "2" && Decimal(20) == Decimal(2) + "0" && Decimal(203) == Decimal(20) + "3";
    assert Decimal(5) == "5";
  }

  lemma DigitRead(c: char, rest: string, value: nat)
    requires IsDigit(c)
    ensures Digits([c] + rest, value) == Digits(rest, value * 10 + (c as int - '0' as int))
  {
    assert ([c] + rest)[1..] == rest;
  }

  lemma {:induction false} DigitsRead(ds: string, rest: string)
    requires AllDigits(ds)
    ensures Digits(ds + rest, 0) == Digits(rest, Number(ds))
    decreases |ds|
  {
    if ds == "" {
      assert ds + rest == rest;
    } else {
      var front, c := ds[..|ds|-1], ds[|ds|-1];
      assert ds + rest == front + ([c] + rest);
      DigitsRead(front, [c] + rest);
      DigitRead(c, rest, Number(front));
    }
  }

  lemma {:induction false} BlanksSkipped(blanks: string, rest: string)
    requires forall i :: 0 <= i < |blanks| ==> blanks[i] in " \t\n\U{000B}\U{000C}\r"
    ensures StrToL(blanks + rest) == StrToL(rest)
  {
    if blanks == "" {
      assert blanks + rest == rest;
    } else {
      assert (blanks + rest)[1..] == blanks[1..] + rest;
      BlanksSkipped(blanks[1..], rest);
    }
  }

  /** A sign or none, digits or none, and a text that goes on with neither white space nor a sign nor a digit. */
  predicate NumberText(sign: string, ds: string, tail: string) {
    && (sign == "" || sign == "+" || sign == "-") && AllDigits(ds) && (tail != "" ==> !('0' <= tail[0] <= '9'))
    && (sign == "" && ds == "" && tail != "" ==> tail[0] !in " \t\n\U{000B}\U{000C}\r+-")
  }

  /** After white space and a sign, the digits up to the first character that is none give the number, and 0 if there
      are none; a number that does not fit in 64 bits gives the nearest one that does. */
  lemma {:induction false} NumberRead(blanks: string, sign: string, ds: string, tail: string)
    requires forall i :: 0 <= i < |blanks| ==> blanks[i] in " \t\n\U{000B}\U{000C}\r"
    requires NumberText(sign, ds, tail)
    ensures StrToL(blanks + sign + ds + tail) == Nearest64(if sign == "-" then 0 - Number(ds) else Number(ds))
  {
    SignedRead(sign, ds, tail);
    hide *;
    BlanksSkipped(blanks, sign + (ds + tail));
    PartsTogether(blanks, sign, ds, tail);
  }

  lemma PartsTogether(a: string, b: string, c: string, d: string)
    ensures a + b + c + d == a + (b + (c + d))
  {
  }

  lemma SignedRead(sign: string, ds: string, tail: string)
    requires NumberText(sign, ds, tail)
    ensures StrToL(sign + (ds + tail)) == Nearest64(if sign == "-" then 0 - Number(ds) else Number(ds))
  {
    var s := sign + (ds + tail);
    DigitsRead(ds, tail);
    assert Digits(tail, Number(ds)) == Number(ds);
    if sign == "" { assert s == ds + tail; } else { assert s[1..] == ds + tail; }
    assert s != "" ==> s[0] == if sign != "" then sign[0] else if ds != "" then ds[0] else tail[0];
    assert ds != "" ==> IsDigit(ds[0]);
    hide Digits, Number;
  }

  /** Decimal notation is read back. */
  lemma {:induction false} DecimalRead(blanks: string, sign: string, n: nat, tail: string)
    requires forall i :: 0 <= i < |blanks| ==> blanks[i] in " \t\n\U{000B}\U{000C}\r"
    requires sign == "" || sign == "+" || sign == "-"
    requires n <= 0x7FFF_FFFF_FFFF_FFFF && (tail != "" ==> !('0' <= tail[0] <= '9'))
    ensures StrToL(blanks + sign + Decimal(n) + tail) == if sign == "-" then 0 - n else n
  {
    NumberOfDecimal(n);
    NumberRead(blanks, sign, Decimal(n), tail);
    hide *;
  }

  /** The body length that the headers announce: the last Content-Length header decides. */
  function ContentLength(headers: Headers): (n: int)
    ensures -0x8000_0000 <= n < 0x8000_0000
  {
    if headers == [] then 0
    else
      var (key, value) := headers[|headers|-1];
      if key == "Content-Length" then ToInt32(StrToL(value)) else ContentLength(headers[..|headers|-1])
  }

  function BodyLength(headers: Headers): nat {
    if ContentLength(headers) > 0 then ContentLength(headers) else 0
  }

  lemma {:induction false} LengthAfter(headers: Headers, n: nat, after: Headers)
    requires n <= 0x7FFF_FFFF_FFFF_FFFF && forall h :: h in after ==> h.0 != "Content-Length"
    ensures ContentLength(headers + [("Content-Length", Decimal(n))] + after) == ToInt32(n)
    decreases |after|
  {
    var announced := headers + [("Content-Length", Decimal(n))];
    if after == [] {
      DecimalRead("", "", n, "");
      assert "" + "" + Decimal(n) + "" == Decimal(n);
      hide StrToL, ToInt32, Decimal;
      assert announced + after == announced;
    } else {
      var k := |after| - 1;
      assert after[k] in after;
      LengthAfter(headers, n, after[..k]);
      hide StrToL, ToInt32, Decimal;
      assert (announced + after)[..|announced| + k] == announced + after[..k];
      assert (announced + after)[|announced| + k] == after[k];
    }
  }

  // ----- Parsing -----

  function ParseHeader(line: string): Option<(string, string)> {
    var k := IndexOf(line, ':');
    if k == |line| then None else Some((line[..k], DropSpaces(line[k+1..])))
  }

  /** The headers up to the empty line, after those in `before`, and the text that follows. */
  function ParseHeaders(text: string, before: Headers): Option<(Headers, string)>
    decreases |text|
  {
    var Line(line, rest) := CRLFLine(text);
    if line == "" then Some((before, rest))
    else
      match ParseHeader(line)
      case None => None
      case Some(h) => ParseHeaders(rest, before + [h])
  }

  function Nulls(n: nat): (s: string)
    ensures |s| == n && forall i :: 0 <= i < n ==> s[i] == '\0'
  {
    seq(n, _ => '\0')
  }

  /** `n` characters of body, padded with NUL characters if the text is shorter. */
  function Body(text: string, n: nat): (b: string)
    ensures |b| == n
  {
    if n <= |text| then text[..n] else text + Nulls(n - |text|)
  }

  function Parse(raw: string): Option<RequestValue> {
    var Line(head, rest) := CRLFLine(raw);
    var tokens := Split(head, ' ');
    if |tokens| != 3 || !("HTTP/" <= tokens[2]) then None
    else
      match ParseHeaders(rest, [])
      case None => None
      case Some((headers, text)) =>
        Some(RequestValue(tokens[0], tokens[1], tokens[2], headers, Body(text, BodyLength(headers))))
  }

  // ----- Writing -----

  function WriteHeaders(headers: Headers): string {
    if headers == [] then "" else headers[0].0 + ": " + headers[0].1 + "\r\n" + WriteHeaders(headers[1..])
  }

  function Write(r: RequestValue): string {
    r.verb + " " + r.uri + " " + r.version + "\r\n" + WriteHeaders(r.headers) + "\r\n" + r.body
  }

  /** The text of a request with two headers. */
  lemma WrittenText(verb: string, uri: string, version: string, a: string, x: string, b: string, y: string, body: string)
    ensures Write(RequestValue(verb, uri, version, [(a, x), (b, y)], body)) ==
            verb + " " + uri + " " + version + "\r\n" + a + ": " + x + "\r\n" + b + ": " + y + "\r\n\r\n" + body
  {
    WrittenPair(a, x, b, y);
    hide WriteHeaders;
    var head := verb + " " + uri + " " + version + "\r\n";
    var lines := a + ": " + x + "\r\n" + b + ": " + y + "\r\n";
    assert head + lines == head + a + ": " + x + "\r\n" + b + ": " + y + "\r\n";
    assert head + lines + "\r\n" + body == head + a + ": " + x + "\r\n" + b + ": " + y + "\r\n\r\n" + body;
  }

  lemma WrittenPair(a: string, x: string, b: string, y: string)
    ensures WriteHeaders([(a, x), (b, y)]) == a + ": " + x + "\r\n" + b + ": " + y + "\r\n"
  {
    assert [(a, x), (b, y)][1..] == [(b, y)] && WriteHeaders([(b, y)]) == b + ": " + y + "\r\n" + "";
  }

  // ----- Writing and parsing undo each other -----

  predicate HeaderOk(h: (string, string)) {
    ':' !in h.0 && '\n' !in h.0 && '\n' !in h.1 && (h.1 != "" ==> h.1[0] != ' ')
  }

  predicate FieldOk(s: string) {
    ' ' !in s && '\n' !in s
  }

  predicate WellFormed(r: RequestValue) {
    && FieldOk(r.verb) && FieldOk(r.uri) && FieldOk(r.version) && "HTTP/" <= r.version
    && (forall h :: h in r.headers ==> HeaderOk(h))
    && |r.body| == BodyLength(r.headers)
  }

  lemma ParsedHeaderIsOk(line: string)
    requires '\n' !in line && ParseHeader(line).Some?
    ensures HeaderOk(ParseHeader(line).value)
  {
    DropSpacesIsSuffix(line[IndexOf(line, ':')+1..]);
  }

  lemma {:induction false} ParsedHeadersAreOk(text: string, before: Headers)
    requires (forall h :: h in before ==> HeaderOk(h)) && ParseHeaders(text, before).Some?
    ensures forall h :: h in ParseHeaders(text, before).value.0 ==> HeaderOk(h)
    decreases |text|
  {
    var Line(line, rest) := CRLFLine(text);
    if line != "" {
      LineIsClean(text);
      ParsedHeaderIsOk(line);
      ParsedHeadersAreOk(rest, before + [ParseHeader(line).value]);
    }
  }

  lemma WrittenHeader(h: (string, string))
    requires HeaderOk(h)
    ensures ParseHeader(h.0 + ": " + h.1) == Some(h)
  {
    var line := h.0 + ": " + h.1;
    assert line[..|h.0|] == h.0 && line[|h.0|+1..] == " " + h.1 && (" " + h.1)[1..] == h.1;
    assert DropSpaces(" " + h.1) == DropSpaces(h.1) == h.1;
    FirstIndex(line, ':', |h.0|);
  }

  /** A header line goes up to its first colon and, after any spaces, on to its end; a line without a colon is none. */
  lemma HeaderLine(name: string, spaces: string, value: string)
    requires ':' !in name && AllSpaces(spaces) && (value != "" ==> value[0] != ' ')
    ensures ParseHeader(name + ":" + spaces + value) == Some((name, value)) && ParseHeader(name) == None
  {
    var line := name + ":" + spaces + value;
    assert line[..|name|] == name && line[|name|+1..] == spaces + value;
    SpacesDropped(spaces, value);
    FirstIndex(line, ':', |name|);
  }

  lemma ParseNextHeader(text: string, line: string, h: (string, string), rest: string, before: Headers)
    requires CRLFLine(text) == Line(line, rest) && (line != "" ==> ParseHeader(line) == Some(h))
    ensures ParseHeaders(text, before) ==
            if line == "" then Some((before, rest)) else ParseHeaders(rest, before + [h])
  {
  }

  lemma {:induction false} WrittenHeaders(headers: Headers, body: string, before: Headers)
    requires forall h :: h in headers ==> HeaderOk(h)
    ensures ParseHeaders(WriteHeaders(headers) + "\r\n" + body, before) == Some((before + headers, body))
    decreases |headers|
  {
    hide ParseHeaders, ParseHeader, CRLFLine;
    if headers == [] {
      assert WriteHeaders(headers) + "\r\n" + body == "" + "\r\n" + body;
      WrittenLine("", body);
      ParseNextHeader("" + "\r\n" + body, "", ("", ""), body, before);
      assert before + headers == before;
    } else {
      var h := headers[0];
      assert h in headers;
      var line, rest := h.0 + ": " + h.1, WriteHeaders(headers[1..]) + "\r\n" + body;
      assert WriteHeaders(headers) + "\r\n" + body == line + "\r\n" + rest;
      WrittenLine(line, rest);
      WrittenHeader(h);
      ParseNextHeader(line + "\r\n" + rest, line, h, rest, before);
      WrittenHeaders(headers[1..], body, before + [h]);
      assert before + [h] + headers[1..] == before + headers;
    }
  }

  lemma WrittenHead(verb: string, uri: string, version: string)
    requires FieldOk(verb) && FieldOk(uri) && FieldOk(version)
    ensures Split(verb + " " + uri + " " + version, ' ') ==
            if version == "" then [verb, uri] else [verb, uri, version]
  {
    SplitUnfolds("", ' ');
    hide Split;
    var tail := uri + [' '] + version;
    if version != "" { SplitLast(version, ' '); }
    SplitFirst(uri, ' ', version);
    SplitFirst(verb, ' ', tail);
    assert verb + " " + uri + " " + version == verb + [' '] + tail;
    assert [verb] + ([uri] + [version]) == [verb, uri, version] && [verb] + ([uri] + []) == [verb, uri];
  }

  /** A written request whose fields and headers can be read back, with any text sent after it. */
  lemma PartsRead(verb: string, uri: string, version: string, headers: Headers, sent: string)
    requires FieldOk(verb) && FieldOk(uri) && FieldOk(version) && forall h :: h in headers ==> HeaderOk(h)
    ensures Parse(verb + " " + uri + " " + version + "\r\n" + WriteHeaders(headers) + "\r\n" + sent) ==
            if 5 <= |version| && version[..5] == "HTTP/" then
              Some(RequestValue(verb, uri, version, headers, Body(sent, BodyLength(headers))))
            else None
  {
    HeadIsClean(verb, uri, version);
    VersionStarts(version);
    hide *;
    WrittenHead(verb, uri, version);
    HeadRead(verb + " " + uri + " " + version, headers, sent);
  }

  lemma HeadRead(head: string, headers: Headers, sent: string)
    requires '\n' !in head && forall h :: h in headers ==> HeaderOk(h)
    ensures var tokens := Split(head, ' ');
            Parse(head + "\r\n" + WriteHeaders(headers) + "\r\n" + sent) ==
            if |tokens| != 3 || !("HTTP/" <= tokens[2]) then None
            else Some(RequestValue(tokens[0], tokens[1], tokens[2], headers, Body(sent, BodyLength(headers))))
  {
    hide *;
    var rest := WriteHeaders(headers) + "\r\n" + sent;
    WrittenLine(head, rest);
    WrittenHeaders(headers, sent, []);
    assert [] + headers == headers;
    LineThenRest(head, WriteHeaders(headers), sent);
    ParseParts(head + "\r\n" + rest, head, rest, headers, sent);
  }

  lemma HeadIsClean(verb: string, uri: string, version: string)
    requires FieldOk(verb) && FieldOk(uri) && FieldOk(version)
    ensures '\n' !in verb + " " + uri + " " + version
  {
  }

  lemma VersionStarts(version: string)
    ensures "HTTP/" <= version <==> 5 <= |version| && version[..5] == "HTTP/"
    ensures "HTTP/" <= version ==> version != ""
  {
  }

  lemma ParseParts(raw: string, head: string, rest: string, headers: Headers, sent: string)
    requires CRLFLine(raw) == Line(head, rest) && ParseHeaders(rest, []) == Some((headers, sent))
    ensures var tokens := Split(head, ' ');
            Parse(raw) ==
            if |tokens| != 3 || !("HTTP/" <= tokens[2]) then None
            else Some(RequestValue(tokens[0], tokens[1], tokens[2], headers, Body(sent, BodyLength(headers))))
  {
    hide ParseHeaders, Split, CRLFLine, BodyLength, Body;
  }

  lemma LineThenRest(head: string, headers: string, sent: string)
    ensures head + "\r\n" + headers + "\r\n" + sent == head + "\r\n" + (headers + "\r\n" + sent)
  {
  }

  /** Whatever the parser accepts is well formed. */
  lemma ParsedIsWellFormed(raw: string)
    requires Parse(raw).Some?
    ensures WellFormed(Parse(raw).value)
  {
    var Line(head, rest) := CRLFLine(raw);
    LineIsClean(raw);
    FieldsAreClean(head, ' ');
    FieldsAreParts(head, ' ', '\n');
    ParsedHeadersAreOk(rest, []);
  }

  lemma {:induction false} FieldsAreParts(line: string, delim: char, c: char)
    requires c !in line
    ensures forall f :: f in Split(line, delim) ==> c !in f
    decreases |line|
  {
    SplitUnfolds(line, delim);
    hide Split, IndexOf;
    if line != "" {
      var k := IndexOf(line, delim);
      FieldsAreParts(if k < |line| then line[k+1..] else "", delim, c);
    }
  }

  lemma WellFormedIsReadBack(r: RequestValue)
    requires WellFormed(r)
    ensures Parse(Write(r)) == Some(r)
  {
    PartsRead(r.verb, r.uri, r.version, r.headers, r.body);
    assert r.body[..|r.body|] == r.body;
    VersionStarts(r.version);
    hide Parse, WriteHeaders, BodyLength, FieldOk, HeaderOk;
  }

  lemma DecimalHeader(n: nat)
    ensures HeaderOk(("Content-Length", Decimal(n)))
  {
    NumberOfDecimal(n);
    hide Decimal, Number;
    assert forall i :: 0 <= i < |Decimal(n)| ==> IsDigit(Decimal(n)[i]);
  }

  /** A request that announces `n` characters of body in decimal gets the first `n` of those that are sent, and NUL
      characters for those that are not; `n` is reduced to 32 bits, and a number that is then negative means none. A
      version that does not begin with `HTTP/` is refused. */
  lemma AnnouncedBody(verb: string, uri: string, version: string, before: Headers, n: nat, after: Headers, sent: string)
    requires ' ' !in verb + uri + version && '\n' !in verb + uri + version && forall h :: h in before + after ==> HeaderOk(h)
    requires n <= 0x7FFF_FFFF_FFFF_FFFF && forall h :: h in after ==> h.0 != "Content-Length"
    ensures var headers := before + [("Content-Length", Decimal(n))] + after;
            var r := Parse(verb + " " + uri + " " + version + "\r\n" + WriteHeaders(headers) + "\r\n" + sent);
            var m := if n % 0x1_0000_0000 < 0x8000_0000 then n % 0x1_0000_0000 else 0;
            if |version| < 5 || version[..5] != "HTTP/" then r == None
            else r.Some? && r.value == RequestValue(verb, uri, version, headers, r.value.body) && |r.value.body| == m
                 && forall i :: 0 <= i < m ==> r.value.body[i] == if i < |sent| then sent[i] else '\0'
  {
    assert FieldOk(verb) && FieldOk(uri) && FieldOk(version);
    var headers := before + [("Content-Length", Decimal(n))] + after;
    var m := if n % 0x1_0000_0000 < 0x8000_0000 then n % 0x1_0000_0000 else 0;
    assert BodyLength(headers) == m by { LengthAfter(before, n, after); }
    DecimalHeader(n);
    hide HeaderOk, Decimal, FieldOk, Parse, WriteHeaders, BodyLength;
    forall h | h in headers
      ensures HeaderOk(h)
    {
      assert h in before + after || h == ("Content-Length", Decimal(n));
    }
    PartsRead(verb, uri, version, headers, sent);
  }

  /** Writing a request and parsing the text gives the request back exactly when the request is well formed. */
  lemma WriteThenParse(r: RequestValue)
    ensures Parse(Write(r)) == Some(r) <==> WellFormed(r)
  {
    if Parse(Write(r)) == Some(r) { ParsedIsWellFormed(Write(r)); }
    if WellFormed(r) { WellFormedIsReadBack(r); }
  }

  /** Every accepted text gives a request that survives being written and parsed again, whatever the spacing of the
      headers, the number of Content-Length headers or the length of the body in the text. */
  lemma ParseWriteParse(raw: string)
    requires Parse(raw).Some?
    ensures Parse(Write(Parse(raw).value)) == Parse(raw)
  {
    ParsedIsWellFormed(raw);
    WriteThenParse(Parse(raw).value);
  }
}
