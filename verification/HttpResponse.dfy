/** Writing a response and parsing it back. */
module HttpResponse {
  import opened Wrappers
  import opened Utils
  import Request = HttpRequest

  /** A response as a value. */
  datatype ResponseValue = ResponseValue(code: int, headers: Headers, body: string)

  const CRLF := "\r\n"

  // ----- Searching -----

  /** The position of the first `pat` in `s`. */
  function Find(s: string, pat: string): (k: Option<nat>)
    ensures k.Some? ==> k.value + |pat| <= |s|
  {
    if pat <= s then Some(0)
    else if s == "" then None
    else
      var r := Find(s[1..], pat);
      if r.None? then None else Some(r.value + 1)
  }

  /** `pat` stands at position `k` and nowhere before. */
  ghost predicate FirstAt(s: string, pat: string, k: nat) {
    k <= |s| && pat <= s[k..] && forall i {:trigger s[i..]} :: 0 <= i < k ==> !(pat <= s[i..])
  }

  ghost predicate Nowhere(s: string, pat: string) {
    forall i {:trigger s[i..]} :: 0 <= i <= |s| ==> !(pat <= s[i..])
  }

  lemma {:induction false} FindIsFirst(s: string, pat: string)
    ensures match Find(s, pat) case Some(k) => FirstAt(s, pat, k) case None => Nowhere(s, pat)
  {
    if !(pat <= s) && s != "" {
      FindIsFirst(s[1..], pat);
      assert forall i :: 1 <= i <= |s| ==> s[i..] == s[1..][i-1..];
    }
  }

  lemma FoundAt(s: string, pat: string, k: nat)
    requires FirstAt(s, pat, k)
    ensures Find(s, pat) == Some(k)
  {
    FindIsFirst(s, pat);
  }

  /** The first `c` ends the part of the text that has none. */
  lemma FindChar(a: string, c: char, b: string)
    requires c !in a
    ensures Find(a + [c] + b, [c]) == Some(|a|)
  {
    var s := a + [c] + b;
    forall i | 0 <= i < |a|
      ensures !([c] <= s[i..])
    {
      assert s[i..][0] == a[i];
    }
    assert s[|a|..][0] == c;
    FoundAt(s, [c], |a|);
  }

  /** The first CR LF ends the part of the text that has none, even if that part ends in a carriage return. */
  lemma FindCRLF(a: string, b: string)
    requires Find(a, CRLF) == None
    ensures Find(a + CRLF + b, CRLF) == Some(|a|)
  {
    FindIsFirst(a, CRLF);
    var s := a + CRLF + b;
    forall i | 0 <= i < |a|
      ensures !(CRLF <= s[i..])
    {
      assert !(CRLF <= a[i..]);
      assert s[i] == s[i..][0] && s[i+1] == s[i..][1];
      if i + 1 < |a| { assert s[i+1] == a[i..][1]; }
    }
    assert s[|a|..] == CRLF + b;
    FoundAt(s, CRLF, |a|);
  }

  lemma FoundPrefixIsFree(s: string, k: nat)
    requires Find(s, CRLF) == Some(k)
    ensures Find(s[..k], CRLF) == None
  {
    FindIsFirst(s, CRLF);
    FindIsFirst(s[..k], CRLF);
    hide Find;
    forall i | 0 <= i <= k
      ensures !(CRLF <= s[..k][i..])
    {
      assert s[..k][i..] <= s[i..];
      if i < k { assert !(CRLF <= s[i..]); }
    }
  }

  // ----- Redirects -----

  /** What the proxy remembers of a redirect: whether there is one, and where it leads. */
  datatype Redirect = Redirect(pending: bool, uri: string, host: string, hostHeader: string)

  predicate IsRedirect(code: int, name: string) {
    (code == 301 || code == 302) && name == "Location"
  }

  /** The length of the scheme, which is not part of the host. */
  function SchemeLength(location: string): (n: nat)
    ensures n <= |location|
  {
    if "http://" <= location then 7 else 0
  }

  /** A location on the same host, or one with a path after the host; any other cannot be followed. */
  predicate CanFollow(location: string) {
    (location != "" && location[0] == '/') || Find(location[SchemeLength(location)..], "/").Some?
  }

  function Follow(rd: Redirect, location: string): Redirect
    requires CanFollow(location)
  {
    if location != "" && location[0] == '/' then rd.(pending := true, uri := location)
    else
      var n := SchemeLength(location);
      var host := location[n..];
      var pos := n + Find(host, "/").value;
      var uri := location[pos..];
      var end := Find(host, uri);
      Redirect(true, uri, if end.Some? then host[..end.value] else host, location[..pos])
  }

  lemma CharFound(s: string, c: char)
    ensures Find(s, [c]).Some? <==> c in s
  {
    FindIsFirst(s, [c]);
    hide Find;
    if c in s {
      var i :| 0 <= i < |s| && s[i] == c;
      assert [c] <= s[i..];
    } else {
      forall i | 0 <= i <= |s|
        ensures !([c] <= s[i..])
      {
        if i < |s| { assert s[i..][0] == s[i]; }
      }
    }
  }

  /** A location can be followed exactly when there is a slash after the scheme, if it has one. */
  lemma CanFollowIff(location: string)
    ensures CanFollow(location) <==> '/' in if "http://" <= location then location[7..] else location
  {
    CharFound(location[SchemeLength(location)..], '/');
    hide Find;
  }

  /** The path begins at the first slash of a host and a path, and the host ends where the path is found. */
  lemma HostThenPath(host: string, path: string)
    requires '/' !in host && path != "" && path[0] == '/'
    ensures Find(host + path, "/") == Some(|host|) && Find(host + path, path) == Some(|host|)
  {
    assert path == "/" + path[1..] && host + path == host + ['/'] + path[1..];
    FindChar(host, '/', path[1..]);
    var s := host + path;
    assert s[|host|..] == path;
    forall i | 0 <= i < |host|
      ensures !(path <= s[i..])
    {
      assert s[i..][0] == host[i];
    }
    FoundAt(s, path, |host|);
  }

  /** A location of a host and a path behind the scheme leads to that path on that host; the scheme is kept in the host
      header. */
  lemma FollowScheme(rd: Redirect, host: string, path: string)
    requires '/' !in host && path != "" && path[0] == '/'
    ensures CanFollow("http://" + host + path)
    ensures Follow(rd, "http://" + host + path) == Redirect(true, path, host, "http://" + host)
  {
    HostThenPath(host, path);
    var location := "http://" + host + path;
    hide Find;
    assert location[0] == 'h' && "http://" <= location && location[7..] == host + path;
    FollowHost(rd, location, 7, host, path);
  }

  lemma FollowHost(rd: Redirect, location: string, n: nat, host: string, path: string)
    requires location != "" && location[0] != '/' && n == SchemeLength(location) && location[n..] == host + path
    requires path != "" && Find(host + path, "/") == Some(|host|) && Find(host + path, path) == Some(|host|)
    ensures CanFollow(location) && Follow(rd, location) == Redirect(true, path, host, location[..n] + host)
  {
    hide Find, SchemeLength;
    var pos := n + |host|;
    assert location[n..][|host|..] == location[pos..] == path;
    assert location[..pos] == location[..n] + location[n..][..|host|];
    assert (host + path)[..|host|] == host;
  }

  /** Without the scheme, the first slash still ends the host, unless what comes before it and the slashes after it make
      up the scheme. A location that begins with a slash stays on the host. */
  lemma FollowPlain(rd: Redirect, host: string, path: string)
    requires '/' !in host && path != "" && path[0] == '/'
    ensures host == "" ==> CanFollow(path) && Follow(rd, path) == rd.(pending := true, uri := path)
    ensures host != "" ==>
              (CanFollow(host + path) && Follow(rd, host + path) == Redirect(true, path, host, host)
               <==> !(host == "http:" && "//" <= path))
  {
    if host != "" {
      var location := host + path;
      HostThenPath(host, path);
      SchemeSpelled(host, path);
      if !("http://" <= location) {
        hide Find;
        FollowHost(rd, location, 0, host, path);
        assert location[..0] + host == host;
      } else {
        assert location[7..] == path[2..];
        if CanFollow(location) { assert |Follow(rd, location).uri| <= |location| - 7 < |path|; }
      }
    }
  }

  lemma SchemeSpelled(host: string, path: string)
    requires '/' !in host && path != "" && path[0] == '/'
    ensures "http://" <= host + path <==> host == "http:" && "//" <= path
  {
    var s := host + path;
    if "http://" <= s {
      assert s[5] == '/' && forall i :: 0 <= i < 5 ==> s[i] != '/';
      assert s[|host|] == '/' && (forall i :: 0 <= i < |host| ==> s[i] != '/');
      assert host == s[..5] && path == s[5..];
    }
  }

  /** What is remembered after a header. */
  function AfterHeader(rd: Redirect, code: int, h: (string, string)): Redirect {
    if IsRedirect(code, h.0) && CanFollow(h.1) then Follow(rd, h.1) else rd
  }

  /** What is remembered after all headers. */
  function AfterHeaders(rd: Redirect, code: int, headers: Headers): Redirect
    decreases |headers|
  {
    if headers == [] then rd else AfterHeaders(AfterHeader(rd, code, headers[0]), code, headers[1..])
  }

  lemma {:induction false} AfterConcat(rd: Redirect, code: int, a: Headers, b: Headers)
    ensures AfterHeaders(rd, code, a + b) == AfterHeaders(AfterHeaders(rd, code, a), code, b)
    decreases |a|
  {
    hide AfterHeader;
    if a == [] {
      assert a + b == b;
    } else {
      assert (a + b)[1..] == a[1..] + b;
      AfterConcat(AfterHeader(rd, code, a[0]), code, a[1..], b);
    }
  }

  /** A Location header of a response with code 301 or 302 decides where the proxy goes, and one of any other response
      does not matter. */
  lemma LocationDecides(rd: Redirect, code: int, before: Headers, host: string, path: string, after: Headers)
    requires '/' !in host && path != "" && path[0] == '/'
    requires forall h :: h in before + after ==> h.0 != "Location"
    ensures AfterHeaders(rd, code, before + [("Location", "http://" + host + path)] + after) ==
            if code == 301 || code == 302 then Redirect(true, path, host, "http://" + host) else rd
  {
    var h := ("Location", "http://" + host + path);
    FollowScheme(rd, host, path);
    assert IsRedirect(code, "Location") <==> code == 301 || code == 302;
    var rd' := AfterHeader(rd, code, h);
    assert rd' == if code == 301 || code == 302 then Redirect(true, path, host, "http://" + host) else rd;
    OneAfter(rd, code, h);
    hide AfterHeader, Follow, CanFollow, AfterHeaders;
    AfterConcat(rd, code, before + [h], after);
    AfterConcat(rd, code, before, [h]);
    assert forall b :: b in before ==> b in before + after;
    assert forall b :: b in after ==> b in before + after;
    NoRedirect(rd, code, before);
    NoRedirect(rd', code, after);
  }

  lemma OneAfter(rd: Redirect, code: int, h: (string, string))
    ensures AfterHeaders(rd, code, [h]) == AfterHeader(rd, code, h)
  {
    hide AfterHeader;
    assert AfterHeaders(AfterHeader(rd, code, h), code, []) == AfterHeader(rd, code, h);
  }

  // ----- Writing -----

  function StatusText(code: int): Option<string> {
    match code
    case 200 => Some("200 OK")
    case 301 => Some("301 Moved Permanently")
    case 302 => Some("302 Found")
    case 304 => Some("304 Not Modified")
    case 400 => Some("400 Bad Request")
    case 401 => Some("401 Unauthorized")
    case 403 => Some("403 Forbidden")
    case 404 => Some("404 Not Found")
    case 500 => Some("500 Internal Server Error")
    case _ => None
  }

  /** The text of a response; `None` for a code without a status text. */
  function Write(r: ResponseValue): Option<string> {
    match StatusText(r.code)
    case None => None
    case Some(status) => Some("HTTP/1.1 " + status + CRLF + Request.WriteHeaders(r.headers) + CRLF + r.body)
  }

  // ----- Parsing -----

  predicate HasNumber(s: string) {
    if s != "" && Request.IsBlank(s[0]) then HasNumber(s[1..])
    else
      var t := if s != "" && (s[0] == '-' || s[0] == '+') then s[1..] else s;
      t != "" && IsDigit(t[0])
  }

  /** `stoi` in base 10; `None` if there is no number or it does not fit in 32 bits. */
  function StoI(s: string): Option<int> {
    if HasNumber(s) && -0x8000_0000 <= Request.StrToL(s) < 0x8000_0000 then Some(Request.StrToL(s)) else None
  }

  datatype Parsed = Parsed(response: ResponseValue, redirect: Redirect)

  lemma {:induction false} DropSpacesShrinks(s: string)
    ensures |DropSpaces(s)| <= |s|
  {
    if s != "" && s[0] == ' ' { DropSpacesShrinks(s[1..]); }
  }

  /** The first header of the text, and what comes after it. */
  function NextHeader(text: string): (r: Option<((string, string), string)>)
    ensures r.Some? ==> |r.value.1| < |text|
  {
    match Find(text, ":")
    case None => None
    case Some(k) =>
      DropSpacesShrinks(text[k+1..]);
      var rest := DropSpaces(text[k+1..]);
      match Find(rest, CRLF)
      case None => None
      case Some(e) => Some(((text[..k], rest[..e]), rest[e+2..]))
  }

  /** The response in the text after the status line; `None` at a location that cannot be followed, and where a header
      has no colon or no line end. */
  function ParseHeaders(text: string, code: int, before: Headers, rd: Redirect): Option<Parsed>
    decreases |text|
  {
    if CRLF <= text then Some(Parsed(ResponseValue(code, before, text[2..]), rd))
    else
      match NextHeader(text)
      case None => None
      case Some((h, rest)) =>
        if IsRedirect(code, h.0) && !CanFollow(h.1) then None
        else ParseHeaders(rest, code, before + [h], AfterHeader(rd, code, h))
  }

  /** The text after the first space, all of it if there is none. */
  function AfterSpace(raw: string): string {
    match Find(raw, " ")
    case Some(k) => raw[k+1..]
    case None => raw
  }

  /** The text before the first space, all of it if there is none. */
  function BeforeSpace(text: string): string {
    match Find(text, " ")
    case Some(e) => text[..e]
    case None => text
  }

  /** The status line ends where the first line after its first space ends. */
  function Parse(raw: string, rd: Redirect): Option<Parsed> {
    var text := AfterSpace(raw);
    match (StoI(BeforeSpace(text)), Find(text, CRLF))
    case (Some(code), Some(l)) => ParseHeaders(text[l+2..], code, [], rd)
    case _ => None
  }

  // ----- Writing and parsing undo each other -----

  /** A header whose line can be taken apart again. */
  predicate LineOk(h: (string, string)) {
    ':' !in h.0 && !(CRLF <= h.0) && Find(h.1, CRLF) == None && (h.1 != "" ==> h.1[0] != ' ')
  }

  predicate HeaderOk(code: int, h: (string, string)) {
    LineOk(h) && (IsRedirect(code, h.0) ==> CanFollow(h.1))
  }

  predicate WellFormed(r: ResponseValue) {
    StatusText(r.code).Some? && forall h :: h in r.headers ==> HeaderOk(r.code, h)
  }

  lemma TakeApart(text: string, k: nat, rest: string, e: nat)
    requires Find(text, ":") == Some(k) && DropSpaces(text[k+1..]) == rest && Find(rest, CRLF) == Some(e)
    ensures NextHeader(text) == Some(((text[..k], rest[..e]), rest[e+2..]))
  {
  }

  lemma SkipOneSpace(v: string)
    requires v == "" || v[0] != ' '
    ensures DropSpaces(" " + v) == v
  {
  }

  lemma NoCRLFAhead(name: string, rest: string)
    requires !(CRLF <= name)
    ensures !(CRLF <= name + ":" + rest)
  {
    var text := name + ":" + rest;
    assert text[|name|] == ':' && forall i :: 0 <= i < |name| ==> text[i] == name[i];
  }

  lemma WrittenHeader(h: (string, string), rest: string)
    requires LineOk(h)
    ensures var text := h.0 + ": " + h.1 + CRLF + rest; !(CRLF <= text) && NextHeader(text) == Some((h, rest))
  {
    hide Find, NextHeader, DropSpaces;
    var text := h.0 + ": " + h.1 + CRLF + rest;
    var tail := h.1 + CRLF + rest;
    assert text == h.0 + [':'] + (" " + tail) == h.0 + ":" + (" " + tail);
    NoCRLFAhead(h.0, " " + tail);
    FindChar(h.0, ':', " " + tail);
    SkipOneSpace(tail);
    FindCRLF(h.1, rest);
    assert text[|h.0|+1..] == " " + tail && text[..|h.0|] == h.0;
    assert tail[..|h.1|] == h.1 && tail[|h.1|+2..] == rest;
    TakeApart(text, |h.0|, tail, |h.1|);
  }

  lemma NextHeaderIsOk(text: string)
    requires !(CRLF <= text) && NextHeader(text).Some?
    ensures LineOk(NextHeader(text).value.0)
  {
    var k := Find(text, ":").value;
    DropSpacesShrinks(text[k+1..]);
    var rest := DropSpaces(text[k+1..]);
    FindIsFirst(text, ":");
    FoundPrefixIsFree(rest, Find(rest, CRLF).value);
    forall i | 0 <= i < k
      ensures text[i] != ':'
    {
      assert !(":" <= text[i..]) && text[i..][0] == text[i];
    }
    assert text[..k] <= text;
  }

  lemma {:induction false} WrittenHeaders(headers: Headers, code: int, body: string, before: Headers, rd: Redirect)
    requires forall h :: h in headers ==> HeaderOk(code, h)
    ensures ParseHeaders(Request.WriteHeaders(headers) + CRLF + body, code, before, rd) ==
            Some(Parsed(ResponseValue(code, before + headers, body), AfterHeaders(rd, code, headers)))
    decreases |headers|
  {
    hide Find, NextHeader, AfterHeader, LineOk, CanFollow;
    var text := Request.WriteHeaders(headers) + CRLF + body;
    if headers == [] {
      assert text == CRLF + body && text[2..] == body;
      assert before + headers == before;
    } else {
      var h, rest := headers[0], Request.WriteHeaders(headers[1..]) + CRLF + body;
      assert h in headers;
      assert text == h.0 + ": " + h.1 + CRLF + rest;
      WrittenHeader(h, rest);
      WrittenHeaders(headers[1..], code, body, before + [h], AfterHeader(rd, code, h));
      assert before + [h] + headers[1..] == before + headers;
    }
  }

  lemma {:induction false} ParsedHeadersAreOk(text: string, code: int, before: Headers, rd: Redirect)
    requires (forall h :: h in before ==> HeaderOk(code, h)) && ParseHeaders(text, code, before, rd).Some?
    ensures var r := ParseHeaders(text, code, before, rd).value.response;
            r.code == code && forall h :: h in r.headers ==> HeaderOk(code, h)
    decreases |text|
  {
    hide Find, NextHeader, AfterHeader, LineOk, CanFollow;
    if !(CRLF <= text) {
      var (h, rest) := NextHeader(text).value;
      NextHeaderIsOk(text);
      ParsedHeadersAreOk(rest, code, before + [h], AfterHeader(rd, code, h));
    }
  }

  lemma ThreeDigits(s: string)
    requires |s| == 3 && IsDigit(s[0]) && IsDigit(s[1]) && IsDigit(s[2])
    ensures StoI(s) == Some(100 * (s[0] as int - 48) + 10 * (s[1] as int - 48) + (s[2] as int - 48))
  {
    assert s[1..][1..] == s[2..] && s[2..][1..] == s[3..] == "";
    assert Request.Digits(s[3..], 100 * (s[0] as int - 48) + 10 * (s[1] as int - 48) + (s[2] as int - 48)) ==
           100 * (s[0] as int - 48) + 10 * (s[1] as int - 48) + (s[2] as int - 48);
    assert Request.Digits(s, 0) == Request.Digits(s[1..], s[0] as int - 48);
    assert Request.Digits(s[1..], s[0] as int - 48) ==
           Request.Digits(s[2..], 10 * (s[0] as int - 48) + (s[1] as int - 48));
  }

  /** The codes with a text, and their texts. */
  lemma StatusTexts()
    ensures StatusText(200) == Some("200 OK") && StatusText(301) == Some("301 Moved Permanently")
    ensures StatusText(302) == Some("302 Found") && StatusText(304) == Some("304 Not Modified")
    ensures StatusText(400) == Some("400 Bad Request") && StatusText(401) == Some("401 Unauthorized")
    ensures StatusText(403) == Some("403 Forbidden") && StatusText(404) == Some("404 Not Found")
    ensures StatusText(500) == Some("500 Internal Server Error")
    ensures forall code :: StatusText(code).Some? ==> code in {200, 301, 302, 304, 400, 401, 403, 404, 500}
  {
  }

  /** The text of a response with two headers. */
  lemma WrittenText(a: string, x: string, b: string, y: string, body: string)
    ensures Write(ResponseValue(404, [(a, x), (b, y)], body)) ==
            Some("HTTP/1.1 404 Not Found\r\n" + (a + ": " + x + "\r\n" + b + ": " + y + "\r\n") + "\r\n" + body)
  {
    Request.WrittenPair(a, x, b, y);
    hide Request.WriteHeaders;
    assert "HTTP/1.1 " + "404 Not Found" + CRLF == "HTTP/1.1 404 Not Found\r\n";
  }

  /** White space, a sign and at least one digit are a number; one that does not fit in 32 bits is none. */
  lemma IntegerRead(blanks: string, sign: string, ds: string, tail: string)
    requires forall i :: 0 <= i < |blanks| ==> blanks[i] in " \t\n\U{000B}\U{000C}\r"
    requires Request.NumberText(sign, ds, tail)
    ensures var n := if sign == "-" then 0 - Number(ds) else Number(ds);
            StoI(blanks + sign + ds + tail) == if ds != "" && -0x8000_0000 <= n < 0x8000_0000 then Some(n) else None
  {
    NumberThere(blanks, sign, ds, tail);
    Request.NumberRead(blanks, sign, ds, tail);
    hide Number, Request.StrToL, HasNumber, AllDigits;
  }

  lemma NumberThere(blanks: string, sign: string, ds: string, tail: string)
    requires forall i :: 0 <= i < |blanks| ==> blanks[i] in " \t\n\U{000B}\U{000C}\r"
    requires Request.NumberText(sign, ds, tail)
    ensures HasNumber(blanks + sign + ds + tail) <==> ds != ""
  {
    hide *;
    HasNumberIff(sign, ds, tail);
    BlanksBefore(blanks, sign + (ds + tail));
    assert blanks + sign + ds + tail == blanks + (sign + (ds + tail));
  }

  lemma HasNumberIff(sign: string, ds: string, tail: string)
    requires Request.NumberText(sign, ds, tail)
    ensures HasNumber(sign + (ds + tail)) <==> ds != ""
  {
    var s := sign + (ds + tail);
    if sign == "" { assert s == ds + tail; } else { assert s[1..] == ds + tail; }
    assert s != "" ==> s[0] == if sign != "" then sign[0] else if ds != "" then ds[0] else tail[0];
    assert ds != "" ==> IsDigit(ds[0]);
  }

  lemma {:induction false} BlanksBefore(blanks: string, rest: string)
    requires forall i :: 0 <= i < |blanks| ==> blanks[i] in " \t\n\U{000B}\U{000C}\r"
    ensures HasNumber(blanks + rest) == HasNumber(rest)
  {
    if blanks == "" {
      assert blanks + rest == rest;
    } else {
      assert (blanks + rest)[1..] == blanks[1..] + rest;
      BlanksBefore(blanks[1..], rest);
    }
  }

  lemma StatusDigits(code: int)
    requires StatusText(code).Some?
    ensures var s := StatusText(code).value;
            && 3 < |s| && IsDigit(s[0]) && IsDigit(s[1]) && IsDigit(s[2]) && s[3] == ' '
            && code == 100 * (s[0] as int - 48) + 10 * (s[1] as int - 48) + (s[2] as int - 48)
  {
  }

  predicate OneLine(s: string) {
    forall i :: 0 <= i < |s| ==> s[i] != '\r'
  }

  lemma StatusIsOneLine(code: int)
    requires StatusText(code).Some?
    ensures OneLine(StatusText(code).value)
  {
    assert OneLine("200 OK") && OneLine("301 Moved Permanently") && OneLine("302 Found");
    assert OneLine("304 Not Modified") && OneLine("400 Bad Request") && OneLine("401 Unauthorized");
    assert OneLine("403 Forbidden") && OneLine("404 Not Found") && OneLine("500 Internal Server Error");
    hide OneLine;
  }

  lemma StatusNumber(code: int)
    requires StatusText(code).Some?
    ensures var status := StatusText(code).value;
            3 < |status| && status[3] == ' ' && ' ' !in status[..3] && StoI(status[..3]) == Some(code)
            && OneLine(status)
  {
    hide StoI, StatusText;
    StatusDigits(code);
    StatusIsOneLine(code);
    ThreeDigits(StatusText(code).value[..3]);
  }

  lemma NoCRInside(s: string)
    requires OneLine(s)
    ensures Find(s, CRLF) == None
  {
    FindIsFirst(s, CRLF);
    hide Find;
    forall i | 0 <= i <= |s|
      ensures !(CRLF <= s[i..])
    {
      if i < |s| { assert s[i..][0] == s[i]; }
    }
  }

  lemma ProtocolIsFound(text: string)
    ensures var raw := "HTTP/1.1 " + text; Find(raw, " ") == Some(8) && raw[9..] == text
  {
    hide *;
    assert "HTTP/1.1 " + text == "HTTP/1.1" + [' '] + text;
    FindChar("HTTP/1.1", ' ', text);
  }

  lemma CodeIsFound(status: string, rest: string)
    requires 3 < |status| && status[3] == ' ' && ' ' !in status[..3] && OneLine(status)
    ensures var text := status + CRLF + rest;
            && Find(text, " ") == Some(3) && text[..3] == status[..3]
            && Find(text, CRLF) == Some(|status|) && text[|status|+2..] == rest
  {
    NoCRInside(status);
    hide *;
    assert status + CRLF + rest == status[..3] + [' '] + (status[4..] + CRLF + rest);
    FindChar(status[..3], ' ', status[4..] + CRLF + rest);
    FindCRLF(status, rest);
  }

  lemma StatusIsFound(code: int, rest: string)
    requires StatusText(code).Some?
    ensures var status := StatusText(code).value; var raw := "HTTP/1.1 " + status + CRLF + rest;
            var text := status + CRLF + rest;
            && Find(raw, " ") == Some(8) && raw[9..] == text
            && Find(text, " ") == Some(3) && StoI(text[..3]) == Some(code)
            && Find(text, CRLF) == Some(|status|) && text[|status|+2..] == rest
  {
    StatusNumber(code);
    hide *;
    var status := StatusText(code).value;
    var text := status + CRLF + rest;
    assert "HTTP/1.1 " + status + CRLF + rest == "HTTP/1.1 " + text;
    ProtocolIsFound(text);
    CodeIsFound(status, rest);
  }

  lemma WellFormedIsReadBack(r: ResponseValue, rd: Redirect)
    requires WellFormed(r)
    ensures Write(r).Some? && Parse(Write(r).value, rd) == Some(Parsed(r, AfterHeaders(rd, r.code, r.headers)))
  {
    hide Find, StoI, ParseHeaders, AfterHeaders, HeaderOk;
    var rest := Request.WriteHeaders(r.headers) + CRLF + r.body;
    assert Write(r).value == "HTTP/1.1 " + StatusText(r.code).value + CRLF + rest;
    StatusIsFound(r.code, rest);
    WrittenHeaders(r.headers, r.code, r.body, [], rd);
    assert [] + r.headers == r.headers;
  }

  /** Writing a response and parsing the text gives the response back exactly when the response is well formed, and
      the proxy then remembers the redirects that the headers ask for. */
  lemma WriteThenParse(r: ResponseValue, rd: Redirect)
    requires Write(r).Some?
    ensures var p := Parse(Write(r).value, rd);
            && ((p.Some? && p.value.response == r) <==> WellFormed(r))
            && (WellFormed(r) ==> p.value.redirect == AfterHeaders(rd, r.code, r.headers))
  {
    hide Find, StoI, ParseHeaders, AfterHeaders, HeaderOk;
    if WellFormed(r) { WellFormedIsReadBack(r, rd); }
    var p := Parse(Write(r).value, rd);
    if p.Some? && p.value.response == r { ParsedIsOk(Write(r).value, rd); }
  }

  lemma ParsedIsOk(raw: string, rd: Redirect)
    requires Parse(raw, rd).Some?
    ensures var r := Parse(raw, rd).value.response; forall h :: h in r.headers ==> HeaderOk(r.code, h)
  {
    hide ParseHeaders, HeaderOk;
    var text := AfterSpace(raw);
    ParsedHeadersAreOk(text[Find(text, CRLF).value+2..], StoI(BeforeSpace(text)).value, [], rd);
  }

  lemma {:induction false} NoRedirect(rd: Redirect, code: int, headers: Headers)
    requires forall h :: h in headers ==> !IsRedirect(code, h.0)
    ensures AfterHeaders(rd, code, headers) == rd
    decreases |headers|
  {
    if headers != [] {
      assert headers[0] in headers;
      NoRedirect(rd, code, headers[1..]);
    }
  }
}
