/** Splitting a line into fields and reading the lines of a message. */
module Utils {
  import opened Streams

  // ----- Numbers -----

  predicate IsDigit(c: char) {
    '0' <= c <= '9'
  }

  function Decimal(n: nat): string {
    if n < 10 then [('0' as int + n) as char] else Decimal(n / 10) + [('0' as int + n % 10) as char]
  }

  predicate AllDigits(s: string) {
    forall i :: 0 <= i < |s| ==> IsDigit(s[i])
  }

  function Number(digits: string): nat
    requires AllDigits(digits)
  {
    if digits == "" then 0
    else
      var c := digits[|digits|-1];
      assert IsDigit(c);
      Number(digits[..|digits|-1]) * 10 + (c as int - '0' as int)
  }

  lemma {:induction false} NumberOfDecimal(n: nat)
    ensures Decimal(n) != "" && AllDigits(Decimal(n)) && Number(Decimal(n)) == n
  {
    if 10 <= n {
      NumberOfDecimal(n / 10);
      assert Decimal(n)[..|Decimal(n)|-1] == Decimal(n / 10);
    } else {
      assert Decimal(n)[..0] == "";
    }
  }

  /** The conversion of a number to a signed 32-bit one, which keeps its low 32 bits. */
  function ToInt32(n: int): (r: int)
    ensures -0x8000_0000 <= r < 0x8000_0000 && (r - n) % 0x1_0000_0000 == 0
  {
    var m := n % 0x1_0000_0000;
    if m < 0x8000_0000 then m else m - 0x1_0000_0000
  }

  // ----- Splitting -----

  /** The fields of a line: an empty field at the very end is dropped, other empty fields are kept. */
  function Split(line: string, delim: char): seq<string>
    decreases |line|
  {
    if line == "" then []
    else
      var k := IndexOf(line, delim);
      if k == |line| then [line] else [line[..k]] + Split(line[k+1..], delim)
  }

  lemma {:induction false} FieldsAreClean(line: string, delim: char)
    ensures forall f :: f in Split(line, delim) ==> delim !in f
    decreases |line|
  {
    if line != "" {
      var k := IndexOf(line, delim);
      if k == |line| {
        assert line[..k] == line;
      } else {
        FieldsAreClean(line[k+1..], delim);
      }
    }
  }

  lemma SplitUnfolds(line: string, delim: char)
    ensures Split("", delim) == []
    ensures var k := IndexOf(line, delim);
            line != "" ==> Split(line, delim) == [line[..k]] + Split(if k < |line| then line[k+1..] else "", delim)
  {
    hide IndexOf;
    assert line[..|line|] == line;
  }

  method SplitLine(line: string, delim: char) returns (v: seq<string>)
    ensures v == Split(line, delim)
  {
    hide Split, IndexOf;
    var ss := new InputStream(line);
    v := [];
    ghost var left := Split(line, delim);
    while true
      invariant fresh(ss) && ss.Valid()
      invariant left == Split(ss.Rest(), delim) && v + left == Split(line, delim)
      decreases |ss.Rest()|
    {
      SplitUnfolds(ss.Rest(), delim);
      var more, next := ss.GetLine(delim);
      if !more { break; }
      assert v + left == v + [next] + left[1..];
      v, left := v + [next], left[1..];
    }
  }

  lemma SplitFirst(field: string, delim: char, rest: string)
    requires delim !in field
    ensures Split(field + [delim] + rest, delim) == [field] + Split(rest, delim)
  {
    var line := field + [delim] + rest;
    assert line[..|field|] == field && line[|field|+1..] == rest;
    FirstIndex(line, delim, |field|);
  }

  lemma SplitLast(field: string, delim: char)
    requires delim !in field && field != ""
    ensures Split(field, delim) == [field]
  {
  }

  /** The first field goes up to the delimiter or to the end of the line; the others are those of the rest. */
  lemma FirstField(line: string, delim: char)
    ensures Split(line, delim) == [] <==> line == ""
    ensures line != "" ==>
              var v := Split(line, delim);
              && |v[0]| <= |line| && line[..|v[0]|] == v[0] && (|v[0]| < |line| ==> line[|v[0]|] == delim)
              && v[1..] == Split(if |v[0]| < |line| then line[|v[0]|+1..] else "", delim)
  {
    SplitUnfolds(line, delim);
    if line != "" { assert Split(line, delim)[0] == line[..IndexOf(line, delim)]; }
  }

  lemma SplitOne(line: string, delim: char, a: string)
    ensures Split(line, delim) == [a] <==> delim !in a && (line == a + [delim] || (a != "" && line == a))
  {
    FirstField(line, delim);
    SplitUnfolds("", delim);
    hide Split;
    if Split(line, delim) == [a] {
      FieldsAreClean(line, delim);
      assert a in [a];
      if |a| < |line| {
        FirstField(line[|a|+1..], delim);
        assert line == line[..|a|] + [delim] + line[|a|+1..];
      }
    }
    if delim !in a && line == a + [delim] {
      assert line == a + [delim] + "";
      SplitFirst(a, delim, "");
    }
    if delim !in a && a != "" && line == a { SplitLast(a, delim); }
  }

  /** The lines with two fields: an empty field at the end does not show. */
  lemma SplitTwo(line: string, delim: char, a: string, b: string)
    ensures Split(line, delim) == [a, b] <==>
            delim !in a && delim !in b && (line == a + [delim] + b + [delim] || (b != "" && line == a + [delim] + b))
  {
    if Split(line, delim) == [a, b] { TwoFields(line, delim, a, b); }
    hide Split;
    if delim !in a && delim !in b { JoinedTwo(delim, a, b); }
  }

  lemma JoinedTwo(delim: char, a: string, b: string)
    requires delim !in a && delim !in b
    ensures Split(a + [delim] + b + [delim], delim) == [a, b]
    ensures b != "" ==> Split(a + [delim] + b, delim) == [a, b]
  {
    hide Split;
    SplitFirst(a, delim, b);
    SplitFirst(a, delim, b + [delim]);
    SplitOne(b, delim, b);
    SplitOne(b + [delim], delim, b);
    hide *;
    assert a + [delim] + b + [delim] == a + [delim] + (b + [delim]) && [a] + [b] == [a, b];
  }

  lemma TwoFields(line: string, delim: char, a: string, b: string)
    requires Split(line, delim) == [a, b]
    ensures delim !in a && delim !in b && (line == a + [delim] + b + [delim] || (b != "" && line == a + [delim] + b))
  {
    FirstField(line, delim);
    FieldsAreClean(line, delim);
    SplitUnfolds("", delim);
    hide Split;
    assert a in [a, b] && [a, b][1..] == [b];
    var rest := line[|a|+1..];
    assert line == a + [delim] + rest;
    SplitOne(rest, delim, b);
    assert a + [delim] + (b + [delim]) == a + [delim] + b + [delim];
  }

  function Join(fields: seq<string>, delim: char): string {
    if fields == [] then ""
    else if |fields| == 1 then fields[0]
    else fields[0] + [delim] + Join(fields[1..], delim)
  }

  /** Splitting undoes joining exactly when the last field is not empty. */
  lemma {:induction false} SplitJoin(fields: seq<string>, delim: char)
    requires forall f :: f in fields ==> delim !in f
    ensures Split(Join(fields, delim), delim) == fields <==> fields == [] || fields[|fields|-1] != ""
    decreases |fields|
  {
    if |fields| == 1 {
      if fields[0] != "" { SplitLast(fields[0], delim); }
    } else if 1 < |fields| {
      SplitFirst(fields[0], delim, Join(fields[1..], delim));
      SplitJoin(fields[1..], delim);
    }
  }

  // ----- Lines that end in CR LF -----

  /** A line without the line feed, and without the carriage return before it, and the text after the line. */
  datatype Line = Line(text: string, rest: string)

  function ChopCR(s: string): string {
    if s != "" && s[|s|-1] == '\r' then s[..|s|-1] else s
  }

  function CRLFLine(s: string): (l: Line)
    ensures s != "" ==> |l.rest| < |s|
    ensures s == "" ==> l.text == ""
  {
    var k := IndexOf(s, '\n');
    Line(ChopCR(s[..k]), if k < |s| then s[k+1..] else "")
  }

  method GetCRLFLine(ss: InputStream) returns (line: string)
    requires ss.Valid()
    modifies ss
    ensures ss.Valid() && Line(line, ss.Rest()) == CRLFLine(old(ss.Rest()))
  {
    var ok, l := ss.GetLine('\n');
    if ok {
      line := l;
      if line != "" && line[|line|-1] == '\r' { line := line[..|line|-1]; }
    } else {
      line := "";
    }
  }

  /** A line that is written with CR LF is read back as it was, even if it ends in a carriage return itself. */
  lemma WrittenLine(line: string, rest: string)
    requires '\n' !in line
    ensures CRLFLine(line + "\r\n" + rest) == Line(line, rest)
  {
    var s := line + "\r\n" + rest;
    assert s[..|line|+1] == line + ['\r'] && s[|line|+2..] == rest;
    FirstIndex(s, '\n', |line| + 1);
  }

  /** A line can also end in a line feed alone, or with the text. */
  lemma BareLine(line: string, rest: string)
    requires '\n' !in line && (line != "" ==> line[|line|-1] != '\r')
    ensures CRLFLine(line + "\n" + rest) == Line(line, rest) && CRLFLine(line) == Line(line, "")
  {
    var s := line + "\n" + rest;
    assert s[..|line|] == line && s[|line|+1..] == rest && line[..|line|] == line;
    FirstIndex(s, '\n', |line|);
    FirstIndex(line, '\n', |line|);
  }

  lemma LineIsClean(s: string)
    ensures '\n' !in CRLFLine(s).text
  {
  }

  // ----- Headers -----

  type Headers = seq<(string, string)>

  function DropSpaces(s: string): (r: string)
    ensures r == "" || r[0] != ' '
  {
    if s != "" && s[0] == ' ' then DropSpaces(s[1..]) else s
  }

  lemma {:induction false} DropSpacesIsSuffix(s: string)
    ensures forall c :: c in DropSpaces(s) ==> c in s
  {
    if s != "" && s[0] == ' ' { DropSpacesIsSuffix(s[1..]); }
  }

  predicate AllSpaces(s: string) {
    forall i :: 0 <= i < |s| ==> s[i] == ' '
  }

  lemma {:induction false} SpacesDropped(sp: string, rest: string)
    requires AllSpaces(sp) && (rest != "" ==> rest[0] != ' ')
    ensures DropSpaces(sp + rest) == rest
  {
    if sp == "" {
      assert sp + rest == rest;
    } else {
      assert (sp + rest)[1..] == sp[1..] + rest;
      SpacesDropped(sp[1..], rest);
    }
  }

  lemma {:induction false} SpacesBefore(s: string) returns (sp: string)
    ensures AllSpaces(sp) && s == sp + DropSpaces(s)
  {
    if s != "" && s[0] == ' ' {
      var more := SpacesBefore(s[1..]);
      sp := " " + more;
      assert s == [s[0]] + s[1..];
    } else {
      sp := "";
    }
  }
}
