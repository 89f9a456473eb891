/** Exactly which texts survive being escaped and restored. */
module MarkdownRestoring {
  import opened Wrappers
  import opened Streams
  import opened Utils
  import opened MarkdownEscapes

  // ----- Placeholders that the text itself begins -----

  /** No mark of the text begins a placeholder once the text is escaped. */
  predicate Clean(s: string) {
    forall i :: 0 <= i < |s| && s[i] == MARK ==> MatchAt(Escape(s[i..])) == None
  }

  lemma RestoreUnmatched(s: string, c: char, t: string, replacements: seq<string>)
    requires s == [c] + t && MatchAt(s) == None
    ensures Restore(s, replacements) == Append([c], Restore(t, replacements))
  {
    hide MatchAt;
    assert s[1..] == t;
  }

  lemma NoMatchWithoutMark(s: string)
    requires s != "" && s[0] != MARK
    ensures MatchAt(s) == None
  {
  }

  lemma CleanRest(s: string, k: nat)
    requires Clean(s) && k <= |s|
    ensures Clean(s[k..])
  {
    forall i | 0 <= i < |s[k..]| && s[k..][i] == MARK
      ensures MatchAt(Escape(s[k..][i..])) == None
    {
      assert s[k..][i..] == s[k+i..];
    }
  }

  /** A character that is escaped alone and begins no placeholder is restored as it is. */
  lemma RestoreAlone(s: string, replacements: seq<string>)
    requires Alone(s) && (s[0] == MARK ==> MatchAt(Escape(s)) == None)
    ensures Restore(Escape(s), replacements) == Append([s[0]], Restore(Escape(s[1..]), replacements))
  {
    EscapeAlone(s);
    hide Escape, Restore, MatchAt;
    if s[0] != MARK { NoMatchWithoutMark(Escape(s)); }
    RestoreUnmatched(Escape(s), s[0], Escape(s[1..]), replacements);
  }

  lemma RestoreTogether(s: string, replacements: seq<string>)
    requires s != "" && !Alone(s)
    ensures 2 <= |s| && Restore(Escape(s), replacements) == Append(s[..2], Restore(Escape(s[2..]), replacements))
  {
    EscapeTogether(s);
    var pair, rest := s[..2], s[2..];
    assert pair == ['\\', s[1]];
    hide *;
    RestorePair(s[1], Escape(rest), replacements);
  }

  lemma AppendParts(s: string, k: nat)
    requires k <= |s|
    ensures Append(s[..k], Some(s[k..])) == Some(s)
  {
    assert s == s[..k] + s[k..];
  }

  lemma {:induction false} CleanIsRestored(s: string, replacements: seq<string>)
    requires Clean(s)
    ensures Restore(Escape(s), replacements) == Some(s)
    decreases |s|
  {
    if s != "" {
      assert s[0] == MARK ==> MatchAt(Escape(s)) == None by { assert s[0..] == s; }
      if Alone(s) {
        CleanRest(s, 1);
        hide Clean, Escape, Restore, Alone, MatchAt;
        CleanIsRestored(s[1..], replacements);
        RestoreAlone(s, replacements);
        assert s == [s[0]] + s[1..];
      } else {
        CleanRest(s, 2);
        hide *;
        RestoreTogether(s, replacements);
        CleanIsRestored(s[2..], replacements);
        AppendParts(s, 2);
      }
    }
  }

  // ----- Weighing a text -----

  /** The marks and the characters that can be escaped. */
  predicate Heavy(c: char) {
    c == MARK || EscapedIndex(c).Some?
  }

  function Weight(s: string): nat {
    if s == "" then 0 else (if Heavy(s[0]) then 1 else 0) + Weight(s[1..])
  }

  lemma {:induction false} WeightConcat(a: string, b: string)
    ensures Weight(a + b) == Weight(a) + Weight(b)
  {
    hide Heavy;
    if a == "" {
      assert a + b == b;
    } else {
      assert (a + b)[1..] == a[1..] + b;
      WeightConcat(a[1..], b);
    }
  }

  lemma {:induction false} Weightless(s: string)
    requires forall i :: 0 <= i < |s| ==> !Heavy(s[i])
    ensures Weight(s) == 0
  {
    hide Heavy;
    if s != "" { Weightless(s[1..]); }
  }

  lemma WeightOfOne(c: char)
    ensures Weight([c]) == if Heavy(c) then 1 else 0
  {
    hide Heavy;
    assert [c][1..] == "";
  }

  // ----- What is left when a placeholder of the text swallows the start of another -----

  /** The rest of the placeholder of an escaped character after its first mark. */
  function Remains(e: nat): string {
    "@#" + Decimal(e) + "@escaped" + [MARK]
  }

  predicate Light(s: string) {
    forall i :: 0 <= i < |s| ==> s[i] == '@' || IsDigit(s[i]) || 'a' <= s[i] <= 'z'
  }

  lemma LightIsWeightless(s: string)
    requires Light(s)
    ensures Weight(s) == 0
  {
    forall i | 0 <= i < |s|
      ensures !Heavy(s[i])
    {
      NotInTable(s[i]);
    }
    hide Heavy;
    Weightless(s);
  }

  lemma LightRemains(e: nat)
    ensures Weight(Decimal(e) + "@escaped") == 0 && Weight("@") == 0 && '\\' !in Decimal(e)
  {
    NumberOfDecimal(e);
    assert forall i :: 0 <= i < |Decimal(e)| ==> IsDigit(Decimal(e)[i]);
    hide Decimal;
    LightIsWeightless(Decimal(e) + "@escaped");
    LightIsWeightless("@");
  }

  lemma WeightOfRemains(e: nat)
    ensures Weight(Remains(e)) <= 2
  {
    LightRemains(e);
    hide Decimal, Weight, Heavy;
    WeightOfOne('#');
    WeightOfOne(MARK);
    var tail := Decimal(e) + "@escaped";
    WeightConcat("@", "#");
    WeightConcat("@#", tail);
    WeightConcat("@#" + tail, [MARK]);
    assert "@" + "#" == "@#" && Remains(e) == "@#" + tail + [MARK];
  }

  // ----- What follows a placeholder that the text itself begins -----

  lemma PairRemains(c: char)
    requires EscapedIndex(c).Some?
    ensures EscapedPair(c) == [MARK] + Remains(EscapedIndex(c).value) && Heavy(c)
  {
    hide Decimal, EscapedIndex;
    var e := EscapedIndex(c).value;
    assert "#" + Decimal(e) + ("@" + "escaped" + [MARK]) == "#" + Decimal(e) + "@escaped" + [MARK];
    assert EscapedPair(c) == [MARK, '@'] + ("#" + Decimal(e) + ("@" + "escaped" + [MARK]));
    assert Remains(e) == "@" + ("#" + Decimal(e) + "@escaped" + [MARK]);
  }

  lemma WeightUnfolds(s: string)
    requires s != ""
    ensures Weight(s) == (if Heavy(s[0]) then 1 else 0) + Weight(s[1..])
  {
    hide Heavy;
  }

  lemma WeightOfPair(s: string)
    requires s != "" && !Alone(s)
    ensures 2 <= |s| && Weight(s) == 2 + Weight(s[2..])
  {
    EscapeTogether(s);
    PairRemains(s[1]);
    BackslashIsHeavy();
    hide *;
    WeightUnfolds(s);
    WeightUnfolds(s[1..]);
    assert s[1..][1..] == s[2..];
  }

  lemma BackslashIsHeavy()
    ensures Heavy('\\') && Heavy('#') && Heavy(MARK)
  {
  }

  lemma StartsWithMark(z: string)
    requires z != "" && !Alone(z)
    ensures Escape(z) != "" && Escape(z)[0] == MARK
  {
    EscapeTogether(z);
    PairRemains(z[1]);
    hide Escape, EscapedPair;
  }

  lemma FirstCopied(z: string)
    requires Escape(z) != "" && Escape(z)[0] != MARK
    ensures z != "" && Escape(z) == [z[0]] + Escape(z[1..])
  {
    EscapeLast();
    hide Escape, Alone;
    if z != "" {
      if Alone(z) { EscapeAlone(z); } else { StartsWithMark(z); }
    }
  }

  /** Characters at the start of the escaped text that are no marks are characters of the text. */
  lemma {:induction false} PrefixCopied(p: string, z: string)
    requires p <= Escape(z) && MARK !in p && '\\' !in p
    ensures p <= z && Escape(z) == p + Escape(z[|p|..])
  {
    hide Escape;
    if p == "" {
      assert z[0..] == z && p + Escape(z) == Escape(z);
    } else {
      assert p[0] == Escape(z)[0];
      FirstCopied(z);
      assert p == [p[0]] + p[1..] && z == [z[0]] + z[1..];
      assert p[1..] <= Escape(z)[1..] == Escape(z[1..]);
      PrefixCopied(p[1..], z[1..]);
      assert z[1..][|p|-1..] == z[|p|..];
    }
  }

  /** After the next mark of the escaped text comes an escaped text that is not heavier. */
  lemma {:induction false} AfterNextMark(w: string) returns (y: string)
    ensures Weight(y) <= Weight(w)
    ensures var k := IndexOf(Escape(w), MARK); k < |Escape(w)| ==> Escape(w)[k+1..] == Escape(y)
    decreases |w|
  {
    EscapeLast();
    if w == "" {
      y := "";
    } else if !Alone(w) {
      y := AfterPairStart(w);
    } else {
      hide *;
      EscapeAlone(w);
      WeightUnfolds(w);
      MarkLater(w[0], Escape(w[1..]));
      if w[0] == MARK {
        y := w[1..];
      } else {
        y := AfterNextMark(w[1..]);
      }
    }
  }

  lemma MarkLater(c: char, rest: string)
    ensures var s := [c] + rest; var n := IndexOf(rest, MARK);
            if c == MARK then IndexOf(s, MARK) == 0 && s[1..] == rest
            else IndexOf(s, MARK) == n + 1 && (n < |rest| ==> s[n+2..] == rest[n+1..])
  {
    assert ([c] + rest)[1..] == rest;
  }

  lemma RemainsShape(e: nat, t: string)
    ensures '\\' !in Remains(e) && Remains(e) != "" && IndexOf(Remains(e) + t, MARK) == |Remains(e)| - 1
  {
    NumberOfDecimal(e);
    var front := "@#" + Decimal(e) + "@escaped";
    assert forall i :: 0 <= i < |Decimal(e)| ==> IsDigit(Decimal(e)[i]);
    hide Decimal, IndexOf;
    var s := Remains(e) + t;
    assert s[..|front|] == front && s[|front|] == MARK;
    FirstIndex(s, MARK, |front|);
  }

  /** The escaped text of a text that begins with an escaped pair. */
  lemma PairFirst(w: string) returns (e: nat)
    requires w != "" && !Alone(w)
    ensures 2 <= |w| && Escape(w) == [MARK] + (Remains(e) + Escape(w[2..])) && Weight(w) == 2 + Weight(w[2..])
  {
    hide *;
    EscapeTogether(w);
    PairRemains(w[1]);
    WeightOfPair(w);
    e := EscapedIndex(w[1]).value;
    assert [MARK] + Remains(e) + Escape(w[2..]) == [MARK] + (Remains(e) + Escape(w[2..]));
  }

  /** The start of an escaped pair is swallowed: its remains become part of the text. */
  lemma AfterPairStart(w: string) returns (y: string)
    requires w != "" && !Alone(w)
    ensures |Escape(w)| > 0 && IndexOf(Escape(w), MARK) == 0
    ensures Escape(w)[1..] == Escape(y) && Weight(y) <= Weight(w)
  {
    hide *;
    var e := PairFirst(w);
    FirstIndex(Escape(w), MARK, 0);
    y := Remains(e) + w[2..];
    RemainsShape(e, "");
    WeightOfRemains(e);
    WeightConcat(Remains(e), w[2..]);
    EscapeCopies(Remains(e), w[2..]);
  }

  /** After the placeholder of the text is closed, with one character at least between, comes an escaped text that is not
      heavier. */
  lemma AfterClosing(z: string) returns (y: string)
    requires z != "" && Escape(z) != ""
    requires IndexOf(Escape(z)[1..], MARK) < |Escape(z)| - 1
    ensures Escape(z)[IndexOf(Escape(z)[1..], MARK)+2..] == Escape(y) && Weight(y) <= Weight(z)
  {
    if !Alone(z) {
      hide *;
      var e := PairFirst(z);
      RemainsShape(e, Escape(z[2..]));
      y := z[2..];
      assert Escape(z)[1..] == Remains(e) + Escape(y);
    } else {
      EscapeAlone(z);
      WeightUnfolds(z);
      hide *;
      assert Escape(z)[1..] == Escape(z[1..]);
      y := AfterNextMark(z[1..]);
      var k := IndexOf(Escape(z[1..]), MARK);
      assert Escape(z)[1..][k+1..] == Escape(z)[k+2..];
    }
  }

  // ----- A placeholder that the text itself begins -----

  /** The parts of a match. */
  lemma MatchParts(s: string)
    requires MatchAt(s).Some?
    ensures var (ref, end) := MatchAt(s).value; var q := 2 + |ref|;
            && q + 2 <= |s| && s[..q+1] == [MARK, '@'] + ref + "@"
            && end == q + 2 + IndexOf(s[q+2..], MARK) + 1 <= |s|
            && IsRef(ref)
  {
    hide IndexOf, DigitCount;
    var r := s[2..];
    var q := 2 + RefLength(r);
    assert s[2..q] == r[..q-2];
    if r != "" && r[0] == '#' {
      assert r[..q-2][1..] == r[1..][..q-3];
    }
  }

  /** The pattern: a mark and an at-sign, perhaps a number sign, digits, an at-sign, at least one character, and the first
      mark after that one. */
  ghost predicate Matches(s: string, ref: string, end: nat) {
    && |ref| + 5 <= end <= |s| && s[..|ref|+3] == "\U{0001}@" + ref + "@" && s[end-1] == '\U{0001}'
    && (forall i :: |ref| + 4 <= i < end - 1 ==> s[i] != '\U{0001}')
    && (forall i :: 0 <= i < |ref| ==> '0' <= ref[i] <= '9' || (i == 0 && ref[i] == '#'))
  }

  lemma RefSpelled(ref: string)
    ensures IsRef(ref) <==> forall i :: 0 <= i < |ref| ==> '0' <= ref[i] <= '9' || (i == 0 && ref[i] == '#')
  {
    if ref != "" && ref[0] == '#' {
      assert AllDigits(ref[1..]) <==> forall i :: 1 <= i < |ref| ==> IsDigit(ref[i]) by {
        assert forall i :: 1 <= i < |ref| ==> ref[i] == ref[1..][i-1];
      }
    }
  }

  lemma FirstMark(s: string, q: nat)
    requires q <= |s| && IndexOf(s[q..], MARK) < |s| - q
    ensures var k := q + IndexOf(s[q..], MARK); s[k] == MARK && forall i :: q <= i < k ==> s[i] != MARK
  {
    var n := IndexOf(s[q..], MARK);
    assert forall i :: q <= i < q + n ==> s[i] == s[q..][..n][i-q];
  }

  lemma FoundMatches(s: string, ref: string, end: nat)
    requires MatchAt(s) == Some((ref, end))
    ensures Matches(s, ref, end)
  {
    MatchParts(s);
    RefSpelled(ref);
    FirstMark(s, |ref| + 4);
    assert MARK == '\U{0001}';
    hide MatchAt, IsRef, IndexOf;
  }

  lemma MatchTogether(s: string, ref: string, kind: string, t: string)
    requires |ref| + 3 <= |s| - |t| - 1 && s[..|ref|+3] == [MARK, '@'] + ref + "@"
    requires kind == s[|ref|+3..|s|-|t|-1] && s[|s|-|t|-1] == MARK && t == s[|s|-|t|..]
    ensures s == Placeholder(ref, kind) + t
  {
    var n := |s| - |t|;
    assert s == s[..|ref|+3] + (kind + [MARK]) + t;
    assert Placeholder(ref, kind) == [MARK, '@'] + ref + "@" + (kind + [MARK]);
  }

  /** A match is found at the start of a text exactly when the text begins so. */
  lemma MatchIff(s: string, ref: string, end: nat)
    ensures MatchAt(s) == Some((ref, end)) <==> Matches(s, ref, end)
  {
    if MatchAt(s) == Some((ref, end)) { FoundMatches(s, ref, end); }
    if Matches(s, ref, end) {
      RefSpelled(ref);
      var kind, t := s[|ref|+3..end-1], s[end..];
      assert kind[1..] == s[|ref|+4..end-1];
      hide IsRef, MatchAt, Placeholder;
      MatchesRef(ref, kind, t);
      MatchTogether(s, ref, kind, t);
      PlaceholderThen(ref, kind, t);
    }
  }

  lemma RefIsPlain(ref: string)
    requires IsRef(ref)
    ensures MARK !in "@" + ref + "@" && '\\' !in "@" + ref + "@"
    ensures ref != "" && ref[0] != '#' ==> IsDigit(ref[0])
  {
    assert forall i :: 0 <= i < |ref| ==> ref[i] == '#' || IsDigit(ref[i]) by {
      if !AllDigits(ref) { assert forall i :: 1 <= i < |ref| ==> ref[i] == ref[1..][i-1]; }
    }
  }

  lemma LighterRef(ref: string)
    ensures Weight("@" + ref + "@") >= if ref != "" && ref[0] == '#' then 1 else 0
  {
    if ref != "" && ref[0] == '#' {
      BackslashIsHeavy();
      hide Heavy;
      var s := "@" + ref + "@";
      WeightUnfolds(s);
      WeightUnfolds(s[1..]);
    }
  }

  /** The head of a placeholder that a mark of the text begins stands in the text as it is. */
  lemma HeadStands(x: string) returns (z: string)
    requires x != "" && x[0] == MARK && MatchAt(Escape(x)).Some?
    ensures var head := [MARK, '@'] + MatchAt(Escape(x)).value.0 + "@";
            x == head + z && Escape(x) == head + Escape(z)
  {
    var ref := MatchAt(Escape(x)).value.0;
    MatchParts(Escape(x));
    RefIsPlain(ref);
    assert Alone(x);
    var p, rest := "@" + ref + "@", x[1..];
    assert x == [MARK] + rest;
    hide *;
    EscapeAlone(x);
    HeadPrefix(Escape(x), ref, Escape(rest));
    PrefixCopied(p, rest);
    z := rest[|p|..];
    PrefixThen(p, rest);
    HeadThen(x, rest, ref, z);
    HeadThen(Escape(x), Escape(rest), ref, Escape(z));
  }

  lemma PrefixThen(p: string, s: string)
    requires p <= s
    ensures s == p + s[|p|..]
  {
  }

  lemma HeadPrefix(s: string, ref: string, t: string)
    requires s == [MARK] + t && |ref| + 3 <= |s| && s[..|ref|+3] == [MARK, '@'] + ref + "@"
    ensures "@" + ref + "@" <= t
  {
    assert t == s[1..] && [MARK, '@'] + ref + "@" == [MARK] + ("@" + ref + "@");
    assert s[..|ref|+3][1..] == t[..|ref|+2];
  }

  lemma HeadThen(s: string, rest: string, ref: string, t: string)
    requires s == [MARK] + rest && rest == "@" + ref + "@" + t
    ensures s == [MARK, '@'] + ref + "@" + t
  {
    var head := [MARK, '@'] + ref + "@";
    assert head == [MARK] + ("@" + ref + "@");
  }

  lemma WeightOfHead(ref: string, z: string)
    ensures Weight([MARK, '@'] + ref + "@" + z) >= 1 + (if ref != "" && ref[0] == '#' then 1 else 0) + Weight(z)
  {
    BackslashIsHeavy();
    LighterRef(ref);
    hide *;
    WeightConcat([MARK] + ("@" + ref + "@"), z);
    WeightConcat([MARK], "@" + ref + "@");
    WeightOfOne(MARK);
    assert [MARK, '@'] + ref + "@" == [MARK] + ("@" + ref + "@");
  }

  /** What follows a placeholder that a mark of the text begins is the escaped form of a lighter text. */
  lemma AfterForeign(x: string) returns (y: string)
    requires x != "" && x[0] == MARK && MatchAt(Escape(x)).Some?
    ensures var (ref, end) := MatchAt(Escape(x)).value;
            && Escape(x)[end..] == Escape(y)
            && Weight(y) + 1 + (if ref != "" && ref[0] == '#' then 1 else 0) <= Weight(x)
  {
    var (ref, end) := MatchAt(Escape(x)).value;
    EscapeLast();
    hide *;
    var z := HeadStands(x);
    MatchParts(Escape(x));
    WeightOfHead(ref, z);
    ClosingPlace(Escape(x), [MARK, '@'] + ref + "@", Escape(z), end);
    y := AfterClosing(z);
  }

  lemma ClosingPlace(e: string, head: string, t: string, end: nat)
    requires e == head + t && |head| < |e| && end == |head| + 1 + IndexOf(e[|head|+1..], MARK) + 1 <= |e|
    ensures t != "" && e[|head|+1..] == t[1..] && IndexOf(t[1..], MARK) < |t| - 1
    ensures e[end..] == t[IndexOf(t[1..], MARK)+2..]
  {
    hide IndexOf;
    assert e[|head|+1..] == t[1..];
  }

  lemma ForeignRef(ref: string)
    requires ref != "" && ref[0] != '#' && IsDigit(ref[0])
    ensures Restored(ref, []) == None
  {
  }

  lemma EscapedReplaced(ref: string)
    requires ref != "" && ref[0] == '#' && Restored(ref, []).Some?
    ensures Restored(ref, []).value[0] == '\\' && Weight(Restored(ref, []).value) <= 2
  {
    var t := Restored(ref, []).value;
    assert |t| == 2;
    hide Restored, Heavy;
    WeightUnfolds(t);
    WeightUnfolds(t[1..]);
    assert t[1..][1..] == "";
  }

  /** What a restored text of that form begins with: nothing of its own, or a backslash. */
  lemma RestoreForeign(x: string) returns (y: string, text: string)
    requires x != "" && x[0] == MARK && MatchAt(Escape(x)).Some?
    ensures |Escape(y)| < |Escape(x)|
    ensures Restore(Escape(x), []).Some? ==>
              && Restore(Escape(y), []).Some? && Restore(Escape(x), []).value == text + Restore(Escape(y), []).value
              && Weight(text) + Weight(y) <= Weight(x)
              && ((text == "" && Weight(y) < Weight(x)) || (text != "" && text[0] == '\\'))
  {
    var (ref, end) := MatchAt(Escape(x)).value;
    y := AfterForeign(x);
    MatchParts(Escape(x));
    text := if Restored(ref, []).Some? then Restored(ref, []).value else "";
    hide *;
    RestoreAfter(Escape(x), ref, end, Escape(y));
    AppendKeeps(text, Restore(Escape(y), []));
    if Restored(ref, []).Some? { ForeignText(ref); }
  }

  lemma RestoreAfter(s: string, ref: string, end: nat, t: string)
    requires MatchAt(s) == Some((ref, end)) && end <= |s| && s[end..] == t
    ensures |t| == |s| - end
    ensures Restore(s, []) ==
            if Restored(ref, []).None? then None else Append(Restored(ref, []).value, Restore(t, []))
  {
    hide *;
    assert s == s[..end] + t;
    RestoreMatch(s, ref, [], s[..end], t);
  }

  lemma AppendKeeps(a: string, b: Option<string>)
    ensures Append(a, b).Some? <==> b.Some?
    ensures b.Some? ==> Append(a, b).value == a + b.value
  {
  }

  /** Without replacements, a reference is restored to nothing or to a backslash and another character. */
  lemma ForeignText(ref: string)
    requires IsRef(ref) && Restored(ref, []).Some?
    ensures var text := Restored(ref, []).value;
            if ref == "" then text == "" && Weight(text) == 0
            else ref[0] == '#' && text != "" && text[0] == '\\' && Weight(text) <= 2
  {
    RefIsPlain(ref);
    RestoredNothing([]);
    hide *;
    if ref == "" {
      Weightless("");
    } else if ref[0] == '#' {
      EscapedReplaced(ref);
    } else {
      ForeignRef(ref);
    }
  }

  ghost predicate NotHeavier(x: string) {
    Restore(Escape(x), []).Some? ==> Weight(Restore(Escape(x), []).value) <= Weight(x)
  }

  lemma AloneNotHeavier(x: string)
    requires Alone(x) && (x[0] == MARK ==> MatchAt(Escape(x)) == None) && NotHeavier(x[1..])
    ensures NotHeavier(x)
  {
    RestoreAlone(x, []);
    hide Escape, Restore, Alone, Weight, Heavy, MatchAt;
    if Restore(Escape(x), []).Some? {
      var r := Restore(Escape(x[1..]), []).value;
      WeightUnfolds(x);
      WeightUnfolds([x[0]] + r);
      assert ([x[0]] + r)[1..] == r;
    }
  }

  lemma TogetherNotHeavier(x: string)
    requires x != "" && !Alone(x) && |x| >= 2 && NotHeavier(x[2..])
    ensures NotHeavier(x)
  {
    RestoreTogether(x, []);
    WeightOfPair(x);
    hide Escape, Restore, Alone, Weight, Heavy;
    if Restore(Escape(x), []).Some? {
      var r := Restore(Escape(x[2..]), []).value;
      WeightConcat(x[..2], x[2..]);
      WeightConcat(x[..2], r);
      assert x == x[..2] + x[2..];
    }
  }

  lemma EscapeShrinks(x: string)
    requires x != ""
    ensures Alone(x) ==> |Escape(x[1..])| < |Escape(x)|
    ensures !Alone(x) ==> 2 <= |x| && |Escape(x[2..])| < |Escape(x)|
  {
    if Alone(x) {
      EscapeAlone(x);
    } else {
      var e := PairFirst(x);
    }
    hide *;
  }

  /** Restoring makes a text no heavier. */
  lemma {:induction false} RestoredIsNotHeavier(x: string)
    ensures NotHeavier(x)
    decreases |Escape(x)|
  {
    if x == "" {
      RestoredNothing([]);
      EscapeLast();
    } else {
      EscapeShrinks(x);
      hide Escape, Restore, Alone, Weight, Heavy, MatchAt;
      if !Alone(x) {
        RestoredIsNotHeavier(x[2..]);
        TogetherNotHeavier(x);
      } else if x[0] != MARK || MatchAt(Escape(x)).None? {
        RestoredIsNotHeavier(x[1..]);
        AloneNotHeavier(x);
      } else if Restore(Escape(x), []).Some? {
        var y, text := RestoreForeign(x);
        RestoredIsNotHeavier(y);
        WeightConcat(text, Restore(Escape(y), []).value);
      }
    }
  }

  // ----- Exactly the clean texts are restored -----

  lemma AppendDiffers(a: string, r: Option<string>, t: string)
    requires r != Some(t)
    ensures Append(a, r) != Some(a + t)
  {
    if r.Some? { assert (a + r.value)[|a|..] == r.value && (a + t)[|a|..] == t; }
  }

  /** Where a mark begins a placeholder, the text is not restored. */
  lemma ForeignIsNotRestored(x: string)
    requires x != "" && x[0] == MARK && MatchAt(Escape(x)).Some?
    ensures Restore(Escape(x), []) != Some(x)
  {
    MarkIsNotEscaped();
    hide *;
    if Restore(Escape(x), []).Some? {
      var y, text := RestoreForeign(x);
      RestoredIsNotHeavier(y);
      LighterDiffers(text, Restore(Escape(y), []).value, x, y);
    }
  }

  lemma LighterDiffers(text: string, r: string, x: string, y: string)
    requires NotHeavier(y) && Restore(Escape(y), []) == Some(r) && x != "" && x[0] == MARK
    requires (text == "" && Weight(y) < Weight(x)) || (text != "" && text[0] == '\\')
    ensures text + r != x
  {
    hide Weight, Restore, Escape;
    if text == "" { assert text + r == r; } else { assert (text + r)[0] == '\\'; }
  }

  lemma {:induction false} UncleanIsNotRestored(x: string)
    ensures !Clean(x) ==> Restore(Escape(x), []) != Some(x)
    decreases |x|
  {
    if x != "" && x[0] == MARK && MatchAt(Escape(x)).Some? {
      ForeignIsNotRestored(x);
    } else if !Clean(x) {
      UncleanLater(x);
      hide *;
      if Alone(x) {
        RestoreAlone(x, []);
        UncleanIsNotRestored(x[1..]);
        AppendDiffers([x[0]], Restore(Escape(x[1..]), []), x[1..]);
        assert x == [x[0]] + x[1..];
      } else {
        RestoreTogether(x, []);
        UncleanIsNotRestored(x[2..]);
        AppendDiffers(x[..2], Restore(Escape(x[2..]), []), x[2..]);
        assert x == x[..2] + x[2..];
      }
    }
  }

  lemma UncleanLater(x: string)
    ensures Clean(x) || (x != "" && x[0] == MARK && MatchAt(Escape(x)).Some?) ||
            (x != "" && if Alone(x) then !Clean(x[1..]) else 2 <= |x| && !Clean(x[2..]))
  {
    if Clean(x) || (x != "" && x[0] == MARK && MatchAt(Escape(x)).Some?) { return; }
    var i :| 0 <= i < |x| && x[i] == MARK && MatchAt(Escape(x[i..])) != None;
    assert x[0..] == x;
    MarkIsNotEscaped();
    hide Escape, MatchAt, EscapedIndex;
    if Alone(x) {
      assert x[1..][i-1..] == x[i..] && x[1..][i-1] == MARK;
    } else {
      assert x[2..][i-2..] == x[i..] && x[2..][i-2] == MARK;
    }
  }

  /** A text is restored as it was, whatever has been replaced, exactly when no mark of it begins a placeholder once it is
      escaped; one that is not is not even restored where nothing has been replaced. */
  lemma RestoredIffClean(s: string)
    ensures Clean(s) ==> forall replacements :: Restore(Escape(s), replacements) == Some(s)
    ensures Restore(Escape(s), []) == Some(s) <==> Clean(s)
  {
    if Clean(s) {
      forall replacements
        ensures Restore(Escape(s), replacements) == Some(s)
      {
        CleanIsRestored(s, replacements);
      }
    } else {
      UncleanIsNotRestored(s);
    }
  }

  /** Without backslashes nothing is escaped, and the placeholders to avoid are those in the text itself. */
  lemma CleanWithoutBackslash(s: string)
    requires '\\' !in s
    ensures Clean(s) <==> forall i :: 0 <= i < |s| ==> MatchAt(s[i..]) == None
  {
    EscapeLast();
    forall i | 0 <= i < |s|
      ensures Escape(s[i..]) == s[i..] && (s[i] != MARK ==> MatchAt(s[i..]) == None)
    {
      hide Escape, MatchAt;
      EscapeCopies(s[i..], "");
      assert s[i..] + "" == s[i..];
      if s[i] != MARK { NoMatchWithoutMark(s[i..]); }
    }
    hide Escape, MatchAt;
  }

  /** The head of a placeholder stands at the start: a mark, a reference between at signs. */
  predicate HasHead(s: string) {
    [MARK, '@'] <= s && 2 + RefLength(s[2..]) < |s| && s[2 + RefLength(s[2..])] == '@'
  }

  /** A text with backslashes is clean if no head of a placeholder stands in it. */
  lemma NoHeadIsClean(s: string)
    requires forall i :: 0 <= i < |s| ==> !HasHead(s[i..])
    ensures Clean(s)
  {
    forall i | 0 <= i < |s| && s[i] == MARK
      ensures MatchAt(Escape(s[i..])) == None
    {
      hide Escape, MatchAt, HasHead;
      if MatchAt(Escape(s[i..])).Some? {
        var z := HeadStands(s[i..]);
        HeadIsHead(Escape(s[i..]), s[i..], z);
      }
    }
  }

  lemma HeadMeasured(ref: string, z: string)
    requires RefLength(ref + ("@" + z)) == |ref|
    ensures HasHead([MARK, '@'] + ref + "@" + z)
  {
    hide RefLength;
    var s := [MARK, '@'] + ref + "@" + z;
    assert s[2..] == ref + ("@" + z);
  }

  lemma HeadIsHead(e: string, s: string, z: string)
    requires MatchAt(e).Some? && s == [MARK, '@'] + MatchAt(e).value.0 + "@" + z
    ensures HasHead(s)
  {
    hide *;
    MatchParts(e);
    var ref := MatchAt(e).value.0;
    RefMeasured(ref, "@" + z);
    HeadMeasured(ref, z);
  }
}
