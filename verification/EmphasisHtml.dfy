/** The emphasis tags in the text that is written. */
module EmphasisHtml {
  import opened Wrappers
  import opened EmphasisModel
  import opened EmphasisNesting
  import T = EmphasisTermination

  /** The emphasis tag at the start of a text. */
  function TagAt(s: string): (t: Option<Tag>)
    ensures t.Some? ==> TagText(t.value) <= s
  {
    if "<em>" <= s then Some(OpenTag(Em))
    else if "<strong>" <= s then Some(OpenTag(Strong))
    else if "</em>" <= s then Some(CloseTag(Em))
    else if "</strong>" <= s then Some(CloseTag(Strong))
    else None
  }

  /** The emphasis tags in a text, found from left to right. */
  function Scan(s: string): seq<Tag> {
    if s == "" then []
    else
      match TagAt(s)
      case Some(t) => [t] + Scan(s[|TagText(t)|..])
      case None => Scan(s[1..])
  }

  lemma TagFound(t: Tag, rest: string)
    ensures TagAt(TagText(t) + rest) == Some(t)
  {
    var s := TagText(t) + rest;
    assert s[1] == TagText(t)[1] && s[2] == TagText(t)[2];
  }

  lemma NoTagFound(s: string)
    requires s != "" && s[0] != '<'
    ensures TagAt(s) == None
  {
  }

  lemma ScanTag(t: Tag, rest: string)
    ensures Scan(TagText(t) + rest) == [t] + Scan(rest)
  {
    assert TagText(t) != "";
    TagFound(t, rest);
    hide TagAt, TagText;
    assert (TagText(t) + rest)[|TagText(t)|..] == rest;
  }

  lemma {:induction false} ScanTags(tags: seq<Tag>, rest: string)
    ensures Scan(Render(tags) + rest) == tags + Scan(rest)
  {
    hide Scan, TagText;
    if tags == [] {
      assert Render(tags) + rest == rest;
    } else {
      ScanTag(tags[0], Render(tags[1..]) + rest);
      ScanTags(tags[1..], rest);
      assert Render(tags) + rest == TagText(tags[0]) + (Render(tags[1..]) + rest);
    }
  }

  lemma {:induction false} ScanPlain(s: string, rest: string)
    requires '<' !in s
    ensures Scan(s + rest) == Scan(rest)
  {
    if s == "" {
      assert s + rest == rest;
    } else {
      assert (s + rest)[0] == s[0] && (s + rest)[1..] == s[1..] + rest;
      NoTagFound(s + rest);
      hide TagAt, TagText;
      ScanPlain(s[1..], rest);
    }
  }

  /** No text of the list and no marker has an opening angle bracket. */
  predicate NoBrackets(ts: seq<Token>) {
    forall t :: t in ts ==> '<' !in Literal(t)
  }

  lemma ScanToken(t: Token, rest: string)
    requires '<' !in Literal(t)
    ensures Scan(Html(t) + rest) == Tags(t) + Scan(rest)
  {
    hide Scan, Render;
    if IsPaired(t) {
      ScanTags(Tags(t), rest);
    } else {
      ScanPlain(Literal(t), rest);
    }
  }

  lemma {:induction false} ScanHtml(ts: seq<Token>, rest: string)
    requires NoBrackets(ts)
    ensures Scan(HtmlOf(ts) + rest) == TagsOf(ts) + Scan(rest)
  {
    hide Scan, Html, Tags, Literal;
    if ts == [] {
      assert HtmlOf(ts) + rest == rest;
    } else {
      var front, t := ts[..|ts|-1], ts[|ts|-1];
      ScanToken(t, rest);
      ScanHtml(front, Html(t) + rest);
      assert HtmlOf(ts) + rest == HtmlOf(front) + (Html(t) + rest);
    }
  }

  /** The emphasis tags in the text that is written for a list are the tags of its markers, so they are balanced if its
      pairs nest. */
  lemma WrittenIsBalanced(ts: seq<Token>)
    requires NoBrackets(ts) && WellPaired(ts) && T.ProperSizes(ts)
    ensures Scan(HtmlOf(ts)) == TagsOf(ts) && (Nested(ts) ==> Balanced(Scan(HtmlOf(ts))))
  {
    ScanHtml(ts, "");
    assert Scan("") == [];
    hide Scan, Balanced, WellPaired, NoBrackets;
    assert HtmlOf(ts) + "" == HtmlOf(ts);
    if Nested(ts) { NestedIsBalanced(ts, Mates(ts)); }
  }

  lemma {:induction false} SourceWithoutBrackets(ts: seq<Token>)
    requires '<' !in Source(ts)
    ensures NoBrackets(ts)
  {
    hide Literal;
    if ts != [] {
      assert forall k :: 0 <= k < |Source(ts[1..])| ==> Source(ts[1..])[k] == Source(ts)[|Literal(ts[0])| + k];
      SourceWithoutBrackets(ts[1..]);
      assert forall t :: t in ts ==> t == ts[0] || t in ts[1..];
    }
  }

  // ----- The characters that are written -----

  /** A marker of size 1 is written as em, one of size 2 as strong and one of size 3 as em in strong; a free marker is
      written as its characters, a disabled one as nothing, and text as it is. */
  lemma MarkerHtml(c: char, id: nat)
    ensures Html(Marker(true, c, 1, Paired(id))) == "<em>" && Html(Marker(false, c, 1, Paired(id))) == "</em>"
    ensures Html(Marker(true, c, 2, Paired(id))) == "<strong>" && Html(Marker(false, c, 2, Paired(id))) == "</strong>"
    ensures Html(Marker(true, c, 3, Paired(id))) == "<strong><em>"
    ensures Html(Marker(false, c, 3, Paired(id))) == "</em></strong>"
    ensures forall open :: Html(Marker(open, c, 1, Free)) == [c]
    ensures forall open :: Html(Marker(open, c, 2, Free)) == [c, c]
    ensures forall open :: Html(Marker(open, c, 3, Free)) == [c, c, c]
    ensures forall open, size :: Html(Marker(open, c, size, Disabled)) == ""
    ensures forall text :: Html(Text(text)) == text
  {
    RenderFew(OpenTag(Em), OpenTag(Em));
    RenderFew(OpenTag(Strong), OpenTag(Em));
    RenderFew(CloseTag(Em), CloseTag(Strong));
    RenderFew(CloseTag(Strong), CloseTag(Em));
  }

  /** The text without the emphasis tags found in it. */
  function Strip(s: string): string {
    if s == "" then ""
    else
      match TagAt(s)
      case Some(t) => Strip(s[|TagText(t)|..])
      case None => [s[0]] + Strip(s[1..])
  }

  lemma StripTag(t: Tag, rest: string)
    ensures Strip(TagText(t) + rest) == Strip(rest)
  {
    assert TagText(t) != "";
    TagFound(t, rest);
    hide TagAt, TagText;
    assert (TagText(t) + rest)[|TagText(t)|..] == rest;
  }

  lemma {:induction false} StripTags(tags: seq<Tag>, rest: string)
    ensures Strip(Render(tags) + rest) == Strip(rest)
  {
    hide Strip, TagText;
    if tags == [] {
      assert Render(tags) + rest == rest;
    } else {
      StripTag(tags[0], Render(tags[1..]) + rest);
      StripTags(tags[1..], rest);
      assert Render(tags) + rest == TagText(tags[0]) + (Render(tags[1..]) + rest);
    }
  }

  lemma StripCharacter(c: char, rest: string)
    requires c != '<'
    ensures Strip([c] + rest) == [c] + Strip(rest) && Strip("") == ""
  {
    NoTagFound([c] + rest);
    hide TagAt, TagText;
    assert ([c] + rest)[1..] == rest;
  }

  lemma {:induction false} StripPlain(s: string, rest: string)
    requires '<' !in s
    ensures Strip(s + rest) == s + Strip(rest)
  {
    hide *;
    if s == "" {
      assert s + rest == rest && s + Strip(rest) == Strip(rest);
    } else {
      StripPlain(s[1..], rest);
      StripCharacter(s[0], s[1..] + rest);
      assert s + rest == [s[0]] + (s[1..] + rest);
      assert s + Strip(rest) == [s[0]] + (s[1..] + Strip(rest));
    }
  }

  /** The source characters of the tokens that are not paired, in order. */
  function Unpaired(ts: seq<Token>): string {
    if ts == [] then "" else (if IsPaired(ts[0]) then "" else Literal(ts[0])) + Unpaired(ts[1..])
  }

  lemma StripToken(t: Token, rest: string)
    requires '<' !in Literal(t)
    ensures Strip(Html(t) + rest) == (if IsPaired(t) then "" else Literal(t)) + Strip(rest)
  {
    hide Strip, Render;
    if IsPaired(t) { StripTags(Tags(t), rest); } else { StripPlain(Literal(t), rest); }
  }

  lemma {:induction false} HtmlFirst(t: Token, ts: seq<Token>)
    ensures HtmlOf([t] + ts) == Html(t) + HtmlOf(ts)
  {
    hide Html;
    var all, n := [t] + ts, |ts|;
    if ts == [] {
      assert all == [t] && all[..0] == [] && HtmlOf([]) == "";
    } else {
      assert all[..n] == [t] + ts[..n-1] && all[n] == ts[n-1];
      HtmlFirst(t, ts[..n-1]);
    }
  }

  /** The text that is written is the source with the paired markers taken out and tags put in: without the tags it is,
      in order, the characters of the tokens that are not paired. */
  lemma {:induction false} StrippedIsUnpaired(ts: seq<Token>)
    requires NoBrackets(ts)
    ensures Strip(HtmlOf(ts)) == Unpaired(ts)
  {
    StripCharacter(' ', "");
    hide Html, Literal, Strip;
    if ts != [] {
      assert ts == [ts[0]] + ts[1..];
      HtmlFirst(ts[0], ts[1..]);
      StripToken(ts[0], HtmlOf(ts[1..]));
      StrippedIsUnpaired(ts[1..]);
    }
  }

  /** A list without pairs is written as its source, whatever is in it. */
  lemma {:induction false} UnpairedIsSource(ts: seq<Token>)
    requires forall t :: t in ts ==> !IsPaired(t)
    ensures HtmlOf(ts) == Source(ts)
  {
    if ts != [] {
      assert ts == [ts[0]] + ts[1..];
      HtmlFirst(ts[0], ts[1..]);
      UnpairedIsSource(ts[1..]);
      hide HtmlOf;
      assert !IsPaired(ts[0]);
    }
  }

  /** From the source to the text that is written: if no character of the source is an opening angle bracket, every
      emphasis tag found in the text is one that was written for a marker, the tags balance, and without them the text is
      the source without the paired markers. */
  lemma SourceIsWrittenBalanced(ts: seq<Token>, n: nat)
    requires T.ProperSizes(ts) && (forall t :: t in ts ==> !IsPaired(t)) && Run(Start(ts), n).Done?
    requires '<' !in Source(ts)
    ensures var end := Run(Start(ts), n).tokens;
            && WellPaired(end) && Scan(HtmlOf(Uncross(end))) == TagsOf(Uncross(end)) && Balanced(Scan(HtmlOf(Uncross(end))))
            && Strip(HtmlOf(Uncross(end))) == Unpaired(Uncross(end))
  {
    hide *;
    PairedThenUncrossed(ts, n);
    var end := Run(Start(ts), n).tokens;
    SourceWithoutBrackets(Uncross(end));
    WrittenIsBalanced(Uncross(end));
    StrippedIsUnpaired(Uncross(end));
  }
}
