/** Short lists that share a marker of size 3 between two smaller ones: how the loops pair them, and that the two pairs
    can cross if the marker is split for a marker of another character. */
module EmphasisExamples {
  import opened EmphasisModel
  import opened EmphasisTermination
  import opened EmphasisSplits
  import N = EmphasisNesting
  import M = Matching

  function Open(c: char, n: Size, st: State): Token {
    Marker(true, c, n, st)
  }

  function Close(c: char, n: Size, st: State): Token {
    Marker(false, c, n, st)
  }

  /** The search for the open marker at `i` stops nowhere in the range. */
  predicate NoneFits(ts: seq<Token>, i: nat, from: nat, to: nat) {
    i < |ts| && to <= |ts| && forall p :: from <= p < to && FreeClose(ts[p]) ==> ts[p].size < 3 && !Fits(ts[i], ts[p])
  }

  lemma {:induction false} SearchPast(ts: seq<Token>, i: nat, j: nat, k: nat, id: nat)
    requires i < j <= k && NoneFits(ts, i, j, k) && FreeOpen(ts[i]) && ts[i].size < 3
    ensures Reaches(Inner(ts, i, j, id), k - j, Inner(ts, i, k, id))
    decreases k - j
  {
    hide Reaches, Step;
    if j < k {
      if FreeClose(ts[j]) { NoFit(ts, i, j, id); } else { PassOver(ts, i, j, id); }
      SearchPast(ts, i, j + 1, k, id);
      Then(Inner(ts, i, j, id), 1, Inner(ts, i, j + 1, id), k - j - 1, Inner(ts, i, k, id));
    } else {
      OneStep(Inner(ts, i, j, id));
    }
  }

  /** The first free open marker from `from` on stands at `i`, and the first close marker that fits it at `k`. */
  predicate FirstFit(ts: seq<Token>, from: nat, i: nat, k: nat) {
    from <= i < k < |ts| && NoOpen(ts, from, i) && NoneFits(ts, i, i + 1, k) && Fits(ts[i], ts[k])
  }

  /** These two are matched. */
  lemma FitMatches(ts: seq<Token>, from: nat, i: nat, k: nat, id: nat)
    requires FirstFit(ts, from, i, k)
    ensures Reaches(Outer(ts, from, id), k - from + 1, Outer(Matched(ts, i, k, id), i + 1, id + 1))
  {
    hide Reaches, NoOpen, NoneFits, Matched;
    OuterOn(ts, from, i, id);
    StartSearch(ts, i, id);
    SearchPast(ts, i, i + 1, k, id);
    MatchStep(ts, i, k, id);
    Then(Outer(ts, from, id), i - from, Outer(ts, i, id), 1, Inner(ts, i, i + 1, id));
    Then(Outer(ts, from, id), i - from + 1, Inner(ts, i, i + 1, id), k - i - 1, Inner(ts, i, k, id));
    Then(Outer(ts, from, id), k - from, Inner(ts, i, k, id), 1, Outer(Matched(ts, i, k, id), i + 1, id + 1));
  }

  /** Nothing is left to pair. */
  lemma NothingLeft(ts: seq<Token>, i: nat, id: nat)
    requires i <= |ts| && NoOpen(ts, i, |ts|)
    ensures Reaches(Outer(ts, i, id), |ts| - i + 1, Done(ts, id))
  {
    OneStep(Outer(ts, |ts|, id));
    hide Reaches, NoOpen;
    OuterOn(ts, i, |ts|, id);
    Then(Outer(ts, i, id), |ts| - i, Outer(ts, |ts|, id), 1, Done(ts, id));
  }

  lemma ThenTwo(s: Machine, n: nat, t: Machine, m: nat, u: Machine, l: nat, v: Machine)
    requires Reaches(s, n, t) && Reaches(t, m, u) && Reaches(u, l, v)
    ensures Reaches(s, n + m + l, v)
  {
    hide *;
    Then(s, n, t, m, u);
    Then(s, n + m, u, l, v);
  }

  /** One more match, after which nothing is left. */
  lemma LastMatch(ts: seq<Token>, from: nat, i: nat, k: nat, id: nat, end: seq<Token>)
    requires FirstFit(ts, from, i, k) && end == Matched(ts, i, k, id) && NoOpen(end, i + 1, |end|)
    ensures Reaches(Outer(ts, from, id), k - from + 1 + (|ts| - i), Done(end, id + 1))
  {
    FitMatches(ts, from, i, k, id);
    NothingLeft(end, i + 1, id + 1);
    assert |end| == |ts|;
    hide *;
    Then(Outer(ts, from, id), k - from + 1, Outer(end, i + 1, id + 1), |ts| - i, Done(end, id + 1));
  }

  // ----- A shared close marker -----

  lemma SharedCloseRuns(ts: seq<Token>, j: nat, i: nat, k: nat, mid: seq<Token>, end: seq<Token>)
    requires FirstPair(ts, 0, 0, j) && Small(ts[0]) && ts[j].size == 3 && ts[0].ch == ts[j].ch
    requires mid == Matched(Split(ts, j, ts[0].size), 0, j + 2, 0)
    requires FirstFit(mid, 1, i, k) && end == Matched(mid, i, k, 1) && NoOpen(end, i + 1, |end|)
    ensures Reaches(Start(ts), j + 3 + (k + (|mid| - i)), Done(end, 2))
  {
    assert i < |mid|;
    hide Reaches, Split, Matched, FirstFit, NoOpen;
    ReachPair(ts, 0, 0, j, 0);
    SplitForSmallOpen(ts, 0, j, 0);
    LastMatch(mid, 1, i, k, 1, end);
    ThenTwo(Start(ts), j, Inner(ts, 0, j, 0), 3, Outer(mid, 1, 1), k + (|mid| - i), Done(end, 2));
  }

  /** Two open markers closed by one marker of size 3, as in `*a **b***`: the inner one gets the first part. */
  lemma SharedClose(c: char, n: Size, a: string, b: string)
    requires 0 < n < 3
    ensures var ts := [Open(c, n, Free), Text(a), Open(c, 3 - n, Free), Text(b), Close(c, 3, Free)];
            Reaches(Start(ts), 17,
              Done([Open(c, n, Paired(0)), Text(a), Open(c, 3 - n, Paired(1)), Text(b), Close(c, 3, Disabled),
                    Close(c, 3 - n, Paired(1)), Close(c, n, Paired(0))], 2))
  {
    var ts := [Open(c, n, Free), Text(a), Open(c, 3 - n, Free), Text(b), Close(c, 3, Free)];
    var mid := [Open(c, n, Paired(0)), Text(a), Open(c, 3 - n, Free), Text(b), Close(c, 3, Disabled),
                Close(c, 3 - n, Free), Close(c, n, Paired(0))];
    var end := [Open(c, n, Paired(0)), Text(a), Open(c, 3 - n, Paired(1)), Text(b), Close(c, 3, Disabled),
                Close(c, 3 - n, Paired(1)), Close(c, n, Paired(0))];
    hide Reaches;
    assert Matched(Split(ts, 4, n), 0, 6, 0) == mid && Matched(mid, 2, 5, 1) == end;
    SharedCloseRuns(ts, 4, 2, 5, mid, end);
  }

  // ----- A shared open marker -----

  lemma OpenPartsRun(ts: seq<Token>, k: nat, l: nat, mid: seq<Token>, end: seq<Token>)
    requires FirstFit(ts, 1, 1, k) && mid == Matched(ts, 1, k, 0)
    requires FirstFit(mid, 2, 2, l) && end == Matched(mid, 2, l, 1) && NoOpen(end, 3, |end|)
    ensures Reaches(Outer(ts, 1, 0), k + (l - 1 + (|ts| - 2)), Done(end, 2))
  {
    assert |mid| == |ts|;
    hide Reaches, Matched, FirstFit, NoOpen;
    FitMatches(ts, 1, 1, k, 0);
    LastMatch(mid, 2, 2, l, 1, end);
    Then(Outer(ts, 1, 0), k, Outer(mid, 2, 1), l - 1 + (|ts| - 2), Done(end, 2));
  }

  lemma SharedOpenRuns(ts: seq<Token>, j: nat, split: seq<Token>, k: nat, l: nat, mid: seq<Token>, end: seq<Token>)
    requires FirstPair(ts, 0, 0, j) && ts[0].size == 3 && Small(ts[j]) && split == Split(ts, 0, ts[j].size)
    requires FirstFit(split, 1, 1, k) && mid == Matched(split, 1, k, 0)
    requires FirstFit(mid, 2, 2, l) && end == Matched(mid, 2, l, 1) && NoOpen(end, 3, |end|)
    ensures Reaches(Start(ts), j + 1 + (k + (l - 1 + |ts|)), Done(end, 2))
  {
    assert |split| == |ts| + 2;
    hide Reaches, Split, Matched, FirstFit, NoOpen;
    ReachPair(ts, 0, 0, j, 0);
    OpenSplits(ts, 0, j, 0);
    OpenPartsRun(split, k, l, mid, end);
    ThenTwo(Start(ts), j, Inner(ts, 0, j, 0), 1, Outer(split, 1, 0), k + (l - 1 + |ts|), Done(end, 2));
  }

  /** One open marker of size 3 closed by two smaller ones, as in `***a** b*`: the outer pair gets the first part. */
  lemma SharedOpen(c: char, n: Size, a: string, b: string)
    requires 0 < n < 3
    ensures var ts := [Open(c, 3, Free), Text(a), Close(c, n, Free), Text(b), Close(c, 3 - n, Free)];
            Reaches(Start(ts), 17,
              Done([Open(c, 3, Disabled), Open(c, 3 - n, Paired(0)), Open(c, n, Paired(1)), Text(a),
                    Close(c, n, Paired(1)), Text(b), Close(c, 3 - n, Paired(0))], 2))
  {
    var ts := [Open(c, 3, Free), Text(a), Close(c, n, Free), Text(b), Close(c, 3 - n, Free)];
    var split := [Open(c, 3, Disabled), Open(c, 3 - n, Free), Open(c, n, Free), Text(a), Close(c, n, Free), Text(b),
                  Close(c, 3 - n, Free)];
    var mid := [Open(c, 3, Disabled), Open(c, 3 - n, Paired(0)), Open(c, n, Free), Text(a), Close(c, n, Free), Text(b),
                Close(c, 3 - n, Paired(0))];
    var end := [Open(c, 3, Disabled), Open(c, 3 - n, Paired(0)), Open(c, n, Paired(1)), Text(a), Close(c, n, Paired(1)),
                Text(b), Close(c, 3 - n, Paired(0))];
    hide Reaches;
    assert Split(ts, 0, n) == split && Matched(split, 1, 6, 0) == mid && Matched(mid, 2, 4, 1) == end;
    SharedOpenRuns(ts, 2, split, 6, 4, mid, end);
  }

  /** Of six tokens, those at 1 and 2 are paired with those at `k` and `l`: the pairs nest exactly when the one that opens
      first closes last. */
  lemma TwoPairs(ts: seq<Token>, k: nat, l: nat)
    requires |ts| == 6 && {k, l} <= {4, 5} && k != l
    requires forall p :: 0 <= p < 6 ==> (IsPaired(ts[p]) <==> p == 1 || p == 2 || p == 4 || p == 5)
    requires ts[1].Marker? && ts[2].Marker? && ts[1].open && ts[2].open && ts[k] == Twin(ts[1]) && ts[l] == Twin(ts[2])
    requires WellPaired(ts)
    ensures N.Nested(ts) <==> k == 5
  {
    var m := [M.NONE, k, l, M.NONE, if k == 4 then 1 else 2, if k == 5 then 1 else 2];
    assert N.MatesAre(ts, m);
    N.MatesAreUnique(ts, m);
    hide N.MatesAre;
    assert M.Opens(m, 1) && M.Opens(m, 2);
  }

  lemma EndPairs(s: Machine, n: nat, end: seq<Token>)
    requires Reaches(s, n, Done(end, 2)) && WellPairedSoFar(s)
    ensures WellPaired(end)
  {
    RunKeepsPairing(s, n);
  }

  /** As in `***a_ b** c*`. */
  function OtherClose(c: char, d: char, n: Size, x: Size): seq<Token>
  {
    [Open(c, 3, Free), Close(d, n, Free), Close(c, x, Free), Close(c, 3 - x, Free)]
  }

  /** The list when the first part is paired with the marker at `k` and the second with the other one. */
  function OtherCloseEnd(c: char, d: char, n: Size, x: Size, k: nat): seq<Token> {
    [Open(c, 3, Disabled), Open(c, 3 - n, Paired(0)), Open(c, n, Paired(1)), Close(d, n, Free),
     Close(c, x, Paired(if k == 4 then 0 else 1)), Close(c, 3 - x, Paired(if k == 4 then 1 else 0))]
  }

  lemma OtherCloseRuns(c: char, d: char, n: Size, x: Size, k: nat)
    requires c != d && 0 < n < 3 && 0 < x < 3 && k == if x == n then 5 else 4
    ensures Reaches(Start(OtherClose(c, d, n, x)), 14, Done(OtherCloseEnd(c, d, n, x, k), 2))
  {
    var ts, end := OtherClose(c, d, n, x), OtherCloseEnd(c, d, n, x, k);
    var split := [Open(c, 3, Disabled), Open(c, 3 - n, Free), Open(c, n, Free), Close(d, n, Free), Close(c, x, Free),
                  Close(c, 3 - x, Free)];
    var mid := Matched(split, 1, k, 0);
    hide Reaches;
    assert Split(ts, 0, n) == split && Matched(mid, 2, 9 - k, 1) == end;
    SharedOpenRuns(ts, 1, split, k, 9 - k, mid, end);
  }

  /** An open marker of size 3, split for a close marker of another character: its parts are paired with the two close
      markers that follow, and these pairs nest exactly when the first of the two has the size of the second part. */
  lemma OpenSplitForOther(c: char, d: char, n: Size, x: Size)
    requires c != d && 0 < n < 3 && 0 < x < 3
    ensures var end := OtherCloseEnd(c, d, n, x, if x == n then 5 else 4);
            && Reaches(Start(OtherClose(c, d, n, x)), 14, Done(end, 2))
            && WellPaired(end) && (N.Nested(end) <==> x == n)
  {
    var k := if x == n then 5 else 4;
    var end := OtherCloseEnd(c, d, n, x, k);
    assert WellPairedSoFar(Start(OtherClose(c, d, n, x)));
    assert forall p :: 0 <= p < 6 ==> (IsPaired(end[p]) <==> p == 1 || p == 2 || p == 4 || p == 5);
    assert end[k] == Twin(end[1]) && end[9 - k] == Twin(end[2]);
    assert |end| == 6 && end[1].Marker? && end[2].Marker? && end[1].open && end[2].open;
    hide *;
    OtherCloseRuns(c, d, n, x, k);
    EndPairs(Start(OtherClose(c, d, n, x)), 14, end);
    TwoPairs(end, k, 9 - k);
  }

  /** As in `*a __b _c___`. */
  function OtherOpen(c: char, d: char, n: Size, x: Size): seq<Token>
  {
    [Open(c, n, Free), Open(d, x, Free), Open(d, 3 - x, Free), Close(d, 3, Free)]
  }

  /** The list when the marker at 1 is paired with the part at `k` and the one at 2 with the other part. */
  function OtherOpenEnd(c: char, d: char, n: Size, x: Size, k: nat): seq<Token> {
    [Open(c, n, Free), Open(d, x, Paired(0)), Open(d, 3 - x, Paired(1)), Close(d, 3, Disabled),
     Close(d, 3 - n, Paired(if k == 4 then 0 else 1)), Close(d, n, Paired(if k == 4 then 1 else 0))]
  }

  lemma RefusedCloseRuns(ts: seq<Token>, j: nat, split: seq<Token>, k: nat, l: nat, mid: seq<Token>, end: seq<Token>)
    requires FirstPair(ts, 0, 0, j) && |ts| == j + 1
    requires Small(ts[0]) && ts[j].size == 3 && ts[0].ch != ts[j].ch && split == Split(ts, j, ts[0].size)
    requires FirstFit(split, 1, 1, k) && mid == Matched(split, 1, k, 0)
    requires FirstFit(mid, 2, 2, l) && end == Matched(mid, 2, l, 1) && NoOpen(end, 3, |end|)
    ensures Reaches(Start(ts), j + 4 + (k + (l - 1 + (j + 1))), Done(end, 2))
  {
    assert |split| == j + 3 && Step(Inner(split, 0, j + 3, 0)) == Outer(split, 1, 0);
    hide Reaches, Split, Matched, FirstFit, NoOpen, Step;
    ReachPair(ts, 0, 0, j, 0);
    SplitForSmallOpen(ts, 0, j, 0);
    OneStep(Inner(split, 0, j + 3, 0));
    OpenPartsRun(split, k, l, mid, end);
    ThenTwo(Start(ts), j, Inner(ts, 0, j, 0), 3, Inner(split, 0, j + 3, 0), 1, Outer(split, 1, 0));
    Then(Start(ts), j + 4, Outer(split, 1, 0), k + (l - 1 + (j + 1)), Done(end, 2));
  }

  lemma OtherOpenRuns(c: char, d: char, n: Size, x: Size, k: nat)
    requires c != d && 0 < n < 3 && 0 < x < 3 && k == if x == n then 5 else 4
    ensures Reaches(Start(OtherOpen(c, d, n, x)), 19, Done(OtherOpenEnd(c, d, n, x, k), 2))
  {
    var ts, end := OtherOpen(c, d, n, x), OtherOpenEnd(c, d, n, x, k);
    var split := [Open(c, n, Free), Open(d, x, Free), Open(d, 3 - x, Free), Close(d, 3, Disabled), Close(d, 3 - n, Free),
                  Close(d, n, Free)];
    var mid := Matched(split, 1, k, 0);
    hide Reaches;
    assert Split(ts, 3, n) == split && Matched(mid, 2, 9 - k, 1) == end;
    RefusedCloseRuns(ts, 3, split, k, 9 - k, mid, end);
  }

  /** A close marker of size 3, split for an open marker of another character: its parts are paired with the two open
      markers in between, and these pairs nest exactly when the first of the two has the size of the second part. */
  lemma CloseSplitForOther(c: char, d: char, n: Size, x: Size)
    requires c != d && 0 < n < 3 && 0 < x < 3
    ensures var end := OtherOpenEnd(c, d, n, x, if x == n then 5 else 4);
            && Reaches(Start(OtherOpen(c, d, n, x)), 19, Done(end, 2))
            && WellPaired(end) && (N.Nested(end) <==> x == n)
  {
    var k := if x == n then 5 else 4;
    var end := OtherOpenEnd(c, d, n, x, k);
    assert WellPairedSoFar(Start(OtherOpen(c, d, n, x)));
    assert forall p :: 0 <= p < 6 ==> (IsPaired(end[p]) <==> p == 1 || p == 2 || p == 4 || p == 5);
    assert end[k] == Twin(end[1]) && end[9 - k] == Twin(end[2]);
    assert |end| == 6 && end[1].Marker? && end[2].Marker? && end[1].open && end[2].open;
    hide *;
    OtherOpenRuns(c, d, n, x, k);
    EndPairs(Start(OtherOpen(c, d, n, x)), 19, end);
    TwoPairs(end, k, 9 - k);
  }
}
