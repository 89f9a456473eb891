/** The two parts of a split marker: which markers they are paired with, and when their pairs nest. */
module EmphasisSplits {
  import opened EmphasisModel
  import opened EmphasisTermination
  import N = EmphasisNesting
  import M = Matching

  // ----- Comparing an open and a close marker -----

  /** The list after the markers at `i` and `j` are matched. */
  function Matched(ts: seq<Token>, i: nat, j: nat, id: nat): seq<Token>
    requires i < j < |ts| && ts[i].Marker? && ts[j].Marker?
  {
    ts[i := Pair(ts[i], id)][j := Pair(ts[j], id)]
  }

  predicate Fits(o: Token, c: Token) {
    FreeOpen(o) && FreeClose(c) && o.size < 3 && o.ch == c.ch && o.size == c.size
  }

  predicate Small(t: Token) {
    t.Marker? && 0 < t.size < 3
  }

  lemma MatchStep(ts: seq<Token>, i: nat, j: nat, id: nat)
    requires i < j < |ts| && Fits(ts[i], ts[j])
    ensures Reaches(Inner(ts, i, j, id), 1, Outer(Matched(ts, i, j, id), i + 1, id + 1))
  {
    OneStep(Inner(ts, i, j, id));
  }

  lemma NoFit(ts: seq<Token>, i: nat, j: nat, id: nat)
    requires i < j < |ts| && FreeOpen(ts[i]) && FreeClose(ts[j])
    requires ts[i].size < 3 && ts[j].size < 3 && !Fits(ts[i], ts[j])
    ensures Reaches(Inner(ts, i, j, id), 1, Inner(ts, i, j + 1, id))
  {
    OneStep(Inner(ts, i, j, id));
  }

  lemma CloseSplits(ts: seq<Token>, i: nat, j: nat, id: nat)
    requires i < j < |ts| && FreeOpen(ts[i]) && FreeClose(ts[j]) && Small(ts[i]) && ts[j].size == 3
    ensures Reaches(Inner(ts, i, j, id), 1, Inner(Split(ts, j, ts[i].size), i, j + 1, id))
  {
    OneStep(Inner(ts, i, j, id));
    hide Split;
  }

  lemma OpenSplits(ts: seq<Token>, i: nat, j: nat, id: nat)
    requires i < j < |ts| && FreeOpen(ts[i]) && FreeClose(ts[j]) && ts[i].size == 3 && Small(ts[j])
    ensures Reaches(Inner(ts, i, j, id), 1, Outer(Split(ts, i, ts[j].size), i + 1, id))
  {
    OneStep(Inner(ts, i, j, id));
    hide Split;
  }

  /** A close marker of size 3 is split for a smaller open marker of any character. The second part is then paired with
      that marker if the characters agree; otherwise the search goes on after it. */
  lemma SplitForSmallOpen(ts: seq<Token>, i: nat, j: nat, id: nat)
    requires i < j < |ts| && FreeOpen(ts[i]) && FreeClose(ts[j]) && Small(ts[i]) && ts[j].size == 3
    ensures var r := Split(ts, j, ts[i].size);
            Reaches(Inner(ts, i, j, id), 3,
              if ts[i].ch == ts[j].ch then Outer(Matched(r, i, j + 2, id), i + 1, id + 1) else Inner(r, i, j + 3, id))
  {
    var r := Split(ts, j, ts[i].size);
    CloseSplits(ts, i, j, id);
    NoFit(r, i, j + 1, id);
    if ts[i].ch == ts[j].ch { MatchStep(r, i, j + 2, id); } else { NoFit(r, i, j + 2, id); }
    var s, s1, s2 := Inner(ts, i, j, id), Inner(r, i, j + 1, id), Inner(r, i, j + 2, id);
    hide Reaches, Split, Matched;
    Then(s, 1, s1, 1, s2);
    Then(s, 2, s2, 1,
      if ts[i].ch == ts[j].ch then Outer(Matched(r, i, j + 2, id), i + 1, id + 1) else Inner(r, i, j + 3, id));
  }

  /** The markers can be the two parts of an open or a close marker of size 3. */
  predicate AreParts(first: Token, second: Token, open: bool) {
    && Small(first) && Small(second) && first.size + second.size == 3 && first.ch == second.ch
    && first.open == second.open == open
  }

  // ----- A shared close marker -----

  /** The outer loop has left position `i` behind. */
  predicate Past(s: Machine, i: nat) {
    s.Done? || s.i > i
  }

  /** The markers at `f` and `f + 1` are the parts of a close marker; the second is paired with the marker at `i`, and
      the first is free or paired with a marker between `i` and `f`. */
  predicate CloseParts(ts: seq<Token>, i: nat, f: nat) {
    && i < f && f + 1 < |ts| && IsPaired(ts[i]) && ts[i].open && ts[f + 1] == Twin(ts[i])
    && AreParts(ts[f], ts[f + 1], false)
    && (ts[f].state.Free? || (IsPaired(ts[f]) && exists p :: i < p < f && ts[p] == Twin(ts[f])))
  }

  lemma SplitKeepsCloseParts(ts: seq<Token>, i: nat, f: nat, k: nat, n: Size) returns (f': nat)
    requires CloseParts(ts, i, f) && i < k < |ts| && ts[k].Marker? && ts[k].state.Free? && k != f
    ensures CloseParts(Split(ts, k, n), i, f')
  {
    var r := Split(ts, k, n);
    f' := if k < f then f + 2 else f;
    assert r[i] == ts[i] && r[f'] == ts[f] && r[f' + 1] == ts[f + 1];
    if IsPaired(ts[f]) {
      var p :| i < p < f && ts[p] == Twin(ts[f]);
      assert r[if k < p then p + 2 else p] == Twin(r[f']);
    }
  }

  lemma MatchKeepsCloseParts(ts: seq<Token>, i: nat, f: nat, a: nat, b: nat, id: nat)
    requires CloseParts(ts, i, f) && i < a < b < |ts| && FreeOpen(ts[a]) && FreeClose(ts[b])
    requires ts[a].ch == ts[b].ch && ts[a].size == ts[b].size
    ensures CloseParts(Matched(ts, a, b, id), i, f)
  {
    var r := Matched(ts, a, b, id);
    assert r[i] == ts[i] && r[f + 1] == ts[f + 1];
    if b == f {
      assert r[a] == Twin(r[f]);
    } else if IsPaired(ts[f]) {
      var p :| i < p < f && ts[p] == Twin(ts[f]);
      assert r[p] == Twin(r[f]);
    }
  }

  lemma StepKeepsCloseParts(s: Machine, i: nat, f: nat) returns (f': nat)
    requires Placed(s) && Past(s, i) && CloseParts(s.tokens, i, f)
    ensures Past(Step(s), i) && CloseParts(Step(s).tokens, i, f')
  {
    f' := f;
    if s.Inner? && s.j < |s.tokens| && FreeClose(s.tokens[s.j]) {
      var ts, a, b := s.tokens, s.i, s.j;
      assert ts[f].Marker? && ts[f].size < 3 && !ts[f].open;
      hide CloseParts, Split;
      if ts[b].size == 3 && ts[a].size != 3 {
        f' := SplitKeepsCloseParts(ts, i, f, b, ts[a].size);
      } else if ts[b].ch == ts[a].ch && ts[b].size == ts[a].size {
        MatchKeepsCloseParts(ts, i, f, a, b, s.id);
      } else if ts[a].size == 3 {
        f' := SplitKeepsCloseParts(ts, i, f, a, ts[b].size);
      }
    }
  }

  lemma {:induction false} RunKeepsCloseParts(s: Machine, i: nat, f: nat, n: nat) returns (f': nat)
    requires Placed(s) && Past(s, i) && CloseParts(s.tokens, i, f)
    ensures Past(Run(s, n), i) && CloseParts(Run(s, n).tokens, i, f')
  {
    if n == 0 {
      f' := f;
    } else {
      f' := RunKeepsCloseParts(s, i, f, n - 1);
      f' := StepKeepsCloseParts(Run(s, n - 1), i, f');
    }
  }

  lemma TwinIsMate(ts: seq<Token>, p: nat, q: nat)
    requires WellPaired(ts) && p < |ts| && q < |ts| && IsPaired(ts[p]) && ts[q] == Twin(ts[p])
    ensures N.Mates(ts)[p] == q
  {
    N.PairedOnce(ts, N.Mates(ts)[p], q);
  }

  /** The markers at `f` and `f + 1` are the parts of a close marker, the second is paired with the marker at `i`, and
      the pair of the first, if there is one, lies inside. */
  ghost predicate CloseNests(ts: seq<Token>, i: nat, f: nat) {
    && WellPaired(ts) && i < f && f + 1 < |ts| && AreParts(ts[f], ts[f + 1], false)
    && var m := N.Mates(ts); m[i] == f + 1 && (m[f] == M.NONE || i < m[f] < f)
  }

  lemma ClosePartsNest(ts: seq<Token>, i: nat, f: nat)
    requires WellPaired(ts) && CloseParts(ts, i, f)
    ensures CloseNests(ts, i, f)
  {
    TwinIsMate(ts, i, f + 1);
    if IsPaired(ts[f]) {
      var p :| i < p < f && ts[p] == Twin(ts[f]);
      TwinIsMate(ts, f, p);
    }
  }

  lemma SoFar(s: Machine)
    requires WellPairedSoFar(s)
    ensures WellPaired(s.tokens)
  {
  }

  lemma CloseSplitStarts(ts: seq<Token>, i: nat, j: nat, id: nat)
    requires i < j < |ts| && FreeOpen(ts[i]) && FreeClose(ts[j]) && Small(ts[i]) && ts[j].size == 3
    requires ts[i].ch == ts[j].ch
    ensures CloseParts(Matched(Split(ts, j, ts[i].size), i, j + 2, id), i, j + 1)
  {
  }

  lemma NestsInside(s: Machine, i: nat, f: nat, m: nat, n: nat) returns (f': nat)
    requires Placed(s) && WellPairedSoFar(s) && m <= n && Past(Run(s, m), i) && CloseParts(Run(s, m).tokens, i, f)
    ensures CloseNests(Run(s, n).tokens, i, f')
  {
    hide *;
    RunKeepsPairing(s, n);
    RunAdd(s, m, n - m);
    f' := RunKeepsCloseParts(Run(s, m), i, f, n - m);
    SoFar(Run(s, n));
    ClosePartsNest(Run(s, n).tokens, i, f');
  }

  /** A close marker of size 3 that a smaller open marker of its character runs into is shared so that the pairs nest:
      whatever the list and whatever is paired later, the pair of the first part lies inside the pair of the second. */
  lemma SharedCloseNests(ts: seq<Token>, i: nat, j: nat, id: nat, n: nat) returns (f: nat)
    requires i < j < |ts| && FreeOpen(ts[i]) && FreeClose(ts[j]) && Small(ts[i]) && ts[j].size == 3
    requires WellPairedSoFar(Inner(ts, i, j, id)) && ts[i].ch == ts[j].ch && 3 <= n
    ensures CloseNests(Run(Inner(ts, i, j, id), n).tokens, i, f)
  {
    var s := Inner(ts, i, j, id);
    var s' := Outer(Matched(Split(ts, j, ts[i].size), i, j + 2, id), i + 1, id + 1);
    SplitForSmallOpen(ts, i, j, id);
    CloseSplitStarts(ts, i, j, id);
    assert Placed(s) && Run(s, 3) == s' && Past(s', i);
    hide *;
    f := NestsInside(s, i, j + 1, 3, n);
  }

  // ----- A shared open marker -----

  /** The markers at `i` and `i + 1` are the parts of an open marker that was split for the close marker at `q`. The
      second part waits for `q` until the outer loop has passed it, and is paired with it from then on; the first is
      free or paired with a marker after `q`. */
  predicate OpenParts(s: Machine, i: nat, q: nat) {
    var ts := s.tokens;
    && (s.Done? || i <= s.i) && i + 1 < q < |ts| && AreParts(ts[i], ts[i + 1], true)
    && (ts[i].state.Free? || (IsPaired(ts[i]) && exists p :: q < p < |ts| && ts[p] == Twin(ts[i])))
    && (if Past(s, i + 1) then IsPaired(ts[i + 1]) && ts[q] == Twin(ts[i + 1])
        else FreeOpen(ts[i + 1]) && ts[q] == Twin(ts[i + 1]) && NoClose(ts, i + 1, q)
             && (s.i == i ==> ts[i].state.Free?) && (s.Inner? && s.i == i + 1 ==> s.j <= q))
  }

  lemma SplitKeepsOpenParts(s: Machine, i: nat, q: nat, k: nat, n: Size, r: Machine) returns (q': nat)
    requires k < |s.tokens| && s.tokens[k].Marker? && s.tokens[k].state.Free? && i + 1 < k && k != q
    requires OpenParts(s, i, q) && !s.Done? && r.tokens == Split(s.tokens, k, n)
    requires Past(s, i + 1) || q < k
    requires !r.Done? && Past(r, i + 1) == Past(s, i + 1) && (!Past(s, i + 1) ==> r.i == s.i && s.i == i && r.Inner?)
    ensures OpenParts(r, i, q')
  {
    var ts, us := s.tokens, r.tokens;
    q' := if k < q then q + 2 else q;
    assert us[i] == ts[i] && us[i + 1] == ts[i + 1] && us[q'] == ts[q];
    if IsPaired(ts[i]) {
      var p :| q < p < |ts| && ts[p] == Twin(ts[i]);
      assert us[if k < p then p + 2 else p] == Twin(us[i]);
    }
  }

  lemma MatchKeepsOpenParts(s: Machine, i: nat, q: nat)
    requires Placed(s) && OpenParts(s, i, q) && s.Inner? && s.j < |s.tokens| && FreeClose(s.tokens[s.j])
    requires s.tokens[s.i].ch == s.tokens[s.j].ch && s.tokens[s.i].size == s.tokens[s.j].size
    requires Step(s) == Outer(Matched(s.tokens, s.i, s.j, s.id), s.i + 1, s.id + 1)
    ensures OpenParts(Step(s), i, q)
  {
    var ts, r := s.tokens, Step(s).tokens;
    if s.i == i {
      assert r[s.j] == Twin(r[i]);
    } else if IsPaired(ts[i]) {
      var p :| q < p < |ts| && ts[p] == Twin(ts[i]);
      assert r[p] == Twin(r[i]);
    }
  }

  lemma StepKeepsOpenParts(s: Machine, i: nat, q: nat) returns (q': nat)
    requires Placed(s) && OpenParts(s, i, q)
    ensures OpenParts(Step(s), i, q')
  {
    q' := q;
    if s.Inner? && s.j < |s.tokens| && FreeClose(s.tokens[s.j]) {
      var ts, a, b := s.tokens, s.i, s.j;
      if ts[b].size == 3 && ts[a].size != 3 {
        q' := SplitKeepsOpenParts(s, i, q, b, ts[a].size, Step(s));
      } else if ts[b].ch == ts[a].ch && ts[b].size == ts[a].size {
        MatchKeepsOpenParts(s, i, q);
      } else if ts[a].size == 3 {
        q' := SplitKeepsOpenParts(s, i, q, a, ts[b].size, Step(s));
      }
    }
  }

  lemma {:induction false} RunKeepsOpenParts(s: Machine, i: nat, q: nat, n: nat) returns (q': nat)
    requires Placed(s) && OpenParts(s, i, q)
    ensures OpenParts(Run(s, n), i, q')
  {
    if n == 0 {
      q' := q;
    } else {
      q' := RunKeepsOpenParts(s, i, q, n - 1);
      q' := StepKeepsOpenParts(Run(s, n - 1), i, q');
    }
  }

  lemma {:induction false} StaysPast(s: Machine, i: nat, n: nat)
    requires Placed(s) && Past(s, i)
    ensures Past(Run(s, n), i)
  {
    if n > 0 { StaysPast(s, i, n - 1); }
  }

  /** The outer loop gets past both parts. */
  lemma {:induction false} GetsPast(s: Machine, i: nat, q: nat) returns (n: nat)
    requires Placed(s) && ProperSizes(s.tokens) && OpenParts(s, i, q)
    ensures Past(Run(s, n), i + 1)
    decreases OuterWork(s), InnerWork(s)
  {
    if Past(s, i + 1) {
      n := 0;
    } else {
      StepMakesProgress(s);
      var q' := StepKeepsOpenParts(s, i, q);
      n := GetsPast(Step(s), i, q');
      RunShift(s, n);
      n := n + 1;
    }
  }

  /** The markers at `i` and `i + 1` are the parts of an open marker, the second is paired, and the pair of the first, if
      there is one, goes round it. */
  ghost predicate OpenNests(ts: seq<Token>, i: nat) {
    && WellPaired(ts) && i + 1 < |ts| && AreParts(ts[i], ts[i + 1], true)
    && var m := N.Mates(ts); i + 1 < m[i + 1] && (m[i] == M.NONE || m[i + 1] < m[i])
  }

  lemma OpenPartsNest(s: Machine, i: nat, q: nat)
    requires WellPaired(s.tokens) && OpenParts(s, i, q) && Past(s, i + 1)
    ensures OpenNests(s.tokens, i)
  {
    var ts := s.tokens;
    TwinIsMate(ts, i + 1, q);
    if IsPaired(ts[i]) {
      var p :| q < p < |ts| && ts[p] == Twin(ts[i]);
      TwinIsMate(ts, i, p);
    }
  }

  lemma NestsFrom(s: Machine, i: nat, q: nat, m: nat, n: nat)
    requires Placed(s) && WellPairedSoFar(s) && OpenParts(s, i, q) && Past(Run(s, m), i + 1) && m <= n
    ensures OpenNests(Run(s, n).tokens, i)
  {
    hide *;
    RunKeepsPairing(s, n);
    RunAdd(s, m, n - m);
    StaysPast(Run(s, m), i + 1, n - m);
    var q' := RunKeepsOpenParts(s, i, q, n);
    SoFar(Run(s, n));
    OpenPartsNest(Run(s, n), i, q');
  }

  lemma OpenSplitStarts(ts: seq<Token>, i: nat, j: nat, id: nat)
    requires i < j < |ts| && FreeOpen(ts[i]) && FreeClose(ts[j]) && ts[i].size == 3 && Small(ts[j])
    requires Untouched(Inner(ts, i, j, id)) && ts[i].ch == ts[j].ch
    ensures var r := Split(ts, i, ts[j].size);
            Step(Inner(ts, i, j, id)) == Outer(r, i + 1, id) && OpenParts(Outer(r, i + 1, id), i + 1, j + 2)
  {
  }

  lemma NestsForEver(s: Machine, i: nat, q: nat) returns (m: nat)
    requires Placed(s) && WellPairedSoFar(s) && ProperSizes(Step(s).tokens) && OpenParts(Step(s), i, q)
    ensures forall n :: m <= n ==> OpenNests(Run(s, n).tokens, i)
  {
    hide *;
    StepKeepsPairing(s);
    var m' := GetsPast(Step(s), i, q);
    m := m' + 1;
    forall n | m <= n
      ensures OpenNests(Run(s, n).tokens, i)
    {
      RunShift(s, n - 1);
      NestsFrom(Step(s), i, q, m', n - 1);
    }
  }

  /** An open marker of size 3 that runs into a smaller close marker of its character is shared so that the pairs nest:
      whatever the list, the second part is paired in the end, and from then on the pair of the first part goes round
      it, whatever is paired later. */
  lemma SharedOpenNests(ts: seq<Token>, i: nat, j: nat, id: nat) returns (m: nat)
    requires i < j < |ts| && FreeOpen(ts[i]) && FreeClose(ts[j]) && ts[i].size == 3 && Small(ts[j])
    requires WellPairedSoFar(Inner(ts, i, j, id)) && Untouched(Inner(ts, i, j, id)) && ProperSizes(ts)
    requires ts[i].ch == ts[j].ch
    ensures forall n :: m <= n ==> OpenNests(Run(Inner(ts, i, j, id), n).tokens, i + 1)
  {
    var s := Inner(ts, i, j, id);
    OpenSplitStarts(ts, i, j, id);
    SplitKeepsSizes(ts, i, ts[j].size);
    assert Placed(s);
    hide *;
    m := NestsForEver(s, i + 1, j + 2);
  }
}
