/** When the pairing loops of the emphasis matcher end, and what they have done by then. */
module EmphasisTermination {
  import opened EmphasisModel

  predicate ProperSizes(ts: seq<Token>) {
    forall t :: t in ts && t.Marker? ==> 1 <= t.size
  }

  /** The search is about to compare an open and a close marker that are both of size 3 and differ in character:
      the one case in which a split leaves a part of size 0 and a part of size 3. */
  predicate Clash(s: Machine) {
    s.Inner? && s.i < |s.tokens| && s.j < |s.tokens| && FreeOpen(s.tokens[s.i]) && FreeClose(s.tokens[s.j])
    && s.tokens[s.i].size == 3 && s.tokens[s.j].size == 3 && s.tokens[s.i].ch != s.tokens[s.j].ch
  }

  ghost predicate NeverClashes(s: Machine)
    requires Placed(s)
  {
    forall n: nat :: !Clash(Run(s, n))
  }

  ghost predicate Halts(s: Machine)
    requires Placed(s)
  {
    exists n: nat :: Run(s, n).Done?
  }

  // ----- Without a clash the loops end -----

  /** A free open marker of size 3 outweighs the three markers a split leaves in its place, a free close marker of
      size 3 weighs as much as they do. */
  function Weight(ts: seq<Token>): nat {
    if ts == [] then 0
    else
      (if FreeOpen(ts[0]) && ts[0].size == 3 then 4 else if FreeClose(ts[0]) && ts[0].size == 3 then 3 else 1)
      + Weight(ts[1..])
  }

  lemma {:induction false} WeightConcat(a: seq<Token>, b: seq<Token>)
    ensures Weight(a + b) == Weight(a) + Weight(b)
  {
    if a == [] {
      assert a + b == b;
    } else {
      assert (a + b)[1..] == a[1..] + b;
      WeightConcat(a[1..], b);
    }
  }

  lemma WeightAt(ts: seq<Token>, k: nat)
    requires k < |ts|
    ensures Weight(ts[k..]) > Weight(ts[k+1..])
    ensures FreeOpen(ts[k]) && ts[k].size == 3 ==> Weight(ts[k..]) == 4 + Weight(ts[k+1..])
    ensures FreeClose(ts[k]) && ts[k].size == 3 ==> Weight(ts[k..]) == 3 + Weight(ts[k+1..])
    ensures !(ts[k].Marker? && ts[k].size == 3 && ts[k].state.Free?) ==> Weight(ts[k..]) == 1 + Weight(ts[k+1..])
  {
  }

  lemma WeightUpdate(ts: seq<Token>, from: nat, k: nat, t: Token)
    requires from <= k < |ts| && IsPaired(t)
    ensures Weight(ts[k := t][from..]) <= Weight(ts[from..])
  {
    var r := ts[k := t];
    assert ts[from..] == ts[from..k] + ts[k..];
    assert r[from..] == ts[from..k] + r[k..];
    WeightConcat(ts[from..k], ts[k..]);
    WeightConcat(ts[from..k], r[k..]);
    WeightAt(ts, k);
    WeightAt(r, k);
    assert r[k+1..] == ts[k+1..];
  }

  lemma WeightSplit(ts: seq<Token>, from: nat, k: nat, n: Size)
    requires from <= k < |ts| && ts[k].Marker? && ts[k].size == 3 && ts[k].state.Free? && 0 < n < 3
    ensures Weight(Split(ts, k, n)[k+1..]) == 2 + Weight(ts[k+1..])
    ensures FreeClose(ts[k]) ==> Weight(Split(ts, k, n)[from..]) == Weight(ts[from..])
  {
    var r := Split(ts, k, n);
    assert r[k+3..] == ts[k+1..];
    WeightAt(r, k + 2);
    WeightAt(r, k + 1);
    WeightAt(r, k);
    WeightAt(ts, k);
    assert ts[from..] == ts[from..k] + ts[k..];
    assert r[from..] == ts[from..k] + r[k..];
    WeightConcat(ts[from..k], ts[k..]);
    WeightConcat(ts[from..k], r[k..]);
  }

  /** What is left for the outer loop, then what is left for the search it is in. */
  function OuterWork(s: Machine): nat
    requires Placed(s)
  {
    if s.Done? then 0 else 1 + Weight(s.tokens[s.i..])
  }

  function InnerWork(s: Machine): nat
    requires Placed(s)
  {
    match s
    case Done(_, _) => 0
    case Outer(ts, i, _) => 1 + Weight(ts[i..])
    case Inner(ts, _, j, _) => 1 + Weight(ts[j..])
  }

  lemma SplitKeepsSizes(ts: seq<Token>, k: nat, n: Size)
    requires k < |ts| && ts[k].Marker? && 0 < n < 3 && ProperSizes(ts)
    ensures ProperSizes(Split(ts, k, n))
  {
  }

  predicate LessWork(r: Machine, s: Machine)
    requires Placed(r) && Placed(s)
  {
    OuterWork(r) < OuterWork(s) || (OuterWork(r) == OuterWork(s) && InnerWork(r) < InnerWork(s))
  }

  lemma MatchLowersWork(ts: seq<Token>, i: nat, j: nat, id: nat)
    requires i < j < |ts| && ts[i].Marker? && ts[j].Marker?
    ensures Weight(ts[i := Pair(ts[i], id)][j := Pair(ts[j], id)][i+1..]) < Weight(ts[i..])
  {
    var r := ts[i := Pair(ts[i], id)];
    assert r[i+1..] == ts[i+1..];
    WeightUpdate(r, i + 1, j, Pair(ts[j], id));
    WeightAt(ts, i);
  }

  lemma InnerStepMakesProgress(s: Machine)
    requires Placed(s) && s.Inner? && s.j < |s.tokens| && FreeClose(s.tokens[s.j])
    requires ProperSizes(s.tokens) && !Clash(s)
    ensures ProperSizes(Step(s).tokens) && LessWork(Step(s), s)
  {
    hide Weight, Split;
    var ts, i, j := s.tokens, s.i, s.j;
    assert ts[i] in ts && ts[j] in ts;
    if ts[j].size == 3 && ts[i].size != 3 {
      WeightSplit(ts, i, j, ts[i].size);
      WeightAt(ts, j);
      SplitKeepsSizes(ts, j, ts[i].size);
    } else if ts[j].ch == ts[i].ch && ts[j].size == ts[i].size {
      MatchLowersWork(ts, i, j, s.id);
    } else if ts[i].size == 3 {
      WeightSplit(ts, i, i, ts[j].size);
      WeightAt(ts, i);
      SplitKeepsSizes(ts, i, ts[j].size);
    } else {
      WeightAt(ts, j);
    }
  }

  /** Short of a clash every step keeps all sizes in 1..3 and lowers the work left. */
  lemma StepMakesProgress(s: Machine)
    requires Placed(s) && !s.Done? && ProperSizes(s.tokens) && !Clash(s)
    ensures ProperSizes(Step(s).tokens) && LessWork(Step(s), s)
  {
    hide Weight, Split;
    var ts, i := s.tokens, s.i;
    if s.Inner? && s.j < |ts| && FreeClose(ts[s.j]) {
      InnerStepMakesProgress(s);
    } else {
      if i < |ts| { WeightAt(ts, i); }
      if s.Inner? && s.j < |ts| { WeightAt(ts, s.j); }
    }
  }

  lemma RunOne(s: Machine, n: nat)
    requires Placed(s)
    ensures Run(s, 0) == s && Run(s, n + 1) == Step(Run(s, n))
  {
  }

  lemma {:induction false} RunShift(s: Machine, n: nat)
    requires Placed(s)
    ensures Run(s, n + 1) == Run(Step(s), n)
  {
    hide *;
    RunOne(s, n);
    if n == 0 {
      RunOne(Step(s), 0);
    } else {
      RunShift(s, n - 1);
      RunOne(Step(s), n - 1);
    }
  }

  lemma NeverClashesStep(s: Machine)
    requires Placed(s) && NeverClashes(s)
    ensures !Clash(s) && NeverClashes(Step(s))
  {
    assert Run(s, 0) == s;
    forall n: nat
      ensures !Clash(Run(Step(s), n))
    {
      RunShift(s, n);
    }
  }

  lemma {:induction false} NoClashHalts(s: Machine)
    requires Placed(s) && ProperSizes(s.tokens) && NeverClashes(s)
    ensures Halts(s)
    decreases OuterWork(s), InnerWork(s)
  {
    if s.Done? {
      assert Run(s, 0).Done?;
    } else {
      NeverClashesStep(s);
      StepMakesProgress(s);
      NoClashHalts(Step(s));
      var n: nat :| Run(Step(s), n).Done?;
      RunShift(s, n);
      assert Run(s, n + 1).Done?;
    }
  }

  // ----- After a clash they do not -----

  /** An open marker of size 0 whose search will run into a close marker of size 3, which it splits into a part of
      size 3 and a part of size 0, and so on. */
  predicate Stuck(s: Machine, k: nat) {
    s.Inner? && s.i < |s.tokens| && FreeOpen(s.tokens[s.i]) && s.tokens[s.i].size == 0
    && s.i < s.j <= k < |s.tokens| && FreeClose(s.tokens[k]) && s.tokens[k].size == 3
    && forall p :: s.j <= p < k ==> !FreeClose(s.tokens[p])
  }

  lemma StuckStays(s: Machine, k: nat) returns (k': nat)
    requires Stuck(s, k)
    ensures Stuck(Step(s), k')
  {
    k' := if s.j == k then k + 1 else k;
  }

  lemma {:induction false} StuckForever(s: Machine, k: nat, n: nat) returns (k': nat)
    requires Placed(s) && Stuck(s, k)
    ensures Stuck(Run(s, n), k')
  {
    if n == 0 {
      k' := k;
    } else {
      var s' := Run(s, n - 1);
      k' := StuckForever(s, k, n - 1);
      k' := StuckStays(s', k');
    }
  }

  /** While the search of a size-3 open marker goes on, it has met no free close marker. */
  predicate Untouched(s: Machine) {
    s.Inner? && s.i < |s.tokens| && s.tokens[s.i].Marker? && s.tokens[s.i].size == 3 ==>
      forall p :: s.i < p < s.j && p < |s.tokens| ==> !FreeClose(s.tokens[p])
  }

  lemma StepUntouched(s: Machine)
    requires Placed(s) && Untouched(s)
    ensures Untouched(Step(s))
  {
    hide Split;
  }

  lemma {:induction false} RunUntouched(s: Machine, n: nat)
    requires Placed(s) && Untouched(s)
    ensures Untouched(Run(s, n))
  {
    hide Untouched, Step;
    if n > 0 {
      RunUntouched(s, n - 1);
      StepUntouched(Run(s, n - 1));
    }
  }

  lemma ClashGetsStuck(s: Machine)
    requires Placed(s) && Clash(s) && Untouched(s)
    ensures Stuck(Step(Step(s)), s.j + 2)
  {
  }

  lemma {:induction false} DoneStays(s: Machine, n: nat, m: nat)
    requires Placed(s) && n <= m && Run(s, n).Done?
    ensures Run(s, m) == Run(s, n)
  {
    if n < m { DoneStays(s, n, m - 1); }
  }

  lemma {:induction false} RunAdd(s: Machine, n: nat, m: nat)
    requires Placed(s)
    ensures Run(s, n + m) == Run(Run(s, n), m)
  {
    hide *;
    if m == 0 {
      RunOne(Run(s, n), 0);
    } else {
      RunAdd(s, n, m - 1);
      RunOne(s, n + m - 1);
      RunOne(Run(s, n), m - 1);
    }
  }

  lemma DoneNotLater(s: Machine, n: nat, m: nat)
    requires Placed(s) && Run(s, m).Done?
    ensures Run(Run(s, n), m).Done?
  {
    DoneStays(s, m, n + m);
    RunAdd(s, n, m);
  }

  lemma ClashThenStuck(s: Machine, n: nat)
    requires Placed(s) && Untouched(s) && Clash(Run(s, n))
    ensures Stuck(Run(s, n + 2), Run(s, n).j + 2)
  {
    RunUntouched(s, n);
    ClashGetsStuck(Run(s, n));
    assert Run(s, n + 2) == Step(Run(s, n + 1));
  }

  lemma StuckIsNotDone(s: Machine, k: nat)
    requires Stuck(s, k)
    ensures !s.Done?
  {
  }

  lemma NotDone(s: Machine, n: nat, m: nat)
    requires Placed(s) && Untouched(s) && Clash(Run(s, n))
    ensures !Run(s, m).Done?
  {
    hide *;
    var k0 := StuckAfterClash(s, n);
    var k := StuckForever(Run(s, n + 2), k0, m);
    StuckIsNotDone(Run(Run(s, n + 2), m), k);
    if Run(s, m).Done? { DoneNotLater(s, n + 2, m); }
  }

  lemma StuckAfterClash(s: Machine, n: nat) returns (k: nat)
    requires Placed(s) && Untouched(s) && Clash(Run(s, n))
    ensures Stuck(Run(s, n + 2), k)
  {
    ClashThenStuck(s, n);
    k := Run(s, n).j + 2;
  }

  lemma ClashNeverHalts(s: Machine, n: nat)
    requires Placed(s) && Untouched(s) && Clash(Run(s, n))
    ensures !Halts(s)
  {
    hide Run, Placed, Untouched, Clash;
    forall m: nat
      ensures !Run(s, m).Done?
    {
      NotDone(s, n, m);
    }
  }

  /** On any list of markers of size 1..3 the pairing loops end if and only if they never reach a clash. */
  lemma HaltsIffNeverClashes(ts: seq<Token>)
    requires ProperSizes(ts)
    ensures Halts(Start(ts)) <==> NeverClashes(Start(ts))
  {
    if NeverClashes(Start(ts)) {
      NoClashHalts(Start(ts));
    } else {
      var n: nat :| Clash(Run(Start(ts), n));
      ClashNeverHalts(Start(ts), n);
    }
  }

  // ----- Deciding beforehand whether the loops end -----

  /** A dry run of the loops that stops at a clash; short of one the work left shrinks, so it always ends. */
  predicate ClashFree(s: Machine)
    requires Placed(s) && ProperSizes(s.tokens)
    decreases OuterWork(s), InnerWork(s)
  {
    if Clash(s) then false
    else if s.Done? then true
    else
      StepMakesProgress(s);
      ClashFree(Step(s))
  }

  lemma ClashLater(s: Machine)
    requires Placed(s)
    ensures NeverClashes(s) <==> !Clash(s) && NeverClashes(Step(s))
  {
    if NeverClashes(s) { NeverClashesStep(s); }
    if !Clash(s) && NeverClashes(Step(s)) {
      forall n: nat
        ensures !Clash(Run(s, n))
      {
        if n == 0 { RunOne(s, 0); } else { RunShift(s, n - 1); }
      }
    }
  }

  lemma DoneNeverClashes(s: Machine)
    requires s.Done?
    ensures NeverClashes(s)
  {
    forall n: nat
      ensures !Clash(Run(s, n))
    {
      RunOne(s, 0);
      DoneStays(s, 0, n);
    }
  }

  lemma {:induction false} ClashFreeNeverClashes(s: Machine)
    requires Placed(s) && ProperSizes(s.tokens)
    ensures ClashFree(s) <==> NeverClashes(s)
    decreases OuterWork(s), InnerWork(s)
  {
    hide NeverClashes, Step, OuterWork, InnerWork;
    ClashLater(s);
    if s.Done? {
      DoneNeverClashes(s);
    } else if !Clash(s) {
      StepMakesProgress(s);
      ClashFreeNeverClashes(Step(s));
    }
  }

  /** On any list of markers of size 1..3 the pairing loops end exactly when the dry run says so. */
  lemma HaltsIffClashFree(ts: seq<Token>)
    requires ProperSizes(ts)
    ensures Halts(Start(ts)) <==> ClashFree(Start(ts))
  {
    HaltsIffNeverClashes(ts);
    ClashFreeNeverClashes(Start(ts));
  }

  // ----- A condition on the list that rules a clash out -----

  /** No free open marker of size 3 is followed by a free close marker of size 3 of another character. It holds
      when all markers of size 3 share one character. */
  predicate Compatible(ts: seq<Token>) {
    forall p, q :: 0 <= p < q < |ts| && FreeOpen(ts[p]) && ts[p].size == 3 && FreeClose(ts[q]) && ts[q].size == 3 ==>
      ts[p].ch == ts[q].ch
  }

  lemma SplitKeepsCompatible(ts: seq<Token>, k: nat, n: Size)
    requires k < |ts| && ts[k].Marker? && 0 < n < 3 && Compatible(ts)
    ensures Compatible(Split(ts, k, n))
  {
  }

  lemma StepKeepsCompatible(s: Machine)
    requires Placed(s) && ProperSizes(s.tokens) && Compatible(s.tokens)
    ensures !Clash(s)
    ensures ProperSizes(Step(s).tokens) && Compatible(Step(s).tokens)
  {
    hide Weight, Split;
    if !s.Done? { StepMakesProgress(s); }
    if s.Inner? && s.j < |s.tokens| && FreeClose(s.tokens[s.j]) {
      var ts, i, j := s.tokens, s.i, s.j;
      assert ts[i] in ts && ts[j] in ts;
      if ts[j].size == 3 && ts[i].size != 3 {
        SplitKeepsCompatible(ts, j, ts[i].size);
      } else if ts[j].ch == ts[i].ch && ts[j].size == ts[i].size {
      } else if ts[i].size == 3 {
        SplitKeepsCompatible(ts, i, ts[j].size);
      }
    }
  }

  lemma {:induction false} CompatibleRun(s: Machine, n: nat)
    requires Placed(s) && ProperSizes(s.tokens) && Compatible(s.tokens)
    ensures ProperSizes(Run(s, n).tokens) && Compatible(Run(s, n).tokens) && !Clash(Run(s, n))
  {
    hide ProperSizes, Compatible, Clash, Step;
    if n > 0 {
      CompatibleRun(s, n - 1);
      StepKeepsCompatible(Run(s, n - 1));
    }
    StepKeepsCompatible(Run(s, n));
  }

  lemma CompatibleHalts(ts: seq<Token>)
    requires ProperSizes(ts) && Compatible(ts)
    ensures ClashFree(Start(ts)) && Halts(Start(ts))
  {
    forall n: nat
      ensures !Clash(Run(Start(ts), n))
    {
      CompatibleRun(Start(ts), n);
    }
    ClashFreeNeverClashes(Start(ts));
    HaltsIffNeverClashes(ts);
  }

  /** The machine comes from `s` to `t` in `n` steps. */
  ghost predicate Reaches(s: Machine, n: nat, t: Machine) {
    Placed(s) && Run(s, n) == t
  }

  lemma Then(s: Machine, n: nat, t: Machine, m: nat, u: Machine)
    requires Reaches(s, n, t) && Reaches(t, m, u)
    ensures Reaches(s, n + m, u)
  {
    RunAdd(s, n, m);
    hide Run;
  }

  lemma OneStep(s: Machine)
    requires Placed(s)
    ensures Reaches(s, 0, s) && Reaches(s, 1, Step(s))
  {
    RunOne(s, 0);
    hide Step;
  }

  lemma StartSearch(ts: seq<Token>, i: nat, id: nat)
    requires i < |ts| && FreeOpen(ts[i])
    ensures Reaches(Outer(ts, i, id), 1, Inner(ts, i, i + 1, id))
  {
    OneStep(Outer(ts, i, id));
  }

  lemma PassOver(ts: seq<Token>, i: nat, j: nat, id: nat)
    requires i < j < |ts| && FreeOpen(ts[i]) && !FreeClose(ts[j])
    ensures Step(Inner(ts, i, j, id)) == Inner(ts, i, j + 1, id)
    ensures Reaches(Inner(ts, i, j, id), 1, Inner(ts, i, j + 1, id))
  {
    OneStep(Inner(ts, i, j, id));
  }

  lemma OnOuter(ts: seq<Token>, i: nat, id: nat)
    requires i < |ts| && !FreeOpen(ts[i])
    ensures Reaches(Outer(ts, i, id), 1, Outer(ts, i + 1, id))
  {
    OneStep(Outer(ts, i, id));
  }

  predicate NoOpen(ts: seq<Token>, from: nat, to: nat) {
    to <= |ts| && forall p :: from <= p < to ==> !FreeOpen(ts[p])
  }

  predicate NoClose(ts: seq<Token>, from: nat, to: nat) {
    to <= |ts| && forall p :: from <= p < to ==> !FreeClose(ts[p])
  }

  /** The outer loop passes over everything that is no free open marker. */
  lemma {:induction false} OuterOn(ts: seq<Token>, i: nat, k: nat, id: nat)
    requires i <= k && NoOpen(ts, i, k)
    ensures Reaches(Outer(ts, i, id), k - i, Outer(ts, k, id))
    decreases k - i
  {
    hide Reaches, FreeOpen, Step;
    if i < k {
      OnOuter(ts, i, id);
      OuterOn(ts, i + 1, k, id);
      Then(Outer(ts, i, id), 1, Outer(ts, i + 1, id), k - i - 1, Outer(ts, k, id));
    } else {
      OneStep(Outer(ts, i, id));
    }
  }

  /** The search passes over everything that is no free close marker. */
  lemma {:induction false} SearchOn(ts: seq<Token>, i: nat, j: nat, k: nat, id: nat)
    requires i < j <= k && NoClose(ts, j, k) && FreeOpen(ts[i])
    ensures Reaches(Inner(ts, i, j, id), k - j, Inner(ts, i, k, id))
    decreases k - j
  {
    hide Reaches, FreeOpen, FreeClose, Step;
    if j < k {
      PassOver(ts, i, j, id);
      SearchOn(ts, i, j + 1, k, id);
      Then(Inner(ts, i, j, id), 1, Inner(ts, i, j + 1, id), k - j - 1, Inner(ts, i, k, id));
    } else {
      OneStep(Inner(ts, i, j, id));
    }
  }

  /** The first free open marker from `from` on stands at `i`, and the first free close marker after it at `j`. */
  predicate FirstPair(ts: seq<Token>, from: nat, i: nat, j: nat) {
    from <= i < j < |ts| && FreeOpen(ts[i]) && FreeClose(ts[j]) && NoOpen(ts, from, i) && NoClose(ts, i + 1, j)
  }

  lemma ReachPair(ts: seq<Token>, from: nat, i: nat, j: nat, id: nat)
    requires FirstPair(ts, from, i, j)
    ensures Reaches(Outer(ts, from, id), j - from, Inner(ts, i, j, id))
  {
    hide Reaches, FreeOpen, FreeClose, Step, NoOpen, NoClose;
    OuterOn(ts, from, i, id);
    StartSearch(ts, i, id);
    SearchOn(ts, i, i + 1, j, id);
    Then(Outer(ts, from, id), i - from, Outer(ts, i, id), 1, Inner(ts, i, i + 1, id));
    Then(Outer(ts, from, id), i - from + 1, Inner(ts, i, i + 1, id), j - i - 1, Inner(ts, i, j, id));
  }

  /** The loops run for ever if the first free open marker and the first free close marker after it are both of size 3
      and differ in character. */
  lemma FirstPairNeverHalts(ts: seq<Token>, i: nat, j: nat)
    requires FirstPair(ts, 0, i, j) && ts[i].size == 3 && ts[j].size == 3 && ts[i].ch != ts[j].ch
    ensures !Halts(Start(ts))
  {
    ReachPair(ts, 0, i, j, 0);
    hide Run, Step;
    ClashNeverHalts(Start(ts), j);
  }

  /** Two markers are enough. */
  lemma ClashingPairNeverHalts()
    ensures !Halts(Start([Marker(true, '*', 3, Free), Marker(false, '_', 3, Free)]))
  {
    FirstPairNeverHalts([Marker(true, '*', 3, Free), Marker(false, '_', 3, Free)], 0, 1);
  }
}
