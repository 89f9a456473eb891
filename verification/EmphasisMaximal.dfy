/** The pairing loops leave nothing unpaired that could have been paired. */
module EmphasisMaximal {
  import opened EmphasisModel
  import opened EmphasisTermination

  /** The open and the close marker could be paired, if need be after splitting one of them. */
  predicate CouldPair(o: Token, c: Token)
    requires o.Marker? && c.Marker?
  {
    o.size == 3 || c.size == 3 || (o.ch == c.ch && o.size == c.size)
  }

  /** No free open marker before position `i` has a later free close marker it could be paired with. */
  predicate SettledBefore(ts: seq<Token>, i: nat) {
    forall p, q :: 0 <= p < i && p < q < |ts| && FreeOpen(ts[p]) && FreeClose(ts[q]) ==> !CouldPair(ts[p], ts[q])
  }

  predicate PassedOver(ts: seq<Token>, i: nat, j: nat)
    requires i < |ts| && ts[i].Marker?
  {
    forall q :: i < q < j && q < |ts| && FreeClose(ts[q]) ==> !CouldPair(ts[i], ts[q])
  }

  predicate Settled(s: Machine)
    requires Placed(s)
  {
    match s
    case Outer(ts, i, _) => SettledBefore(ts, i)
    case Inner(ts, i, j, _) => SettledBefore(ts, i) && PassedOver(ts, i, j)
    case Done(ts, _) => SettledBefore(ts, |ts|)
  }

  lemma SplitCloseSettled(ts: seq<Token>, i: nat, j: nat)
    requires i < j < |ts| && FreeOpen(ts[i]) && 0 < ts[i].size < 3 && FreeClose(ts[j]) && ts[j].size == 3
    requires SettledBefore(ts, i) && PassedOver(ts, i, j)
    ensures var r := Split(ts, j, ts[i].size); SettledBefore(r, i) && PassedOver(r, i, j + 1)
  {
  }

  lemma SplitOpenSettled(ts: seq<Token>, i: nat, n: Size)
    requires i < |ts| && FreeOpen(ts[i]) && SettledBefore(ts, i)
    ensures SettledBefore(Split(ts, i, n), i + 1)
  {
  }

  lemma StepSettles(s: Machine)
    requires Placed(s) && ProperSizes(s.tokens) && !Clash(s) && Settled(s)
    ensures Settled(Step(s))
  {
    hide Split;
    if s.Inner? && s.j < |s.tokens| && FreeClose(s.tokens[s.j]) {
      var ts, i, j := s.tokens, s.i, s.j;
      assert ts[i] in ts && ts[j] in ts;
      if ts[j].size == 3 && ts[i].size != 3 {
        SplitCloseSettled(ts, i, j);
      } else if ts[j].ch == ts[i].ch && ts[j].size == ts[i].size {
      } else if ts[i].size == 3 {
        SplitOpenSettled(ts, i, ts[j].size);
      }
    }
  }

  lemma {:induction false} RunSettles(s: Machine, n: nat)
    requires Placed(s) && ProperSizes(s.tokens) && NeverClashes(s) && Settled(s)
    ensures ProperSizes(Run(s, n).tokens) && Settled(Run(s, n))
  {
    if n > 0 {
      RunSettles(s, n - 1);
      var s' := Run(s, n - 1);
      StepSettles(s');
      if !s'.Done? { StepMakesProgress(s'); }
    }
  }

  /** When the loops end, no free open marker is followed by a free close marker it could be paired with: neither
      of them is of size 3, and they differ in character or size. */
  lemma HaltedIsMaximal(ts: seq<Token>, n: nat)
    requires ProperSizes(ts) && Run(Start(ts), n).Done?
    ensures var r := Run(Start(ts), n).tokens; ProperSizes(r) && SettledBefore(r, |r|)
  {
    HaltsIffNeverClashes(ts);
    RunSettles(Start(ts), n);
  }
}
