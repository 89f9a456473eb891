/** The emphasis matcher on values: the pairing loops as a small-step machine over the token list.

    A pointer between two markers is represented by the id both of them carry, so a marker is either free,
    disabled (replaced by the two markers it was split into) or paired under an id. */
module EmphasisModel {

  type Size = n: nat | n <= 3

  datatype State = Free | Disabled | Paired(id: nat)

  datatype Token =
    | Text(text: string)
    | Marker(open: bool, ch: char, size: Size, state: State)

  predicate FreeOpen(t: Token) {
    t.Marker? && t.open && t.state.Free?
  }

  predicate FreeClose(t: Token) {
    t.Marker? && !t.open && t.state.Free?
  }

  predicate IsPaired(t: Token) {
    t.Marker? && t.state.Paired?
  }

  predicate PairedUnder(t: Token, id: nat) {
    IsPaired(t) && t.state.id == id
  }

  /** The marker a paired marker points to. */
  function Twin(t: Token): Token
    requires t.Marker?
  {
    t.(open := !t.open)
  }

  function Pair(t: Token, id: nat): Token
    requires t.Marker?
  {
    t.(state := Paired(id))
  }

  function Disable(t: Token): Token
    requires t.Marker?
  {
    t.(state := Disabled)
  }

  // ----- The pairing loops, one iteration a step -----

  /** `Outer`: the outer loop is about to look at position `i`. `Inner`: the outer loop stands at the open marker
      at `i` and the search for its close marker is about to look at position `j`. */
  datatype Machine =
    | Outer(tokens: seq<Token>, i: nat, id: nat)
    | Inner(tokens: seq<Token>, i: nat, j: nat, id: nat)
    | Done(tokens: seq<Token>, id: nat)

  /** The list after the marker at `k` is split into a part of size `n` and, before it, one with the leftovers. */
  function Split(ts: seq<Token>, k: nat, n: Size): (r: seq<Token>)
    requires k < |ts| && ts[k].Marker?
    ensures |r| == |ts| + 2
    ensures forall p :: 0 <= p < k ==> r[p] == ts[p]
    ensures r[k] == Disable(ts[k])
    ensures r[k + 1] == Marker(ts[k].open, ts[k].ch, 3 - n, Free)
    ensures r[k + 2] == Marker(ts[k].open, ts[k].ch, n, Free)
    ensures forall p :: k + 2 < p < |r| ==> r[p] == ts[p - 2]
  {
    ts[..k] + [Disable(ts[k]), Marker(ts[k].open, ts[k].ch, 3 - n, Free), Marker(ts[k].open, ts[k].ch, n, Free)]
    + ts[k+1..]
  }

  /** The machine is well placed: its positions are inside the list and an inner search has a free open marker. */
  predicate Placed(s: Machine) {
    match s
    case Outer(ts, i, _) => i <= |ts|
    case Inner(ts, i, j, _) => i < j <= |ts| && FreeOpen(ts[i])
    case Done(_, _) => true
  }

  function Step(s: Machine): (r: Machine)
    requires Placed(s)
    ensures Placed(r)
  {
    match s
    case Done(_, _) => s
    case Outer(ts, i, id) =>
      if i == |ts| then Done(ts, id)
      else if FreeOpen(ts[i]) then Inner(ts, i, i + 1, id)
      else Outer(ts, i + 1, id)
    case Inner(ts, i, j, id) =>
      if j == |ts| then Outer(ts, i + 1, id)
      else if !FreeClose(ts[j]) then Inner(ts, i, j + 1, id)
      else if ts[j].size == 3 && ts[i].size != 3 then Inner(Split(ts, j, ts[i].size), i, j + 1, id)
      else if ts[j].ch == ts[i].ch && ts[j].size == ts[i].size then
        Outer(ts[i := Pair(ts[i], id)][j := Pair(ts[j], id)], i + 1, id + 1)
      else if ts[i].size == 3 then Outer(Split(ts, i, ts[j].size), i + 1, id)
      else Inner(ts, i, j + 1, id)
  }

  function Run(s: Machine, n: nat): (r: Machine)
    requires Placed(s)
    ensures Placed(r)
  {
    if n == 0 then s else Step(Run(s, n - 1))
  }

  function Start(ts: seq<Token>): (s: Machine)
    ensures Placed(s)
  {
    Outer(ts, 0, 0)
  }

  // ----- What every step keeps -----

  /** Of two markers paired under the same id, the earlier one is the open marker and the later one the close
      marker, and they agree in character and size. (Hence an id never marks three tokens.) */
  predicate InOrder(ts: seq<Token>) {
    forall p, q :: 0 <= p < q < |ts| && IsPaired(ts[p]) && PairedUnder(ts[q], ts[p].state.id) ==>
      ts[p].open && ts[q] == Twin(ts[p])
  }

  predicate HasTwin(ts: seq<Token>, t: Token) {
    t.Marker? && Twin(t) in ts
  }

  predicate Mutual(ts: seq<Token>) {
    forall t {:trigger HasTwin(ts, t)} :: t in ts && IsPaired(t) ==> HasTwin(ts, t)
  }

  predicate IdsBelow(ts: seq<Token>, id: nat) {
    forall t :: t in ts && IsPaired(t) ==> t.state.id < id
  }

  predicate WellPaired(ts: seq<Token>) {
    InOrder(ts) && Mutual(ts)
  }

  predicate WellPairedSoFar(s: Machine) {
    WellPaired(s.tokens) && IdsBelow(s.tokens, s.id)
  }

  lemma MatchKeepsPairing(ts: seq<Token>, i: nat, j: nat, id: nat)
    requires i < j < |ts| && FreeOpen(ts[i]) && FreeClose(ts[j])
    requires ts[i].ch == ts[j].ch && ts[i].size == ts[j].size
    requires WellPaired(ts) && IdsBelow(ts, id)
    ensures var r := ts[i := Pair(ts[i], id)][j := Pair(ts[j], id)];
            WellPaired(r) && IdsBelow(r, id + 1)
  {
    var r := ts[i := Pair(ts[i], id)][j := Pair(ts[j], id)];
    assert r[j] == Twin(r[i]) && r[i] == Twin(r[j]);
    forall t | t in r && IsPaired(t)
      ensures HasTwin(r, t) && t.state.id < id + 1
    {
      var p :| 0 <= p < |r| && r[p] == t;
      if p != i && p != j {
        assert t == ts[p] && t in ts && HasTwin(ts, t);
        var q :| 0 <= q < |ts| && ts[q] == Twin(t);
        assert r[q] == ts[q];
      }
    }
    forall p, q | 0 <= p < q < |r| && IsPaired(r[p]) && PairedUnder(r[q], r[p].state.id)
      ensures r[p].open && r[q] == Twin(r[p])
    {
      if p != i && p != j {
        assert ts[p] in ts;
      }
      if q != i && q != j {
        assert ts[q] in ts;
      }
    }
  }

  lemma SplitKeepsOrder(ts: seq<Token>, k: nat, n: Size)
    requires k < |ts| && ts[k].Marker? && ts[k].state.Free?
    requires InOrder(ts)
    ensures InOrder(Split(ts, k, n))
  {
  }

  lemma SplitKeepsPaired(ts: seq<Token>, k: nat, n: Size, t: Token)
    requires k < |ts| && ts[k].Marker? && ts[k].state.Free? && IsPaired(t)
    ensures t in Split(ts, k, n) <==> t in ts
  {
  }

  /** Splitting a free marker leaves the pairing as it is. */
  lemma SplitKeepsPairing(ts: seq<Token>, k: nat, n: Size, id: nat)
    requires k < |ts| && ts[k].Marker? && ts[k].state.Free?
    requires WellPaired(ts) && IdsBelow(ts, id)
    ensures WellPaired(Split(ts, k, n)) && IdsBelow(Split(ts, k, n), id)
  {
    SplitKeepsOrder(ts, k, n);
    var r := Split(ts, k, n);
    forall t | t in r && IsPaired(t)
      ensures HasTwin(r, t) && t.state.id < id
    {
      assert HasTwin(ts, t) by { SplitKeepsPaired(ts, k, n, t); }
      SplitKeepsPaired(ts, k, n, t);
      SplitKeepsPaired(ts, k, n, Twin(t));
    }
  }

  /** Every step of the pairing loops keeps the pairing well formed: whatever the list. */
  lemma StepKeepsPairing(s: Machine)
    requires Placed(s) && WellPairedSoFar(s)
    ensures WellPairedSoFar(Step(s))
  {
    if s.Inner? && s.j < |s.tokens| && FreeClose(s.tokens[s.j]) {
      var ts, i, j := s.tokens, s.i, s.j;
      if ts[j].size == 3 && ts[i].size != 3 {
        SplitKeepsPairing(ts, j, ts[i].size, s.id);
      } else if ts[j].ch == ts[i].ch && ts[j].size == ts[i].size {
        MatchKeepsPairing(ts, i, j, s.id);
      } else if ts[i].size == 3 {
        SplitKeepsPairing(ts, i, ts[j].size, s.id);
      }
    }
  }

  lemma {:induction false} RunKeepsPairing(s: Machine, n: nat)
    requires Placed(s) && WellPairedSoFar(s)
    ensures WellPairedSoFar(Run(s, n))
  {
    hide Step, WellPaired, IdsBelow;
    if n > 0 {
      RunKeepsPairing(s, n - 1);
      StepKeepsPairing(Run(s, n - 1));
    }
  }

  // ----- Conservation of the source text -----

  function Repeat(c: char, n: nat): (r: string)
    ensures |r| == n && forall k :: 0 <= k < n ==> r[k] == c
  {
    seq(n, _ => c)
  }

  /** The source characters a token stands for. */
  function Literal(t: Token): string {
    match t
    case Text(text) => text
    case Marker(_, ch, size, state) => if state.Disabled? then "" else Repeat(ch, size)
  }

  /** The source characters the whole list stands for, in order. */
  function Source(ts: seq<Token>): string {
    if ts == [] then "" else Literal(ts[0]) + Source(ts[1..])
  }

  lemma {:induction false} SourceConcat(a: seq<Token>, b: seq<Token>)
    ensures Source(a + b) == Source(a) + Source(b)
  {
    if a == [] {
      assert a + b == b;
    } else {
      assert (a + b)[1..] == a[1..] + b;
      SourceConcat(a[1..], b);
    }
  }

  /** Replacing one token by tokens that stand for the same characters leaves the source as it is. */
  lemma SourceReplace(a: seq<Token>, t: Token, new_: seq<Token>, b: seq<Token>)
    requires Source(new_) == Literal(t)
    ensures Source(a + new_ + b) == Source(a + [t] + b)
  {
    assert Source([t]) == Literal(t) + Source([]) == Literal(t);
    SourceConcat(a + new_, b);
    SourceConcat(a, new_);
    SourceConcat(a + [t], b);
    SourceConcat(a, [t]);
  }

  lemma SourceUpdate(ts: seq<Token>, k: nat, t: Token)
    requires k < |ts| && Literal(t) == Literal(ts[k])
    ensures Source(ts[k := t]) == Source(ts)
  {
    assert ts == ts[..k] + [ts[k]] + ts[k+1..];
    assert ts[k := t] == ts[..k] + [t] + ts[k+1..];
    assert Source([t]) == Literal(t) + Source([]) == Literal(t);
    SourceReplace(ts[..k], ts[k], [t], ts[k+1..]);
  }

  lemma SourceOfThree(parts: seq<Token>)
    requires |parts| == 3
    ensures Source(parts) == Literal(parts[0]) + (Literal(parts[1]) + Literal(parts[2]))
  {
    assert parts[1..][1..] == parts[2..] && parts[2..][1..] == [];
    assert Source(parts[2..]) == Literal(parts[2]);
  }

  lemma SourceOfParts(t: Token, n: Size)
    requires t.Marker? && t.size == 3 && t.state.Free?
    ensures Source([Disable(t), Marker(t.open, t.ch, 3 - n, Free), Marker(t.open, t.ch, n, Free)]) == Literal(t)
  {
    var parts := [Disable(t), Marker(t.open, t.ch, 3 - n, Free), Marker(t.open, t.ch, n, Free)];
    hide Source;
    SourceOfThree(parts);
    assert Literal(parts[1]) + Literal(parts[2]) == Literal(t);
  }

  lemma SourceSplit(ts: seq<Token>, k: nat, n: Size)
    requires k < |ts| && ts[k].Marker? && ts[k].size == 3 && ts[k].state.Free?
    ensures Source(Split(ts, k, n)) == Source(ts)
  {
    hide Source, Literal;
    var t := ts[k];
    SourceOfParts(t, n);
    SourceReplace(ts[..k], t, [Disable(t), Marker(t.open, t.ch, 3 - n, Free), Marker(t.open, t.ch, n, Free)], ts[k+1..]);
    assert ts == ts[..k] + [t] + ts[k+1..];
  }

  /** Splitting and matching lose no character of the source and invent none: at every step, whatever the list. */
  lemma StepKeepsSource(s: Machine)
    requires Placed(s)
    ensures Source(Step(s).tokens) == Source(s.tokens)
  {
    if s.Inner? && s.j < |s.tokens| && FreeClose(s.tokens[s.j]) {
      var ts, i, j := s.tokens, s.i, s.j;
      if ts[j].size == 3 && ts[i].size != 3 {
        SourceSplit(ts, j, ts[i].size);
      } else if ts[j].ch == ts[i].ch && ts[j].size == ts[i].size {
        SourceUpdate(ts, i, Pair(ts[i], s.id));
        SourceUpdate(ts[i := Pair(ts[i], s.id)], j, Pair(ts[j], s.id));
      } else if ts[i].size == 3 {
        SourceSplit(ts, i, ts[j].size);
      }
    }
  }

  lemma {:induction false} RunKeepsSource(s: Machine, n: nat)
    requires Placed(s)
    ensures Source(Run(s, n).tokens) == Source(s.tokens)
  {
    hide Step, Source;
    if n > 0 {
      RunKeepsSource(s, n - 1);
      StepKeepsSource(Run(s, n - 1));
    }
  }
}
