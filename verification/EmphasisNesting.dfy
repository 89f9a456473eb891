/** Pairs of positions: which of them survive when crossing pairs are taken apart, and why the survivors nest. */
module Matching {

  const NONE := -1

  /** `m[p]` is the position that `p` is paired with, or `NONE`. */
  predicate IsMatching(m: seq<int>) {
    && (forall p :: 0 <= p < |m| ==> m[p] == NONE || (0 <= m[p] < |m| && m[p] != p))
    && (forall p, q :: 0 <= p < |m| && 0 <= q < |m| && m[p] == q ==> m[q] == p)
  }

  predicate Opens(m: seq<int>, p: int) {
    0 <= p < |m| && p < m[p]
  }

  predicate Closes(m: seq<int>, p: int) {
    0 <= p < |m| && 0 <= m[p] < p
  }

  /** The pair that opens at `b` opens inside the pair from `a` to `c` and closes after it. */
  predicate Crosses(m: seq<int>, a: int, b: int, c: int) {
    a < b < c && Opens(m, b) && c < m[b]
  }

  /** Some pair opens inside the pair that `p` belongs to and closes after it. */
  ghost predicate Crossed(m: seq<int>, p: int) {
    if Opens(m, p) then exists b :: Crosses(m, p, b, m[p])
    else Closes(m, p) && exists b :: Crosses(m, m[p], b, p)
  }

  /** The matching without the pairs that another pair crosses from inside. */
  ghost function Uncross(m: seq<int>): (r: seq<int>)
    ensures |r| == |m|
  {
    seq(|m|, p requires 0 <= p < |m| => if Crossed(m, p) then NONE else m[p])
  }

  /** No two pairs cross: of two pairs the one that opens later lies inside the other or after it. */
  ghost predicate Nested(m: seq<int>) {
    forall p, q :: p < q && Opens(m, p) && Opens(m, q) ==> m[p] < q || m[q] < m[p]
  }

  lemma CrossedTogether(m: seq<int>, p: int)
    requires IsMatching(m) && 0 <= p < |m| && m[p] != NONE
    ensures Crossed(m, p) <==> Crossed(m, m[p])
  {
  }

  /** The survivors are a matching and never cross. */
  lemma UncrossNests(m: seq<int>)
    requires IsMatching(m)
    ensures IsMatching(Uncross(m)) && Nested(Uncross(m))
  {
    var r := Uncross(m);
    forall p, q | 0 <= p < |r| && 0 <= q < |r| && r[p] == q
      ensures r[q] == p
    {
      CrossedTogether(m, p);
    }
    forall p, q | p < q && Opens(r, p) && Opens(r, q)
      ensures r[p] < q || r[q] < r[p]
    {
      assert !Crossed(m, p) && !Crosses(m, p, q, m[p]);
      assert m[m[p]] == p && m[m[q]] == q;
    }
  }

  lemma NestedIsKept(m: seq<int>)
    requires IsMatching(m) && Nested(m)
    ensures Uncross(m) == m
  {
    forall p | 0 <= p < |m|
      ensures !Crossed(m, p)
    {
      if Opens(m, p) {
        assert forall b :: p < b && Opens(m, b) ==> !Crosses(m, p, b, m[p]);
      } else if Closes(m, p) {
        assert Opens(m, m[p]);
        assert forall b :: m[p] < b && Opens(m, b) ==> !Crosses(m, m[p], b, p);
      }
    }
  }

  /** A matching is left alone exactly when it nests, and a second pass changes nothing. */
  lemma UncrossKeepsNested(m: seq<int>)
    requires IsMatching(m)
    ensures Uncross(m) == m <==> Nested(m)
    ensures Uncross(Uncross(m)) == Uncross(m)
  {
    UncrossNests(m);
    if Nested(m) { NestedIsKept(m); }
    NestedIsKept(Uncross(m));
  }

  /** The survivors and the pair that opens at `p`. */
  ghost function PutBack(m: seq<int>, p: int): (r: seq<int>)
    requires IsMatching(m) && Opens(m, p)
  {
    Uncross(m)[p := m[p]][m[p] := p]
  }

  lemma PutBackMatches(m: seq<int>, p: int)
    requires IsMatching(m) && Opens(m, p)
    ensures IsMatching(PutBack(m, p))
    ensures forall q :: Opens(PutBack(m, p), q) <==> q == p || (Opens(m, q) && !Crossed(m, q))
    ensures forall q :: Opens(PutBack(m, p), q) ==> PutBack(m, p)[q] == m[q]
  {
    UncrossNests(m);
    CrossedTogether(m, p);
  }

  /** A pair that was taken apart could have stayed, without crossing a survivor, exactly when every pair that crosses
      it from inside was taken apart too. */
  lemma CouldStayIff(m: seq<int>, p: int)
    requires IsMatching(m) && Opens(m, p)
    ensures IsMatching(PutBack(m, p))
    ensures Nested(PutBack(m, p)) <==> forall b :: Crosses(m, p, b, m[p]) ==> Crossed(m, b)
  {
    var r := PutBack(m, p);
    PutBackMatches(m, p);
    hide PutBack, Crossed, Crosses;
    if forall b :: Crosses(m, p, b, m[p]) ==> Crossed(m, b) {
      forall a, b | a < b && Opens(r, a) && Opens(r, b)
        ensures r[a] < b || r[b] < r[a]
      {
        if a == p { ApartOrCrosses(m, a, b); } else { SurvivorApart(m, a, b); }
      }
    } else {
      var b :| Crosses(m, p, b, m[p]) && !Crossed(m, b);
      ApartOrCrosses(m, p, b);
    }
  }

  lemma ApartOrCrosses(m: seq<int>, a: int, b: int)
    requires IsMatching(m) && Opens(m, a)
    ensures Crosses(m, a, b, m[a]) ==> a < b && Opens(m, b) && !(m[a] < b || m[b] < m[a])
    ensures Opens(m, b) && a < b && !Crosses(m, a, b, m[a]) ==> m[a] < b || m[b] < m[a]
  {
    if 0 <= b < |m| { assert m[m[a]] == a && (Opens(m, b) ==> m[m[b]] == b); }
  }

  lemma SurvivorApart(m: seq<int>, a: int, b: int)
    requires IsMatching(m) && Opens(m, a) && !Crossed(m, a) && Opens(m, b) && a < b
    ensures m[a] < b || m[b] < m[a]
  {
    ApartOrCrosses(m, a, b);
  }

  /** It happens to the first of three pairs that cross in a chain, as in `*a **b* _c** d_`. */
  lemma FirstOfChainCouldStay()
    ensures var m := [2, 4, 0, 5, 1, 3];
            && IsMatching(m) && Crossed(m, 0) && Uncross(m) == [NONE, NONE, NONE, 5, NONE, 3]
            && PutBack(m, 0) == [2, NONE, 0, 5, NONE, 3] && Nested(PutBack(m, 0))
  {
    var m := [2, 4, 0, 5, 1, 3];
    assert Crosses(m, 0, 1, 2) && Crosses(m, 1, 3, 4);
    assert Crossed(m, 0) && Crossed(m, 1) && Crossed(m, 2) && Crossed(m, 4);
    CouldStayIff(m, 0);
  }

  /** The stack of open positions after position `n`, given the one before it. */
  function PushOrPop(m: seq<int>, n: int, s: seq<int>): seq<int> {
    if Opens(m, n) then s + [n] else if Closes(m, n) && s != [] then s[..|s|-1] else s
  }

  /** The positions before `n` that open a pair still open at `n`, in order, as a stack. */
  function StillOpen(m: seq<int>, n: nat): seq<int> {
    if n == 0 then [] else PushOrPop(m, n - 1, StillOpen(m, n - 1))
  }

  ghost predicate ExactlyOpen(m: seq<int>, n: nat, s: seq<int>) {
    && (forall k :: 0 <= k < |s| ==> 0 <= s[k] < n && Opens(m, s[k]) && n <= m[s[k]])
    && (forall k, l :: 0 <= k < l < |s| ==> s[k] < s[l])
    && (forall p :: 0 <= p < n && Opens(m, p) && n <= m[p] ==> p in s)
  }

  lemma TopIsMate(m: seq<int>, n: nat, s: seq<int>)
    requires IsMatching(m) && Nested(m) && Closes(m, n) && ExactlyOpen(m, n, s)
    ensures s != [] && s[|s|-1] == m[n]
  {
    assert Opens(m, m[n]) && m[n] in s;
    var top := s[|s|-1];
    assert Opens(m, top) && n <= m[top];
    assert m[n] <= top;
  }

  lemma PushKeepsExact(m: seq<int>, n: nat, s: seq<int>)
    requires IsMatching(m) && Opens(m, n) && ExactlyOpen(m, n, s)
    ensures ExactlyOpen(m, n + 1, s + [n])
  {
  }

  lemma PopKeepsExact(m: seq<int>, n: nat, s: seq<int>)
    requires IsMatching(m) && Closes(m, n) && ExactlyOpen(m, n, s) && s != [] && s[|s|-1] == m[n]
    ensures ExactlyOpen(m, n + 1, s[..|s|-1])
  {
  }

  lemma SkipKeepsExact(m: seq<int>, n: nat, s: seq<int>)
    requires IsMatching(m) && n < |m| && m[n] == NONE && ExactlyOpen(m, n, s)
    ensures ExactlyOpen(m, n + 1, s)
  {
  }

  lemma StepKeepsExact(m: seq<int>, n: nat, s: seq<int>)
    requires IsMatching(m) && Nested(m) && n < |m| && ExactlyOpen(m, n, s)
    ensures ExactlyOpen(m, n + 1, PushOrPop(m, n, s))
  {
    if Opens(m, n) {
      PushKeepsExact(m, n, s);
    } else if Closes(m, n) {
      TopIsMate(m, n, s);
      PopKeepsExact(m, n, s);
    } else {
      SkipKeepsExact(m, n, s);
    }
  }

  lemma StillOpenUnfolds(m: seq<int>, n: nat)
    ensures StillOpen(m, 0) == [] && ExactlyOpen(m, 0, [])
    ensures StillOpen(m, n + 1) == PushOrPop(m, n, StillOpen(m, n))
  {
  }

  /** At every position the stack holds exactly the pairs open there. */
  lemma {:induction false} StillOpenIsExact(m: seq<int>, n: nat)
    requires IsMatching(m) && Nested(m) && n <= |m|
    ensures ExactlyOpen(m, n, StillOpen(m, n))
  {
    hide *;
    if n == 0 {
      StillOpenUnfolds(m, 0);
    } else {
      StillOpenUnfolds(m, n - 1);
      StillOpenIsExact(m, n - 1);
      StepKeepsExact(m, n - 1, StillOpen(m, n - 1));
    }
  }

  // ----- The stack of the unmatching pass -----

  /** Position at which the pair of `p` closes. */
  function CloseOf(m: seq<int>, p: int): int {
    if Opens(m, p) then m[p] else p
  }

  /** What the stack holds before position `n`: every pair still open, and with them pairs that were taken apart
      when they closed. */
  ghost predicate StackHolds(m: seq<int>, n: nat, s: seq<int>) {
    && (forall k :: 0 <= k < |s| ==> 0 <= s[k] < n && Opens(m, s[k]) && (n <= m[s[k]] || Crossed(m, s[k])))
    && (forall k, l :: 0 <= k < l < |s| ==> s[k] < s[l])
    && (forall p :: 0 <= p < n && Opens(m, p) && n <= m[p] ==> p in s)
  }

  /** The pair on top of the stack has not closed yet. */
  predicate TopIsOpen(m: seq<int>, n: nat, s: seq<int>) {
    s != [] ==> 0 <= s[|s|-1] < |m| && n <= m[s[|s|-1]]
  }

  /** At a close position the stack is not empty, and its top is the pair that closes exactly when no other pair
      crosses it from inside. */
  lemma TopDecides(m: seq<int>, n: nat, s: seq<int>)
    requires IsMatching(m) && Closes(m, n) && StackHolds(m, n, s) && TopIsOpen(m, n, s)
    ensures s != [] && (s[|s|-1] == m[n] <==> !Crossed(m, n))
    ensures Crossed(m, m[n]) <==> Crossed(m, n)
  {
    var a := m[n];
    assert Opens(m, a) && a in s;
    var top := s[|s|-1];
    assert a <= top;
    if top != a {
      assert m[top] != n;
      assert Crosses(m, a, top, n);
    } else {
      forall b | a < b < n && Opens(m, b)
        ensures m[b] <= n
      {
        assert b !in s;
      }
    }
  }

  lemma EmptyHolds(m: seq<int>)
    ensures StackHolds(m, 0, []) && TopIsOpen(m, 0, [])
  {
  }

  lemma PushHolds(m: seq<int>, n: nat, s: seq<int>)
    requires IsMatching(m) && Opens(m, n) && StackHolds(m, n, s)
    ensures StackHolds(m, n + 1, s + [n]) && TopIsOpen(m, n + 1, s + [n])
  {
    hide Crossed;
    forall p | 0 <= p < n + 1 && Opens(m, p) && n + 1 <= m[p]
      ensures p in s + [n]
    {
      assert p == n || p in s;
    }
    forall k | 0 <= k < |s|
      ensures m[s[k]] != n
    {
    }
  }

  lemma KeepHolds(m: seq<int>, n: nat, s: seq<int>)
    requires IsMatching(m) && n < |m| && !Opens(m, n) && StackHolds(m, n, s) && TopIsOpen(m, n, s)
    requires Closes(m, n) ==> Crossed(m, n)
    ensures StackHolds(m, n + 1, s) && TopIsOpen(m, n + 1, s)
  {
  }

  lemma PopClosed(m: seq<int>, n: nat, s: seq<int>)
    requires IsMatching(m) && StackHolds(m, n, s) && s != [] && n < |m| && m[n] == s[|s|-1] && Closes(m, n)
    ensures StackHolds(m, n + 1, s[..|s|-1])
  {
  }

  lemma PopCancelled(m: seq<int>, n: nat, s: seq<int>)
    requires StackHolds(m, n, s) && s != [] && m[s[|s|-1]] < n
    ensures StackHolds(m, n, s[..|s|-1])
  {
  }
}

/** Which emphasis pairs survive the unmatching pass, and why the tags written for the survivors balance. */
module EmphasisNesting {
  import opened EmphasisModel
  import EmphasisMaximal
  import M = Matching
  import T = EmphasisTermination

  /** `m` says of every marker where the marker is that it is paired with. */
  predicate MatesAre(ts: seq<Token>, m: seq<int>) {
    && |m| == |ts| && M.IsMatching(m)
    && (forall p :: 0 <= p < |ts| ==> (IsPaired(ts[p]) <==> m[p] != M.NONE))
    && (forall p, q {:trigger m[p], ts[q]} :: 0 <= p < |ts| && 0 <= q < |ts| && m[p] == q ==>
          ts[p].Marker? && ts[q] == Twin(ts[p]) && (ts[p].open <==> p < q))
  }

  ghost function MateOf(ts: seq<Token>, p: nat): (q: int)
    requires WellPaired(ts) && p < |ts|
    ensures if IsPaired(ts[p]) then 0 <= q < |ts| && ts[q] == Twin(ts[p]) else q == M.NONE
  {
    if IsPaired(ts[p]) then
      assert HasTwin(ts, ts[p]);
      var q :| 0 <= q < |ts| && ts[q] == Twin(ts[p]);
      q
    else M.NONE
  }

  /** The pairing of a well-paired list by position. */
  ghost function Mates(ts: seq<Token>): (m: seq<int>)
    requires WellPaired(ts)
    ensures MatesAre(ts, m)
  {
    var m := seq(|ts|, p requires 0 <= p < |ts| => MateOf(ts, p));
    m
  }

  lemma MatesMatch(ts: seq<Token>)
    requires WellPaired(ts)
    ensures M.IsMatching(Mates(ts)) && |Mates(ts)| == |ts|
  {
  }

  lemma PairedOnce(ts: seq<Token>, p: nat, q: nat)
    requires InOrder(ts) && p < |ts| && q < |ts| && IsPaired(ts[p]) && ts[p] == ts[q]
    ensures p == q
  {
  }

  lemma MatesAreUnique(ts: seq<Token>, m: seq<int>)
    requires WellPaired(ts) && MatesAre(ts, m)
    ensures m == Mates(ts)
  {
    var m' := Mates(ts);
    forall p | 0 <= p < |ts|
      ensures m[p] == m'[p]
    {
      if IsPaired(ts[p]) { PairedOnce(ts, m[p], m'[p]); }
    }
  }

  function Unpair(t: Token): Token
    requires t.Marker?
  {
    t.(state := Free)
  }

  /** The list in which exactly the pairs that another pair crosses from inside are taken apart. */
  ghost function Uncross(ts: seq<Token>): (r: seq<Token>)
    requires WellPaired(ts)
    ensures |r| == |ts|
  {
    var m := Mates(ts);
    seq(|ts|, p requires 0 <= p < |ts| => if IsPaired(ts[p]) && M.Crossed(m, p) then Unpair(ts[p]) else ts[p])
  }

  ghost predicate Nested(ts: seq<Token>)
    requires WellPaired(ts)
  {
    M.Nested(Mates(ts))
  }

  /** The list when the unmatching pass stands at position `n`: of the crossed pairs those that close before `n`
      have been taken apart. */
  ghost function UncrossUpTo(ts: seq<Token>, n: nat): (r: seq<Token>)
    requires WellPaired(ts)
    ensures |r| == |ts|
  {
    var m := Mates(ts);
    seq(|ts|, p requires 0 <= p < |ts| =>
      if IsPaired(ts[p]) && M.CloseOf(m, p) < n && M.Crossed(m, p) then Unpair(ts[p]) else ts[p])
  }

  lemma UncrossUpToBounds(ts: seq<Token>)
    requires WellPaired(ts)
    ensures UncrossUpTo(ts, 0) == ts && UncrossUpTo(ts, |ts|) == Uncross(ts)
  {
  }

  /** What the pass does at position `n`. */
  lemma UncrossOneMore(ts: seq<Token>, n: nat)
    requires WellPaired(ts) && n < |ts|
    ensures var m, u, v := Mates(ts), UncrossUpTo(ts, n), UncrossUpTo(ts, n + 1);
            && (IsPaired(ts[n]) <==> M.Opens(m, n) || M.Closes(m, n))
            && u[n] == ts[n]
            && if M.Closes(m, n) && M.Crossed(m, n) then
                 ts[m[n]].Marker? && u[m[n]] == ts[m[n]] && v == u[n := Unpair(ts[n])][m[n] := Unpair(ts[m[n]])]
               else v == u
  {
    var m := Mates(ts);
    if M.Closes(m, n) {
      assert ts[m[n]] == Twin(ts[n]);
      M.CrossedTogether(m, n);
    }
  }

  lemma UnpairingKeepsOrder(ts: seq<Token>, r: seq<Token>)
    requires InOrder(ts) && |r| == |ts| && forall p :: 0 <= p < |r| && IsPaired(r[p]) ==> r[p] == ts[p]
    ensures InOrder(r)
  {
  }

  lemma UncrossKeepsMutual(ts: seq<Token>)
    requires WellPaired(ts)
    ensures Mutual(Uncross(ts))
  {
    var m, r := Mates(ts), Uncross(ts);
    forall t | t in r && IsPaired(t)
      ensures HasTwin(r, t)
    {
      var p :| 0 <= p < |r| && r[p] == t;
      M.CrossedTogether(m, p);
      assert r[m[p]] == Twin(t);
    }
  }

  lemma UncrossIsWellPaired(ts: seq<Token>)
    requires WellPaired(ts)
    ensures WellPaired(Uncross(ts))
  {
    UnpairingKeepsOrder(ts, Uncross(ts));
    UncrossKeepsMutual(ts);
  }

  lemma UncrossMates(ts: seq<Token>)
    requires WellPaired(ts)
    ensures MatesAre(Uncross(ts), M.Uncross(Mates(ts)))
  {
  }

  /** The pairs left by the unmatching pass are the ones that no pair crosses from inside, and they never cross. */
  lemma UncrossNests(ts: seq<Token>)
    requires WellPaired(ts)
    ensures WellPaired(Uncross(ts)) && Nested(Uncross(ts))
    ensures Mates(Uncross(ts)) == M.Uncross(Mates(ts))
  {
    UncrossIsWellPaired(ts);
    UncrossMates(ts);
    M.UncrossNests(Mates(ts));
    MatesAreUnique(Uncross(ts), M.Uncross(Mates(ts)));
  }

  lemma {:induction false} SourceSame(a: seq<Token>, b: seq<Token>)
    requires |a| == |b| && forall p :: 0 <= p < |a| ==> Literal(a[p]) == Literal(b[p])
    ensures Source(a) == Source(b)
  {
    if a != [] {
      SourceSame(a[1..], b[1..]);
    }
  }

  lemma UncrossKeepsSource(ts: seq<Token>)
    requires WellPaired(ts)
    ensures Source(Uncross(ts)) == Source(ts)
  {
    SourceSame(Uncross(ts), ts);
  }

  // ----- Tags -----

  datatype Kind = Em | Strong

  datatype Tag = OpenTag(kind: Kind) | CloseTag(kind: Kind)

  function TagText(t: Tag): string {
    match t
    case OpenTag(Em) => "<em>"
    case OpenTag(Strong) => "<strong>"
    case CloseTag(Em) => "</em>"
    case CloseTag(Strong) => "</strong>"
  }

  function Render(tags: seq<Tag>): string {
    if tags == [] then "" else TagText(tags[0]) + Render(tags[1..])
  }

  lemma RenderFew(a: Tag, b: Tag)
    ensures Render([a]) == TagText(a) && Render([a, b]) == TagText(a) + TagText(b)
  {
    assert Render([a]) == TagText(a) + Render([]);
    assert Render([b]) == TagText(b) + Render([]);
    assert [a, b][1..] == [b];
  }

  /** What is written for a token: tags for a paired marker, nothing for a disabled one, the source characters for
      the rest. */
  function Html(t: Token): string {
    if IsPaired(t) then Render(Tags(t)) else Literal(t)
  }

  function HtmlOf(ts: seq<Token>): string {
    if ts == [] then "" else HtmlOf(ts[..|ts|-1]) + Html(ts[|ts|-1])
  }

  datatype Stack = Broken | Stack(open: seq<Kind>)

  function Kinds(n: Size): seq<Kind> {
    if n == 1 then [Em] else if n == 2 then [Strong] else [Strong, Em]
  }

  /** The emphasis tags written for a token. */
  function Tags(t: Token): seq<Tag> {
    if !IsPaired(t) then []
    else if t.open then (if t.size == 1 then [OpenTag(Em)] else if t.size == 2 then [OpenTag(Strong)]
                         else [OpenTag(Strong), OpenTag(Em)])
    else (if t.size == 1 then [CloseTag(Em)] else if t.size == 2 then [CloseTag(Strong)]
          else [CloseTag(Em), CloseTag(Strong)])
  }

  function TagsOf(ts: seq<Token>): seq<Tag> {
    if ts == [] then [] else TagsOf(ts[..|ts|-1]) + Tags(ts[|ts|-1])
  }

  /** Reads the tags with the elements in `open` still open: every close tag must close the innermost one. */
  function Read(tags: seq<Tag>, open: seq<Kind>): Stack {
    if tags == [] then Stack(open)
    else
      match tags[0]
      case OpenTag(k) => Read(tags[1..], open + [k])
      case CloseTag(k) => if open != [] && open[|open|-1] == k then Read(tags[1..], open[..|open|-1]) else Broken
  }

  predicate Balanced(tags: seq<Tag>) {
    Read(tags, []) == Stack([])
  }

  lemma {:induction false} ReadConcat(a: seq<Tag>, b: seq<Tag>, open: seq<Kind>)
    ensures Read(a + b, open) == match Read(a, open) { case Broken => Broken case Stack(o) => Read(b, o) }
  {
    if a == [] {
      assert a + b == b;
    } else {
      assert (a + b)[1..] == a[1..] + b;
      match a[0]
      case OpenTag(k) => ReadConcat(a[1..], b, open + [k]);
      case CloseTag(k) =>
        if open != [] && open[|open|-1] == k { ReadConcat(a[1..], b, open[..|open|-1]); }
    }
  }

  function KindsAt(ts: seq<Token>, p: int): seq<Kind> {
    if 0 <= p < |ts| && ts[p].Marker? then Kinds(ts[p].size) else []
  }

  /** The elements opened by the markers at the positions in `s`. */
  function OpenKinds(ts: seq<Token>, s: seq<int>): seq<Kind> {
    if s == [] then [] else OpenKinds(ts, s[..|s|-1]) + KindsAt(ts, s[|s|-1])
  }

  lemma ReadTwo(a: Tag, b: Tag, open: seq<Kind>)
    ensures Read([a, b], open) == match Read([a], open) { case Broken => Broken case Stack(o) => Read([b], o) }
  {
  }

  lemma ReadOpenTags(t: Token, open: seq<Kind>)
    requires IsPaired(t) && t.open && 1 <= t.size
    ensures Read(Tags(t), open) == Stack(open + Kinds(t.size))
  {
    if t.size == 3 {
      ReadTwo(OpenTag(Strong), OpenTag(Em), open);
      assert open + [Strong] + [Em] == open + Kinds(3);
    }
  }

  lemma ReadOneClose(k: Kind, open: seq<Kind>)
    ensures Read([CloseTag(k)], open + [k]) == Stack(open)
  {
  }

  lemma ReadCloseTags(t: Token, open: seq<Kind>)
    requires IsPaired(t) && !t.open && 1 <= t.size
    ensures Read(Tags(t), open + Kinds(t.size)) == Stack(open)
  {
    if t.size == 3 {
      ReadTwo(CloseTag(Em), CloseTag(Strong), open + Kinds(3));
      assert open + Kinds(3) == open + [Strong] + [Em];
      ReadOneClose(Em, open + [Strong]);
      ReadOneClose(Strong, open);
    } else {
      ReadOneClose(Kinds(t.size)[0], open);
    }
  }

  lemma ReadToken(ts: seq<Token>, m: seq<int>, n: nat, s: seq<int>)
    requires MatesAre(ts, m) && n < |ts| && (ts[n].Marker? ==> 1 <= ts[n].size)
    requires M.Closes(m, n) ==> s != [] && s[|s|-1] == m[n]
    ensures Read(Tags(ts[n]), OpenKinds(ts, s)) == Stack(OpenKinds(ts, M.PushOrPop(m, n, s)))
  {
    var s' := M.PushOrPop(m, n, s);
    var t := ts[n];
    if IsPaired(t) {
      assert ts[m[n]] == Twin(t) && (t.open <==> n < m[n]);
      hide Read, Tags;
      if t.open {
        ReadOpenTags(t, OpenKinds(ts, s));
        assert s'[..|s'|-1] == s;
      } else {
        ReadCloseTags(t, OpenKinds(ts, s'));
      }
    } else {
      assert m[n] == M.NONE && s' == s && Tags(t) == [];
    }
  }

  lemma ReadMore(ts: seq<Token>, n: nat, open: seq<Kind>, open': seq<Kind>)
    requires n < |ts|
    requires Read(TagsOf(ts[..n]), []) == Stack(open) && Read(Tags(ts[n]), open) == Stack(open')
    ensures Read(TagsOf(ts[..n+1]), []) == Stack(open')
  {
    assert ts[..n+1][..n] == ts[..n];
    ReadConcat(TagsOf(ts[..n]), Tags(ts[n]), []);
  }

  lemma ReadNext(ts: seq<Token>, m: seq<int>, n: nat)
    requires MatesAre(ts, m) && M.Nested(m) && n < |ts| && (ts[n].Marker? ==> 1 <= ts[n].size)
    ensures Read(Tags(ts[n]), OpenKinds(ts, M.StillOpen(m, n))) == Stack(OpenKinds(ts, M.StillOpen(m, n + 1)))
  {
    var s := M.StillOpen(m, n);
    assert M.Closes(m, n) ==> s != [] && s[|s|-1] == m[n] by {
      M.StillOpenIsExact(m, n);
      if M.Closes(m, n) { M.TopIsMate(m, n, s); }
    }
    ReadToken(ts, m, n, s);
  }

  lemma ReadNothing(ts: seq<Token>, m: seq<int>)
    ensures Read(TagsOf(ts[..0]), []) == Stack(OpenKinds(ts, M.StillOpen(m, 0)))
  {
  }

  lemma {:induction false} ReadPrefix(ts: seq<Token>, m: seq<int>, n: nat)
    requires MatesAre(ts, m) && M.Nested(m) && n <= |ts|
    requires forall p :: 0 <= p < |ts| && ts[p].Marker? ==> 1 <= ts[p].size
    ensures Read(TagsOf(ts[..n]), []) == Stack(OpenKinds(ts, M.StillOpen(m, n)))
  {
    hide *;
    if n == 0 {
      ReadNothing(ts, m);
    } else {
      ReadPrefix(ts, m, n - 1);
      ReadNext(ts, m, n - 1);
      ReadMore(ts, n - 1, OpenKinds(ts, M.StillOpen(m, n - 1)), OpenKinds(ts, M.StillOpen(m, n)));
    }
  }

  /** The emphasis tags written for a list whose pairs nest are balanced. */
  lemma NestedIsBalanced(ts: seq<Token>, m: seq<int>)
    requires MatesAre(ts, m) && M.Nested(m) && T.ProperSizes(ts)
    ensures Balanced(TagsOf(ts))
  {
    assert forall p :: 0 <= p < |ts| && ts[p].Marker? ==> ts[p] in ts;
    ReadPrefix(ts, m, |ts|);
    M.StillOpenIsExact(m, |ts|);
    assert ts[..|ts|] == ts;
    assert |M.StillOpen(m, |ts|)| == 0;
  }

  /** Pairing and then unmatching any list of free markers gives nested pairs, hence balanced tags, and loses no
      source character. */
  lemma PairedThenUncrossed(ts: seq<Token>, n: nat)
    requires T.ProperSizes(ts) && (forall t :: t in ts ==> !IsPaired(t)) && Run(Start(ts), n).Done?
    ensures var mid := Run(Start(ts), n).tokens;
            && WellPaired(mid) && T.ProperSizes(mid)
            && WellPaired(Uncross(mid)) && T.ProperSizes(Uncross(mid))
            && Nested(Uncross(mid)) && Balanced(TagsOf(Uncross(mid)))
            && Source(Uncross(mid)) == Source(ts)
  {
    var mid := Run(Start(ts), n).tokens;
    RunKeepsPairing(Start(ts), n);
    RunKeepsSource(Start(ts), n);
    EmphasisMaximal.HaltedIsMaximal(ts, n);
    UncrossNests(mid);
    UncrossKeepsSource(mid);
    UncrossKeepsSizes(mid);
    NestedIsBalanced(Uncross(mid), Mates(Uncross(mid)));
  }

  lemma UncrossKeepsSizes(ts: seq<Token>)
    requires WellPaired(ts) && T.ProperSizes(ts)
    ensures T.ProperSizes(Uncross(ts))
  {
  }
}
