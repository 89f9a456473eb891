/** The emphasis matcher on the token list of shared markers. */
module Emphasis {
  import opened EmphasisModel
  import opened EmphasisTermination
  import opened EmphasisNesting
  import EmphasisHtml
  import M = Matching

  class BoldOrItalicMarker {
    const openMarker: bool
    const tokenCharacter: char
    const size: Size
    var match_: BoldOrItalicMarker?
    var cannotMatch: bool
    var disabled: bool
    var id: int

    constructor (open: bool, c: char, size: Size)
      ensures View() == Marker(open, c, size, Free) && Consistent()
      ensures match_ == null
    {
      openMarker, tokenCharacter, this.size := open, c, size;
      match_, cannotMatch, disabled, id := null, false, false, -1;
    }

    predicate IsUnmatchedOpenMarker() reads this { openMarker && match_ == null && !cannotMatch }
    predicate IsUnmatchedCloseMarker() reads this { !openMarker && match_ == null && !cannotMatch }
    predicate IsMatchedOpenMarker() reads this { openMarker && match_ != null }
    predicate IsMatchedCloseMarker() reads this { !openMarker && match_ != null }

    /** The fields are in one of the three states of the model. */
    ghost predicate Consistent()
      reads this
    {
      cannotMatch == disabled && (if match_ == null then id == -1 else 0 <= id && !disabled)
    }

    ghost function View(): Token
      reads this
    {
      Marker(openMarker, tokenCharacter, size,
             if disabled then Disabled else if match_ != null && 0 <= id then Paired(id) else Free)
    }

    method Matched(match_: BoldOrItalicMarker?, id: int := -1)
      modifies this
      ensures this.match_ == match_ && this.id == id && cannotMatch == old(cannotMatch) && disabled == old(disabled)
    {
      this.match_, this.id := match_, id;
    }

    /** Writes the tags of a matched marker, or the characters of an unmatched one. */
    method WriteAsHtml(out: string) returns (r: string)
      requires Consistent() && 1 <= size
      ensures r == out + Html(View())
    {
      RenderFew(OpenTag(if size == 1 then Em else Strong), OpenTag(Em));
      RenderFew(CloseTag(if size == 2 then Strong else Em), CloseTag(Strong));
      r := out;
      if !disabled {
        if match_ != null {
          if openMarker {
            r := r + (if size == 1 then "<em>" else if size == 2 then "<strong>" else "<strong><em>");
          } else {
            r := r + (if size == 1 then "</em>" else if size == 2 then "</strong>" else "</em></strong>");
          }
        } else {
          r := r + Repeat(tokenCharacter, size);
        }
      }
    }

    method Disable()
      modifies this
      ensures cannotMatch && disabled && match_ == old(match_) && id == old(id)
    {
      cannotMatch, disabled := true, true;
    }
  }

  datatype Item = RawText(text: string) | Emph(marker: BoldOrItalicMarker)

  ghost function Markers(tgt: seq<Item>): set<BoldOrItalicMarker> {
    set x | x in tgt && x.Emph? :: x.marker
  }

  ghost function ViewOf(x: Item): Token
    reads if x.Emph? then {x.marker} else {}
  {
    match x
    case RawText(s) => Text(s)
    case Emph(m) => m.View()
  }

  /** The list as a value. */
  ghost function ViewAll(tgt: seq<Item>): (r: seq<Token>)
    reads Markers(tgt)
    ensures |r| == |tgt|
  {
    seq(|tgt|, p requires 0 <= p < |tgt| reads Markers(tgt) =>
        assert tgt[p].Emph? ==> tgt[p].marker in Markers(tgt); ViewOf(tgt[p]))
  }

  lemma MarkerInList(tgt: seq<Item>, k: nat)
    requires k < |tgt| && tgt[k].Emph?
    ensures tgt[k].marker in Markers(tgt)
  {
  }

  /** No marker occurs twice in the list. */
  ghost predicate Distinct(tgt: seq<Item>) {
    forall p, q :: 0 <= p < q < |tgt| && tgt[p].Emph? && tgt[q].Emph? ==> tgt[p].marker != tgt[q].marker
  }

  /** A marker that points to another one points to one in the list that points back under the same id. */
  ghost predicate PointsBack(tgt: seq<Item>, m: BoldOrItalicMarker)
    reads m, Markers(tgt)
  {
    var other := m.match_;
    other != null ==>
      Emph(other) in tgt && other in Markers(tgt) &&
      other.match_ == m && other.id == m.id && other.openMarker != m.openMarker
  }

  ghost predicate Linked(tgt: seq<Item>)
    reads Markers(tgt)
  {
    && Distinct(tgt)
    && forall m {:trigger PointsBack(tgt, m)} {:trigger m in Markers(tgt)} :: m in Markers(tgt) ==> m.Consistent() && PointsBack(tgt, m)
  }

  // ----- Pairing -----

  lemma ViewAt(tgt: seq<Item>, k: nat)
    requires Linked(tgt) && k < |tgt|
    ensures FreeOpen(ViewAll(tgt)[k]) <==> tgt[k].Emph? && tgt[k].marker.IsUnmatchedOpenMarker()
    ensures FreeClose(ViewAll(tgt)[k]) <==> tgt[k].Emph? && tgt[k].marker.IsUnmatchedCloseMarker()
    ensures tgt[k].Emph? ==>
              var t, m := ViewAll(tgt)[k], tgt[k].marker;
              t.Marker? && t.open == m.openMarker && t.ch == m.tokenCharacter && t.size == m.size
  {
    if tgt[k].Emph? { assert tgt[k].marker in Markers(tgt); }
  }

  method DisableAt(tgt: seq<Item>, k: nat)
    requires Linked(tgt) && k < |tgt| && tgt[k].Emph?
    requires tgt[k].marker.match_ == null
    modifies tgt[k].marker
    ensures Linked(tgt) && tgt[k].marker.match_ == null
    ensures ViewAll(tgt) == old(ViewAll(tgt)[k := Disable(ViewAll(tgt)[k])])
  {
    var m := tgt[k].marker;
    assert m in Markers(tgt);
    m.Disable();
    forall p | 0 <= p < |tgt| && p != k
      ensures ViewOf(tgt[p]) == old(ViewOf(tgt[p]))
    {
      assert tgt[p].Emph? ==> tgt[p].marker != m;
    }
    forall x | x in Markers(tgt)
      ensures x.Consistent() && PointsBack(tgt, x)
    {
      assert old(PointsBack(tgt, x));
    }
  }

  /** Inserts two new markers after position `k`. */
  method InsertAfter(tgt: seq<Item>, k: nat, open: bool, c: char, first: Size, second: Size) returns (r: seq<Item>)
    requires Linked(tgt) && k < |tgt|
    ensures var ts := old(ViewAll(tgt));
            ViewAll(r) == ts[..k+1] + [Marker(open, c, first, Free), Marker(open, c, second, Free)] + ts[k+1..]
    ensures Linked(r) && forall m :: m in Markers(r) ==> m in Markers(tgt) || fresh(m)
    ensures forall p :: 0 <= p <= k ==> r[p] == tgt[p]
  {
    var a := new BoldOrItalicMarker(open, c, first);
    var b := new BoldOrItalicMarker(open, c, second);
    r := tgt[..k+1] + [Emph(a), Emph(b)] + tgt[k+1..];
    InsertIsLinked(tgt, k, a, b, r);
    InsertView(tgt, k, a, b, r);
  }

  /** Replaces the size-3 marker at `k` by one of size `n` and, before it, one with the leftovers. */
  method SplitMarker(tgt: seq<Item>, k: nat, n: Size) returns (r: seq<Item>)
    requires Linked(tgt) && k < |tgt| && tgt[k].Emph?
    requires tgt[k].marker.match_ == null && tgt[k].marker.size == 3
    modifies tgt[k].marker
    ensures ViewAll(r) == Split(old(ViewAll(tgt)), k, n)
    ensures Linked(r) && forall m :: m in Markers(r) ==> m in Markers(tgt) || fresh(m)
    ensures forall p :: 0 <= p <= k ==> r[p] == tgt[p]
  {
    hide Linked, ViewAll, Markers;
    MarkerInList(tgt, k);
    ViewAt(tgt, k);
    var m := tgt[k].marker;
    SplitIsInsert(ViewAll(tgt), k, n);
    DisableAt(tgt, k);
    r := InsertAfter(tgt, k, m.openMarker, m.tokenCharacter, m.size - n, n);
  }

  lemma SplitIsInsert(ts: seq<Token>, k: nat, n: Size)
    requires k < |ts| && ts[k].Marker?
    ensures var ts' := ts[k := Disable(ts[k])];
            Split(ts, k, n) == ts'[..k+1] + [Marker(ts[k].open, ts[k].ch, 3 - n, Free), Marker(ts[k].open, ts[k].ch, n, Free)]
                               + ts'[k+1..]
  {
  }

  lemma InsertView(tgt: seq<Item>, k: nat, a: BoldOrItalicMarker, b: BoldOrItalicMarker, r: seq<Item>)
    requires k < |tgt| && r == tgt[..k+1] + [Emph(a), Emph(b)] + tgt[k+1..]
    ensures ViewAll(r) == ViewAll(tgt)[..k+1] + [a.View(), b.View()] + ViewAll(tgt)[k+1..]
  {
  }

  lemma InsertIsLinked(tgt: seq<Item>, k: nat, a: BoldOrItalicMarker, b: BoldOrItalicMarker, r: seq<Item>)
    requires k < |tgt| && r == tgt[..k+1] + [Emph(a), Emph(b)] + tgt[k+1..]
    requires Linked(tgt) && a !in Markers(tgt) && b !in Markers(tgt) && a != b
    requires a.Consistent() && b.Consistent() && a.match_ == null && b.match_ == null
    ensures Markers(r) == Markers(tgt) + {a, b} && Linked(r)
  {
  }

  /** Lets the open marker at `i` and the close marker at `j` point to each other. */
  method MatchMarkers(tgt: seq<Item>, i: nat, j: nat, id: nat)
    requires Linked(tgt) && i < j < |tgt| && tgt[i].Emph? && tgt[j].Emph?
    requires tgt[i].marker.IsUnmatchedOpenMarker() && tgt[j].marker.IsUnmatchedCloseMarker()
    modifies tgt[i].marker, tgt[j].marker
    ensures Linked(tgt)
    ensures var ts := old(ViewAll(tgt)); ViewAll(tgt) == ts[i := Pair(ts[i], id)][j := Pair(ts[j], id)]
  {
    var open, close := tgt[i].marker, tgt[j].marker;
    assert open in Markers(tgt) && close in Markers(tgt);
    open.Matched(close, id);
    close.Matched(open, id);
    forall p | 0 <= p < |tgt| && p != i && p != j
      ensures ViewOf(tgt[p]) == old(ViewOf(tgt[p]))
    {
      assert tgt[p].Emph? ==> tgt[p].marker != open && tgt[p].marker != close;
    }
    forall x | x in Markers(tgt)
      ensures x.Consistent() && PointsBack(tgt, x)
    {
      assert old(PointsBack(tgt, x));
    }
  }

  /** One step of a run that never clashes, by what the two loops stand at. */
  lemma Advance(start: Machine, n: nat)
    requires Placed(start) && NeverClashes(start) && !Run(start, n).Done? && ProperSizes(Run(start, n).tokens)
    ensures Run(start, n + 1) == Step(Run(start, n))
    ensures ProperSizes(Run(start, n + 1).tokens) && LessWork(Run(start, n + 1), Run(start, n))
  {
    StepMakesProgress(Run(start, n));
  }

  lemma InnerStep(s: Machine)
    requires Placed(s) && s.Inner?
    ensures s.j == |s.tokens| ==> Step(s) == Outer(s.tokens, s.i + 1, s.id)
    ensures s.j < |s.tokens| ==>
              var o, c, ts := s.tokens[s.i], s.tokens[s.j], s.tokens;
              && (!FreeClose(c) ==> Step(s) == Inner(ts, s.i, s.j + 1, s.id))
              && (FreeClose(c) && c.size == 3 && o.size != 3 ==> Step(s) == Inner(Split(ts, s.j, o.size), s.i, s.j + 1, s.id))
              && (FreeClose(c) && c.ch == o.ch && c.size == o.size ==>
                    Step(s) == Outer(ts[s.i := Pair(o, s.id)][s.j := Pair(c, s.id)], s.i + 1, s.id + 1))
              && (FreeClose(c) && !(c.ch == o.ch && c.size == o.size) && o.size == 3 ==>
                    Step(s) == Outer(Split(ts, s.i, c.size), s.i + 1, s.id))
              && (FreeClose(c) && !(c.ch == o.ch && c.size == o.size) && o.size != 3 && c.size != 3 ==>
                    Step(s) == Inner(ts, s.i, s.j + 1, s.id))
  {
  }

  /** Compares the open marker at `i` and the close marker at `j`: pairs them, splits one of them, or passes on. */
  method Compare(list: seq<Item>, i: nat, j: nat, nextId: nat) returns (tgt: seq<Item>, id: nat, found: bool)
    requires Linked(list) && i < j < |list| && FreeOpen(ViewAll(list)[i])
    requires list[i].Emph? && list[j].Emph? && list[j].marker.IsUnmatchedCloseMarker()
    modifies Markers(list)
    ensures Linked(tgt) && forall m :: m in Markers(tgt) ==> m in Markers(list) || fresh(m)
    ensures Step(Inner(old(ViewAll(list)), i, j, nextId)) ==
            if found then Outer(ViewAll(tgt), i + 1, id) else Inner(ViewAll(tgt), i, j + 1, id)
    ensures i < |tgt| && tgt[i] == list[i]
  {
    ViewAt(list, i);
    ViewAt(list, j);
    MarkerInList(list, i);
    MarkerInList(list, j);
    InnerStep(Inner(ViewAll(list), i, j, nextId));
    hide Linked, ViewAll, Markers, Split, Step;
    tgt, id, found := list, nextId, false;
    var open, close := list[i].marker, list[j].marker;
    if close.size == 3 && open.size != 3 {
      tgt := SplitMarker(list, j, open.size);
    } else if close.tokenCharacter == open.tokenCharacter && close.size == open.size {
      MatchMarkers(list, i, j, id);
      id, found := id + 1, true;
    } else if open.size == 3 {
      tgt := SplitMarker(list, i, close.size);
      found := true;
    }
  }

  /** The inner loop: looks for the close marker of the open marker at `i`. */
  method FindClose(list: seq<Item>, i: nat, nextId: nat, ghost start: Machine, ghost steps: nat)
    returns (tgt: seq<Item>, id: nat, ghost n: nat)
    requires Linked(list) && i < |list| && FreeOpen(ViewAll(list)[i])
    requires Placed(start) && NeverClashes(start) && ProperSizes(ViewAll(list))
    requires Run(start, steps) == Inner(ViewAll(list), i, i + 1, nextId)
    modifies Markers(list)
    ensures Linked(tgt) && forall m :: m in Markers(tgt) ==> m in Markers(list) || fresh(m)
    ensures Run(start, n) == Outer(ViewAll(tgt), i + 1, id)
    ensures ProperSizes(ViewAll(tgt)) && i + 1 <= |tgt| && LessWork(Run(start, n), Run(start, steps))
  {
    hide Linked, ViewAll, Markers, OuterWork, InnerWork, ProperSizes, Run, NeverClashes, Step;
    tgt, id, n := list, nextId, steps;
    var j := i + 1;
    ViewAt(tgt, i);
    while j < |tgt|
      invariant i < j <= |tgt| && tgt[i] == list[i]
      invariant Linked(tgt) && forall m :: m in Markers(tgt) ==> m in Markers(list) || fresh(m)
      invariant Run(start, n) == Inner(ViewAll(tgt), i, j, id) && FreeOpen(ViewAll(tgt)[i])
      invariant ProperSizes(ViewAll(tgt))
      invariant n == steps || LessWork(Run(start, n), Run(start, steps))
      decreases OuterWork(Run(start, n)), InnerWork(Run(start, n))
    {
      ViewAt(tgt, j);
      Advance(start, n);
      n := n + 1;
      if tgt[j].Emph? && tgt[j].marker.IsUnmatchedCloseMarker() {
        var found;
        tgt, id, found := Compare(tgt, i, j, id);
        if found { return; }
      } else {
        PassOver(ViewAll(tgt), i, j, id);
      }
      j := j + 1;
    }
    Advance(start, n);
    SearchEnds(ViewAll(tgt), i, id);
    n := n + 1;
  }

  lemma SearchEnds(ts: seq<Token>, i: nat, id: nat)
    requires i < |ts| && FreeOpen(ts[i])
    ensures Step(Inner(ts, i, |ts|, id)) == Outer(ts, i + 1, id)
  {
  }

  /** The pairing loops. They do what the machine of the model does, step by step. */
  method PairMarkers(list: seq<Item>) returns (tgt: seq<Item>, ghost id: nat, ghost n: nat)
    requires Linked(list)
    requires ProperSizes(ViewAll(list)) && NeverClashes(Start(ViewAll(list)))
    modifies Markers(list)
    ensures Linked(tgt) && forall m :: m in Markers(tgt) ==> m in Markers(list) || fresh(m)
    ensures Run(Start(old(ViewAll(list))), n) == Done(ViewAll(tgt), id)
  {
    hide Linked, ViewAll, Markers, OuterWork, InnerWork, ProperSizes, NeverClashes;
    ghost var start := Start(ViewAll(list));
    tgt, n := list, 0;
    var nextId := 0;
    var i := 0;
    while i < |tgt|
      invariant i <= |tgt|
      invariant Linked(tgt) && forall m :: m in Markers(tgt) ==> m in Markers(list) || fresh(m)
      invariant Run(start, n) == Outer(ViewAll(tgt), i, nextId) && ProperSizes(ViewAll(tgt))
      decreases OuterWork(Run(start, n)), InnerWork(Run(start, n))
    {
      ViewAt(tgt, i);
      Advance(start, n);
      n := n + 1;
      if tgt[i].Emph? && tgt[i].marker.IsUnmatchedOpenMarker() {
        tgt, nextId, n := FindClose(tgt, i, nextId, start, n);
      }
      i := i + 1;
    }
    id, n := nextId, n + 1;
  }

  // ----- Unmatching -----

  /** Takes the pair of the close marker at `c` and the open marker at `a` apart. */
  method UnmatchMarkers(tgt: seq<Item>, ghost a: nat, c: nat)
    requires Linked(tgt) && a < c < |tgt| && tgt[a].Emph? && tgt[c].Emph?
    requires tgt[c].marker.match_ == tgt[a].marker
    modifies tgt[a].marker, tgt[c].marker
    ensures Linked(tgt)
    ensures var ts := old(ViewAll(tgt));
            IsPaired(ts[a]) && IsPaired(ts[c]) && ViewAll(tgt) == ts[c := Unpair(ts[c])][a := Unpair(ts[a])]
  {
    var close := tgt[c].marker;
    var open := close.match_;
    assert open in Markers(tgt) && close in Markers(tgt) && PointsBack(tgt, close);
    open.Matched(null);
    close.Matched(null);
    forall p | 0 <= p < |tgt| && p != a && p != c
      ensures ViewOf(tgt[p]) == old(ViewOf(tgt[p]))
    {
      assert tgt[p].Emph? ==> tgt[p].marker != open && tgt[p].marker != close;
    }
    forall x | x in Markers(tgt)
      ensures x.Consistent() && PointsBack(tgt, x)
    {
      assert old(PointsBack(tgt, x));
    }
  }

  /** The marker that the close marker at `c` points to stands where the pairing says. */
  lemma PartnerAt(tgt: seq<Item>, ts: seq<Token>, n: nat, c: nat)
    requires Linked(tgt) && WellPaired(ts) && ViewAll(tgt) == UncrossUpTo(ts, n) && c < |tgt|
    requires IsPaired(ViewAll(tgt)[c])
    ensures tgt[c].Emph? && 0 <= Mates(ts)[c] < |tgt| && tgt[Mates(ts)[c]] == Emph(tgt[c].marker.match_)
  {
    var m := tgt[c].marker;
    assert m in Markers(tgt) && PointsBack(tgt, m);
    var q :| 0 <= q < |tgt| && tgt[q] == Emph(m.match_);
    assert ViewAll(tgt)[q] == ViewOf(tgt[q]) && ViewAll(tgt)[c] == ViewOf(tgt[c]);
    assert m.match_ in Markers(tgt) && m.match_.Consistent();
    assert ts[q] == ViewAll(tgt)[q] && ts[c] == ViewAll(tgt)[c];
    MateById(ts, c, q);
  }

  lemma MateById(ts: seq<Token>, p: nat, q: nat)
    requires WellPaired(ts) && p < |ts| && q < |ts| && IsPaired(ts[p]) && PairedUnder(ts[q], ts[p].state.id) && ts[p].open != ts[q].open
    ensures Mates(ts)[p] == q
  {
  }

  /** `pos` gives the positions of the markers on the stack. */
  ghost predicate StackOf(tgt: seq<Item>, stack: seq<BoldOrItalicMarker>, pos: seq<int>) {
    |pos| == |stack| && forall k :: 0 <= k < |pos| ==> 0 <= pos[k] < |tgt| && tgt[pos[k]] == Emph(stack[k])
  }

  /** A marker on the stack has been unmatched exactly when its pair has closed. */
  lemma UnmatchedIffClosed(tgt: seq<Item>, ts: seq<Token>, n: nat, pos: seq<int>, k: nat)
    requires Linked(tgt) && WellPaired(ts) && ViewAll(tgt) == UncrossUpTo(ts, n)
    requires M.StackHolds(Mates(ts), n, pos) && k < |pos| && pos[k] < |tgt|
    ensures M.Opens(Mates(ts), pos[k])
    ensures tgt[pos[k]].Emph? && (tgt[pos[k]].marker.match_ == null <==> Mates(ts)[pos[k]] < n)
    ensures var id := tgt[pos[k]].marker.id; tgt[pos[k]].marker.match_ != null ==> 0 <= id && PairedUnder(ts[pos[k]], id)
  {
    var p := pos[k];
    assert M.Opens(Mates(ts), p);
    assert ViewAll(tgt)[p] == ViewOf(tgt[p]);
    assert tgt[p].Emph? ==> tgt[p].marker in Markers(tgt);
  }

  /** What the pass meets at position `n`. */
  lemma MatchedAt(tgt: seq<Item>, ts: seq<Token>, n: nat)
    requires Linked(tgt) && WellPaired(ts) && ViewAll(tgt) == UncrossUpTo(ts, n) && n < |tgt|
    ensures M.Opens(Mates(ts), n) <==> tgt[n].Emph? && tgt[n].marker.IsMatchedOpenMarker()
    ensures M.Closes(Mates(ts), n) <==> tgt[n].Emph? && tgt[n].marker.IsMatchedCloseMarker()
    ensures M.Closes(Mates(ts), n) ==> var id := tgt[n].marker.id; 0 <= id && PairedUnder(ts[n], id)
    ensures !M.Closes(Mates(ts), n) ==> UncrossUpTo(ts, n + 1) == UncrossUpTo(ts, n)
  {
    UncrossOneMore(ts, n);
    assert ViewAll(tgt)[n] == ViewOf(tgt[n]);
    assert tgt[n].Emph? ==> tgt[n].marker in Markers(tgt);
    assert IsPaired(ts[n]) ==> (ts[n].open <==> M.Opens(Mates(ts), n)) by {
      if IsPaired(ts[n]) { assert ts[Mates(ts)[n]] == Twin(ts[n]); }
    }
  }

  /** The ids of a close marker and of an open marker agree exactly when the two are paired. */
  lemma SameIdIffMates(ts: seq<Token>, c: nat, top: nat)
    requires WellPaired(ts) && c < |ts| && top < |ts| && M.Closes(Mates(ts), c) && M.Opens(Mates(ts), top)
    ensures IsPaired(ts[c]) && IsPaired(ts[top])
    ensures ts[c].state.id == ts[top].state.id <==> top == Mates(ts)[c]
  {
  }

  /** Pops markers that have been unmatched, up to one that is still matched. */
  method PopUnmatched(tgt: seq<Item>, openMatches: seq<BoldOrItalicMarker>, ghost ts: seq<Token>, ghost n: nat, ghost pos: seq<int>)
    returns (stack: seq<BoldOrItalicMarker>, ghost pos': seq<int>)
    requires Linked(tgt) && WellPaired(ts) && ViewAll(tgt) == UncrossUpTo(ts, n)
    requires StackOf(tgt, openMatches, pos) && M.StackHolds(Mates(ts), n, pos)
    ensures Linked(tgt) && ViewAll(tgt) == UncrossUpTo(ts, n)
    ensures StackOf(tgt, stack, pos') && M.StackHolds(Mates(ts), n, pos') && M.TopIsOpen(Mates(ts), n, pos')
    ensures stack <= openMatches && (stack != [] ==> stack[|stack|-1].match_ != null)
    ensures forall k :: |stack| <= k < |openMatches| ==> openMatches[k].match_ == null
  {
    hide Linked, ViewAll, Markers, WellPaired, MatesAre, UncrossUpTo, M.StackHolds;
    MatesMatch(ts);
    stack, pos' := openMatches, pos;
    while stack != []
      invariant Linked(tgt) && ViewAll(tgt) == UncrossUpTo(ts, n)
      invariant StackOf(tgt, stack, pos') && M.StackHolds(Mates(ts), n, pos')
      invariant stack <= openMatches && forall k :: |stack| <= k < |openMatches| ==> openMatches[k].match_ == null
    {
      UnmatchedIffClosed(tgt, ts, n, pos', |pos'| - 1);
      if stack[|stack|-1].match_ != null { break; }
      M.PopCancelled(Mates(ts), n, pos');
      stack, pos' := stack[..|stack|-1], pos'[..|pos'|-1];
    }
  }

  /** What the pass does when it comes to the matched close marker at `c`. */
  method ReachClose(tgt: seq<Item>, c: nat, openMatches: seq<BoldOrItalicMarker>, ghost ts: seq<Token>, ghost pos: seq<int>)
    returns (stack: seq<BoldOrItalicMarker>, ghost pos': seq<int>)
    requires Linked(tgt) && WellPaired(ts) && c < |tgt| && ViewAll(tgt) == UncrossUpTo(ts, c)
    requires tgt[c].Emph? && tgt[c].marker.IsMatchedCloseMarker()
    requires StackOf(tgt, openMatches, pos) && M.StackHolds(Mates(ts), c, pos) && M.TopIsOpen(Mates(ts), c, pos)
    modifies Markers(tgt)
    ensures Linked(tgt) && ViewAll(tgt) == UncrossUpTo(ts, c + 1)
    ensures StackOf(tgt, stack, pos')
    ensures M.StackHolds(Mates(ts), c + 1, pos') && M.TopIsOpen(Mates(ts), c + 1, pos')
  {
    hide Linked, ViewAll, Markers, WellPaired, MatesAre, UncrossUpTo, M.StackHolds, M.Crossed, M.IsMatching;
    MatesMatch(ts);
    ghost var m := Mates(ts);
    var close := tgt[c].marker;
    MatchedAt(tgt, ts, c);
    UncrossOneMore(ts, c);
    M.TopDecides(m, c, pos);
    UnmatchedIffClosed(tgt, ts, c, pos, |pos| - 1);
    SameIdIffMates(ts, c, pos[|pos|-1]);
    if close.id != openMatches[|openMatches|-1].id {
      M.KeepHolds(m, c, pos);
      PartnerAt(tgt, ts, c, c);
      MarkerInList(tgt, m[c]);
      MarkerInList(tgt, c);
      UnmatchMarkers(tgt, m[c], c);
      stack, pos' := openMatches, pos;
    } else {
      M.PopClosed(m, c, pos);
      stack, pos' := PopUnmatched(tgt, openMatches[..|openMatches|-1], ts, c + 1, pos[..|pos|-1]);
    }
  }

  /** One round of the unmatching pass. */
  method Visit(tgt: seq<Item>, i: nat, openMatches: seq<BoldOrItalicMarker>, ghost ts: seq<Token>, ghost pos: seq<int>)
    returns (stack: seq<BoldOrItalicMarker>, ghost pos': seq<int>)
    requires Linked(tgt) && WellPaired(ts) && i < |tgt| && ViewAll(tgt) == UncrossUpTo(ts, i)
    requires StackOf(tgt, openMatches, pos) && M.StackHolds(Mates(ts), i, pos) && M.TopIsOpen(Mates(ts), i, pos)
    modifies Markers(tgt)
    ensures Linked(tgt) && ViewAll(tgt) == UncrossUpTo(ts, i + 1)
    ensures StackOf(tgt, stack, pos')
    ensures M.StackHolds(Mates(ts), i + 1, pos') && M.TopIsOpen(Mates(ts), i + 1, pos')
  {
    hide Linked, ViewAll, Markers, WellPaired, MatesAre, UncrossUpTo, M.StackHolds, M.Crossed, M.IsMatching;
    MatesMatch(ts);
    MatchedAt(tgt, ts, i);
    stack, pos' := openMatches, pos;
    if tgt[i].Emph? && tgt[i].marker.IsMatchedOpenMarker() {
      M.PushHolds(Mates(ts), i, pos);
      stack, pos' := openMatches + [tgt[i].marker], pos + [i];
    } else if tgt[i].Emph? && tgt[i].marker.IsMatchedCloseMarker() {
      stack, pos' := ReachClose(tgt, i, openMatches, ts, pos);
    } else {
      M.KeepHolds(Mates(ts), i, pos);
    }
  }

  /** The unmatching pass: of the pairs it takes apart exactly those that another pair crosses from inside. */
  method UnmatchCrossing(tgt: seq<Item>)
    requires Linked(tgt) && WellPaired(ViewAll(tgt))
    modifies Markers(tgt)
    ensures Linked(tgt) && ViewAll(tgt) == Uncross(old(ViewAll(tgt)))
  {
    ghost var ts := ViewAll(tgt);
    hide Linked, ViewAll, Markers, WellPaired, MatesAre, UncrossUpTo, M.StackHolds, M.Crossed, M.IsMatching;
    UncrossUpToBounds(ts);
    var openMatches: seq<BoldOrItalicMarker> := [];
    ghost var pos: seq<int> := [];
    M.EmptyHolds(Mates(ts));
    for i := 0 to |tgt|
      invariant Linked(tgt) && ViewAll(tgt) == UncrossUpTo(ts, i)
      invariant StackOf(tgt, openMatches, pos) && M.StackHolds(Mates(ts), i, pos) && M.TopIsOpen(Mates(ts), i, pos)
    {
      openMatches, pos := Visit(tgt, i, openMatches, ts, pos);
    }
  }

  /** Writes the whole list, text tokens as they stand. */
  method WriteAsHtml(tgt: seq<Item>) returns (out: string)
    requires Linked(tgt) && ProperSizes(ViewAll(tgt))
    ensures out == HtmlOf(ViewAll(tgt))
  {
    out := "";
    ghost var ts := ViewAll(tgt);
    for i := 0 to |tgt|
      invariant ViewAll(tgt) == ts && Linked(tgt)
      invariant out == HtmlOf(ts[..i])
    {
      assert ts[..i+1][..i] == ts[..i];
      match tgt[i]
      case RawText(s) => out := out + s;
      case Emph(m) =>
        assert m in Markers(tgt) && ts[i] in ts;
        out := m.WriteAsHtml(out);
    }
    assert ts[..|tgt|] == ts;
  }

  /** Pairing, then unmatching: whenever the pairing loops end, which is to say whenever the dry run meets no clash,
      the emphasis tags of the list balance and the list still stands for the same source characters. The tags found in
      the text written for it balance as well if no source character is an opening angle bracket. */
  method ProcessBoldAndItalicSpans(list: seq<Item>) returns (tgt: seq<Item>, ghost n: nat)
    requires Linked(list) && ProperSizes(ViewAll(list)) && ClashFree(Start(ViewAll(list)))
    requires forall t :: t in ViewAll(list) ==> !IsPaired(t)
    modifies Markers(list)
    ensures Linked(tgt) && ProperSizes(ViewAll(tgt))
    ensures var run := Run(Start(old(ViewAll(list))), n);
            run.Done? && WellPaired(run.tokens) && ViewAll(tgt) == Uncross(run.tokens)
    ensures WellPaired(ViewAll(tgt)) && Nested(ViewAll(tgt)) && Balanced(TagsOf(ViewAll(tgt)))
    ensures '<' !in Source(old(ViewAll(list))) ==>
              && Balanced(EmphasisHtml.Scan(HtmlOf(ViewAll(tgt))))
              && EmphasisHtml.Strip(HtmlOf(ViewAll(tgt))) == EmphasisHtml.Unpaired(ViewAll(tgt))
    ensures Source(ViewAll(tgt)) == Source(old(ViewAll(list)))
  {
    ClashFreeNeverClashes(Start(ViewAll(list)));
    hide Linked, ViewAll, Markers, WellPaired, NeverClashes, ClashFree, ProperSizes, Nested, Balanced, Run;
    ghost var id;
    ghost var ts := ViewAll(list);
    tgt, id, n := PairMarkers(list);
    PairedThenUncrossed(ts, n);
    if '<' !in Source(ts) { EmphasisHtml.SourceIsWrittenBalanced(ts, n); }
    UnmatchCrossing(tgt);
  }
}
