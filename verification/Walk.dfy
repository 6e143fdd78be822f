/**
  The adjustment walk.  Starting at an element it visits, by first-child,
  next-sibling and parent links, exactly the elements after it in document order
  and the elements around it, and moves their offsets in place.
 */
module Walk {
  import opened Parser
  import opened Index

  /** Where the walk stands: at `cell` in context `x`; `m` of the enclosing
      elements, counted from inside, are already done on both ends; `skip` says
      that the children of `cell` are not to be visited. */
  ghost predicate At(a: seq<ElemPos>, x: Ctx, cell: Forest, m: nat, skip: bool) {
    && CtxOK(x) && cell.Cons? && m <= Depth(x)
    && DistinctCtx(x) && Distinct(cell) && CtxIds(x) !! Ids(cell)
    && cell.id < |a| && a[cell.id].parent == Par(x) && a[cell.id].next == Id(cell.next) && Links(a, cell.next, Par(x))
    && (!skip ==> a[cell.id].child == Id(cell.kids) && Links(a, cell.kids, cell.id))
    && LinksUp(a, x)
  }

  function Depth(x: Ctx): nat {
    match x
    case Top => 0
    case Sib(_, up) => Depth(up)
    case Child(_, up) => 1 + Depth(up)
  }

  /** The innermost enclosing element that is not done yet. */
  function TopId(x: Ctx, m: nat): nat
    requires CtxOK(x) && m <= Depth(x)
  {
    match x
    case Top => 0
    case Sib(_, up) => TopId(up, m)
    case Child(c, up) => if m > 0 then TopId(up, m - 1) else c.id
  }

  /** The enclosing elements whose end tags are still to be moved. */
  function EndsLeft(x: Ctx, m: nat): set<nat>
    requires CtxOK(x) && m <= Depth(x)
  {
    match x
    case Top => {0}
    case Sib(_, up) => EndsLeft(up, m)
    case Child(c, up) => if m > 0 then EndsLeft(up, m - 1) else {c.id} + EndsLeft(up, 0)
  }

  /** The elements still to be moved as a whole. */
  function BothLeft(x: Ctx, cell: Forest, skipKids: bool): set<nat>
    requires CtxOK(x) && cell.Cons?
  {
    (if skipKids then {} else Ids(cell.kids)) + Ids(cell.next) + Following(x)
  }

  lemma StepChild(a: seq<ElemPos>, x: Ctx, cell: Forest, m: nat)
    requires At(a, x, cell, m, false) && cell.kids.Cons?
    ensures At(a, Child(cell, x), cell.kids, m + 1, false)
    ensures TopId(Child(cell, x), m + 1) == TopId(x, m) && EndsLeft(Child(cell, x), m + 1) == EndsLeft(x, m)
    ensures BothLeft(x, cell, false) == {cell.kids.id} + BothLeft(Child(cell, x), cell.kids, false)
    ensures cell.kids.id !in BothLeft(Child(cell, x), cell.kids, false)
  {
    FollowingIn(x);
  }

  lemma StepNext(a: seq<ElemPos>, x: Ctx, cell: Forest, m: nat, skip: bool)
    requires At(a, x, cell, m, skip) && (skip || cell.kids.Nil?) && cell.next.Cons?
    ensures At(a, Sib(cell, x), cell.next, m, false)
    ensures TopId(Sib(cell, x), m) == TopId(x, m) && EndsLeft(Sib(cell, x), m) == EndsLeft(x, m)
    ensures BothLeft(x, cell, skip) == {cell.next.id} + BothLeft(Sib(cell, x), cell.next, false)
    ensures cell.next.id !in BothLeft(Sib(cell, x), cell.next, false)
  {
    FollowingIn(x);
  }

  /** The enclosing element, its children left out. */
  function Outer(x: Ctx): (r: (Forest, Ctx))
    requires CtxOK(x)
    ensures r.0.Cons? ==> r.0.kids.Nil? && CtxOK(r.1) && r.0.id == Par(x)
    ensures r.0.Nil? ==> Par(x) == 0
  {
    match x
    case Top => (Nil, Top)
    case Sib(_, up) => Outer(up)
    case Child(c, up) => (c.(kids := Nil), up)
  }

  lemma {:induction false} StepUp(a: seq<ElemPos>, x: Ctx, m: nat)
    requires CtxOK(x) && DistinctCtx(x) && LinksUp(a, x) && m <= Depth(x)
    ensures Par(x) == 0 ==> Outer(x).0.Nil? && Following(x) == {} && EndsLeft(x, m) == {0} && TopId(x, m) == 0
    ensures Par(x) != 0 ==>
      var (c, up) := Outer(x);
      && c.Cons? && At(a, up, c, if m > 0 then m - 1 else 0, true)
      && BothLeft(up, c, true) == Following(x)
      && (m > 0 ==> TopId(up, m - 1) == TopId(x, m) && EndsLeft(up, m - 1) == EndsLeft(x, m) && c.id != TopId(x, m))
      && (m == 0 ==> TopId(x, 0) == c.id && EndsLeft(x, 0) == {c.id} + EndsLeft(up, 0) && c.id !in EndsLeft(up, 0))
    decreases x
  {
    match x
    case Top =>
    case Sib(_, up) => StepUp(a, up, m);
    case Child(c, up) =>
      TopIdIn(up, if m > 0 then m - 1 else 0);
      FollowingIn(up);
  }

  lemma {:induction false} TopIdIn(x: Ctx, m: nat)
    requires CtxOK(x) && m <= Depth(x)
    ensures TopId(x, m) in CtxIds(x) + {0} && EndsLeft(x, m) <= CtxIds(x) + {0}
    decreases x
  {
    match x
    case Top =>
    case Sib(_, up) => TopIdIn(up, m);
    case Child(c, up) => TopIdIn(up, if m > 0 then m - 1 else 0);
  }

  lemma {:induction false} EndsLeftAll(x: Ctx)
    requires CtxOK(x)
    ensures EndsLeft(x, 0) == Ancestors(x)
    ensures TopId(x, 0) == Par(x)
    decreases x
  {
    match x
    case Top =>
    case Sib(_, up) => EndsLeftAll(up);
    case Child(c, up) => EndsLeftAll(up);
  }

  // ---- bookkeeping ----

  /** What is done and what is left. */
  ghost predicate Progress(a0: seq<ElemPos>, a: seq<ElemPos>, both: set<nat>, ends: set<nat>, bothLeft: set<nat>,
      endsLeft: set<nat>, allBoth: set<nat>, allEnds: set<nat>, n: int) {
    && both + bothLeft == allBoth && both !! bothLeft
    && ends + endsLeft == allEnds && ends !! endsLeft
    && allBoth !! allEnds
    && a == Shifted(a0, both, ends, n)
  }

  lemma DoBoth(a0: seq<ElemPos>, a: seq<ElemPos>, both: set<nat>, ends: set<nat>, bothLeft: set<nat>,
      endsLeft: set<nat>, allBoth: set<nat>, allEnds: set<nat>, n: int, i: nat)
    requires i !in bothLeft && i < |a0|
    requires Progress(a0, a, both, ends, {i} + bothLeft, endsLeft, allBoth, allEnds, n)
    ensures Progress(a0, a[i := a[i].AdjustStart(n).AdjustEnd(n)], both + {i}, ends, bothLeft, endsLeft, allBoth,
        allEnds, n)
  {
    assert i !in ends;
    assert both + {i} + bothLeft == both + ({i} + bothLeft);
    assert a[i := a[i].AdjustStart(n).AdjustEnd(n)] == Shifted(a0, both + {i}, ends, n);
  }

  lemma DoEnd(a0: seq<ElemPos>, a: seq<ElemPos>, both: set<nat>, ends: set<nat>, bothLeft: set<nat>, endsLeft: set<nat>,
      allBoth: set<nat>, allEnds: set<nat>, n: int, i: nat)
    requires i !in endsLeft && i < |a0|
    requires Progress(a0, a, both, ends, bothLeft, {i} + endsLeft, allBoth, allEnds, n)
    ensures Progress(a0, a[i := a[i].AdjustEnd(n)], both, ends + {i}, bothLeft, endsLeft, allBoth, allEnds, n)
  {
    assert i !in both;
    assert ends + {i} + endsLeft == ends + ({i} + endsLeft);
    assert a[i := a[i].AdjustEnd(n)] == Shifted(a0, both, ends + {i}, n);
  }

  // ---- the state of the loop ----

  /** `atTop`: the walk has just moved the end tag of an enclosing element. */
  datatype Spot = Spot(x: Ctx, cell: Forest, m: nat, skip: bool, atTop: bool) | Done

  ghost predicate Stands(a: seq<ElemPos>, s: Spot, iPos: nat, iPosTop: nat) {
    match s
    case Done => iPos == 0
    case Spot(x, cell, m, skip, atTop) =>
      && At(a, x, cell, m, skip) && iPos == cell.id
      && if atTop then m == 0 && skip && iPosTop == iPos else iPosTop == TopId(x, m)
  }

  ghost function BothOf(s: Spot): set<nat> {
    if s.Spot? && CtxOK(s.x) && s.cell.Cons? then BothLeft(s.x, s.cell, s.skip) else {}
  }

  ghost function EndsOf(s: Spot): set<nat> {
    if s.Spot? && CtxOK(s.x) && s.m <= Depth(s.x) then EndsLeft(s.x, s.m) else {}
  }

  /** One move of the walk, to `iPos`: an element to move as a whole, or, at
      `iPosTop`, an enclosing element of which only the end tag moves. */
  ghost predicate Moves(a: seq<ElemPos>, s: Spot, s': Spot, iPos: nat, iPosTop: nat) {
    && Stands(a, s', iPos, iPosTop) && iPos < |a|
    && if iPos != iPosTop then
         s'.Spot? && !s'.skip && !s'.atTop && BothOf(s) == {iPos} + BothOf(s') && iPos !in BothOf(s')
             && EndsOf(s) == EndsOf(s')
       else
         (s'.Spot? ==> s'.skip && s'.atTop) && EndsOf(s) == {iPos} + EndsOf(s') && iPos !in EndsOf(s')
             && BothOf(s) == BothOf(s')
  }

  /** The walk stands at an element, and `iPosTop` is the next one to be finished. */
  ghost predicate Ready(a: seq<ElemPos>, s: Spot, iPos: nat, iPosTop: nat) {
    s.Spot? && At(a, s.x, s.cell, s.m, s.skip) && iPos == s.cell.id && iPosTop == TopId(s.x, s.m)
  }

  /** The test at the start of the loop tells whether the walk stands at the
      enclosing element it has just finished. */
  lemma TopTest(a: seq<ElemPos>, s: Spot, iPos: nat, iPosTop: nat)
    requires Stands(a, s, iPos, iPosTop) && iPos != 0
    ensures s.Spot? && iPos < |a| && (iPos == iPosTop <==> s.atTop)
    ensures Ready(a, s, iPos, if s.atTop then a[iPos].parent else iPosTop)
  {
    TopIdIn(s.x, s.m);
    EndsLeftAll(s.x);
    FollowingIn(s.x);
  }

  lemma IdZero(f: Forest)
    requires Distinct(f)
    ensures Id(f) == 0 <==> f.Nil?
  {
  }

  lemma NotTop(a: seq<ElemPos>, s: Spot)
    requires s.Spot? && At(a, s.x, s.cell, s.m, s.skip)
    ensures s.cell.id != TopId(s.x, s.m) && s.cell.id < |a|
  {
    TopIdIn(s.x, s.m);
  }

  lemma MoveChild(a: seq<ElemPos>, s: Spot, iPos: nat, iPosTop: nat) returns (s': Spot)
    requires Ready(a, s, iPos, iPosTop) && !s.skip && iPos < |a| && a[iPos].child != 0
    ensures Moves(a, s, s', a[iPos].child, iPosTop)
  {
    StepChild(a, s.x, s.cell, s.m);
    s' := Spot(Child(s.cell, s.x), s.cell.kids, s.m + 1, false, false);
    NotTop(a, s');
  }

  lemma MoveNext(a: seq<ElemPos>, s: Spot, iPos: nat, iPosTop: nat) returns (s': Spot)
    requires Ready(a, s, iPos, iPosTop) && iPos < |a| && (s.skip || a[iPos].child == 0) && a[iPos].next != 0
    ensures Moves(a, s, s', a[iPos].next, iPosTop)
  {
    IdZero(s.cell.kids);
    StepNext(a, s.x, s.cell, s.m, s.skip);
    s' := Spot(Sib(s.cell, s.x), s.cell.next, s.m, false, false);
    NotTop(a, s');
  }

  /** Where the climb stands: it has left the children of `Par(x)`. */
  ghost predicate Climbs(a: seq<ElemPos>, s: Spot, x: Ctx, m: nat, iPos: nat, iPosTop: nat) {
    && CtxOK(x) && DistinctCtx(x) && LinksUp(a, x) && m <= Depth(x) && iPos == Par(x) && iPosTop == TopId(x, m)
    && BothOf(s) == Following(x) && EndsOf(s) == EndsLeft(x, m) && iPos < |a|
  }

  lemma ClimbStart(a: seq<ElemPos>, s: Spot, iPos: nat, iPosTop: nat)
    requires Ready(a, s, iPos, iPosTop) && iPos < |a| && (s.skip || a[iPos].child == 0) && a[iPos].next == 0
    ensures Climbs(a, s, s.x, s.m, a[iPos].parent, iPosTop)
  {
    IdZero(s.cell.kids);
    IdZero(s.cell.next);
    ParIn(a, s.x);
  }

  lemma ParIn(a: seq<ElemPos>, x: Ctx)
    requires CtxOK(x) && LinksUp(a, x)
    ensures Par(x) < |a|
  {
  }

  /** Not at the top: the enclosing element is done; go to its next sibling. */
  lemma ClimbNext(a: seq<ElemPos>, s: Spot, x: Ctx, m: nat, iPos: nat, iPosTop: nat) returns (s': Spot)
    requires Climbs(a, s, x, m, iPos, iPosTop) && iPos != 0 && iPos != iPosTop && a[iPos].next != 0
    ensures Moves(a, s, s', a[iPos].next, iPosTop)
  {
    StepUp(a, x, m);
    var (c, up) := Outer(x);
    StepNext(a, up, c, m - 1, true);
    s' := Spot(Sib(c, up), c.next, m - 1, false, false);
    NotTop(a, s');
  }

  /** ... or further up, if it has none. */
  lemma ClimbOn(a: seq<ElemPos>, s: Spot, x: Ctx, m: nat, iPos: nat, iPosTop: nat)
    requires Climbs(a, s, x, m, iPos, iPosTop) && iPos != 0 && iPos != iPosTop && a[iPos].next == 0
    ensures m > 0 && Climbs(a, s, Outer(x).1, m - 1, a[iPos].parent, iPosTop)
  {
    StepUp(a, x, m);
    var (c, up) := Outer(x);
    IdZero(c.next);
    ParIn(a, up);
  }

  /** The climb ends at the enclosing element to be finished, or at the document. */
  lemma ClimbEnd(a: seq<ElemPos>, s: Spot, x: Ctx, m: nat, iPos: nat, iPosTop: nat) returns (s': Spot)
    requires Climbs(a, s, x, m, iPos, iPosTop) && (iPos == 0 || iPos == iPosTop)
    ensures Moves(a, s, s', iPos, iPosTop)
  {
    StepUp(a, x, m);
    if Par(x) == 0 {
      s' := Done;
    } else {
      var (c, up) := Outer(x);
      s' := Spot(up, c, 0, true, true);
    }
  }

  lemma SameLinksSet(a0: seq<ElemPos>, a: seq<ElemPos>, i: nat, n: int)
    requires SameLinks(a0, a) && i < |a|
    ensures SameLinks(a0, a[i := a[i].AdjustStart(n)]) && SameLinks(a0, a[i := a[i].AdjustEnd(n)])
    ensures SameLinks(a0, a[i := a[i].AdjustStart(n).AdjustEnd(n)])
  {
  }
}
