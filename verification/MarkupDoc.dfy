/**
  The document class: the text, the position array beside it, and the current
  position, with the edits that splice the text and repair the array in place.
 */
module MarkupDoc {
  import opened Common
  import opened Scanner
  import opened ScanLoops
  import opened Parser
  import opened ParserProofs
  import opened RoundTrip
  import opened Index
  import opened Building
  import opened ParseLoop
  import opened Walk
  import opened Edits
  import opened Layout
  import opened Gaps
  import opened Places
  import opened Surgery
  import opened Sites
  import opened Attribs
  import opened States
  import opened Parsed
  import opened Escaping
  import opened Content
  import opened Paths
  import opened Locating
  import opened NewElems
  import Growth
  import opened Removals
  import opened Values
  import opened SubDocs

  /** Only the start of entry `i` and the end of entry `par` have changed. */
  ghost predicate Scanned(a: seq<ElemPos>, b: seq<ElemPos>, i: nat, par: nat) {
    && |a| == |b| && i < |a| && par < |a| && (forall k :: 0 <= k < |a| && k != i && k != par ==> b[k] == a[k])
    && b[i] == a[i].(startL := b[i].startL) && b[par] == a[par].(endL := b[par].endL)
  }

  /** Links do not change end offsets. */
  lemma LinkedEnd(b: seq<ElemPos>, c: seq<ElemPos>, i: nat, prev: nat, id: nat)
    requires Linked(b, c, i, prev, id) && i < id < |b|
    ensures |c| == |b| && c[id].endR == b[id].endR
  {
  }

  lemma BelowTwice(a: seq<ElemPos>, b: seq<ElemPos>, c: seq<ElemPos>, i: nat)
    requires Below(a, b, i) && Below(b, c, i)
    ensures Below(a, c, i)
  {
  }

  lemma TagRange(s: string, n: nat)
    requires n <= |s|
    ensures NextTag(s, n).OpenTag? ==> n <= NextTag(s, n).l < NextTag(s, n).r < |s| && NextTag(s, n).r > n + 1
    ensures NextTag(s, n).CloseTag? ==> n <= NextTag(s, n).l < |s|
  {
    hide NextTag;
  }

  /** A new entry, and then its fields, leave what is below alone. */
  lemma EntryTaken(a: seq<ElemPos>, b: seq<ElemPos>, par: nat, e: ElemPos, i: nat)
    requires a <= b && par < i <= |a| && i < |b|
    ensures Grown(a, b[i := e], i, par)
  {
  }

  lemma ScannedGrown(a: seq<ElemPos>, b: seq<ElemPos>, c: seq<ElemPos>, i: nat, par: nat)
    requires Grown(a, b, i, par) && Scanned(b, c, i, par) && i < |b|
    ensures Grown(a, c, i, par) && |c| == |b| && c[i] == b[i].(startL := c[i].startL)
  {
  }

  lemma GrownSet(a: seq<ElemPos>, b: seq<ElemPos>, i: nat, par: nat, e: ElemPos)
    requires Grown(a, b, i, par) && i < |b|
    ensures Grown(a, b[i := e], i, par)
  {
  }

  lemma GrownBelow(a: seq<ElemPos>, b: seq<ElemPos>, c: seq<ElemPos>, i: nat, par: nat)
    requires Grown(a, b, i, par) && Below(b, c, i)
    ensures Grown(a, c, i, par)
  {
  }

  lemma BelowGrown(a: seq<ElemPos>, b: seq<ElemPos>, c: seq<ElemPos>, i: nat, free: nat)
    requires Below(a, b, i) && Grown(b, c, free, i)
    ensures Below(a, c, i) && i < free <= |b| <= |c| && c[i] == b[i].(endL := c[i].endL)
  {
  }

  lemma BelowSet(a: seq<ElemPos>, i: nat, e: ElemPos)
    requires i < |a|
    ensures Below(a, a[i := e], i)
  {
  }

  lemma OutcomeError(a: seq<ElemPos>, par: nat, p: int, free0: nat, free: nat)
    ensures Outcome(a, par, p, free0, free, -1, ElemError)
  {
  }

  lemma OutcomeEnd(a: seq<ElemPos>, par: nat, p: int, free: nat)
    requires par < |a| && a[par].endL >= 0
    ensures Outcome(a, par, p, free, free, 0, EndHere(a[par].endL))
  {
  }

  lemma NextForward(s: string, p: nat, id: nat)
    requires p <= |s| && Parser.ParseElem(s, p, id).Elem?
    ensures p < Parser.ParseElem(s, p, id).next <= |s|
  {
    hide Parser.ParseElem;
  }

  /** What the result of the parser method says. */
  lemma OutcomeCases(a: seq<ElemPos>, par: nat, p: int, free0: nat, free: nat, r: int, x: ElemResult)
    requires Outcome(a, par, p, free0, free, r, x) && free0 > 0
    ensures match x
      case Elem(lead, cell, _, ids) =>
        r == free0 == cell.id && free == ids && cell.Cons? && 0 <= p && Rep(a, cell, par, p + |lead|)
      case EndHere(l) => r == 0 && free == free0 && par < |a| && a[par].endL == l
      case ElemError => r == -1
      case ElemEndless => false
  {
    hide Rep;
  }

  lemma ScannedNone(a: seq<ElemPos>, i: nat, par: nat)
    requires i < |a| && par < |a|
    ensures Scanned(a, a, i, par)
  {
  }

  lemma ScannedSet(a: seq<ElemPos>, b: seq<ElemPos>, i: nat, par: nat, n: int)
    requires Scanned(a, b, i, par) && i != par
    ensures |b| == |a| && i < |b| && par < |b|
    ensures Scanned(a, b[i := b[i].(startL := n)], i, par)
    ensures Scanned(a, b[i := b[i].(startL := n)][par := b[par].(endL := n)], i, par)
  {
  }

  lemma TextSome(s: string, t: Token)
    requires t.l <= t.r && t.r + 1 <= |s|
    ensures |TokenText(s, t)| > 0
  {
  }

  lemma LinkedSet(b: seq<ElemPos>, c: seq<ElemPos>, i: nat, prev: nat, id: nat, e: int)
    requires Linked(b, c, i, prev, id) && 0 < i && i != prev
    ensures Linked(b, c[i := c[i].(endL := e)], i, prev, id) && Below(c, c[i := c[i].(endL := e)], i)
  {
  }

  lemma ProgressStart(a: seq<ElemPos>, allBoth: set<nat>, allEnds: set<nat>, n: int)
    requires allBoth !! allEnds
    ensures Progress(a, a, {}, {}, allBoth, allEnds, allBoth, allEnds, n)
  {
    assert a == Shifted(a, {}, {}, n);
  }

  lemma ProgressEnd(a0: seq<ElemPos>, a: seq<ElemPos>, s: Spot, iPosTop: nat, both: set<nat>, ends: set<nat>,
      allBoth: set<nat>, allEnds: set<nat>, n: int)
    requires Stands(a0, s, 0, iPosTop)
    requires Progress(a0, a, both, ends, BothOf(s), EndsOf(s), allBoth, allEnds, n)
    ensures a == Shifted(a0, allBoth, allEnds, n)
  {
    assert both == allBoth && ends == allEnds;
  }

  lemma WalkStarts(a: seq<ElemPos>, x: Ctx, c: Forest, skip: bool)
    requires At(a, x, c, 0, skip)
    ensures CtxOK(x) && c.Cons?
    ensures c.id < |a| && Stands(a, Spot(x, c, 0, skip, false), c.id, a[c.id].parent)
    ensures BothOf(Spot(x, c, 0, skip, false)) == BothLeft(x, c, skip)
    ensures EndsOf(Spot(x, c, 0, skip, false)) == Ancestors(x) && BothLeft(x, c, skip) !! Ancestors(x)
  {
    EndsLeftAll(x);
    FollowingIn(x);
    ZeroFree(c);
  }

  lemma OutcomeSigns(a: seq<ElemPos>, free: nat, r: int, x: ElemResult)
    requires Outcome(a, 0, 0, 1, free, r, x)
    ensures r > 0 <==> x.Elem?
    ensures r > 0 ==> r == 1
  {
    hide Rep;
  }

  lemma NoDocument(s: string)
    requires s == ""
    ensures !Parser.ParseElem(s, 0, 1).Elem?
  {
    ElemErrors(s, 0, 1);
  }

  lemma TopFill(f: Forest)
    ensures CtxOK(Top) && Fill(Top, f) == f
  {
  }

  lemma LaterTop(f: Forest)
    ensures Later(f, 0, 0) == f
  {
  }

  lemma IdIs(f: Forest)
    ensures Id(f) == if f.Nil? then 0 else f.id
  {
  }

  lemma PosIn(a: seq<ElemPos>, f: Forest, par: nat, pos: nat, child: nat)
    requires PosOK(a, f, par, pos, child)
    ensures (par == 0 || par in Ids(f)) && (pos == 0 || pos in Ids(f)) && (child == 0 || child in Ids(f))
    ensures pos != 0 ==> pos < |a| && a[pos].parent == par
    ensures child != 0 ==> child < |a| && a[child].parent == pos
    ensures pos == 0 && child != 0 ==> par == 0
  {
  }

  lemma NewPos(a: seq<ElemPos>, f: Forest, par: nat, pos: nat, child: nat)
    requires par == 0 || par in Ids(f)
    requires pos == 0 || (pos in Ids(f) && pos < |a| && a[pos].parent == par)
    requires child == 0 || (child in Ids(f) && child < |a| && a[child].parent == pos)
    requires pos == 0 && child != 0 ==> par == 0
    ensures PosOK(a, f, par, pos, child)
  {
  }

  lemma DocParent(doc: string, a: seq<ElemPos>, free: nat, prolog: string, f: Forest)
    requires State(doc, a, free, prolog, f)
    ensures 0 < |a| && a[0].parent == 0
  {
    hide WFRoot, Rep, Distinct;
  }

  class Markup {
    var strDoc: string
    var aPos: seq<ElemPos>
    var iPosFree: nat
    var iPosParent: nat
    var iPos: nat
    var iPosChild: nat
    var nNodeType: int
    ghost var prolog: string
    ghost var tree: Forest

    // ---- parsing ----

    /** `x_GetFreePos`. */
    method GetFreePos() returns (i: nat)
      requires 2 <= |aPos| && iPosFree <= |aPos|
      modifies `aPos, `iPosFree
      ensures i == old(iPosFree) < iPosFree == i + 1 <= |aPos|
      ensures old(aPos) <= aPos
    {
      if iPosFree == |aPos| {
        aPos := aPos + seq(iPosFree / 2, _ => CLEARED);
      }
      iPosFree := iPosFree + 1;
      i := iPosFree - 1;
    }

    /** The start tag loop of `x_ParseElem`: 1 for a start tag, 0 for an end tag,
        -1 for an error.  The parent's end tag is to be looked for from there on. */
    method FindStartTag(i: nat, par: nat) returns (code: int, strName: string, nNext: nat)
      requires i < |aPos| && par < |aPos| && i != par && 0 <= aPos[par].endL <= |strDoc|
      requires NextTag(strDoc, aPos[par].endL) != Endless
      modifies `aPos
      ensures Scanned(old(aPos), aPos, i, par)
      ensures match NextTag(strDoc, old(aPos)[par].endL)
        case OpenTag(l, name, r) => code == 1 && strName == name && nNext == r && aPos[i].startL == l
            && aPos[par].endL == l
        case CloseTag(l, _) => code == 0 && aPos[par].endL == l
        case _ => code == -1
    {
      hide *;
      nNext := aPos[par].endL;
      strName := "";
      ghost var n0, a0 := nNext, aPos;
      ScannedNone(aPos, i, par);
      while strName == ""
        invariant Scanned(a0, aPos, i, par) && i < |aPos| && par < |aPos|
        invariant nNext <= |strDoc|
        invariant strName == "" ==> NextTag(strDoc, nNext) == NextTag(strDoc, n0)
        invariant strName != "" ==>
            0 <= aPos[i].startL && NextTag(strDoc, n0) == OpenTag(aPos[i].startL, strName, nNext)
            && aPos[par].endL == aPos[i].startL
        decreases if strName == "" then 1 + |strDoc| - nNext else 0
      {
        NextTagTurn(strDoc, nNext);
        var found, nStartL := ScanChar(strDoc, nNext, '<');
        ScannedSet(a0, aPos, i, par, nStartL);
        aPos := aPos[i := aPos[i].(startL := nStartL)];
        if !found {
          return -1, "", 0;
        }
        aPos := aPos[par := aPos[par].(endL := nStartL)];
        var token := ScanToken(strDoc, nStartL + 1);
        if !token.found || token.isString {
          return -1, "", 0;
        }
        var cFirstChar := strDoc[token.l];
        if cFirstChar == '?' || cFirstChar == '!' {
          var node := ScanNode(strDoc, nStartL);
          if node.kind == NoNode {
            return -1, "", 0;
          }
          nNext := node.next;
        } else if cFirstChar != '/' {
          strName := TokenText(strDoc, token);
          TextSome(strDoc, token);
          found, nNext := ScanChar(strDoc, token.next, '>');
          if !found {
            return -1, "", 0;
          }
        } else {
          return 0, "", 0;
        }
      }
      code := 1;
    }

    /** The end tag loop of `x_ParseElem`. */
    method FindEndTag(nFrom: nat, strName: string) returns (nR: Option<nat>)
      requires nFrom <= |strDoc|
      ensures nR == EndTag(strDoc, nFrom, 0, strName)
    {
      hide FindToken, Match;
      var nNext, nTokenCount := nFrom, 0;
      while true
        invariant nNext <= |strDoc| && EndTag(strDoc, nNext, nTokenCount, strName) == EndTag(strDoc, nFrom, 0, strName)
        decreases |strDoc| - nNext
      {
        var token := ScanToken(strDoc, nNext);
        if !token.found {
          return None;
        }
        nTokenCount := nTokenCount + 1;
        if !token.isString {
          if nTokenCount == 1 && strDoc[token.l] != '/' {
            return None;
          } else if nTokenCount == 2 && !Match(TokenText(strDoc, token), strName) {
            return None;
          } else if strDoc[token.l] == '>' {
            return Some(token.l);
          }
        }
        nNext := token.next;
      }
    }

    /** `x_ParseElem`: reads one element from where `par` ends.  The result is the new
        index, 0 at the parent's end tag, -1 after an error; `x` is what the
        parser function says. */
    method ParseElem(par: nat) returns (r: int, ghost x: ElemResult)
      requires 8 <= |aPos| && par < iPosFree <= |aPos| && 0 <= aPos[par].endL <= |strDoc|
      requires Parser.ParseElem(strDoc, aPos[par].endL, iPosFree) != ElemEndless
      modifies `aPos, `iPosFree
      ensures x == Parser.ParseElem(strDoc, old(aPos[par].endL), old(iPosFree))
      ensures Grown(old(aPos), aPos, old(iPosFree), par) && old(iPosFree) <= iPosFree <= |aPos|
      ensures Outcome(aPos, par, old(aPos[par].endL), old(iPosFree), iPosFree, r, x)
      decreases |strDoc| - aPos[par].endL, 1
    {
      hide *;
      ghost var p, a0 := aPos[par].endL, aPos;
      ElemStep(strDoc, p, iPosFree);
      ElemErrors(strDoc, p, iPosFree);
      TagRange(strDoc, p);
      var i := GetFreePos();
      x := Parser.ParseElem(strDoc, p, i);
      EntryTaken(a0, aPos, par, aPos[i].(startL := aPos[par].endL, parent := par, child := 0, next := 0), i);
      aPos := aPos[i := aPos[i].(startL := aPos[par].endL, parent := par, child := 0, next := 0)];
      ghost var a1 := aPos;
      var code, strName, nNext := FindStartTag(i, par);
      ScannedGrown(a0, a1, aPos, i, par);
      if code == -1 {
        iPosFree := iPosFree - 1;
        OutcomeError(aPos, par, p, i, iPosFree);
        return -1, x;
      }
      if code == 0 {
        iPosFree := iPosFree - 1;
        OutcomeEnd(aPos, par, p, i);
        return 0, x;
      }
      GrownSet(a0, aPos, i, par, aPos[i].(startR := nNext));
      aPos := aPos[i := aPos[i].(startR := nNext)];
      if strDoc[nNext - 1] == '/' {
        GrownSet(a0, aPos, i, par, aPos[i].(endL := nNext - 1, endR := nNext));
        aPos := aPos[i := aPos[i].(endL := nNext - 1, endR := nNext)];
        r := i;
        EmptyEntry(strDoc, aPos, i, par, p);
      } else {
        ghost var b := aPos;
        r := ParseContent(i, strName, par, p, x);
        GrownBelow(a0, b, aPos, i, par);
      }
    }

    /** Links a child just read: behind the one before it, or as the first. */
    method LinkInner(i: nat, iInnerPrev: nat, iInner: nat)
      requires i < |aPos| && iInnerPrev < |aPos| && (iInnerPrev == 0 || i < iInnerPrev)
      modifies `aPos
      ensures Linked(old(aPos), aPos, i, iInnerPrev, iInner) && Below(old(aPos), aPos, i)
      ensures aPos[i] == old(aPos)[i].(child := aPos[i].child)
    {
      if iInnerPrev != 0 {
        aPos := aPos[iInnerPrev := aPos[iInnerPrev].LinkNext(iInner)];
      } else {
        aPos := aPos[i := aPos[i].LinkChild(iInner)];
      }
    }

    /** The last part of `x_ParseElem`: the end tag. */
    method ParseEnd(i: nat, strName: string, ghost par: nat, ghost p: nat, ghost head: string, ghost done: Forest,
        ghost prev: nat, ghost a1: seq<ElemPos>, ghost cur: nat) returns (r: int)
      requires p <= |strDoc| && cur <= |strDoc| && 0 < i < iPosFree <= |aPos| && 0 <= aPos[i].endL <= |strDoc|
      requires NextTag(strDoc, p).OpenTag? && NextTag(strDoc, p).name == strName
          && strDoc[NextTag(strDoc, p).r - 1] != '/'
      requires ReadSoFar(a1, i, NextTag(strDoc, p).r + 1, iPosFree, head, done, prev, cur)
          && Grown(a1, aPos, iPosFree, i)
      requires ParseKids(strDoc, NextTag(strDoc, p).r + 1, i + 1) == Prepend(head, done,
          ParseKids(strDoc, cur, iPosFree))
      requires Parser.ParseElem(strDoc, cur, iPosFree) == EndHere(aPos[i].endL)
      requires var t := NextTag(strDoc, p); aPos[i] == ElemPos(t.l, t.r, aPos[i].endL, aPos[i].endR, par, a1[i].child,
          0)
      modifies `aPos, `iPosFree
      ensures Below(old(aPos), aPos, i) && i <= iPosFree <= |aPos|
      ensures Outcome(aPos, par, p, i, iPosFree, r, Parser.ParseElem(strDoc, p, i)) && r != 0
    {
      hide NextTag, Parser.ParseElem, ParseKids, Rep, EndTag, ReadSoFar, Prepend, SetTail, Grown;
      ghost var free := iPosFree;
      ElemStep(strDoc, p, i);
      ElemErrors(strDoc, p, i);
      PrependErrors(strDoc, cur, free, head, done);
      EndHereIs(strDoc, cur, free);
      ReadBounds(a1, i, NextTag(strDoc, p).r + 1, free, head, done, prev, cur);
      var found, nEndL := ScanChar(strDoc, aPos[i].endL, '<');
      var nR := FindEndTag(nEndL + 1, strName);
      if nR.None? {
        iPosFree := iPosFree - 1;
        return -1;
      }
      FullEntry(strDoc, a1, aPos, aPos[i].(endL := nEndL, endR := nR.value), i, par, p, head, done, prev, cur, free,
                NextTag(strDoc, p), nEndL, nR.value);
      aPos := aPos[i := aPos[i].(endL := nEndL, endR := nR.value)];
      return i;
    }

    /** The body of the loop over the children, once a child is read. */
    method TakeChild(i: nat, iInnerPrev: nat, iInner: nat, ghost a1: seq<ElemPos>, ghost s0: nat, ghost free: nat,
        ghost head: string, ghost done: Forest, ghost cur: nat)
      returns (ghost head': string, ghost done': Forest)
      requires cur <= |strDoc| && 0 < free == iInner && iPosFree <= |aPos| && i < iInner && iInnerPrev < free
          && (iInnerPrev == 0 || i < iInnerPrev)
      requires ReadSoFar(a1, i, s0, free, head, done, iInnerPrev, cur) && Grown(a1, aPos, free, i)
      requires var y := Parser.ParseElem(strDoc, cur, free);
        y.Elem? && y.cell.id == free && Rep(aPos, y.cell, i, cur + |y.lead|)
            && Outcome(aPos, i, cur, free, iPosFree, free, y)
      modifies `aPos
      ensures var y := Parser.ParseElem(strDoc, cur, free);
        && |aPos| == |old(aPos)| && Below(old(aPos), aPos, i) && free < iPosFree
        && aPos[i] == old(aPos)[i].(endL := y.next, child := aPos[i].child)
        && ReadSoFar(aPos, i, s0, iPosFree, head', done', free, y.next)
        && Prepend(head, done, ParseKids(strDoc, cur, free)) == Prepend(head', done',
            ParseKids(strDoc, y.next, iPosFree))
    {
      hide *;
      ghost var b := aPos;
      ReadBounds(a1, i, s0, free, head, done, iInnerPrev, cur);
      ElemFacts(strDoc, cur, free, b, i);
      LinkInner(i, iInnerPrev, iInner);
      ghost var c := aPos;
      LinkedEnd(b, c, i, iInnerPrev, free);
      aPos := aPos[i := aPos[i].(endL := aPos[iInner].endR + 1)];
      LinkedSet(b, c, i, iInnerPrev, free, aPos[i].endL);
      BelowTwice(b, c, aPos, i);
      head', done' := ReadChild(strDoc, a1, b, aPos, i, s0, free, iPosFree, head, done, iInnerPrev, cur);
    }

    /** The second half of `x_ParseElem`: the children one by one, then the end tag. */
    method ParseContent(i: nat, strName: string, ghost par: nat, ghost p: nat, ghost x: ElemResult) returns (r: int)
      requires 8 <= |aPos| && par < i && i + 1 == iPosFree <= |aPos| && p <= |strDoc|
      requires x == Parser.ParseElem(strDoc, p, i) && x != ElemEndless
      requires var t := NextTag(strDoc, p);
        t.OpenTag? && t.name == strName && strDoc[t.r - 1] != '/' && aPos[i].startL == t.l && aPos[i].startR == t.r
        && aPos[i].parent == par && aPos[i].child == 0 && aPos[i].next == 0
      modifies `aPos, `iPosFree
      ensures Below(old(aPos), aPos, i) && i <= iPosFree <= |aPos|
      ensures Outcome(aPos, par, p, i, iPosFree, r, x) && r != 0
      decreases |strDoc| - aPos[i].startR, 0
    {
      hide *;
      ghost var a0, t := aPos, NextTag(strDoc, p);
      TagRange(strDoc, p);
      BelowSet(aPos, i, aPos[i].(endL := aPos[i].startR + 1));
      ghost var s0 := t.r + 1;
      ghost var k0 := ParseKids(strDoc, s0, i + 1);
      ElemStep(strDoc, p, i);
      ElemErrors(strDoc, p, i);
      ghost var head, done: Forest := "", Nil;
      ghost var cur: nat := s0;
      var iInnerPrev: nat := 0;
      aPos := aPos[i := aPos[i].(endL := aPos[i].startR + 1)];
      ReadStart(aPos, i, s0, k0);
      while true
        invariant Below(a0, aPos, i) && 8 <= |aPos| && i < iPosFree <= |aPos| && (iInnerPrev == 0 || i < iInnerPrev)
        invariant aPos[i] == a0[i].(endL := cur, child := aPos[i].child) && s0 <= cur <= |strDoc|
        invariant iInnerPrev < iPosFree && ReadSoFar(aPos, i, s0, iPosFree, head, done, iInnerPrev, cur)
        invariant k0 == Prepend(head, done, ParseKids(strDoc, cur, iPosFree))
        decreases |strDoc| - cur
      {
        ghost var a1, free := aPos, iPosFree;
        PrependErrors(strDoc, cur, free, head, done);
        var iInner;
        ghost var y;
        iInner, y := ParseElem(i);
        ghost var b := aPos;
        BelowGrown(a0, a1, b, i, free);
        OutcomeCases(b, i, cur, free, iPosFree, iInner, y);
        if iInner == 0 {
          r := ParseEnd(i, strName, par, p, head, done, iInnerPrev, a1, cur);
          BelowTwice(a0, b, aPos, i);
          return;
        }
        if iInner == -1 {
          OutcomeError(b, par, p, i, iPosFree);
          return -1;
        }
        head, done := TakeChild(i, iInnerPrev, iInner, a1, s0, free, head, done, cur);
        BelowTwice(a0, b, aPos, i);
        NextForward(strDoc, cur, free);
        iInnerPrev := iInner;
        cur := y.next;
      }
    }

    // ---- the adjustment walk ----

    /** `x_Adjust`: both ends of every element after `iPos` are moved by `nShift`
        (its own children only if not `bAfterPos`), and the end tags of the
        elements around it; nothing else changes. */
    method Adjust(start: nat, nShift: int, bAfterPos: bool, ghost x0: Ctx, ghost c0: Forest)
      requires At(aPos, x0, c0, 0, bAfterPos) && start == c0.id
      modifies `aPos
      ensures aPos == Shifted(old(aPos), BothLeft(x0, c0, bAfterPos), Ancestors(x0), nShift)
    {
      hide At, BothLeft, EndsLeft, TopId, Shifted, Progress, Ancestors, Following, BothOf, EndsOf, Ready;
      ghost var a0 := aPos;
      WalkStarts(a0, x0, c0, bAfterPos);
      ghost var allBoth, allEnds := BothLeft(x0, c0, bAfterPos), Ancestors(x0);
      ghost var s, both, ends: set<nat> := Spot(x0, c0, 0, bAfterPos, false), {}, {};
      var iPos := start;
      var iPosTop := aPos[iPos].parent;
      var bPosFirst := bAfterPos;
      ProgressStart(a0, BothOf(s), EndsOf(s), nShift);
      while iPos != 0
        invariant SameLinks(a0, aPos) && Stands(a0, s, iPos, iPosTop)
        invariant s.Spot? ==> s.skip == (s.atTop || bPosFirst)
        invariant Progress(a0, aPos, both, ends, BothOf(s), EndsOf(s), allBoth, allEnds, nShift)
        decreases BothOf(s) + EndsOf(s), iPos
      {
        TopTest(a0, s, iPos, iPosTop);
        var bPosTop := false;
        if iPos == iPosTop {
          iPosTop := aPos[iPos].parent;
          bPosTop := true;
        }
        ghost var s';
        if !bPosTop && !bPosFirst && aPos[iPos].child != 0 {
          s' := MoveChild(a0, s, iPos, iPosTop);
          iPos := aPos[iPos].child;
        } else if aPos[iPos].next != 0 {
          s' := MoveNext(a0, s, iPos, iPosTop);
          iPos := aPos[iPos].next;
        } else {
          ClimbStart(a0, s, iPos, iPosTop);
          iPos, s' := Climb(aPos[iPos].parent, iPosTop, a0, s);
        }
        bPosFirst := false;
        SameLinksSet(a0, aPos, iPos, nShift);
        ghost var a1 := aPos;
        if iPos != iPosTop {
          DoBoth(a0, aPos, both, ends, BothOf(s'), EndsOf(s'), allBoth, allEnds, nShift, iPos);
          both := both + {iPos};
          aPos := aPos[iPos := aPos[iPos].AdjustStart(nShift)];
        } else {
          DoEnd(a0, aPos, both, ends, BothOf(s'), EndsOf(s'), allBoth, allEnds, nShift, iPos);
          ends := ends + {iPos};
        }
        aPos := aPos[iPos := aPos[iPos].AdjustEnd(nShift)];
        assert iPos != iPosTop ==> aPos == a1[iPos := a1[iPos].AdjustStart(nShift).AdjustEnd(nShift)];
        s := s';
      }
      ProgressEnd(a0, aPos, s, iPosTop, both, ends, allBoth, allEnds, nShift);
    }

    /** The inner loop of the walk: from a parent up to the next sibling of an
        enclosing element already done, or to `iPosTop`. */
    method Climb(start: nat, iPosTop: nat, ghost a0: seq<ElemPos>, ghost s: Spot) returns (iPos: nat, ghost s': Spot)
      requires SameLinks(a0, aPos) && s.Spot? && Climbs(a0, s, s.x, s.m, start, iPosTop)
      ensures Moves(a0, s, s', iPos, iPosTop)
    {
      hide Moves;
      ghost var x, m := s.x, s.m;
      iPos := start;
      while iPos != 0 && iPos != iPosTop
        invariant iPos < |aPos| && Climbs(a0, s, x, m, iPos, iPosTop)
        decreases m
      {
        if aPos[iPos].next != 0 {
          s' := ClimbNext(a0, s, x, m, iPos, iPosTop);
          iPos := aPos[iPos].next;
          return;
        }
        ClimbOn(a0, s, x, m, iPos, iPosTop);
        x, m := Outer(x).1, m - 1;
        iPos := aPos[iPos].parent;
      }
      s' := ClimbEnd(a0, s, x, m, iPos, iPosTop);
    }

    // ---- the state between two calls ----

    /** Text, array and current position fit together. */
    ghost predicate Valid()
      reads this
    {
      && State(strDoc, aPos, iPosFree, prolog, tree) && PosOK(aPos, tree, iPosParent, iPos, iPosChild)
      && nNodeType == (if iPos != 0 then 1 else 0)
    }

    lemma ValidIs()
      requires Valid()
      ensures State(strDoc, aPos, iPosFree, prolog, tree) && PosOK(aPos, tree, iPosParent, iPos, iPosChild)
      ensures Laid(strDoc, aPos, iPosFree, prolog, tree) && (tree.Cons? ==> WFRoot(tree))
      ensures 8 <= |aPos| && 0 < iPosFree <= |aPos| && strDoc == prolog + Text(tree) && Distinct(tree)
          && 0 !in Ids(tree)
      ensures nNodeType == (if iPos != 0 then 1 else 0)
      ensures iPosParent < iPosFree && iPos < iPosFree && iPosChild < iPosFree
      ensures aPos[0].child == Id(tree) && (tree.Nil? ==> iPosParent == iPos == iPosChild == 0)
    {
      hide WFRoot, Rep, Distinct, Text;
      LaidBounds(strDoc, aPos, iPosFree, prolog, tree);
    }

    lemma ValidBack()
      requires State(strDoc, aPos, iPosFree, prolog, tree) && PosOK(aPos, tree, iPosParent, iPos, iPosChild)
      requires nNodeType == (if iPos != 0 then 1 else 0)
      ensures Valid()
    {
    }

    /** Every document built by the editor alone is tidy; a valid tidy document agrees
        with what parsing its text again gives. */
    ghost predicate Tidied()
      reads `prolog, `tree
    {
      Tidy(prolog, tree)
    }

    lemma TidiedIs()
      ensures Tidied() <==> Tidy(prolog, tree)
    {
    }

    lemma Agreement()
      requires Valid() && Tidied()
      ensures Agrees(strDoc, prolog, tree)
    {
      TidyAgrees(strDoc, aPos, iPosFree, prolog, tree);
    }

    // ---- position ----

    /** `x_SetPos`. */
    method SetPos(par: nat, pos: nat, child: nat)
      modifies `iPosParent, `iPos, `iPosChild, `nNodeType
      ensures iPosParent == par && iPos == pos && iPosChild == child && nNodeType == (if pos != 0 then 1 else 0)
    {
      iPosParent, iPos, iPosChild := par, pos, child;
      nNodeType := if pos != 0 then 1 else 0;
    }

    method ResetChildPos()
      requires Valid()
      modifies `iPosParent, `iPos, `iPosChild, `nNodeType
      ensures Valid() && iPosParent == old(iPosParent) && iPos == old(iPos) && iPosChild == 0
    {
      SetPos(iPosParent, iPos, 0);
    }

    method ResetMainPos()
      requires Valid()
      modifies `iPosParent, `iPos, `iPosChild, `nNodeType
      ensures Valid() && iPosParent == old(iPosParent) && iPos == 0 && iPosChild == 0
    {
      SetPos(iPosParent, 0, 0);
    }

    method ResetPos()
      requires Valid()
      modifies `iPosParent, `iPos, `iPosChild, `nNodeType
      ensures Valid() && iPosParent == 0 && iPos == 0 && iPosChild == 0
    {
      SetPos(0, 0, 0);
    }

    // ---- a whole document ----

    constructor (szDoc: string)
      requires Parser.ParseElem(szDoc, 0, 1) != ElemEndless
      ensures Valid()
      ensures if Parser.ParseElem(szDoc, 0, 1).Elem? then prolog == Parser.ParseElem(szDoc, 0, 1).lead
          && tree == ParsedTree(szDoc)
              else prolog == szDoc && tree == Nil && iPosFree == 1
      ensures strDoc == szDoc && iPosParent == 0 && iPos == 0 && iPosChild == 0
    {
      strDoc, aPos, iPosFree := "", [], 1;
      iPosParent, iPos, iPosChild, nNodeType := 0, 0, 0, 0;
      prolog, tree := "", Nil;
      new;
      var bWellFormed := SetDoc(szDoc);
    }

    /** `SetDoc`: the tree is what the parser finds, or nothing. */
    method SetDoc(szDoc: string) returns (bWellFormed: bool)
      requires Parser.ParseElem(szDoc, 0, 1) != ElemEndless
      modifies this
      ensures Valid() && strDoc == szDoc && iPosParent == 0 && iPos == 0 && iPosChild == 0
      ensures bWellFormed == Parser.ParseElem(szDoc, 0, 1).Elem?
      ensures if bWellFormed then prolog == Parser.ParseElem(szDoc, 0, 1).lead && tree == ParsedTree(szDoc)
          && aPos[0].child == 1
              else prolog == szDoc && tree == Nil && iPosFree == 1
    {
      hide Parser.ParseElem, ParsedTree, State, Outcome;
      iPosFree := 1;
      SetPos(0, 0, 0);
      strDoc := szDoc;
      var nStartSize := |strDoc| / 64 + 8;
      if |aPos| < nStartSize {
        aPos := aPos + seq(nStartSize - |aPos|, _ => CLEARED);
      }
      bWellFormed := false;
      if |strDoc| > 0 {
        aPos := aPos[0 := CLEARED];
        var r;
        ghost var x;
        r, x := ParseElem(0);
        OutcomeSigns(aPos, iPosFree, r, x);
        if r > 0 {
          ParsedState(strDoc, aPos, iPosFree);
          aPos := aPos[0 := aPos[0].LinkChild(r)];
          bWellFormed := true;
          prolog, tree := x.lead, ParsedTree(szDoc);
        }
      } else {
        NoDocument(szDoc);
      }
      if !bWellFormed {
        aPos := aPos[0 := CLEARED];
        iPosFree := 1;
        prolog, tree := szDoc, Nil;
        EmptyState(strDoc, aPos);
      }
      SetPos(0, 0, 0);
    }

    /** `IsWellFormed`. */
    method IsWellFormed() returns (b: bool)
      requires Valid()
      ensures b == tree.Cons?
    {
      ValidIs();
      ZeroFree(tree);
      b := |aPos| > 0 && aPos[0].child != 0;
    }

    // ---- navigation ----

    /** `x_FindElem`. */
    method FindPos(par: nat, pos: nat, szPath: string) returns (r: nat)
      requires Valid() && (par == 0 || par in Ids(tree)) && (pos == 0 || pos in Ids(tree))
      ensures r == Search(tree, par, pos, szPath)
    {
      hide *;
      ValidIs();
      SearchIs(tree, par, pos, szPath);
      var iPathOffset := 0;
      ghost var y, f := Top, tree;
      IdOf(tree);
      TopFill(tree);
      if szPath != "" && szPath[0] == '/' {
        r := aPos[0].child;
        iPathOffset := 1;
      } else if pos != 0 {
        ghost var x, c := Locate(tree, pos);
        ElemAt(strDoc, aPos, iPosFree, prolog, tree, x, c);
        LaterIs(tree, par, pos, x, c);
        y, f := Sib(c, x), c.next;
        r := aPos[pos].next;
      } else {
        if par != 0 {
          ghost var x, c := Locate(tree, par);
          ElemAt(strDoc, aPos, iPosFree, prolog, tree, x, c);
          LaterIs(tree, par, pos, x, c);
          y, f := Child(c, x), c.kids;
        } else {
          LaterTop(tree);
        }
        r := aPos[par].child;
      }
      if iPathOffset == |szPath| {
        return;
      }
      while r != 0
        invariant CtxOK(y) && Fill(y, f) == tree && r == Id(f) && (Id(f) == 0 <==> f.Nil?)
            && 0 <= iPathOffset <= |szPath|
        invariant FindPath(f, szPath, iPathOffset) == Search(tree, par, pos, szPath)
        decreases f
      {
        ElemAt(strDoc, aPos, iPosFree, prolog, tree, y, f);
        FindPathTurn(f, szPath, iPathOffset);
        IdIs(f);
        var token := FindToken(strDoc, aPos[r].startL + 1);
        if iPathOffset < |szPath| && szPath[iPathOffset] == '*' {
          if iPathOffset + 1 < |szPath| && szPath[iPathOffset + 1] == '/' {
            iPathOffset := iPathOffset + 2;
            y, f := Child(f, y), f.kids;
            r := aPos[r].child;
          } else {
            return;
          }
        } else if Match(TokenText(strDoc, token), szPath[iPathOffset..]) {
          MatchFits(TagName(f), szPath, iPathOffset);
          var nLen := token.r - token.l + 1;
          if iPathOffset + nLen < |szPath| && szPath[iPathOffset + nLen] == '/' {
            iPathOffset := iPathOffset + nLen + 1;
            y, f := Child(f, y), f.kids;
            r := aPos[r].child;
          } else {
            return;
          }
        } else {
          y, f := Sib(f, y), f.next;
          r := aPos[r].next;
        }
      }
      FindPathTurn(f, szPath, iPathOffset);
    }

    /** `FindElem`: the position changes only if an element is found. */
    method FindElem(szName: string) returns (ok: bool)
      requires Valid()
      modifies `iPosParent, `iPos, `iPosChild, `nNodeType
      ensures Valid()
      ensures var r := Search(tree, old(iPosParent), old(iPos), szName);
        ok == (r != 0) && if ok then r < |aPos| && iPos == r && iPosParent == aPos[r].parent && iPosChild == 0
                          else iPos == old(iPos) && iPosParent == old(iPosParent) && iPosChild == old(iPosChild)
    {
      hide *;
      ValidIs();
      PosIn(aPos, tree, iPosParent, iPos, iPosChild);
      var r := FindPos(iPosParent, iPos, szName);
      if r != 0 {
        ParentOf(strDoc, aPos, iPosFree, prolog, tree, r);
        SetPos(aPos[r].parent, r, 0);
        NewPos(aPos, tree, iPosParent, r, 0);
        ValidBack();
        return true;
      }
      return false;
    }

    /** `FindChildElem`: the search for a child element starts behind the child position.
        Without a main position the first element is taken for it; if there is
        none either, the search is among the roots. */
    method FindChildElem(szName: string) returns (ok: bool)
      requires Valid()
      modifies `iPosParent, `iPos, `iPosChild, `nNodeType
      ensures Valid()
      ensures var first := Search(tree, old(iPosParent), 0, "");
        var pos := if old(iPos) != 0 then old(iPos) else first;
        var r := Search(tree, pos, if old(iPos) == 0 && first != 0 then 0 else old(iPosChild), szName);
        && ok == (r != 0)
        && (ok ==>
              && r < |aPos| && iPosChild == r && iPos == aPos[r].parent
              && iPos < |aPos| && iPosParent == aPos[iPos].parent)
      ensures var first := Search(tree, old(iPosParent), 0, "");
        !ok ==> if old(iPos) == 0 && first != 0 then first < |aPos| && iPos == first && iPosParent == aPos[first].parent
            && iPosChild == 0
                else iPosParent == old(iPosParent) && iPos == old(iPos) && iPosChild == old(iPosChild)
    {
      hide *;
      if iPos == 0 {
        var found := FindElem("");
      }
      ValidIs();
      PosIn(aPos, tree, iPosParent, iPos, iPosChild);
      var r := FindPos(iPos, iPosChild, szName);
      if r != 0 {
        ParentOf(strDoc, aPos, iPosFree, prolog, tree, r);
        var pos := aPos[r].parent;
        if pos != 0 { ParentOf(strDoc, aPos, iPosFree, prolog, tree, pos); }
            else { DocParent(strDoc, aPos, iPosFree, prolog, tree); }
        SetPos(aPos[pos].parent, pos, r);
        NewPos(aPos, tree, iPosParent, pos, r);
        ValidBack();
        return true;
      }
      return false;
    }

    /** `IntoElem`. */
    method IntoElem() returns (ok: bool)
      requires Valid()
      modifies `iPosParent, `iPos, `iPosChild, `nNodeType
      ensures Valid() && ok == (old(iPos) != 0)
      ensures if ok then iPosParent == old(iPos) && iPos == old(iPosChild) && iPosChild == 0
              else iPosParent == old(iPosParent) && iPos == old(iPos) && iPosChild == old(iPosChild)
    {
      hide State;
      if iPos != 0 && nNodeType == 1 {
        SetPos(iPos, iPosChild, 0);
        return true;
      }
      return false;
    }

    /** `OutOfElem`. */
    method OutOfElem() returns (ok: bool)
      requires Valid()
      modifies `iPosParent, `iPos, `iPosChild, `nNodeType
      ensures Valid() && ok == (old(iPosParent) != 0)
      ensures if ok then iPos == old(iPosParent) && iPos < |aPos| && iPosParent == aPos[iPos].parent
          && iPosChild == old(iPos)
              else iPosParent == old(iPosParent) && iPos == old(iPos) && iPosChild == old(iPosChild)
    {
      hide State;
      ValidIs();
      if iPosParent != 0 {
        ParentOf(strDoc, aPos, iPosFree, prolog, tree, iPosParent);
        SetPos(aPos[iPosParent].parent, iPosParent, iPos);
        return true;
      }
      return false;
    }

    /** `x_GetTagName`. */
    method GetTagName(pos: nat) returns (strTagName: string)
      requires Valid() && (pos == 0 || pos in Ids(tree))
      ensures strTagName == if pos == 0 then "" else TagName(Find(tree, pos))
    {
      hide *;
      ValidIs();
      if pos == 0 {
        return "";
      }
      ghost var x, c := Locate(tree, pos);
      ElemAt(strDoc, aPos, iPosFree, prolog, tree, x, c);
      FindFill(x, c);
      var token := FindToken(strDoc, aPos[pos].startL + 1);
      return TokenText(strDoc, token);
    }

    // ---- where a new element goes ----

    /** The loop of `x_LocateNew` that finds the previous sibling of `rel`, or 0. */
    method FindPrev(par: nat, rel: nat) returns (iPosPrev: nat, ghost s: Site)
      requires Valid() && rel in Ids(tree) && rel < |aPos| && aPos[rel].parent == par && 0 < par < |aPos|
      ensures iPosPrev < |aPos| && if iPosPrev != 0 then aPos[iPosPrev].next == rel else aPos[par].child == rel
      ensures SiteOK(s, tree) && Under(s) == par && iPosPrev == (if s.Behind? then s.c.id else 0) && !s.Opened?
          && 0 < s.c.id < |aPos|
      ensures 0 <= aPos[rel].startL < |strDoc| && SiteAt(s, |prolog|) == aPos[rel].startL == Skip(strDoc,
          aPos[rel].startL)
    {
      hide *;
      ValidIs();
      ghost var y, f := FamilyOf(strDoc, aPos, iPosFree, prolog, tree, rel);
      iPosPrev := aPos[par].child;
      ElemAt(strDoc, aPos, iPosFree, prolog, tree, y, f);
      if iPosPrev == rel {
        ParentCell(y, f, |prolog|);
        ghost var x, p := y.up, y.cell.(kids := f);
        NotEmpty(strDoc, aPos, iPosFree, prolog, tree, x, p);
        s := WithinEnd(strDoc, aPos, iPosFree, prolog, tree, x, p);
        ElemAt(strDoc, aPos, iPosFree, prolog, tree, x, p);
        NextStart(x, p, |prolog|);
        SiteCut(s, tree);
        CellSame(x, p, f);
        iPosPrev := 0;
        return;
      }
      while aPos[iPosPrev].next != rel
        invariant CtxOK(y) && f.Cons? && Fill(y, f) == tree && iPosPrev == f.id < |aPos| && Par(y) == par
        invariant aPos[iPosPrev].next == Id(f.next) && rel in SibIds(f) && rel != f.id
        decreases f
      {
        SibNext(y, f, rel);
        IdIs(f.next);
        y, f := Sib(f, y), f.next;
        ElemAt(strDoc, aPos, iPosFree, prolog, tree, y, f);
        iPosPrev := aPos[iPosPrev].next;
      }
      SibNext(y, f, rel);
      IdIs(f.next);
      ElemAt(strDoc, aPos, iPosFree, prolog, tree, y, f);
      s := BehindEnd(strDoc, aPos, iPosFree, prolog, tree, y, f);
      SiteCut(s, tree);
      NextStart(y, f, |prolog|);
      ElemAt(strDoc, aPos, iPosFree, prolog, tree, Sib(f, y), f.next);
    }

    /** The loop of `x_LocateNew` that finds the last element under `par`. */
    method FindLast(par: nat) returns (iPosLast: nat, ghost s: Site)
      requires Valid() && par in Ids(tree) && par < |aPos| && aPos[par].child != 0
      ensures 0 < iPosLast < |aPos| && aPos[iPosLast].next == 0 && aPos[iPosLast].parent == par
      ensures SiteOK(s, tree) && Under(s) == par && s.Behind? && s.c.id == iPosLast
      ensures 0 <= aPos[par].endL < |strDoc| && SiteAt(s, |prolog|) == aPos[par].endL == Skip(strDoc, aPos[par].endL)
    {
      hide *;
      ValidIs();
      ghost var x, c := Locate(tree, par);
      ElemAt(strDoc, aPos, iPosFree, prolog, tree, x, c);
      NotEmpty(strDoc, aPos, iPosFree, prolog, tree, x, c);
      NextStart(x, c, |prolog|);
      IdIs(c.kids);
      ghost var y, f := Child(c, x), c.kids;
      iPosLast := aPos[par].child;
      ElemAt(strDoc, aPos, iPosFree, prolog, tree, y, f);
      var iPosNext := iPosLast;
      while iPosNext != 0
        invariant CtxOK(y) && f.Cons? && Fill(y, f) == tree && Par(y) == par && iPosNext < |aPos|
        invariant if iPosNext != 0 then iPosNext == f.id else iPosLast == f.id && f.next.Nil?
        invariant HolePos(y, |prolog|) + |Text(f)| == aPos[par].endL
        decreases f, iPosNext != 0
      {
        ElemAt(strDoc, aPos, iPosFree, prolog, tree, y, f);
        NextStart(y, f, |prolog|);
        IdIs(f.next);
        iPosLast := iPosNext;
        iPosNext := aPos[iPosNext].next;
        if f.next.Cons? {
          y, f := Sib(f, y), f.next;
          ElemAt(strDoc, aPos, iPosFree, prolog, tree, y, f);
        }
      }
      ElemAt(strDoc, aPos, iPosFree, prolog, tree, y, f);
      NextStart(y, f, |prolog|);
      NoText(f.next);
      IdIs(f.next);
      s := BehindEnd(strDoc, aPos, iPosFree, prolog, tree, y, f);
      SiteCut(s, tree);
    }

    /** The first half of `x_LocateNew`: the offset. */
    method NewStart(par: nat, rel: nat, bInsert: bool) returns (nStartL: int)
      requires par < |aPos| && rel < |aPos| && (!aPos[par].IsEmptyElement()
          ==> 0 <= FirstOffset(aPos, par, rel, bInsert) <= |strDoc|)
      ensures nStartL == NewOffset(strDoc, aPos, par, rel, bInsert)
    {
      hide *;
      NewOffsetIs(strDoc, aPos, par, rel, bInsert);
      if rel != 0 {
        nStartL := if bInsert then aPos[rel].startL else aPos[rel].endR + 1;
      } else if aPos[par].IsEmptyElement() {
        nStartL := aPos[par].startR;
      } else {
        nStartL := if bInsert then aPos[par].startR + 1 else aPos[par].endL;
      }
      if !aPos[par].IsEmptyElement() {
        SkipIs(strDoc, nStartL);
        var token := FindToken(strDoc, nStartL);
        if !token.found || (token.l < |strDoc| && strDoc[token.l] == '<') {
          nStartL := token.l;
        }
      }
    }

    /** `x_LocateNew`, while no other node than an element is current.  For a place under
        an element `s` is that place in the tree. */
    method LocateNew(par: nat, rel: nat, bInsert: bool) returns (iPosBefore: nat, nOffset: int, ghost s: Site)
      requires Valid() && par < |aPos| && rel < |aPos|
      requires if par == 0 then rel == 0 && tree.Nil? && aPos[0].endL == |strDoc| && (bInsert ==> strDoc != "")
          else par in Ids(tree)
      requires rel == 0 || (rel in Ids(tree) && aPos[rel].parent == par)
      ensures nOffset == NewOffset(strDoc, aPos, par, rel, bInsert) && Beside(aPos, par, rel, bInsert, iPosBefore)
      ensures par != 0 ==>
        SiteOK(s, tree) && Under(s) == par && iPosBefore == (if s.Behind? then s.c.id else 0) && 0 < s.c.id < |aPos|
      ensures par != 0 ==>
        && nOffset == SiteAt(s, |prolog|) + Drop(s) <= |strDoc| && (s.Opened? <==> aPos[par].IsEmptyElement())
        && (s.Opened? ==> rel == 0)
      ensures par == 0 ==> iPosBefore == 0 && nOffset == Skip(strDoc, if bInsert then 1 else |strDoc|)
    {
      hide *;
      ValidIs();
      s := Opened(Top, tree);
      if par != 0 {
        ghost var x, c := PlaceBounds(strDoc, aPos, iPosFree, prolog, tree, par, rel, bInsert);
      } else {
        DocBounds(strDoc, aPos, iPosFree, prolog, tree, bInsert);
      }
      NewOffsetIs(strDoc, aPos, par, rel, bInsert);
      nOffset := NewStart(par, rel, bInsert);
      iPosBefore := 0;
      if par != 0 {
        iPosBefore, s := NewBefore(par, rel, bInsert);
      }
      BesideIs(aPos, par, rel, bInsert, iPosBefore);
    }

    /** The second half of `x_LocateNew`: the element to link behind. */
    method NewBefore(par: nat, rel: nat, bInsert: bool) returns (iPosBefore: nat, ghost s: Site)
      requires Valid() && par < |aPos| && rel < |aPos| && par in Ids(tree) && par != 0
      requires rel == 0 || (rel in Ids(tree) && aPos[rel].parent == par)
      ensures iPosBefore < |aPos|
      ensures if rel != 0 then
                if bInsert then (if iPosBefore != 0 then aPos[iPosBefore].next == rel else aPos[par].child == rel)
                    else iPosBefore == rel
              else if bInsert then iPosBefore == 0
              else if iPosBefore != 0 then aPos[iPosBefore].parent == par && aPos[iPosBefore].next == 0
                  else aPos[par].child == 0
      ensures SiteOK(s, tree) && Under(s) == par && iPosBefore == (if s.Behind? then s.c.id else 0)
          && 0 < s.c.id < |aPos|
      ensures s.Opened? <==> aPos[par].IsEmptyElement()
      ensures var n := FirstOffset(aPos, par, rel, bInsert);
        0 <= n <= |strDoc| && SiteAt(s, |prolog|) + Drop(s) == if s.Opened? then n else Skip(strDoc, n)
    {
      hide *;
      ValidIs();
      ghost var x, c := PlaceBounds(strDoc, aPos, iPosFree, prolog, tree, par, rel, bInsert);
      NewOffsetIs(strDoc, aPos, par, rel, bInsert);
      iPosBefore := 0;
      if rel != 0 {
        if bInsert {
          iPosBefore, s := FindPrev(par, rel);
        } else {
          iPosBefore := rel;
          s := AfterSite(rel);
        }
      } else if aPos[par].child != 0 && !bInsert {
        iPosBefore, s := FindLast(par);
      } else {
        s := PlaceWithin(strDoc, aPos, iPosFree, prolog, tree, x, c, bInsert);
      }
      SiteDrop(s);
    }

    lemma AfterSite(rel: nat) returns (s: Site)
      requires Valid() && rel in Ids(tree) && rel < |aPos| && aPos[rel].parent != 0
      ensures SiteOK(s, tree) && Under(s) == aPos[rel].parent && s.Behind? && s.c.id == rel != 0
      ensures 0 <= aPos[rel].endR + 1 <= |strDoc| && SiteAt(s, |prolog|) == Skip(strDoc, aPos[rel].endR + 1)
    {
      hide *;
      ValidIs();
      var y, d := Locate(tree, rel);
      ElemAt(strDoc, aPos, iPosFree, prolog, tree, y, d);
      s := BehindStart(strDoc, aPos, iPosFree, prolog, tree, y, d);
      SiteCut(s, tree);
    }

    // ---- adding an element ----

    /** `x_AddElem`: a free entry, its links and its offsets. */
    method EnterElem(par: nat, iPosBefore: nat, nOffset: int, nLenName: nat, nLenValue: nat) returns (i: nat)
      requires 2 <= |aPos| && iPosFree <= |aPos| && par < iPosFree && iPosBefore < iPosFree
      modifies `aPos, `iPosFree
      ensures i == old(iPosFree) && iPosFree == i + 1 <= |aPos| && old(|aPos|) <= |aPos|
      ensures var k := if iPosBefore != 0 then iPosBefore else par;
        Entered(old(aPos), aPos, i, k, if iPosBefore != 0 then old(aPos)[k].LinkNext(i) else old(aPos)[k].LinkChild(i),
                NewEntry(nOffset, nLenName, nLenValue, par, if iPosBefore != 0 then old(aPos)[k].next
                    else old(aPos)[k].child))
    {
      i := GetFreePos();
      aPos := aPos[i := aPos[i].(startL := nOffset, parent := par, child := 0, next := 0)];
      if iPosBefore != 0 {
        aPos := aPos[i := aPos[i].LinkNext(aPos[iPosBefore].next)];
        aPos := aPos[iPosBefore := aPos[iPosBefore].LinkNext(i)];
      } else {
        aPos := aPos[i := aPos[i].LinkNext(aPos[par].child)];
        aPos := aPos[par := aPos[par].LinkChild(i)];
      }
      if nLenValue == 0 {
        aPos := aPos[i := aPos[i].(startR := aPos[i].startL + nLenName + 2)];
        aPos := aPos[i := aPos[i].(endL := aPos[i].startR - 1)];
        aPos := aPos[i := aPos[i].(endR := aPos[i].endL + 1)];
      } else {
        aPos := aPos[i := aPos[i].(startR := aPos[i].startL + nLenName + 1)];
        aPos := aPos[i := aPos[i].(endL := aPos[i].startR + nLenValue + 1)];
        aPos := aPos[i := aPos[i].(endR := aPos[i].endL + nLenName + 2)];
      }
    }

    /** `x_DocChange`. */
    method DocChange(nLeft: nat, nReplace: nat, strInsert: string)
      requires nLeft + nReplace <= |strDoc|
      modifies `strDoc
      ensures strDoc == Splice(old(strDoc), nLeft, nLeft + nReplace, strInsert)
    {
      strDoc := strDoc[..nLeft] + strInsert + strDoc[nLeft + nReplace..];
    }

    /** `x_AddElem` under an element, once the place is known.  The text that goes in
        before and after the new element in an empty parent is pre-adjusted for. */
    method AddUnder(par: nat, iPosBefore: nat, nStart: int, szName: string, strValue: string, ghost szValue: string,
        ghost s: Site) returns (i: nat)
      requires Valid() && ValidName(szName) && strValue == Escape(szValue, false)
      requires SiteOK(s, tree) && Under(s) == par && iPosBefore == (if s.Behind? then s.c.id else 0)
          && 0 < s.c.id < iPosFree && par < iPosFree && par != 0
      requires nStart == SiteAt(s, |prolog|) + Drop(s) <= |strDoc| && (s.Opened? <==> aPos[par].IsEmptyElement())
      requires s.Opened? ==> CanSplit(s.c)
      modifies `strDoc, `aPos, `iPosFree, `tree
      ensures i == old(iPosFree) == iPosFree - 1
      ensures SiteOK(s, old(tree)) && (s.Behind? ==> s.k <= |s.c.gap|) && (s.Within? ==> s.k <= |s.c.head|)
      ensures var at := SiteAt(s, |prolog|);
        at + Drop(s) <= |old(strDoc)|
        && strDoc == Splice(old(strDoc), at, at + Drop(s), SiteText(s, ElemText(szName, strValue)))
      ensures tree == Planted(s, NewElem(i, szName, strValue), CRLF) && Ids(tree) == Ids(old(tree)) + {i}
      ensures State(strDoc, aPos, iPosFree, prolog, tree) && i < |aPos| && aPos[i].parent == par
      ensures SameParents(old(aPos), aPos, i)
      ensures Tidy(prolog, old(tree)) ==> Tidy(prolog, tree)
    {
      hide *;
      ValidIs();
      SiteCut(s, tree);
      SiteIs(s, tree);
      ElemAt(strDoc, aPos, iPosFree, prolog, tree, s.x, s.c);
      ghost var doc0, a0, free0 := strDoc, aPos, iPosFree;
      var bEmptyParent := aPos[par].IsEmptyElement();
      var nOffset := if bEmptyParent then nStart + 2 else nStart;
      StartIs(s, |prolog|, bEmptyParent, nStart, nOffset);
      i := EnterUnder(par, iPosBefore, nOffset, |szName|, |strValue|, s);
      var strInsert := ElemText(szName, strValue);
      ElemTextIs(i, szName, strValue);
      var nReplace, nLeft := 0, nOffset;
      if bEmptyParent {
        ghost var a1 := aPos;
        strInsert := OpenParent(par, TagName(s.c), strInsert);
        nLeft := nLeft - 3;
        nReplace := 1;
        OpenedEntry(a0, a1, i, s, NewEntry(nOffset, |szName|, |strValue|, par, OldNext(a0, s)));
      } else {
        SameEntry(s, a0[s.c.id], i);
      }
      SiteTextIs(s, ElemText(szName, strValue));
      DocChange(nLeft, nReplace, strInsert);
      i := AdjustNew(i, |strInsert| - nReplace, szName, strValue, szValue, s, doc0, a0, free0);
    }

    /** The new entry, linked to the cell of the place. */
    method EnterUnder(par: nat, iPosBefore: nat, nOffset: int, nLenName: nat, nLenValue: nat,
        ghost s: Site) returns (i: nat)
      requires 2 <= |aPos| && iPosFree <= |aPos| && par < iPosFree && CtxOK(s.x) && s.c.Cons? && 0 < s.c.id < iPosFree
      requires Under(s) == par && iPosBefore == (if s.Behind? then s.c.id else 0)
      modifies `aPos, `iPosFree
      ensures i == old(iPosFree) && iPosFree == i + 1 <= |aPos| && s.c.id < |aPos|
      ensures aPos[s.c.id].startL == old(aPos)[s.c.id].startL
      ensures Entered(old(aPos), aPos, i, s.c.id, LinkedTo(s, old(aPos)[s.c.id], i),
          NewEntry(nOffset, nLenName, nLenValue, par, OldNext(old(aPos), s)))
    {
      hide *;
      ghost var a0 := aPos;
      UnderIs(s);
      LinkedToIs(s, a0, iPosFree);
      i := EnterElem(par, iPosBefore, nOffset, nLenName, nLenValue);
      EnteredIs(a0, aPos, i, s.c.id, LinkedTo(s, a0[s.c.id], i),
          NewEntry(nOffset, nLenName, nLenValue, par, OldNext(a0, s)));
    }

    /** `x_AddElem` and `x_AddSubDoc` in an empty parent: the slash gives way to text with
        an end tag, and the parent's entry is pre-adjusted. */
    method OpenParent(par: nat, ghost name: string, strInsert: string) returns (strSplit: string)
      requires par < |aPos| && 0 <= aPos[par].startL < |strDoc|
      requires var t := FindToken(strDoc, aPos[par].startL + 1);
        t.found && t.l <= t.r + 1 <= |strDoc| && TokenText(strDoc, t) == name
      modifies `aPos
      ensures strSplit == ">" + (CRLF + (strInsert + ("</" + name)))
      ensures aPos == old(aPos)[par := old(aPos)[par].PreSplit(|name| + 1)]
    {
      hide *;
      var token := FindToken(strDoc, aPos[par].startL + 1);
      var strTagName := TokenText(strDoc, token);
      strSplit := ">" + (CRLF + (strInsert + ("</" + strTagName)));
      aPos := aPos[par := aPos[par].PreSplit(|strTagName| + 1)];
    }

    /** The walk that ends `x_AddElem`. */
    method AdjustNew(i: nat, nShift: int, ghost szName: string, ghost strValue: string, ghost szValue: string,
        ghost s: Site,
                     ghost doc0: string, ghost a0: seq<ElemPos>, ghost free0: nat) returns (r: nat)
      requires State(doc0, a0, free0, prolog, tree) && SiteOK(s, tree) && s.c.id < |a0| && i == free0
          && free0 + 1 == iPosFree <= |aPos|
      requires ValidName(szName) && strValue == Escape(szValue, false) && (s.Opened? ==> CanSplit(s.c))
          && Under(s) < free0
      requires CtxOK(s.x) && s.c.Cons?
      requires Entered(a0, aPos, i, s.c.id, Marked(s, a0[s.c.id], i),
          NewEntry(StartAt(s, |prolog|), |szName|, |strValue|, Under(s), OldNext(a0, s)))
      requires var at, ins := SiteAt(s, |prolog|), SiteText(s, ElemText(szName, strValue));
        at + Drop(s) <= |doc0| && strDoc == Splice(doc0, at, at + Drop(s), ins) && nShift == |ins| - Drop(s)
      modifies `aPos, `tree
      ensures r == i && SiteOK(s, old(tree)) && (s.Behind? ==> s.k <= |s.c.gap|) && (s.Within? ==> s.k <= |s.c.head|)
      ensures tree == Planted(s, NewElem(i, szName, strValue), CRLF) && Ids(tree) == Ids(old(tree)) + {i}
      ensures State(strDoc, aPos, iPosFree, prolog, tree) && i < |aPos| && aPos[i].parent == Under(s)
      ensures SameParents(a0, aPos, i)
      ensures Tidy(prolog, old(tree)) ==> Tidy(prolog, tree)
    {
      hide *;
      r := i;
      ghost var a1, t := aPos, NewElem(i, szName, strValue);
      StateIs(doc0, a0, free0, prolog, tree);
      LaidBounds(doc0, a0, free0, prolog, tree);
      SiteIs(s, tree);
      FillCons(s.x, s.c);
      ElemAt(doc0, a0, free0, prolog, tree, s.x, s.c);
      NewElemOK(i, szName, szValue);
      ElemTextIs(i, szName, strValue);
      CrlfGap();
      EnteredReady(doc0, a0, free0, prolog, tree, s, szName, strValue, a1);
      SiteStarts(doc0, a0, free0, prolog, s, t, false, a1, iPosFree);
      Adjust(i, nShift, false, Hole(s), t.(next := Older(s)));
      SiteState(doc0, a0, free0, prolog, tree, s, t, CRLF, false, a1, strDoc, iPosFree);
      EnteredParents(a0, a1, free0, s, StartAt(s, |prolog|), |szName|, |strValue|, OldNext(a0, s),
          BothLeft(Hole(s), t.(next := Older(s)), false), Ancestors(Hole(s)), nShift);
      NewIds(t);
      tree := Planted(s, t, CRLF);
    }

    /** `x_AddElem` in a document without elements. */
    method AddRoot(nOffset: nat, szName: string, strValue: string, ghost szValue: string) returns (i: nat)
      requires State(strDoc, aPos, iPosFree, prolog, tree) && tree.Nil? && ValidName(szName)
          && strValue == Escape(szValue, false) && nOffset <= |strDoc|
      modifies `strDoc, `aPos, `iPosFree, `tree, `prolog
      ensures i == old(iPosFree) == iPosFree - 1 && prolog == old(strDoc)[..nOffset]
      ensures strDoc == Splice(old(strDoc), nOffset, nOffset, ElemText(szName, strValue))
      ensures tree == NewRoot(i, szName, strValue, old(strDoc)[nOffset..])
      ensures State(strDoc, aPos, iPosFree, prolog, tree) && i < |aPos| && aPos[i].parent == 0 && i in Ids(tree)
      ensures Tidy(old(prolog), Nil) && GapOK(prolog, 0) ==> Tidy(prolog, tree)
    {
      hide *;
      StateIs(strDoc, aPos, iPosFree, prolog, tree);
      LaidBounds(strDoc, aPos, iPosFree, prolog, tree);
      ghost var doc0, a0, free0 := strDoc, aPos, iPosFree;
      i := EnterElem(0, 0, nOffset, |szName|, |strValue|);
      EnteredIs(a0, aPos, i, 0, a0[0].LinkChild(i), NewEntry(nOffset, |szName|, |strValue|, 0, a0[0].child));
      NewElemOK(i, szName, szValue);
      ElemTextIs(i, szName, strValue);
      CrlfGap();
      var strInsert := ElemText(szName, strValue);
      DocChange(nOffset, 0, strInsert);
      ghost var a1, t := aPos, NewElem(i, szName, strValue);
      RootEntered(doc0, a0, free0, prolog, a1, nOffset, szName, strValue);
      NewRootState(doc0, a0, free0, prolog, nOffset, t, CRLF, a1, strDoc, iPosFree);
      Adjust(i, |strInsert|, false, Top, t);
      TopOK();
      RootParent(a1, i, BothLeft(Top, t, false), Ancestors(Top), |strInsert|);
      prolog, tree := doc0[..nOffset], t.(gap := CRLF + doc0[nOffset..]);
      NewRootIs(i, szName, strValue, doc0[nOffset..]);
      PlainCell(t);
      CellOwnId(tree);
    }

    /** `x_AddElem` from the search for the place to the walk. */
    method PutElem(par: nat, rel: nat, szName: string, szValue: string, bInsert: bool) returns (i: nat, ghost s: Site)
      requires Valid() && ValidName(szName) && par < |aPos| && rel < |aPos|
      requires if par == 0 then rel == 0 && tree.Nil? && aPos[0].endL == |strDoc| && (bInsert ==> strDoc != "")
          else par in Ids(tree)
      requires rel == 0 || (rel in Ids(tree) && aPos[rel].parent == par)
      requires var c := Find(tree, par); c.Cons? && c.empty ==> CanSplit(c)
      modifies `strDoc, `aPos, `iPosFree, `tree, `prolog
      ensures i == old(iPosFree) == iPosFree - 1 && i < |aPos| && aPos[i].parent == par && i in Ids(tree)
      ensures State(strDoc, aPos, iPosFree, prolog, tree) && PosOK(aPos, tree, iPosParent, iPos, iPosChild)
      ensures par != 0 ==>
        && SiteOK(s, old(tree)) && (s.Behind? ==> s.k <= |s.c.gap|) && (s.Within? ==> s.k <= |s.c.head|)
        && tree == Planted(s, NewElem(i, szName, Escape(szValue, false)), CRLF) && prolog == old(prolog)
        && Under(s) == par && Beside(old(aPos), par, rel, bInsert, if s.Behind? then s.c.id else 0)
        && TextAdded(old(strDoc), old(aPos), par, rel, bInsert, SiteAt(s, |prolog|),
             ElemText(szName, Escape(szValue, false)), TagName(s.c), strDoc)
      ensures par == 0 ==>
        var n := Skip(old(strDoc), if bInsert then 1 else |old(strDoc)|);
        && UpToTag(old(strDoc), if bInsert then 1 else |old(strDoc)|, n)
        && prolog == old(strDoc)[..n] && tree == NewRoot(i, szName, Escape(szValue, false), old(strDoc)[n..])
        && strDoc == old(strDoc)[..n] + ElemText(szName, Escape(szValue, false)) + old(strDoc)[n..]
      ensures Tidy(old(prolog), old(tree)) && (par == 0 && bInsert ==> GapOK(prolog, 0)) ==> Tidy(prolog, tree)
    {
      hide *;
      ValidIs();
      ghost var doc0, a0, free0, prolog0, tree0 := strDoc, aPos, iPosFree, prolog, tree;
      var iPosBefore, nOffset;
      iPosBefore, nOffset, s := LocateNew(par, rel, bInsert);
      var strValue := "";
      EscapeEmpty();
      if |szValue| > 0 {
        strValue := TextToDoc(szValue, false);
      }
      if par == 0 {
        SkipEnd(strDoc);
        AllProlog(strDoc, aPos, iPosFree, prolog);
        SkipUp(strDoc, if bInsert then 1 else |strDoc|);
        i := AddRoot(nOffset, szName, strValue, szValue);
        SpliceIs(doc0, nOffset, nOffset, ElemText(szName, strValue));
        NewPos(aPos, tree, 0, 0, 0);
      } else {
        LaidBounds(strDoc, aPos, iPosFree, prolog, tree);
        SiteSplits(s, tree, par);
        SiteIs(s, tree);
        ElemAt(strDoc, aPos, iPosFree, prolog, tree, s.x, s.c);
        i := AddUnder(par, iPosBefore, nOffset, szName, strValue, szValue, s);
        AddedText(doc0, a0, tree0, par, rel, bInsert, s, |prolog|, ElemText(szName, strValue), strDoc);
        KeptPos(doc0, a0, free0, prolog, tree0, aPos, tree, iPosParent, iPos, iPosChild);
      }
    }

    /** `x_AddElem`: a new element before or after the child position, or the main
        position, or as the root.  `s` is the place in the tree. */
    method AddElem(szName: string, szValue: string, bInsert: bool, bAddChild: bool) returns (ok: bool, ghost s: Site)
      requires Valid() && ValidName(szName)
      requires bInsert && !bAddChild && iPosParent == 0 && tree.Nil? ==> strDoc != ""
      requires var c := Find(tree, if bAddChild then iPos else iPosParent); c.Cons? && c.empty ==> CanSplit(c)
      modifies this
      ensures Valid()
      ensures ok == if bAddChild then old(iPos) != 0 else old(iPosParent) != 0 || old(tree).Nil?
      ensures !ok ==>
        && strDoc == old(strDoc) && aPos == old(aPos) && iPosFree == old(iPosFree)
        && prolog == old(prolog) && tree == old(tree)
      ensures !ok ==> iPosParent == old(iPosParent) && iPos == old(iPos) && iPosChild == old(iPosChild)
      ensures ok && old(tree).Cons? ==>
        && SiteOK(s, old(tree)) && (s.Behind? ==> s.k <= |s.c.gap|) && (s.Within? ==> s.k <= |s.c.head|)
        && tree == Planted(s, NewElem(old(iPosFree), szName, Escape(szValue, false)), CRLF) && prolog == old(prolog)
        && Under(s) == (if bAddChild then old(iPos) else old(iPosParent))
        && Beside(old(aPos), Under(s), if bAddChild then old(iPosChild)
            else old(iPos), bInsert, if s.Behind? then s.c.id else 0)
      ensures ok ==>
        var elem := if szValue == "" then "<" + szName + "/>\r\n"
          else "<" + szName + ">" + Escape(szValue, false) + "</" + szName + ">\r\n";
        if old(tree).Cons? then
          && CtxOK(s.x) && s.c.Cons?
          && TextAdded(old(strDoc), old(aPos), if bAddChild then old(iPos) else old(iPosParent), if bAddChild
               then old(iPosChild) else old(iPos), bInsert, SiteAt(s, |prolog|), elem, TagName(s.c), strDoc)
        else
          var n := Skip(old(strDoc), if bInsert then 1 else |old(strDoc)|);
          && UpToTag(old(strDoc), if bInsert then 1 else |old(strDoc)|, n)
          && prolog == old(strDoc)[..n] && strDoc == old(strDoc)[..n] + elem + old(strDoc)[n..]
          && tree == NewRoot(old(iPosFree), szName, Escape(szValue, false), old(strDoc)[n..])
      ensures ok ==> iPosFree == old(iPosFree) + 1
      ensures ok ==> if bAddChild then iPosParent == old(iPosParent) && iPos == old(iPos) && iPosChild == old(iPosFree)
                     else iPosParent == old(iPosParent) && iPos == old(iPosFree) && iPosChild == 0
      ensures old(Tidied()) && (ok && bInsert && old(tree).Nil? ==> GapOK(prolog, 0)) ==> Tidied()
    {
      hide *;
      ValidIs();
      TidiedIs();
      s := Opened(Top, tree);
      if bAddChild {
        if iPos == 0 {
          return false, s;
        }
      } else if iPosParent == 0 {
        var well := IsWellFormed();
        if well {
          return false, s;
        }
        DocEnd(strDoc, aPos, iPosFree, prolog, tree, |strDoc|);
        aPos := aPos[0 := aPos[0].(endL := |strDoc|)];
        NewPos(aPos, tree, 0, 0, 0);
        ValidBack();
      }
      var par, rel := if bAddChild then iPos else iPosParent, if bAddChild then iPosChild else iPos;
      PosIn(aPos, tree, iPosParent, iPos, iPosChild);
      ValidIs();
      ghost var tree0 := tree;
      var i;
      i, s := PutElem(par, rel, szName, szValue, bInsert);
      if tree0.Cons? { SiteCut(s, tree0); }
      ElemTextOf(szName, szValue);
      PosIn(aPos, tree, iPosParent, iPos, iPosChild);
      if bAddChild {
        SetPos(iPosParent, par, i);
        NewPos(aPos, tree, iPosParent, par, i);
      } else {
        SetPos(par, i, 0);
        NewPos(aPos, tree, par, i, 0);
      }
      ValidBack();
      TidiedIs();
      ok := true;
    }

    // ---- removing an element ----

    /** The loop of `x_RemoveElem` that finds the previous sibling, or 0; `c` is its cell,
        or the parent's. */
    method FindBefore(par: nat, pos: nat) returns (iPosPrev: nat, ghost y: Ctx, ghost c: Forest)
      requires Valid() && pos in Ids(tree) && pos < |aPos| && aPos[pos].parent == par && par < |aPos|
      ensures iPosPrev < |aPos| && (par == 0 ==> iPosPrev == 0)
      ensures par != 0 ==>
        && CtxOK(y) && c.Cons? && Fill(y, c) == tree && c.id < |aPos|
        && if iPosPrev != 0 then c.id == iPosPrev && c.next.Cons? && c.next.id == pos && Par(y) == par
           else c.id == par && c.kids.Cons? && c.kids.id == pos
    {
      hide *;
      ValidIs();
      y, c := Top, tree;
      ghost var z, f := Top, tree;
      if par == 0 {
        RootIs(strDoc, aPos, iPosFree, prolog, tree, pos);
      } else {
        z, f := FamilyOf(strDoc, aPos, iPosFree, prolog, tree, pos);
        ParentCell(z, f, |prolog|);
        y, c := z.up, z.cell.(kids := f);
        ElemAt(strDoc, aPos, iPosFree, prolog, tree, z, f);
      }
      var iPosLook := aPos[par].child;
      iPosPrev := 0;
      while iPosLook != pos
        invariant iPosPrev < |aPos| && (par == 0 ==> iPosLook == pos && iPosPrev == 0)
        invariant par != 0 ==>
            CtxOK(z) && f.Cons? && Fill(z, f) == tree && iPosLook == f.id < |aPos| && Par(z) == par && pos in SibIds(f)
        invariant par != 0 ==> CtxOK(y) && c.Cons? && Fill(y, c) == tree
        invariant par != 0 ==>
            if iPosPrev != 0 then c.id == iPosPrev && c.next == f && Par(y) == par else c.id == par && c.kids == f
        decreases f
      {
        SibNext(z, f, pos);
        ElemAt(strDoc, aPos, iPosFree, prolog, tree, z, f);
        IdIs(f.next);
        iPosPrev := iPosLook;
        iPosLook := aPos[iPosLook].next;
        y, c := z, f;
        z, f := Sib(f, z), f.next;
        ElemAt(strDoc, aPos, iPosFree, prolog, tree, z, f);
      }
      if par != 0 {
        ElemAt(strDoc, aPos, iPosFree, prolog, tree, y, c);
      }
    }

    /** The text of an element taken out, with the whitespace after it. */
    method CutText(pos: nat) returns (nLen: int)
      requires pos < |aPos| && 0 <= aPos[pos].startL <= aPos[pos].endR + 1 <= |strDoc|
      modifies `strDoc
      ensures var e := Skip(old(strDoc), aPos[pos].endR + 1);
        nLen == e - aPos[pos].startL && strDoc == Splice(old(strDoc), aPos[pos].startL, e, "")
    {
      hide *;
      var nAfterEnd := aPos[pos].endR + 1;
      SkipIs(strDoc, nAfterEnd);
      var token := FindToken(strDoc, nAfterEnd);
      if !token.found || (token.l < |strDoc| && strDoc[token.l] == '<') {
        nAfterEnd := token.l;
      }
      nLen := nAfterEnd - aPos[pos].startL;
      DocChange(aPos[pos].startL, nLen, "");
    }

    /** `x_RemoveElem` behind a sibling. */
    method RemoveBehind(pos: nat, iPosPrev: nat, ghost y: Ctx, ghost c: Forest) returns (ghost k: nat)
      requires Valid() && CtxOK(y) && c.Cons? && Fill(y, c) == tree && c.id == iPosPrev < |aPos| && c.next.Cons?
          && c.next.id == pos < |aPos| && Par(y) != 0
      modifies `strDoc, `aPos, `tree
      ensures State(strDoc, aPos, iPosFree, prolog, tree) && SameParents(old(aPos), aPos, iPosFree)
      ensures Removed(old(tree), prolog, tree, prolog, Par(y), pos, iPosPrev, y, c, k)
      ensures TextRemoved(old(strDoc), old(aPos[pos]), k, strDoc)
      ensures iPosPrev in Ids(tree) && Par(y) in Ids(tree) && (Tidy(prolog, old(tree)) ==> Tidy(prolog, tree))
    {
      hide *;
      ValidIs();
      ghost var doc0, a0 := strDoc, aPos;
      ElemAt(strDoc, aPos, iPosFree, prolog, tree, y, c);
      PartsDistinct(y, c);
      SiblingApart(c);
      k := NextAt(strDoc, aPos, iPosFree, prolog, tree, y, c);
      aPos := aPos[iPosPrev := aPos[iPosPrev].LinkNext(aPos[pos].next)];
      ghost var a1 := aPos;
      var nLen := CutText(pos);
      RemovedText(doc0, a0[pos], k, strDoc);
      RemoveNextState(doc0, a0, iPosFree, prolog, tree, y, c, k, a1, strDoc);
      Adjust(pos, 0 - nLen, true, Sib(c, y), c.next);
      RemovedNext(tree, prolog, Fill(y, RemoveNext(c, k)), Par(y), pos, iPosPrev, y, c, k);
      tree := Fill(y, RemoveNext(c, k));
    }

    /** `x_RemoveElem` of a first child. */
    method RemoveFirstChild(par: nat, pos: nat, ghost y: Ctx, ghost c: Forest) returns (ghost k: nat)
      requires Valid() && CtxOK(y) && c.Cons? && Fill(y, c) == tree && c.id == par < |aPos| && c.kids.Cons?
          && c.kids.id == pos < |aPos|
      modifies `strDoc, `aPos, `tree
      ensures State(strDoc, aPos, iPosFree, prolog, tree) && SameParents(old(aPos), aPos, iPosFree)
      ensures Removed(old(tree), prolog, tree, prolog, par, pos, 0, y, c, k)
      ensures TextRemoved(old(strDoc), old(aPos[pos]), k, strDoc)
      ensures par in Ids(tree) && (Tidy(prolog, old(tree)) ==> Tidy(prolog, tree))
    {
      hide *;
      ValidIs();
      ghost var doc0, a0 := strDoc, aPos;
      ElemAt(strDoc, aPos, iPosFree, prolog, tree, y, c);
      PartsDistinct(y, c);
      ChildApart(c);
      k := FirstAt(strDoc, aPos, iPosFree, prolog, tree, y, c);
      aPos := aPos[par := aPos[par].LinkChild(aPos[pos].next)];
      ghost var a1 := aPos;
      var nLen := CutText(pos);
      RemovedText(doc0, a0[pos], k, strDoc);
      RemoveFirstState(doc0, a0, iPosFree, prolog, tree, y, c, k, a1, strDoc);
      Adjust(pos, 0 - nLen, true, Child(c, y), c.kids);
      RemovedFirst(tree, prolog, Fill(y, RemoveFirst(c, k)), par, pos, y, c, k);
      tree := Fill(y, RemoveFirst(c, k));
    }

    /** `x_RemoveElem` of the root. */
    method RemoveRoot(pos: nat) returns (ghost k: nat)
      requires Valid() && pos in Ids(tree) && pos < |aPos| && aPos[pos].parent == 0
      modifies `strDoc, `aPos, `tree, `prolog
      ensures State(strDoc, aPos, iPosFree, prolog, tree) && SameParents(old(aPos), aPos, iPosFree)
      ensures Removed(old(tree), old(prolog), tree, prolog, 0, pos, 0, Top, old(tree), k)
      ensures TextRemoved(old(strDoc), old(aPos[pos]), k, strDoc)
      ensures Tidy(old(prolog), old(tree)) ==> Tidy(prolog, tree)
    {
      hide *;
      ValidIs();
      ghost var doc0, a0 := strDoc, aPos;
      RootIs(strDoc, aPos, iPosFree, prolog, tree, pos);
      ParentOf(strDoc, aPos, iPosFree, prolog, tree, pos);
      aPos := aPos[0 := aPos[0].LinkChild(aPos[pos].next)];
      ghost var a1 := aPos;
      var nLen := CutText(pos);
      k := Skip(doc0, a0[pos].endR + 1) - (a0[pos].endR + 1);
      Growth.CutLen(tree.gap, k);
      RemovedText(doc0, a0[pos], k, strDoc);
      RemoveRootState(doc0, a0, iPosFree, prolog, tree, k, a1, strDoc);
      Adjust(pos, 0 - nLen, true, Top, tree);
      TopOK();
      LinkParent(a0, 0, iPosFree, 0);
      ShiftedParents(a0, a1, iPosFree, BothLeft(Top, tree, true), Ancestors(Top), 0 - |Body(tree)| - k);
      RemovedRoot(tree, prolog, pos, k);
      prolog, tree := prolog + tree.gap[k..], Nil;
    }

    /** `x_RemoveElem`: the previous sibling, or 0, is the new position. */
    method RemoveAt(pos: nat) returns (iPosPrev: nat, ghost y: Ctx, ghost c: Forest, ghost k: nat)
      requires Valid() && pos in Ids(tree) && pos < |aPos|
      modifies `strDoc, `aPos, `tree, `prolog
      ensures State(strDoc, aPos, iPosFree, prolog, tree) && SameParents(old(aPos), aPos, iPosFree)
      ensures Removed(old(tree), old(prolog), tree, prolog, old(aPos[pos].parent), pos, iPosPrev, y, c, k)
      ensures TextRemoved(old(strDoc), old(aPos[pos]), k, strDoc)
      ensures iPosPrev != 0 ==>
          iPosPrev in Ids(tree) && iPosPrev < |aPos| && aPos[iPosPrev].parent == old(aPos[pos].parent)
      ensures old(aPos[pos].parent) != 0 ==> old(aPos[pos].parent) in Ids(tree)
      ensures Tidy(old(prolog), old(tree)) ==> Tidy(prolog, tree)
    {
      hide *;
      ValidIs();
      ParentOf(strDoc, aPos, iPosFree, prolog, tree, pos);
      var par := aPos[pos].parent;
      iPosPrev, y, c := FindBefore(par, pos);
      ghost var a0 := aPos;
      if iPosPrev != 0 {
        ElemAt(strDoc, aPos, iPosFree, prolog, tree, y, c);
        k := RemoveBehind(pos, iPosPrev, y, c);
        ParentsSame(a0, aPos, iPosFree, iPosPrev);
      } else if par != 0 {
        k := RemoveFirstChild(par, pos, y, c);
      } else {
        y, c := Top, tree;
        k := RemoveRoot(pos);
      }
    }

    /** `RemoveElem`. */
    method RemoveElem() returns (ok: bool, ghost y: Ctx, ghost c: Forest, ghost k: nat)
      requires Valid()
      modifies this
      ensures Valid() && ok == (old(iPos) != 0)
      ensures iPosFree == old(iPosFree)
      ensures !ok ==> strDoc == old(strDoc) && aPos == old(aPos) && prolog == old(prolog) && tree == old(tree)
      ensures !ok ==> iPosParent == old(iPosParent) && iPos == old(iPos) && iPosChild == old(iPosChild)
      ensures ok ==> Removed(old(tree), old(prolog), tree, prolog, old(iPosParent), old(iPos), iPos, y, c, k)
      ensures ok ==> old(iPos) < |old(aPos)| && TextRemoved(old(strDoc), old(aPos)[old(iPos)], k, strDoc)
      ensures ok && old(iPosParent) == 0 && GapOK(old(prolog), 0) ==>
        (Agrees(strDoc, prolog, tree) <==> !Parser.ParseElem(old(tree).gap[k..], 0, 1).Elem?)
      ensures ok ==> iPosParent == old(iPosParent) && iPosChild == 0
      ensures old(Tidied()) ==> Tidied()
    {
      hide *;
      ValidIs();
      TidiedIs();
      y, c, k := Top, tree, 0;
      if iPos != 0 && nNodeType == 1 {
        PosIn(aPos, tree, iPosParent, iPos, iPosChild);
        var iPosNew;
        ghost var prolog0, tree0 := prolog, tree;
        iPosNew, y, c, k := RemoveAt(iPos);
        if iPosParent == 0 && GapOK(prolog0, 0) {
          RootGoneState(tree0, prolog0, tree, prolog, iPos, iPosNew, y, c, k, strDoc, aPos, iPosFree);
        }
        SetPos(iPosParent, iPosNew, 0);
        NewPos(aPos, tree, iPosParent, iPosNew, 0);
        ValidBack();
        TidiedIs();
        return true, y, c, k;
      }
      return false, y, c, k;
    }

    /** `RemoveChildElem`. */
    method RemoveChildElem() returns (ok: bool, ghost y: Ctx, ghost c: Forest, ghost k: nat)
      requires Valid()
      modifies this
      ensures Valid() && ok == (old(iPosChild) != 0)
      ensures iPosFree == old(iPosFree)
      ensures !ok ==> strDoc == old(strDoc) && aPos == old(aPos) && prolog == old(prolog) && tree == old(tree)
      ensures !ok ==> iPosParent == old(iPosParent) && iPos == old(iPos) && iPosChild == 0
      ensures ok ==> Removed(old(tree), old(prolog), tree, prolog, old(iPos), old(iPosChild), iPosChild, y, c, k)
      ensures ok ==> old(iPosChild) < |old(aPos)| && TextRemoved(old(strDoc), old(aPos)[old(iPosChild)], k, strDoc)
      ensures ok && old(iPos) == 0 && GapOK(old(prolog), 0) ==>
        (Agrees(strDoc, prolog, tree) <==> !Parser.ParseElem(old(tree).gap[k..], 0, 1).Elem?)
      ensures ok ==> iPosParent == old(iPosParent) && iPos == old(iPos)
      ensures old(Tidied()) ==> Tidied()
    {
      hide *;
      ValidIs();
      TidiedIs();
      y, c, k := Top, tree, 0;
      if iPosChild != 0 {
        PosIn(aPos, tree, iPosParent, iPos, iPosChild);
        ghost var a0 := aPos;
        var iPosNew;
        ghost var prolog0, tree0 := prolog, tree;
        iPosNew, y, c, k := RemoveAt(iPosChild);
        if iPos == 0 && GapOK(prolog0, 0) {
          RootGoneState(tree0, prolog0, tree, prolog, iPosChild, iPosNew, y, c, k, strDoc, aPos, iPosFree);
        }
        if iPos != 0 {
          ParentsSame(a0, aPos, iPosFree, iPos);
          ParentOf(strDoc, aPos, iPosFree, prolog, tree, iPos);
        }
        SetPos(iPosParent, iPos, iPosNew);
        NewPos(aPos, tree, iPosParent, iPos, iPosNew);
        ValidBack();
        TidiedIs();
        return true, y, c, k;
      }
      return false, y, c, k;
    }

    // ---- data ----

    /** `x_SetData` of an element: its content becomes `szData`, as text or as a CDATA section. */
    method SetDataAt(pos: nat, szData: string, nCDATA: bool) returns (ok: bool, ghost x: Ctx)
      requires Valid() && (pos == 0 || pos in Ids(tree))
      requires var c := Find(tree, pos); c.Cons? && c.kids.Nil? && c.empty ==> CanSplit(c)
      modifies `strDoc, `aPos, `tree
      ensures Valid() && ok == (Find(old(tree), pos).Cons? && Find(old(tree), pos).kids.Nil?)
      ensures !ok ==> strDoc == old(strDoc) && aPos == old(aPos) && tree == old(tree)
      ensures ok ==>
        var c := Find(old(tree), pos);
        && CtxOK(x) && old(tree) == Fill(x, c) && tree == Fill(x, WithData(c, Data(szData, nCDATA)))
        && Find(tree, pos) == WithData(c, Data(szData, nCDATA))
      ensures old(Tidied()) ==> Tidied()
    {
      hide *;
      ValidIs();
      TidiedIs();
      x := Top;
      if pos == 0 {
        NotFound(tree);
        return false, x;
      }
      ghost var c;
      x, c := Locate(tree, pos);
      FindFill(x, c);
      ElemAt(strDoc, aPos, iPosFree, prolog, tree, x, c);
      if aPos[pos].child != 0 {
        return false, x;
      }
      var strInsert := "";
      var bCDATA := nCDATA;
      DataIs(szData, nCDATA);
      if bCDATA {
        bCDATA, strInsert := CreateCData(szData);
      }
      if !bCDATA {
        strInsert := TextToDoc(szData, false);
      }
      DataGap(szData, nCDATA);
      PutData(pos, strInsert, x, c);
      TidiedIs();
      ok := true;
    }

    /** `x_CreateNode` for a CDATA section. */
    method CreateCData(szText: string) returns (ok: bool, strNode: string)
      ensures ok == FindStr(szText, 0, CDATA_END).None? && (ok ==> strNode == CDataText(szText))
    {
      hide FindStr;
      strNode := "";
      ok := FindStr(szText, 0, CDATA_END).None?;
      if ok {
        strNode := CDATA_OPEN + (szText + CDATA_END);
      }
    }

    /** `x_SetData` from the place of the content on. */
    method PutData(pos: nat, data: string, ghost x: Ctx, ghost c: Forest)
      requires Valid() && CtxOK(x) && c.Cons? && c.id == pos < |aPos| && c.kids.Nil? && Fill(x, c) == tree
          && GapOK(data, 0) && (c.empty ==> CanSplit(c))
      modifies `strDoc, `aPos, `tree
      ensures Valid() && tree == Fill(x, WithData(c, data)) && Find(tree, pos) == WithData(c, data)
      ensures Tidy(prolog, old(tree)) ==> Tidy(prolog, tree)
    {
      hide *;
      ValidIs();
      ghost var doc0, a0, tree0 := strDoc, aPos, tree;
      var nInsertAt, nReplace, strInsert := PlaceData(pos, data, x, c);
      ghost var a1 := aPos;
      DocChange(nInsertAt, nReplace, strInsert);
      SpliceLen(doc0, nInsertAt, nInsertAt + nReplace, strInsert);
      var nAdjust := |strInsert| - nReplace;
      DataState(doc0, a0, iPosFree, prolog, tree0, x, c, data, a1, strDoc);
      Adjust(pos, nAdjust, false, x, c);
      aPos := aPos[pos := aPos[pos].AdjustEnd(nAdjust)];
      tree := Fill(x, WithData(c, data));
      KeptPos(doc0, a0, iPosFree, prolog, tree0, aPos, tree, iPosParent, iPos, iPosChild);
      ValidBack();
    }

    /** `x_SetData`: what to put where, with the pre-adjustment of an empty element. */
    method PlaceData(pos: nat, data: string, ghost x: Ctx, ghost c: Forest) returns (nInsertAt: nat, nReplace: nat,
        strInsert: string)
      requires Valid() && CtxOK(x) && c.Cons? && c.id == pos < |aPos| && c.kids.Nil? && Fill(x, c) == tree
      modifies `aPos
      ensures nInsertAt + nReplace <= |strDoc| && strInsert == DataText(c, data)
      ensures nInsertAt == (if c.empty then old(aPos)[pos].endL else old(aPos)[pos].startR + 1)
      ensures nInsertAt + nReplace == if c.empty then nInsertAt + 1 else old(aPos)[pos].endL
      ensures aPos == old(aPos)[pos := DataEntry(old(aPos)[pos], c)]
    {
      hide *;
      ValidIs();
      ContentFacts(strDoc, aPos, iPosFree, prolog, tree, x, c);
      DataEntryIs(aPos[pos], c, 0);
      DataTextIs(c, data);
      strInsert := data;
      if aPos[pos].IsEmptyElement() {
        nInsertAt := aPos[pos].endL;
        nReplace := 1;
        var token := FindToken(strDoc, aPos[pos].startL + 1);
        var strTagName := TokenText(strDoc, token);
        aPos := aPos[pos := aPos[pos].PreSplit(1 + |strTagName|)];
        strInsert := ">" + (strInsert + ("</" + strTagName));
      } else {
        nInsertAt := aPos[pos].startR + 1;
        nReplace := aPos[pos].endL - aPos[pos].startR - 1;
      }
    }

    /** `x_GetData` of an element: what was set is read back. */
    method GetDataAt(pos: nat) returns (r: string)
      requires Valid() && (pos == 0 || pos in Ids(tree)) && (pos == 0 ==> tree.Cons?)
      ensures var c := Find(tree, pos);
        c.Nil? || c.kids.Cons? || c.empty ==> r == ""
      ensures var c := Find(tree, pos);
        c.Cons? && c.kids.Nil? && !c.empty ==>
          && pos < |aPos| && 0 <= aPos[pos].startR + 1 <= aPos[pos].endL <= |strDoc|
          && r == DataAt(strDoc, aPos[pos].startR + 1, aPos[pos].endL)
          && (forall d, b :: c.head == Data(d, b) ==> r == d)
    {
      hide *;
      ValidIs();
      if pos == 0 {
        NotFound(tree);
        IdOf(tree);
      } else {
        ghost var x, c := Locate(tree, pos);
        FindFill(x, c);
        ElemAt(strDoc, aPos, iPosFree, prolog, tree, x, c);
        InText(strDoc, aPos, iPosFree, prolog, tree, x, c);
        forall d, b | c.kids.Nil? && !c.empty && c.head == Data(d, b)
          ensures 0 <= aPos[pos].startR + 1 <= aPos[pos].endL <= |strDoc|
              && DataAt(strDoc, aPos[pos].startR + 1, aPos[pos].endL) == d
        {
          ReadBack(strDoc, aPos, iPosFree, prolog, tree, x, c, d, b);
        }
      }
      if aPos[pos].child == 0 && !aPos[pos].IsEmptyElement() {
        r := GetContent(strDoc, aPos[pos].startR + 1, aPos[pos].endL);
        return;
      }
      r := "";
    }

    // ---- attributes ----

    /** `x_GetAttrib`. */
    method GetAttribAt(pos: nat, szAttrib: string) returns (r: string)
      requires Valid() && (pos == 0 || pos in Ids(tree)) && ValidName(szAttrib)
          && (pos != 0 ==> PlainTag(Find(tree, pos).tag))
      ensures r == if pos == 0 || iPos == 0 then ""
                   else match AttrOf(Find(tree, pos).tag, szAttrib) case None => "" case Some(w) => Unescape(w)
    {
      hide *;
      ValidIs();
      if pos == 0 || nNodeType != 1 {
        return "";
      }
      ghost var x, c := Locate(tree, pos);
      FindFill(x, c);
      ElemAt(strDoc, aPos, iPosFree, prolog, tree, x, c);
      Values.TagAt(strDoc, aPos, iPosFree, prolog, tree, x, c);
      AttrHere(strDoc, HolePos(x, |prolog|), c.tag, szAttrib);
      var token := ScanAttrib(strDoc, aPos[pos].startL + 1, szAttrib);
      if token.Some? {
        r := TextFromDoc(strDoc, token.value.l, token.value.r);
        return;
      }
      return "";
    }

    /** `x_SetAttrib`: the attribute has the value, every other attribute is as before. */
    method SetAttribAt(pos: nat, szAttrib: string, szValue: string) returns (ok: bool, ghost x: Ctx)
      requires Valid() && (pos == 0 || pos in Ids(tree)) && ValidName(szAttrib)
          && (pos != 0 ==> PlainTag(Find(tree, pos).tag))
      modifies `strDoc, `aPos, `tree
      ensures Valid() && ok == (pos != 0 && iPos != 0)
      ensures !ok ==> strDoc == old(strDoc) && aPos == old(aPos) && tree == old(tree)
      ensures ok ==>
        var c := Find(old(tree), pos);
        && CtxOK(x) && c.Cons? && old(tree) == Fill(x, c) && tree == Fill(x,
            c.(tag := SetTag(c.tag, szAttrib, Escape(szValue, true))))
        && Find(tree, pos) == c.(tag := SetTag(c.tag, szAttrib, Escape(szValue, true)))
      ensures ok ==> forall other :: ValidName(other) ==>
        AttrOf(Find(tree, pos).tag, other) == if other == szAttrib then Some(Escape(szValue, true))
            else AttrOf(Find(old(tree), pos).tag, other)
      ensures ok ==> PlainTag(Find(tree, pos).tag)
      ensures old(Tidied()) ==> Tidied()
    {
      hide *;
      ValidIs();
      TidiedIs();
      x := Top;
      if pos == 0 || nNodeType != 1 {
        return false, x;
      }
      ghost var c;
      x, c := Locate(tree, pos);
      FindFill(x, c);
      ElemAt(strDoc, aPos, iPosFree, prolog, tree, x, c);
      EscapeHarmless(szValue, true);
      SetTagOK(c.tag, szAttrib, Escape(szValue, true));
      var nInsertAt, nReplace, strInsert := PlaceAttrib(pos, szAttrib, szValue, x, c);
      ChangeTag(pos, nInsertAt, nReplace, strInsert, x, c);
      TidiedIs();
      ok := true;
    }

    /** `x_SetAttrib`: what to put where in the start tag. */
    method PlaceAttrib(pos: nat, szAttrib: string, szValue: string, ghost x: Ctx,
        ghost c: Forest) returns (nInsertAt: nat, nReplace: nat, strInsert: string)
      requires Valid() && CtxOK(x) && c.Cons? && c.id == pos < |aPos| && Fill(x, c) == tree && ValidName(szAttrib)
          && PlainTag(c.tag)
      ensures var p := HolePos(x, |prolog|);
        && p <= nInsertAt && nInsertAt + nReplace <= p + |c.tag| <= |strDoc|
        && SetTag(c.tag, szAttrib, Escape(szValue, true)) == Splice(c.tag, nInsertAt - p, nInsertAt + nReplace - p,
            strInsert)
    {
      hide *;
      ValidIs();
      ElemAt(strDoc, aPos, iPosFree, prolog, tree, x, c);
      Values.TagAt(strDoc, aPos, iPosFree, prolog, tree, x, c);
      SetTagAt(strDoc, HolePos(x, |prolog|), c.tag, szAttrib, Escape(szValue, true));
      OpenTextLen(c);
      var token := ScanAttrib(strDoc, aPos[pos].startL + 1, szAttrib);
      strInsert := TextToDoc(szValue, true);
      if token.Some? {
        nInsertAt, nReplace := token.value.l, token.value.r - token.value.l + 1;
      } else {
        strInsert := " " + (szAttrib + ("=\"" + (strInsert + "\"")));
        NewAttrIs(szAttrib, Escape(szValue, true));
        nInsertAt, nReplace := aPos[pos].startR - (if aPos[pos].IsEmptyElement() then 1 else 0), 0;
      }
    }

    /** The end of `x_SetAttrib` and of `x_RemoveAttrib`: the text, the entry, the walk. */
    method ChangeTag(pos: nat, nInsertAt: nat, nReplace: nat, strInsert: string, ghost x: Ctx, ghost c: Forest)
      requires Valid() && CtxOK(x) && c.Cons? && c.id == pos < |aPos| && Fill(x, c) == tree
      requires var p := HolePos(x, |prolog|); p <= nInsertAt && nInsertAt + nReplace <= p + |c.tag| <= |strDoc|
      requires var p := HolePos(x, |prolog|);
        var d := c.(tag := Splice(c.tag, nInsertAt - p, nInsertAt + nReplace - p, strInsert));
        TagOK(d) && TagName(d) == TagName(c) && PlainTag(d.tag)
      modifies `strDoc, `aPos, `tree
      ensures Valid() && (Tidy(prolog, old(tree)) ==> Tidy(prolog, tree))
      ensures var p := HolePos(x, |prolog|);
        var d := c.(tag := Splice(c.tag, nInsertAt - p, nInsertAt + nReplace - p, strInsert));
        tree == Fill(x, d) && Find(tree, pos) == d
    {
      hide *;
      ValidIs();
      ghost var doc0, a0, tree0, p := strDoc, aPos, tree, HolePos(x, |prolog|);
      DocChange(nInsertAt, nReplace, strInsert);
      var nAdjust := |strInsert| - nReplace;
      aPos := aPos[pos := aPos[pos].(startR := aPos[pos].startR + nAdjust)];
      aPos := aPos[pos := aPos[pos].AdjustEnd(nAdjust)];
      ghost var a1 := aPos;
      assert a1 == a0[pos := a0[pos].(startR := a0[pos].startR + nAdjust).AdjustEnd(nAdjust)];
      TagState(doc0, a0, iPosFree, prolog, tree0, x, c, nInsertAt - p, nInsertAt + nReplace - p, strInsert, a1, strDoc);
      Adjust(pos, nAdjust, false, x, c);
      tree := Fill(x, c.(tag := Splice(c.tag, nInsertAt - p, nInsertAt + nReplace - p, strInsert)));
      KeptPos(doc0, a0, iPosFree, prolog, tree0, aPos, tree, iPosParent, iPos, iPosChild);
      ValidBack();
    }

    /** `x_RemoveAttrib`: the attribute is absent, every other attribute is as before. */
    method RemoveAttribAt(pos: nat, szAttrib: string) returns (ok: bool, ghost x: Ctx)
      requires Valid() && (pos == 0 || pos in Ids(tree)) && ValidName(szAttrib)
          && (pos != 0 ==> PlainTag(Find(tree, pos).tag))
      modifies `strDoc, `aPos, `tree
      ensures Valid() && ok == (pos != 0 && iPos != 0 && AttrOf(Find(old(tree), pos).tag, szAttrib).Some?)
      ensures !ok ==> strDoc == old(strDoc) && aPos == old(aPos) && tree == old(tree)
      ensures ok ==>
        var c := Find(old(tree), pos);
        && CtxOK(x) && c.Cons? && old(tree) == Fill(x, c) && tree == Fill(x, c.(tag := CutTag(c.tag, szAttrib)))
        && Find(tree, pos) == c.(tag := CutTag(c.tag, szAttrib))
      ensures ok ==> forall other :: ValidName(other) ==>
        AttrOf(Find(tree, pos).tag, other) == if other == szAttrib then None
            else AttrOf(Find(old(tree), pos).tag, other)
      ensures ok ==> PlainTag(Find(tree, pos).tag)
      ensures old(Tidied()) ==> Tidied()
    {
      hide *;
      ValidIs();
      TidiedIs();
      x := Top;
      if pos == 0 || nNodeType != 1 {
        return false, x;
      }
      ghost var c;
      x, c := Locate(tree, pos);
      FindFill(x, c);
      ElemAt(strDoc, aPos, iPosFree, prolog, tree, x, c);
      Values.TagAt(strDoc, aPos, iPosFree, prolog, tree, x, c);
      ghost var p := HolePos(x, |prolog|);
      CutTagAt(strDoc, p, c.tag, szAttrib);
      CutTagOK(c.tag, szAttrib);
      var place := ScanRemove(strDoc, aPos[pos].startL + 1, szAttrib);
      if place.None? {
        return false, x;
      }
      var nInsertAt, nReplace := place.value.0, place.value.1 - place.value.0;
      ChangeTag(pos, nInsertAt, nReplace, "", x, c);
      TidiedIs();
      ok := true;
    }

    // ---- adding a subdocument ----

    /** The loop of `x_AddSubDoc` over the nodes before the first element. */
    method SkipNodes(szSubDoc: string) returns (strInsert: string)
      requires SkipEnds(szSubDoc)
      ensures strInsert == Fragment(szSubDoc)
    {
      hide ParseNode, SkipLoop;
      SkipBound(szSubDoc, |szSubDoc|);
      ghost var left: nat, r := |szSubDoc|, SkipLoop(szSubDoc, 0, |szSubDoc|).value;
      var nStart := 0;
      var node := ScanNode(szSubDoc[nStart..], 0);
      SkipTurn(szSubDoc, nStart, left);
      while Skippable(node.kind)
        invariant 0 <= nStart <= |szSubDoc| && node == ParseNode(szSubDoc[nStart..], 0)
        invariant SkipLoop(szSubDoc, nStart, left) == Some(r)
        decreases left
      {
        SkipTurn(szSubDoc, nStart, left);
        left := left - 1;
        nStart := node.next;
        node := ScanNode(szSubDoc[nStart..], 0);
      }
      SkipTurn(szSubDoc, nStart, left);
      strInsert := szSubDoc[nStart..];
    }

    /** `x_AddSubDoc`: the text is put in and parsed where it stands; the parent's end offset,
        where parsing starts, is set back. */
    method TrySub(par: nat, nPlace: int, strFrag: string, ghost s: Site) returns (r: int, nLeft: nat, nReplace: nat,
        strInsert: string, strName: string, ghost x: ElemResult)
      requires Valid() && SiteOK(s, tree) && CtxOK(s.x) && s.c.Cons? && Under(s) == par && 0 < par < iPosFree
          && (s.Opened? <==> aPos[par].IsEmptyElement())
      requires nPlace == SiteAt(s, |prolog|) + Drop(s) <= |strDoc|
      requires var at := SiteAt(s, |prolog|);
        var d := Splice(strDoc, at, at + Drop(s), SiteText(s, strFrag));
        StartAt(s, |prolog|) <= |d| && Parser.ParseElem(d, StartAt(s, |prolog|), iPosFree) != ElemEndless
      modifies `strDoc, `aPos, `iPosFree
      ensures nLeft == SiteAt(s, |prolog|) && nReplace == Drop(s) && strInsert == SiteText(s, strFrag)
          && (s.Opened? ==> strName == TagName(s.c))
      ensures strDoc == Splice(old(strDoc), nLeft, nLeft + nReplace, strInsert)
      ensures StartAt(s, |prolog|) <= |strDoc| && x == Parser.ParseElem(strDoc, StartAt(s, |prolog|), old(iPosFree))
      ensures old(|aPos|) <= |aPos| && forall j :: 0 <= j < old(iPosFree) ==> j < old(|aPos|) && aPos[j] == old(aPos)[j]
      ensures r > 0 <==> x.Elem?
      ensures x.Elem? ==>
        r == old(iPosFree) && iPosFree == x.ids <= |aPos| && Rep(aPos, x.cell, par, StartAt(s, |prolog|) + |x.lead|)
    {
      hide *;
      ValidIs();
      SiteCut(s, tree);
      SiteIs(s, tree);
      ElemAt(strDoc, aPos, iPosFree, prolog, tree, s.x, s.c);
      UnderIs(s);
      ghost var a0, free0 := aPos, iPosFree;
      var bEmptyParent := aPos[par].IsEmptyElement();
      var nOffset := if bEmptyParent then nPlace + 2 else nPlace;
      StartIs(s, |prolog|, bEmptyParent, nPlace, nOffset);
      SiteTextIs(s, strFrag);
      var nParentEndLBeforeAdd := aPos[par].endL;
      aPos := aPos[par := aPos[par].(endL := nOffset)];
      strName, strInsert, nReplace, nLeft := "", strFrag, 0, nOffset;
      if bEmptyParent {
        var token := FindToken(strDoc, aPos[par].startL + 1);
        strName := TokenText(strDoc, token);
        strInsert := ">" + (CRLF + (strInsert + ("</" + strName)));
        OpenedStart(s, |prolog|);
        aPos := aPos[par := aPos[par].(endL := aPos[par].startR + 2)];
        nLeft := aPos[par].startR - 1;
        nReplace := 1;
      }
      DocChange(nLeft, nReplace, strInsert);
      ghost var a1 := aPos;
      r, x := ParseElem(par);
      ghost var b := aPos;
      aPos := aPos[par := aPos[par].(endL := nParentEndLBeforeAdd)];
      SubOutcome(strDoc, a0, a1, b, aPos, par, StartAt(s, |prolog|), free0, iPosFree, r, x);
    }

    /** `x_AddSubDoc` from putting the text in to the walk, or to taking it out again where it
        is not accepted. */
    method PutSub(iPosBefore: nat, nPlace: int, strFrag: string, ghost s: Site) returns (r: int)
      requires Valid() && SiteOK(s, tree) && CtxOK(s.x) && s.c.Cons? && Under(s) == iPos && 0 < iPos < iPosFree
          && (s.Opened? <==> aPos[iPos].IsEmptyElement())
      requires iPosBefore == (if s.Behind? then s.c.id else 0) && 0 < s.c.id < iPosFree && s.c.id < |aPos|
      requires nPlace == SiteAt(s, |prolog|) + Drop(s) <= |strDoc|
      requires var at := SiteAt(s, |prolog|);
        var d := Splice(strDoc, at, at + Drop(s), SiteText(s, strFrag));
        && StartAt(s, |prolog|) + |strFrag| <= |d| && Has(d, StartAt(s, |prolog|), strFrag)
        && var x := Parser.ParseElem(d, StartAt(s, |prolog|), iPosFree);
           x != ElemEndless && (x.Elem? ==> OneRoot(strFrag, iPosFree) && (s.Opened? ==> CanSplit(s.c)))
      modifies `strDoc, `aPos, `iPosFree, `tree
      ensures var at := SiteAt(s, |prolog|);
        var d := Splice(old(strDoc), at, at + Drop(s), SiteText(s, strFrag));
        && StartAt(s, |prolog|) <= |d|
        && (r > 0 <==> Parser.ParseElem(d, StartAt(s, |prolog|), old(iPosFree)).Elem?) && (r > 0 ==> strDoc == d)
      ensures r <= 0 ==>
        && Valid() && strDoc == old(strDoc) && iPosFree == old(iPosFree) && tree == old(tree)
        && Below(old(aPos), aPos, iPosFree)
      ensures r > 0 ==>
        var y := Parser.ParseElem(strFrag, 0, old(iPosFree));
        && r == old(iPosFree) && y.Elem? && y.cell.Cons? && y.next <= |strFrag| && (s.Behind? ==> s.k <= |s.c.gap|)
        && (s.Within? ==> s.k <= |s.c.head|)
        && tree == Planted(s, y.cell, strFrag[y.next..]) && iPosFree == y.ids
        && (Tidy(prolog, old(tree)) && Plain(y.cell) ==> Tidy(prolog, tree))
      ensures r > 0 ==> State(strDoc, aPos, iPosFree, prolog, tree) && PosOK(aPos, tree, iPosParent, iPos, 0)
      ensures r > 0 ==> r in Ids(tree) && r < |aPos| && aPos[r].parent == iPos
    {
      hide *;
      ghost var doc0, a0 := strDoc, aPos;
      ValidIs();
      PosIn(aPos, tree, iPosParent, iPos, iPosChild);
      NewPos(a0, tree, iPosParent, iPos, 0);
      SiteDrop(s);
      var iPosFreeBeforeAdd := iPosFree;
      var nLeft, nReplace, strInsert, strName;
      ghost var x;
      r, nLeft, nReplace, strInsert, strName, x := TrySub(iPos, nPlace, strFrag, s);
      if r <= 0 {
        RevertSub(nLeft, nReplace, |strInsert|, iPosFreeBeforeAdd, strInsert, s, doc0, a0);
        BelowIs(a0, aPos, iPosFree);
      } else {
        LinkSub(r, iPos, iPosBefore, nReplace == 1, strName, |strInsert| - nReplace, strFrag, s, doc0, a0,
            iPosFreeBeforeAdd, x);
      }
    }

    /** `x_AddSubDoc` from the search for the place on. */
    method SubUnder(strFrag: string, bInsert: bool) returns (r: int, ghost s: Site)
      requires Valid() && iPos != 0 && iPos < |aPos| && iPosChild < |aPos|
      requires var x := SubResult(strDoc, aPos, tree, iPosFree, iPos, iPosChild, bInsert, strFrag);
        && x != ElemEndless
        && (x.Elem? ==> OneRoot(strFrag, iPosFree) && var c := Find(tree, iPos); c.Cons? && c.empty ==> CanSplit(c))
      modifies `strDoc, `aPos, `iPosFree, `tree
      ensures r > 0 <==> old(SubResult(strDoc, aPos, tree, iPosFree, iPos, iPosChild, bInsert, strFrag)).Elem?
      ensures r <= 0 ==>
        && Valid() && strDoc == old(strDoc) && iPosFree == old(iPosFree) && tree == old(tree)
        && Below(old(aPos), aPos, iPosFree)
      ensures r > 0 ==>
        && SiteOK(s, old(tree)) && CtxOK(s.x) && s.c.Cons? && Under(s) == iPos
        && Beside(old(aPos), iPos, iPosChild, bInsert, if s.Behind? then s.c.id else 0)
        && TextAdded(old(strDoc), old(aPos), iPos, iPosChild, bInsert, SiteAt(s, |prolog|), strFrag, TagName(s.c),
             strDoc)
      ensures r > 0 ==>
        var y := Parser.ParseElem(strFrag, 0, old(iPosFree));
        && r == old(iPosFree) && y.Elem? && y.cell.Cons? && y.next <= |strFrag| && CtxOK(s.x) && s.c.Cons?
        && (s.Behind? ==> s.k <= |s.c.gap|) && (s.Within? ==> s.k <= |s.c.head|)
        && tree == Planted(s, y.cell, strFrag[y.next..]) && iPosFree == y.ids
        && (Tidy(prolog, old(tree)) && Plain(y.cell) ==> Tidy(prolog, tree))
      ensures r > 0 ==> State(strDoc, aPos, iPosFree, prolog, tree) && PosOK(aPos, tree, iPosParent, iPos, 0)
      ensures r > 0 ==> r in Ids(tree) && r < |aPos| && aPos[r].parent == iPos
    {
      hide *;
      ValidIs();
      PosIn(aPos, tree, iPosParent, iPos, iPosChild);
      var iPosBefore, nOffset;
      iPosBefore, nOffset, s := LocateNew(iPos, iPosChild, bInsert);
      SiteIs(s, tree);
      ElemAt(strDoc, aPos, iPosFree, prolog, tree, s.x, s.c);
      SubIs(strDoc, aPos, iPosFree, prolog, tree, iPos, iPosChild, bInsert, strFrag, s);
      if SubResult(strDoc, aPos, tree, iPosFree, iPos, iPosChild, bInsert, strFrag).Elem? {
        SiteSplits(s, tree, iPos);
      }
      SiteCut(s, tree);
      ghost var doc0, a0, tree0 := strDoc, aPos, tree;
      r := PutSub(iPosBefore, nOffset, strFrag, s);
      if r > 0 {
        AddedText(doc0, a0, tree0, iPos, iPosChild, bInsert, s, |prolog|, strFrag, strDoc);
      }
    }

    /** `x_AddSubDoc` under the main position.  If the parser does not accept the text where
        it stands, text, free index and every entry in use are what they were. */
    method AddSubDoc(szSubDoc: string, bInsert: bool) returns (ok: bool, ghost s: Site)
      requires Valid() && SkipEnds(szSubDoc)
      requires iPos != 0 && iPos < |aPos| && iPosChild < |aPos| ==>
        var x := SubResult(strDoc, aPos, tree, iPosFree, iPos, iPosChild, bInsert, Fragment(szSubDoc));
        && x != ElemEndless
        && (x.Elem? ==>
              OneRoot(Fragment(szSubDoc), iPosFree) && var c := Find(tree, iPos); c.Cons? && c.empty ==> CanSplit(c))
      modifies this
      ensures Valid()
      ensures ok == (old(iPos) != 0 && old(iPos < |aPos| && iPosChild < |aPos|) &&
                     old(SubResult(strDoc, aPos, tree, iPosFree, iPos, iPosChild, bInsert, Fragment(szSubDoc))).Elem?)
      ensures !ok ==>
        && strDoc == old(strDoc) && iPosFree == old(iPosFree) && tree == old(tree) && prolog == old(prolog)
        && Below(old(aPos), aPos, iPosFree)
        && iPosParent == old(iPosParent) && iPos == old(iPos) && iPosChild == old(iPosChild)
      ensures ok ==>
        var frag := Fragment(szSubDoc);
        var x := Parser.ParseElem(frag, 0, old(iPosFree));
        && x.Elem? && x.cell.Cons? && x.next <= |frag| && SiteOK(s, old(tree)) && (s.Behind? ==> s.k <= |s.c.gap|)
        && (s.Within? ==> s.k <= |s.c.head|)
        && tree == Planted(s, x.cell, frag[x.next..]) && prolog == old(prolog) && iPosFree == x.ids
        && Under(s) == old(iPos) && Beside(old(aPos), old(iPos), old(iPosChild), bInsert, if s.Behind? then s.c.id
            else 0)
        && iPosParent == old(iPosParent) && iPos == old(iPos) && iPosChild == old(iPosFree)
        && (old(Tidied()) && Plain(x.cell) ==> Tidied())
      ensures ok ==>
        && CtxOK(s.x) && s.c.Cons? && old(iPos) < |old(aPos)|
        && TextAdded(old(strDoc), old(aPos), old(iPos), old(iPosChild), bInsert, SiteAt(s, |prolog|),
             Fragment(szSubDoc), TagName(s.c), strDoc)
      ensures !ok && old(Tidied()) ==> Tidied()
    {
      hide *;
      ValidIs();
      TidiedIs();
      s := Opened(Top, tree);
      if iPos == 0 {
        BelowIs(aPos, aPos, iPosFree);
        return false, s;
      }
      PosIn(aPos, tree, iPosParent, iPos, iPosChild);
      var strFrag := SkipNodes(szSubDoc);
      var r;
      r, s := SubUnder(strFrag, bInsert);
      if r <= 0 {
        TidiedIs();
        return false, s;
      }
      PosIn(aPos, tree, iPosParent, iPos, 0);
      SetPos(iPosParent, iPos, r);
      NewPos(aPos, tree, iPosParent, iPos, r);
      ValidBack();
      TidiedIs();
      ok := true;
    }

    /** `x_AddSubDoc` after a parse that failed. */
    method RevertSub(nLeft: nat, nReplace: nat, nLen: nat, iPosFreeBeforeAdd: nat, ghost strInsert: string,
        ghost s: Site, ghost doc0: string, ghost a0: seq<ElemPos>)
      requires State(doc0, a0, iPosFreeBeforeAdd, prolog, tree) && PosOK(a0, tree, iPosParent, iPos, iPosChild)
          && nNodeType == (if iPos != 0 then 1 else 0)
      requires SiteOK(s, tree) && CtxOK(s.x) && s.c.Cons? && nLeft == SiteAt(s, |prolog|) && nReplace == Drop(s)
          && nLen == |strInsert|
      requires nLeft + nReplace <= |doc0| && strDoc == Splice(doc0, nLeft, nLeft + nReplace, strInsert)
      requires |a0| <= |aPos| && forall j :: 0 <= j < iPosFreeBeforeAdd ==> j < |a0| && aPos[j] == a0[j]
      modifies `strDoc, `iPosFree
      ensures Valid() && strDoc == doc0 && iPosFree == iPosFreeBeforeAdd
    {
      hide *;
      StateIs(doc0, a0, iPosFreeBeforeAdd, prolog, tree);
      LaidBounds(doc0, a0, iPosFreeBeforeAdd, prolog, tree);
      RevertText(doc0, a0, iPosFreeBeforeAdd, prolog, tree, s, strInsert);
      DocChange(nLeft, nLen, if nReplace == 1 then "/" else "");
      iPosFree := iPosFreeBeforeAdd;
      StateGrown(doc0, a0, iPosFree, prolog, tree, aPos);
      SameEntries(a0, aPos, iPosFree);
      KeptPos(doc0, a0, iPosFree, prolog, tree, aPos, tree, iPosParent, iPos, iPosChild);
      ValidBack();
    }

    /** `x_AddSubDoc` after a successful parse: links, pre-adjustment, and the walk past the
        new elements. */
    method LinkSub(r: nat, par: nat, iPosBefore: nat, bEmptyParent: bool, strName: string, nShift: int,
        ghost frag: string, ghost s: Site,
                   ghost doc0: string, ghost a0: seq<ElemPos>, ghost free0: nat, ghost x: ElemResult)
      requires State(doc0, a0, free0, prolog, tree) && SiteOK(s, tree) && CtxOK(s.x) && s.c.Cons? && 0 < s.c.id < free0
          && s.c.id < |a0| && r == free0
      requires PosOK(a0, tree, iPosParent, iPos, 0)
      requires Under(s) == par < free0 && iPosBefore == (if s.Behind? then s.c.id else 0)
          && (s.Opened? ==> strName == TagName(s.c) && CanSplit(s.c))
      requires |a0| <= |aPos| && (forall j :: 0 <= j < free0 ==> j < |a0| && aPos[j] == a0[j])
          && (s.Opened? <==> bEmptyParent)
      requires OneRoot(frag, free0) && x.Elem? && iPosFree == x.ids <= |aPos|
          && Rep(aPos, x.cell, par, StartAt(s, |prolog|) + |x.lead|)
      requires var at, ins := SiteAt(s, |prolog|), SiteText(s, frag);
        && at + Drop(s) <= |doc0| && strDoc == Splice(doc0, at, at + Drop(s), ins) && nShift == |ins| - Drop(s)
        && StartAt(s, |prolog|) + |frag| <= |strDoc| && Has(strDoc, StartAt(s, |prolog|), frag)
        && x == Parser.ParseElem(strDoc, StartAt(s, |prolog|), free0)
      modifies `aPos, `tree
      ensures var y := Parser.ParseElem(frag, 0, free0);
        && y.Elem? && y.cell.Cons? && y.next <= |frag| && (s.Behind? ==> s.k <= |s.c.gap|)
        && (s.Within? ==> s.k <= |s.c.head|)
        && tree == Planted(s, y.cell, frag[y.next..]) && iPosFree == y.ids
        && (Tidy(prolog, old(tree)) && Plain(y.cell) ==> Tidy(prolog, tree))
      ensures State(strDoc, aPos, iPosFree, prolog, tree) && PosOK(aPos, tree, iPosParent, iPos, 0)
      ensures r in Ids(tree) && r < |aPos| && aPos[r].parent == par
    {
      hide *;
      OneRootIs(frag, free0);
      FragmentParses(frag, free0, strDoc, StartAt(s, |prolog|));
      FragmentPieces(frag, free0);
      StateIs(doc0, a0, free0, prolog, tree);
      SiteIs(s, tree);
      SiteCut(s, tree);
      FillCons(s.x, s.c);
      ElemAt(doc0, a0, free0, prolog, tree, s.x, s.c);
      ghost var b, t, trail, tree0 := aPos, x.cell, frag[Parser.ParseElem(frag, 0, free0).next..], tree;
      LinkedToIs(s, a0, r);
      MarkedIs(s, a0[s.c.id], r);
      CellOwnId(t);
      if iPosBefore != 0 {
        aPos := aPos[r := aPos[r].LinkNext(aPos[iPosBefore].next)];
        aPos := aPos[iPosBefore := aPos[iPosBefore].LinkNext(r)];
      } else {
        aPos := aPos[r := aPos[r].LinkNext(aPos[par].child)];
        aPos := aPos[par := aPos[par].LinkChild(r)];
      }
      if bEmptyParent {
        aPos := aPos[par := aPos[par].PreSplit(|strName| + 1)];
      }
      ghost var a1 := aPos;
      SubReady(doc0, a0, free0, prolog, tree, s, t, b, a1, iPosFree);
      SiteStarts(doc0, a0, free0, prolog, s, t, true, a1, iPosFree);
      Adjust(r, nShift, true, Hole(s), t.(next := Older(s)));
      SiteState(doc0, a0, free0, prolog, tree, s, t, trail, true, a1, strDoc, iPosFree);
      ShiftedParents(a0, a1, free0, BothLeft(Hole(s), t.(next := Older(s)), true), Ancestors(Hole(s)), nShift);
      ParentAfter(a1, r, BothLeft(Hole(s), t.(next := Older(s)), true), Ancestors(Hole(s)), nShift);
      tree := Planted(s, t, trail);
      KeptPos(doc0, a0, free0, prolog, tree0, aPos, tree, iPosParent, iPos, 0);
    }
  }
}
