/**
  The recursive parser's obligations, step by step: what each branch of
  `x_ParseElem` has to leave in the position array.
 */
module ParseLoop {
  import opened Scanner
  import opened Parser
  import opened RoundTrip
  import opened Index
  import opened Building

  /** What a call that started at `p` with the free index `free0` has done. */
  ghost predicate Outcome(a: seq<ElemPos>, par: nat, p: int, free0: nat, free: nat, r: int, x: ElemResult) {
    match x
    case Elem(lead, cell, _, ids) => cell.Cons? && r == free0 == cell.id && free == ids && 0 <= p
        && Rep(a, cell, par, p + |lead|)
    case EndHere(l) => r == 0 && free == free0 && par < |a| && a[par].endL == l
    case ElemError => r == -1
    case ElemEndless => false
  }

  lemma ElemErrors(s: string, p: nat, id: nat)
    requires p <= |s|
    ensures var t := NextTag(s, p);
      && (t.NoTag? ==> ParseElem(s, p, id) == ElemError)
      && (t.Endless? ==> ParseElem(s, p, id) == ElemEndless)
    ensures var t := NextTag(s, p);
      t.OpenTag? && s[t.r - 1] != '/' ==>
        var k := ParseKids(s, t.r + 1, id + 1);
        && (k.KidsError? ==> ParseElem(s, p, id) == ElemError)
        && (k.KidsEndless? ==> ParseElem(s, p, id) == ElemEndless)
        && (k.Kids? && EndTag(s, k.l + 1, 0, t.name).None? ==> ParseElem(s, p, id) == ElemError)
  {
    hide NextTag, ParseKids, EndTag;
  }

  lemma PrependErrors(s: string, cur: nat, free: nat, head: string, done: Forest)
    requires cur <= |s|
    ensures var x, k := ParseElem(s, cur, free), Prepend(head, done, ParseKids(s, cur, free));
      && (x == ElemEndless ==> k == KidsEndless)
      && (x == ElemError ==> k == KidsError)
      && (x.EndHere? ==> k == if done.Nil? then Kids(s[cur..x.l], Nil, x.l, free)
          else Kids(head, SetTail(done, s[cur..x.l], Nil), x.l, free))
  {
    hide ParseElem, SetTail;
  }

  /** The parent's end tag is where the next `<` is. */
  lemma EndHereIs(s: string, cur: nat, free: nat)
    requires cur <= |s| && ParseElem(s, cur, free).EndHere?
    ensures var l := ParseElem(s, cur, free).l; l < |s| && FindChar(s, l, '<') == l
  {
    hide ParseElem, NextTag;
  }

  /** An element just read: its indices, its length and where it ends. */
  lemma ElemFacts(s: string, cur: nat, free: nat, b: seq<ElemPos>, i: nat)
    requires cur <= |s| && free > 0 && ParseElem(s, cur, free).Elem?
    requires var y := ParseElem(s, cur, free); y.cell.id == free && Rep(b, y.cell, i, cur + |y.lead|)
    ensures var y := ParseElem(s, cur, free);
      && y.cell.next.Nil? && y.cell.gap == "" && Distinct(y.cell)
      && (forall k :: k in Ids(y.cell) ==> free <= k < y.ids)
      && y.next == cur + |y.lead| + TextLen(y.cell) && free < |b| && b[free].endR + 1 == y.next && free < y.ids
  {
    hide *;
    var y := ParseElem(s, cur, free);
    ElemShape(s, cur, free);
    TreeParts(y.cell);
    ElemSound(s, cur, free);
    RenumberIds(y.cell, free);
    RenumberDistinct(y.cell, free);
    TextLenIs(y.cell);
    SizePos(y.cell);
    RepEnd(b, y.cell, i, cur + |y.lead|);
  }

  lemma ElemShape(s: string, p: nat, id: nat)
    requires p <= |s| && ParseElem(s, p, id).Elem?
    ensures var x := ParseElem(s, p, id); x.cell.Cons? && x.cell.next.Nil? && x.cell.gap == ""
  {
    hide NextTag;
  }

  lemma TreeParts(f: Forest)
    requires f.Cons? && f.next.Nil?
    ensures TextLen(f) == BodyLen(f, TextLen(f.kids)) + |f.gap|
  {
    assert TextLen(f.next) == 0;
  }

  lemma SizePos(f: Forest)
    requires f.Cons?
    ensures Size(f) > 0
  {
  }

  lemma RepEnd(a: seq<ElemPos>, f: Forest, par: nat, p: nat)
    requires f.Cons? && Rep(a, f, par, p) && f.gap == "" && f.next.Nil?
    ensures f.id < |a| && a[f.id].endR + 1 == p + BodyLen(f, TextLen(f.kids))
        && TextLen(f) == BodyLen(f, TextLen(f.kids))
  {
  }

  /** An empty element. */
  lemma EmptyEntry(s: string, a: seq<ElemPos>, i: nat, par: nat, p: nat)
    requires p <= |s| && i < |a| && NextTag(s, p).OpenTag? && s[NextTag(s, p).r - 1] == '/'
    requires var t := NextTag(s, p); a[i] == ElemPos(t.l, t.r, t.r - 1, t.r, par, 0, 0)
    ensures Outcome(a, par, p, i, i + 1, i, ParseElem(s, p, i))
  {
    hide NextTag, ParseElem;
    ElemStep(s, p, i);
    var t := NextTag(s, p);
    var cell := Cons(i, s[t.l..t.r - 1], true, "", Nil, "", "", Nil);
    assert TextLen(cell.kids) == 0;
    RepCell(a, cell, par, t.l);
    assert p + |s[p..t.l]| == t.l;
  }

  lemma ReadStart(a: seq<ElemPos>, i: nat, s0: nat, k0: KidsResult)
    requires 0 < i < |a| && a[i].child == 0
    ensures ReadSoFar(a, i, s0, i + 1, "", Nil, 0, s0) && k0 == Prepend("", Nil, k0)
  {
  }

  /** An element with all its children and its end tag. */
  lemma FullEntry(s: string, a: seq<ElemPos>, b: seq<ElemPos>, e: ElemPos, i: nat, par: nat, p: nat, head: string,
      done: Forest, prev: nat, cur: nat, free: nat,
                  t: Lex, l: nat, q: nat)
    requires p <= |s| && cur <= |s| && i < |b| && t.OpenTag? && t.l + 1 < t.r < |s| && l < |s| && t == NextTag(s, p)
        && s[t.r - 1] != '/'
    requires ReadSoFar(a, i, t.r + 1, free, head, done, prev, cur) && Grown(a, b, free, i)
    requires ParseElem(s, cur, free) == EndHere(l)
    requires ParseKids(s, t.r + 1, i + 1) == Prepend(head, done, ParseKids(s, cur, free))
    requires EndTag(s, l + 1, 0, t.name) == Some(q) && i < |a| && e == ElemPos(t.l, t.r, l, q, par, a[i].child, 0)
    ensures Outcome(b[i := e], par, p, i, free, i, ParseElem(s, p, i))
  {
    hide *;
    ElemStep(s, p, i);
    PrependErrors(s, cur, free, head, done);
    ReadBounds(a, i, t.r + 1, free, head, done, prev, cur);
    var f := if done.Nil? then Nil else SetTail(done, s[cur..l], Nil);
    var h := if done.Nil? then s[cur..l] else head;
    if done.Nil? {
      NoneRead(a, b, i, t.r + 1, free, head, prev, cur, s[cur..l]);
    } else {
      KidsRead(a, i, t.r + 1, free, head, done, prev, cur, s[cur..l]);
      ReadAll(a, b, i, t.r + 1, free, head, done, prev, cur, s[cur..l]);
    }
    RepFrame(b, b[i := e], f, i, t.r + 1 + |h|);
    var cell := Cons(i, s[t.l..t.r], false, h, f, s[l..q + 1], "", Nil);
    CellEntry(b[i := e], cell, par, t.l, t.r, l, q, e);
    ElemOutcome(b[i := e], par, p, i, free, s[p..t.l], cell, q + 1);
  }

  lemma CellEntry(a: seq<ElemPos>, c: Forest, par: nat, p: nat, r: nat, l: nat, q: nat, e: ElemPos)
    requires c.Cons? && !c.empty && c.next.Nil? && c.id < |a| && a[c.id] == e
        && e == ElemPos(p, r, l, q, par, Id(c.kids), 0)
    requires |c.tag| == r - p && l == r + 1 + |c.head| + TextLen(c.kids) && |c.close| == q + 1 - l
        && Rep(a, c.kids, c.id, r + 1 + |c.head|)
    ensures Rep(a, c, par, p)
  {
    hide TextLen;
    assert KidsPos(c, p) == r + 1 + |c.head|;
    RepCell(a, c, par, p);
  }

  lemma ElemOutcome(a: seq<ElemPos>, par: nat, p: nat, i: nat, free: nat, lead: string, c: Forest, next: nat)
    requires c.Cons? && c.id == i && Rep(a, c, par, p + |lead|)
    ensures Outcome(a, par, p, i, free, i, Elem(lead, c, next, free))
  {
    hide Rep;
  }

  lemma RepCell(a: seq<ElemPos>, c: Forest, par: nat, p: nat)
    requires c.Cons? && c.next.Nil? && c.id < |a| && a[c.id] == Entry(c, p, TextLen(c.kids), par, Id(c.kids), 0)
        && Rep(a, c.kids, c.id, KidsPos(c, p))
    ensures Rep(a, c, par, p)
  {
  }

  lemma NoneRead(a: seq<ElemPos>, b: seq<ElemPos>, i: nat, s0: nat, free: nat, head: string, prev: nat, cur: nat,
      gap: string)
    requires ReadSoFar(a, i, s0, free, head, Nil, prev, cur)
    ensures a[i].child == Id(Nil) && i !in Ids(Nil) && Rep(b, Nil, i, s0 + |gap|) && TextLen(Nil) == 0 && cur == s0
  {
  }

  lemma KidsRead(a: seq<ElemPos>, i: nat, s0: nat, free: nat, head: string, done: Forest, prev: nat, cur: nat,
      gap: string)
    requires done.Cons? && ReadSoFar(a, i, s0, free, head, done, prev, cur)
    ensures i !in Ids(SetTail(done, gap, Nil)) && a[i].child == Id(SetTail(done, gap, Nil))
        && cur == s0 + |head| + TextLen(done)
  {
    hide Rep, TextLen, LastId, LastGap, Distinct;
    NilIds();
    SetTailIds(done, gap, Nil);
  }

  /** One turn of the loop over the children. */
  lemma ReadChild(s: string, a: seq<ElemPos>, b: seq<ElemPos>, c: seq<ElemPos>, i: nat, s0: nat, free: nat, free': nat,
                  head: string, done: Forest, prev: nat, cur: nat) returns (head': string, done': Forest)
    requires cur <= |s| && ReadSoFar(a, i, s0, free, head, done, prev, cur) && Grown(a, b, free, i) && free' <= |b|
    requires ParseElem(s, cur, free).Elem? && Outcome(b, i, cur, free, free', free, ParseElem(s, cur, free))
        && Linked(b, c, i, prev, free)
    ensures var y := ParseElem(s, cur, free);
      && ReadSoFar(c, i, s0, free', head', done', free, y.next) && free < free'
      && Prepend(head, done, ParseKids(s, cur, free)) == Prepend(head', done', ParseKids(s, y.next, free'))
  {
    hide ParseElem, ParseKids, Rep, ReadSoFar, Prepend, SetTail, Grown, Linked, Ids, Distinct, TextLen;
    var y := ParseElem(s, cur, free);
    ReadBounds(a, i, s0, free, head, done, prev, cur);
    ElemFacts(s, cur, free, b, i);
    PrependElem(s, cur, free, head, done);
    ReadOne(a, b, c, i, s0, free, free', head, done, prev, cur, y.lead, y.cell, y.next);
    head', done' := if done.Nil? then y.lead else head, if done.Nil? then y.cell else SetTail(done, y.lead, y.cell);
  }

  lemma ReadBounds(a: seq<ElemPos>, i: nat, s0: nat, free: nat, head: string, done: Forest, prev: nat, cur: nat)
    requires ReadSoFar(a, i, s0, free, head, done, prev, cur)
    ensures 0 < i < free <= |a|
  {
  }
}
