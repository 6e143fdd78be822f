/**
  How the parser builds the children of an element: one at a time, each linked
  behind the one before it.
 */
module Building {
  import opened Parser
  import opened Index

  /** What comes behind the last element of `f`. */
  function SetTail(f: Forest, gap: string, g: Forest): Forest
    requires f.Cons?
  {
    if f.next.Nil? then f.(gap := gap, next := g) else f.(next := SetTail(f.next, gap, g))
  }

  function LastId(f: Forest): nat
    requires f.Cons?
  {
    if f.next.Nil? then f.id else LastId(f.next)
  }

  /** The elements read so far, `done`, in front of what is still to be read. */
  function Prepend(head: string, done: Forest, k: KidsResult): KidsResult {
    match k
    case Kids(h, f, l, ids) => if done.Nil? then k else Kids(head, SetTail(done, h, f), l, ids)
    case _ => k
  }

  lemma {:induction false} SetTailTwice(f: Forest, gap: string, c: Forest, h: string, g: Forest)
    requires f.Cons? && c.Cons? && c.next.Nil?
    ensures SetTail(SetTail(f, gap, c), h, g) == SetTail(f, gap, c.(gap := h, next := g))
  {
    if f.next.Cons? { SetTailTwice(f.next, gap, c, h, g); }
  }

  /** The reading of one more element. */
  lemma PrependElem(s: string, p: nat, id: nat, head: string, done: Forest)
    requires p <= |s| && ParseElem(s, p, id).Elem?
    ensures var x := ParseElem(s, p, id);
      Prepend(head, done, ParseKids(s, p, id)) ==
      if done.Nil? then Prepend(x.lead, x.cell, ParseKids(s, x.next, x.ids))
      else Prepend(head, SetTail(done, x.lead, x.cell), ParseKids(s, x.next, x.ids))
  {
    hide ParseElem, NextTag;
    var x := ParseElem(s, p, id);
    var k := ParseKids(s, x.next, x.ids);
    if k.Kids? && done.Cons? {
      SetTailTwice(done, x.lead, x.cell, k.head, k.kids);
    }
  }

  lemma {:induction false} SetTailIds(f: Forest, gap: string, g: Forest)
    requires f.Cons? && Distinct(f) && Distinct(g) && Ids(f) !! Ids(g)
    ensures Ids(SetTail(f, gap, g)) <= Ids(f) + Ids(g) && Distinct(SetTail(f, gap, g))
    ensures LastId(f) in Ids(f) && SetTail(f, gap, g).Cons? && SetTail(f, gap, g).id == f.id
    ensures g.Cons? ==> LastId(SetTail(f, gap, g)) == LastId(g)
    decreases f
  {
    if f.next.Cons? { SetTailIds(f.next, gap, g); }
  }

  lemma {:induction false} SetTailLen(f: Forest, gap: string, g: Forest, last: string)
    requires f.Cons? && LastGap(f) == last
    ensures TextLen(SetTail(f, gap, g)) == TextLen(f) - |last| + |gap| + TextLen(g)
    ensures g.Cons? ==> LastGap(SetTail(f, gap, g)) == LastGap(g)
  {
    if f.next.Cons? { SetTailLen(f.next, gap, g, last); }
  }

  function LastGap(f: Forest): string
    requires f.Cons?
  {
    if f.next.Nil? then f.gap else LastGap(f.next)
  }

  /** Linking a new element behind the last one. */
  lemma {:induction false} RepSetTail(a: seq<ElemPos>, b: seq<ElemPos>, f: Forest, gap: string, g: Forest, par: nat,
      p: nat)
    requires f.Cons? && Distinct(f) && Rep(a, f, par, p) && LastGap(f) == "" && |a| <= |b|
    requires forall i :: i in Ids(f) && i < |a| && i != LastId(f) ==> b[i] == a[i]
    requires LastId(f) < |a| ==> b[LastId(f)] == a[LastId(f)].LinkNext(Id(g))
    requires Rep(b, g, par, p + TextLen(f) + |gap|)
    ensures Rep(b, SetTail(f, gap, g), par, p)
    decreases f
  {
    hide KidsPos;
    LastIn(f);
    RepSetTailKids(a, b, f, par, p);
    if f.next.Nil? {
      RepLast(b, f, gap, g, par, p);
    } else {
      assert f.id != LastId(f) && f.id in Ids(f);
      RepSetTail(a, b, f.next, gap, g, par, NextPos(f, p, TextLen(f.kids)));
      IdSetTail(f.next, gap, g);
      EntryLocal(f, SetTail(f, gap, g));
      assert NextPos(SetTail(f, gap, g), p, TextLen(f.kids)) == NextPos(f, p, TextLen(f.kids));
    }
  }

  lemma RepLast(b: seq<ElemPos>, f: Forest, gap: string, g: Forest, par: nat, p: nat)
    requires f.Cons? && f.next.Nil? && f.gap == "" && f.id < |b|
    requires b[f.id] == Entry(f, p, TextLen(f.kids), par, Id(f.kids), 0).LinkNext(Id(g))
    requires Rep(b, f.kids, f.id, KidsPos(f, p)) && Rep(b, g, par, p + TextLen(f) + |gap|)
    ensures Rep(b, f.(gap := gap, next := g), par, p)
  {
    var d := f.(gap := gap, next := g);
    assert NextPos(d, p, TextLen(f.kids)) == p + TextLen(f) + |gap|;
  }

  lemma IdSetTail(f: Forest, gap: string, g: Forest)
    requires f.Cons?
    ensures Id(SetTail(f, gap, g)) == f.id
  {
  }

  lemma {:induction false} LastIn(f: Forest)
    requires f.Cons? && Distinct(f)
    ensures LastId(f) in Ids(f) && LastId(f) !in Ids(f.kids)
    ensures f.next.Cons? ==> LastId(f) in Ids(f.next) && LastId(f) != f.id
  {
    if f.next.Cons? { LastIn(f.next); }
  }

  lemma RepSetTailKids(a: seq<ElemPos>, b: seq<ElemPos>, f: Forest, par: nat, p: nat)
    requires f.Cons? && Distinct(f) && Rep(a, f, par, p) && |a| <= |b|
    requires forall i :: i in Ids(f) && i < |a| && i != LastId(f) ==> b[i] == a[i]
    ensures Rep(b, f.kids, f.id, KidsPos(f, p))
  {
    LastIn(f);
    RepFrame(a, b, f.kids, f.id, KidsPos(f, p));
  }

  lemma {:induction false} RenumberIds(f: Forest, id: nat)
    ensures forall i :: i in Ids(Renumber(f, id)) <==> id <= i < id + Size(f)
  {
    if f.Cons? {
      RenumberIds(f.kids, id + 1);
      RenumberIds(f.next, id + 1 + Size(f.kids));
    }
  }

  /** Numbering in document order gives every element its own index. */
  lemma {:induction false} RenumberDistinct(f: Forest, id: nat)
    requires id > 0
    ensures Distinct(Renumber(f, id))
  {
    hide Ids, Size;
    if f.Cons? {
      RenumberIds(f.kids, id + 1);
      RenumberIds(f.next, id + 1 + Size(f.kids));
      RenumberDistinct(f.kids, id + 1);
      RenumberDistinct(f.next, id + 1 + Size(f.kids));
    }
  }

  // ---- the loop over the children ----

  /** Nothing below `free` has changed but the end offset of `par`. */
  ghost predicate Grown(a: seq<ElemPos>, b: seq<ElemPos>, free: nat, par: nat) {
    && par < free <= |a| <= |b| && (forall k :: 0 <= k < free && k != par ==> b[k] == a[k])
    && b[par] == a[par].(endL := b[par].endL)
  }

  /** The children `done` of element `i` have been read from `s0` up to `cur`, with
      `head` before the first; `prev` is the last of them. */
  ghost predicate ReadSoFar(a: seq<ElemPos>, i: nat, s0: nat, free: nat, head: string, done: Forest, prev: nat,
      cur: nat) {
    && 0 < i < free <= |a|
    && (done.Nil? ==> prev == 0 && a[i].child == 0 && cur == s0 && free == i + 1)
    && (done.Cons? ==>
          && prev == LastId(done) && a[i].child == done.id && LastGap(done) == "" && cur == s0 + |head| + TextLen(done)
          && Rep(a, done, i, s0 + |head|) && Distinct(done) && (forall k :: k in Ids(done) ==> i < k < free))
  }

  /** `c` is `b` with the links of `i` and of `prev` set. */
  ghost predicate Linked(b: seq<ElemPos>, c: seq<ElemPos>, i: nat, prev: nat, id: nat) {
    && |c| == |b| && i < |b| && prev < |b| && (forall k :: 0 <= k < |b| && k != i && k != prev ==> c[k] == b[k])
    && if prev != 0 then c[prev] == b[prev].LinkNext(id) && c[i].child == b[i].child else c[i].child == id
  }

  lemma SoFarIs(a: seq<ElemPos>, i: nat, s0: nat, free: nat, head: string, done: Forest, prev: nat, cur: nat)
    requires ReadSoFar(a, i, s0, free, head, done, prev, cur) && done.Cons?
    ensures 0 < i < free <= |a| && prev == LastId(done) && a[i].child == done.id && LastGap(done) == ""
    ensures cur == s0 + |head| + TextLen(done) && Rep(a, done, i, s0 + |head|) && Distinct(done)
        && forall k :: k in Ids(done) ==> i < k < free
  {
    hide Rep, TextLen, Ids, Distinct, LastId, LastGap;
  }

  lemma SoFar(a: seq<ElemPos>, i: nat, s0: nat, free: nat, head: string, done: Forest, prev: nat, cur: nat)
    requires done.Cons? && 0 < i < free <= |a| && prev == LastId(done) && a[i].child == done.id && LastGap(done) == ""
    requires cur == s0 + |head| + TextLen(done) && Rep(a, done, i, s0 + |head|) && Distinct(done)
        && forall k :: k in Ids(done) ==> i < k < free
    ensures ReadSoFar(a, i, s0, free, head, done, prev, cur)
  {
    hide Rep, TextLen, Ids, Distinct, LastId, LastGap;
  }

  lemma IdOfCons(f: Forest)
    requires f.Cons?
    ensures Id(f) == f.id
  {
  }

  lemma LinkFrame(a: seq<ElemPos>, b: seq<ElemPos>, c: seq<ElemPos>, i: nat, free: nat, prev: nat, id: nat)
    requires Grown(a, b, free, i) && Linked(b, c, i, prev, id) && (prev == 0 || i < prev < free)
    ensures |a| <= |c| && |c| == |b|
    ensures forall k :: i < k < free && k != prev ==> c[k] == a[k]
    ensures forall k :: free <= k < |b| ==> c[k] == b[k]
    ensures prev != 0 ==> c[prev] == a[prev].LinkNext(id) && c[i].child == a[i].child
    ensures prev == 0 ==> c[i].child == id
  {
  }

  /** One more child: its index is linked from the one before it, or from `i`. */
  lemma ReadOne(a: seq<ElemPos>, b: seq<ElemPos>, c: seq<ElemPos>, i: nat, s0: nat, free: nat, free': nat, head: string,
      done: Forest, prev: nat, cur: nat,
                lead: string, cell: Forest, next: nat)
    requires ReadSoFar(a, i, s0, free, head, done, prev, cur) && Grown(a, b, free, i) && free < free' <= |b|
    requires cell.Cons? && cell.next.Nil? && cell.gap == "" && cell.id == free && Distinct(cell)
        && (forall k :: k in Ids(cell) ==> free <= k < free')
    requires Rep(b, cell, i, cur + |lead|) && next == cur + |lead| + TextLen(cell)
    requires Linked(b, c, i, prev, free)
    ensures if done.Nil? then ReadSoFar(c, i, s0, free', lead, cell, free, next)
            else ReadSoFar(c, i, s0, free', head, SetTail(done, lead, cell), free, next)
  {
    hide Grown, Linked, Rep, TextLen, SetTail, Ids, Distinct, LastId, LastGap;
    if done.Nil? {
      ReadFirst(a, b, c, i, s0, free, free', lead, cell, next);
    } else {
      ReadMore(a, b, c, i, s0, free, free', head, done, cur, lead, cell, next);
    }
  }

  lemma ReadFirst(a: seq<ElemPos>, b: seq<ElemPos>, c: seq<ElemPos>, i: nat, s0: nat, free: nat, free': nat,
      lead: string, cell: Forest, next: nat)
    requires 0 < i < free && Grown(a, b, free, i) && free' <= |b| && free == i + 1
    requires cell.Cons? && cell.next.Nil? && cell.gap == "" && cell.id == free && Distinct(cell)
        && (forall k :: k in Ids(cell) ==> free <= k < free')
    requires Rep(b, cell, i, s0 + |lead|) && next == s0 + |lead| + TextLen(cell)
    requires Linked(b, c, i, 0, free)
    ensures ReadSoFar(c, i, s0, free', lead, cell, free, next)
  {
    hide Grown, Linked, Rep, TextLen, Distinct;
    LinkFrame(a, b, c, i, free, 0, free);
    RepFrame(b, c, cell, i, s0 + |lead|);
    assert free in Ids(cell);
  }

  lemma LastOne(f: Forest)
    requires f.Cons? && f.next.Nil?
    ensures LastId(f) == f.id && LastGap(f) == f.gap
  {
  }

  lemma ReadMore(a: seq<ElemPos>, b: seq<ElemPos>, c: seq<ElemPos>, i: nat, s0: nat, free: nat, free': nat,
      head: string, done: Forest, cur: nat,
                 lead: string, cell: Forest, next: nat)
    requires done.Cons? && ReadSoFar(a, i, s0, free, head, done, LastId(done), cur) && Grown(a, b, free, i)
    requires cell.Cons? && cell.next.Nil? && cell.gap == "" && cell.id == free && Distinct(cell)
        && (forall k :: k in Ids(cell) ==> free <= k < free')
    requires free < free' <= |b| && Rep(b, cell, i, cur + |lead|) && next == cur + |lead| + TextLen(cell)
    requires Linked(b, c, i, LastId(done), free)
    ensures ReadSoFar(c, i, s0, free', head, SetTail(done, lead, cell), free, next)
  {
    hide *;
    SoFarIs(a, i, s0, free, head, done, LastId(done), cur);
    LastOne(cell);
    LastIn(done);
    LinkFrame(a, b, c, i, free, LastId(done), free);
    RepFrame(b, c, cell, i, cur + |lead|);
    IdOfCons(cell);
    RepSetTail(a, c, done, lead, cell, i, s0 + |head|);
    SetTailIds(done, lead, cell);
    SetTailLen(done, lead, cell, "");
    SoFar(c, i, s0, free', head, SetTail(done, lead, cell), free, next);
  }

  /** The end of the children: the text up to the end tag belongs to the last of them. */
  lemma ReadAll(a: seq<ElemPos>, b: seq<ElemPos>, i: nat, s0: nat, free: nat, head: string, done: Forest, prev: nat,
      cur: nat, gap: string)
    requires done.Cons? && ReadSoFar(a, i, s0, free, head, done, prev, cur) && Grown(a, b, free, i)
    ensures Rep(b, SetTail(done, gap, Nil), i, s0 + |head|) && TextLen(SetTail(done, gap, Nil)) == TextLen(done) + |gap|
  {
    hide Rep, TextLen, SetTail, LastGap, LastId, Ids, Distinct;
    LastIn(done);
    LastNext(a, done, i, s0 + |head|);
    RepNilAny(b, i, s0 + |head| + TextLen(done) + |gap|);
    forall k | k in Ids(done) && k < |a|
      ensures b[k] == a[k]
    {
      assert k < free && k != i;
    }
    RepSetTail(a, b, done, gap, Nil, i, s0 + |head|);
    SetTailLen(done, gap, Nil, "");
  }

  lemma RepNilAny(a: seq<ElemPos>, par: nat, p: nat)
    ensures Rep(a, Nil, par, p) && TextLen(Nil) == 0
  {
  }

  /** The last element has no next sibling. */
  lemma {:induction false} LastNext(a: seq<ElemPos>, f: Forest, par: nat, p: nat)
    requires f.Cons? && Rep(a, f, par, p)
    ensures LastId(f) < |a| && a[LastId(f)].next == 0
  {
    if f.next.Cons? { LastNext(a, f.next, par, NextPos(f, p, TextLen(f.kids))); }
  }
}
