/**
  The array entries after each edit: what the local adjustments and the walk
  together leave behind is the layout of the edited element.
 */
module Repair {
  import opened Common
  import opened Parser
  import opened Index
  import opened Edits

  /** A cell and its parts. */
  lemma RepCons(a: seq<ElemPos>, f: Forest, parent: nat, p: nat)
    requires f.Cons?
    ensures Rep(a, f, parent, p) <==>
      f.id < |a| && a[f.id] == Entry(f, p, TextLen(f.kids), parent, Id(f.kids), Id(f.next))
      && Rep(a, f.kids, f.id, KidsPos(f, p)) && Rep(a, f.next, parent, NextPos(f, p, TextLen(f.kids)))
  {
  }

  lemma TextLenCons(f: Forest)
    requires f.Cons?
    ensures TextLen(f) == BodyLen(f, TextLen(f.kids)) + |f.gap| + TextLen(f.next)
  {
  }

  lemma RepNil(a: seq<ElemPos>, parent: nat, p: nat)
    ensures Rep(a, Nil, parent, p) && TextLen(Nil) == 0
  {
  }

  lemma KeptRep(a: seq<ElemPos>, b: seq<ElemPos>, f: Forest, parent: nat, p: nat)
    requires Kept(a, b, f) && Rep(a, f, parent, p)
    ensures Rep(b, f, parent, p)
  {
    RepFrame(a, b, f, parent, p);
  }

  lemma MovedRep(a: seq<ElemPos>, b: seq<ElemPos>, f: Forest, parent: nat, p: nat, n: int)
    requires Moved(a, b, f, n) && Rep(a, f, parent, p) && 0 <= p + n
    ensures Rep(b, f, parent, p + n)
  {
    RepShift(a, b, f, parent, p, n);
  }

  lemma InsertAfterRep(a: seq<ElemPos>, b: seq<ElemPos>, c: Forest, k: nat, lead: string, t: Forest, trail: string,
      par: nat, p: nat)
    requires c.Cons? && t.Cons? && k <= |c.gap| && Rep(a, c, par, p)
    requires c.id < |b| && b[c.id] == a[c.id].LinkNext(t.id) && Kept(a, b, c.kids)
    requires var q := p + BodyLen(c, TextLen(c.kids)) + k + |lead|;
      t.id < |b| && b[t.id] == Entry(t, q, TextLen(t.kids), par, Id(t.kids), Id(c.next))
          && Rep(b, t.kids, t.id, KidsPos(t, q))
    requires Moved(a, b, c.next, |lead| + BodyLen(t, TextLen(t.kids)) + |trail|)
    ensures Rep(b, InsertAfter(c, k, lead, t, trail), par, p)
    ensures TextLen(InsertAfter(c, k, lead, t, trail)) == TextLen(c) + |lead| + BodyLen(t, TextLen(t.kids)) + |trail|
  {

    hide Rep, TextLen, Kept, Moved;
    var n := |lead| + BodyLen(t, TextLen(t.kids)) + |trail|;
    var d := InsertAfter(c, k, lead, t, trail);
    RepCons(a, c, par, p);
    KeptRep(a, b, c.kids, c.id, KidsPos(c, p));
    MovedRep(a, b, c.next, par, NextPos(c, p, TextLen(c.kids)), n);
    var q := NextPos(d, p, TextLen(c.kids));
    assert NextPos(d.next, q, TextLen(t.kids)) == NextPos(c, p, TextLen(c.kids)) + n;
    RepCons(b, d.next, par, q);
    RepCons(b, d, par, p);
    TextLenCons(c);
    TextLenCons(d);
    TextLenCons(d.next);
  }

  lemma InsertFirstRep(a: seq<ElemPos>, b: seq<ElemPos>, c: Forest, k: nat, lead: string, t: Forest, trail: string,
      par: nat, p: nat)
    requires c.Cons? && !c.empty && t.Cons? && k <= |c.head| && Rep(a, c, par, p)
    requires var n := |lead| + BodyLen(t, TextLen(t.kids)) + |trail|;
      c.id < |b| && b[c.id] == a[c.id].LinkChild(t.id).AdjustEnd(n) && Moved(a, b, c.kids, n) && Moved(a, b, c.next, n)
    requires var q := p + OpenLen(c) + k + |lead|;
      t.id < |b| && b[t.id] == Entry(t, q, TextLen(t.kids), c.id, Id(t.kids), Id(c.kids))
          && Rep(b, t.kids, t.id, KidsPos(t, q))
    ensures Rep(b, InsertFirst(c, k, lead, t, trail), par, p)
    ensures TextLen(InsertFirst(c, k, lead, t, trail)) == TextLen(c) + |lead| + BodyLen(t, TextLen(t.kids)) + |trail|
  {

    hide Rep, TextLen, Kept, Moved;
    var n := |lead| + BodyLen(t, TextLen(t.kids)) + |trail|;
    var d := InsertFirst(c, k, lead, t, trail);
    RepCons(a, c, par, p);
    MovedRep(a, b, c.kids, c.id, KidsPos(c, p), n);
    MovedRep(a, b, c.next, par, NextPos(c, p, TextLen(c.kids)), n);
    TextLenCons(c);
    TextLenCons(d);
    TextLenCons(d.kids);
    assert NextPos(d.kids, KidsPos(d, p), TextLen(t.kids)) == KidsPos(c, p) + n;
    assert NextPos(d, p, TextLen(d.kids)) == NextPos(c, p, TextLen(c.kids)) + n;
    RepCons(b, d.kids, c.id, KidsPos(d, p));
    RepCons(b, d, par, p);
  }

  /** The empty element opened up: `n` characters are added in all. */
  lemma SplitDataRep(a: seq<ElemPos>, b: seq<ElemPos>, c: Forest, name: string, data: string, par: nat, p: nat)
    requires c.Cons? && c.empty && c.kids.Nil? && c.head == "" && c.close == "" && Rep(a, c, par, p)
    requires var n := |data| + |name| + 2;
      c.id < |b| && b[c.id] == a[c.id].PreSplit(1 + |name|).AdjustEnd(n) && Moved(a, b, c.next, n)
    ensures Rep(b, SplitData(c, name, data), par, p)
    ensures TextLen(SplitData(c, name, data)) == TextLen(c) + |data| + |name| + 2
  {

    hide Rep, TextLen, Kept, Moved;
    var n := |data| + |name| + 2;
    var d := SplitData(c, name, data);
    RepCons(a, c, par, p);
    RepNil(b, c.id, KidsPos(d, p));
    MovedRep(a, b, c.next, par, NextPos(c, p, 0), n);
    TextLenCons(c);
    TextLenCons(d);
    assert NextPos(d, p, 0) == NextPos(c, p, 0) + n;
    RepCons(b, d, par, p);
  }

  lemma InsertSplitRep(a: seq<ElemPos>, b: seq<ElemPos>, c: Forest, name: string, lead: string, t: Forest,
      trail: string, par: nat, p: nat)
    requires c.Cons? && c.empty && c.kids.Nil? && c.head == "" && c.close == "" && t.Cons? && Rep(a, c, par, p)
    requires var n := |lead| + BodyLen(t, TextLen(t.kids)) + |trail| + |name| + 4;
      c.id < |b| && b[c.id] == a[c.id].PreSplit(1 + |name|).LinkChild(t.id).AdjustEnd(n) && Moved(a, b, c.next, n)
    requires var q := p + OpenLen(c) + 1 + |lead|;
      t.id < |b| && b[t.id] == Entry(t, q, TextLen(t.kids), c.id, Id(t.kids), 0) && Rep(b, t.kids, t.id, KidsPos(t, q))
    ensures Rep(b, InsertSplit(c, name, lead, t, trail), par, p)
    ensures TextLen(InsertSplit(c, name, lead, t, trail)) == TextLen(c) + |lead| + BodyLen(t,
        TextLen(t.kids)) + |trail| + |name| + 4
  {

    hide Rep, TextLen, Kept, Moved;
    var n := |lead| + BodyLen(t, TextLen(t.kids)) + |trail| + |name| + 4;
    var d := InsertSplit(c, name, lead, t, trail);
    assert d.kids == t.(gap := trail, next := Nil) by { assert trail + "" == trail; }
    assert d.head == CRLF + lead;
    RepCons(a, c, par, p);
    var q := KidsPos(d, p);
    RepNil(b, c.id, NextPos(d.kids, q, TextLen(t.kids)));
    MovedRep(a, b, c.next, par, NextPos(c, p, 0), n);
    TextLenCons(c);
    TextLenCons(d);
    TextLenCons(d.kids);
    assert NextPos(d, p, TextLen(d.kids)) == NextPos(c, p, 0) + n;
    RepCons(b, d.kids, c.id, q);
    RepCons(b, d, par, p);
  }

  lemma WithHeadRep(a: seq<ElemPos>, b: seq<ElemPos>, c: Forest, data: string, par: nat, p: nat)
    requires c.Cons? && !c.empty && c.kids.Nil? && Rep(a, c, par, p)
    requires c.id < |b| && b[c.id] == a[c.id].AdjustEnd(|data| - |c.head|) && Moved(a, b, c.next, |data| - |c.head|)
    ensures Rep(b, c.(head := data), par, p) && TextLen(c.(head := data)) == TextLen(c) + |data| - |c.head|
  {

    hide Rep, TextLen, Kept, Moved;
    var d := c.(head := data);
    RepCons(a, c, par, p);
    RepNil(b, c.id, KidsPos(d, p));
    MovedRep(a, b, c.next, par, NextPos(c, p, 0), |data| - |c.head|);
    TextLenCons(c);
    TextLenCons(d);
    assert NextPos(d, p, 0) == NextPos(c, p, 0) + (|data| - |c.head|);
    RepCons(b, d, par, p);
  }

  lemma WithTagRep(a: seq<ElemPos>, b: seq<ElemPos>, c: Forest, tag: string, par: nat, p: nat)
    requires c.Cons? && Rep(a, c, par, p)
    requires var n := |tag| - |c.tag|;
      c.id < |b| && b[c.id] == a[c.id].(startR := a[c.id].startR + n).AdjustEnd(n) && Moved(a, b, c.kids, n)
          && Moved(a, b, c.next, n)
    ensures Rep(b, c.(tag := tag), par, p) && TextLen(c.(tag := tag)) == TextLen(c) + |tag| - |c.tag|
  {

    hide Rep, TextLen, Kept, Moved;
    var n := |tag| - |c.tag|;
    var d := c.(tag := tag);
    RepCons(a, c, par, p);
    MovedRep(a, b, c.kids, c.id, KidsPos(c, p), n);
    MovedRep(a, b, c.next, par, NextPos(c, p, TextLen(c.kids)), n);
    TextLenCons(c);
    TextLenCons(d);
    RepCons(b, d, par, p);
  }

  lemma RemoveNextRep(a: seq<ElemPos>, b: seq<ElemPos>, c: Forest, k: nat, par: nat, p: nat)
    requires c.Cons? && c.next.Cons? && k <= |c.next.gap| && Rep(a, c, par, p)
    requires c.id < |b| && b[c.id] == a[c.id].LinkNext(Id(c.next.next)) && Kept(a, b, c.kids)
    requires Moved(a, b, c.next.next, -(BodyLen(c.next, TextLen(c.next.kids)) + k))
    ensures Rep(b, RemoveNext(c, k), par, p)
    ensures TextLen(RemoveNext(c, k)) == TextLen(c) - BodyLen(c.next, TextLen(c.next.kids)) - k
  {

    hide Rep, TextLen, Kept, Moved;
    var r := c.next;
    var n := BodyLen(r, TextLen(r.kids)) + k;
    var d := RemoveNext(c, k);
    var rp := NextPos(c, p, TextLen(c.kids));
    RepCons(a, c, par, p);
    RepCons(a, r, par, rp);
    KeptRep(a, b, c.kids, c.id, KidsPos(c, p));
    MovedRep(a, b, r.next, par, NextPos(r, rp, TextLen(r.kids)), -n);
    TextLenCons(c);
    TextLenCons(r);
    TextLenCons(d);
    RepCons(b, d, par, p);
  }

  lemma RemoveFirstRep(a: seq<ElemPos>, b: seq<ElemPos>, c: Forest, k: nat, par: nat, p: nat)
    requires c.Cons? && !c.empty && c.kids.Cons? && k <= |c.kids.gap| && Rep(a, c, par, p)
    requires var n := -(BodyLen(c.kids, TextLen(c.kids.kids)) + k);
      c.id < |b| && b[c.id] == a[c.id].LinkChild(Id(c.kids.next)).AdjustEnd(n) && Moved(a, b, c.kids.next, n)
          && Moved(a, b, c.next, n)
    ensures Rep(b, RemoveFirst(c, k), par, p)
    ensures TextLen(RemoveFirst(c, k)) == TextLen(c) - BodyLen(c.kids, TextLen(c.kids.kids)) - k
  {

    hide Rep, TextLen, Kept, Moved;
    var r := c.kids;
    var n := BodyLen(r, TextLen(r.kids)) + k;
    var d := RemoveFirst(c, k);
    var rp := KidsPos(c, p);
    RepCons(a, c, par, p);
    RepCons(a, r, c.id, rp);
    MovedRep(a, b, r.next, c.id, NextPos(r, rp, TextLen(r.kids)), -n);
    TextLenCons(r);
    assert NextPos(c, p, TextLen(c.kids)) == NextPos(d, p, TextLen(d.kids)) + n;
    MovedRep(a, b, c.next, par, NextPos(c, p, TextLen(c.kids)), -n);
    TextLenCons(c);
    TextLenCons(r);
    TextLenCons(d);
    RepCons(b, d, par, p);
  }
}
