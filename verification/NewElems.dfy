/**
  The element that `x_AddElem` writes, its entry, and the links to it.
 */
module NewElems {
  import opened Common
  import opened Scanner
  import opened Parser
  import opened Index
  import opened Edits
  import opened Layout
  import opened Gaps
  import opened Places
  import opened Surgery
  import opened Sites
  import opened States
  import opened Escaping
  import opened Content
  import opened Paths

  /** `<NAME/>`, or `<NAME>text</NAME>`. */
  function NewElem(i: nat, name: string, text: string): (t: Forest)
    ensures t.Cons? && t.id == i
  {
    if text == "" then Cons(i, "<" + name, true, "", Nil, "", "", Nil)
    else Cons(i, "<" + name, false, text, Nil, EndTagOf(name), "", Nil)
  }

  /** The element as the root, with what follows it. */
  function NewRoot(i: nat, name: string, text: string, rest: string): (t: Forest)
    ensures t.Cons? && t.id == i
  {
    var t := NewElem(i, name, text);
    t.(gap := CRLF + rest)
  }

  lemma NewRootIs(i: nat, name: string, text: string, rest: string)
    ensures var t := NewElem(i, name, text); NewRoot(i, name, text, rest) == t.(gap := CRLF + rest)
  {
  }

  /** The offsets as `x_AddElem` computes them from lengths. */
  function NewEntry(p: int, nLenName: nat, nLenValue: nat, parent: nat, next: nat): ElemPos {
    if nLenValue == 0 then ElemPos(p, p + nLenName + 2, p + nLenName + 1, p + nLenName + 2, parent, 0, next)
    else
      var startR := p + nLenName + 1;
      ElemPos(p, startR, startR + nLenValue + 1, startR + nLenValue + 1 + nLenName + 2, parent, 0, next)
  }

  lemma NewEntryIs(i: nat, name: string, text: string, p: nat, parent: nat, next: nat)
    ensures Entry(NewElem(i, name, text), p, 0, parent, 0, next) == NewEntry(p, |name|, |text|, parent, next)
  {
  }

  /** The text, with the line break after it. */
  function ElemText(name: string, text: string): string {
    if text == "" then "<" + name + "/>\r\n" else "<" + name + ">" + text + "</" + name + ">\r\n"
  }

  /** In terms of the value before it is escaped. */
  lemma ElemTextOf(name: string, value: string)
    ensures ElemText(name, Escape(value, false)) ==
      if value == "" then "<" + name + "/>\r\n" else "<" + name + ">" + Escape(value, false) + "</" + name + ">\r\n"
  {
    hide Escape;
    EscapeHarmless(value, false);
    EscapeMeans("", ' ', false);
  }

  lemma ElemTextIs(i: nat, name: string, text: string)
    ensures ElemText(name, text) == Body(NewElem(i, name, text)) + CRLF
  {
    var t := NewElem(i, name, text);
    assert Text(t.kids) == "";
    if text == "" {
      assert "<" + name + "/>\r\n" == (("<" + name) + "/>") + CRLF;
    } else {
      var front := "<" + name + ">";
      assert OpenText(t) == front;
      assert "" + EndTagOf(name) == EndTagOf(name);
      assert Body(t) == front + (text + EndTagOf(name));
      assert EndTagOf(name) == "</" + name + ">";
      assert ElemText(name, text) == front + (text + ("</" + name + ">" + CRLF));
    }
  }

  /** The new element is well-formed whatever valid name and text it is given. */
  lemma NewElemOK(i: nat, name: string, value: string)
    requires ValidName(name) && i > 0
    ensures var t := NewElem(i, name, Escape(value, false));
      && t.Cons? && t.id == i && t.kids.Nil? && t.next.Nil? && WFTree(t) && Fresh(t, i, i + 1) && Plain(t)
  {
    hide Escape, GapOK, ValidName, CloseOK, TagOK, TagName, TokenName;
    var t := NewElem(i, name, Escape(value, false));
    StartTagOK(t, name);
    EndTagOK(name);
    ValidNotBracket(name);
    TextGap(value);
    NameIsPlain(name);
    NewIds(t);
  }

  lemma ValidNotBracket(name: string)
    requires ValidName(name)
    ensures name != ">"
  {
    assert name == ">" ==> !IsWordChar(name[0]);
  }

  lemma NewIds(t: Forest)
    requires t.Cons? && t.kids.Nil? && t.next.Nil?
    ensures Ids(t) == {t.id} && (t.id > 0 ==> Distinct(t))
  {
  }

  /** Below `free` only entry `k` has been set, to `e`, and the entry of index `free` to `n`. */
  ghost predicate Entered(a: seq<ElemPos>, a1: seq<ElemPos>, free: nat, k: nat, e: ElemPos, n: ElemPos) {
    free <= |a| <= |a1| && free < |a1| && k < |a1| && (forall j :: 0 <= j < free && j != k ==> a1[j] == a[j])
        && a1[k] == e && a1[free] == n
  }

  /** The cell's entry linked to the new one, and what it was linked to before. */
  function LinkedTo(s: Site, e: ElemPos, i: nat): ElemPos { if s.Behind? then e.LinkNext(i) else e.LinkChild(i) }

  function OldNext(a: seq<ElemPos>, s: Site): nat
    requires s.c.Cons? && s.c.id < |a|
  {
    if s.Behind? then a[s.c.id].next else a[s.c.id].child
  }

  lemma LinkedToIs(s: Site, a: seq<ElemPos>, i: nat)
    requires s.c.Cons? && s.c.id < |a|
    ensures LinkedTo(s, a[s.c.id], i) == if s.Behind? then a[s.c.id].LinkNext(i) else a[s.c.id].LinkChild(i)
    ensures LinkedTo(s, a[s.c.id], i).startL == a[s.c.id].startL
    ensures OldNext(a, s) == if s.Behind? then a[s.c.id].next else a[s.c.id].child
  {
  }

  lemma UnderIs(s: Site)
    requires CtxOK(s.x) && s.c.Cons?
    ensures Under(s) == if s.Behind? then Par(s.x) else s.c.id
  {
  }

  lemma SameEntry(s: Site, e: ElemPos, i: nat)
    requires s.c.Cons? && !s.Opened?
    ensures Marked(s, e, i) == LinkedTo(s, e, i)
  {
  }

  /** The parent's entry, linked and pre-adjusted. */
  lemma OpenedEntry(a: seq<ElemPos>, a1: seq<ElemPos>, free: nat, s: Site, n: ElemPos)
    requires s.c.Cons? && s.Opened? && s.c.id < |a| && s.c.id < free
        && Entered(a, a1, free, s.c.id, LinkedTo(s, a[s.c.id], free), n)
    ensures s.c.id < |a1|
    ensures var m := |TagName(s.c)| + 1;
      Entered(a, a1[s.c.id := a1[s.c.id].PreSplit(m)], free, s.c.id, Marked(s, a[s.c.id], free), n)
  {
    hide TagName, Marked, LinkedTo;
    MarkedIs(s, a[s.c.id], free);
    LinkedToIs(s, a, free);
    EnteredAgain(a, a1, free, s.c.id, LinkedTo(s, a[s.c.id], free), Marked(s, a[s.c.id], free), n);
  }

  lemma EnteredAgain(a: seq<ElemPos>, a1: seq<ElemPos>, free: nat, k: nat, e: ElemPos, e': ElemPos, n: ElemPos)
    requires Entered(a, a1, free, k, e, n) && k < free
    ensures k < |a1| && a1[k] == e && Entered(a, a1[k := e'], free, k, e', n)
  {
  }

  lemma EnteredIs(a: seq<ElemPos>, a1: seq<ElemPos>, free: nat, k: nat, e: ElemPos, n: ElemPos)
    requires Entered(a, a1, free, k, e, n)
    ensures free <= |a| <= |a1| && free < |a1| && k < |a1| && (forall j :: 0 <= j < free && j != k ==> a1[j] == a[j])
        && a1[k] == e && a1[free] == n
  {
  }

  /** The entries set by `x_AddElem` are those that the walk needs. */
  lemma EnteredReady(doc: string, a: seq<ElemPos>, free: nat, prolog: string, tree: Forest, s: Site, name: string,
      text: string, a1: seq<ElemPos>)
    requires State(doc, a, free, prolog, tree) && SiteOK(s, tree) && s.c.id < |a|
    requires CtxOK(s.x) && s.c.Cons?
    requires Entered(a, a1, free, s.c.id, Marked(s, a[s.c.id], free),
                     NewEntry(StartAt(s, |prolog|), |name|, |text|, Under(s), OldNext(a, s)))
    ensures SiteReady(a, a1, s, NewElem(free, name, text), |prolog|, free + 1)
  {
    hide *;
    SiteIs(s, tree);
    var t := NewElem(free, name, text);
    var q := StartAt(s, |prolog|);
    StateIs(doc, a, free, prolog, tree);
    ElemAt(doc, a, free, prolog, tree, s.x, s.c);
    NewShape(free, name, text);
    OlderIs(s);
    LinkedToIs(s, a, free);
    NewEntryIs(free, name, text, q, Under(s), Id(Older(s)));
    NoKidsRep(a1, t, q);
    EnteredIs(a, a1, free, s.c.id, Marked(s, a[s.c.id], free),
              NewEntry(StartAt(s, |prolog|), |name|, |text|, Under(s), OldNext(a, s)));
    LinkedReady(doc, a, free, prolog, s, t, a1, free + 1);
  }

  lemma NewShape(i: nat, name: string, text: string)
    ensures var t := NewElem(i, name, text);
      t.Cons? && t.id == i && t.kids.Nil? && t.next.Nil? && Id(t.kids) == 0 && TextLen(t.kids) == 0
  {
  }

  lemma OlderIs(s: Site)
    requires s.c.Cons?
    ensures Older(s) == if s.Behind? then s.c.next else s.c.kids
  {
  }

  lemma NoKidsRep(a: seq<ElemPos>, t: Forest, q: nat)
    requires t.Cons? && t.kids.Nil?
    ensures Rep(a, t.kids, t.id, KidsPos(t, q))
  {
  }

  lemma StartIs(s: Site, base: nat, empty: bool, start: int, offset: int)
    requires CtxOK(s.x) && s.c.Cons? && start == SiteAt(s, base) + Drop(s) && empty == s.Opened?
        && offset == (if empty then start + 2 else start)
    ensures offset == StartAt(s, base) && Drop(s) == (if empty then 1 else 0)
    ensures SiteAt(s, base) == if empty then offset - 3 else offset
  {
    hide SiteAt;
  }

  lemma SiteTextIs(s: Site, ins: string)
    requires s.c.Cons?
    ensures SiteText(s, ins) == if s.Opened? then ">" + (CRLF + (ins + ("</" + TagName(s.c)))) else ins
  {
    hide TagName;
  }

  /** Linking and pre-adjusting, in either order. */
  lemma MarkedIs(s: Site, e: ElemPos, i: nat)
    requires s.c.Cons?
    ensures s.Behind? ==> Marked(s, e, i) == e.LinkNext(i)
    ensures s.Within? ==> Marked(s, e, i) == e.LinkChild(i)
    ensures s.Opened? ==> Marked(s, e, i) == e.LinkChild(i).PreSplit(|TagName(s.c)| + 1)
    ensures e.LinkChild(i).startL == e.startL && Marked(s, e, i).parent == e.parent
  {
    hide TagName;
  }

  lemma EnteredParents(a: seq<ElemPos>, a1: seq<ElemPos>, free: nat, s: Site, p: int, n: nat, v: nat, next: nat,
      both: set<nat>, ends: set<nat>, shift: int)
    requires CtxOK(s.x) && s.c.Cons? && s.c.id < free <= |a|
        && Entered(a, a1, free, s.c.id, Marked(s, a[s.c.id], free), NewEntry(p, n, v, Under(s), next))
    ensures free < |a1| && SameParents(a, Shifted(a1, both, ends, shift), free)
        && Shifted(a1, both, ends, shift)[free].parent == Under(s)
  {
    hide Marked;
    MarkedIs(s, a[s.c.id], free);
    assert SameParents(a, a1, free);
    ShiftedParents(a, a1, free, both, ends, shift);
  }

  lemma RootEntered(doc: string, a: seq<ElemPos>, free: nat, prolog: string, a1: seq<ElemPos>, p: nat, name: string,
      text: string)
    requires Laid(doc, a, free, prolog, Nil) && |a| <= |a1| && free < |a1| && a1[0] == a[0].LinkChild(free)
    requires a1[free] == NewEntry(p, |name|, |text|, 0, a[0].child)
    ensures a1[free].parent == 0 && SameDoc(a, a1, free) && a1[free] == Entry(NewElem(free, name, text), p, 0, 0, 0, 0)
  {
    NewEntryIs(free, name, text, p, 0, 0);
  }

  lemma RootParent(a1: seq<ElemPos>, i: nat, both: set<nat>, ends: set<nat>, n: int)
    requires i < |a1| && a1[i].parent == 0
    ensures Shifted(a1, both, ends, n)[i].parent == 0
  {
  }

  lemma CellOwnId(c: Forest)
    requires c.Cons?
    ensures c.id in Ids(c)
  {
  }

  /** The end of the document's own entry is scratch. */
  lemma DocEnd(doc: string, a: seq<ElemPos>, free: nat, prolog: string, f: Forest, n: int)
    requires State(doc, a, free, prolog, f) && 0 < |a|
    ensures State(doc, a[0 := a[0].(endL := n)], free, prolog, f)
  {
    hide WFRoot, Text;
    ZeroFree(f);
    RepFrame(a, a[0 := a[0].(endL := n)], f, 0, |prolog|);
  }

  lemma EscapeEmpty()
    ensures Escape("", false) == ""
  {
  }

  /** Only the cell under which the new element goes may have to be opened up. */
  lemma SiteSplits(s: Site, tree: Forest, par: nat)
    requires SiteOK(s, tree) && Distinct(tree) && Under(s) == par
    requires var c := Find(tree, par); c.Cons? && c.empty ==> CanSplit(c)
    ensures s.Opened? ==> CanSplit(s.c)
  {
    hide CanSplit, Distinct, CutOK;
    if s.Opened? { FindFill(s.x, s.c); }
  }

  /** Positions stay good when the tree grows. */
  lemma KeptPos(doc: string, a: seq<ElemPos>, free: nat, prolog: string, f: Forest, b: seq<ElemPos>, g: Forest,
      par: nat, pos: nat, child: nat)
    requires State(doc, a, free, prolog, f) && PosOK(a, f, par, pos, child) && SameParents(a, b, free)
        && Ids(f) <= Ids(g)
    ensures PosOK(b, g, par, pos, child)
  {
    hide *;
    StateIs(doc, a, free, prolog, f);
    LaidBounds(doc, a, free, prolog, f);
    PosKept(a, b, free, f, g, par, pos, child);
  }

  lemma SkipEnd(doc: string)
    ensures Skip(doc, |doc|) == |doc|
  {
  }
}
