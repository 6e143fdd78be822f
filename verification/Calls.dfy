/**
  The calls of the editor as steps from one document to the next: what each does to the
  tree and the position, and what it needs.
 */
module Calls {
  import opened Common
  import opened Scanner
  import opened Parser
  import opened Index
  import opened Layout
  import opened Gaps
  import opened Places
  import opened Sites
  import opened Attribs
  import opened States
  import opened Parsed
  import opened Paths
  import opened Locating
  import opened SubDocs
  import opened Escaping
  import opened Content
  import opened NewElems
  import opened Removals
  import opened Values

  /** A call.  `child` says that it is about the child position, not the main one. */
  datatype Call =
    | Find(name: string) | FindChild(name: string) | Into | OutOf | NoChild | NoMain | NoPos
    | Add(name: string, value: string, insert: bool, child: bool)
    | SetData(data: string, cdata: bool, child: bool)
    | SetAttrib(name: string, value: string, child: bool) | RemoveAttrib(name: string, child: bool)
    | Remove | RemoveChild
    | AddSub(text: string, insert: bool)

  /** A document between two calls. */
  datatype Snap = Snap(doc: string, a: seq<ElemPos>, free: nat, prolog: string, tree: Forest, par: nat, pos: nat,
      child: nat)

  /** Text, array and position fit together, and parsing the text again gives the same tree. */
  ghost predicate SnapOK(s: Snap) {
    && State(s.doc, s.a, s.free, s.prolog, s.tree) && PosOK(s.a, s.tree, s.par, s.pos, s.child)
    && Tidy(s.prolog, s.tree) && Agrees(s.doc, s.prolog, s.tree)
  }

  // ---- what each call does ----

  /** Only the position has changed. */
  predicate Moved(s: Snap, t: Snap) { t == s.(par := t.par, pos := t.pos, child := t.child) }

  ghost predicate FindStep(s: Snap, t: Snap, name: string, ok: bool) {
    var r := Search(s.tree, s.par, s.pos, name);
    && ok == (r != 0)
    && if ok then r < |s.a| && t == s.(par := s.a[r].parent, pos := r, child := 0) else t == s
  }

  /** Without a main position the first element is taken for it. */
  ghost predicate FindChildStep(s: Snap, t: Snap, name: string, ok: bool) {
    var first := Search(s.tree, s.par, 0, "");
    var pos := if s.pos != 0 then s.pos else first;
    var r := Search(s.tree, pos, if s.pos == 0 && first != 0 then 0 else s.child, name);
    && ok == (r != 0) && Moved(s, t)
    && (ok ==> r < |s.a| && t.child == r && t.pos == s.a[r].parent && t.pos < |s.a| && t.par == s.a[t.pos].parent)
    && (!ok ==> if s.pos == 0 && first != 0 then first < |s.a|
        && t == s.(par := s.a[first].parent, pos := first, child := 0) else t == s)
  }

  predicate IntoStep(s: Snap, t: Snap, ok: bool) {
    ok == (s.pos != 0) && t == if ok then s.(par := s.pos, pos := s.child, child := 0) else s
  }

  predicate OutStep(s: Snap, t: Snap, ok: bool) {
    ok == (s.par != 0) && if ok then s.par < |s.a| && t == s.(par := s.a[s.par].parent, pos := s.par, child := s.pos)
        else t == s
  }

  /** A new element stands beside the position, or is the root. */
  ghost predicate AddStep(s: Snap, t: Snap, name: string, value: string, insert: bool, child: bool, ok: bool,
      site: Site) {
    && ok == (if child then s.pos != 0 else s.par != 0 || s.tree.Nil?)
    && (!ok ==> t == s)
    && (ok ==> t.free == s.free + 1 && t.par == s.par && if child then t.pos == s.pos && t.child == s.free
        else t.pos == s.free && t.child == 0)
    && (ok && s.tree.Cons? ==>
          && SiteOK(site, s.tree) && (site.Behind? ==> site.k <= |site.c.gap|)
          && (site.Within? ==> site.k <= |site.c.head|)
          && t.tree == Planted(site, NewElem(s.free, name, Escape(value, false)), CRLF) && t.prolog == s.prolog
          && Under(site) == (if child then s.pos else s.par)
          && Beside(s.a, Under(site), if child then s.child else s.pos, insert, if site.Behind? then site.c.id else 0))
    && (ok && s.tree.Nil? ==>
          && (insert ==> s.doc != "")
          && var n := Skip(s.doc, if insert then 1 else |s.doc|);
             t.prolog == s.doc[..n] && t.tree == NewRoot(s.free, name, Escape(value, false), s.doc[n..]))
    && (ok ==> TextStep(s, t, name, value, insert, child, site))
  }

  /** The text of the element, with a line break, stands where the editor puts new elements. */
  ghost predicate TextStep(s: Snap, t: Snap, name: string, value: string, insert: bool, child: bool, site: Site) {
    var elem := if value == "" then "<" + name + "/>\r\n"
      else "<" + name + ">" + Escape(value, false) + "</" + name + ">\r\n";
    if s.tree.Cons? then
      && CtxOK(site.x) && site.c.Cons?
      && TextAdded(s.doc, s.a, if child then s.pos else s.par, if child then s.child else s.pos, insert,
           SiteAt(site, |s.prolog|), elem, TagName(site.c), t.doc)
    else
      var n := |t.prolog|;
      && (insert ==> s.doc != "") && UpToTag(s.doc, if insert then 1 else |s.doc|, n) && n <= |s.doc|
      && t.doc == s.doc[..n] + elem + s.doc[n..]
  }

  /** Text, entries and tree have changed, nothing else. */
  predicate Edited(s: Snap, t: Snap) { t == s.(doc := t.doc, a := t.a, tree := t.tree) }

  /** The element a call is about. */
  function Target(s: Snap, child: bool): nat { if child then s.child else s.pos }

  /** A childless element has new content. */
  ghost predicate DataStep(s: Snap, t: Snap, data: string, cdata: bool, child: bool, ok: bool, x: Ctx) {
    var c := States.Find(s.tree, Target(s, child));
    && ok == (c.Cons? && c.kids.Nil?) && (!ok ==> t == s)
    && (ok ==> CtxOK(x) && s.tree == Fill(x, c) && t.tree == Fill(x, WithData(c, Data(data, cdata))) && Edited(s, t))
  }

  /** One attribute has a new value, the others have kept theirs. */
  ghost predicate AttribStep(s: Snap, t: Snap, name: string, value: string, child: bool, ok: bool, x: Ctx) {
    var i := Target(s, child);
    && ok == (i != 0 && s.pos != 0) && (!ok ==> t == s)
    && (ok ==>
          var c := States.Find(s.tree, i);
          && CtxOK(x) && c.Cons? && s.tree == Fill(x, c) && Edited(s, t)
          && t.tree == Fill(x, c.(tag := SetTag(c.tag, name, Escape(value, true))))
          && States.Find(t.tree, i).Cons?
          && forall other :: ValidName(other) ==>
               AttrOf(States.Find(t.tree, i).tag, other) == if other == name then Some(Escape(value, true))
                   else AttrOf(c.tag, other))
  }

  /** One attribute is gone, the others have kept their values. */
  ghost predicate CutStep(s: Snap, t: Snap, name: string, child: bool, ok: bool, x: Ctx) {
    var i := Target(s, child);
    var c := States.Find(s.tree, i);
    && ok == (i != 0 && s.pos != 0 && c.Cons? && AttrOf(c.tag, name).Some?) && (!ok ==> t == s)
    && (ok ==>
          && CtxOK(x) && c.Cons? && s.tree == Fill(x, c) && Edited(s, t)
          && t.tree == Fill(x, c.(tag := CutTag(c.tag, name)))
          && States.Find(t.tree, i).Cons?
          && forall other :: ValidName(other) ==>
               AttrOf(States.Find(t.tree, i).tag, other) == if other == name then None else AttrOf(c.tag, other))
  }

  /** The element at the position is gone; the one before it, or none, is the new position. */
  ghost predicate RemoveStep(s: Snap, t: Snap, ok: bool, y: Ctx, c: Forest, k: nat) {
    && ok == (s.pos != 0) && (!ok ==> t == s)
    && (ok ==>
          && t.free == s.free && t.par == s.par && t.child == 0
          && Removed(s.tree, s.prolog, t.tree, t.prolog, s.par, s.pos, t.pos, y, c, k)
          && s.pos < |s.a| && TextRemoved(s.doc, s.a[s.pos], k, t.doc))
  }

  ghost predicate RemoveChildStep(s: Snap, t: Snap, ok: bool, y: Ctx, c: Forest, k: nat) {
    && ok == (s.child != 0) && (!ok ==> t == s)
    && (ok ==>
          && t.free == s.free && t.par == s.par && t.pos == s.pos
          && Removed(s.tree, s.prolog, t.tree, t.prolog, s.pos, s.child, t.child, y, c, k)
          && s.child < |s.a| && TextRemoved(s.doc, s.a[s.child], k, t.doc))
  }

  /** A subdocument stands under the main position, or, if the parser does not accept it
      there, nothing in use has changed. */
  ghost predicate SubStep(s: Snap, t: Snap, text: string, insert: bool, ok: bool, site: Site)
    requires SkipEnds(text)
  {
    var frag := Fragment(text);
    && ok == (s.pos != 0 && s.pos < |s.a| && s.child < |s.a|
        && SubResult(s.doc, s.a, s.tree, s.free, s.pos, s.child, insert, frag).Elem?)
    && (!ok ==> t == s.(a := t.a) && Below(s.a, t.a, s.free))
    && (ok ==>
          var x := ParseElem(frag, 0, s.free);
          && x.Elem? && x.cell.Cons? && x.next <= |frag|
          && SiteOK(site, s.tree) && (site.Behind? ==> site.k <= |site.c.gap|)
          && (site.Within? ==> site.k <= |site.c.head|)
          && t.tree == Planted(site, x.cell, frag[x.next..]) && t.prolog == s.prolog && t.free == x.ids
          && Under(site) == s.pos && Beside(s.a, s.pos, s.child, insert, if site.Behind? then site.c.id else 0)
          && TextAdded(s.doc, s.a, s.pos, s.child, insert, SiteAt(site, |s.prolog|), frag, TagName(site.c), t.doc)
          && t.par == s.par && t.pos == s.pos && t.child == s.free)
  }

  /** `c` leads from `s` to `t` with result `ok`. */
  ghost predicate Steps(s: Snap, c: Call, t: Snap, ok: bool) {
    match c
    case Find(name) => FindStep(s, t, name, ok)
    case FindChild(name) => FindChildStep(s, t, name, ok)
    case Into => IntoStep(s, t, ok)
    case OutOf => OutStep(s, t, ok)
    case NoChild => ok && t == s.(child := 0)
    case NoMain => ok && t == s.(pos := 0, child := 0)
    case NoPos => ok && t == s.(par := 0, pos := 0, child := 0)
    case Add(name, value, insert, child) => exists site :: AddStep(s, t, name, value, insert, child, ok, site)
    case SetData(data, cdata, child) => exists x :: DataStep(s, t, data, cdata, child, ok, x)
    case SetAttrib(name, value, child) => exists x :: AttribStep(s, t, name, value, child, ok, x)
    case RemoveAttrib(name, child) => exists x :: CutStep(s, t, name, child, ok, x)
    case Remove => exists y, f, k :: RemoveStep(s, t, ok, y, f, k)
    case RemoveChild => exists y, f, k :: RemoveChildStep(s, t, ok, y, f, k)
    case AddSub(text, insert) => SkipEnds(text) && exists site :: SubStep(s, t, text, insert, ok, site)
  }

  // ---- what each call needs ----

  /** Names are names; a first root is inserted only where a tag may stand; what is put in as
      a subdocument is one closed element with plain start tags, or not accepted. */
  ghost predicate Legal(s: Snap, c: Call) {
    match c
    case Add(name, _, insert, child) => ValidName(name) && (insert && !child && s.par == 0 && s.tree.Nil?
        ==> InsertsRoot(s.doc))
    case SetAttrib(name, _, _) => ValidName(name)
    case RemoveAttrib(name, _) => ValidName(name)
    case AddSub(text, insert) => SkipEnds(text) && (WholeRoot(Fragment(text)) || SubLegal(s, Fragment(text), insert))
    case _ => true
  }

  /** There is text, and in front of the place there is no tag and no part of one. */
  predicate InsertsRoot(doc: string) { doc != "" && GapOK(doc[..Skip(doc, 1)], 0) }

  /** One closed element, with plain start tags, wherever it is put. */
  ghost predicate WholeRoot(text: string) { forall id: nat :: PlainRoot(text, id) }

  /** The parser comes to an end on the text where it would stand, and accepts nothing else. */
  ghost predicate SubLegal(s: Snap, frag: string, insert: bool) {
    s.pos != 0 && s.pos < |s.a| && s.child < |s.a| ==>
      var x := SubResult(s.doc, s.a, s.tree, s.free, s.pos, s.child, insert, frag);
      x != ElemEndless && (x.Elem? ==> PlainRoot(frag, s.free))
  }

  ghost predicate PlainRoot(text: string, id: nat) { OneRoot(text, id) && Plain(ParseElem(text, 0, id).cell) }
}
