/**
  Whole runs: any sequence of navigation and edit calls that starts from the empty
  document keeps the position array in agreement with parsing the text again.
 */
module Editor {
  import opened Scanner
  import opened Parser
  import opened RoundTrip
  import opened Index
  import Edits
  import opened Layout
  import opened Gaps
  import opened Places
  import opened Sites
  import opened Attribs
  import opened States
  import opened Parsed
  import opened Paths
  import opened Locating
  import opened SubDocs
  import opened Escaping
  import opened Content
  import opened NewElems
  import opened Removals
  import opened Values
  import opened Order
  import opened MarkupDoc
  import opened Calls

  ghost function Now(m: Markup): Snap
    reads m
  {
    Snap(m.strDoc, m.aPos, m.iPosFree, m.prolog, m.tree, m.iPosParent, m.iPos, m.iPosChild)
  }

  lemma {:induction false} PlainFind(f: Forest, id: nat)
    requires Plain(f)
    ensures States.Find(f, id).Cons? ==> PlainTag(States.Find(f, id).tag)
  {
    hide PlainTag;
    if f.Cons? && f.id != id {
      PlainFind(f.kids, id);
      PlainFind(f.next, id);
    }
  }

  /** In a tidy document every element can be opened up, and every start tag is plain. */
  lemma TidyFind(prolog: string, f: Forest, id: nat)
    requires Tidy(prolog, f)
    ensures var c := States.Find(f, id); c.Cons? ==> PlainTag(c.tag) && CanSplit(c)
  {
    hide *;
    TidyIs(prolog, f);
    PlainFind(f, id);
    if States.Find(f, id).Cons? { PlainSplits(States.Find(f, id)); }
  }

  /** One call. */
  method Perform(m: Markup, c: Call) returns (ok: bool)
    requires m.Valid() && m.Tidied() && Legal(Now(m), c)
    modifies m
    ensures m.Valid() && m.Tidied() && Steps(old(Now(m)), c, Now(m), ok)
  {
    hide Steps, Legal, State, PosOK, Tidy;
    match c
    case Find(_) => ok := PerformMove(m, c);
    case FindChild(_) => ok := PerformMove(m, c);
    case Into => ok := PerformMove(m, c);
    case OutOf => ok := PerformMove(m, c);
    case NoChild => ok := PerformMove(m, c);
    case NoMain => ok := PerformMove(m, c);
    case NoPos => ok := PerformMove(m, c);
    case Add(name, value, insert, child) => ok := PerformAdd(m, name, value, insert, child);
    case SetData(data, cdata, child) => ok := PerformData(m, data, cdata, child);
    case SetAttrib(name, value, child) => ok := PerformAttrib(m, name, value, child);
    case RemoveAttrib(name, child) => ok := PerformCut(m, name, child);
    case Remove => ok := PerformRemove(m, c);
    case RemoveChild => ok := PerformRemove(m, c);
    case AddSub(text, insert) => ok := PerformSub(m, text, insert);
  }

  predicate IsMove(c: Call) { c.Find? || c.FindChild? || c.Into? || c.OutOf? || c.NoChild? || c.NoMain? || c.NoPos? }

  method PerformMove(m: Markup, c: Call) returns (ok: bool)
    requires m.Valid() && m.Tidied() && IsMove(c)
    modifies m
    ensures m.Valid() && m.Tidied() && Steps(old(Now(m)), c, Now(m), ok)
  {
    hide State, PosOK, Tidy, Search;
    ok := true;
    match c
    case Find(name) => ok := m.FindElem(name);
    case FindChild(name) => ok := m.FindChildElem(name);
    case Into => ok := m.IntoElem();
    case OutOf => ok := m.OutOfElem();
    case NoChild => m.ResetChildPos();
    case NoMain => m.ResetMainPos();
    case NoPos => m.ResetPos();
  }

  /** The elements at the position can be opened up, and their start tags are plain. */
  lemma Ready(m: Markup)
    requires m.Valid() && m.Tidied()
    ensures forall id :: id in {m.iPosParent, m.iPos, m.iPosChild} ==>
      && (id == 0 || id in Ids(m.tree))
      && var c := States.Find(m.tree, id); (id != 0 ==> c.Cons?) && (c.Cons? ==> PlainTag(c.tag) && CanSplit(c))
    ensures m.iPosParent < |m.aPos| && m.iPos < |m.aPos| && m.iPosChild < |m.aPos|
    ensures m.iPosChild != 0 ==> m.aPos[m.iPosChild].parent == m.iPos
    ensures m.tree.Nil? ==> m.iPosParent == m.iPos == m.iPosChild == 0
  {
    hide *;
    m.ValidIs();
    m.TidiedIs();
    PosIn(m.aPos, m.tree, m.iPosParent, m.iPos, m.iPosChild);
    forall id | id in {m.iPosParent, m.iPos, m.iPosChild}
      ensures id == 0 || id in Ids(m.tree)
      ensures var c := States.Find(m.tree, id); (id != 0 ==> c.Cons?) && (c.Cons? ==> PlainTag(c.tag) && CanSplit(c))
    {
      TidyFind(m.prolog, m.tree, id);
      FoundIn(m.tree, id);
    }
  }

  lemma FoundIn(f: Forest, id: nat)
    ensures id in Ids(f) ==> States.Find(f, id).Cons?
  {
  }

  method PerformAdd(m: Markup, name: string, value: string, insert: bool, child: bool) returns (ok: bool)
    requires m.Valid() && m.Tidied() && Legal(Now(m), Add(name, value, insert, child))
    modifies m
    ensures m.Valid() && m.Tidied() && Steps(old(Now(m)), Add(name, value, insert, child), Now(m), ok)
  {
    hide State, PosOK, Tidy, GapOK, Escape, NewElem, NewRoot, Planted, Beside, Skip, SiteOK, Under, States.Find,
        CanSplit, PlainTag, ValidName, Ids, TextAdded, UpToTag, SiteAt;
    Ready(m);
    ghost var site;
    ghost var s := Now(m);
    ok, site := m.AddElem(name, value, insert, child);
    assert AddStep(s, Now(m), name, value, insert, child, ok, site);
  }

  method PerformData(m: Markup, data: string, cdata: bool, child: bool) returns (ok: bool)
    requires m.Valid() && m.Tidied()
    modifies m
    ensures m.Valid() && m.Tidied() && Steps(old(Now(m)), SetData(data, cdata, child), Now(m), ok)
  {
    hide State, PosOK, Tidy, Data, WithData, Fill, CtxOK, States.Find, CanSplit, PlainTag, Ids;
    Ready(m);
    ghost var x;
    ghost var s := Now(m);
    ok, x := m.SetDataAt(if child then m.iPosChild else m.iPos, data, cdata);
    assert DataStep(s, Now(m), data, cdata, child, ok, x);
  }

  method PerformAttrib(m: Markup, name: string, value: string, child: bool) returns (ok: bool)
    requires m.Valid() && m.Tidied() && Legal(Now(m), SetAttrib(name, value, child))
    modifies m
    ensures m.Valid() && m.Tidied() && Steps(old(Now(m)), SetAttrib(name, value, child), Now(m), ok)
  {
    hide State, PosOK, Tidy, Escape, SetTag, AttrOf, Fill, CtxOK, States.Find, CanSplit, PlainTag, ValidName, Ids;
    Ready(m);
    ghost var x;
    ghost var s := Now(m);
    ok, x := m.SetAttribAt(if child then m.iPosChild else m.iPos, name, value);
    assert AttribStep(s, Now(m), name, value, child, ok, x);
  }

  method PerformCut(m: Markup, name: string, child: bool) returns (ok: bool)
    requires m.Valid() && m.Tidied() && Legal(Now(m), RemoveAttrib(name, child))
    modifies m
    ensures m.Valid() && m.Tidied() && Steps(old(Now(m)), RemoveAttrib(name, child), Now(m), ok)
  {
    hide State, PosOK, Tidy, CutTag, AttrOf, Fill, CtxOK, States.Find, CanSplit, PlainTag, ValidName, Ids;
    Ready(m);
    ghost var x;
    ghost var s := Now(m);
    ok, x := m.RemoveAttribAt(if child then m.iPosChild else m.iPos, name);
    assert CutStep(s, Now(m), name, child, ok, x);
  }

  method PerformRemove(m: Markup, c: Call) returns (ok: bool)
    requires m.Valid() && m.Tidied() && (c.Remove? || c.RemoveChild?)
    modifies m
    ensures m.Valid() && m.Tidied() && Steps(old(Now(m)), c, Now(m), ok)
  {
    hide State, PosOK, Tidy, Removed, TextRemoved, Agrees, ParseElem, GapOK;
    ghost var y, f, k;
    ghost var s := Now(m);
    if c.Remove? {
      ok, y, f, k := m.RemoveElem();
      assert RemoveStep(s, Now(m), ok, y, f, k);
    } else {
      ok, y, f, k := m.RemoveChildElem();
      assert RemoveChildStep(s, Now(m), ok, y, f, k);
    }
  }

  lemma SubTexts(s: Snap, text: string, insert: bool)
    requires Legal(s, AddSub(text, insert))
    ensures SkipEnds(text) && (WholeRoot(Fragment(text)) || SubLegal(s, Fragment(text), insert))
  {
    hide WholeRoot, SubLegal, SkipEnds, Fragment;
  }

  /** What `AddSubDoc` needs. */
  lemma LegalSub(m: Markup, text: string, insert: bool, place: Site)
    requires m.Valid() && m.Tidied() && SkipEnds(text) && (WholeRoot(Fragment(text))
        || SubLegal(Now(m), Fragment(text), insert))
    requires m.iPos != 0 ==>
      && m.iPos < |m.aPos| && m.iPosChild < |m.aPos| && SiteOK(place, m.tree) && Under(place) == m.iPos
      && NewOffset(m.strDoc, m.aPos, m.iPos, m.iPosChild, insert) == SiteAt(place,
          |m.prolog|) + Drop(place) <= |m.strDoc|
      && (place.Opened? <==> m.aPos[m.iPos].IsEmptyElement())
    ensures m.iPos != 0 && m.iPos < |m.aPos| && m.iPosChild < |m.aPos| ==>
      var frag := Fragment(text);
      var x := SubResult(m.strDoc, m.aPos, m.tree, m.iPosFree, m.iPos, m.iPosChild, insert, frag);
      x != ElemEndless && (x.Elem? ==> PlainRoot(frag, m.iPosFree))
  {
    hide State, PosOK, Tidy, SubResult, SkipEnds, Fragment, PlainRoot, SiteOK, Under, NewOffset, SiteAt, Drop;
    if m.iPos != 0 && WholeRoot(Fragment(text)) {
      assert PlainRoot(Fragment(text), m.iPosFree);
      RootIsPlain(Fragment(text), m.iPosFree);
      SubAccepted(m.strDoc, m.aPos, m.iPosFree, m.prolog, m.tree, m.iPos, m.iPosChild, insert, Fragment(text), place);
    }
  }

  lemma RootIsPlain(text: string, id: nat)
    requires PlainRoot(text, id)
    ensures OneRoot(text, id) && ParseElem(text, 0, id).Elem? && Plain(ParseElem(text, 0, id).cell)
  {
    hide ParseElem, GapOK, Plain;
  }

  method PerformSub(m: Markup, text: string, insert: bool) returns (ok: bool)
    requires m.Valid() && m.Tidied() && Legal(Now(m), AddSub(text, insert))
    modifies m
    ensures m.Valid() && m.Tidied() && Steps(old(Now(m)), AddSub(text, insert), Now(m), ok)
  {
    hide State, PosOK, Tidy, Plain, OneRoot, ParseElem, SubResult, SkipEnds, Fragment, Planted, Beside, SiteOK, Under,
        States.Find, CanSplit, PlainTag, Ids, WholeRoot, TextAdded, SiteAt;
    Ready(m);
    ghost var s := Now(m);
    ghost var place := Opened(Top, m.tree);
    SubTexts(s, text, insert);
    if m.iPos != 0 {
      var before, offset;
      before, offset, place := m.LocateNew(m.iPos, m.iPosChild, insert);
    }
    LegalSub(m, text, insert, place);
    if m.iPos != 0 && m.iPos < |m.aPos| && m.iPosChild < |m.aPos|
        && SubResult(m.strDoc, m.aPos, m.tree, m.iPosFree, m.iPos, m.iPosChild, insert, Fragment(text)).Elem? {
      RootIsPlain(Fragment(text), m.iPosFree);
    }
    ghost var site;
    ok, site := m.AddSubDoc(text, insert);
    assert SubStep(s, Now(m), text, insert, ok, site);
  }

  /** A subdocument of one closed element is accepted under any element. */
  lemma SubAccepted(doc: string, a: seq<Index.ElemPos>, free: nat, prolog: string, tree: Forest, par: nat, rel: nat,
      insert: bool, text: string, s: Site)
    requires State(doc, a, free, prolog, tree) && SiteOK(s, tree) && Under(s) == par && par < |a| && rel < |a|
    requires NewOffset(doc, a, par, rel, insert) == SiteAt(s, |prolog|) + Drop(s) <= |doc|
        && (s.Opened? <==> a[par].IsEmptyElement())
    requires OneRoot(text, free)
    ensures SubResult(doc, a, tree, free, par, rel, insert, text).Elem?
  {
    hide *;
    SubIs(doc, a, free, prolog, tree, par, rel, insert, text, s);
    OneRootIs(text, free);
    var at := SiteAt(s, |prolog|);
    FragmentParses(text, free, Edits.Splice(doc, at, at + Drop(s), SiteText(s, text)), StartAt(s, |prolog|));
  }

  // ---- agreement ----

  /** Parsing the text of a document that agrees gives its tree, numbered in document order. */
  lemma ParsedAgain(doc: string, prolog: string, f: Forest)
    requires Agrees(doc, prolog, f) && doc == prolog + Text(f) && (f.Cons? ==> f.next.Nil?)
    ensures f.Cons? ==>
      ParseElem(doc, 0, 1).Elem? && ParseElem(doc, 0, 1).lead == prolog && ParsedTree(doc) == Renumber(f, 1)
    ensures f.Nil? ==> !ParseElem(doc, 0, 1).Elem?
  {
    hide ParseElem, Body;
    if f.Cons? {
      TextIs(f);
      TextEnd(prolog, Body(f), f.gap, Text(f.next));
      assert Text(f.next) == "";
    }
  }

  lemma TextEnd(p: string, b: string, g: string, n: string)
    requires n == ""
    ensures var w := b + (g + n);
      |p| + |b| <= |p + w| && (p + w)[|p| + |b|..] == g
  {
  }

  lemma AgreesEnds(doc: string, prolog: string, f: Forest)
    requires Tidy(prolog, f) && Agrees(doc, prolog, f) && doc == prolog + Text(f)
    ensures ParseElem(doc, 0, 1) != ElemEndless
  {
    hide ParseElem, GapOK, Plain;
    if f.Nil? {
      assert doc == prolog;
      EmptyEnds(doc);
    }
  }

  lemma EmptyEnds(doc: string)
    requires GapOK(doc, 0)
    ensures ParseElem(doc, 0, 1) == ElemError
  {
    hide GapOK, ParseElem;
    GapHas(doc, doc, 0);
    assert FindChar(doc, |doc|, '<') == |doc|;
    assert NextTag(doc, |doc|) == NoTag;
    ParseLoop.ElemErrors(doc, 0, 1);
  }

  /** The document parsed again: the same text in front, the same tree up to numbering, and
      the same four offsets for every element. */
  method Reparse(m: Markup) returns (again: Markup)
    requires m.Valid() && m.Tidied()
    ensures fresh(again) && again.Valid() && again.strDoc == m.strDoc && again.prolog == m.prolog
    ensures again.tree == Renumber(m.tree, 1)
    ensures Entries(m.aPos, m.tree) && Entries(again.aPos, again.tree)
        && Offsets(again.aPos, again.tree) == Offsets(m.aPos, m.tree)
  {
    hide *;
    m.ValidIs();
    m.TidiedIs();
    m.Agreement();
    AgreesEnds(m.strDoc, m.prolog, m.tree);
    LaidNext(m.strDoc, m.aPos, m.iPosFree, m.prolog, m.tree);
    ParsedAgain(m.strDoc, m.prolog, m.tree);
    again := new Markup(m.strDoc);
    again.ValidIs();
    if m.tree.Nil? { RenumberNil(m.tree); }
    LaidNext(again.strDoc, again.aPos, again.iPosFree, again.prolog, again.tree);
    SameOffsets(m.aPos, again.aPos, m.tree, 1, 0, 0, |m.prolog|);
  }

  lemma LaidNext(doc: string, a: seq<ElemPos>, free: nat, prolog: string, f: Forest)
    requires Laid(doc, a, free, prolog, f)
    ensures f.Cons? ==> f.next.Nil?
    ensures Rep(a, f, 0, |prolog|) && doc == prolog + Text(f)
  {
    hide Rep, Distinct, Text;
  }

  lemma RenumberNil(f: Forest)
    requires f.Nil?
    ensures Renumber(f, 1) == Nil && f == Nil
  {
  }

  // ---- reading back ----

  /** `GetAttrib` after `SetAttrib`. */
  method SetThenGetAttrib(m: Markup, pos: nat, name: string, value: string) returns (ok: bool, r: string)
    requires m.Valid() && (pos == 0 || pos in Ids(m.tree)) && ValidName(name)
        && (pos != 0 ==> PlainTag(States.Find(m.tree, pos).tag))
    modifies m
    ensures m.Valid() && ok == (pos != 0 && old(m.iPos) != 0) && (ok ==> r == value)
  {
    hide State, PosOK, Escape, Unescape, SetTag, AttrOf, Fill, CtxOK, PlainTag, ValidName;
    ghost var x;
    r := "";
    ok, x := m.SetAttribAt(pos, name, value);
    if ok {
      FoundHere(m.tree, pos);
      EscapeInverse(value, true);
      r := m.GetAttribAt(pos, name);
    }
  }

  /** `GetAttrib` after `RemoveAttrib`, and of any other attribute. */
  method RemoveThenGetAttrib(m: Markup, pos: nat, name: string, other: string) returns (before: string, ok: bool,
      r: string)
    requires m.Valid() && (pos == 0 || pos in Ids(m.tree)) && ValidName(name) && ValidName(other)
    requires pos != 0 ==> PlainTag(States.Find(m.tree, pos).tag)
    modifies m
    ensures m.Valid() && r == if ok && other == name then "" else before
  {
    hide State, PosOK, Unescape, CutTag, AttrOf, Fill, CtxOK, PlainTag, ValidName;
    before := m.GetAttribAt(pos, other);
    ghost var x;
    ok, x := m.RemoveAttribAt(pos, name);
    FoundHere(m.tree, pos);
    r := m.GetAttribAt(pos, other);
  }

  lemma {:induction false} FoundHere(f: Forest, id: nat)
    ensures States.Find(f, id).Cons? ==> id in Ids(f)
  {
    if f.Cons? && f.id != id {
      FoundHere(f.kids, id);
      FoundHere(f.next, id);
    }
  }

  /** `GetData` after `SetData`, as text, as CDATA, and where CDATA falls back to text. */
  method SetThenGetData(m: Markup, pos: nat, data: string, cdata: bool) returns (ok: bool, r: string)
    requires m.Valid() && (pos == 0 || pos in Ids(m.tree))
    requires var c := States.Find(m.tree, pos); c.Cons? && c.kids.Nil? && c.empty ==> CanSplit(c)
    modifies m
    ensures m.Valid() && ok == (States.Find(old(m.tree), pos).Cons? && States.Find(old(m.tree), pos).kids.Nil?)
        && (ok ==> r == data)
  {
    hide State, PosOK, Data, DataAt, Fill, CtxOK, CanSplit;
    ghost var x;
    r := "";
    ok, x := m.SetDataAt(pos, data, cdata);
    if ok {
      FoundHere(m.tree, pos);
      NoZero(m);
      r := m.GetDataAt(pos);
    }
  }

  lemma NoZero(m: Markup)
    requires m.Valid()
    ensures 0 !in Ids(m.tree)
  {
    hide *;
    m.ValidIs();
  }

  // ---- runs ----

  function Front(calls: seq<Call>): (r: seq<Call>)
    requires calls != []
    ensures |r| < |calls|
  {
    calls[..|calls| - 1]
  }

  function Last(calls: seq<Call>): Call
    requires calls != []
  {
    calls[|calls| - 1]
  }

  ghost predicate LeadsTo(s: Snap, c: Call, t: Snap) { exists ok :: Steps(s, c, t, ok) }

  /** Some run of these calls, each with what it needs, leads from the empty document to `s`. */
  ghost predicate RunsTo(calls: seq<Call>, s: Snap)
    decreases |calls|
  {
    SnapOK(s) &&
    if calls == [] then s.doc == "" && s.free == 1 && s.prolog == "" && s.tree == Nil && s.par == s.pos == s.child == 0
    else exists t :: RunsTo(Front(calls), t) && Legal(t, Last(calls)) && LeadsTo(t, Last(calls), s)
  }

  /** Any run from the empty document whose calls have what they need: `trace` are the
      documents between the calls, each led to by its call from the one before, and in each
      the array agrees with parsing the text again. */
  method Replay(calls: seq<Call>) returns (m: Markup, oks: seq<bool>, ghost trace: seq<Snap>)
    requires forall i, s :: 0 <= i < |calls| && RunsTo(calls[..i], s) ==> Legal(s, calls[i])
    ensures fresh(m) && m.Valid() && m.Tidied() && |oks| == |calls| && |trace| == |calls| + 1
        && trace[|calls|] == Now(m)
    ensures RunsTo([], trace[0]) && forall i :: 0 <= i < |calls| ==> Steps(trace[i], calls[i], trace[i + 1], oks[i])
    ensures forall i :: 0 <= i <= |calls| ==> SnapOK(trace[i])
  {
    hide *;
    EmptyText();
    m := new Markup("");
    m.TidiedIs();
    NowOK(m);
    StartsAt(m);
    oks, trace := [], [Now(m)];
    assert calls[..0] == [];
    for i := 0 to |calls|
      invariant m.Valid() && m.Tidied() && fresh(m) && |oks| == i && |trace| == i + 1 && trace[i] == Now(m)
      invariant RunsTo(calls[..i], Now(m)) && RunsTo([], trace[0])
      invariant forall j :: 0 <= j < i ==> Steps(trace[j], calls[j], trace[j + 1], oks[j])
      invariant forall j :: 0 <= j <= i ==> SnapOK(trace[j])
    {
      ghost var s := Now(m);
      var ok := Perform(m, calls[i]);
      NowOK(m);
      RunsOn(calls, i, s, Now(m), ok);
      oks, trace := oks + [ok], trace + [Now(m)];
    }
  }

  lemma StartsAt(m: Markup)
    requires m.strDoc == "" && m.iPosFree == 1 && m.prolog == "" && m.tree == Nil
        && m.iPosParent == m.iPos == m.iPosChild == 0
    requires SnapOK(Now(m))
    ensures RunsTo([], Now(m))
  {
    hide SnapOK;
  }

  lemma RunsOn(calls: seq<Call>, i: nat, s: Snap, t: Snap, ok: bool)
    requires i < |calls| && RunsTo(calls[..i], s) && Legal(s, calls[i]) && Steps(s, calls[i], t, ok) && SnapOK(t)
    ensures RunsTo(calls[..i + 1], t)
  {
    hide Legal, SnapOK, Steps;
    assert calls[..i + 1] != [];
    assert Front(calls[..i + 1]) == calls[..i] && Last(calls[..i + 1]) == calls[i];
    assert LeadsTo(s, calls[i], t);
  }

  lemma NowOK(m: Markup)
    requires m.Valid() && m.Tidied()
    ensures SnapOK(Now(m))
  {
    hide State, PosOK, Tidy, Agrees;
    m.Agreement();
  }

  lemma EmptyText()
    ensures ParseElem("", 0, 1) == ElemError && Tidy("", Nil)
  {
    EmptyEnds("");
  }
}
