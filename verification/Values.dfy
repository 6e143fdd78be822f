/**
  Setting the data or an attribute of an element: what becomes of its cell, and what
  reading it again gives.
 */
module Values {
  import opened Scanner
  import opened Parser
  import opened ParserProofs
  import opened RoundTrip
  import opened Index
  import opened Walk
  import opened Edits
  import opened Layout
  import opened Gaps
  import opened Places
  import opened Growth
  import opened Surgery
  import Sites
  import opened States
  import opened Paths
  import opened Locating
  import Removals
  import opened Escaping
  import opened Attribs
  import opened Content

  // ---- data ----

  /** An element without children given other content; an empty one is opened up. */
  function WithData(c: Forest, data: string): (d: Forest)
    requires c.Cons?
    ensures d.Cons? && d.id == c.id && !d.empty && d.head == data && d.kids == c.kids && d.tag == c.tag
  {
    if c.empty then SplitData(c, TagName(c), data) else c.(head := data)
  }

  lemma WithDataIs(c: Forest, data: string)
    requires c.Cons?
    ensures WithData(c, data) == if c.empty then SplitData(c, TagName(c), data) else c.(head := data)
    ensures WithData(c, data).gap == c.gap && WithData(c, data).next == c.next
        && (Plain(c) ==> Plain(WithData(c, data)))
  {
    hide TagName;
    PlainCell(c);
    PlainCell(WithData(c, data));
  }

  /** Its text: the start tag, the data, and the end tag it had or, if it was empty, a new one. */
  lemma WithDataText(c: Forest, data: string)
    requires c.Cons? && c.kids.Nil?
    ensures Body(WithData(c, data)) ==
      c.tag + ">" + data + if c.empty then "</" + TagName(c) + ">" else c.close
  {
    hide TagName;
    var d := WithData(c, data);
    WithDataIs(c, data);
    assert Text(d.kids) == "";
    var close := if c.empty then "</" + TagName(c) + ">" else c.close;
    assert d.close == close;
    assert (c.tag + ">") + (data + ("" + close)) == c.tag + ">" + data + close;
    assert (c.tag + ">") + (data + close) == c.tag + ">" + data + close;
  }

  /** One entry's offsets set, links kept. */
  lemma OffsetsSet(doc: string, a: seq<ElemPos>, free: nat, prolog: string, x: Ctx, c: Forest, e: ElemPos)
    requires CtxOK(x) && c.Cons? && Laid(doc, a, free, prolog, Fill(x, c)) && c.id < |a|
    requires e.parent == a[c.id].parent && e.child == a[c.id].child && e.next == a[c.id].next
    ensures SelfReady(a, a[c.id := e], x, c)
  {
    hide Laid, Fill, Rep, Links, LinksUp, RepCtx, Ids, CtxIds;
    PlaceFacts(doc, a, free, prolog, x, c);
    DistinctParts(c);
    CellId(c, x, free);
    Removals.SetAway(a, c.id, e, CtxIds(x));
    Removals.SetAway(a, c.id, e, Ids(c.kids));
    Removals.SetAway(a, c.id, e, Ids(c.next));
  }

  /** An entry the walk does not touch may be adjusted before or after it. */
  lemma AdjustLater(a: seq<ElemPos>, i: nat, both: set<nat>, ends: set<nat>, n: int)
    requires i < |a| && i !in both && i !in ends
    ensures Shifted(a, both, ends, n)[i := Shifted(a, both, ends,
        n)[i].AdjustEnd(n)] == Shifted(a[i := a[i].AdjustEnd(n)], both, ends, n)
  {
  }

  lemma SelfApart(doc: string, a: seq<ElemPos>, free: nat, prolog: string, x: Ctx, c: Forest)
    requires CtxOK(x) && c.Cons? && Laid(doc, a, free, prolog, Fill(x, c))
    ensures c.id !in BothLeft(x, c, false) && c.id !in Ancestors(x)
  {
    hide *;
    PlaceFacts(doc, a, free, prolog, x, c);
    PlaceIs(x, c, free);
    SelfSets(x, c, free);
  }

  /** The entry of the element, before the walk, for `n` more characters; an empty one is pre-adjusted. */
  function DataEntry(e: ElemPos, c: Forest): ElemPos
    requires c.Cons?
  {
    if c.empty then e.PreSplit(1 + |TagName(c)|) else e
  }

  /** What is put in the place of the content. */
  function DataText(c: Forest, data: string): string
    requires c.Cons?
  {
    if c.empty then ">" + (data + ("</" + TagName(c))) else data
  }

  lemma DataState(doc: string, a: seq<ElemPos>, free: nat, prolog: string, tree: Forest, x: Ctx, c: Forest,
      data: string, a1: seq<ElemPos>, doc': string)
    requires State(doc, a, free, prolog, tree) && CtxOK(x) && c.Cons? && c.kids.Nil? && Fill(x, c) == tree
        && GapOK(data, 0) && (c.empty ==> CanSplit(c))
    requires c.id < |a| && a1 == a[c.id := DataEntry(a[c.id], c)]
    requires var i := if c.empty then a[c.id].endL else a[c.id].startR + 1;
      var j := if c.empty then i + 1 else a[c.id].endL;
      0 <= i <= j <= |doc| && doc' == Splice(doc, i, j, DataText(c, data))
    ensures At(a1, x, c, 0, false)
    ensures var n := |doc'| - |doc|;
      var b := Shifted(a1, BothLeft(x, c, false), Ancestors(x), n);
      && c.id < |b| && State(doc', b[c.id := b[c.id].AdjustEnd(n)], free, prolog, Fill(x, WithData(c, data)))
      && SameParents(a, b[c.id := b[c.id].AdjustEnd(n)], free)
    ensures Ids(Fill(x, WithData(c, data))) == Ids(tree) && Find(Fill(x, WithData(c, data)), c.id) == WithData(c, data)
    ensures Tidy(prolog, tree) ==> Tidy(prolog, Fill(x, WithData(c, data)))
  {
    hide *;
    StateIs(doc, a, free, prolog, tree);
    FillCons(x, c);
    FitsFill(x, c, c);
    FitsCell(x, c);
    ElemAt(doc, a, free, prolog, tree, x, c);
    var n := |doc'| - |doc|;
    var a2 := a[c.id := DataEntry(a[c.id], c).AdjustEnd(n)];
    DataEntryIs(a[c.id], c, n);
    OffsetsSet(doc, a, free, prolog, x, c, DataEntry(a[c.id], c));
    OffsetsSet(doc, a, free, prolog, x, c, DataEntry(a[c.id], c).AdjustEnd(n));
    SelfStarts(doc, a, free, prolog, x, c, a1);
    SelfApart(doc, a, free, prolog, x, c);
    AdjustLater(a1, c.id, BothLeft(x, c, false), Ancestors(x), n);
    assert a2 == a1[c.id := a1[c.id].AdjustEnd(n)];
    DataLaid(doc, a, free, prolog, x, c, data, a2, doc', n);
    WithDataIs(c, data);
    if c.empty { SplitDataFits(x, c, data); } else { WithHeadFits(x, c, data); }
    EditState(doc', Shifted(a2, BothLeft(x, c, false), Ancestors(x), n), free, prolog, x, c, WithData(c, data));
    Sites.LaidBounds(doc, a, free, prolog, tree);
    EntryParents(a, c.id, DataEntry(a[c.id], c).AdjustEnd(n), free);
    ShiftedParents(a, a2, free, BothLeft(x, c, false), Ancestors(x), n);
    SameIds(x, c, WithData(c, data));
  }

  lemma EntryParents(a: seq<ElemPos>, i: nat, e: ElemPos, free: nat)
    requires i < |a| && e.parent == a[i].parent && free <= |a|
    ensures SameParents(a, a[i := e], free)
  {
  }

  lemma SameIds(x: Ctx, c: Forest, d: Forest)
    requires CtxOK(x) && c.Cons? && d.Cons? && d.id == c.id && d.kids == c.kids && d.next == c.next
    ensures Ids(Fill(x, d)) == Ids(Fill(x, c))
  {
    hide Fill, CtxIds;
    FillIds(x, c);
    FillIds(x, d);
  }

  lemma DataEntryIs(e: ElemPos, c: Forest, n: int)
    requires c.Cons?
    ensures var d := DataEntry(e, c);
      && d.parent == e.parent && d.child == e.child && d.next == e.next
      && d.AdjustEnd(n).parent == e.parent && d.AdjustEnd(n).child == e.child && d.AdjustEnd(n).next == e.next
    ensures DataEntry(e, c) == if c.empty then e.PreSplit(1 + |TagName(c)|) else e
  {
    hide TagName;
  }

  lemma DataLaid(doc: string, a: seq<ElemPos>, free: nat, prolog: string, x: Ctx, c: Forest, data: string,
      a2: seq<ElemPos>, doc': string, n: int)
    requires CtxOK(x) && CtxFull(x) && c.Cons? && c.kids.Nil? && CellOK(c) && Laid(doc, a, free, prolog, Fill(x, c))
        && c.id < |a|
    requires var e, p := a[c.id], HolePos(x, |prolog|);
      && e.startR == p + |OpenText(c)| - 1 && (c.empty ==> e.endL == e.startR - 1)
      && (!c.empty ==> e.endL == p + |OpenText(c)| + |c.head| + |Text(c.kids)|)
    requires SelfReady(a, a2, x, c) && a2[c.id] == DataEntry(a[c.id], c).AdjustEnd(n) && n == |doc'| - |doc|
    requires var i := if c.empty then a[c.id].endL else a[c.id].startR + 1;
      var j := if c.empty then i + 1 else a[c.id].endL;
      0 <= i <= j <= |doc| && doc' == Splice(doc, i, j, DataText(c, data))
    ensures Laid(doc', Shifted(a2, BothLeft(x, c, false), Ancestors(x), n), free, prolog, Fill(x, WithData(c, data)))
  {
    hide *;
    WithDataIs(c, data);
    DataEntryIs(a[c.id], c, n);
    DataTextIs(c, data);
    OpenTextLen(c);
    NoChildren(c);
    if c.empty {
      SpliceLen(doc, a[c.id].endL, a[c.id].endL + 1, DataText(c, data));
      SplitDataLaid(doc, a, free, prolog, x, c, TagName(c), data, a2, doc');
    } else {
      SpliceLen(doc, a[c.id].startR + 1, a[c.id].endL, DataText(c, data));
      WithHeadLaid(doc, a, free, prolog, x, c, data, a2, doc');
    }
  }

  lemma NoChildren(c: Forest)
    requires c.Cons? && c.kids.Nil?
    ensures |Text(c.kids)| == 0
  {
  }

  lemma DataTextIs(c: Forest, data: string)
    requires c.Cons?
    ensures DataText(c, data) == if c.empty then ">" + (data + ("</" + TagName(c))) else data
    ensures |DataText(c, data)| == if c.empty then |data| + |TagName(c)| + 3 else |data|
  {
    hide TagName;
  }

  /** The text between the tags, or the slash. */
  lemma ContentPlace(e: ElemPos, p: nat, len: nat, c: Forest)
    requires c.Cons? && c.kids.Nil? && e.startL == p && e.startR == p + |OpenText(c)| - 1 && p + |Body(c)| <= len
        && |OpenText(c)| <= |Body(c)|
    requires !c.empty ==>
        e.endL == p + |OpenText(c)| + |c.head| + |Text(c.kids)|
        && |OpenText(c)| + |c.head| + |Text(c.kids)| <= |Body(c)|
    requires c.empty ==> e.endL == e.startR - 1
    ensures if c.empty then 0 <= e.endL && e.endL + 1 <= len else 0 <= e.startR + 1 <= e.endL <= len
  {
    hide *;
    NoChildren(c);
    OpenTextLen(c);
  }

  /** What the array and the text say about an element's content and name. */
  lemma ContentFacts(doc: string, a: seq<ElemPos>, free: nat, prolog: string, tree: Forest, x: Ctx, c: Forest)
    requires State(doc, a, free, prolog, tree) && CtxOK(x) && c.Cons? && c.kids.Nil? && Fill(x, c) == tree
    ensures c.id < |a|
    ensures var e := a[c.id];
      && (e.IsEmptyElement() <==> c.empty) && 0 <= e.startL < |doc|
      && (if c.empty then 0 <= e.endL && e.endL + 1 <= |doc| else 0 <= e.startR + 1 <= e.endL <= |doc|)
      && var t := FindToken(doc, e.startL + 1);
         t.l <= t.r + 1 <= |doc| && TokenText(doc, t) == TagName(c) && |TagName(c)| == t.r - t.l + 1
  {
    hide *;
    ElemAt(doc, a, free, prolog, tree, x, c);
    InText(doc, a, free, prolog, tree, x, c);
    ContentPlace(a[c.id], HolePos(x, |prolog|), |doc|, c);
  }

  lemma OpenTextLen(c: Forest)
    requires c.Cons?
    ensures |OpenText(c)| == |c.tag| + (if c.empty then 2 else 1)
  {
  }

  /** Content that has been written stands where it is read. */
  lemma ReadBack(doc: string, a: seq<ElemPos>, free: nat, prolog: string, tree: Forest, x: Ctx, c: Forest, d: string,
      cdata: bool)
    requires State(doc, a, free, prolog, tree) && CtxOK(x) && c.Cons? && c.kids.Nil? && !c.empty && Fill(x, c) == tree
        && c.head == Data(d, cdata)
    ensures c.id < |a| && 0 <= a[c.id].startR + 1 <= a[c.id].endL <= |doc|
        && DataAt(doc, a[c.id].startR + 1, a[c.id].endL) == d
  {
    hide *;
    StateIs(doc, a, free, prolog, tree);
    LaidDistinct(doc, a, free, prolog, tree);
    FillCons(x, c);
    ElemAt(doc, a, free, prolog, tree, x, c);
    HeadAt(doc, prolog, x, c);
    NoChildren(c);
    InText(doc, a, free, prolog, tree, x, c);
    DataReads(d, cdata, doc, HolePos(x, |prolog|) + |OpenText(c)|);
  }

  // ---- attributes ----

  /** The start tag in the document, and the bracket after it. */
  lemma TagAt(doc: string, a: seq<ElemPos>, free: nat, prolog: string, tree: Forest, x: Ctx, c: Forest)
    requires State(doc, a, free, prolog, tree) && CtxOK(x) && c.Cons? && Fill(x, c) == tree
    ensures var p := HolePos(x, |prolog|);
      Has(doc, p, c.tag) && p + |c.tag| < |doc| && (doc[p + |c.tag|] == '>' || doc[p + |c.tag|] == '/')
  {
    hide *;
    StateIs(doc, a, free, prolog, tree);
    LaidDistinct(doc, a, free, prolog, tree);
    FillCons(x, c);
    GapAt(doc, prolog, x, c);
    var p := HolePos(x, |prolog|);
    BodyHas(c, doc, p);
    OpenTextIs(c);
    HasConcat(doc, p, c.tag, if c.empty then "/>" else ">");
    HasFirst(doc, p + |c.tag|, if c.empty then "/>" else ">");
  }

  lemma OpenTextIs(c: Forest)
    requires c.Cons?
    ensures OpenText(c) == c.tag + (if c.empty then "/>" else ">")
  {
  }

  lemma PlainParts(tag: string) returns (name: string, attrs: seq<Attr>, tail: string)
    requires PlainTag(tag)
    ensures TagParts(name, attrs, tail) && tag == TagText(name, attrs, tail)
  {
    hide TagParts, TagText;
    name, attrs, tail :| TagParts(name, attrs, tail) && tag == TagText(name, attrs, tail);
  }

  lemma PlainTagIs(name: string, attrs: seq<Attr>, tail: string)
    requires TagParts(name, attrs, tail)
    ensures PlainTag(TagText(name, attrs, tail))
  {
    hide TagParts, TagText;
  }

  /** The search in the document finds what it finds in the tag alone. */
  lemma AttrHere(doc: string, p: nat, tag: string, szAttrib: string)
    requires PlainTag(tag) && ValidName(szAttrib) && Has(doc, p, tag) && p + |tag| < |doc|
        && (doc[p + |tag|] == '>' || doc[p + |tag|] == '/')
    ensures var f := FindAttrib(doc, p + 1, 0, 0, szAttrib);
      && (f.None? <==> AttrOf(tag, szAttrib).None?)
      && (f.Some? ==>
            p < f.value.l && f.value.r + 1 <= p + |tag| && doc[f.value.l..f.value.r + 1] == AttrOf(tag, szAttrib).value)
  {
    hide *;
    var name, attrs, tail := PlainParts(tag);
    SearchTag(doc, p, name, attrs, tail, szAttrib);
    AttrOfIs(name, attrs, tail, szAttrib);
    ValueTokenIs(p, name, attrs, szAttrib);
  }

  lemma ValueTokenIs(p: nat, name: string, attrs: seq<Attr>, szAttrib: string)
    ensures forall v: nat, n: nat {:trigger ValueToken(v, n)} :: ValueToken(v, n) == Token(true, v, v + n - 1,
        v + n + 1, true)
  {
  }

  /** One attribute set, in the tag. */
  function SetTag(tag: string, szAttrib: string, value: string): string {
    match FindAttrib(tag + ">", 1, 0, 0, szAttrib)
    case None => tag + NewAttr(szAttrib, value)
    case Some(t) => if t.r + 1 <= |tag| then Splice(tag, t.l, t.r + 1, value) else tag
  }

  /** Setting an attribute gives it the value, and leaves every other as it was. */
  lemma SetTagOK(tag: string, szAttrib: string, value: string)
    requires PlainTag(tag) && ValidName(szAttrib) && Harmless(value, true)
    ensures PlainTag(SetTag(tag, szAttrib, value))
    ensures forall other :: ValidName(other) ==>
      AttrOf(SetTag(tag, szAttrib, value), other) == if other == szAttrib then Some(value) else AttrOf(tag, other)
    ensures forall c: Forest :: c.Cons? && c.tag == tag ==>
      TagOK(c) && TagOK(c.(tag := SetTag(tag, szAttrib, value)))
          && TagName(c.(tag := SetTag(tag, szAttrib, value))) == TagName(c)
  {
    hide *;
    var name, attrs, tail := PlainParts(tag);
    var n := SetAttr(attrs, tail, szAttrib, value);
    SetTagIs(name, attrs, tail, szAttrib, value);
    SetParts(name, attrs, tail, szAttrib, value);
    PlainTagIs(name, n.0, n.1);
    forall other | ValidName(other)
      ensures AttrOf(SetTag(tag, szAttrib, value), other) == if other == szAttrib then Some(value)
          else AttrOf(tag, other)
    {
      AttrOfIs(name, attrs, tail, other);
      AttrOfIs(name, n.0, n.1, other);
      SetAttrLookup(attrs, tail, szAttrib, value, other);
    }
    forall c: Forest | c.Cons? && c.tag == tag
      ensures TagOK(c) && TagOK(c.(tag := SetTag(tag, szAttrib, value)))
          && TagName(c.(tag := SetTag(tag, szAttrib, value))) == TagName(c)
    {
      PlainTagOK(c, name, attrs, tail);
      PlainTagOK(c.(tag := SetTag(tag, szAttrib, value)), name, n.0, n.1);
    }
  }

  lemma SetParts(name: string, attrs: seq<Attr>, tail: string, szAttrib: string, value: string)
    requires TagParts(name, attrs, tail) && ValidName(szAttrib) && Harmless(value, true)
    ensures TagParts(name, SetAttr(attrs, tail, szAttrib, value).0, SetAttr(attrs, tail, szAttrib, value).1)
  {
    hide TagParts, SetAttr, ValidName;
    SetAttrOK(name, attrs, tail, szAttrib, value);
  }

  lemma SetTagIs(name: string, attrs: seq<Attr>, tail: string, szAttrib: string, value: string)
    requires TagParts(name, attrs, tail) && ValidName(szAttrib)
    ensures var n := SetAttr(attrs, tail, szAttrib, value);
      SetTag(TagText(name, attrs, tail), szAttrib, value) == TagText(name, n.0, n.1)
  {
    hide *;
    var tag := TagText(name, attrs, tail);
    TagInside(name, attrs, tail);
    TagEnd(tag);
    SearchTag(tag + ">", 0, name, attrs, tail, szAttrib);
    SetAttrText(name, attrs, tail, szAttrib, value);
    ValueTokenIs(0, name, attrs, szAttrib);
    SetTagTurn(tag, szAttrib, value);
    AppendSplice(tag, NewAttr(szAttrib, value));
  }

  lemma TagEnd(tag: string)
    requires |tag| > 1
    ensures Has(tag + ">", 0, tag) && (tag + ">")[|tag|] == '>'
  {
  }

  lemma SetTagTurn(tag: string, szAttrib: string, value: string)
    ensures SetTag(tag, szAttrib, value) ==
      match FindAttrib(tag + ">", 1, 0, 0, szAttrib)
      case None => tag + NewAttr(szAttrib, value)
      case Some(t) => if t.r + 1 <= |tag| then Splice(tag, t.l, t.r + 1, value) else tag
  {
    hide FindAttrib;
  }

  lemma AppendSplice(s: string, ins: string)
    ensures Splice(s, |s|, |s|, ins) == s + ins
  {
    assert s[..|s|] == s && s[|s|..] == "";
  }

  /** The tag with attribute `i` set: the value changes where it stands, its quotes stay. */
  lemma SetTagThere(name: string, attrs: seq<Attr>, tail: string, i: nat, value: string)
    requires TagParts(name, attrs, tail) && i < |attrs|
    ensures SetTag(TagText(name, attrs, tail), attrs[i].name, value) ==
      TagText(name, attrs[i := attrs[i].(value := value)], tail)
  {
    hide *;
    PartNames(name, attrs, tail, i);
    SetTagIs(name, attrs, tail, attrs[i].name, value);
    SetAttrIs(attrs, tail, attrs[i].name, value);
    SetValThere(attrs, i, value);
  }

  /** With an attribute that it does not have, the tag goes on with its name and value. */
  lemma SetTagNew(name: string, attrs: seq<Attr>, tail: string, szAttrib: string, value: string)
    requires TagParts(name, attrs, tail) && ValidName(szAttrib) && forall i :: 0 <= i < |attrs| ==>
        attrs[i].name != szAttrib
    ensures SetTag(TagText(name, attrs, tail), szAttrib, value) ==
      TagText(name, attrs, tail) + " " + szAttrib + "=\"" + value + "\""
  {
    hide *;
    var tag := TagText(name, attrs, tail);
    SetTagIs(name, attrs, tail, szAttrib, value);
    SetAttrText(name, attrs, tail, szAttrib, value);
    NotLookedUp(attrs, szAttrib);
    AppendSplice(tag, NewAttr(szAttrib, value));
    NewAttrIs(szAttrib, value);
    assert tag + (" " + (szAttrib + ("=\"" + (value + "\"")))) == tag + " " + szAttrib + "=\"" + value + "\"";
  }

  lemma PartNames(name: string, attrs: seq<Attr>, tail: string, i: nat)
    requires TagParts(name, attrs, tail) && i < |attrs|
    ensures ValidName(attrs[i].name) && AttrOK(attrs[i]) && forall j :: 0 <= j < i ==> attrs[j].name != attrs[i].name
  {
    hide ValidName, Blank;
    assert AttrOK(attrs[i]);
  }

  lemma {:induction false} NotLookedUp(attrs: seq<Attr>, szAttrib: string)
    requires forall i :: 0 <= i < |attrs| ==> attrs[i].name != szAttrib
    ensures Lookup(attrs, szAttrib).None?
  {
    if attrs != [] {
      assert attrs[0].name != szAttrib;
      NotLookedUp(attrs[1..], szAttrib);
    }
  }

  lemma {:induction false} SetValThere(attrs: seq<Attr>, i: nat, value: string)
    requires i < |attrs| && forall j :: 0 <= j < i ==> attrs[j].name != attrs[i].name
    ensures SetVal(attrs, attrs[i].name, value) == attrs[i := attrs[i].(value := value)]
    ensures Lookup(attrs, attrs[i].name) == Some(attrs[i].value)
  {
    if i > 0 {
      assert attrs[0].name != attrs[i].name;
      SetValThere(attrs[1..], i - 1, value);
      assert [attrs[0]] + attrs[1..][i - 1 := attrs[i].(value := value)] == attrs[i := attrs[i].(value := value)];
    }
  }

  /** One attribute taken out of the tag. */
  function CutTag(tag: string, szAttrib: string): string {
    match FindRemove(tag + ">", 1, szAttrib)
    case None => tag
    case Some(v) => if 0 <= v.0 <= v.1 <= |tag| then Splice(tag, v.0, v.1, "") else tag
  }

  /** The attribute is absent then, and every other is as it was. */
  lemma CutTagOK(tag: string, szAttrib: string)
    requires PlainTag(tag) && ValidName(szAttrib)
    ensures PlainTag(CutTag(tag, szAttrib))
    ensures forall other :: ValidName(other) ==>
        AttrOf(CutTag(tag, szAttrib), other) == if other == szAttrib then None else AttrOf(tag, other)
    ensures forall c: Forest :: c.Cons? && c.tag == tag ==>
      TagOK(c) && TagOK(c.(tag := CutTag(tag, szAttrib))) && TagName(c.(tag := CutTag(tag, szAttrib))) == TagName(c)
  {
    hide *;
    var name, attrs, tail := PlainParts(tag);
    var n := CutAttr(attrs, tail, szAttrib);
    CutTagIs(name, attrs, tail, szAttrib);
    CutParts(name, attrs, tail, szAttrib);
    PlainTagIs(name, n.0, n.1);
    forall other | ValidName(other)
      ensures AttrOf(CutTag(tag, szAttrib), other) == if other == szAttrib then None else AttrOf(tag, other)
    {
      AttrOfIs(name, attrs, tail, other);
      AttrOfIs(name, n.0, n.1, other);
      CutAttrLookup(attrs, tail, szAttrib, other);
    }
    forall c: Forest | c.Cons? && c.tag == tag
      ensures TagOK(c) && TagOK(c.(tag := CutTag(tag, szAttrib)))
          && TagName(c.(tag := CutTag(tag, szAttrib))) == TagName(c)
    {
      PlainTagOK(c, name, attrs, tail);
      PlainTagOK(c.(tag := CutTag(tag, szAttrib)), name, n.0, n.1);
    }
  }

  /** The tag without attribute `i`: it goes with the one character in front of its name. */
  lemma CutTagThere(name: string, attrs: seq<Attr>, tail: string, i: nat)
    requires TagParts(name, attrs, tail) && i < |attrs|
    ensures var a := attrs[i];
      a.pre != "" && CutTag(TagText(name, attrs, tail), a.name) ==
        "<" + name + AttrsText(attrs[..i]) + a.pre[..|a.pre| - 1] + AttrsText(attrs[i + 1..]) + tail
  {
    hide *;
    PartNames(name, attrs, tail, i);
    var a := attrs[i];
    HasPre(a);
    CutTagIs(name, attrs, tail, a.name);
    CutAttrThere(attrs, tail, i);
    var r := CutAttr(attrs, tail, a.name);
    TagTextOf(name, r.0, r.1);
    var u, v, w := AttrsText(attrs[..i]), a.pre[..|a.pre| - 1], AttrsText(attrs[i + 1..]);
    assert "<" + (name + (u + (v + (w + tail)))) == "<" + name + u + v + w + tail;
  }

  lemma HasPre(a: Attr)
    requires AttrOK(a)
    ensures |a.pre| > 0
  {
  }

  lemma TagTextOf(name: string, attrs: seq<Attr>, tail: string)
    ensures TagText(name, attrs, tail) == "<" + (name + (AttrsText(attrs) + tail))
  {
  }

  lemma {:induction false} CutAttrThere(attrs: seq<Attr>, tail: string, i: nat)
    requires i < |attrs| && attrs[i].pre != "" && forall j :: 0 <= j < i ==> attrs[j].name != attrs[i].name
    ensures var a, r := attrs[i], CutAttr(attrs, tail, attrs[i].name);
      AttrsText(r.0) + r.1 ==
        AttrsText(attrs[..i]) + (a.pre[..|a.pre| - 1] + (AttrsText(attrs[i + 1..]) + tail))
  {
    hide AttrText, Lead;
    var a := attrs[i];
    if i == 0 {
      LeadText(a.pre[..|a.pre| - 1], attrs[1..], tail);
    } else {
      assert attrs[0].name != a.name;
      CutAttrThere(attrs[1..], tail, i - 1);
      assert attrs[1..][i..] == attrs[i + 1..] && attrs[..i][1..] == attrs[1..][..i - 1];
      ConsText(attrs[0], CutAttr(attrs[1..], tail, a.name).0);
      var t, r := AttrText(attrs[0]), CutAttr(attrs[1..], tail, a.name);
      assert (t + AttrsText(r.0)) + r.1 == t + (AttrsText(r.0) + r.1);
    }
  }

  lemma CutParts(name: string, attrs: seq<Attr>, tail: string, szAttrib: string)
    requires TagParts(name, attrs, tail)
    ensures AttrsOK(attrs) && TagParts(name, CutAttr(attrs, tail, szAttrib).0, CutAttr(attrs, tail, szAttrib).1)
  {
    hide AttrsOK, CutAttr, ValidName, Blank;
    CutAttrOK(attrs, tail, szAttrib);
  }

  lemma CutTagIs(name: string, attrs: seq<Attr>, tail: string, szAttrib: string)
    requires TagParts(name, attrs, tail) && ValidName(szAttrib)
    ensures var n := CutAttr(attrs, tail, szAttrib);
      CutTag(TagText(name, attrs, tail), szAttrib) == TagText(name, n.0, n.1)
  {
    hide *;
    var tag := TagText(name, attrs, tail);
    TagInside(name, attrs, tail);
    TagEnd(tag);
    PartsOK(name, attrs, tail);
    RemoveTag(tag + ">", 0, name, attrs, tail, szAttrib);
    CutTagText(name, attrs, tail, szAttrib);
    CutAttrText(attrs, tail, szAttrib);
    CutTagTurn(tag, szAttrib);
  }

  lemma CutTagTurn(tag: string, szAttrib: string)
    ensures CutTag(tag, szAttrib) ==
      match FindRemove(tag + ">", 1, szAttrib)
      case None => tag
      case Some(v) => if 0 <= v.0 <= v.1 <= |tag| then Splice(tag, v.0, v.1, "") else tag
  {
    hide FindRemove;
  }

  /** The places found in the document are those in the tag. */
  lemma SetTagAt(doc: string, p: nat, tag: string, szAttrib: string, value: string)
    requires PlainTag(tag) && ValidName(szAttrib) && Has(doc, p, tag) && p + |tag| < |doc|
        && (doc[p + |tag|] == '>' || doc[p + |tag|] == '/')
    ensures var f := FindAttrib(doc, p + 1, 0, 0, szAttrib);
      if f.None? then SetTag(tag, szAttrib, value) == Splice(tag, |tag|, |tag|, NewAttr(szAttrib, value))
      else p <= f.value.l <= f.value.r + 1 <= p + |tag| && SetTag(tag, szAttrib, value) == Splice(tag, f.value.l - p,
          f.value.r + 1 - p, value)
  {
    hide *;
    var name, attrs, tail := PlainParts(tag);
    TagInside(name, attrs, tail);
    TagEnd(tag);
    SearchTag(doc, p, name, attrs, tail, szAttrib);
    SearchTag(tag + ">", 0, name, attrs, tail, szAttrib);
    ValueTokenIs(0, name, attrs, szAttrib);
    SetTagTurn(tag, szAttrib, value);
    AppendSplice(tag, NewAttr(szAttrib, value));
  }

  lemma CutTagAt(doc: string, p: nat, tag: string, szAttrib: string)
    requires PlainTag(tag) && ValidName(szAttrib) && Has(doc, p, tag) && p + |tag| < |doc|
        && (doc[p + |tag|] == '>' || doc[p + |tag|] == '/')
    ensures var f := FindRemove(doc, p + 1, szAttrib);
      && (f.None? <==> AttrOf(tag, szAttrib).None?)
      && if f.None? then CutTag(tag, szAttrib) == tag
         else p < f.value.0 <= f.value.1 <= p + |tag| && CutTag(tag, szAttrib) == Splice(tag, f.value.0 - p,
             f.value.1 - p, "")
  {
    hide *;
    var name, attrs, tail := PlainParts(tag);
    TagInside(name, attrs, tail);
    TagEnd(tag);
    RemoveTag(doc, p, name, attrs, tail, szAttrib);
    RemoveTag(tag + ">", 0, name, attrs, tail, szAttrib);
    CutTagText(name, attrs, tail, szAttrib);
    AttrOfIs(name, attrs, tail, szAttrib);
    CutTagTurn(tag, szAttrib);
  }

  /** A start tag changed between `i` and `j`. */
  lemma TagState(doc: string, a: seq<ElemPos>, free: nat, prolog: string, tree: Forest, x: Ctx, c: Forest, i: nat,
      j: nat, ins: string, a1: seq<ElemPos>, doc': string)
    requires State(doc, a, free, prolog, tree) && CtxOK(x) && c.Cons? && Fill(x, c) == tree && i <= j <= |c.tag|
    requires var d := c.(tag := Splice(c.tag, i, j, ins)); TagOK(d) && TagName(d) == TagName(c) && PlainTag(d.tag)
    requires var n := |ins| - (j - i);
      c.id < |a| && a1 == a[c.id := a[c.id].(startR := a[c.id].startR + n).AdjustEnd(n)]
    requires var at := HolePos(x, |prolog|); at + j <= |doc| && doc' == Splice(doc, at + i, at + j, ins)
    ensures var d := c.(tag := Splice(c.tag, i, j, ins));
      var b := Shifted(a1, BothLeft(x, c, false), Ancestors(x), |ins| - (j - i));
      && At(a1, x, c, 0, false) && State(doc', b, free, prolog, Fill(x, d)) && SameParents(a, b, free)
      && Ids(Fill(x, d)) == Ids(tree) && Find(Fill(x, d), c.id) == d
      && (Tidy(prolog, tree) ==> Tidy(prolog, Fill(x, d)))
  {
    hide *;
    var n := |ins| - (j - i);
    var d := c.(tag := Splice(c.tag, i, j, ins));
    StateIs(doc, a, free, prolog, tree);
    FillCons(x, c);
    FitsFill(x, c, c);
    ElemAt(doc, a, free, prolog, tree, x, c);
    var e := a[c.id].(startR := a[c.id].startR + n).AdjustEnd(n);
    TagEntry(a[c.id], n);
    assert a1 == a[c.id := e];
    assert d == c.(tag := d.tag);
    OffsetsSet(doc, a, free, prolog, x, c, e);
    SelfStarts(doc, a, free, prolog, x, c, a1);
    TagLaid(doc, a, free, prolog, x, c, i, j, ins, a1, doc', d, n);
    WithTagFits(x, c, d.tag);
    PlainCell(c);
    PlainCell(d);
    EditState(doc', Shifted(a1, BothLeft(x, c, false), Ancestors(x), n), free, prolog, x, c, d);
    Sites.LaidBounds(doc, a, free, prolog, tree);
    EntryParents(a, c.id, e, free);
    ShiftedParents(a, a1, free, BothLeft(x, c, false), Ancestors(x), n);
    SameIds(x, c, d);
  }

  lemma TagLaid(doc: string, a: seq<ElemPos>, free: nat, prolog: string, x: Ctx, c: Forest, i: nat, j: nat, ins: string,
      a1: seq<ElemPos>, doc': string, d: Forest, n: int)
    requires CtxOK(x) && CtxFull(x) && c.Cons? && Laid(doc, a, free, prolog, Fill(x, c)) && i <= j <= |c.tag|
    requires SelfReady(a, a1, x, c) && n == |ins| - (j - i)
        && a1[c.id] == a[c.id].(startR := a[c.id].startR + n).AdjustEnd(n)
    requires var at := HolePos(x, |prolog|); at + j <= |doc| && doc' == Splice(doc, at + i, at + j, ins)
    requires d == c.(tag := Splice(c.tag, i, j, ins))
    ensures Laid(doc', Shifted(a1, BothLeft(x, c, false), Ancestors(x), n), free, prolog, Fill(x, d))
  {
    hide *;
    WithTagLaid(doc, a, free, prolog, x, c, i, j, ins, a1, doc');
  }

  lemma TagEntry(e: ElemPos, n: int)
    ensures var d := e.(startR := e.startR + n).AdjustEnd(n);
      d.parent == e.parent && d.child == e.child && d.next == e.next
  {
  }

  lemma NotFound(tree: Forest)
    requires 0 !in Ids(tree)
    ensures Find(tree, 0).Nil?
  {
  }

  lemma NewAttrIs(name: string, value: string)
    ensures NewAttr(name, value) == " " + (name + ("=\"" + (value + "\"")))
  {
  }
}
