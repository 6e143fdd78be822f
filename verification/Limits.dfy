/**
  Where the agreement ends: calls after which parsing the text again gives another tree,
  and the conditions.
 */
module Limits {
  import opened Common
  import opened Scanner
  import opened Parser
  import opened ParserProofs
  import opened RoundTrip
  import opened Index
  import opened Edits
  import opened Layout
  import opened Gaps
  import opened Places
  import Growth
  import opened States
  import opened NewElems
  import opened Escaping
  import opened Locating
  import opened Removals
  import SubDocs

  /** The start tag loop makes no progress when whitespace separates `<` and `!`. */
  lemma NoProgress()
    ensures ParseElem("< !x", 0, 1) == ElemEndless
  {
    var s := "< !x";
    assert FindChar(s, 0, '<') == 0;
    assert SkipSpace(s, 2) == 2 && SkipSpace(s, 1) == 2 && WordEnd(s, 2) == 2;
    assert ParseNode(s, 0) == Node(ElementNode, 0);
    assert NextTag(s, 0) == Endless;
  }

  /** A first root that is inserted, rather than added, goes in at `o`, close to the second
      character.  The index agrees with the text exactly if what is left in front of it
      holds no tag and no part of one. */
  lemma InsertedRoot(doc: string, o: nat, i: nat, name: string, value: string)
    requires o <= |doc| && i > 0 && ValidName(name)
    ensures var t := NewRoot(i, name, Escape(value, false), doc[o..]);
      Agrees(doc[..o] + Text(t), doc[..o], t) <==> GapOK(doc[..o], 0)
  {
    hide *;
    NewElemOK(i, name, value);
    NewRootIs(i, name, Escape(value, false), doc[o..]);
    var e := NewElem(i, name, Escape(value, false));
    NewRootOK(e, CRLF + doc[o..]);
    var t := NewRoot(i, name, Escape(value, false), doc[o..]);
    RootShape(t);
    AgreesExactly(doc[..o] + Text(t), doc[..o], t);
  }

  lemma RootShape(t: Forest)
    requires WFRoot(t)
    ensures t.Cons? && t.next.Nil?
  {
    hide CellOK, WF;
  }

  /** A comment is enough: no element comes of an element put into it. */
  lemma InsertedInComment(i: nat, name: string, value: string)
    requires i > 0 && ValidName(name)
    ensures var doc := "<!--c-->";
      var o := Skip(doc, 1);
      var t := NewRoot(i, name, Escape(value, false), doc[o..]);
      && !ParseElem(doc, 0, 1).Elem? && o == 1 && !Agrees(doc[..o] + Text(t), doc[..o], t)
  {
    var doc := "<!--c-->";
    CommentText();
    hide *;
    CommentEmpty(doc);
    InsertedRoot(doc, 1, i, name, value);
  }

  lemma CommentText()
    ensures var doc := "<!--c-->"; Skip(doc, 1) == 1 && !GapOK(doc[..1], 0) && GapOK(doc, 0)
  {
    var doc := "<!--c-->";
    SpecialToken(doc, 1);
    assert doc[..1] == "<";
    assert FindChar("<", 0, '<') == 0;
    CommentNodeAt();
    assert FindChar(doc, 0, '<') == 0;
    assert FindChar(doc, 8, '<') == 8;
  }

  lemma CommentNodeAt()
    ensures ParseNode("<!--c-->", 0) == Node(CommentNode, 8)
  {
    var s := "<!--c-->";
    forall i | 0 <= i < 5
      ensures !OccursAt(s, i, "-->")
    {
      assert s[i..i + 3][2] == s[i + 2];
    }
    assert s[5..8] == "-->";
    SubDocs.FoundAt(s, 0, 5, "-->");
  }

  lemma CommentEmpty(doc: string)
    requires GapOK(doc, 0)
    ensures !ParseElem(doc, 0, 1).Elem?
  {
    AgreesEmpty(doc);
  }

  /** The place of a first root that is inserted is one character into the text: inside the
      text exactly if there is any. */
  lemma InsertedStart(doc: string, a: seq<ElemPos>, free: nat, prolog: string)
    requires State(doc, a, free, prolog, Nil)
    ensures 0 < |a| && FirstOffset(a, 0, 0, true) == (if a[0].IsEmptyElement() then 0 else 1)
    ensures a[0].endL == |doc| ==>
        FirstOffset(a, 0, 0, true) == 1 && (FirstOffset(a, 0, 0, true) <= |doc| <==> doc != "")
  {
    hide Rep, Distinct;
  }

  /** In the empty document it is behind the end. */
  lemma InsertedBehindEnd(a: seq<ElemPos>, free: nat)
    requires State("", a, free, "", Nil) && a[0].endL == 0
    ensures FirstOffset(a, 0, 0, true) == 1 > |""|
  {
    hide State;
    InsertedStart("", a, free, "");
  }

  /** The text after the root is never looked at: if an element follows, taking the root out
      leaves an index without elements beside a text with one. */
  lemma SecondRoot(prolog: string, t: Forest, rest: string)
    requires GapOK(prolog, 0) && WFTree(t)
    ensures var doc := prolog + (Body(t) + rest); !Agrees(doc, doc, Nil)
  {
    hide *;
    TreeCons(t);
    var doc := Body(t) + rest;
    HasAll(doc);
    HasConcat(doc, 0, Body(t), rest);
    EmptyGap(doc);
    ElemComplete("", t, doc, 0, 1);
    RootGoneAgrees(prolog, doc);
  }

  lemma EmptyGap(doc: string)
    ensures GapOK("", 0) && Has(doc, 0, "")
  {
    assert doc[0..0] == "";
  }

  lemma TreeCons(t: Forest)
    requires WFTree(t)
    ensures t.Cons?
  {
  }

  /** An empty element whose tag ends in two slashes cannot be opened up. */
  lemma TwoSlashes()
    ensures var c := Cons(1, "<a/", true, "", Nil, "", "", Nil); CellOK(c) && !CanSplit(c)
  {
    var c := Cons(1, "<a/", true, "", Nil, "", "", Nil);
    var o := OpenText(c);
    assert o == "<a//>";
    assert WordEnd(o, 2) == 2 && WordEnd(o, 1) == 2 && SkipSpace(o, 1) == 1;
    assert FindToken(o, 1) == Token(true, 1, 1, 2, false);
    assert FindChar(o, 4, '>') == 4 && FindChar(o, 3, '>') == 4 && FindChar(o, 2, '>') == 4;
    assert FindChar(o, 0, '<') == 0;
    NextTagHere(o, 0);
  }

  /** A new element, or data, in such an element leaves text that the parser takes for
      something else: `CanSplit` is the exact condition. */
  lemma OpenedUp(c: Forest, data: string)
    requires c.Cons? && c.empty && CellOK(c) && GapOK(data, 0)
    ensures CellOK(SplitData(c, TagName(c), data)) <==> CanSplit(c)
  {
    hide *;
    Growth.SplitDataIs(c, TagName(c), data);
    SplitExactly(c, SplitData(c, TagName(c), data));
  }
}
