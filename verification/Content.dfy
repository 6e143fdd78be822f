/**
  The content of an element without children: text, or a CDATA section (section 2.7
  of XML 1.0), written by `x_SetData` and read back by `x_GetData`.
 */
module Content {
  import opened Scanner
  import opened Parser
  import opened ParserProofs
  import opened RoundTrip
  import opened Gaps
  import opened Escaping
  import opened Attribs

  const CDATA_OPEN := "<![CDATA["
  const CDATA_END := "]]>"

  function CDataText(d: string): string { CDATA_OPEN + (d + CDATA_END) }

  /** What `x_SetData` writes: a section if that is asked for and `d` does not end it, else text. */
  function Data(d: string, cdata: bool): string {
    if cdata && FindStr(d, 0, CDATA_END).None? then CDataText(d) else Escape(d, false)
  }

  /** `x_GetData` on the content from `l` up to `e`. */
  function DataAt(doc: string, l: nat, e: nat): string
    requires l <= e <= |doc|
  {
    var t := FindToken(doc, l);
    if t.found && t.l + 11 < e && doc[t.l] == '<' && OccursAt(doc, t.l + 1, "![CDATA[") then
      CDataIn(doc, l);
      match FindStr(doc, t.next, CDATA_END)
      case Some(i) => if i < e then doc[t.l + 9..i] else Unescape(doc[l..e])
      case None => Unescape(doc[l..e])
    else Unescape(doc[l..e])
  }

  /** The end of a section is found behind its opening. */
  lemma CDataIn(doc: string, l: nat)
    requires l <= |doc| && FindToken(doc, l).found && FindToken(doc, l).l < |doc| && doc[FindToken(doc, l).l] == '<'
    requires OccursAt(doc, FindToken(doc, l).l + 1, "![CDATA[")
    ensures var f := FindStr(doc, FindToken(doc, l).next, CDATA_END); f.Some? ==> FindToken(doc, l).l + 9 <= f.value
  {
    hide *;
    var t := FindToken(doc, l);
    OpenChars(doc, t.l + 1);
    if t.isString { QuoteEnd(doc, l, t.l + 9); }
    var f := FindStr(doc, t.next, CDATA_END);
    if f.Some? { EndChars(doc, f.value); }
  }

  lemma EndChars(doc: string, j: nat)
    requires OccursAt(doc, j, CDATA_END)
    ensures j + 3 <= |doc| && doc[j] == ']' && doc[j + 2] == '>'
  {
    assert doc[j] == doc[j..j + 3][0] && doc[j + 2] == doc[j..j + 3][2];
  }

  lemma OpenChars(doc: string, q: nat)
    requires OccursAt(doc, q, "![CDATA[") && 0 < q && doc[q - 1] == '<'
    ensures q + 8 <= |doc| && forall i :: q - 1 <= i < q + 8 ==> doc[i] != ']' && !IsQuote(doc[i])
  {
    forall i | q <= i < q + 8
      ensures doc[i] != ']' && !IsQuote(doc[i])
    {
      assert doc[i] == doc[q..q + 8][i - q];
    }
  }

  /** A string without a quote in its first part goes on behind it. */
  lemma QuoteEnd(doc: string, l: nat, e: nat)
    requires l <= |doc| && FindToken(doc, l).isString && FindToken(doc, l).l < e <= |doc|
    requires forall i :: FindToken(doc, l).l <= i < e ==> !IsQuote(doc[i])
    ensures e <= FindToken(doc, l).next
  {
    var a := SkipSpace(doc, l);
    var f := FindChar(doc, a + 1, doc[a]);
    assert f < |doc| ==> doc[f] == doc[a];
  }

  // ---- what is written can stand in the document ----

  lemma TextGap(d: string)
    ensures GapOK(Escape(d, false), 0)
  {
    EscapeHarmless(d, false);
    NoOpen(Escape(d, false), 0);
    PlainGap(Escape(d, false));
  }

  /** In a section the end is found where it was put. */
  lemma EndOfCData(d: string, doc: string, p: nat, n: nat)
    requires FindStr(d, 0, CDATA_END).None? && Has(doc, p, CDataText(d)) && p <= n <= p + 9
    ensures n <= |doc| && FindStr(doc, n, CDATA_END) == Some(p + 9 + |d|)
  {
    hide *;
    CDataParts(d, doc, p);
    NoneBefore(d, doc, p);
    FirstStr(doc, n, p + 9 + |d|, CDATA_END);
  }

  lemma CDataParts(d: string, doc: string, p: nat)
    requires Has(doc, p, CDataText(d))
    ensures Has(doc, p, CDATA_OPEN) && Has(doc, p + 9, d) && OccursAt(doc, p + 9 + |d|, CDATA_END)
        && p + 12 + |d| <= |doc|
    ensures |CDataText(d)| == 12 + |d|
  {
    HasConcat(doc, p, CDATA_OPEN, d + CDATA_END);
    HasConcat(doc, p + 9, d, CDATA_END);
  }

  lemma NoneBefore(d: string, doc: string, p: nat)
    requires FindStr(d, 0, CDATA_END).None? && Has(doc, p, CDATA_OPEN) && Has(doc, p + 9, d)
        && OccursAt(doc, p + 9 + |d|, CDATA_END)
    ensures forall j :: p <= j < p + 9 + |d| ==> !OccursAt(doc, j, CDATA_END)
  {
    hide *;
    var e := p + 9 + |d|;
    FindStrFirst(d, 0, CDATA_END);
    OpenHasNoEnd(doc, p);
    EndChars(doc, e);
    EndMiddle(doc, e);
    forall j | p <= j < e
      ensures !OccursAt(doc, j, CDATA_END)
    {
      if OccursAt(doc, j, CDATA_END) {
        EndChars(doc, j);
        if p + 9 <= j <= e - 3 { OccursIn(doc, d, p + 9, j); }
      }
    }
  }

  lemma OpenHasNoEnd(doc: string, p: nat)
    requires Has(doc, p, CDATA_OPEN)
    ensures p + 9 <= |doc| && forall i :: p <= i < p + 9 ==> doc[i] != ']'
  {
    forall i | p <= i < p + 9
      ensures doc[i] != ']'
    {
      assert doc[i] == doc[p..p + 9][i - p] == CDATA_OPEN[i - p];
    }
  }

  lemma EndMiddle(doc: string, e: nat)
    requires OccursAt(doc, e, CDATA_END)
    ensures doc[e] == ']' && doc[e + 1] == ']'
  {
    assert doc[e] == doc[e..e + 3][0] && doc[e + 1] == doc[e..e + 3][1];
  }

  lemma OccursIn(doc: string, d: string, q: nat, j: nat)
    requires Has(doc, q, d) && OccursAt(doc, j, CDATA_END) && q <= j && j + 3 <= q + |d|
    ensures OccursAt(d, j - q, CDATA_END)
  {
    var w := d[j - q..j - q + 3];
    assert doc[q..q + |d|] == d;
    assert forall i :: 0 <= i < 3 ==> w[i] == d[j - q + i] == doc[j + i];
    assert doc[j..j + 3] == w;
  }

  lemma {:induction false} FirstStr(doc: string, n: nat, e: nat, pat: string)
    requires n <= e && OccursAt(doc, e, pat) && forall j :: n <= j < e ==> !OccursAt(doc, j, pat)
    ensures FindStr(doc, n, pat) == Some(e)
    decreases e - n
  {
    if n < e { FirstStr(doc, n + 1, e, pat); }
  }

  lemma CDataGap(d: string)
    requires FindStr(d, 0, CDATA_END).None?
    ensures GapOK(CDataText(d), 0)
  {
    var g := CDataText(d);
    hide FindStr;
    assert Has(g, 0, g) by { assert g[0..|g|] == g; }
    EndOfCData(d, g, 0, 0);
    assert g[0] == '<' && g[1] == '!' && g[2] == '[' && |g| == 12 + |d|;
    assert FindChar(g, 0, '<') == 0;
    assert ParseNode(g, 0) == Node(CDataNode, |g|);
    assert GapOK(g, |g|) by { assert FindChar(g, |g|, '<') == |g|; }
  }

  lemma DataGap(d: string, cdata: bool)
    ensures GapOK(Data(d, cdata), 0)
  {
    hide GapOK, Escape, CDataText;
    if cdata && FindStr(d, 0, CDATA_END).None? { CDataGap(d); } else { TextGap(d); }
  }

  /** What is written is read back. */
  lemma DataReads(d: string, cdata: bool, doc: string, l: nat)
    requires Has(doc, l, Data(d, cdata))
    requires var e := l + |Data(d, cdata)|; e < |doc| && doc[e] == '<'
    ensures DataAt(doc, l, l + |Data(d, cdata)|) == d
  {
    hide *;
    var e := l + |Data(d, cdata)|;
    DataIs(d, cdata);
    if cdata && FindStr(d, 0, CDATA_END).None? {
      CDataParts(d, doc, l);
      OpenStart(doc, l);
      SpecialToken(doc, l);
      EndOfCData(d, doc, l, l + 1);
      DataAtIs(doc, l, e);
      HasIs(doc, l + 9, d);
    } else {
      HasIs(doc, l, Escape(d, false));
      EscapeInverse(d, false);
      NoSection(doc, l, d);
      DataAtIs(doc, l, e);
    }
  }

  lemma DataIs(d: string, cdata: bool)
    ensures Data(d, cdata) == if cdata && FindStr(d, 0, CDATA_END).None? then CDataText(d) else Escape(d, false)
  {
    hide CDataText, Escape, FindStr;
  }

  /** What is written: a section if that is asked for and nothing in `d` ends it, else text. */
  lemma DataMeans(d: string, cdata: bool)
    ensures cdata && (forall i :: 0 <= i < |d| ==> !OccursAt(d, i, "]]>")) ==>
        Data(d, cdata) == "<![CDATA[" + d + "]]>"
    ensures !cdata || (exists i :: 0 <= i < |d| && OccursAt(d, i, "]]>")) ==> Data(d, cdata) == Escape(d, false)
  {
    hide Escape, CDataText, FindStr;
    FindStrFirst(d, 0, "]]>");
    DataIs(d, cdata);
    CDataIs(d);
    if FindStr(d, 0, "]]>").Some? {
      assert OccursAt(d, FindStr(d, 0, "]]>").value, "]]>");
    }
  }

  lemma CDataIs(d: string)
    ensures CDataText(d) == "<![CDATA[" + d + "]]>"
  {
    assert CDATA_OPEN + (d + CDATA_END) == "<![CDATA[" + d + "]]>";
  }

  /** A section is read as its text, whatever whitespace stands in front of it and whatever
      stands behind it. */
  lemma SectionReads(ws: string, d: string, trail: string, doc: string, l: nat)
    requires Blank(ws) && (forall i :: 0 <= i < |d| ==> !OccursAt(d, i, "]]>"))
    requires Has(doc, l, ws + ("<![CDATA[" + d + "]]>" + trail))
    ensures var e := l + |ws| + |d| + 12 + |trail|; e <= |doc| && DataAt(doc, l, e) == d
  {
    hide *;
    var p, e := l + |ws|, l + |ws| + |d| + 12 + |trail|;
    CDataIs(d);
    HasConcat(doc, l, ws, CDataText(d) + trail);
    HasConcat(doc, p, CDataText(d), trail);
    HasLen(doc, p + |CDataText(d)|, trail);
    NoneFound(d);
    CDataParts(d, doc, p);
    OpenStart(doc, p);
    StartToken(doc, l, ws);
    EndOfCData(d, doc, p, p + 1);
    DataAtIs(doc, l, e);
    HasIs(doc, p + 9, d);
  }

  lemma NoneFound(d: string)
    requires forall i :: 0 <= i < |d| ==> !OccursAt(d, i, "]]>")
    ensures FindStr(d, 0, CDATA_END).None?
  {
    hide FindStr;
    var f := FindStr(d, 0, CDATA_END);
    assert f.Some? ==> OccursAt(d, f.value, "]]>");
  }

  lemma StartToken(doc: string, l: nat, ws: string)
    requires Blank(ws) && Has(doc, l, ws) && l + |ws| < |doc| && doc[l + |ws|] == '<'
    ensures FindToken(doc, l) == Token(true, l + |ws|, l + |ws|, l + |ws| + 1, false)
  {
    hide SkipSpace;
    BlankRun(doc, l, ws);
    assert WordEnd(doc, l + |ws|) == l + |ws|;
  }

  /** Content without markup is read with its references replaced. */
  lemma TextReads(doc: string, l: nat, e: nat)
    requires l <= e <= |doc| && forall i :: l <= i < e ==> doc[i] != '<'
    ensures DataAt(doc, l, e) == Unescape(doc[l..e])
  {
    hide FindToken, Unescape;
    DataAtIs(doc, l, e);
  }

  lemma DataAtIs(doc: string, l: nat, e: nat)
    requires l <= e <= |doc|
    ensures var t := FindToken(doc, l);
      if t.found && t.l + 11 < e && doc[t.l] == '<' && OccursAt(doc, t.l + 1, "![CDATA[") then
        match FindStr(doc, t.next, CDATA_END)
        case Some(i) => if i < e then t.l + 9 <= i && DataAt(doc, l, e) == doc[t.l + 9..i]
            else DataAt(doc, l, e) == Unescape(doc[l..e])
        case None => DataAt(doc, l, e) == Unescape(doc[l..e])
      else DataAt(doc, l, e) == Unescape(doc[l..e])
  {
    hide FindToken, FindStr, Unescape, OccursAt;
    var t := FindToken(doc, l);
    if t.found && t.l + 11 < e && doc[t.l] == '<' && OccursAt(doc, t.l + 1, "![CDATA[") { CDataIn(doc, l); }
  }

  lemma OpenStart(doc: string, l: nat)
    requires Has(doc, l, CDATA_OPEN)
    ensures l < |doc| && doc[l] == '<' && IsSpecial(doc[l]) && OccursAt(doc, l + 1, "![CDATA[")
  {
    HasConcat(doc, l, "<", "![CDATA[");
    assert "<" + "![CDATA[" == CDATA_OPEN;
    HasFirst(doc, l, "<");
  }

  /** Escaped text has no `<`, so no section is found in it. */
  lemma NoSection(doc: string, l: nat, d: string)
    requires Has(doc, l, Escape(d, false)) && l + |Escape(d, false)| < |doc|
    ensures var t, e := FindToken(doc, l), l + |Escape(d, false)|; !(t.found && t.l + 11 < e && doc[t.l] == '<')
  {
    hide FindToken, Escape;
    EscapeHarmless(d, false);
    var t, e := FindToken(doc, l), l + |Escape(d, false)|;
    if t.l < e { assert doc[t.l] == doc[l..e][t.l - l]; }
  }

  /** The method behind it: the search for `]]>` is `string::find`. */
  method GetContent(strDoc: string, nLeft: nat, nEndL: nat) returns (r: string)
    requires nLeft <= nEndL <= |strDoc|
    ensures r == DataAt(strDoc, nLeft, nEndL)
  {
    hide FindToken, FindStr, Unescape, OccursAt;
    var token := FindToken(strDoc, nLeft);
    if token.found && token.l + 11 < nEndL && strDoc[token.l] == '<' && OccursAt(strDoc, token.l + 1, "![CDATA[") {
      var nEndCDATA := FindStr(strDoc, token.next, CDATA_END);
      if nEndCDATA.Some? && nEndCDATA.value < nEndL {
        CDataIn(strDoc, nLeft);
        return strDoc[token.l + 9..nEndCDATA.value];
      }
    }
    r := TextFromDoc(strDoc, nLeft, nEndL - 1);
  }
}
