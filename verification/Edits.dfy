/**
  The edits on one element: what becomes of its tree, of its text, and of the
  array entries, so that text and array describe the same tree again.
 */
module Edits {
  import opened Common
  import opened Parser

  function Splice(s: string, i: nat, j: nat, ins: string): string
    requires i <= j <= |s|
  {
    s[..i] + ins + s[j..]
  }

  lemma SpliceIs(s: string, i: nat, j: nat, ins: string)
    requires i <= j <= |s|
    ensures Splice(s, i, j, ins) == s[..i] + ins + s[j..]
  {
  }

  lemma Assoc(a: string, b: string, c: string)
    ensures a + (b + c) == (a + b) + c
  {
  }

  lemma SpliceInside(p: string, s: string, q: string, i: nat, j: nat, ins: string)
    requires i <= j <= |s|
    ensures Splice(p + (s + q), |p| + i, |p| + j, ins) == p + (Splice(s, i, j, ins) + q)
  {
    var w := p + (s + q);
    assert w[..|p| + i] == p + s[..i];
    assert w[|p| + j..] == s[j..] + q;
  }

  /** The end tag the editor writes. */
  function EndTagOf(name: string): string { "</" + (name + ">") }

  // ---- new trees ----

  /** A subtree `t` put behind `c`, `k` characters into its gap, with `lead` before
      and `trail` after it. */
  function InsertAfter(c: Forest, k: nat, lead: string, t: Forest, trail: string): Forest
    requires c.Cons? && t.Cons? && k <= |c.gap|
  {
    c.(gap := c.gap[..k] + lead, next := t.(gap := trail + c.gap[k..], next := c.next))
  }

  /** A subtree `t` put before the children of `c`, `k` characters after its start tag. */
  function InsertFirst(c: Forest, k: nat, lead: string, t: Forest, trail: string): Forest
    requires c.Cons? && t.Cons? && k <= |c.head|
  {
    c.(head := c.head[..k] + lead, kids := t.(gap := trail + c.head[k..], next := c.kids))
  }

  /** The empty element `c` opened up around `data`. */
  function SplitData(c: Forest, name: string, data: string): Forest
    requires c.Cons?
  {
    c.(empty := false, head := data, close := EndTagOf(name))
  }

  /** The empty element `c` opened up around a subtree `t`. */
  function InsertSplit(c: Forest, name: string, lead: string, t: Forest, trail: string): Forest
    requires c.Cons? && t.Cons?
  {
    InsertFirst(SplitData(c, name, CRLF), 2, lead, t, trail)
  }

  /** The element after `c` removed, with `k` characters of its gap. */
  function RemoveNext(c: Forest, k: nat): Forest
    requires c.Cons? && c.next.Cons? && k <= |c.next.gap|
  {
    c.(gap := c.gap + c.next.gap[k..], next := c.next.next)
  }

  /** The first child of `c` removed, with `k` characters of its gap. */
  function RemoveFirst(c: Forest, k: nat): Forest
    requires c.Cons? && c.kids.Cons? && k <= |c.kids.gap|
  {
    c.(head := c.head + c.kids.gap[k..], kids := c.kids.next)
  }

  // ---- new texts ----

  /** The text of a cell piece by piece. */
  lemma TextPieces(c: Forest)
    requires c.Cons?
    ensures c.empty ==> Text(c) == OpenText(c) + (c.gap + Text(c.next))
    ensures !c.empty ==>
      var inner := Text(c.kids) + Behind(c);
      Text(c) == OpenText(c) + (c.head + inner)
    ensures Text(c) == Body(c) + (c.gap + Text(c.next))
  {
    if !c.empty {
      var rest := c.gap + Text(c.next);
      var inner := c.head + (Text(c.kids) + c.close);
      assert Text(c) == (OpenText(c) + inner) + rest;
      assert inner + rest == c.head + (Text(c.kids) + (c.close + rest));
    }
  }

  lemma GapInsert(b: string, g: string, q: string, k: nat, lead: string, t: string, trail: string)
    requires k <= |g|
    ensures var w := b + (g + q);
      var i := |b| + k;
      var back := t + ((trail + g[k..]) + q);
      Splice(w, i, i, lead + (t + trail)) == b + ((g[..k] + lead) + back)
  {
    var w := b + (g + q);
    var i := |b| + k;
    assert w[..i] == b + g[..k];
    assert w[i..] == g[k..] + q;
  }

  lemma InsertAfterText(c: Forest, k: nat, lead: string, t: Forest, trail: string)
    requires c.Cons? && t.Cons? && k <= |c.gap|
    ensures |Body(c)| + k <= |Text(c)|
    ensures Text(InsertAfter(c, k, lead, t, trail)) == Splice(Text(c), |Body(c)| + k, |Body(c)| + k,
        lead + (Body(t) + trail))
  {
    var d := InsertAfter(c, k, lead, t, trail);
    assert Body(d) == Body(c) && Body(d.next) == Body(t);
    TextPieces(c);
    TextPieces(d);
    TextPieces(d.next);
    hide Text, Body, Splice;
    GapInsert(Body(c), c.gap, Text(c.next), k, lead, Body(t), trail);
  }

  lemma InsertFirstText(c: Forest, k: nat, lead: string, t: Forest, trail: string)
    requires c.Cons? && !c.empty && t.Cons? && k <= |c.head|
    ensures |OpenText(c)| + k <= |Text(c)|
    ensures Text(InsertFirst(c, k, lead, t, trail)) == Splice(Text(c), |OpenText(c)| + k, |OpenText(c)| + k,
        lead + (Body(t) + trail))
  {
    var d := InsertFirst(c, k, lead, t, trail);
    assert OpenText(d) == OpenText(c) && Body(d.kids) == Body(t) && Behind(d) == Behind(c);
    hide Text, Body, Splice, OpenText, Behind;
    TextPieces(c);
    TextPieces(d);
    TextPieces(d.kids);
    var g := trail + c.head[k..];
    Assoc(Body(t), g + Text(c.kids), Behind(c));
    Assoc(g, Text(c.kids), Behind(c));
    GapInsert(OpenText(c), c.head, Text(c.kids) + Behind(c), k, lead, Body(t), trail);
  }

  lemma SplitDataText(c: Forest, name: string, data: string)
    requires c.Cons? && c.empty && c.kids.Nil?
    ensures |c.tag| + 1 <= |Text(c)|
    ensures Text(SplitData(c, name, data)) == Splice(Text(c), |c.tag|, |c.tag| + 1, ">" + (data + ("</" + name)))
  {
    var d := SplitData(c, name, data);
    var rest := c.gap + Text(c.next);
    assert Text(c.kids) == "";
    assert OpenText(c) == c.tag + "/>" && OpenText(d) == c.tag + ">";
    TextPieces(c);
    TextPieces(d);
    assert Behind(d) == EndTagOf(name) + rest;
    hide Text, Body, OpenText, Behind, Splice, SplitData;
    assert "" + Behind(d) == Behind(d);
    OpenUp(c.tag, rest, name, data);
  }

  lemma OpenUp(tag: string, rest: string, name: string, data: string)
    ensures var w := (tag + "/>") + rest;
      var inner := data + (EndTagOf(name) + rest);
      Splice(w, |tag|, |tag| + 1, ">" + (data + ("</" + name))) == (tag + ">") + inner
  {
    var w := (tag + "/>") + rest;
    assert w[..|tag|] == tag;
    assert w[|tag| + 1..] == ">" + rest;
    var front := "</" + name;
    assert EndTagOf(name) + rest == front + (">" + rest);
    Assoc(tag, ">", data + (front + (">" + rest)));
    Assoc(">", data, front + (">" + rest));
    assert (">" + (data + front)) + (">" + rest) == ">" + (data + (front + (">" + rest)));
  }

  /** What replaces the slash of an empty element that is opened up around an element. */
  function SplitInsert(ins: string, name: string): string { ">" + (CRLF + (ins + ("</" + name))) }

  lemma InsertSplitText(c: Forest, name: string, lead: string, t: Forest, trail: string)
    requires c.Cons? && c.empty && c.kids.Nil? && t.Cons?
    ensures |c.tag| + 1 <= |Text(c)|
    ensures Text(InsertSplit(c, name, lead, t, trail)) == Splice(Text(c), |c.tag|, |c.tag| + 1,
        SplitInsert(lead + (Body(t) + trail), name))
  {
    var d := SplitData(c, name, CRLF);
    var ins := lead + (Body(t) + trail);
    SplitDataText(c, name, CRLF);
    assert |OpenText(d)| == |c.tag| + 1;
    InsertFirstText(d, 2, lead, t, trail);
    hide Text, Body, SplitData, InsertFirst, OpenText;
    SpliceIn(Text(c), |c.tag|, CRLF, "</" + name, ins);
  }

  /** An insertion behind the front of what has just been put in. */
  lemma SpliceIn(s: string, i: nat, front: string, back: string, ins: string)
    requires i + 1 <= |s|
    ensures var w := Splice(s, i, i + 1, ">" + (front + back));
      var at := i + 1 + |front|;
      at <= |w| && Splice(w, at, at, ins) == Splice(s, i, i + 1, ">" + (front + (ins + back)))
  {
    var w := Splice(s, i, i + 1, ">" + (front + back));
    var at := i + 1 + |front|;
    assert w[..at] == s[..i] + (">" + front);
    assert w[at..] == back + s[i + 1..];
  }

  lemma GapRemove(f: string, b: string, g: string, q: string, k: nat)
    requires k <= |g|
    ensures var w := f + (b + (g + q));
      Splice(w, |f|, |f| + |b| + k, "") == f + (g[k..] + q)
  {
    var w := f + (b + (g + q));
    assert w[..|f|] == f;
    assert w[|f| + |b| + k..] == g[k..] + q;
  }

  lemma RemoveNextText(c: Forest, k: nat)
    requires c.Cons? && c.next.Cons? && k <= |c.next.gap|
    ensures var i := |Body(c)| + |c.gap|;
      i + |Body(c.next)| + k <= |Text(c)| && Text(RemoveNext(c, k)) == Splice(Text(c), i, i + |Body(c.next)| + k, "")
  {
    hide *;
    var r := c.next;
    var d := RemoveNext(c, k);
    RemoveNextIs(c, k);
    TextPieces(c);
    TextPieces(r);
    TextPieces(d);
    RemoveBehind(Body(c), c.gap, Body(r), r.gap, Text(r.next), k);
  }

  lemma RemoveNextIs(c: Forest, k: nat)
    requires c.Cons? && c.next.Cons? && k <= |c.next.gap|
    ensures var d := RemoveNext(c, k);
      d.Cons? && Body(d) == Body(c) && d.gap == c.gap + c.next.gap[k..] && d.next == c.next.next
  {
  }

  lemma RemoveBehind(b: string, gap: string, t: string, g: string, q: string, k: nat)
    requires k <= |g|
    ensures var w := b + (gap + (t + (g + q)));
      var i := |b| + |gap|;
      var gap' := gap + g[k..];
      Splice(w, i, i + |t| + k, "") == b + (gap' + q)
  {
    hide Splice;
    Assoc(b, gap, t + (g + q));
    Assoc(b, gap, g[k..] + q);
    Assoc(gap, g[k..], q);
    GapRemove(b + gap, t, g, q, k);
  }

  lemma RemoveFirstText(c: Forest, k: nat)
    requires c.Cons? && !c.empty && c.kids.Cons? && k <= |c.kids.gap|
    ensures var i := |OpenText(c)| + |c.head|;
      i + |Body(c.kids)| + k <= |Text(c)| && Text(RemoveFirst(c, k)) == Splice(Text(c), i, i + |Body(c.kids)| + k, "")
  {
    var r := c.kids;
    var d := RemoveFirst(c, k);
    assert OpenText(d) == OpenText(c) && Behind(d) == Behind(c);
    hide Text, Body, Splice, OpenText, Behind;
    TextPieces(c);
    TextPieces(r);
    TextPieces(d);
    var q := Text(r.next) + Behind(c);
    Assoc(Body(r), r.gap + Text(r.next), Behind(c));
    Assoc(r.gap, Text(r.next), Behind(c));
    RemoveBehind(OpenText(c), c.head, Body(r), r.gap, q, k);
  }

  lemma WithTagText(c: Forest, i: nat, j: nat, ins: string)
    requires c.Cons? && i <= j <= |c.tag|
    ensures |c.tag| <= |Text(c)|
    ensures Text(c.(tag := Splice(c.tag, i, j, ins))) == Splice(Text(c), i, j, ins)
  {
    var d := c.(tag := Splice(c.tag, i, j, ins));
    var close := if c.empty then "/>" else ">";
    assert OpenText(c) == c.tag + close && OpenText(d) == d.tag + close;
    assert Behind(d) == Behind(c);
    hide Text, Body, OpenText, Behind, Splice;
    TextPieces(c);
    TextPieces(d);
    var rest := if c.empty then c.gap + Text(c.next) else c.head + (Text(c.kids) + Behind(c));
    Assoc(c.tag, close, rest);
    Assoc(d.tag, close, rest);
    FrontSplice(c.tag, close + rest, i, j, ins);
  }

  lemma FrontSplice(s: string, q: string, i: nat, j: nat, ins: string)
    requires i <= j <= |s|
    ensures Splice(s + q, i, j, ins) == Splice(s, i, j, ins) + q
  {
    assert (s + q)[..i] == s[..i] && (s + q)[j..] == s[j..] + q;
  }

  lemma WithHeadText(c: Forest, data: string)
    requires c.Cons? && !c.empty
    ensures |OpenText(c)| + |c.head| <= |Text(c)|
    ensures Text(c.(head := data)) == Splice(Text(c), |OpenText(c)|, |OpenText(c)| + |c.head|, data)
  {
    var d := c.(head := data);
    TextPieces(c);
    TextPieces(d);
    assert OpenText(d) == OpenText(c) && Behind(d) == Behind(c);
    var rest := Text(c.kids) + Behind(c);
    assert Splice(c.head, 0, |c.head|, data) == data;
    hide Text, Body, OpenText, Behind, Splice;
    SpliceInside(OpenText(c), c.head, rest, 0, |c.head|, data);
  }
}
