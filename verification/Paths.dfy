/**
  Finding elements by path, and what the array says about an element of the tree.
 */
module Paths {
  import opened Scanner
  import opened Parser
  import opened ParserProofs
  import opened RoundTrip
  import opened Index
  import opened Layout
  import opened Places
  import opened Surgery
  import opened States

  /** What a path finds among the siblings `f`: each step takes the first sibling of that
      name (or the first of any name), and a slash goes on among its children. */
  function FindPath(f: Forest, path: string, o: nat): (id: nat)
    requires o <= |path|
    ensures id != 0 ==> id in Ids(f)
    decreases f
  {
    hide TagName, Match;
    if f.Nil? then 0
    else if o < |path| && path[o] == '*' then
      if o + 1 < |path| && path[o + 1] == '/' then FindPath(f.kids, path, o + 2) else f.id
    else if Match(TagName(f), path[o..]) then
      MatchFits(TagName(f), path, o);
      var e := o + |TagName(f)|;
      if e < |path| && path[e] == '/' then FindPath(f.kids, path, e + 1) else f.id
    else FindPath(f.next, path, o)
  }

  lemma MatchFits(name: string, path: string, o: nat)
    requires o <= |path| && Match(name, path[o..])
    ensures o + |name| <= |path|
  {
  }

  /** `x_FindElem`: an absolute path starts at the root, any other behind `pos`, or at the
      first child of `par`. */
  function Search(tree: Forest, par: nat, pos: nat, path: string): (id: nat)
    ensures id != 0 ==> id in Ids(tree)
  {
    hide FindPath;
    var slash := path != "" && path[0] == '/';
    var list := if slash then tree else Later(tree, par, pos);
    LaterIds(tree, par, pos);
    var o := if slash then 1 else 0;
    if o == |path| then (if list.Nil? then 0 else list.id) else FindPath(list, path, o)
  }

  /** The siblings after `pos`, or the children of `par`. */
  function Later(tree: Forest, par: nat, pos: nat): Forest {
    if pos != 0 then (if Find(tree, pos).Nil? then Nil else Find(tree, pos).next)
    else if par != 0 then (if Find(tree, par).Nil? then Nil else Find(tree, par).kids)
    else tree
  }

  lemma {:induction false} FindIds(f: Forest, id: nat)
    ensures Ids(Find(f, id)) <= Ids(f)
  {
    if f.Cons? {
      FindIds(f.kids, id);
      FindIds(f.next, id);
    }
  }

  lemma LaterIds(tree: Forest, par: nat, pos: nat)
    ensures Ids(Later(tree, par, pos)) <= Ids(tree)
  {
    FindIds(tree, pos);
    FindIds(tree, par);
  }

  // ---- what a path means ----

  /** A step of a path: a name, or `*` for any. */
  predicate IsStep(step: string) { step == "*" || SimpleName(step) }

  predicate SimpleName(name: string) {
    && name != "" && name[0] != '*'
    && forall i :: 0 <= i < |name| ==> name[i] != '/' && name[i] != ' ' && name[i] != '=' && name[i] != '['
  }

  predicate AllSteps(steps: seq<string>) { forall i :: 0 <= i < |steps| ==> IsStep(steps[i]) }

  /** The path of some steps, with slashes between them. */
  function Slashed(steps: seq<string>): string
    requires steps != []
  {
    steps[0] + if |steps| == 1 then "" else "/" + Slashed(steps[1..])
  }

  /** The first sibling that a step names. */
  function FirstNamed(f: Forest, step: string): Forest {
    if f.Nil? || step == "*" || TagName(f) == step then f else FirstNamed(f.next, step)
  }

  /** The first element that the first step names, then the first of its children that the next
      one names, and so on; other elements that a step names are not tried. */
  function StepWise(f: Forest, steps: seq<string>): nat
    requires steps != []
    decreases |steps|
  {
    var c := FirstNamed(f, steps[0]);
    if c.Nil? then 0 else if |steps| == 1 then c.id else StepWise(c.kids, steps[1..])
  }

  /** This is what a path finds. */
  lemma {:induction false} FindPathSteps(f: Forest, path: string, o: nat, steps: seq<string>)
    requires steps != [] && AllSteps(steps) && o <= |path| && path[o..] == Slashed(steps)
    ensures FindPath(f, path, o) == StepWise(f, steps)
    decreases f
  {
    hide *;
    FindPathTurn(f, path, o);
    StepWiseTurn(f, steps);
    if f.Cons? {
      NameChars(f);
      PathTurn(TagName(f), path, o, steps);
      if steps[0] == "*" || TagName(f) == steps[0] {
        if |steps| > 1 { FindPathSteps(f.kids, path, o + |steps[0]| + 1, steps[1..]); }
      } else {
        FindPathSteps(f.next, path, o, steps);
      }
    }
  }

  lemma StepWiseTurn(f: Forest, steps: seq<string>)
    requires steps != []
    ensures f.Nil? ==> StepWise(f, steps) == 0
    ensures f.Cons? ==>
      StepWise(f, steps) ==
        if steps[0] == "*" || TagName(f) == steps[0] then
          if |steps| == 1 then f.id else StepWise(f.kids, steps[1..])
        else StepWise(f.next, steps)
  {
    hide TagName;
  }

  /** What the search sees of a path at an element of this name. */
  lemma PathTurn(name: string, path: string, o: nat, steps: seq<string>)
    requires steps != [] && AllSteps(steps) && o <= |path| && path[o..] == Slashed(steps)
    requires forall i :: 0 <= i < |name| ==> name[i] != '/'
    ensures var e := o + |steps[0]|;
      && e <= |path| && (o < |path| && path[o] == '*' <==> steps[0] == "*")
      && (if |steps| == 1 then e == |path|
          else e < |path| && path[e] == '/' && path[e + 1..] == Slashed(steps[1..]) && AllSteps(steps[1..]))
      && (steps[0] != "*" ==> (Match(name, path[o..]) <==> name == steps[0]))
  {
    hide *;
    var step, rest := steps[0], path[o..];
    SlashedParts(steps);
    StepFirst(steps);
    FrontOf(path, o, step, rest, if |steps| == 1 then "" else "/" + Slashed(steps[1..]));
    if |steps| > 1 { BehindSlash(path, o, step, Slashed(steps[1..])); }
    if step != "*" { MatchStep(name, rest, step); }
  }

  lemma SlashedParts(steps: seq<string>)
    requires steps != []
    ensures Slashed(steps) == steps[0] + if |steps| == 1 then "" else "/" + Slashed(steps[1..])
  {
  }

  lemma StepFirst(steps: seq<string>)
    requires steps != [] && AllSteps(steps)
    ensures AllSteps(steps[1..]) && |steps[0]| > 0 && (steps[0] == "*" || SimpleName(steps[0]))
    ensures steps[0] == "*" <==> steps[0][0] == '*'
  {
    assert IsStep(steps[0]);
  }

  lemma FrontOf(path: string, o: nat, step: string, rest: string, more: string)
    requires o <= |path| && rest == path[o..] == step + more && |step| > 0
    ensures o + |step| <= |path| && path[o] == step[0] && |step| <= |rest| && rest[..|step|] == step
    ensures |path| == o + |step| + |more| && (more != "" ==> rest[|step|] == more[0] && |step| < |rest|)
  {
    assert path[o] == rest[0];
  }

  lemma BehindSlash(path: string, o: nat, step: string, more: string)
    requires o <= |path| && path[o..] == step + ("/" + more)
    ensures var e := o + |step|; e < |path| && path[e] == '/' && path[e + 1..] == more
  {
    var rest := path[o..];
    assert path[o + |step|] == rest[|step|];
    assert path[o + |step| + 1..] == rest[|step| + 1..] == more;
  }

  lemma MatchStep(name: string, rest: string, step: string)
    requires SimpleName(step) && |step| <= |rest| && rest[..|step|] == step && (|step| < |rest| ==> rest[|step|] == '/')
    requires forall i :: 0 <= i < |name| ==> name[i] != '/'
    ensures Match(name, rest) <==> name == step
  {
    assert forall i :: 0 <= i < |step| ==> rest[i] == step[i];
    if |name| <= |rest| { assert forall i :: 0 <= i < |name| ==> rest[..|name|][i] == rest[i]; }
  }

  /** No tag name holds a slash. */
  lemma NameChars(c: Forest)
    requires c.Cons?
    ensures forall i :: 0 <= i < |TagName(c)| ==> TagName(c)[i] != '/'
  {
    hide NextTag;
    if NextTag(OpenText(c), 0).OpenTag? { TagChars(OpenText(c), 0); }
  }

  lemma {:induction false} TagChars(s: string, n: nat)
    requires n <= |s| && NextTag(s, n).OpenTag?
    ensures forall i :: 0 <= i < |NextTag(s, n).name| ==> NextTag(s, n).name[i] != '/'
    decreases |s| - n
  {
    hide FindToken, ParseNode, FindChar, TokenText, NextTag;
    NextTagTurn(s, n);
    var j := FindChar(s, n, '<');
    var t := FindToken(s, j + 1);
    if s[t.l] == '?' || s[t.l] == '!' {
      TagChars(s, ParseNode(s, j).next);
    } else {
      TokenChars(s, j + 1);
    }
  }

  lemma TokenChars(s: string, n: nat)
    requires n <= |s| && FindToken(s, n).found && !FindToken(s, n).isString && s[FindToken(s, n).l] != '/'
    ensures var w := TokenText(s, FindToken(s, n)); forall i :: 0 <= i < |w| ==> w[i] != '/'
  {
    TokenIs(s, n);
    hide FindToken;
    var t := FindToken(s, n);
    var w := TokenText(s, t);
    forall i | 0 <= i < |w| ensures w[i] != '/' {
      assert w[i] == s[t.l + i];
    }
  }

  /** A search by path, from the root or from the position. */
  lemma SearchSteps(tree: Forest, par: nat, pos: nat, steps: seq<string>)
    requires steps != [] && AllSteps(steps)
    ensures Search(tree, par, pos, "/" + Slashed(steps)) == StepWise(tree, steps)
    ensures var path, from := Slashed(steps), Find(tree, if pos != 0 then pos else par);
      && (from.Cons? && pos != 0 ==>
            Search(tree, par, pos, path) == StepWise(from.next, steps) && Search(tree, par, pos, "") == Id(from.next))
      && (from.Cons? && pos == 0 && par != 0 ==>
            Search(tree, par, pos, path) == StepWise(from.kids, steps) && Search(tree, par, pos, "") == Id(from.kids))
      && (pos == 0 && par == 0 ==>
            Search(tree, par, pos, path) == StepWise(tree, steps) && Search(tree, par, pos, "") == Id(tree))
  {
    hide FindPath, StepWise, Match, TagName;
    var path := Slashed(steps);
    assert path[0..] == path && ("/" + path)[1..] == path;
    assert IsStep(steps[0]) && path[0] == steps[0][0] != '/';
    SearchIs(tree, par, pos, path);
    SearchIs(tree, par, pos, "/" + path);
    FindPathSteps(Later(tree, par, pos), path, 0, steps);
    FindPathSteps(tree, "/" + path, 1, steps);
  }

  /** The name the scanner reads at an element is the name of its tag. */
  lemma NameAt(doc: string, prolog: string, x: Ctx, c: Forest)
    requires CtxOK(x) && c.Cons? && WFRoot(Fill(x, c)) && doc == prolog + Text(Fill(x, c))
    ensures var p := HolePos(x, |prolog|);
      && p < |doc| && FindToken(doc, p + 1).found && TokenText(doc, FindToken(doc, p + 1)) == TagName(c)
      && FindToken(doc, p + 1).next <= |doc| && |TagName(c)| == FindToken(doc, p + 1).r - FindToken(doc, p + 1).l + 1
      && !FindToken(doc, p + 1).isString
  {
    hide *;
    var p := HolePos(x, |prolog|);
    GapAt(doc, prolog, x, c);
    FitsFill(x, c, c);
    FitsCell(x, c);
    BodyHas(c, doc, p);
    TagOf(c);
    OpenHas(c, doc, p);
    NextTagHere(doc, p);
    TokenLen(doc, FindToken(doc, p + 1));
  }

  lemma TagOf(c: Forest)
    requires c.Cons? && CellOK(c)
    ensures TagOK(c)
  {
  }

  lemma TokenLen(s: string, t: Token)
    requires t.l <= t.r + 1 <= |s|
    ensures |TokenText(s, t)| == t.r - t.l + 1
  {
  }

  /** The parent of an element is an element, or the document. */
  lemma ParentOf(doc: string, a: seq<ElemPos>, free: nat, prolog: string, f: Forest, id: nat)
    requires State(doc, a, free, prolog, f) && id in Ids(f)
    ensures id < |a| && id != 0 && (a[id].parent == 0 || a[id].parent in Ids(f)) && a[id].parent < |a|
  {
    hide *;
    StateIs(doc, a, free, prolog, f);
    var x, c := Locate(f, id);
    PlaceFacts(doc, a, free, prolog, x, c);
    EntryParent(c, HolePos(x, |prolog|), TextLen(c.kids), Par(x), Id(c.kids), Id(c.next));
    IdIn(c, x, free);
    FillIds(x, c);
    ParIn(a, x, |prolog|, TextLen(c), c.id);
  }

  lemma IdIn(c: Forest, x: Ctx, free: nat)
    requires CtxOK(x) && c.Cons? && forall i :: i in CtxIds(x) + Ids(c) ==> 0 < i < free
    ensures c.id != 0
  {
    assert c.id in CtxIds(x) + Ids(c);
  }

  lemma EntryParent(c: Forest, p: nat, k: nat, parent: nat, child: nat, next: nat)
    requires c.Cons?
    ensures var e := Entry(c, p, k, parent, child, next);
      && e.parent == parent && e.child == child && e.next == next && e.startL == p && e.startR == p + OpenLen(c) - 1
      && (e.IsEmptyElement() <==> c.empty) && (!c.empty ==> e.endL == p + OpenLen(c) + |c.head| + k)
      && (c.empty ==> e.endL == e.startR - 1) && e.endR + 1 == p + BodyLen(c, k)
  {
  }

  lemma {:induction false} ParIn(a: seq<ElemPos>, x: Ctx, base: nat, k: nat, first: nat)
    requires CtxOK(x) && RepCtx(a, x, base, k, first)
    ensures Par(x) == 0 || Par(x) in CtxIds(x)
    ensures Par(x) < |a|
    decreases x
  {
    match x
    case Top =>
    case Sib(c, up) => ParIn(a, up, base, BodyLen(c, TextLen(c.kids)) + |c.gap| + k, c.id);
    case Child(c, up) =>
  }

  /** Everything the array says about one element. */
  lemma EntryAt(doc: string, a: seq<ElemPos>, free: nat, prolog: string, x: Ctx, c: Forest)
    requires CtxOK(x) && c.Cons? && State(doc, a, free, prolog, Fill(x, c))
    ensures 0 < c.id < |a| && c.id < free && c.id in Ids(Fill(x, c))
    ensures var e, p := a[c.id], HolePos(x, |prolog|);
      && e.parent == Par(x) && e.child == Id(c.kids) && e.next == Id(c.next) && e.startL == p
      && e.startR == p + |OpenText(c)| - 1
      && (e.IsEmptyElement() <==> c.empty) && (!c.empty ==> e.endL == p + |OpenText(c)| + |c.head| + |Text(c.kids)|)
      && (c.empty ==> e.endL == e.startR - 1) && e.endR + 1 == p + |Body(c)| && |OpenText(c)| == OpenLen(c)
  {
    hide *;
    StateIs(doc, a, free, prolog, Fill(x, c));
    PlaceFacts(doc, a, free, prolog, x, c);
    EntryParent(c, HolePos(x, |prolog|), TextLen(c.kids), Par(x), Id(c.kids), Id(c.next));
    TextLenIs(c);
    TextLenIs(c.kids);
    OpenLenIs(c);
    IdIn(c, x, free);
    FillIds(x, c);
    CellId(c, x, free);
  }

  lemma CellId(c: Forest, x: Ctx, free: nat)
    requires CtxOK(x) && c.Cons? && forall i :: i in CtxIds(x) + Ids(c) ==> 0 < i < free
    ensures c.id in Ids(c) && c.id < free
  {
    assert c.id in CtxIds(x) + Ids(c);
  }

  lemma OpenLenIs(c: Forest)
    requires c.Cons?
    ensures |OpenText(c)| == OpenLen(c)
  {
  }

  /** Indices other than 0 are elements. */
  lemma IdOf(f: Forest)
    requires Distinct(f)
    ensures Id(f) == 0 <==> f.Nil?
  {
  }

  lemma PartsDistinct(x: Ctx, c: Forest)
    requires CtxOK(x) && c.Cons? && Distinct(Fill(x, c))
    ensures Distinct(c) && Distinct(c.kids) && Distinct(c.next)
  {
    hide Fill, CtxIds, DistinctCtx;
    FillIds(x, c);
  }

  /** One turn of the search. */
  lemma FindPathTurn(f: Forest, path: string, o: nat)
    requires o <= |path|
    ensures f.Nil? ==> FindPath(f, path, o) == 0
    ensures f.Cons? ==>
      FindPath(f, path, o) ==
        if o < |path| && path[o] == '*' then
          if o + 1 < |path| && path[o + 1] == '/' then FindPath(f.kids, path, o + 2) else f.id
        else if Match(TagName(f), path[o..]) then
          MatchFits(TagName(f), path, o);
          var e := o + |TagName(f)|;
          if e < |path| && path[e] == '/' then FindPath(f.kids, path, e + 1) else f.id
        else FindPath(f.next, path, o)
  {
    hide TagName, Match;
  }

  lemma SearchIs(tree: Forest, par: nat, pos: nat, path: string)
    ensures var slash := path != "" && path[0] == '/';
      var list, o := if slash then tree else Later(tree, par, pos), if slash then 1 else 0;
      Search(tree, par, pos, path) == if o == |path| then Id(list) else FindPath(list, path, o)
  {
    hide FindPath, Later;
  }

  lemma LaterIs(tree: Forest, par: nat, pos: nat, x: Ctx, c: Forest)
    requires CtxOK(x) && c.Cons? && Fill(x, c) == tree && Distinct(tree)
    ensures pos == c.id && pos != 0 ==> Later(tree, par, pos) == c.next
    ensures pos == 0 && par == c.id && par != 0 ==> Later(tree, par, pos) == c.kids
  {
    hide Fill, Distinct;
    FindFill(x, c);
  }

  /** What the array and the text say of an element, in one place. */
  lemma ElemAt(doc: string, a: seq<ElemPos>, free: nat, prolog: string, tree: Forest, x: Ctx, c: Forest)
    requires CtxOK(x) && c.Cons? && Fill(x, c) == tree && State(doc, a, free, prolog, tree)
    ensures 0 < c.id < |a| && c.id < free && c.id in Ids(tree)
    ensures var e, p := a[c.id], HolePos(x, |prolog|);
      && e.parent == Par(x) && e.child == Id(c.kids) && e.next == Id(c.next) && e.startL == p
      && e.startR == p + |OpenText(c)| - 1
      && (e.IsEmptyElement() <==> c.empty) && (!c.empty ==> e.endL == p + |OpenText(c)| + |c.head| + |Text(c.kids)|)
      && (c.empty ==> e.endL == e.startR - 1) && e.endR + 1 == p + |Body(c)| && |OpenText(c)| == OpenLen(c)
    ensures HolePos(x, |prolog|) < |doc|
    ensures var t := FindToken(doc, HolePos(x, |prolog|) + 1);
      t.found && !t.isString && t.next <= |doc| && TokenText(doc, t) == TagName(c) && |TagName(c)| == t.r - t.l + 1
    ensures CtxOK(Sib(c, x)) && Fill(Sib(c, x), c.next) == tree && (Id(c.next) == 0 <==> c.next.Nil?)
    ensures CtxOK(Child(c, x)) && Fill(Child(c, x), c.kids) == tree && (Id(c.kids) == 0 <==> c.kids.Nil?)
  {
    hide *;
    EntryAt(doc, a, free, prolog, x, c);
    StateIs(doc, a, free, prolog, tree);
    LaidDistinct(doc, a, free, prolog, tree);
    FillCons(x, c);
    NameAt(doc, prolog, x, c);
    SibStep(x, c);
    KidStep(x, c);
    PartsDistinct(x, c);
    IdOf(c.next);
    IdOf(c.kids);
  }

  lemma FillCons(x: Ctx, c: Forest)
    requires CtxOK(x) && c.Cons?
    ensures Fill(x, c).Cons?
  {
    FillTop(x, c, c);
  }
}
