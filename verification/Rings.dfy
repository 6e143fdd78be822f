/**
  The circular doubly linked list of `list.h`: a head and its entries, linked both ways in
  a ring.
 */
module Rings {

  class ListHead {
    var next: ListHead?
    var prev: ListHead?

    /** `INIT_LIST_HEAD` on a new node. */
    constructor ()
      ensures IsList(this, [])
    {
      next := this;
      prev := this;
    }

    /** `INIT_LIST_HEAD`. */
    method Init()
      modifies this
      ensures IsList(this, [])
    {
      next := this;
      prev := this;
    }
  }

  /** Neighbours, linked both ways. */
  ghost predicate Joined(a: ListHead, b: ListHead)
    reads a, b
  {
    a.next == b && b.prev == a
  }

  ghost predicate Distinct(c: seq<ListHead>) { forall i, j :: 0 <= i < j < |c| ==> c[i] != c[j] }

  /** Each node is joined to the one behind it. */
  ghost predicate Path(c: seq<ListHead>)
    reads c
  {
    forall i, j :: 0 <= i && j == i + 1 && j < |c| ==> Joined(c[i], c[j])
  }

  /** Distinct nodes, joined in order, and the last to the first. */
  ghost predicate Ring(c: seq<ListHead>)
    reads c
  {
    |c| > 0 && Distinct(c) && Path(c + [c[0]])
  }

  /** The list of a head: its entries in order. */
  ghost predicate IsList(head: ListHead, xs: seq<ListHead>)
    reads head, xs
  {
    Ring([head] + xs)
  }

  // ---- paths ----

  lemma PathSplit(a: seq<ListHead>, b: seq<ListHead>)
    requires Path(a + b)
    ensures Path(a) && Path(b) && (a != [] && b != [] ==> Joined(a[|a| - 1], b[0]))
  {
    var c := a + b;
    forall i, j | 0 <= i && j == i + 1 && j < |a| ensures Joined(a[i], a[j]) {
      assert Joined(c[i], c[j]);
    }
    forall i, j | 0 <= i && j == i + 1 && j < |b| ensures Joined(b[i], b[j]) {
      assert Joined(c[|a| + i], c[|a| + j]);
    }
    if a != [] && b != [] { assert Joined(c[|a| - 1], c[|a|]); }
  }

  lemma PathJoin(a: seq<ListHead>, b: seq<ListHead>)
    requires Path(a) && Path(b) && (a != [] && b != [] ==> Joined(a[|a| - 1], b[0]))
    ensures Path(a + b)
  {
    var c := a + b;
    forall i, j | 0 <= i && j == i + 1 && j < |c| ensures Joined(c[i], c[j]) {
      if j < |a| {
        assert Joined(a[i], a[j]);
      } else if i >= |a| {
        assert Joined(b[i - |a|], b[j - |a|]);
      }
    }
  }

  /** A path does not see what its first node has in front, nor its last node behind. */
  twostate lemma PathKept(c: seq<ListHead>)
    requires old(Path(c))
    requires forall i :: 0 <= i < |c| - 1 ==> c[i].next == old(c[i].next)
    requires forall i :: 0 < i < |c| ==> c[i].prev == old(c[i].prev)
    ensures Path(c)
  {
    forall i, j | 0 <= i && j == i + 1 && j < |c| ensures Joined(c[i], c[j]) {
      assert old(Joined(c[i], c[j]));
    }
  }

  lemma DistinctSwap(a: seq<ListHead>, b: seq<ListHead>)
    requires Distinct(a + b)
    ensures Distinct(b + a)
  {
    var c, d := a + b, b + a;
    forall i, j | 0 <= i < j < |d| ensures d[i] != d[j] {
      var k, m := if i < |b| then i + |a| else i - |b|, if j < |b| then j + |a| else j - |b|;
      assert d[i] == c[k] && d[j] == c[m] && k != m;
    }
  }

  lemma DistinctParts(a: seq<ListHead>, b: seq<ListHead>)
    ensures Distinct(a + b) <==> Distinct(a) && Distinct(b) && forall x :: x in a ==> x !in b
  {
    var c := a + b;
    if Distinct(c) {
      forall i, j | 0 <= i < j < |a| ensures a[i] != a[j] { assert c[i] != c[j]; }
      forall i, j | 0 <= i < j < |b| ensures b[i] != b[j] { assert c[|a| + i] != c[|a| + j]; }
      forall i, j | 0 <= i < |a| && 0 <= j < |b| ensures a[i] != b[j] { assert c[i] != c[|a| + j]; }
    } else if Distinct(a) && Distinct(b) && forall x :: x in a ==> x !in b {
      forall i, j | 0 <= i < j < |c| ensures c[i] != c[j] {
        if i < |a| && |a| <= j { assert a[i] in a && b[j - |a|] in b; }
      }
    }
  }

  /** Any node may be taken for the head of its ring. */
  lemma Rotate(a: seq<ListHead>, b: seq<ListHead>)
    requires Ring(a + b)
    ensures |b + a| > 0 && Ring(b + a)
  {
    DistinctSwap(a, b);
    if a == [] || b == [] {
      assert a + b == b + a;
    } else {
      assert (a + b) + [a[0]] == a + (b + [a[0]]);
      PathSplit(a, b + [a[0]]);
      PathSplit(b, [a[0]]);
      PathSplit(a, [b[0]]) by { PathJoin(a, [b[0]]); }
      PathJoin(b, a);
      PathJoin(b + a, [b[0]]);
    }
  }

  lemma Ends(head: ListHead, xs: seq<ListHead>)
    requires IsList(head, xs)
    ensures head.next == (xs + [head])[0] && head.prev == ([head] + xs)[|xs|]
    ensures Path([head] + xs) && Path(xs + [head]) && Distinct([head] + xs) && head !in xs && Distinct(xs)
  {
    assert ([head] + xs) + [head] == [head] + (xs + [head]);
    PathSplit([head], xs + [head]);
    PathSplit([head] + xs, [head]);
    DistinctParts([head], xs);
  }

  lemma MakeList(head: ListHead, xs: seq<ListHead>)
    requires Distinct([head] + xs) && Path([head] + (xs + [head]))
    ensures IsList(head, xs)
  {
    assert ([head] + xs) + [head] == [head] + (xs + [head]);
  }

  // ---- links ----

  /** `__list_add`. */
  method InsertBetween(newe: ListHead, prev: ListHead, next: ListHead)
    requires newe != prev && newe != next
    modifies newe, next`prev, prev`next
    ensures Joined(prev, newe) && Joined(newe, next)
  {
    next.prev := newe;
    newe.next := next;
    newe.prev := prev;
    prev.next := newe;
  }

  /** `__list_del`. */
  method Bridge(prev: ListHead, next: ListHead)
    modifies next`prev, prev`next
    ensures Joined(prev, next)
  {
    next.prev := prev;
    prev.next := next;
  }

  // ---- adding ----

  /** `list_add`: the new entry comes first. */
  method ListAdd(newe: ListHead, head: ListHead, ghost xs: seq<ListHead>)
    requires IsList(head, xs) && newe !in [head] + xs
    modifies newe, head, head.next
    ensures IsList(head, [newe] + xs)
  {
    Ends(head, xs);
    InsertBetween(newe, head, head.next);
    PathKept(xs + [head]);
    PathJoin([newe], xs + [head]);
    PathJoin([head], [newe] + (xs + [head]));
    DistinctParts([newe], xs);
    DistinctParts([head], [newe] + xs);
    assert [newe] + (xs + [head]) == ([newe] + xs) + [head];
    MakeList(head, [newe] + xs);
  }

  /** `list_add` with an entry for the head: the new entry comes right behind it. */
  method ListAddBehind(newe: ListHead, entry: ListHead, ghost head: ListHead, ghost front: seq<ListHead>,
      ghost back: seq<ListHead>)
    requires IsList(head, front + [entry] + back) && newe !in [head] + (front + [entry] + back)
    modifies newe, entry, entry.next
    ensures IsList(head, front + [entry, newe] + back)
  {
    ghost var a := [head] + front;
    assert [head] + (front + [entry] + back) == a + ([entry] + back);
    Rotate(a, [entry] + back);
    assert ([entry] + back) + a == [entry] + (back + a);
    ListAdd(newe, entry, back + a);
    assert [entry] + ([newe] + (back + a)) == ([entry, newe] + back) + a;
    Rotate([entry, newe] + back, a);
    assert a + ([entry, newe] + back) == [head] + (front + [entry, newe] + back);
  }

  /** `list_add_tail`: the new entry comes last. */
  method ListAddTail(newe: ListHead, head: ListHead, ghost xs: seq<ListHead>)
    requires IsList(head, xs) && newe !in [head] + xs
    modifies newe, head, head.prev
    ensures IsList(head, xs + [newe])
  {
    Ends(head, xs);
    InsertBetween(newe, head.prev, head);
    PathKept([head] + xs);
    PathJoin([newe], [head]);
    PathJoin([head] + xs, [newe] + [head]);
    DistinctParts([head] + xs, [newe]);
    assert ([head] + xs) + [newe] == [head] + (xs + [newe]);
    assert ([head] + xs) + ([newe] + [head]) == [head] + ((xs + [newe]) + [head]);
    MakeList(head, xs + [newe]);
  }

  // ---- deleting ----

  /** The two pointers of a list entry. */
  lemma Around(head: ListHead, front: seq<ListHead>, entry: ListHead, back: seq<ListHead>)
    requires IsList(head, front + [entry] + back)
    ensures entry.prev == ([head] + front)[|front|] && entry.next == (back + [head])[0]
    ensures Path([head] + front) && Path(back + [head]) && Distinct([head] + (front + back))
        && entry !in [head] + (front + back)
    ensures var a, b := [head] + front, back + [head];
      && (forall i :: 0 < i < |a| ==> a[i] != b[0]) && (forall i :: 0 <= i < |a| - 1 ==> a[i] != a[|a| - 1])
      && (forall i :: 0 < i < |b| ==> b[i] != b[0]) && (forall i :: 0 <= i < |b| - 1 ==> b[i] != a[|a| - 1])
  {
    Ends(head, front + [entry] + back);
    var a, b := [head] + front, back + [head];
    assert [head] + (front + [entry] + back) == a + ([entry] + back);
    assert (front + [entry] + back) + [head] == (front + [entry]) + b;
    assert ([head] + (front + [entry] + back)) + [head] == a + ([entry] + b);
    PathSplit(a, [entry] + b);
    PathSplit([entry], b);
    DistinctParts(a, [entry] + back);
    DistinctParts([entry], back);
    DistinctParts(a, back);
    DistinctParts([head], front);
    DistinctParts(front, back);
    DistinctParts(back, [head]);
    assert a + back == [head] + (front + back);
    assert forall i :: 0 < i < |a| ==> a[i] in front && a[i] in a;
    assert forall i :: 0 <= i < |b| - 1 ==> b[i] in back;
    assert a[|a| - 1] in a && b[0] in b;
  }

  /** What `__list_del` leaves. */
  lemma Closed(head: ListHead, front: seq<ListHead>, back: seq<ListHead>)
    requires Path([head] + front) && Path(back + [head]) && Distinct([head] + (front + back))
    requires Joined(([head] + front)[|front|], (back + [head])[0])
    ensures IsList(head, front + back)
  {
    PathJoin([head] + front, back + [head]);
    assert ([head] + front) + (back + [head]) == [head] + ((front + back) + [head]);
    MakeList(head, front + back);
  }

  /** `__list_del` of a list entry. */
  method Unlink(entry: ListHead, ghost head: ListHead, ghost front: seq<ListHead>, ghost back: seq<ListHead>)
    requires IsList(head, front + [entry] + back)
    modifies entry.prev, entry.next
    ensures IsList(head, front + back) && entry.next == old(entry.next) && entry.prev == old(entry.prev)
  {
    Around(head, front, entry, back);
    ghost var a, b := [head] + front, back + [head];
    Bridge(entry.prev, entry.next);
    PathKept(a);
    PathKept(b);
    Closed(head, front, back);
  }

  /** `list_del`. */
  method ListDel(entry: ListHead, ghost head: ListHead, ghost front: seq<ListHead>, ghost back: seq<ListHead>)
    requires IsList(head, front + [entry] + back)
    modifies entry, entry.prev, entry.next
    ensures IsList(head, front + back) && entry.next == null && entry.prev == null
  {
    Around(head, front, entry, back);
    Unlink(entry, head, front, back);
    entry.next := null;
    entry.prev := null;
  }

  /** `list_del_init`. */
  method ListDelInit(entry: ListHead, ghost head: ListHead, ghost front: seq<ListHead>, ghost back: seq<ListHead>)
    requires IsList(head, front + [entry] + back)
    modifies entry, entry.prev, entry.next
    ensures IsList(head, front + back) && IsList(entry, [])
  {
    Around(head, front, entry, back);
    Unlink(entry, head, front, back);
    entry.Init();
  }

  // ---- moving ----

  /** `list_move`: the entry leaves the list of `from` and comes first in the list of `head`,
      which may be the same. */
  method ListMove(list: ListHead, head: ListHead, ghost from: ListHead, ghost front: seq<ListHead>,
      ghost back: seq<ListHead>, ghost xs: seq<ListHead>)
    requires IsList(from, front + [list] + back) && IsList(head, xs)
    requires if from == head then xs == front + [list] + back else Apart(from, front + [list] + back, head, xs)
    modifies list, list.prev, list.next, head, head.next
    ensures IsList(head, [list] + if from == head then front + back else xs)
    ensures from != head ==> IsList(from, front + back)
  {
    Around(from, front, list, back);
    Ends(head, xs);
    if from != head {
      MoveParts(from, front, list, back, head, xs);
    }
    Unlink(list, from, front, back);
    if from == head {
      Ends(head, front + back);
      EndsStay(front, list, back, head);
    }
    ListAdd(list, head, if from == head then front + back else xs);
  }

  /** `list_move_tail`. */
  method ListMoveTail(list: ListHead, head: ListHead, ghost from: ListHead, ghost front: seq<ListHead>,
      ghost back: seq<ListHead>, ghost xs: seq<ListHead>)
    requires IsList(from, front + [list] + back) && IsList(head, xs)
    requires if from == head then xs == front + [list] + back else Apart(from, front + [list] + back, head, xs)
    modifies list, list.prev, list.next, head, head.prev
    ensures IsList(head, (if from == head then front + back else xs) + [list])
    ensures from != head ==> IsList(from, front + back)
  {
    Around(from, front, list, back);
    Ends(head, xs);
    if from != head {
      MoveParts(from, front, list, back, head, xs);
    }
    Unlink(list, from, front, back);
    if from == head {
      Ends(head, front + back);
      EndsStay(front, list, back, head);
    }
    ListAddTail(list, head, if from == head then front + back else xs);
  }

  /** Taking an entry away changes an end of the list only if it stood there. */
  lemma EndsStay(front: seq<ListHead>, entry: ListHead, back: seq<ListHead>, head: ListHead)
    ensures ((front + back) + [head])[0] == if front == [] then (back + [head])[0]
        else ((front + [entry] + back) + [head])[0]
    ensures ([head] + (front + back))[|front + back|] == if back == [] then ([head] + front)[|front|]
        else ([head] + (front + [entry] + back))[|front + [entry] + back|]
  {
  }

  lemma MoveParts(from: ListHead, front: seq<ListHead>, list: ListHead, back: seq<ListHead>, head: ListHead,
      xs: seq<ListHead>)
    requires Apart(from, front + [list] + back, head, xs)
    ensures forall x :: x in [list] + ([from] + (front + back)) ==> x !in [head] + xs
    ensures ([from] + front)[|front|] !in [head] + xs && (back + [from])[0] !in [head] + xs
    ensures from != head && list !in [head] + xs && head !in [from] + (front + back)
        && (xs + [head])[0] !in [from] + (front + back) && ([head] + xs)[|xs|] !in [from] + (front + back)
  {
    var ys := [from] + (front + [list] + back);
    assert forall x :: x in [list] + ([from] + (front + back)) ==> x in ys;
    assert ([from] + front)[|front|] in ys && (back + [from])[0] in ys && from in ys && list in ys;
    assert (xs + [head])[0] in [head] + xs && ([head] + xs)[|xs|] in [head] + xs && head in [head] + xs;
  }

  /** Two lists without a common node. */
  ghost predicate Apart(h: ListHead, ys: seq<ListHead>, head: ListHead, xs: seq<ListHead>) {
    forall x :: x in [h] + ys ==> x !in [head] + xs
  }

  // ---- splicing ----

  lemma Strangers(list: ListHead, ys: seq<ListHead>, head: ListHead, xs: seq<ListHead>)
    requires Distinct([list] + ys) && Distinct([head] + xs) && Apart(list, ys, head, xs)
    ensures var c := xs + [head];
      && (forall i, j :: 0 <= i < |ys| && 0 <= j < |c| ==> ys[i] != c[j])
      && (forall i :: 0 <= i < |xs| ==> c[i] != head) && (forall i :: 0 < i < |c| ==> c[i] != c[0])
    ensures list !in [head] + (ys + xs) && forall x :: x in ys ==> x !in [head] + xs
  {
    var a, b, c := [list] + ys, [head] + xs, xs + [head];
    DistinctParts([list], ys);
    DistinctParts([head], xs);
    DistinctSwap([head], xs);
    assert forall i :: 0 <= i < |xs| ==> c[i] in xs;
    assert list in a && forall i :: 0 <= i < |ys| ==> ys[i] in a;
    forall i, j | 0 <= i < |ys| && 0 <= j < |c| ensures ys[i] != c[j] {
      assert ys[i] in a && c[j] in b;
    }
    forall x | x in ys ensures x !in b { assert x in a; }
  }

  /** `list_empty`. */
  method ListEmpty(head: ListHead, ghost xs: seq<ListHead>) returns (empty: bool)
    requires IsList(head, xs)
    ensures empty <==> xs == []
  {
    Ends(head, xs);
    return head.next == head;
  }

  /** `__list_splice`: the entries of `list` come first, in order. */
  method Insert(list: ListHead, head: ListHead, ghost ys: seq<ListHead>, ghost xs: seq<ListHead>)
    requires IsList(list, ys) && IsList(head, xs) && ys != [] && Apart(list, ys, head, xs)
    modifies head, head.next, list.next, list.prev
    ensures IsList(head, ys + xs) && list.next == old(list.next) && list.prev == old(list.prev)
  {
    Ends(list, ys);
    Ends(head, xs);
    PathSplit([list], ys);
    Strangers(list, ys, head, xs);
    ghost var c := xs + [head];
    var first := list.next;
    var last := list.prev;
    var at := head.next;
    assert first == ys[0] && last == ys[|ys| - 1] && at == c[0] && head == c[|xs|];
    first.prev := head;
    head.next := first;
    last.next := at;
    at.prev := last;
    PathKept(ys);
    PathKept(c);
    PathJoin(ys, xs + [head]);
    PathJoin([head], ys + (xs + [head]));
    DistinctParts([head], xs);
    DistinctParts(ys, xs);
    DistinctParts([head], ys + xs);
    assert ys + (xs + [head]) == (ys + xs) + [head];
    MakeList(head, ys + xs);
  }

  /** `list_splice`: the head of the emptied list keeps its pointers. */
  method ListSplice(list: ListHead, head: ListHead, ghost ys: seq<ListHead>, ghost xs: seq<ListHead>)
    requires IsList(list, ys) && IsList(head, xs) && Apart(list, ys, head, xs)
    modifies head, head.next, list.next, list.prev
    ensures IsList(head, ys + xs) && list.next == old(list.next) && list.prev == old(list.prev)
  {
    var empty := ListEmpty(list, ys);
    if !empty {
      Insert(list, head, ys, xs);
    } else {
      assert ys + xs == xs;
    }
  }

  /** `list_splice_init`. */
  method ListSpliceInit(list: ListHead, head: ListHead, ghost ys: seq<ListHead>, ghost xs: seq<ListHead>)
    requires IsList(list, ys) && IsList(head, xs) && Apart(list, ys, head, xs)
    modifies head, head.next, list, list.next, list.prev
    ensures IsList(head, ys + xs) && IsList(list, [])
  {
    var empty := ListEmpty(list, ys);
    if !empty {
      Strangers(list, ys, head, xs);
      Insert(list, head, ys, xs);
      list.Init();
    } else {
      assert ys + xs == xs;
    }
  }

  // ---- reading ----

  lemma {:induction false} SameSoFar(head: ListHead, xs: seq<ListHead>, ys: seq<ListHead>, k: nat)
    requires IsList(head, xs) && IsList(head, ys) && k <= |xs| && k <= |ys|
    ensures xs[..k] == ys[..k] && (xs + [head])[k] == (ys + [head])[k]
  {
    Ends(head, xs);
    Ends(head, ys);
    if k > 0 {
      SameSoFar(head, xs, ys, k - 1);
      var c, d := xs + [head], ys + [head];
      assert Joined(c[k - 1], c[k]) && Joined(d[k - 1], d[k]);
      assert xs[..k] == xs[..k - 1] + [xs[k - 1]] && ys[..k] == ys[..k - 1] + [ys[k - 1]];
    }
  }

  /** The links of a head leave no choice what its list is. */
  lemma OneList(head: ListHead, xs: seq<ListHead>, ys: seq<ListHead>)
    requires IsList(head, xs) && IsList(head, ys)
    ensures xs == ys
  {
    var k := if |xs| < |ys| then |xs| else |ys|;
    SameSoFar(head, xs, ys, k);
    Ends(head, xs);
    Ends(head, ys);
    assert xs[..|xs|] == xs && ys[..|ys|] == ys;
  }

  function Reversed(xs: seq<ListHead>): (r: seq<ListHead>)
    ensures |r| == |xs|
  {
    if xs == [] then [] else Reversed(xs[1..]) + [xs[0]]
  }

  lemma {:induction false} ReversedAt(xs: seq<ListHead>, k: nat)
    requires k < |xs|
    ensures Reversed(xs)[k] == xs[|xs| - 1 - k]
  {
    if k < |xs| - 1 { ReversedAt(xs[1..], k); }
  }

  /** Backwards twice is forwards. */
  lemma ReversedTwice(xs: seq<ListHead>)
    ensures Reversed(Reversed(xs)) == xs
  {
    forall k | 0 <= k < |xs| ensures Reversed(Reversed(xs))[k] == xs[k] {
      ReversedAt(Reversed(xs), k);
      ReversedAt(xs, |xs| - 1 - k);
    }
  }

  /** `list_for_each`. */
  method ForEach(head: ListHead, ghost xs: seq<ListHead>) returns (visited: seq<ListHead>)
    requires IsList(head, xs)
    ensures visited == xs
  {
    Ends(head, xs);
    ghost var c := xs + [head];
    visited := [];
    var pos := head.next;
    while pos != head
      invariant |visited| <= |xs| && visited == xs[..|visited|] && pos == c[|visited|]
      decreases |xs| - |visited|
    {
      assert |visited| < |xs| && Joined(c[|visited|], c[|visited| + 1]);
      visited := visited + [pos];
      pos := pos.next;
    }
  }

  /** `list_for_each_prev`. */
  method ForEachPrev(head: ListHead, ghost xs: seq<ListHead>) returns (visited: seq<ListHead>)
    requires IsList(head, xs)
    ensures visited == Reversed(xs)
  {
    Ends(head, xs);
    ghost var c := [head] + xs;
    visited := [];
    var pos := head.prev;
    while pos != head
      invariant |visited| <= |xs| && pos == c[|xs| - |visited|]
      invariant forall k :: 0 <= k < |visited| ==> visited[k] == xs[|xs| - 1 - k]
      decreases |xs| - |visited|
    {
      assert |visited| < |xs| && Joined(c[|xs| - |visited| - 1], c[|xs| - |visited|]);
      visited := visited + [pos];
      pos := pos.prev;
    }
    forall k | 0 <= k < |xs| ensures visited[k] == Reversed(xs)[k] {
      ReversedAt(xs, k);
    }
  }

  /** The two iterations are each other's reverse. */
  method BothWays(head: ListHead, ghost xs: seq<ListHead>) returns (there: seq<ListHead>, back: seq<ListHead>)
    requires IsList(head, xs)
    ensures back == Reversed(there) && there == Reversed(back)
  {
    hide *;
    there := ForEach(head, xs);
    back := ForEachPrev(head, xs);
    ReversedTwice(xs);
  }

  /** The entries that stay. */
  function Remaining(xs: seq<ListHead>, gone: set<ListHead>): seq<ListHead> {
    if xs == [] then [] else (if xs[0] in gone then [] else [xs[0]]) + Remaining(xs[1..], gone)
  }

  /** Exactly the entries that are not deleted. */
  ghost predicate Stay(kept: seq<ListHead>, xs: seq<ListHead>, gone: set<ListHead>) {
    (forall x :: x in kept ==> x in xs && x !in gone) && (forall x :: x in xs && x !in gone ==> x in kept)
  }

  lemma {:induction false} RemainingHas(xs: seq<ListHead>, gone: set<ListHead>)
    ensures Stay(Remaining(xs, gone), xs, gone)
  {
    if xs != [] { RemainingHas(xs[1..], gone); }
  }

  /** What comes behind the entry visited next. */
  lemma Follows(head: ListHead, kept: seq<ListHead>, rest: seq<ListHead>)
    requires IsList(head, kept + rest)
    ensures head.next != null && (rest != [] ==> rest[0].next == (rest[1..] + [head])[0])
  {
    Ends(head, kept + rest);
    if rest != [] {
      var c := (kept + rest) + [head];
      assert Joined(c[|kept|], c[|kept| + 1]);
    }
  }

  /** Where `list_for_each_safe` stands: `visited` are done, and of these `kept` stay. */
  ghost predicate SafeSoFar(gone: set<ListHead>, xs: seq<ListHead>, kept: seq<ListHead>, visited: seq<ListHead>,
      rest: seq<ListHead>) {
    visited + rest == xs && kept + Remaining(rest, gone) == Remaining(xs, gone) && forall x :: x in kept ==> x in xs
  }

  lemma SafeNext(gone: set<ListHead>, xs: seq<ListHead>, kept: seq<ListHead>, visited: seq<ListHead>,
      rest: seq<ListHead>)
    requires SafeSoFar(gone, xs, kept, visited, rest) && rest != []
    ensures SafeSoFar(gone, xs, if rest[0] in gone then kept else kept + [rest[0]], visited + [rest[0]], rest[1..])
  {
    assert rest == [rest[0]] + rest[1..];
    assert (visited + [rest[0]]) + rest[1..] == visited + rest;
    assert xs[|visited|] == rest[0];
    assert (kept + [rest[0]]) + Remaining(rest[1..], gone) == kept + ([rest[0]] + Remaining(rest[1..], gone));
    assert [] + Remaining(rest[1..], gone) == Remaining(rest[1..], gone);
  }

  lemma SafeEnds(gone: set<ListHead>, xs: seq<ListHead>, kept: seq<ListHead>, visited: seq<ListHead>)
    ensures SafeSoFar(gone, xs, [], [], xs)
    ensures SafeSoFar(gone, xs, kept, visited, []) ==> visited == xs && kept + [] == Remaining(xs, gone)
  {
    assert [] + xs == xs && [] + Remaining(xs, gone) == Remaining(xs, gone) && visited + [] == visited;
  }

  lemma Members(head: ListHead, gone: set<ListHead>, xs: seq<ListHead>, kept: seq<ListHead>, visited: seq<ListHead>,
      rest: seq<ListHead>)
    requires SafeSoFar(gone, xs, kept, visited, rest) && rest != []
    ensures rest[0] in xs && ([head] + kept)[|kept|] in [head] + xs && (rest[1..] + [head])[0] in [head] + xs
    ensures kept + rest == kept + [rest[0]] + rest[1..]
  {
    assert xs[|visited|] == rest[0];
    if |rest| > 1 { assert xs[|visited| + 1] == rest[1]; }
    if kept != [] { assert kept[|kept| - 1] in kept; }
  }

  /** `list_for_each_safe`, with a body that deletes the entries in `gone`: every entry of the
      list as it was is visited once, and the others stay. */
  method ForEachSafe(head: ListHead, gone: set<ListHead>, ghost xs: seq<ListHead>) returns (visited: seq<ListHead>)
    requires IsList(head, xs)
    modifies head, xs
    ensures visited == xs && IsList(head, Remaining(xs, gone))
    ensures Stay(Remaining(xs, gone), xs, gone)
  {
    hide *;
    ghost var kept: seq<ListHead>, rest := [], xs;
    SafeEnds(gone, xs, [], []);
    RemainingHas(xs, gone);
    Ends(head, xs);
    Start(head, xs);
    Follows(head, [], xs);
    visited := [];
    var pos := head.next;
    var n := pos.next;
    while pos != head
      invariant SafeSoFar(gone, xs, kept, visited, rest) && IsList(head, kept + rest)
      invariant pos == (rest + [head])[0] && (rest != [] ==> n == (rest[1..] + [head])[0])
      decreases |rest|
    {
      ghost var more := rest[1..];
      Members(head, gone, xs, kept, visited, rest);
      Around(head, kept, pos, more);
      SafeNext(gone, xs, kept, visited, rest);
      VisitSafely(pos, head, gone, kept, more);
      kept := if pos in gone then kept else kept + [pos];
      Follows(head, kept, more);
      visited := visited + [pos];
      rest := more;
      pos := n;
      n := pos.next;
    }
    Ends(head, kept + rest);
    SafeEnds(gone, xs, kept, visited);
  }

  lemma Start(head: ListHead, xs: seq<ListHead>)
    requires IsList(head, xs)
    ensures IsList(head, [] + xs) && [] + xs == xs
  {
    assert [] + xs == xs;
  }

  /** The body of that loop. */
  method VisitSafely(pos: ListHead, ghost head: ListHead, gone: set<ListHead>, ghost kept: seq<ListHead>,
      ghost more: seq<ListHead>)
    requires IsList(head, kept + [pos] + more)
    modifies pos, pos.prev, pos.next
    ensures IsList(head, (if pos in gone then kept else kept + [pos]) + more)
  {
    hide *;
    if pos in gone {
      ListDel(pos, head, kept, more);
    }
  }
}
