/**
  The order in which `travel` visits the objects.
 */
module PoolTravel {
  import opened PoolLayout
  import opened PoolView
  import opened PoolState
  import opened PoolSteps

  /** The chains of the first `n` buckets, one after the other. */
  ghost function Chains(objs: seq<TStatObj>, used: int, n: nat, hash: string -> nat): seq<int>
    requires 0 <= used <= |objs|
  {
    if n == 0 then [] else Chains(objs, used, n - 1, hash) + BucketChain(objs, used, n - 1, hash)
  }

  /** Each object in use stands in one place of that order. */
  lemma {:induction false} ChainsHold(objs: seq<TStatObj>, used: int, n: nat, hash: string -> nat)
    requires 0 <= used <= |objs|
    ensures NoRepeats(Chains(objs, used, n, hash))
    ensures forall h :: h in Chains(objs, used, n, hash) <==> 0 <= h < used && hash(objs[h].id) < n
  {
    if n > 0 {
      ChainsHold(objs, used, n - 1, hash);
      BucketHolds(objs, used, n - 1, hash);
      NoRepeatsConcat(Chains(objs, used, n - 1, hash), BucketChain(objs, used, n - 1, hash));
    }
  }

  lemma NoRepeatsConcat(a: seq<int>, b: seq<int>)
    requires NoRepeats(a) && NoRepeats(b) && forall h :: h in a ==> h !in b
    ensures NoRepeats(a + b)
  {
    forall i, j | 0 <= i < j < |a + b| ensures (a + b)[i] != (a + b)[j] {
      if i < |a| && j >= |a| { assert a[i] in a && b[j - |a|] in b; }
    }
  }

  /** The rest of a chain from its newest object. */
  lemma {:induction false} ChainTurn(objs: seq<TStatObj>, k: int, b: int, h: int, hash: string -> nat)
    requires 0 <= k <= |objs| && IsLatest(objs, k, b, h, hash)
    ensures h == INVALID_HANDLE ==> BucketChain(objs, k, b, hash) == []
    ensures h >= 0 ==> BucketChain(objs, k, b, hash) == [h] + BucketChain(objs, h, b, hash)
    decreases k
  {
    if k > 0 && hash(objs[k - 1].id) != b { ChainTurn(objs, k - 1, b, h, hash); }
  }

  datatype Visitor = DoReset | DoResult

  /** What the visits so far have done. */
  ghost predicate Visited(view: seq<Entry>, now: seq<Entry>, visited: seq<int>, out: seq<(int, seq<int>)>,
      visitor: Visitor) {
    && |now| == |view| && |out| == |visited|
    && (forall h :: 0 <= h < |view| ==> now[h] == if visitor.DoReset? && h in visited then ClearedEntry(view[h])
        else view[h])
    && (forall i :: 0 <= i < |visited| ==>
          0 <= visited[i] < |view| && (visitor.DoResult? ==> IsResult(view[visited[i]], out[i])))
  }

  /** One more visit. */
  lemma Visit(view: seq<Entry>, now: seq<Entry>, visited: seq<int>, out: seq<(int, seq<int>)>, visitor: Visitor, h: int,
      r: (int, seq<int>))
    requires Visited(view, now, visited, out, visitor) && 0 <= h < |view|
        && (visitor.DoResult? ==> IsResult(now[h], r))
    ensures Visited(view, if visitor.DoReset? then now[h := ClearedEntry(now[h])]
        else now, visited + [h], out + [r], visitor)
  {
    hide IsResult;
    assert ClearedEntry(ClearedEntry(view[h])) == ClearedEntry(view[h]);
  }

  lemma NoVisits(view: seq<Entry>, visitor: Visitor)
    ensures Visited(view, view, [], [], visitor)
  {
  }

  /** A visit takes the front of the rest of the chain. */
  lemma ChainVisit(objs: seq<TStatObj>, used: int, b: nat, k: int, h: int, visited: seq<int>, hash: string -> nat)
    requires 0 <= k <= used <= |objs| && IsLatest(objs, k, b, h, hash) && 0 <= h
    requires visited + BucketChain(objs, k, b, hash) == Chains(objs, used, b + 1, hash)
    ensures (visited + [h]) + BucketChain(objs, h, b, hash) == Chains(objs, used, b + 1, hash) && hash(objs[h].id) == b
  {
    ChainTurn(objs, k, b, h, hash);
    assert (visited + [h]) + BucketChain(objs, h, b, hash) == visited + ([h] + BucketChain(objs, h, b, hash));
  }

  lemma ChainEnd(objs: seq<TStatObj>, used: int, b: nat, k: int, visited: seq<int>, hash: string -> nat)
    requires 0 <= k <= used <= |objs| && IsLatest(objs, k, b, INVALID_HANDLE, hash)
    requires visited + BucketChain(objs, k, b, hash) == Chains(objs, used, b + 1, hash)
    ensures visited == Chains(objs, used, b + 1, hash)
  {
    ChainTurn(objs, k, b, INVALID_HANDLE, hash);
    assert visited + [] == visited;
  }

  lemma ChainStart(objs: seq<TStatObj>, used: int, b: nat, hash: string -> nat)
    requires 0 <= used <= |objs|
    ensures Chains(objs, used, 0, hash) == []
    ensures Chains(objs, used, b, hash) + BucketChain(objs, used, b, hash) == Chains(objs, used, b + 1, hash)
  {
  }

  /** Visited are all objects, and nothing else. */
  ghost predicate Everyone(visited: seq<int>, n: int) { forall h :: h in visited <==> 0 <= h < n }

  lemma ChainsAll(objs: seq<TStatObj>, used: int, n: nat, hash: string -> nat)
    requires 0 <= used <= |objs| && forall s :: hash(s) < n
    ensures NoRepeats(Chains(objs, used, n, hash)) && Everyone(Chains(objs, used, n, hash), used)
  {
    ChainsHold(objs, used, n, hash);
  }

  /** Links of the objects as they were lead on as before. */
  lemma LinksOf(objs: seq<TStatObj>, objs': seq<TStatObj>, h: int, b: int, hash: string -> nat)
    requires SameLinks(objs, objs') && 0 <= h < |objs| && hash(objs[h].id) == b
    requires IsLatest(objs', h, hash(objs'[h].id), objs'[h].next, hash)
    ensures IsLatest(objs, h, b, objs'[h].next, hash)
  {
    forall j | 0 <= j < |objs| ensures objs'[j].id == objs[j].id { }
  }

  lemma LatestOf(objs: seq<TStatObj>, objs': seq<TStatObj>, k: int, b: int, h: int, hash: string -> nat)
    requires SameLinks(objs, objs') && 0 <= k <= |objs'| && IsLatest(objs', k, b, h, hash)
    ensures |objs| == |objs'| && IsLatest(objs, k, b, h, hash)
  {
    forall j | 0 <= j < |objs| ensures objs'[j].id == objs[j].id { }
  }

  lemma SameSizes(objs: seq<TStatObj>, objs': seq<TStatObj>, h: int)
    requires SameLinks(objs, objs') && 0 <= h < |objs|
    ensures |objs'| == |objs| && objs'[h].valSize == objs[h].valSize
  {
  }

  lemma SameTwice(a: seq<TStatObj>, b: seq<TStatObj>, c: seq<TStatObj>)
    ensures SameLinks(a, a)
    ensures SameLinks(a, b) && SameLinks(b, c) ==> SameLinks(a, c)
  {
  }

  /** After a visit to every object. */
  lemma AllVisited(view: seq<Entry>, now: seq<Entry>, visited: seq<int>, out: seq<(int, seq<int>)>, visitor: Visitor)
    requires Visited(view, now, visited, out, visitor) && Everyone(visited, |view|)
    ensures now == if visitor.DoReset? then Cleared(view) else view
  {
  }
}
