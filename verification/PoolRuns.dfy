/**
  Runs of calls on a CTStat from its construction.
 */
module PoolRuns {
  import opened Common
  import opened PoolLayout
  import opened PoolView
  import opened PoolState
  import opened PoolSteps
  import opened Pool

  /** The slots the objects have together. */
  function SlotsUsed(view: seq<Entry>): nat
    decreases |view|
  {
    if view == [] then 0 else SlotsUsed(view[..|view| - 1]) + |view[|view| - 1].values|
  }

  /** The counter of used slots is the sum over the objects: no slot is lost. */
  lemma SlotsCounted(objs: seq<TStatObj>, used: int, freelist: int, bucket: seq<int>, vals: seq<int>, valsUsed: int,
      hash: string -> nat)
    requires PoolOK(objs, used, freelist, bucket, vals, valsUsed, hash)
    ensures 0 <= used <= |objs| && SlotsUsed(ViewOf(objs, used, vals)) == valsUsed
  {
    SlotsBelow(objs, used, vals, valsUsed, used);
  }

  lemma {:induction false} SlotsBelow(objs: seq<TStatObj>, used: int, vals: seq<int>, valsUsed: int, k: int)
    requires Tiled(objs, used, valsUsed) && 0 <= valsUsed <= |vals| && 0 <= k <= used
    ensures SlotsUsed(ViewOf(objs, k, vals)) == if k == 0 then 0 else objs[k - 1].valOffset + objs[k - 1].valSize
    decreases k
  {
    hide Slots;
    if k > 0 {
      SlotsBelow(objs, used, vals, valsUsed, k - 1);
      SlotsOf(objs, used, vals, valsUsed, k - 1);
      assert ViewOf(objs, k, vals)[..k - 1] == ViewOf(objs, k - 1, vals);
    }
  }

  /** In every valid pool the free list and the bucket chains end, share nothing, hold every
      handle between them, and the chains hold `statobjsUsed_` of them; each slot in use
      belongs to one object. */
  lemma AlwaysPartitioned(s: CTStat)
    requires s.Valid()
    ensures 0 <= s.statobjsUsed <= s.statobjs.Length
    ensures var objs, used, hash, n := s.statobjs[..], s.statobjsUsed, s.hashid, s.bucket.Length;
      && Chain(objs, s.freelist, FreeChain(used, |objs|)) && NoRepeats(FreeChain(used, |objs|))
      && |FreeChain(used, |objs|)| == |objs| - used
      && (forall b :: 0 <= b < n ==>
            && Chain(objs, s.bucket[..][b], BucketChain(objs, used, b, hash))
            && NoRepeats(BucketChain(objs, used, b, hash)))
      && (forall h :: 0 <= h < |objs| <==> h in FreeChain(used, |objs|) || InBuckets(objs, used, n, hash, h))
      && (forall h, b :: h in FreeChain(used, |objs|) ==> h !in BucketChain(objs, used, b, hash))
      && (forall h, b, c :: h in BucketChain(objs, used, b, hash) && h in BucketChain(objs, used, c, hash) ==> b == c)
      && ChainLengths(objs, used, n, hash) == used
      && (forall v :: 0 <= v < s.statvalsUsed <==> Owned(objs, used, v))
      && SlotsUsed(s.View()) == s.statvalsUsed
  {
    var objs, used, free, buckets, vals, valsUsed, hash := s.statobjs[..], s.statobjsUsed, s.freelist, s.bucket[..],
        s.statvals[..], s.statvalsUsed, s.hashid;
    SlotsCounted(objs, used, free, buckets, vals, valsUsed, hash);
    hide IsLatest, Owns, SlotsUsed;
    Partition(objs, used, free, buckets, hash);
    forall v ensures 0 <= v < valsUsed <==> Owned(objs, used, v) {
      OneOwner(objs, used, valsUsed, v);
    }
  }

  /** What the assertions of the code ask of a call. */
  predicate Legal(view: seq<Entry>, c: Call, objNum: int, valNum: int) {
    match c
    case Init(id, typ, desc, valSize) => !Registered(view, id) ==>
        Room(|NewEntries(id, typ, desc, valSize, STAT_TYPE_NUM)|, valSize, |view|, objNum, SlotsUsed(view), valNum)
    case Step(ids, val, idx) => Fits(view, ids, idx)
    case Reset => true
  }

  ghost predicate LegalAll(calls: seq<Call>, hash: string -> nat, objNum: int, valNum: int) {
    forall i :: 0 <= i < |calls| ==> Legal(RunCalls([], calls[..i], hash), calls[i], objNum, valNum)
  }

  lemma NextCall(calls: seq<Call>, i: nat, hash: string -> nat)
    requires i < |calls|
    ensures RunCalls([], calls[..i + 1], hash) == Run(RunCalls([], calls[..i], hash), calls[i], hash)
  {
    assert calls[..i + 1][..i] == calls[..i];
  }

  /** Every run of calls within the room of the pool: the pool stays well formed, and holds
      what the calls do, one after the other.  With ids that fit their field this is all that
      is asked of them. */
  method Replay(calls: seq<Call>, bucketNum: nat, objNum: nat, valNum: nat, hash: string -> nat) returns (s: CTStat)
    requires bucketNum > 0 && objNum > 0 && (forall id :: hash(id) < bucketNum) && LegalAll(calls, hash, objNum, valNum)
    ensures s.Valid() && s.hashid == hash && s.View() == RunCalls([], calls, hash)
    ensures Short(calls) ==> s.View() == PerformAll([], calls) && Contiguous(s.View(), hash) && OnePerType(s.View())
  {
    hide PoolOK, TypesOK, Contiguous, PerformAll, RunCalls, Legal, OnePerType, NewEntries, StepAll, Cleared, RunAll,
        Short;
    s := new CTStat(bucketNum, objNum, valNum, hash);
    Start(calls, hash);
    for i := 0 to |calls|
      invariant s.Valid() && s.hashid == hash && s.statobjs.Length == objNum && s.statvals.Length == valNum
      invariant fresh(s) && fresh(s.statobjs) && fresh(s.bucket) && fresh(s.statvals)
      invariant s.View() == RunCalls([], calls[..i], hash)
    {
      NextCall(calls, i, hash);
      SlotsCounted(s.statobjs[..], s.statobjsUsed, s.freelist, s.bucket[..], s.statvals[..], s.statvalsUsed, hash);
      LegalCall(s.View(), calls[i], objNum, valNum);
      match calls[i] {
        case Init(id, typ, desc, valSize) => var r := s.InitStatObj(id, typ, desc, valSize);
        case Step(ids, val, idx) => s.Step(ids, val, idx);
        case Reset => s.Reset();
      }
    }
    assert calls[..|calls|] == calls;
    if Short(calls) {
      RunKeeps(calls, hash);
      RunShort(calls, hash);
    }
  }

  lemma Start(calls: seq<Call>, hash: string -> nat)
    ensures RunCalls([], calls[..0], hash) == []
  {
  }

  lemma LegalCall(view: seq<Entry>, c: Call, objNum: int, valNum: int)
    requires Legal(view, c, objNum, valNum)
    ensures c.Init? && !Registered(view, c.id) ==>
        Room(|NewEntries(c.id, c.typ, c.desc, c.valSize, STAT_TYPE_NUM)|, c.valSize, |view|, objNum, SlotsUsed(view),
        valNum)
    ensures c.Step? ==> Fits(view, c.ids, c.idx)
  {
  }

  // ---- an id too long for its field ----

  lemma OneSum(id: string, desc: string)
    ensures NewEntries(id, 1, desc, 1, STAT_TYPE_NUM) == [NewEntry(id, 1, desc, 1)]
  {
    hide NewEntry;
    Pows();
    NoMore(id, desc, 6);
  }

  lemma {:induction false} NoMore(id: string, desc: string, n: nat)
    requires 1 <= n <= STAT_TYPE_NUM
    ensures NewEntries(id, 1, desc, 1, n) == [NewEntry(id, 1, desc, 1)]
  {
    hide NewEntry;
    Pows();
    if n == 1 {
      assert HasBit(1, Pow2(0)) && NewEntries(id, 1, desc, 1, 0) == [];
    } else {
      NoMore(id, desc, n - 1);
      PowTypes(n);
      assert Pow2(n - 1) in {2, 4, 8, 16, 32};
      assert !HasBit(1, Pow2(n - 1));
    }
  }

  /** The 64 characters of such an id are cut to 63; if they name an older object of the same
      bucket with another one in between, the objects of that id are no longer together, and
      `step` misses the older one. */
  lemma LongIdSplits(long: string, other: string, hash: string -> nat)
    requires |long| >= STAT_ID_MAX_LEN && |other| < STAT_ID_MAX_LEN && other != Cut(long, STAT_ID_MAX_LEN)
    requires hash(other) == hash(Cut(long, STAT_ID_MAX_LEN))
    ensures var cut := Cut(long, STAT_ID_MAX_LEN);
      !Contiguous(PerformAll([], [Init(cut, 1, "", 1), Init(other, 1, "", 1), Init(long, 1, "", 1)]), hash)
  {
    var cut := Cut(long, STAT_ID_MAX_LEN);
    var a, b, c := Init(cut, 1, "", 1), Init(other, 1, "", 1), Init(long, 1, "", 1);
    OneSum(cut, "");
    OneSum(other, "");
    OneSum(long, "");
    assert [a, b, c][..2] == [a, b] && [a, b][..1] == [a] && [a][..0] == [];
    var x, y, z := NewEntry(cut, 1, "", 1), NewEntry(other, 1, "", 1), NewEntry(long, 1, "", 1);
    assert PerformAll([], []) == [];
    assert PerformAll([], [a]) == [] + [x];
    assert PerformAll([], [a, b]) == [x, y];
    LongNeverFound([x, y], long);
    assert PerformAll([], [a, b, c]) == [x, y, z];
    var v := [x, y, z];
    assert v[0].id == v[2].id && hash(v[1].id) == hash(v[0].id) && v[1].id != v[0].id;
  }
}
