/**
  The layout of the CTStat pool: objects linked by handles into bucket chains and a free
  list, each with its own range of value slots.
 */
module PoolLayout {

  const STAT_ID_MAX_LEN := 64
  const INVALID_HANDLE := -1

  /** An object of the pool. */
  datatype TStatObj = TStatObj(id: string, desc: string, typ: int, valSize: int, count: int, valOffset: int, next: int)

  /** What `memset` leaves. */
  const BLANK := TStatObj("", "", 0, 0, 0, 0, 0)

  /** `strncpy` into a field of `size` characters whose last one stays zero. */
  function Cut(s: string, size: nat): (r: string)
    requires size > 0
    ensures |r| < size && r <= s && (|s| >= size ==> |r| == size - 1)
    ensures r == s <==> |s| < size
  {
    if |s| < size then s else s[..size - 1]
  }

  // ---- links ----

  /** Handle `h` is the newest of the first `k` objects in bucket `b`; -1 if there is none. */
  predicate IsLatest(objs: seq<TStatObj>, k: int, b: int, h: int, hash: string -> nat)
    requires 0 <= k <= |objs|
  {
    && -1 <= h < k
    && (h >= 0 ==> hash(objs[h].id) == b)
    && forall j :: h < j < k ==> hash(objs[j].id) != b
  }

  /** The first free handle at or after `h`. */
  function NextFree(h: int, n: int): int { if h < n then h else INVALID_HANDLE }

  /** Handles are given out in order.  Each object in use links to the next older one of
      its bucket, each free one to the next free one. */
  predicate Linked(objs: seq<TStatObj>, used: int, freelist: int, bucket: seq<int>, hash: string -> nat)
  {
    && 0 <= used <= |objs| && freelist == NextFree(used, |objs|)
    && (forall b :: 0 <= b < |bucket| ==> IsLatest(objs, used, b, bucket[b], hash))
    && (forall h :: 0 <= h < used ==> IsLatest(objs, h, hash(objs[h].id), objs[h].next, hash))
    && (forall h :: used <= h < |objs| ==> objs[h].next == NextFree(h + 1, |objs|))
  }

  // ---- chains: what following the links yields ----

  /** Following `next` from `h` meets exactly `hs` and then ends. */
  ghost predicate Chain(objs: seq<TStatObj>, h: int, hs: seq<int>)
    decreases |hs|
  {
    if hs == [] then h == INVALID_HANDLE else 0 <= h < |objs| && h == hs[0] && Chain(objs, objs[h].next, hs[1..])
  }

  /** The handles of a bucket, newest first. */
  ghost function BucketChain(objs: seq<TStatObj>, k: int, b: int, hash: string -> nat): seq<int>
    requires 0 <= k <= |objs|
    decreases k
  {
    if k == 0 then []
    else if hash(objs[k - 1].id) == b then [k - 1] + BucketChain(objs, k - 1, b, hash)
    else BucketChain(objs, k - 1, b, hash)
  }

  /** The free handles. */
  ghost function FreeChain(h: int, n: int): seq<int>
    decreases n - h
  {
    if h >= n then [] else [h] + FreeChain(h + 1, n)
  }

  predicate NoRepeats(hs: seq<int>) { forall i, j :: 0 <= i < j < |hs| ==> hs[i] != hs[j] }

  lemma {:induction false} BucketHolds(objs: seq<TStatObj>, k: int, b: int, hash: string -> nat)
    requires 0 <= k <= |objs|
    ensures var hs := BucketChain(objs, k, b, hash); NoRepeats(hs) && forall h :: h in hs <==>
        0 <= h < k && hash(objs[h].id) == b
    decreases k
  {
    if k > 0 {
      BucketHolds(objs, k - 1, b, hash);
      if hash(objs[k - 1].id) == b { RepeatsNot(k - 1, BucketChain(objs, k - 1, b, hash)); }
    }
  }

  lemma {:induction false} FreeHolds(h: int, n: int)
    ensures var hs := FreeChain(h, n);
      NoRepeats(hs) && (forall g :: g in hs <==> h <= g < n) && |hs| == if h < n then n - h else 0
    decreases n - h
  {
    if h < n {
      FreeHolds(h + 1, n);
      RepeatsNot(h, FreeChain(h + 1, n));
    }
  }

  lemma RepeatsNot(h: int, hs: seq<int>)
    requires NoRepeats(hs) && h !in hs
    ensures NoRepeats([h] + hs)
  {
  }

  lemma {:induction false} BucketFollowed(objs: seq<TStatObj>, used: int, freelist: int, bucket: seq<int>,
      hash: string -> nat, k: int, b: int, h: int)
    requires Linked(objs, used, freelist, bucket, hash) && 0 <= k <= used && IsLatest(objs, k, b, h, hash)
    ensures Chain(objs, h, BucketChain(objs, k, b, hash))
    decreases k
  {
    if k > 0 {
      if hash(objs[k - 1].id) == b {
        assert h == k - 1;
        BucketFollowed(objs, used, freelist, bucket, hash, k - 1, b, objs[h].next);
      } else {
        BucketFollowed(objs, used, freelist, bucket, hash, k - 1, b, h);
      }
    }
  }

  lemma {:induction false} FreeFollowed(objs: seq<TStatObj>, used: int, freelist: int, bucket: seq<int>,
      hash: string -> nat, h: int)
    requires Linked(objs, used, freelist, bucket, hash) && used <= h <= |objs|
    ensures Chain(objs, NextFree(h, |objs|), FreeChain(h, |objs|))
    decreases |objs| - h
  {
    if h < |objs| { FreeFollowed(objs, used, freelist, bucket, hash, h + 1); }
  }

  /** Some bucket's chain holds the handle. */
  ghost predicate InBuckets(objs: seq<TStatObj>, k: int, n: int, hash: string -> nat, h: int)
    requires 0 <= k <= |objs|
  {
    exists b :: 0 <= b < n && h in BucketChain(objs, k, b, hash)
  }

  /** The lengths of the first `n` chains together. */
  ghost function ChainLengths(objs: seq<TStatObj>, k: int, n: nat, hash: string -> nat): nat
    requires 0 <= k <= |objs|
  {
    if n == 0 then 0 else ChainLengths(objs, k, n - 1, hash) + |BucketChain(objs, k, n - 1, hash)|
  }

  lemma {:induction false} LengthsGrow(objs: seq<TStatObj>, k: int, n: nat, hash: string -> nat)
    requires 0 < k <= |objs|
    ensures ChainLengths(objs, k, n, hash) == ChainLengths(objs, k - 1, n, hash) + if hash(objs[k - 1].id) < n then 1
        else 0
  {
    if n > 0 { LengthsGrow(objs, k, n - 1, hash); }
  }

  lemma {:induction false} LengthsAre(objs: seq<TStatObj>, k: int, n: nat, hash: string -> nat)
    requires 0 <= k <= |objs| && forall s :: hash(s) < n
    ensures ChainLengths(objs, k, n, hash) == k
    decreases k
  {
    if k > 0 {
      LengthsGrow(objs, k, n, hash);
      LengthsAre(objs, k - 1, n, hash);
    } else {
      NoLengths(objs, n, hash);
    }
  }

  lemma {:induction false} NoLengths(objs: seq<TStatObj>, n: nat, hash: string -> nat)
    ensures ChainLengths(objs, 0, n, hash) == 0
  {
    if n > 0 { NoLengths(objs, n - 1, hash); }
  }

  /** The free list and the bucket chains end, repeat nothing and share nothing; together
      they hold every handle, and the chains hold `used` of them. */
  lemma Partition(objs: seq<TStatObj>, used: int, freelist: int, bucket: seq<int>, hash: string -> nat)
    requires Linked(objs, used, freelist, bucket, hash) && forall s :: hash(s) < |bucket|
    ensures Chain(objs, freelist, FreeChain(used, |objs|)) && NoRepeats(FreeChain(used, |objs|))
    ensures forall b :: 0 <= b < |bucket| ==>
        Chain(objs, bucket[b], BucketChain(objs, used, b, hash)) && NoRepeats(BucketChain(objs, used, b, hash))
    ensures forall h :: 0 <= h < |objs| <==> h in FreeChain(used, |objs|) || InBuckets(objs, used, |bucket|, hash, h)
    ensures forall h, b :: h in FreeChain(used, |objs|) ==> h !in BucketChain(objs, used, b, hash)
    ensures forall h, b, c :: h in BucketChain(objs, used, b, hash) && h in BucketChain(objs, used, c, hash) ==> b == c
    ensures ChainLengths(objs, used, |bucket|, hash) == used && |FreeChain(used, |objs|)| == |objs| - used
  {
    FreeFollowed(objs, used, freelist, bucket, hash, used);
    FreeHolds(used, |objs|);
    LengthsAre(objs, used, |bucket|, hash);
    forall b ensures forall h :: h in BucketChain(objs, used, b, hash) <==> 0 <= h < used && hash(objs[h].id) == b {
      BucketHolds(objs, used, b, hash);
    }
    forall b | 0 <= b < |bucket| ensures Chain(objs, bucket[b], BucketChain(objs, used, b, hash))
        && NoRepeats(BucketChain(objs, used, b, hash)) {
      BucketHolds(objs, used, b, hash);
      BucketFollowed(objs, used, freelist, bucket, hash, used, b, bucket[b]);
    }
    forall h | 0 <= h < used ensures InBuckets(objs, used, |bucket|, hash, h) {
      assert h in BucketChain(objs, used, hash(objs[h].id), hash);
    }
  }

  // ---- value slots ----

  /** The ranges of the objects in use lie side by side and fill the first `valsUsed` slots. */
  predicate Tiled(objs: seq<TStatObj>, used: int, valsUsed: int)
  {
    && 0 <= used <= |objs|
    && (forall h :: 0 <= h < used ==> objs[h].valSize >= 1)
    && (forall g, h :: 0 <= g < used && h == g + 1 && h < used ==>
          objs[g].valOffset + objs[g].valSize == objs[h].valOffset)
    && (if used == 0 then valsUsed == 0
        else objs[0].valOffset == 0 && objs[used - 1].valOffset + objs[used - 1].valSize == valsUsed)
  }

  /** Ranges are disjoint and ordered. */
  lemma {:induction false} Apart(objs: seq<TStatObj>, used: int, valsUsed: int, g: int, h: int)
    requires Tiled(objs, used, valsUsed) && 0 <= g < h < used
    ensures objs[g].valOffset + objs[g].valSize <= objs[h].valOffset
    decreases h
  {
    if g + 1 < h {
      Apart(objs, used, valsUsed, g, h - 1);
    }
  }

  lemma Inside(objs: seq<TStatObj>, used: int, valsUsed: int, h: int)
    requires Tiled(objs, used, valsUsed) && 0 <= h < used
    ensures 0 <= objs[h].valOffset && objs[h].valOffset + objs[h].valSize <= valsUsed
  {
    if 0 < h { Apart(objs, used, valsUsed, 0, h); }
    if h < used - 1 { Apart(objs, used, valsUsed, h, used - 1); }
  }

  predicate Owns(o: TStatObj, v: int) { o.valOffset <= v < o.valOffset + o.valSize }

  predicate Owned(objs: seq<TStatObj>, used: int, v: int)
    requires 0 <= used <= |objs|
  {
    exists h :: 0 <= h < used && Owns(objs[h], v)
  }

  /** Every slot in use belongs to exactly one object. */
  lemma OneOwner(objs: seq<TStatObj>, used: int, valsUsed: int, v: int)
    requires Tiled(objs, used, valsUsed)
    ensures 0 <= v < valsUsed <==> Owned(objs, used, v)
    ensures forall g, h :: 0 <= g < h < used ==> !(Owns(objs[g], v) && Owns(objs[h], v))
  {
    forall g, h | 0 <= g < h < used ensures !(Owns(objs[g], v) && Owns(objs[h], v)) {
      Apart(objs, used, valsUsed, g, h);
    }
    if 0 <= v < valsUsed { OwnerBelow(objs, used, valsUsed, used, v); }
    forall h | 0 <= h < used && Owns(objs[h], v) ensures 0 <= v < valsUsed {
      Inside(objs, used, valsUsed, h);
    }
  }

  lemma {:induction false} OwnerBelow(objs: seq<TStatObj>, used: int, valsUsed: int, k: int, v: int)
    requires Tiled(objs, used, valsUsed) && 0 < k <= used && 0 <= v < objs[k - 1].valOffset + objs[k - 1].valSize
    ensures exists h :: 0 <= h < k && Owns(objs[h], v)
    decreases k
  {
    if v < objs[k - 1].valOffset {
      assert k - 1 > 0;
      OwnerBelow(objs, used, valsUsed, k - 1, v);
    } else {
      assert Owns(objs[k - 1], v);
    }
  }

  // ---- the assertion of `alloc_statobj` ----

  /** There is an object, and a slot more than is asked for. */
  predicate Granted(used: int, objNum: int, valsUsed: int, valNum: int, valSize: int) {
    valSize >= 1 && used < objNum && valsUsed < valNum - valSize
  }

  /** The slots of the first `k` objects together. */
  function SizeSum(objs: seq<TStatObj>, k: int): int
    requires 0 <= k <= |objs|
    decreases k
  {
    if k == 0 then 0 else SizeSum(objs, k - 1) + objs[k - 1].valSize
  }

  lemma {:induction false} SumUsed(objs: seq<TStatObj>, used: int, valsUsed: int, k: int)
    requires Tiled(objs, used, valsUsed) && 0 <= k <= used
    ensures SizeSum(objs, k) == if k == 0 then 0 else objs[k - 1].valOffset + objs[k - 1].valSize
    decreases k
  {
    if k > 0 { SumUsed(objs, used, valsUsed, k - 1); }
  }

  /** A request is refused, though there is an object and its slots fit, exactly if it would
      take the last slot. */
  lemma RefusedLast(objs: seq<TStatObj>, used: int, valsUsed: int, valNum: int, valSize: int)
    requires Tiled(objs, used, valsUsed) && used < |objs| && valSize >= 1
    requires SizeSum(objs, used) + valSize <= valNum
    ensures !Granted(used, |objs|, valsUsed, valNum, valSize) <==> SizeSum(objs, used) + valSize == valNum
  {
    SumUsed(objs, used, valsUsed, used);
  }

  predicate OneSlotEach(objs: seq<TStatObj>, used: int)
    requires 0 <= used <= |objs|
  {
    forall h :: 0 <= h < used ==> objs[h].valSize == 1
  }

  lemma {:induction false} OneSlotSum(objs: seq<TStatObj>, k: int)
    requires 0 <= k <= |objs| && OneSlotEach(objs, k)
    ensures SizeSum(objs, k) == k
    decreases k
  {
    if k > 0 { OneSlotSum(objs, k - 1); }
  }

  /** With one slot each, the last object is given out exactly if there are more slots than
      objects. */
  lemma LastObject(objs: seq<TStatObj>, used: int, valsUsed: int, valNum: int)
    requires Tiled(objs, used, valsUsed) && used == |objs| - 1 && OneSlotEach(objs, used)
    ensures Granted(used, |objs|, valsUsed, valNum, 1) <==> |objs| < valNum
  {
    SumUsed(objs, used, valsUsed, used);
    OneSlotSum(objs, used);
  }

  /** With no more slots than objects, whatever the sizes, the last object is never given out. */
  lemma OneToSpare(objs: seq<TStatObj>, used: int, valsUsed: int, valNum: int, valSize: int)
    requires Tiled(objs, used, valsUsed) && valNum <= |objs| && Granted(used, |objs|, valsUsed, valNum, valSize)
    ensures used + 1 < |objs|
  {
    SlotsEach(objs, used, valsUsed, used);
  }

  lemma {:induction false} SlotsEach(objs: seq<TStatObj>, used: int, valsUsed: int, k: int)
    requires Tiled(objs, used, valsUsed) && 0 <= k <= used
    ensures k <= if k == 0 then 0 else objs[k - 1].valOffset + objs[k - 1].valSize
    decreases k
  {
    if k > 1 { SlotsEach(objs, used, valsUsed, k - 1); }
  }
}
