/**
  The state of a CTStat pool as values, and what single changes to it mean.
 */
module PoolState {
  import opened PoolLayout
  import opened PoolView

  /** The slots of one object. */
  function Slots(vals: seq<int>, off: int, size: int): seq<int> {
    if 0 <= off && 0 <= size && off + size <= |vals| then vals[off..off + size] else []
  }

  function EntryOf(o: TStatObj, vals: seq<int>): Entry {
    Entry(o.id, o.desc, o.typ, o.count, Slots(vals, o.valOffset, o.valSize))
  }

  /** The registered objects. */
  function ViewOf(objs: seq<TStatObj>, used: int, vals: seq<int>): (view: seq<Entry>)
    requires 0 <= used <= |objs|
    ensures |view| == used && forall h :: 0 <= h < used ==> view[h] == EntryOf(objs[h], vals)
  {
    seq(used, h requires 0 <= h < used => EntryOf(objs[h], vals))
  }

  /** What every call keeps. */
  ghost predicate PoolOK(objs: seq<TStatObj>, used: int, freelist: int, bucket: seq<int>, vals: seq<int>, valsUsed: int,
      hash: string -> nat)
  {
    && Linked(objs, used, freelist, bucket, hash)
    && (forall s :: hash(s) < |bucket|)
    && Tiled(objs, used, valsUsed) && 0 <= valsUsed <= |vals|
    && (forall h :: 0 <= h < used ==> |objs[h].id| < STAT_ID_MAX_LEN && IsType(objs[h].typ))
    && (forall h :: used <= h < |objs| ==> objs[h].count == 0)
    && (forall v :: valsUsed <= v < |vals| ==> vals[v] == 0)
  }

  lemma UsedFits(objs: seq<TStatObj>, used: int, freelist: int, bucket: seq<int>, vals: seq<int>, valsUsed: int,
      hash: string -> nat)
    requires PoolOK(objs, used, freelist, bucket, vals, valsUsed, hash)
    ensures 0 <= used <= |objs|
  {
  }

  /** Where the chains start, and how they go on. */
  lemma Heads(objs: seq<TStatObj>, used: int, freelist: int, bucket: seq<int>, vals: seq<int>, valsUsed: int,
      hash: string -> nat, b: int)
    requires PoolOK(objs, used, freelist, bucket, vals, valsUsed, hash) && 0 <= b < |bucket|
    ensures 0 <= used <= |objs| && -1 <= bucket[b] < used && IsLatest(objs, used, b, bucket[b], hash)
  {
  }

  lemma Links(objs: seq<TStatObj>, used: int, freelist: int, bucket: seq<int>, vals: seq<int>, valsUsed: int,
      hash: string -> nat, h: int)
    requires PoolOK(objs, used, freelist, bucket, vals, valsUsed, hash) && 0 <= h < used
    ensures used <= |objs| && -1 <= objs[h].next < h && IsLatest(objs, h, hash(objs[h].id), objs[h].next, hash)
    ensures IsType(objs[h].typ) && |objs[h].id| < STAT_ID_MAX_LEN
  {
  }

  lemma Hashes(objs: seq<TStatObj>, used: int, freelist: int, bucket: seq<int>, vals: seq<int>, valsUsed: int,
      hash: string -> nat, id: string)
    requires PoolOK(objs, used, freelist, bucket, vals, valsUsed, hash)
    ensures hash(id) < |bucket| && forall s :: hash(s) < |bucket|
  {
  }

  /** The slots of object `h` as the pool has them. */
  lemma SlotsOf(objs: seq<TStatObj>, used: int, vals: seq<int>, valsUsed: int, h: int)
    requires Tiled(objs, used, valsUsed) && 0 <= valsUsed <= |vals| && 0 <= h < used
    ensures used <= |objs|
    ensures var o := objs[h];
      && 0 <= o.valOffset && o.valSize >= 1 && o.valOffset + o.valSize <= |vals|
      && Slots(vals, o.valOffset, o.valSize) == vals[o.valOffset..o.valOffset + o.valSize]
  {
    Inside(objs, used, valsUsed, h);
  }

  lemma SlotsKnown(objs: seq<TStatObj>, used: int, freelist: int, bucket: seq<int>, vals: seq<int>, valsUsed: int,
      hash: string -> nat, h: int)
    requires PoolOK(objs, used, freelist, bucket, vals, valsUsed, hash) && 0 <= h < used
    ensures used <= |objs|
    ensures var o, e := objs[h], EntryOf(objs[h], vals);
      && 0 <= o.valOffset && o.valSize >= 1 && o.valOffset + o.valSize <= |vals| && |e.values| == o.valSize
      && e.count == o.count && e.typ == o.typ && e.id == o.id && forall i :: 0 <= i < o.valSize ==>
          e.values[i] == vals[o.valOffset + i]
  {
    SlotsOf(objs, used, vals, valsUsed, h);
  }

  /** The list of objects with one more. */
  function Registration(objs: seq<TStatObj>, used: int, o: TStatObj, next: int): seq<TStatObj>
    requires 0 <= used < |objs|
  {
    objs[used := o.(next := next)]
  }

  /** Taking the first free handle, filling in the object and putting it in front of its
      bucket's chain registers it. */
  lemma RegisterOK(objs: seq<TStatObj>, used: int, freelist: int, bucket: seq<int>, vals: seq<int>, valsUsed: int,
      hash: string -> nat, o: TStatObj)
    requires PoolOK(objs, used, freelist, bucket, vals, valsUsed, hash)
    requires used < |objs| && o.valSize >= 1 && valsUsed + o.valSize <= |vals| && o.valOffset == valsUsed
        && o.count == 0
    requires |o.id| < STAT_ID_MAX_LEN && IsType(o.typ)
    ensures var b := hash(o.id);
      var objs' := Registration(objs, used, o, bucket[b]);
      && PoolOK(objs', used + 1, NextFree(used + 1, |objs|), bucket[b := used], vals, valsUsed + o.valSize, hash)
      && ViewOf(objs', used + 1, vals) == ViewOf(objs, used,
          vals) + [Entry(o.id, o.desc, o.typ, 0, seq(o.valSize, _ => 0))]
  {
    var b := hash(o.id);
    var objs' := Registration(objs, used, o, bucket[b]);
    RegisterLinks(objs, used, freelist, bucket, hash, o);
    assert objs'[used].count == o.count;
    forall h | 0 <= h < used ensures objs'[h] == objs[h] { }
    assert Slots(vals, valsUsed, o.valSize) == seq(o.valSize, _ => 0);
  }

  lemma RegisterLinks(objs: seq<TStatObj>, used: int, freelist: int, bucket: seq<int>, hash: string -> nat, o: TStatObj)
    requires Linked(objs, used, freelist, bucket, hash) && used < |objs| && hash(o.id) < |bucket|
    ensures var b := hash(o.id);
      Linked(Registration(objs, used, o, bucket[b]), used + 1, NextFree(used + 1, |objs|), bucket[b := used], hash)
  {
    var b := hash(o.id);
    var objs', bucket' := Registration(objs, used, o, bucket[b]), bucket[b := used];
    forall c | 0 <= c < |bucket'| ensures IsLatest(objs', used + 1, c, bucket'[c], hash) {
      assert IsLatest(objs, used, c, bucket[c], hash);
    }
    forall h | 0 <= h < used + 1 ensures IsLatest(objs', h, hash(objs'[h].id), objs'[h].next, hash) {
      if h < used {
        assert IsLatest(objs, h, hash(objs[h].id), objs[h].next, hash);
      } else {
        assert IsLatest(objs, used, b, bucket[b], hash);
      }
    }
  }

  // ---- changes to one object's count and values ----

  /** The links and names are the same. */
  ghost predicate SameLinks(objs: seq<TStatObj>, objs': seq<TStatObj>) {
    |objs| == |objs'| && forall h :: 0 <= h < |objs| ==> objs'[h] == objs[h].(count := objs'[h].count)
  }

  /** New values in one object's slots change that object and no other. */
  lemma UpdateOK(objs: seq<TStatObj>, used: int, freelist: int, bucket: seq<int>, vals: seq<int>, valsUsed: int,
      hash: string -> nat, c: int, count: int, i: int, val: int)
    requires PoolOK(objs, used, freelist, bucket, vals, valsUsed, hash) && 0 <= c < used && 0 <= i < objs[c].valSize
    ensures 0 <= objs[c].valOffset + i < |vals|
    ensures var objs', vals' := objs[c := objs[c].(count := count)], vals[objs[c].valOffset + i := val];
      var e := ViewOf(objs, used, vals)[c];
      && PoolOK(objs', used, freelist, bucket, vals', valsUsed, hash) && SameLinks(objs, objs')
      && |e.values| == objs[c].valSize
      && ViewOf(objs', used, vals') == ViewOf(objs, used, vals)[c := e.(count := count, values := e.values[i := val])]
  {
    SlotsOf(objs, used, vals, valsUsed, c);
    Inside(objs, used, valsUsed, c);
    var objs', vals' := objs[c := objs[c].(count := count)], vals[objs[c].valOffset + i := val];
    UpdateLinks(objs, used, freelist, bucket, hash, objs');
    UpdateView(objs, used, vals, valsUsed, c, count, i, val);
  }

  lemma UpdateView(objs: seq<TStatObj>, used: int, vals: seq<int>, valsUsed: int, c: int, count: int, i: int, val: int)
    requires Tiled(objs, used, valsUsed) && 0 <= valsUsed <= |vals| && 0 <= c < used && 0 <= i < objs[c].valSize
    ensures 0 <= objs[c].valOffset + i < |vals|
    ensures var objs', vals' := objs[c := objs[c].(count := count)], vals[objs[c].valOffset + i := val];
      var e := ViewOf(objs, used, vals)[c];
      && |e.values| == objs[c].valSize
      && ViewOf(objs', used, vals') == ViewOf(objs, used, vals)[c := e.(count := count, values := e.values[i := val])]
  {
    hide Tiled, Slots;
    SlotsOf(objs, used, vals, valsUsed, c);
    var k := objs[c].valOffset + i;
    var objs', vals' := objs[c := objs[c].(count := count)], vals[k := val];
    forall h | 0 <= h < used ensures Slots(vals', objs[h].valOffset, objs[h].valSize) == if h == c then Slots(vals,
        objs[h].valOffset, objs[h].valSize)[i := val] else Slots(vals, objs[h].valOffset, objs[h].valSize) {
      SlotsOf(objs, used, vals, valsUsed, h);
      SlotsOf(objs, used, vals', valsUsed, h);
      if h < c { Apart(objs, used, valsUsed, h, c); }
      if c < h { Apart(objs, used, valsUsed, c, h); }
    }
    forall h | 0 <= h < used ensures objs'[h] == if h == c then objs[h].(count := count) else objs[h] { }
  }

  lemma UpdateLinks(objs: seq<TStatObj>, used: int, freelist: int, bucket: seq<int>, hash: string -> nat,
      objs': seq<TStatObj>)
    requires Linked(objs, used, freelist, bucket, hash) && SameLinks(objs, objs')
    ensures Linked(objs', used, freelist, bucket, hash)
  {
    forall b | 0 <= b < |bucket| ensures IsLatest(objs', used, b, bucket[b], hash) {
      assert IsLatest(objs, used, b, bucket[b], hash);
    }
    forall h | 0 <= h < used ensures IsLatest(objs', h, hash(objs'[h].id), objs'[h].next, hash) {
      assert IsLatest(objs, h, hash(objs[h].id), objs[h].next, hash);
    }
  }
}
