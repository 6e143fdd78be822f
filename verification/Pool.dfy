/**
  CTStat: counters registered by name in a pool of fixed size.
 */
module Pool {
  import opened Common
  import opened PoolLayout
  import opened PoolView
  import opened PoolState
  import opened PoolSteps
  import opened PoolTravel

  const STAT_TYPE_ALL := -1
  const ERR_STAT_EXIST := -2000
  const ERR_STAT_NONE := -2001
  const ERR_STAT_FULL := -2010

  /** What `type & policy_no_[i]` selects, for a search. */
  predicate Matches(e: Entry, id: string, typ: int) { e.id == id && (typ == STAT_TYPE_ALL || typ == e.typ) }

  predicate NoneAbove(view: seq<Entry>, top: int, id: string, typ: int)
    requires top >= -1
  {
    forall h :: top < h < |view| ==> !Matches(view[h], id, typ)
  }

  lemma TestEntry(o: TStatObj, vals: seq<int>, id: string, typ: int)
    ensures Matches(EntryOf(o, vals), id, typ) <==> o.id == id && (typ == STAT_TYPE_ALL || typ == o.typ)
  {
  }

  lemma FoundIs(view: seq<Entry>, top: int, id: string, typ: int)
    requires -1 <= top < |view| && (top >= 0 ==> Matches(view[top], id, typ)) && NoneAbove(view, top, id, typ)
    ensures top >= 0 ==> view[top].id == id && (typ == -1 || view[top].typ == typ)
    ensures forall h :: top < h < |view| ==> view[h].id != id || (typ != -1 && view[h].typ != typ)
  {
    forall h | top < h < |view| ensures view[h].id != id || (typ != -1 && view[h].typ != typ) {
      assert !Matches(view[h], id, typ);
    }
  }

  lemma NoneYet(view: seq<Entry>, id: string, typ: int)
    ensures NoneAbove(view, |view| - 1, id, typ)
  {
  }

  lemma AboveToo(view: seq<Entry>, h: int, id: string, typ: int)
    requires 0 <= h < |view| && NoneAbove(view, h, id, typ) && !Matches(view[h], id, typ)
    ensures NoneAbove(view, h - 1, id, typ)
  {
  }

  lemma LatestBucket(objs: seq<TStatObj>, k: int, b: int, h: int, hash: string -> nat)
    requires 0 <= h < k <= |objs| && IsLatest(objs, k, b, h, hash)
    ensures hash(objs[h].id) == b
  {
  }

  /** What lies between two links of a chain is in other buckets. */
  lemma PassOver(objs: seq<TStatObj>, view: seq<Entry>, vals: seq<int>, k: int, used: int, h: int, id: string, typ: int,
      hash: string -> nat)
    requires 0 <= k <= used <= |objs| && |view| == used
    requires forall i :: 0 <= i < used ==> view[i] == EntryOf(objs[i], vals)
    requires IsLatest(objs, k, hash(id), h, hash) && NoneAbove(view, k - 1, id, typ)
    ensures h >= -1 && NoneAbove(view, h, id, typ)
  {
    forall i | h < i < |view| ensures !Matches(view[i], id, typ) {
      if i < k { assert view[i] == EntryOf(objs[i], vals) && hash(objs[i].id) != hash(id); }
    }
  }

  lemma StepIs(e: Entry, p: Policy, val: int, idx: int, i: int)
    requires 1 <= idx <= |e.values| && p == Bound(e.typ) && i == StepSlot(p, idx)
    ensures 0 <= i < |e.values|
    ensures StepEntry(e, val, idx) == e.(count := StepCount(p, e.count, idx, |e.values|),
        values := e.values[i := StepValue(p, e.values[i], val)])
  {
  }

  lemma Newest(view: seq<Entry>, top: int, id: string)
    requires -1 <= top < |view| && NoneAbove(view, top, id, STAT_TYPE_ALL)
        && (top >= 0 ==> Matches(view[top], id, STAT_TYPE_ALL))
    ensures forall h :: top < h < |view| ==> view[h].id != id
    ensures top >= 0 ==> view[top].id == id
    ensures Registered(view, id) <==> top >= 0
  {
    forall h | top < h < |view| ensures view[h].id != id {
      assert !Matches(view[h], id, STAT_TYPE_ALL);
    }
  }

  lemma Untouched(view: seq<Entry>, now: seq<Entry>, id: string, val: int, idx: int, choice: int)
    requires Progress(view, now, id, val, idx, choice) && 0 <= choice < |view|
    ensures |now| == |view| && now[choice] == view[choice]
  {
    hide StepEntry;
  }

  lemma Named(objs: seq<TStatObj>, used: int, vals: seq<int>, view: seq<Entry>)
    requires 0 <= used <= |objs| && |view| == used && forall h :: 0 <= h < used ==> view[h] == EntryOf(objs[h], vals)
    ensures forall h :: 0 <= h < |view| ==> view[h].id == objs[h].id
  {
  }

  lemma SameNext(objs: seq<TStatObj>, objs': seq<TStatObj>, h: int)
    requires SameLinks(objs, objs') && 0 <= h < |objs|
    ensures |objs'| == |objs| && objs'[h].next == objs[h].next
  {
  }

  lemma RunEmpty(view: seq<Entry>, ids: seq<string>, val: int, idx: int, hash: string -> nat)
    ensures RunAll(view, ids[..0], val, idx, hash) == view
  {
  }

  lemma StillFits(view: seq<Entry>, ids: seq<string>, i: nat, val: int, idx: int, hash: string -> nat)
    requires i < |ids| && Fits(view, ids, idx)
    ensures Fits(RunAll(view, ids[..i], val, idx, hash), [ids[i]], idx)
    ensures RunAll(view, ids[..i + 1], val, idx, hash) == RunId(RunAll(view, ids[..i], val, idx, hash), ids[i], val,
        idx, hash)
  {
    hide RunId;
    RunFits(view, ids[..i], val, idx, hash);
    assert ids[..i + 1][..i] == ids[..i];
  }

  const STAT_MAX_VALSIZE := 10

  /** Where `init_statpolicy` puts a policy. */
  function Log2(n: nat): nat { if n < 2 then 0 else 1 + Log2(n / 2) }

  lemma LogPow()
    ensures Log2(1) == 0 && Log2(2) == 1 && Log2(4) == 2 && Log2(8) == 3 && Log2(16) == 4 && Log2(32) == 5
  {
  }

  lemma {:induction false} LogBound(n: nat, k: nat)
    requires n < Pow2(k + 1)
    ensures Log2(n) <= k
  {
    if n >= 2 { LogBound(n / 2, k - 1); }
  }

  lemma TablesFilled(p: seq<Policy>, n: seq<int>, t: seq<int>)
    requires |p| == 6 && |n| == 6 && |t| == 64
    ensures p[0 := PolicySum][1 := PolicyAvg][2 := PolicyMax][3 := PolicyMin][4 := PolicyCount][5 := PolicyUpdate]
      == POLICIES
    ensures n[0 := 1][1 := 2][2 := 4][3 := 8][4 := 16][5 := 32] == TYPES
    ensures TypesOK(t[1 := 0][2 := 1][4 := 2][8 := 3][16 := 4][32 := 5])
  {
  }

  /** The types in the order of their bits. */
  const TYPES := [1, 2, 4, 8, 16, 32]

  /** Each type leads back to its place. */
  predicate TypesOK(t: seq<int>) { |t| == 64 && t[1] == 0 && t[2] == 1 && t[4] == 2 && t[8] == 3 && t[16] == 4
      && t[32] == 5 }

  lemma TypePow(i: nat)
    requires i < STAT_TYPE_NUM
    ensures TYPES[i] == Pow2(i) && IsType(TYPES[i])
  {
    Pows();
    assert i in {0, 1, 2, 3, 4, 5};
  }

  lemma TypeBound(t: seq<int>, typ: int)
    requires TypesOK(t) && IsType(typ)
    ensures 0 <= typ < |t| && 0 <= t[typ] < STAT_TYPE_NUM && POLICIES[t[typ]] == Bound(typ)
  {
  }

  /** Each new object needs its own slots. */
  lemma {:induction false} RoomLeft(id: string, typ: int, desc: string, valSize: nat, i: nat, n: nat)
    requires i <= n
    ensures |NewEntries(id, typ, desc, valSize, i)| * valSize <= |NewEntries(id, typ, desc, valSize, n)| * valSize
    ensures |NewEntries(id, typ, desc, valSize, i)| <= |NewEntries(id, typ, desc, valSize, n)|
    decreases n
  {
    hide HasBit, NewEntry;
    if i < n {
      RoomLeft(id, typ, desc, valSize, i, n - 1);
      More(|NewEntries(id, typ, desc, valSize, n - 1)|, |NewEntries(id, typ, desc, valSize, n)|, valSize);
    }
  }

  lemma More(m: int, n: int, k: nat)
    requires m <= n
    ensures m * k <= n * k
  {
  }

  /** One step of the registration. */
  lemma OneMore(id: string, typ: int, desc: string, valSize: nat, i: nat, used: int, objNum: int, valsUsed: int,
      valNum: int)
    requires i < STAT_TYPE_NUM && HasBit(typ, Pow2(i))
    requires Room(|NewEntries(id, typ, desc, valSize, STAT_TYPE_NUM)|, valSize, used, objNum, valsUsed, valNum)
    ensures var n := |NewEntries(id, typ, desc, valSize, i)|;
      && NewEntries(id, typ, desc, valSize, i + 1) == NewEntries(id, typ, desc, valSize,
          i) + [NewEntry(id, Pow2(i), desc, valSize)]
      && valSize >= 1 && used + n < objNum && valsUsed + n * valSize < valNum - valSize
      && (n + 1) * valSize == n * valSize + valSize
  {
    hide HasBit, NewEntry, Pow2;
    MoreEntries(id, typ, desc, valSize, i + 1);
    RoomLeft(id, typ, desc, valSize, i + 1, STAT_TYPE_NUM);
    var n := |NewEntries(id, typ, desc, valSize, i)|;
    assert (n + 1) * valSize == n * valSize + valSize;
  }

  lemma NoneNew(id: string, typ: int, desc: string, valSize: nat)
    ensures NewEntries(id, typ, desc, valSize, 0) == [] && 0 * valSize == 0
  {
  }

  lemma NextNew(id: string, typ: int, desc: string, valSize: nat, i: nat)
    ensures HasBit(typ, Pow2(i)) <==> typ / Pow2(i) % 2 == 1
    ensures !HasBit(typ, Pow2(i)) ==> NewEntries(id, typ, desc, valSize, i + 1) == NewEntries(id, typ, desc, valSize, i)
  {
    hide Pow2;
  }

  lemma NotFound(view: seq<Entry>, id: string)
    requires NoneAbove(view, INVALID_HANDLE, id, STAT_TYPE_ALL)
    ensures !Registered(view, id)
  {
    forall h | 0 <= h < |view| ensures view[h].id != id {
      assert !Matches(view[h], id, STAT_TYPE_ALL);
    }
  }

  /** The first free object has no count yet. */
  lemma FreeIsBlank(objs: seq<TStatObj>, used: int, freelist: int, bucket: seq<int>, vals: seq<int>, valsUsed: int,
      hash: string -> nat)
    requires PoolOK(objs, used, freelist, bucket, vals, valsUsed, hash) && used < |objs|
    ensures 0 <= used && objs[used].count == 0 && freelist == used && forall s :: hash(s) < |bucket|
  {
  }

  /** The new objects fit the pool, as `alloc_statobj` asserts one by one. */
  predicate Room(n: nat, valSize: nat, used: int, objNum: int, valsUsed: int, valNum: int) {
    n > 0 ==> valSize >= 1 && used + n <= objNum && valsUsed + n * valSize < valNum
  }

  class CTStat {
    const statobjs: array<TStatObj>
    const bucket: array<int>
    const statvals: array<int>
    var freelist: int
    var statobjsUsed: int
    var statvalsUsed: int
    const policy: array<Policy>
    const policyNo: array<int>
    const policyType: array<int>
    var policyNum: int
    /** The hash is any function into the buckets. */
    const hashid: string -> nat

    /** The arrays are different ones. */
    ghost predicate Shape() {
      && bucket != statvals && bucket != policyNo && bucket != policyType
      && statvals != policyNo && statvals != policyType && policyNo != policyType
      && statobjs.Length > 0 && policy.Length == STAT_TYPE_NUM && policyNo.Length == STAT_TYPE_NUM
      && policyType.Length == 64
    }

    ghost predicate PoliciesOK()
      reads policy, policyNo, policyType
    {
      Shape() && policy[..] == POLICIES && policyNo[..] == TYPES && TypesOK(policyType[..])
    }

    ghost predicate Laid()
      reads this, statobjs, bucket, statvals
    {
      PoolOK(statobjs[..], statobjsUsed, freelist, bucket[..], statvals[..], statvalsUsed, hashid)
    }

    ghost predicate Valid()
      reads this, statobjs, bucket, statvals, policy, policyNo, policyType
    {
      Shape() && PoliciesOK() && Laid()
    }

    ghost function View(): (view: seq<Entry>)
      reads this, statobjs, bucket, statvals, policy, policyNo, policyType
      requires Valid()
      ensures |view| == statobjsUsed
    {
      UsedFits(statobjs[..], statobjsUsed, freelist, bucket[..], statvals[..], statvalsUsed, hashid);
      ViewOf(statobjs[..], statobjsUsed, statvals[..])
    }

    // ---- policies ----

    /** `init_statpolicy`. */
    method InitStatPolicy(p: Policy, typ: int)
      requires Shape() && policyNum < STAT_TYPE_NUM && 0 <= typ < 64
      modifies this`policyNum, policy, policyNo, policyType
      ensures policyNum == old(policyNum) + 1 && Log2(typ) < STAT_TYPE_NUM
      ensures policy[..] == old(policy[..])[Log2(typ) := p]
      ensures policyNo[..] == old(policyNo[..])[Log2(typ) := typ]
      ensures policyType[..] == old(policyType[..])[typ := Log2(typ)]
    {
      Pows();
      LogBound(typ, 5);
      var i, j := 0, typ / 2;
      while j != 0
        invariant 0 <= i && 0 <= j && Log2(typ) == i + if j == 0 then 0 else 1 + Log2(j)
        decreases j
      {
        i := i + 1;
        j := j / 2;
      }
      policyNo[i] := typ;
      policy[i] := p;
      policyType[typ] := i;
      policyNum := policyNum + 1;
    }

    // ---- the pool ----

    /** `newpool`. */
    method NewPool()
      requires Shape() && bucket.Length > 0 && forall s :: hashid(s) < bucket.Length
      modifies this`freelist, this`statobjsUsed, this`statvalsUsed, statobjs, bucket, statvals
      ensures Laid() && statobjsUsed == 0
    {
      forall h | 0 <= h < statobjs.Length { statobjs[h] := BLANK; }
      forall v | 0 <= v < statvals.Length { statvals[v] := 0; }
      freelist := 0;
      statobjsUsed := 0;
      statvalsUsed := 0;
      for i := 0 to bucket.Length
        invariant freelist == 0 && statobjsUsed == 0 && statvalsUsed == 0
        invariant forall b :: 0 <= b < i ==> bucket[b] == INVALID_HANDLE
        invariant forall h :: 0 <= h < statobjs.Length ==> statobjs[h] == BLANK
        invariant forall v :: 0 <= v < statvals.Length ==> statvals[v] == 0
      {
        bucket[i] := INVALID_HANDLE;
      }
      for i := 0 to statobjs.Length - 1
        invariant freelist == 0 && statobjsUsed == 0 && statvalsUsed == 0
        invariant forall b :: 0 <= b < bucket.Length ==> bucket[b] == INVALID_HANDLE
        invariant forall v :: 0 <= v < statvals.Length ==> statvals[v] == 0
        invariant forall h :: 0 <= h < i ==> statobjs[h].next == NextFree(h + 1, statobjs.Length)
        invariant forall h :: 0 <= h < statobjs.Length ==> statobjs[h].count == 0
      {
        statobjs[i] := statobjs[i].(next := i + 1);
      }
      statobjs[statobjs.Length - 1] := statobjs[statobjs.Length - 1].(next := INVALID_HANDLE);
    }

    /** A pool with its six policies and no objects; the sizes and the hash are free. */
    constructor (bucketNum: nat, objNum: nat, valNum: nat, hash: string -> nat)
      requires bucketNum > 0 && objNum > 0 && forall s :: hash(s) < bucketNum
      ensures Valid() && View() == [] && hashid == hash
      ensures statobjs.Length == objNum && bucket.Length == bucketNum && statvals.Length == valNum
      ensures fresh(statobjs) && fresh(bucket) && fresh(statvals) && fresh(policy) && fresh(policyNo)
          && fresh(policyType)
    {
      statobjs := new TStatObj[objNum](_ => BLANK);
      bucket := new int[bucketNum];
      statvals := new int[valNum];
      policy := new Policy[STAT_TYPE_NUM](_ => NoPolicy);
      policyNo := new int[STAT_TYPE_NUM](_ => 0);
      policyType := new int[64](_ => 0);
      policyNum := 0;
      hashid := hash;
      new;
      InitPolicies();
      NewPool();
    }

    /** The tables, as the constructor fills them. */
    method InitPolicies()
      requires Shape() && policyNum == 0
      modifies this`policyNum, policy, policyNo, policyType
      ensures PoliciesOK() && policyNum == STAT_TYPE_NUM
    {
      hide Log2, TypesOK;
      LogPow();
      TablesFilled(policy[..], policyNo[..], policyType[..]);
      InitStatPolicy(PolicySum, 1);
      InitStatPolicy(PolicyAvg, 2);
      InitStatPolicy(PolicyMax, 4);
      InitStatPolicy(PolicyMin, 8);
      InitStatPolicy(PolicyCount, 16);
      InitStatPolicy(PolicyUpdate, 32);
    }

    /** `alloc_statobj`, with its assertion. */
    method AllocStatObj(valSize: int) returns (choice: int)
      requires Valid()
      requires Granted(statobjsUsed, statobjs.Length, statvalsUsed, statvals.Length, valSize)
      modifies this`freelist, this`statobjsUsed, this`statvalsUsed, statobjs
      ensures choice == old(statobjsUsed) == old(freelist)
      ensures statobjs[..] == old(statobjs[..])[choice := old(statobjs[choice]).(valSize := valSize,
          valOffset := old(statvalsUsed))]
      ensures freelist == NextFree(choice + 1, statobjs.Length)
      ensures statobjsUsed == old(statobjsUsed) + 1 && statvalsUsed == old(statvalsUsed) + valSize
    {
      choice := freelist;
      statobjs[choice] := statobjs[choice].(valSize := valSize, valOffset := statvalsUsed);
      freelist := statobjs[choice].next;
      statobjsUsed := statobjsUsed + 1;
      statvalsUsed := statvalsUsed + valSize;
    }

    /** `insert_statobj`. */
    method InsertStatObj(choice: int)
      requires Shape() && 0 <= choice < statobjs.Length && hashid(statobjs[choice].id) < bucket.Length
      modifies statobjs, bucket
      ensures var b := hashid(old(statobjs[choice].id));
        && statobjs[..] == old(statobjs[..])[choice := old(statobjs[choice]).(next := old(bucket[b]))]
        && bucket[..] == old(bucket[..])[b := choice]
    {
      var bucketid := hashid(statobjs[choice].id);
      var next := bucket[bucketid];
      statobjs[choice] := statobjs[choice].(next := next);
      bucket[bucketid] := choice;
    }

    /** `find_statobj`: the newest object of that id and type. */
    method FindStatObj(id: string, typ: int) returns (next: int)
      requires Valid()
      ensures -1 <= next < statobjsUsed && (next >= 0 ==> Matches(View()[next], id, typ))
      ensures NoneAbove(View(), next, id, typ)
      ensures next >= 0 ==> View()[next].id == id && (typ == -1 || View()[next].typ == typ)
      ensures forall h :: next < h < |View()| ==> View()[h].id != id || (typ != -1 && View()[h].typ != typ)
    {
      hide PoolOK, IsLatest, EntryOf, TypesOK, Matches;
      ghost var objs, buckets, vals, view := statobjs[..], bucket[..], statvals[..], View();
      Hashes(objs, statobjsUsed, freelist, buckets, vals, statvalsUsed, hashid, id);
      var bucketid := hashid(id);
      next := bucket[bucketid];
      ghost var k := statobjsUsed;
      Heads(objs, statobjsUsed, freelist, buckets, vals, statvalsUsed, hashid, bucketid);
      NoneYet(view, id, typ);
      PassOver(objs, view, vals, k, k, next, id, typ, hashid);
      while next != INVALID_HANDLE
        invariant -1 <= next < k <= statobjsUsed
        invariant IsLatest(objs, k, bucketid, next, hashid) && NoneAbove(view, next, id, typ)
        decreases next + 1
      {
        var obj := statobjs[next];
        TestEntry(obj, vals, id, typ);
        if obj.id == id && (typ == STAT_TYPE_ALL || typ == obj.typ) {
          break;
        }
        Links(objs, statobjsUsed, freelist, buckets, vals, statvalsUsed, hashid, next);
        LatestBucket(objs, k, bucketid, next, hashid);
        AboveToo(view, next, id, typ);
        k := next;
        next := obj.next;
        PassOver(objs, view, vals, k, statobjsUsed, next, id, typ, hashid);
      }
      FoundIs(view, next, id, typ);
    }

    /** `init_statobj` for one type: take a handle, fill in the object, link it. */
    method Register(id: string, typ: int, desc: string, valSize: nat) returns (choice: int)
      requires Valid() && IsType(typ)
      requires Granted(statobjsUsed, statobjs.Length, statvalsUsed, statvals.Length, valSize)
      modifies this`freelist, this`statobjsUsed, this`statvalsUsed, statobjs, bucket
      ensures Valid() && choice == old(statobjsUsed) && statobjsUsed == choice + 1
          && statvalsUsed == old(statvalsUsed) + valSize
      ensures View() == old(View()) + [NewEntry(id, typ, desc, valSize)]
    {
      hide Linked, Tiled, NoRepeats, Cut, Slots;
      ghost var objs, used, free, buckets, vals, valsUsed := statobjs[..], statobjsUsed, freelist, bucket[..],
          statvals[..], statvalsUsed;
      FreeIsBlank(objs, used, free, buckets, vals, valsUsed, hashid);
      choice := AllocStatObj(valSize);
      if choice != INVALID_HANDLE {
        var obj := statobjs[choice];
        statobjs[choice] := obj.(id := Cut(id, STAT_ID_MAX_LEN), desc := Cut(desc, 2 * STAT_ID_MAX_LEN), typ := typ,
            next := INVALID_HANDLE);
        ghost var o := statobjs[choice];
        RegisterOK(objs, used, free, buckets, vals, valsUsed, hashid, o);
        InsertStatObj(choice);
        assert statobjs[..] == Registration(objs, used, o, buckets[hashid(o.id)]);
      }
    }

    /** `init_statobj`: an id that is registered stays as it is; a new one gets an object for
        each of its type bits.  There is always a handle where the assertion holds. */
    method InitStatObj(id: string, typ: int, desc: string, valSize: nat) returns (r: int)
      requires Valid()
      requires !Registered(View(), id) ==>
          Room(|NewEntries(id, typ, desc, valSize, STAT_TYPE_NUM)|, valSize, statobjsUsed, statobjs.Length,
          statvalsUsed, statvals.Length)
      modifies this`freelist, this`statobjsUsed, this`statvalsUsed, statobjs, bucket
      ensures Valid()
      ensures old(Registered(View(), id)) ==> r == ERR_STAT_EXIST && View() == old(View())
      ensures !old(Registered(View(), id)) ==>
          r == 0 && View() == old(View()) + NewEntries(id, typ, desc, valSize, STAT_TYPE_NUM)
    {
      hide PoolOK, Bound, NewEntries, Pow2, HasBit, NewEntry;
      ghost var view, valsUsed := View(), statvalsUsed;
      var found := FindStatObj(id, STAT_TYPE_ALL);
      if found != INVALID_HANDLE {
        assert Matches(view[found], id, STAT_TYPE_ALL);
        return ERR_STAT_EXIST;
      }
      NotFound(view, id);
      NoneNew(id, typ, desc, valSize);
      for i := 0 to STAT_TYPE_NUM
        invariant Valid() && View() == view + NewEntries(id, typ, desc, valSize, i)
        invariant statvalsUsed == valsUsed + |NewEntries(id, typ, desc, valSize, i)| * valSize
      {
        TypePow(i);
        NextNew(id, typ, desc, valSize, i);
        if typ / policyNo[i] % 2 == 1 {
          OneMore(id, typ, desc, valSize, i, |view|, statobjs.Length, valsUsed, statvals.Length);
          var choice := Register(id, policyNo[i], desc, valSize);
          if choice == INVALID_HANDLE {
            return ERR_STAT_FULL;
          }
          assert View() == view + NewEntries(id, typ, desc, valSize, i + 1);
        }
      }
      return 0;
    }

    // ---- step ----

    /** `__step__` of a policy: one slot of the object, and its count. */
    method StepSlots(p: Policy, choice: int, val: int, idx: int)
      requires 0 <= choice < statobjs.Length && 1 <= idx <= statobjs[choice].valSize
      requires 0 <= statobjs[choice].valOffset
          && statobjs[choice].valOffset + statobjs[choice].valSize <= statvals.Length
      modifies statobjs, statvals
      ensures var obj := old(statobjs[choice]);
        var slot := obj.valOffset + if p == PolicyMin then 0 else idx - 1;
        && statobjs[..] == old(statobjs[..])[choice := obj.(count := StepCount(p, obj.count, idx, obj.valSize))]
        && statvals[..] == old(statvals[..])[slot := StepValue(p, old(statvals[slot]), val)]
    {
      var obj := statobjs[choice];
      var slot := obj.valOffset + (idx - 1);
      match p {
        case PolicyMax =>
          var temp := statvals[slot];
          if temp < val {
            statvals[slot] := val;
          }
          if idx == obj.valSize {
            statobjs[choice] := obj.(count := obj.count + 1);
          }
        case PolicyMin =>
          var temp := statvals[obj.valOffset];
          if temp > val || temp == 0 {
            statvals[obj.valOffset] := val;
          }
          statobjs[choice] := obj.(count := obj.count + 1);
        case PolicyUpdate =>
          statvals[slot] := val;
        case _ =>
          statvals[slot] := statvals[slot] + val;
          if idx == obj.valSize {
            statobjs[choice] := obj.(count := obj.count + 1);
          }
      }
    }

    /** The step of one object changes that object and no other. */
    method StepObj(choice: int, val: int, idx: int)
      requires Valid() && 0 <= choice < statobjsUsed && 1 <= idx <= statobjs[choice].valSize
      modifies statobjs, statvals
      ensures Valid() && SameLinks(old(statobjs[..]), statobjs[..])
      ensures View() == old(View())[choice := StepEntry(old(View())[choice], val, idx)]
    {
      hide PoolOK, Slots, Bound, StepEntry, TypesOK, SameLinks, StepValue, StepCount;
      ghost var objs, buckets, vals, view := statobjs[..], bucket[..], statvals[..], View();
      Links(objs, statobjsUsed, freelist, buckets, vals, statvalsUsed, hashid, choice);
      SlotsKnown(objs, statobjsUsed, freelist, buckets, vals, statvalsUsed, hashid, choice);
      TypeBound(policyType[..], objs[choice].typ);
      var no := policyType[statobjs[choice].typ];
      var p := policy[no];
      ghost var i := StepSlot(p, idx);
      StepIs(view[choice], p, val, idx, i);
      ghost var count, v := StepCount(p, objs[choice].count, idx, objs[choice].valSize),
          StepValue(p, vals[objs[choice].valOffset + i], val);
      StepSlots(p, choice, val, idx);
      UpdateOK(objs, statobjsUsed, freelist, buckets, vals, statvalsUsed, hashid, choice, count, i, v);
    }

    /** `step` for one id. */
    method StepRun(id: string, val: int, idx: int)
      requires Valid() && Fits(View(), [id], idx)
      modifies statobjs, statvals
      ensures Valid() && View() == RunId(old(View()), id, val, idx, hashid)
    {
      hide PoolOK, Bound, StepEntry, TypesOK, SameLinks, EntryOf, Matches, NoneAbove, IsLatest, Progress, OnlyId, RunId;
      ghost var view := View();
      var choice := FindStatObj(id, STAT_TYPE_ALL);
      ghost var top := choice;
      Newest(view, top, id);
      if choice == INVALID_HANDLE {
        RunNone(view, id, val, idx, hashid);
        return;
      }
      RunStarts(view, id, val, idx, top, hashid);
      while choice != INVALID_HANDLE
        invariant Valid() && -1 <= choice <= top < |view|
        invariant Progress(view, View(), id, val, idx, choice) && OnlyId(view, top, choice, id, hashid)
        decreases choice + 1
      {
        ghost var objs, buckets, vals, now := statobjs[..], bucket[..], statvals[..], View();
        SlotsKnown(objs, statobjsUsed, freelist, buckets, vals, statvalsUsed, hashid, choice);
        Untouched(view, now, id, val, idx, choice);
        var obj := statobjs[choice];
        if obj.id == id {
          Links(objs, statobjsUsed, freelist, buckets, vals, statvalsUsed, hashid, choice);
          Named(objs, statobjsUsed, vals, now);
          RunNext(view, now, objs, id, val, idx, top, choice, obj.next, hashid);
          RunTurn(view, now, id, val, idx, choice, obj.next);
          StepObj(choice, val, idx);
          SameNext(objs, statobjs[..], choice);
          choice := statobjs[choice].next;
        } else {
          break;
        }
      }
      RunEnds(view, View(), id, val, idx, top, choice, hashid);
    }

    /** `step`: for each id in turn, one update to every object of that id that it reaches;
        these are all of them where objects of one id are neighbours. */
    method Step(ids: seq<string>, val: int, idx: int)
      requires Valid() && Fits(View(), ids, idx)
      modifies statobjs, statvals
      ensures Valid()
      ensures View() == RunAll(old(View()), ids, val, idx, hashid)
      ensures Contiguous(old(View()), hashid) ==> View() == StepAll(old(View()), ids, val, idx)
    {
      hide PoolOK, TypesOK, RunAll, Contiguous, RunId;
      ghost var view := View();
      RunEmpty(view, ids, val, idx, hashid);
      for i := 0 to |ids|
        invariant Valid() && View() == RunAll(view, ids[..i], val, idx, hashid)
      {
        StillFits(view, ids, i, val, idx, hashid);
        StepRun(ids[i], val, idx);
      }
      assert ids[..|ids|] == ids;
      if Contiguous(view, hashid) { RunIsAll(view, ids, val, idx, hashid); }
    }

    /** `step0`. */
    method Step0(id: string, val: int, idx: int)
      requires Valid() && Fits(View(), [id], idx)
      modifies statobjs, statvals
      ensures Valid() && View() == RunAll(old(View()), [id], val, idx, hashid)
    {
      Step([id], val, idx);
    }

    /** `query`: the newest object of the id, which is the one of its highest type. */
    method Query(id: string) returns (r: int, choice: int)
      requires Valid()
      ensures r == if Registered(View(), id) then 1 else ERR_STAT_NONE
      ensures r == 1 ==> 0 <= choice < |View()| && View()[choice].id == id && forall h :: choice < h < |View()| ==>
          View()[h].id != id
    {
      hide PoolOK, TypesOK, EntryOf, Matches, NoneAbove;
      choice := FindStatObj(id, STAT_TYPE_ALL);
      Newest(View(), choice, id);
      if choice != INVALID_HANDLE {
        r := 1;
      } else {
        r := ERR_STAT_NONE;
      }
    }

    // ---- travel ----

    /** `do_reset`. */
    method ResetObj(choice: int)
      requires Valid() && 0 <= choice < statobjsUsed
      modifies statobjs, statvals
      ensures Valid() && SameLinks(old(statobjs[..]), statobjs[..])
      ensures View() == old(View())[choice := ClearedEntry(old(View())[choice])]
    {
      hide PoolOK, TypesOK, EntryOf, SameLinks;
      ghost var view, objs := View(), statobjs[..];
      ghost var e := view[choice];
      SlotsKnown(objs, statobjsUsed, freelist, bucket[..], statvals[..], statvalsUsed, hashid, choice);
      var obj := statobjs[choice];
      ghost var values := e.values;
      assert view == view[choice := e.(values := values)];
      for i := 0 to obj.valSize
        invariant Valid() && statobjs[..] == objs && |values| == obj.valSize
        invariant forall j :: 0 <= j < i ==> values[j] == 0
        invariant View() == view[choice := e.(values := values)]
      {
        UpdateOK(statobjs[..], statobjsUsed, freelist, bucket[..], statvals[..], statvalsUsed, hashid, choice,
            obj.count, i, 0);
        assert statobjs[..][choice := obj.(count := obj.count)] == statobjs[..];
        statvals[obj.valOffset + i] := 0;
        values := values[i := 0];
      }
      assert values == ClearedEntry(e).values && values[0 := 0] == values;
      assert ClearedEntry(e) == e.(count := 0, values := values);
      UpdateOK(statobjs[..], statobjsUsed, freelist, bucket[..], statvals[..], statvalsUsed, hashid, choice, 0, 0, 0);
      SlotsKnown(statobjs[..], statobjsUsed, freelist, bucket[..], statvals[..], statvalsUsed, hashid, choice);
      assert View()[choice] == EntryOf(statobjs[..][choice], statvals[..]);
      assert values[0] == statvals[..][obj.valOffset + 0];
      assert statvals[..][obj.valOffset := 0] == statvals[..];
      statobjs[choice] := obj.(count := 0);
    }

    /** `do_result`: `__result__` of the object's policy, for at most ten values. */
    method ResultObj(choice: int) returns (r: (int, seq<int>))
      requires Valid() && 0 <= choice < statobjsUsed
      requires statobjs[choice].valSize <= STAT_MAX_VALSIZE
      ensures IsResult(View()[choice], r)
    {
      hide PoolOK, TypesOK, EntryOf, Truncated, Quot;
      ghost var e := View()[choice];
      Links(statobjs[..], statobjsUsed, freelist, bucket[..], statvals[..], statvalsUsed, hashid, choice);
      SlotsKnown(statobjs[..], statobjsUsed, freelist, bucket[..], statvals[..], statvalsUsed, hashid, choice);
      assert e == EntryOf(statobjs[..][choice], statvals[..]);
      TypeBound(policyType[..], statobjs[choice].typ);
      var obj := statobjs[choice];
      var p := policy[policyType[obj.typ]];
      var values := [];
      var temp := obj.count;
      if p == PolicyAvg && temp <= 0 {
        return (0, []);
      }
      for i := 0 to obj.valSize
        invariant |values| == i && forall j :: 0 <= j < i ==>
            if e.typ == 2 then Truncated(e.values[j], temp, values[j]) else values[j] == e.values[j]
      {
        var v := statvals[obj.valOffset + i];
        values := values + [if p == PolicyAvg then Quot(v, temp) else v];
      }
      if e.typ != 2 { assert values == e.values; }
      return (temp, values);
    }

    /** The call of the visitor. */
    method VisitObj(visitor: Visitor, choice: int) returns (r: (int, seq<int>))
      requires Valid() && 0 <= choice < statobjsUsed
      requires visitor.DoResult? ==> statobjs[choice].valSize <= STAT_MAX_VALSIZE
      modifies statobjs, statvals
      ensures Valid() && SameLinks(old(statobjs[..]), statobjs[..])
      ensures visitor.DoReset? ==> View() == old(View())[choice := ClearedEntry(old(View())[choice])]
      ensures visitor.DoResult? ==> View() == old(View()) && IsResult(View()[choice], r)
    {
      hide PoolOK, TypesOK, EntryOf, SameLinks, IsResult, ClearedEntry, Bound;
      SameTwice(statobjs[..], statobjs[..], statobjs[..]);
      r := (0, []);
      match visitor {
        case DoReset => ResetObj(choice);
        case DoResult => r := ResultObj(choice);
      }
    }

    /** `travel`: every registered object is visited, and none twice. */
    method Travel(visitor: Visitor) returns (visited: seq<int>, out: seq<(int, seq<int>)>)
      requires Valid()
      requires visitor.DoResult? ==> forall h :: 0 <= h < statobjsUsed ==> statobjs[h].valSize <= STAT_MAX_VALSIZE
      modifies statobjs, statvals
      ensures Valid() && SameLinks(old(statobjs[..]), statobjs[..])
      ensures NoRepeats(visited) && Everyone(visited, |View()|)
      ensures Visited(old(View()), View(), visited, out, visitor)
      ensures View() == if visitor.DoReset? then Cleared(old(View())) else old(View())
    {
      hide PoolOK, TypesOK, EntryOf, SameLinks, Visited, Everyone, IsLatest, NoRepeats, Chains, IsResult, ClearedEntry,
          Bound;
      ghost var view, objs, used := View(), statobjs[..], statobjsUsed;
      visited, out := [], [];
      NoVisits(view, visitor);
      UsedFits(objs, used, freelist, bucket[..], statvals[..], statvalsUsed, hashid);
      SameTwice(objs, objs, objs);
      Hashes(objs, used, freelist, bucket[..], statvals[..], statvalsUsed, hashid, "");
      ChainStart(objs, used, 0, hashid);
      for i := 0 to bucket.Length
        invariant Valid() && SameLinks(objs, statobjs[..]) && visited == Chains(objs, used, i, hashid)
        invariant Visited(view, View(), visited, out, visitor)
      {
        var next := bucket[i];
        ghost var k := used;
        Heads(statobjs[..], used, freelist, bucket[..], statvals[..], statvalsUsed, hashid, i);
        LatestOf(objs, statobjs[..], k, i, next, hashid);
        ChainStart(objs, used, i, hashid);
        while next != INVALID_HANDLE
          invariant Valid() && SameLinks(objs, statobjs[..]) && -1 <= next < k <= used
              && IsLatest(objs, k, i, next, hashid)
          invariant visited + BucketChain(objs, k, i, hashid) == Chains(objs, used, i + 1, hashid)
          invariant Visited(view, View(), visited, out, visitor)
          decreases next + 1
        {
          ChainVisit(objs, used, i, k, next, visited, hashid);
          ghost var before, now := statobjs[..], View();
          SameSizes(objs, before, next);
          var r := VisitObj(visitor, next);
          Visit(view, now, visited, out, visitor, next, r);
          SameTwice(objs, before, statobjs[..]);
          Links(statobjs[..], used, freelist, bucket[..], statvals[..], statvalsUsed, hashid, next);
          LinksOf(objs, statobjs[..], next, i, hashid);
          visited, out := visited + [next], out + [r];
          k := next;
          next := statobjs[next].next;
        }
        ChainEnd(objs, used, i, k, visited, hashid);
      }
      ChainsAll(objs, used, bucket.Length, hashid);
      AllVisited(view, View(), visited, out, visitor);
    }

    /** `reset`. */
    method Reset()
      requires Valid()
      modifies statobjs, statvals
      ensures Valid() && View() == Cleared(old(View()))
    {
      hide PoolOK, TypesOK, EntryOf, SameLinks, Visited, Everyone, NoRepeats, Cleared;
      var visited, out := Travel(DoReset);
    }
  }
}
