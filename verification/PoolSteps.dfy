/**
  Which objects `step` reaches, and what runs of calls amount to.
 */
module PoolSteps {
  import opened Common
  import opened PoolLayout
  import opened PoolView

  /** Between object `h` and the newest one of its id, its bucket has no other id. */
  ghost predicate Reached(view: seq<Entry>, h: int, hash: string -> nat)
    requires 0 <= h < |view|
  {
    forall j, k :: h < j < k < |view| && view[k].id == view[h].id && hash(view[j].id) == hash(view[h].id) ==>
        view[j].id == view[h].id
  }

  /** `step` for one id: it stops at the first object of another id. */
  ghost function RunId(view: seq<Entry>, id: string, val: int, idx: int, hash: string -> nat): (r: seq<Entry>)
    ensures |r| == |view|
  {
    seq(|view|, h requires 0 <= h < |view| => if view[h].id == id
        && Reached(view, h, hash) then StepEntry(view[h], val, idx) else view[h])
  }

  ghost function RunAll(view: seq<Entry>, ids: seq<string>, val: int, idx: int, hash: string -> nat): (r: seq<Entry>)
    ensures |r| == |view|
    decreases |ids|
  {
    if ids == [] then view else RunId(RunAll(view, ids[..|ids| - 1], val, idx, hash), ids[|ids| - 1], val, idx, hash)
  }

  /** `step` reaches every object exactly where the objects of one id are neighbours. */
  lemma ReachedAll(view: seq<Entry>, hash: string -> nat)
    ensures Contiguous(view, hash) <==> forall h :: 0 <= h < |view| ==> Reached(view, h, hash)
  {
    if forall h :: 0 <= h < |view| ==> Reached(view, h, hash) {
      forall i, j, k | 0 <= i < j < k < |view| && view[i].id == view[k].id
          && hash(view[j].id) == hash(view[i].id) ensures view[j].id == view[i].id {
        assert Reached(view, i, hash);
      }
    }
  }

  /** Counts and values do not matter for that. */
  lemma SameIds(view: seq<Entry>, other: seq<Entry>, hash: string -> nat)
    requires |view| == |other| && forall h :: 0 <= h < |view| ==> view[h].id == other[h].id
    ensures Contiguous(view, hash) <==> Contiguous(other, hash)
    ensures forall h :: 0 <= h < |view| ==> (Reached(view, h, hash) <==> Reached(other, h, hash))
  {
  }

  /** So there `step` does all that is asked of it. */
  lemma {:induction false} RunIsAll(view: seq<Entry>, ids: seq<string>, val: int, idx: int, hash: string -> nat)
    requires Contiguous(view, hash)
    ensures RunAll(view, ids, val, idx, hash) == StepAll(view, ids, val, idx)
    ensures forall h :: 0 <= h < |view| ==> StepAll(view, ids, val, idx)[h].id == view[h].id
    decreases |ids|
  {
    if ids != [] {
      var before := StepAll(view, ids[..|ids| - 1], val, idx);
      RunIsAll(view, ids[..|ids| - 1], val, idx, hash);
      SameIds(view, before, hash);
      ReachedAll(before, hash);
    }
  }

  /** And where they are not, some object of a listed id gets no update. */
  lemma RunMisses(view: seq<Entry>, val: int, idx: int, hash: string -> nat)
    requires !Contiguous(view, hash)
    ensures exists h :: 0 <= h < |view| && RunAll(view, [view[h].id], val, idx, hash)[h] == view[h]
  {
    ReachedAll(view, hash);
    var h :| 0 <= h < |view| && !Reached(view, h, hash);
    var id := view[h].id;
    assert [id][..0] == [];
    assert RunAll(view, [], val, idx, hash) == view;
    assert RunAll(view, [id], val, idx, hash) == RunId(view, id, val, idx, hash);
  }

  /** Some value changes an object that is stepped with it. */
  lemma Changes(e: Entry) returns (val: int)
    requires IsType(e.typ) && |e.values| >= 1
    ensures StepEntry(e, val, 1) != e
  {
    var held := e.values[0];
    val := if e.typ == 8 then (if held == 0 then 1 else held - 1) else held + 1;
    if e.typ != 4 && e.typ != 8 && e.typ != 32 && held + val == held { val := 1; }
    assert StepEntry(e, val, 1).values[0] != held;
  }

  /** Where objects have types and slots, `step` does for every id all that is asked of it
      exactly if objects of one id are neighbours in their bucket. */
  lemma StepComplete(view: seq<Entry>, hash: string -> nat)
    requires forall h :: 0 <= h < |view| ==> IsType(view[h].typ) && |view[h].values| >= 1
    ensures Contiguous(view, hash) <==>
      forall id, val, idx :: RunId(view, id, val, idx, hash) == StepId(view, id, val, idx)
  {
    hide StepEntry;
    ReachedAll(view, hash);
    if !Contiguous(view, hash) {
      var h :| 0 <= h < |view| && !Reached(view, h, hash);
      var val := Changes(view[h]);
      assert RunId(view, view[h].id, val, 1, hash)[h] == view[h];
      assert StepId(view, view[h].id, val, 1)[h] == StepEntry(view[h], val, 1);
    }
  }

  // ---- the loop of `step` for one id ----

  /** The objects of the id above `choice` are updated, the others are not. */
  ghost predicate Progress(view: seq<Entry>, now: seq<Entry>, id: string, val: int, idx: int, choice: int) {
    |now| == |view| && forall h :: 0 <= h < |view| ==>
        now[h] == if h > choice && view[h].id == id then StepEntry(view[h], val, idx) else view[h]
  }

  /** From the newest object of the id down to `choice`, its bucket has no other id. */
  ghost predicate OnlyId(view: seq<Entry>, top: int, choice: int, id: string, hash: string -> nat) {
    && -1 <= choice <= top < |view| && 0 <= top && view[top].id == id
    && (choice >= 0 ==> hash(view[choice].id) == hash(id))
    && (forall h :: top < h < |view| ==> view[h].id != id)
    && forall j :: choice < j <= top && hash(view[j].id) == hash(id) ==> view[j].id == id
  }

  /** The loop ends where the chain does or at the first other id. */
  lemma RunEnds(view: seq<Entry>, now: seq<Entry>, id: string, val: int, idx: int, top: int, choice: int,
      hash: string -> nat)
    requires Progress(view, now, id, val, idx, choice) && OnlyId(view, top, choice, id, hash)
    requires choice >= 0 ==> view[choice].id != id
    ensures now == RunId(view, id, val, idx, hash)
  {
    hide StepEntry;
    forall h | 0 <= h < |view| && view[h].id == id ensures Reached(view, h, hash) <==> h > choice {
      if h < choice { assert view[choice].id != id && view[top].id == id; }
    }
  }

  lemma RunNone(view: seq<Entry>, id: string, val: int, idx: int, hash: string -> nat)
    requires forall h :: 0 <= h < |view| ==> view[h].id != id
    ensures RunId(view, id, val, idx, hash) == view
  {
  }

  lemma RunTurn(view: seq<Entry>, now: seq<Entry>, id: string, val: int, idx: int, choice: int, next: int)
    requires Progress(view, now, id, val, idx, choice) && -1 <= next < choice < |view| && view[choice].id == id
    requires forall h :: next < h < choice ==> view[h].id != id
    ensures Progress(view, now[choice := StepEntry(now[choice], val, idx)], id, val, idx, next)
  {
    hide StepEntry;
  }

  lemma RunStarts(view: seq<Entry>, id: string, val: int, idx: int, top: int, hash: string -> nat)
    requires 0 <= top < |view| && view[top].id == id && forall h :: top < h < |view| ==> view[h].id != id
    ensures Progress(view, view, id, val, idx, top) && OnlyId(view, top, top, id, hash)
  {
  }

  /** The next object of the chain. */
  lemma RunNext(view: seq<Entry>, now: seq<Entry>, objs: seq<TStatObj>, id: string, val: int, idx: int, top: int,
      choice: int, next: int, hash: string -> nat)
    requires Progress(view, now, id, val, idx, choice) && OnlyId(view, top, choice, id, hash) && 0 <= choice
        && view[choice].id == id
    requires |now| <= |objs| && (forall h :: 0 <= h < |now| ==> now[h].id == objs[h].id)
        && IsLatest(objs, choice, hash(objs[choice].id), next, hash)
    ensures OnlyId(view, top, next, id, hash) && forall h :: next < h < choice ==> view[h].id != id
  {
    hide StepEntry;
    forall h | next < h < choice ensures view[h].id != id && hash(view[h].id) != hash(id) {
      assert now[h].id == objs[h].id && hash(objs[h].id) != hash(objs[choice].id);
      assert now[h].id == view[h].id && now[choice].id == view[choice].id;
    }
    if next >= 0 { assert now[next].id == objs[next].id && now[next].id == view[next].id; }
  }

  /** Indexes that fit go on to fit. */
  lemma {:induction false} RunFits(view: seq<Entry>, ids: seq<string>, val: int, idx: int, hash: string -> nat)
    ensures var r := RunAll(view, ids, val, idx, hash); forall h :: 0 <= h < |view| ==>
        r[h].id == view[h].id && |r[h].values| == |view[h].values|
    decreases |ids|
  {
    if ids != [] { RunFits(view, ids[..|ids| - 1], val, idx, hash); }
  }

  // ---- results ----

  /** `__result__`: an average divides by its count, and has no values before its first step. */
  predicate IsResult(e: Entry, r: (int, seq<int>)) {
    && (e.typ != 2 ==> r == (e.count, e.values))
    && (e.typ == 2 && e.count <= 0 ==> r == (0, []))
    && (e.typ == 2 && e.count > 0 ==>
          && r.0 == e.count && |r.1| == |e.values|
          && forall i :: 0 <= i < |r.1| ==> Truncated(e.values[i], e.count, r.1[i]))
  }

  // ---- runs ----

  datatype Call = Init(id: string, typ: int, desc: string, valSize: nat) | Step(ids: seq<string>, val: int,
      idx: int) | Reset

  /** All counts and values zero. */
  function Cleared(view: seq<Entry>): (r: seq<Entry>)
    ensures |r| == |view|
  {
    seq(|view|, h requires 0 <= h < |view| => ClearedEntry(view[h]))
  }

  function ClearedEntry(e: Entry): Entry { e.(count := 0, values := seq(|e.values|, _ => 0)) }

  function Perform(view: seq<Entry>, c: Call): seq<Entry> {
    match c
    case Init(id, typ, desc, valSize) => InitView(view, id, typ, desc, valSize)
    case Step(ids, val, idx) => StepAll(view, ids, val, idx)
    case Reset => Cleared(view)
  }

  function PerformAll(view: seq<Entry>, calls: seq<Call>): seq<Entry>
    decreases |calls|
  {
    if calls == [] then view else Perform(PerformAll(view, calls[..|calls| - 1]), calls[|calls| - 1])
  }

  /** What the calls do, whatever the ids: a step reaches what it reaches. */
  ghost function Run(view: seq<Entry>, c: Call, hash: string -> nat): seq<Entry> {
    match c
    case Init(id, typ, desc, valSize) => InitView(view, id, typ, desc, valSize)
    case Step(ids, val, idx) => RunAll(view, ids, val, idx, hash)
    case Reset => Cleared(view)
  }

  ghost function RunCalls(view: seq<Entry>, calls: seq<Call>, hash: string -> nat): seq<Entry>
    decreases |calls|
  {
    if calls == [] then view else Run(RunCalls(view, calls[..|calls| - 1], hash), calls[|calls| - 1], hash)
  }

  /** Ids that fit their field. */
  predicate Short(calls: seq<Call>) {
    forall i :: 0 <= i < |calls| && calls[i].Init? ==> |calls[i].id| < STAT_ID_MAX_LEN
  }

  /** Every run of such calls keeps the objects of one id together, and one per type. */
  lemma {:induction false} RunKeeps(calls: seq<Call>, hash: string -> nat)
    requires Short(calls)
    ensures Contiguous(PerformAll([], calls), hash) && OnePerType(PerformAll([], calls))
    decreases |calls|
  {
    if calls != [] {
      RunKeeps(calls[..|calls| - 1], hash);
      CallKeeps(PerformAll([], calls[..|calls| - 1]), calls[|calls| - 1], hash);
    }
  }

  /** And there a run does all that is asked of it. */
  lemma {:induction false} RunShort(calls: seq<Call>, hash: string -> nat)
    requires Short(calls)
    ensures RunCalls([], calls, hash) == PerformAll([], calls)
    decreases |calls|
  {
    hide Run, Perform;
    if calls != [] {
      var front, c := calls[..|calls| - 1], calls[|calls| - 1];
      RunShort(front, hash);
      RunKeeps(front, hash);
      OneShort(PerformAll([], front), c, hash);
    }
  }

  lemma OneShort(view: seq<Entry>, c: Call, hash: string -> nat)
    requires Contiguous(view, hash)
    ensures Run(view, c, hash) == Perform(view, c)
  {
    hide Contiguous, RunAll, StepAll, InitView;
    if c.Step? { RunIsAll(view, c.ids, c.val, c.idx, hash); }
  }

  lemma CallKeeps(view: seq<Entry>, c: Call, hash: string -> nat)
    requires Contiguous(view, hash) && OnePerType(view) && (c.Init? ==> |c.id| < STAT_ID_MAX_LEN)
    ensures Contiguous(Perform(view, c), hash) && OnePerType(Perform(view, c))
  {
    hide Contiguous, OnePerType, InitView, StepAll, StepEntry;
    match c
    case Init(id, typ, desc, valSize) =>
      ShortContiguous(view, id, typ, desc, valSize, hash);
      InitOnePerType(view, id, typ, desc, valSize);
    case Step(ids, val, idx) =>
      StepNames(view, ids, val, idx);
      SameNames(view, Perform(view, c), hash);
    case Reset =>
      SameNames(view, Perform(view, c), hash);
  }

  lemma {:induction false} StepNames(view: seq<Entry>, ids: seq<string>, val: int, idx: int)
    ensures forall h :: 0 <= h < |view| ==>
        StepAll(view, ids, val, idx)[h].id == view[h].id && StepAll(view, ids, val, idx)[h].typ == view[h].typ
    decreases |ids|
  {
    if ids != [] { StepNames(view, ids[..|ids| - 1], val, idx); }
  }

  lemma SameNames(view: seq<Entry>, other: seq<Entry>, hash: string -> nat)
    requires |view| == |other| && forall h :: 0 <= h < |view| ==>
        view[h].id == other[h].id && view[h].typ == other[h].typ
    ensures Contiguous(view, hash) ==> Contiguous(other, hash)
    ensures OnePerType(view) ==> OnePerType(other)
  {
  }

  // ---- what an object holds after a run ----

  /** What was stepped under an id since the last reset, in order, value and index; an id
      listed twice in one call is told twice. */
  function Told(calls: seq<Call>, id: string): seq<(int, int)>
    decreases |calls|
  {
    if calls == [] then []
    else
      var before := Told(calls[..|calls| - 1], id);
      match calls[|calls| - 1]
      case Init(_, _, _, _) => before
      case Step(ids, val, idx) => before + Copies((val, idx), multiset(ids)[id])
      case Reset => []
  }

  function Copies(x: (int, int), n: nat): (r: seq<(int, int)>)
    ensures |r| == n
  {
    if n == 0 then [] else Copies(x, n - 1) + [x]
  }

  /** Updates of an object, one after the other. */
  function Feed(e: Entry, told: seq<(int, int)>): Entry
    decreases |told|
  {
    if told == [] then e
    else
      var (val, idx) := told[|told| - 1];
      StepEntry(Feed(e, told[..|told| - 1]), val, idx)
  }

  /** The values that go to slot `i` of an object of `n` slots. */
  function ToSlot(told: seq<(int, int)>, p: Policy, n: int, i: int): seq<int>
    decreases |told|
  {
    if told == [] then []
    else
      var (val, idx) := told[|told| - 1];
      ToSlot(told[..|told| - 1], p, n, i) + if 1 <= idx <= n && StepSlot(p, idx) == i then [val] else []
  }

  /** How often it is counted. */
  function Counted(told: seq<(int, int)>, p: Policy, n: int): int
    decreases |told|
  {
    if told == [] then 0
    else
      var (val, idx) := told[|told| - 1];
      Counted(told[..|told| - 1], p, n) + if 1 <= idx <= n then StepCount(p, 0, idx, n) else 0
  }

  /** What a slot holds after these values, from 0. */
  function Held(p: Policy, vals: seq<int>): int
    decreases |vals|
  {
    if vals == [] then 0 else StepValue(p, Held(p, vals[..|vals| - 1]), vals[|vals| - 1])
  }

  /** Each slot holds what went to it, and the count is how often it was counted. */
  lemma {:induction false} FeedSlots(e: Entry, told: seq<(int, int)>)
    requires e == ClearedEntry(e)
    ensures var r, p, n := Feed(e, told), Bound(e.typ), |e.values|;
      && |r.values| == n && r.typ == e.typ && r.id == e.id && r.desc == e.desc && r.count == Counted(told, p, n)
      && forall i :: 0 <= i < n ==> r.values[i] == Held(p, ToSlot(told, p, n, i))
    decreases |told|
  {
    hide StepValue, Bound;
    if told != [] {
      var front := told[..|told| - 1];
      FeedSlots(e, front);
      SlotTurn(Feed(e, front), told, e);
    }
  }

  lemma SlotTurn(before: Entry, told: seq<(int, int)>, e: Entry)
    requires told != [] && before.typ == e.typ && |before.values| == |e.values|
    requires var p, n, front := Bound(e.typ), |e.values|, told[..|told| - 1];
      before.count == Counted(front, p, n)
      && forall i :: 0 <= i < n ==> before.values[i] == Held(p, ToSlot(front, p, n, i))
    ensures var p, n := Bound(e.typ), |e.values|;
      var r := StepEntry(before, told[|told| - 1].0, told[|told| - 1].1);
      && r.count == Counted(told, p, n)
      && forall i :: 0 <= i < n ==> r.values[i] == Held(p, ToSlot(told, p, n, i))
  {
    hide StepValue, Bound, Counted;
    var p, n, front := Bound(e.typ), |e.values|, told[..|told| - 1];
    var (val, idx) := told[|told| - 1];
    CountTurn(told, p, n);
    forall i | 0 <= i < n ensures StepEntry(before, val, idx).values[i] == Held(p, ToSlot(told, p, n, i)) {
      var vals := ToSlot(front, p, n, i);
      HeldMore(p, vals, val);
      assert ToSlot(told, p, n, i) == vals + if 1 <= idx <= n && StepSlot(p, idx) == i then [val] else [];
      assert vals + [] == vals;
    }
  }

  lemma HeldMore(p: Policy, vals: seq<int>, val: int)
    ensures Held(p, vals + [val]) == StepValue(p, Held(p, vals), val)
  {
    assert (vals + [val])[..|vals|] == vals;
  }

  lemma CountTurn(told: seq<(int, int)>, p: Policy, n: int)
    requires told != []
    ensures var (val, idx) := told[|told| - 1];
      var before := Counted(told[..|told| - 1], p, n);
      Counted(told, p, n) == if 1 <= idx <= n then StepCount(p, before, idx, n) else before
  {
  }

  lemma {:induction false} RunFeeds(view: seq<Entry>, calls: seq<Call>, h: int)
    requires 0 <= h < |view| && view[h] == ClearedEntry(view[h])
    ensures var r := PerformAll(view, calls);
      |r| >= |view| && r[h] == Feed(view[h], Told(calls, view[h].id))
    decreases |calls|
  {
    hide StepEntry;
    if calls != [] {
      var before, id := calls[..|calls| - 1], view[h].id;
      RunFeeds(view, before, h);
      FeedNames(view[h], Told(before, id));
      match calls[|calls| - 1]
      case Init(_, _, _, _) =>
      case Step(ids, val, idx) =>
        StepAllTimes(PerformAll(view, before), ids, val, idx, h);
        FeedCopies(view[h], Told(before, id), val, multiset(ids)[id], idx);
      case Reset =>
        assert PerformAll(view, calls)[h] == ClearedEntry(PerformAll(view, before)[h]);
    }
  }

  lemma {:induction false} FeedNames(e: Entry, told: seq<(int, int)>)
    ensures var r := Feed(e, told); r.id == e.id && r.desc == e.desc && r.typ == e.typ && |r.values| == |e.values|
    decreases |told|
  {
    if told != [] { FeedNames(e, told[..|told| - 1]); }
  }

  lemma {:induction false} FeedCopies(e: Entry, told: seq<(int, int)>, val: int, n: nat, idx: int)
    ensures Feed(e, told + Copies((val, idx), n)) == StepTimes(Feed(e, told), n, val, idx)
  {
    hide StepEntry;
    if n == 0 {
      assert told + [] == told;
    } else {
      FeedCopies(e, told, val, n - 1, idx);
      var all := told + Copies((val, idx), n);
      assert all[..|all| - 1] == told + Copies((val, idx), n - 1);
    }
  }

  // ---- what a slot holds ----

  function Sum(vals: seq<int>): int
    decreases |vals|
  {
    if vals == [] then 0 else Sum(vals[..|vals| - 1]) + vals[|vals| - 1]
  }

  /** The greatest and the least of some values. */
  predicate IsMax(vals: seq<int>, m: int) { m in vals && forall v :: v in vals ==> v <= m }

  predicate IsMin(vals: seq<int>, m: int) { m in vals && forall v :: v in vals ==> m <= v }

  /** Sums, averages and counts add up. */
  lemma {:induction false} HeldSum(p: Policy, vals: seq<int>)
    requires p == PolicySum || p == PolicyAvg || p == PolicyCount
    ensures Held(p, vals) == Sum(vals)
    decreases |vals|
  {
    if vals != [] { HeldSum(p, vals[..|vals| - 1]); }
  }

  /** An update slot holds the last value, and an update is never counted. */
  lemma {:induction false} HeldUpdate(vals: seq<int>, told: seq<(int, int)>, n: int)
    ensures Held(PolicyUpdate, vals) == if vals == [] then 0 else vals[|vals| - 1]
    ensures Counted(told, PolicyUpdate, n) == 0
    decreases |told|
  {
    if told != [] { HeldUpdate(vals, told[..|told| - 1], n); }
  }

  /** A maximum starts from 0: it is right exactly if it is not negative. */
  lemma {:induction false} HeldMax(vals: seq<int>, m: int)
    requires IsMax(vals, m)
    ensures Held(PolicyMax, vals) == if m >= 0 then m else 0
    ensures Held(PolicyMax, vals) == m <==> m >= 0
    decreases |vals|
  {
    var front, v := vals[..|vals| - 1], vals[|vals| - 1];
    assert vals == front + [v];
    if front != [] {
      var k := MaxOf(front);
      HeldMax(front, k);
      assert k in vals && v in vals && m == if k > v then k else v;
    }
  }

  lemma {:induction false} MaxOf(vals: seq<int>) returns (m: int)
    requires vals != []
    ensures IsMax(vals, m)
  {
    var front, v := vals[..|vals| - 1], vals[|vals| - 1];
    assert vals == front + [v];
    m := v;
    if front != [] {
      var k := MaxOf(front);
      m := if k > v then k else v;
    }
  }

  lemma {:induction false} MinOf(vals: seq<int>) returns (m: int)
    requires vals != []
    ensures IsMin(vals, m)
  {
    var front, v := vals[..|vals| - 1], vals[|vals| - 1];
    assert vals == front + [v];
    m := v;
    if front != [] {
      var k := MinOf(front);
      m := if k < v then k else v;
    }
  }

  /** A minimum takes 0 for `no value yet`: a 0 that is least is forgotten by the next value.
      So it is right exactly if it is not 0, or 0 came last. */
  lemma {:induction false} HeldMin(vals: seq<int>, m: int)
    requires IsMin(vals, m)
    ensures Held(PolicyMin, vals) == m <==> m != 0 || vals[|vals| - 1] == 0
    ensures m == 0 && vals[|vals| - 1] != 0 ==> Held(PolicyMin, vals) > 0
    decreases |vals|
  {
    var front, v := vals[..|vals| - 1], vals[|vals| - 1];
    assert vals == front + [v];
    if front != [] {
      var k := MinOf(front);
      HeldMin(front, k);
      assert k in vals && v in vals && m == if k < v then k else v;
    }
  }

  // ---- what runs leave, in terms of what was told ----

  /** The values told with an index from `lo` to `hi`, in order. */
  function Chosen(told: seq<(int, int)>, lo: int, hi: int): seq<int>
    decreases |told|
  {
    if told == [] then []
    else
      var (val, idx) := told[|told| - 1];
      Chosen(told[..|told| - 1], lo, hi) + if lo <= idx <= hi then [val] else []
  }

  /** Where every step has the index 1, as for objects with one slot, all values are chosen. */
  lemma {:induction false} ChosenAll(told: seq<(int, int)>)
    requires forall i :: 0 <= i < |told| ==> told[i].1 == 1
    ensures |Chosen(told, 1, 1)| == |told| && forall i :: 0 <= i < |told| ==> Chosen(told, 1, 1)[i] == told[i].0
    decreases |told|
  {
    if told != [] { ChosenAll(told[..|told| - 1]); }
  }

  /** Slot `i` gets what is told with index `i + 1`; the first slot of a minimum gets every
      value whose index is inside the object, and its other slots none. */
  lemma {:induction false} SlotGets(told: seq<(int, int)>, p: Policy, n: int, i: int)
    requires 0 <= i < n
    ensures p != PolicyMin ==> ToSlot(told, p, n, i) == Chosen(told, i + 1, i + 1)
    ensures p == PolicyMin ==> ToSlot(told, p, n, i) == if i == 0 then Chosen(told, 1, n) else []
    decreases |told|
  {
    if told != [] { SlotGets(told[..|told| - 1], p, n, i); }
  }

  /** Counted is what is told with the last index; for a minimum whatever has an index inside
      the object; for an update nothing. */
  lemma {:induction false} CountGets(told: seq<(int, int)>, p: Policy, n: int)
    requires n >= 1
    ensures p == PolicyMin ==> Counted(told, p, n) == |Chosen(told, 1, n)|
    ensures p == PolicyUpdate ==> Counted(told, p, n) == 0
    ensures p != PolicyMin && p != PolicyUpdate ==> Counted(told, p, n) == |Chosen(told, n, n)|
    decreases |told|
  {
    if told != [] { CountGets(told[..|told| - 1], p, n); }
  }

  /** What a slot of this type holds after these values: a sum, the greatest value, the least
      one, or the last, from 0. */
  ghost predicate Holds(typ: int, vals: seq<int>, v: int) {
    && (vals == [] ==> v == 0)
    && (typ in {1, 2, 16} ==> v == Sum(vals))
    && (typ == 4 ==> forall m :: IsMax(vals, m) ==> v == if m >= 0 then m else 0)
    && (typ == 8 ==> forall m :: IsMin(vals, m) ==> (v == m <==> m != 0 || vals[|vals| - 1] == 0))
    && (typ == 32 && vals != [] ==> v == vals[|vals| - 1])
  }

  lemma HeldHolds(typ: int, vals: seq<int>)
    ensures Holds(typ, vals, Held(Bound(typ), vals))
  {
    hide Held;
    HeldNone(Bound(typ));
    if typ in {1, 2, 16} { HeldSum(Bound(typ), vals); }
    if typ == 4 {
      forall m | IsMax(vals, m) ensures Held(PolicyMax, vals) == if m >= 0 then m else 0 { HeldMax(vals, m); }
    }
    if typ == 8 {
      forall m | IsMin(vals, m) ensures Held(PolicyMin, vals) == m <==> m != 0 || vals[|vals| - 1] == 0 {
        HeldMin(vals, m);
      }
    }
    if typ == 32 { HeldUpdate(vals, [], 1); }
  }

  lemma HeldNone(p: Policy)
    ensures Held(p, []) == 0
  {
  }

  /** Over every run, each slot of an object holds what its own id was told under the index of
      that slot since the last reset; the first slot of a minimum holds whatever it was told.
      The count is the number of values told with the last index; a minimum counts all of them,
      an update none. */
  lemma RunHolds(view: seq<Entry>, calls: seq<Call>, h: int)
    requires 0 <= h < |view| && |view[h].values| >= 1
    requires view[h].count == 0 && forall i :: 0 <= i < |view[h].values| ==> view[h].values[i] == 0
    ensures |PerformAll(view, calls)| >= |view|
    ensures var r, told, typ, n := PerformAll(view, calls)[h], Told(calls, view[h].id), view[h].typ, |view[h].values|;
      && r.id == view[h].id && r.desc == view[h].desc && r.typ == typ && |r.values| == n
      && r.count == (if typ == 8 then |Chosen(told, 1, n)| else if typ == 32 then 0 else |Chosen(told, n, n)|)
      && (typ != 8 ==> forall i :: 0 <= i < n ==> Holds(typ, Chosen(told, i + 1, i + 1), r.values[i]))
      && (typ == 8 ==> Holds(typ, Chosen(told, 1, n), r.values[0]) && forall i :: 1 <= i < n ==> r.values[i] == 0)
  {
    hide Chosen, Holds, Counted, ToSlot, Held, Feed, PerformAll, Told;
    assert view[h] == ClearedEntry(view[h]);
    RunFeeds(view, calls, h);
    var r, told, typ, n := PerformAll(view, calls)[h], Told(calls, view[h].id), view[h].typ, |view[h].values|;
    var p := Bound(typ);
    FeedSlots(view[h], told);
    CountGets(told, p, n);
    HeldNone(p);
    forall i | 0 <= i < n
      ensures typ != 8 ==> Holds(typ, Chosen(told, i + 1, i + 1), r.values[i])
      ensures typ == 8 ==> if i == 0 then Holds(typ, Chosen(told, 1, n), r.values[i]) else r.values[i] == 0
    {
      SlotGets(told, p, n, i);
      HeldHolds(typ, ToSlot(told, p, n, i));
    }
  }

  /** A run goes on from what its first part left: what is said of a run holds from the
      registration of an object on. */
  lemma {:induction false} RunInParts(view: seq<Entry>, front: seq<Call>, rest: seq<Call>)
    ensures PerformAll(view, front + rest) == PerformAll(PerformAll(view, front), rest)
    decreases |rest|
  {
    hide Perform;
    if rest == [] {
      assert front + rest == front;
    } else {
      var calls := front + rest;
      assert calls[..|calls| - 1] == front + rest[..|rest| - 1] && calls[|calls| - 1] == rest[|rest| - 1];
      RunInParts(view, front, rest[..|rest| - 1]);
    }
  }

  /** The result an average gives after a run: for each slot what was told under its index,
      divided by how often the last index was told; for one slot, the sum of what was told by
      how many were told. */
  lemma RunAverage(view: seq<Entry>, calls: seq<Call>, h: int, r: (int, seq<int>))
    requires 0 <= h < |view| && |view[h].values| >= 1 && view[h].typ == 2
    requires view[h].count == 0 && forall i :: 0 <= i < |view[h].values| ==> view[h].values[i] == 0
    requires h < |PerformAll(view, calls)| && IsResult(PerformAll(view, calls)[h], r)
    ensures var told, n := Told(calls, view[h].id), |view[h].values|;
      var count := |Chosen(told, n, n)|;
      if count == 0 then r == (0, [])
      else
        && r.0 == count && |r.1| == n
        && forall i :: 0 <= i < n ==>
            var sum, q := Sum(Chosen(told, i + 1, i + 1)), r.1[i];
            && (sum >= 0 ==> q * count <= sum < (q + 1) * count)
            && (sum <= 0 ==> (q - 1) * count < sum <= q * count)
  {
    hide Chosen, PerformAll, Told, Truncated, Sum;
    RunHolds(view, calls, h);
    var e, told, n := PerformAll(view, calls)[h], Told(calls, view[h].id), |view[h].values|;
    var count := |Chosen(told, n, n)|;
    if count > 0 {
      forall i | 0 <= i < n
        ensures var sum, q := Sum(Chosen(told, i + 1, i + 1)), r.1[i];
          && (sum >= 0 ==> q * count <= sum < (q + 1) * count)
          && (sum <= 0 ==> (q - 1) * count < sum <= q * count)
      {
        assert Holds(2, Chosen(told, i + 1, i + 1), e.values[i]);
        TruncatedIs(e.values[i], count, r.1[i]);
      }
    }
  }

  lemma TruncatedIs(a: int, n: int, q: int)
    requires Truncated(a, n, q)
    ensures (a >= 0 ==> q * n <= a < (q + 1) * n) && (a <= 0 ==> (q - 1) * n < a <= q * n)
  {
  }

}
