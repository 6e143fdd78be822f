/**
  What a CTStat pool means: the registered objects in order of registration, and what the
  calls do to them.
 */
module PoolView {
  import opened Common
  import opened PoolLayout

  const STAT_TYPE_NUM := 6

  /** The policies of `stat_policy.h`. */
  datatype Policy = NoPolicy | PolicySum | PolicyAvg | PolicyMax | PolicyMin | PolicyCount | PolicyUpdate

  /** The policies in the order of their type bits. */
  const POLICIES: seq<Policy> := [PolicySum, PolicyAvg, PolicyMax, PolicyMin, PolicyCount, PolicyUpdate]

  lemma Pows()
    ensures Pow2(0) == 1 && Pow2(1) == 2 && Pow2(2) == 4 && Pow2(3) == 8 && Pow2(4) == 16 && Pow2(5) == 32
        && Pow2(6) == 64
  {
  }

  /** A registered object, with its own value slots. */
  datatype Entry = Entry(id: string, desc: string, typ: int, count: int, values: seq<int>)

  /** The policy a type bit is bound to. */
  function Bound(typ: int): Policy {
    if typ == 1 then PolicySum else if typ == 2 then PolicyAvg else if typ == 4 then PolicyMax
    else if typ == 8 then PolicyMin else if typ == 16 then PolicyCount else if typ == 32 then PolicyUpdate else NoPolicy
  }

  predicate IsType(typ: int) { typ in {1, 2, 4, 8, 16, 32} }

  // ---- step ----

  /** The slot `__step__` of a policy changes: the minimum ignores the index. */
  function StepSlot(p: Policy, idx: int): int { if p == PolicyMin then 0 else idx - 1 }

  /** What it puts there: sum, average and count add; a minimum of 0 counts as none. */
  function StepValue(p: Policy, held: int, val: int): int {
    match p
    case PolicyMax => if held < val then val else held
    case PolicyMin => if held > val || held == 0 then val else held
    case PolicyUpdate => val
    case _ => held + val
  }

  /** The count goes up with the last slot; at every step of a minimum, never for an update. */
  function StepCount(p: Policy, count: int, idx: int, valSize: int): int {
    if p == PolicyMin || (p != PolicyUpdate && idx == valSize) then count + 1 else count
  }

  /** `__step__` on one object.  An index outside it has no meaning: the code would write to
      another object's slots. */
  function StepEntry(e: Entry, val: int, idx: int): (r: Entry)
    ensures r.id == e.id && r.desc == e.desc && r.typ == e.typ && |r.values| == |e.values|
  {
    if !(1 <= idx <= |e.values|) then e
    else
      var p := Bound(e.typ);
      var i := StepSlot(p, idx);
      e.(values := e.values[i := StepValue(p, e.values[i], val)], count := StepCount(p, e.count, idx, |e.values|))
  }

  /** One update to every object of one id. */
  function StepId(view: seq<Entry>, id: string, val: int, idx: int): (r: seq<Entry>)
    ensures |r| == |view|
  {
    seq(|view|, h requires 0 <= h < |view| => if view[h].id == id then StepEntry(view[h], val, idx) else view[h])
  }

  function StepAll(view: seq<Entry>, ids: seq<string>, val: int, idx: int): (r: seq<Entry>)
    ensures |r| == |view|
    decreases |ids|
  {
    if ids == [] then view else StepId(StepAll(view, ids[..|ids| - 1], val, idx), ids[|ids| - 1], val, idx)
  }

  /** The same update over and over. */
  function StepTimes(e: Entry, n: nat, val: int, idx: int): Entry {
    if n == 0 then e else StepEntry(StepTimes(e, n - 1, val, idx), val, idx)
  }

  /** `step` updates each object as often as its id is listed: every object under each id,
      and no other. */
  lemma {:induction false} StepAllTimes(view: seq<Entry>, ids: seq<string>, val: int, idx: int, h: int)
    requires 0 <= h < |view|
    ensures StepAll(view, ids, val, idx)[h] == StepTimes(view[h], multiset(ids)[view[h].id], val, idx)
    ensures StepAll(view, ids, val, idx)[h].id == view[h].id
    decreases |ids|
  {
    hide StepEntry;
    if ids != [] {
      var front := ids[..|ids| - 1];
      OneMoreListed(ids, view[h].id);
      StepAllTimes(view, front, val, idx, h);
      StepTimesId(view[h], multiset(front)[view[h].id], val, idx);
    }
  }

  lemma OneMoreListed(ids: seq<string>, id: string)
    requires ids != []
    ensures multiset(ids)[id] == multiset(ids[..|ids| - 1])[id] + if ids[|ids| - 1] == id then 1 else 0
  {
    assert ids == ids[..|ids| - 1] + [ids[|ids| - 1]];
  }

  lemma {:induction false} StepTimesId(e: Entry, n: nat, val: int, idx: int)
    ensures var r := StepTimes(e, n, val, idx); r.id == e.id && r.typ == e.typ && |r.values| == |e.values|
  {
    if n > 0 { StepTimesId(e, n - 1, val, idx); }
  }

  /** The index is inside every object of these ids. */
  predicate Fits(view: seq<Entry>, ids: seq<string>, idx: int) {
    forall h :: 0 <= h < |view| && view[h].id in ids ==> 1 <= idx <= |view[h].values|
  }

  // ---- registration ----

  predicate Registered(view: seq<Entry>, id: string) { exists h :: 0 <= h < |view| && view[h].id == id }

  /** `type & policy_no_[i]`: these are the powers of two. */
  predicate HasBit(typ: int, no: int)
    requires no >= 1
  {
    typ / no % 2 == 1
  }

  lemma BitIs(typ: int, no: int)
    requires no >= 1
    ensures HasBit(typ, no) <==> typ / no % 2 == 1
  {
  }

  function NewEntry(id: string, typ: int, desc: string, valSize: nat): Entry {
    Entry(Cut(id, STAT_ID_MAX_LEN), Cut(desc, 2 * STAT_ID_MAX_LEN), typ, 0, seq(valSize, _ => 0))
  }

  lemma NewIsBlank(id: string, typ: int, desc: string, valSize: nat)
    ensures var e := NewEntry(id, typ, desc, valSize);
      && e.id == Cut(id, STAT_ID_MAX_LEN) && e.desc == Cut(desc, 128) && e.typ == typ && e.count == 0
      && |e.values| == valSize && forall i :: 0 <= i < valSize ==> e.values[i] == 0
  {
  }

  /** One object for each of the first `n` bits that the type has. */
  function NewEntries(id: string, typ: int, desc: string, valSize: nat, n: nat): (r: seq<Entry>)
    ensures |r| <= n
  {
    if n == 0 then []
    else NewEntries(id, typ, desc, valSize, n - 1) + if HasBit(typ,
        Pow2(n - 1)) then [NewEntry(id, Pow2(n - 1), desc, valSize)] else []
  }

  /** `init_statobj` where there is room. */
  function InitView(view: seq<Entry>, id: string, typ: int, desc: string, valSize: nat): seq<Entry> {
    if Registered(view, id) then view else view + NewEntries(id, typ, desc, valSize, STAT_TYPE_NUM)
  }

  /** The types an id is registered under. */
  ghost function Types(view: seq<Entry>, id: string): set<int> {
    set h | 0 <= h < |view| && view[h].id == id :: view[h].typ
  }

  /** No id has two objects of one type. */
  ghost predicate OnePerType(view: seq<Entry>) {
    forall g, h :: 0 <= g < h < |view| && view[g].id == view[h].id ==> view[g].typ != view[h].typ
  }

  /** The new objects, by type: one for each bit, in ascending order. */
  lemma {:induction false} NewEntriesAre(id: string, typ: int, desc: string, valSize: nat, n: nat)
    requires n <= STAT_TYPE_NUM
    ensures var r := NewEntries(id, typ, desc, valSize, n);
      AllNew(r, id, typ, desc, valSize, Pow2(n)) && Ascending(r)
  {
    hide HasBit, NewEntry, Pow2;
    if n > 0 {
      NewEntriesAre(id, typ, desc, valSize, n - 1);
      PowTypes(n);
      if HasBit(typ, Pow2(n - 1)) { NewIsNew(id, typ, desc, valSize, Pow2(n - 1)); }
      MoreEntries(id, typ, desc, valSize, n);
    }
  }

  lemma PowTypes(n: nat)
    requires 0 < n <= STAT_TYPE_NUM
    ensures IsType(Pow2(n - 1)) && Pow2(n) == 2 * Pow2(n - 1)
  {
    Pows();
    assert n in {1, 2, 3, 4, 5, 6};
  }

  lemma MoreEntries(id: string, typ: int, desc: string, valSize: nat, n: nat)
    requires n > 0
    ensures NewEntries(id, typ, desc, valSize, n) == NewEntries(id, typ, desc, valSize, n - 1) + if HasBit(typ,
        Pow2(n - 1)) then [NewEntry(id, Pow2(n - 1), desc, valSize)] else []
  {
    hide HasBit, NewEntry, Pow2;
  }

  predicate AllNew(r: seq<Entry>, id: string, typ: int, desc: string, valSize: nat, top: int) {
    forall h :: 0 <= h < |r| ==> IsNew(r[h], id, typ, desc, valSize) && r[h].typ < top
  }

  predicate Ascending(r: seq<Entry>) { forall g, h :: 0 <= g < h < |r| ==> r[g].typ < r[h].typ }

  predicate IsNew(e: Entry, id: string, typ: int, desc: string, valSize: nat) {
    IsType(e.typ) && HasBit(typ, e.typ) && e == NewEntry(id, e.typ, desc, valSize)
  }

  predicate HasType(r: seq<Entry>, t: int) { exists h :: 0 <= h < |r| && r[h].typ == t }

  lemma {:induction false} NewEntriesHave(id: string, typ: int, desc: string, valSize: nat, n: nat, t: int)
    requires n <= STAT_TYPE_NUM && IsType(t) && t < Pow2(n) && HasBit(typ, t)
    ensures HasType(NewEntries(id, typ, desc, valSize, n), t)
  {
    hide HasBit;
    Pows();
    assert n in {1, 2, 3, 4, 5, 6};
    var r := NewEntries(id, typ, desc, valSize, n);
    if t < Pow2(n - 1) {
      NewEntriesHave(id, typ, desc, valSize, n - 1, t);
      var q := NewEntries(id, typ, desc, valSize, n - 1);
      var h :| 0 <= h < |q| && q[h].typ == t;
      assert r[h].typ == t;
    } else {
      assert r[|r| - 1].typ == t;
    }
  }

  /** What stands where after a registration. */
  lemma InitParts(view: seq<Entry>, id: string, typ: int, desc: string, valSize: nat)
    requires !Registered(view, id)
    ensures var r, more := InitView(view, id, typ, desc, valSize), NewEntries(id, typ, desc, valSize, STAT_TYPE_NUM);
      && |r| == |view| + |more|
      && (forall h :: 0 <= h < |view| ==> r[h] == view[h])
      && (forall h :: |view| <= h < |r| ==>
            && IsType(r[h].typ) && HasBit(typ, r[h].typ) && r[h].id == Cut(id, STAT_ID_MAX_LEN)
            && r[h] == NewEntry(id, r[h].typ, desc, valSize))
      && (forall g, h :: |view| <= g < h < |r| ==> r[g].typ < r[h].typ)
  {
    hide HasBit, NewEntry, Pow2;
    NewEntriesAre(id, typ, desc, valSize, STAT_TYPE_NUM);
    var r, more := InitView(view, id, typ, desc, valSize), NewEntries(id, typ, desc, valSize, STAT_TYPE_NUM);
    forall h | |view| <= h < |r|
      ensures
        && r[h] == more[h - |view|] && IsType(r[h].typ) && HasBit(typ, r[h].typ)
        && r[h].id == Cut(id, STAT_ID_MAX_LEN) && r[h] == NewEntry(id, r[h].typ, desc, valSize)
    {
      assert more[h - |view|] == r[h];
      NewIs(more[h - |view|], id, typ, desc, valSize);
    }
  }

  /** A new id gets one object for each type bit, in ascending order, with its own zero slots
      and no count, and no other id gets or loses any. */
  lemma InitTypes(view: seq<Entry>, id: string, typ: int, desc: string, valSize: nat)
    requires !Registered(view, id)
    ensures var r, cut := InitView(view, id, typ, desc, valSize), Cut(id, STAT_ID_MAX_LEN);
      && Types(r, cut) == Types(view, cut) + (set t | t in {1, 2, 4, 8, 16, 32} && typ / t % 2 == 1)
      && (forall other :: other != cut ==> Types(r, other) == Types(view, other))
      && (forall h :: 0 <= h < |view| ==> r[h] == view[h])
      && (forall h :: |view| <= h < |r| ==>
            && r[h].id == cut && r[h].desc == Cut(desc, 128) && r[h].count == 0 && |r[h].values| == valSize
            && forall i :: 0 <= i < valSize ==> r[h].values[i] == 0)
      && (forall g, h :: |view| <= g < h < |r| ==> r[g].typ < r[h].typ)
  {
    hide HasBit, NewEntries, InitView, NewEntry, Cut, Pow2;
    InitParts(view, id, typ, desc, valSize);
    var r, cut := InitView(view, id, typ, desc, valSize), Cut(id, STAT_ID_MAX_LEN);
    forall h | |view| <= h < |r|
      ensures
        && r[h].id == cut && r[h].desc == Cut(desc, 128) && r[h].count == 0 && |r[h].values| == valSize
        && forall i :: 0 <= i < valSize ==> r[h].values[i] == 0
    {
      NewIsBlank(id, r[h].typ, desc, valSize);
    }
    forall t
      ensures t in Types(r, cut) <==> t in Types(view, cut) || (t in {1, 2, 4, 8, 16, 32} && typ / t % 2 == 1)
    {
      if IsType(t) { BitIs(typ, t); }
      if t in Types(view, cut) {
        var h :| 0 <= h < |view| && view[h].id == cut && view[h].typ == t;
        assert r[h].id == cut && r[h].typ == t;
      } else if IsType(t) && HasBit(typ, t) {
        InitHas(view, id, typ, desc, valSize, t);
      }
    }
    forall other | other != cut ensures Types(r, other) == Types(view, other) {
      forall t | t in Types(view, other) ensures t in Types(r, other) {
        var h :| 0 <= h < |view| && view[h].id == other && view[h].typ == t;
        assert r[h].id == other;
      }
    }
  }

  lemma InitHas(view: seq<Entry>, id: string, typ: int, desc: string, valSize: nat, t: int)
    requires !Registered(view, id) && IsType(t) && HasBit(typ, t)
    ensures t in Types(InitView(view, id, typ, desc, valSize), Cut(id, STAT_ID_MAX_LEN))
  {
    hide HasBit, NewEntries, NewEntry, Cut;
    Pows();
    NewEntriesHave(id, typ, desc, valSize, STAT_TYPE_NUM, t);
    NewEntriesAre(id, typ, desc, valSize, STAT_TYPE_NUM);
    var r, more := InitView(view, id, typ, desc, valSize), NewEntries(id, typ, desc, valSize, STAT_TYPE_NUM);
    var h :| 0 <= h < |more| && more[h].typ == t;
    assert IsNew(more[h], id, typ, desc, valSize) && r[|view| + h] == more[h];
    NewIs(more[h], id, typ, desc, valSize);
  }

  lemma NewIsNew(id: string, typ: int, desc: string, valSize: nat, t: int)
    requires t >= 1 && HasBit(typ, t)
    ensures NewEntry(id, t, desc, valSize).typ == t && (IsType(t)
        ==> IsNew(NewEntry(id, t, desc, valSize), id, typ, desc, valSize))
  {
    hide HasBit;
  }

  lemma NewIs(e: Entry, id: string, typ: int, desc: string, valSize: nat)
    requires IsNew(e, id, typ, desc, valSize)
    ensures IsType(e.typ) && HasBit(typ, e.typ) && e == NewEntry(id, e.typ, desc, valSize)
    ensures e.id == Cut(id, STAT_ID_MAX_LEN)
  {
  }

  lemma InitOnePerType(view: seq<Entry>, id: string, typ: int, desc: string, valSize: nat)
    requires OnePerType(view) && |id| < STAT_ID_MAX_LEN
    ensures OnePerType(InitView(view, id, typ, desc, valSize))
  {
    hide HasBit, NewEntries, NewEntry;
    if !Registered(view, id) { InitParts(view, id, typ, desc, valSize); }
  }

  // ---- objects of one id stay together ----

  /** In each bucket, the objects of one id are neighbours. */
  ghost predicate Contiguous(view: seq<Entry>, hash: string -> nat) {
    forall i, j, k :: 0 <= i < j < k < |view| && view[i].id == view[k].id && hash(view[j].id) == hash(view[i].id) ==>
        view[j].id == view[i].id
  }

  /** The newest object of the bucket that `id` falls into has that id. */
  ghost predicate NewestIs(view: seq<Entry>, id: string, hash: string -> nat) {
    forall j :: 0 <= j < |view| && hash(view[j].id) == hash(id) && view[j].id != id ==>
        exists k :: j < k < |view| && view[k].id == id
  }

  /** Objects of an id at the end, where no object has it or the newest of the bucket does. */
  lemma KeepsContiguous(view: seq<Entry>, r: seq<Entry>, cut: string, hash: string -> nat)
    requires Contiguous(view, hash) && |view| <= |r| && (!Registered(view, cut) || NewestIs(view, cut, hash))
    requires forall h :: 0 <= h < |r| ==> if h < |view| then r[h] == view[h] else r[h].id == cut
    ensures Contiguous(r, hash)
  {
    hide Registered, NewestIs;
    forall i, j, k | 0 <= i < j < k < |r| && r[i].id == r[k].id && hash(r[j].id) == hash(r[i].id)
      ensures r[j].id == r[i].id
    {
      if k >= |view| && j < |view| {
        assert r[k].id == cut && r[i] == view[i] && r[j] == view[j];
        Between(view, cut, i, j, hash);
      }
    }
  }

  lemma Between(view: seq<Entry>, cut: string, i: int, j: int, hash: string -> nat)
    requires Contiguous(view, hash) && (!Registered(view, cut) || NewestIs(view, cut, hash))
    requires 0 <= i < j < |view| && view[i].id == cut && hash(view[j].id) == hash(cut)
    ensures view[j].id == cut
  {
  }

  /** Registering `id` keeps the objects of one id together exactly if nothing is added, or
      no object has the id as stored, or the newest one of its bucket does. */
  lemma InitContiguous(view: seq<Entry>, id: string, typ: int, desc: string, valSize: nat, hash: string -> nat)
    requires Contiguous(view, hash) && !Registered(view, id)
    ensures var cut := Cut(id, STAT_ID_MAX_LEN);
      Contiguous(InitView(view, id, typ, desc, valSize), hash) <==>
        NewEntries(id, typ, desc, valSize, STAT_TYPE_NUM) == [] || !Registered(view, cut) || NewestIs(view, cut, hash)
  {
    hide HasBit, NewEntries, NewEntry, InitView, Cut;
    var r, cut := InitView(view, id, typ, desc, valSize), Cut(id, STAT_ID_MAX_LEN);
    var more := NewEntries(id, typ, desc, valSize, STAT_TYPE_NUM);
    InitParts(view, id, typ, desc, valSize);
    if more == [] {
      assert r == view;
    } else if !Registered(view, cut) || NewestIs(view, cut, hash) {
      KeepsContiguous(view, r, cut, hash);
    } else {
      var i :| 0 <= i < |view| && view[i].id == cut;
      var j :| 0 <= j < |view| && hash(view[j].id) == hash(cut) && view[j].id != cut
          && !exists k :: j < k < |view| && view[k].id == cut;
      assert i < j;
      assert r[i].id == cut && r[|view|].id == cut && r[j].id != cut;
    }
  }

  /** An id that fits its field keeps them together; the others need not. */
  lemma ShortContiguous(view: seq<Entry>, id: string, typ: int, desc: string, valSize: nat, hash: string -> nat)
    requires Contiguous(view, hash) && |id| < STAT_ID_MAX_LEN
    ensures Contiguous(InitView(view, id, typ, desc, valSize), hash)
  {
    if !Registered(view, id) { InitContiguous(view, id, typ, desc, valSize, hash); }
  }

  /** No object ever carries an id too long for its field: such an id is never found, and
      registering it again is not refused. */
  lemma LongNeverFound(view: seq<Entry>, id: string)
    requires |id| >= STAT_ID_MAX_LEN && forall h :: 0 <= h < |view| ==> |view[h].id| < STAT_ID_MAX_LEN
    ensures !Registered(view, id)
  {
  }
}
