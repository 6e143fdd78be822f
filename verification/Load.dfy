/**
  CLoad: load counted in two grids, one filling while the other is read.
 */
module Load {
  import opened Common
  import opened Windows

  const DEFAULT_MAX_LOAD := 65536

  class CLoad {
    var maxload: int
    var curtime: int
    var direct: bool
    var curloadgrid: array<int>
    const loadgrid: array<int>
    const loadgrid2: array<int>
    /** All calls so far. */
    ghost var log: seq<Event>

    /** The cells of a grid hold the growth of a window. */
    ghost predicate Holds(grid: array<int>, window: seq<Event>)
      reads grid
    {
      grid.Length == LOADGRID_NUM && grid[0] == GrownCell(window, 0) && grid[1] == GrownCell(window, 1)
    }

    /** The current grid holds the open window, the other one the window before. */
    ghost predicate Valid()
      reads this, loadgrid, loadgrid2
    {
      && loadgrid != loadgrid2 && InSecond(log) && curtime == TurnTime(log) && maxload > 0
      && curloadgrid == (if direct then loadgrid else loadgrid2)
      && Holds(if direct then loadgrid else loadgrid2, Open(log))
      && Holds(if direct then loadgrid2 else loadgrid, Closed(log))
    }

    constructor (maxload: int)
      ensures Valid() && log == [] && fresh(loadgrid) && fresh(loadgrid2)
      ensures this.maxload == if maxload > 0 then maxload else DEFAULT_MAX_LOAD
    {
      curtime := 0;
      this.maxload := if maxload > 0 then maxload else DEFAULT_MAX_LOAD;
      loadgrid := new int[LOADGRID_NUM];
      loadgrid2 := new int[LOADGRID_NUM];
      curloadgrid := loadgrid;
      log := [];
      new;
      Clear();
    }

    /** `reset`. */
    method Clear()
      requires loadgrid != loadgrid2 && loadgrid.Length == LOADGRID_NUM && loadgrid2.Length == LOADGRID_NUM
      modifies this`direct, this`curloadgrid, loadgrid, loadgrid2
      ensures direct && curloadgrid == loadgrid
      ensures loadgrid[0] == 0 && loadgrid[1] == 0 && loadgrid2[0] == 0 && loadgrid2[1] == 0
    {
      for i := 0 to LOADGRID_NUM
        invariant forall j :: 0 <= j < i ==> loadgrid[j] == 0 && loadgrid2[j] == 0
      {
        loadgrid[i] := 0;
        loadgrid2[i] := 0;
      }
      direct := true;
      curloadgrid := loadgrid;
    }

    /** `trans`: the grids change roles, and the new current one starts from 0. */
    method Trans()
      requires loadgrid != loadgrid2 && loadgrid.Length == LOADGRID_NUM && loadgrid2.Length == LOADGRID_NUM
      modifies this`direct, this`curloadgrid, loadgrid, loadgrid2
      ensures direct == !old(direct) && curloadgrid == if direct then loadgrid else loadgrid2
      ensures curloadgrid[..] == [0, 0]
      ensures direct ==> loadgrid2[..] == old(loadgrid2[..])
      ensures !direct ==> loadgrid[..] == old(loadgrid[..])
    {
      if direct {
        direct := false;
        curloadgrid := loadgrid2;
      } else {
        direct := true;
        curloadgrid := loadgrid;
      }
      for i := 0 to LOADGRID_NUM
        invariant direct == !old(direct) && curloadgrid == if direct then loadgrid else loadgrid2
        invariant forall j :: 0 <= j < i ==> curloadgrid[j] == 0
        invariant direct ==> loadgrid2[..] == old(loadgrid2[..])
        invariant !direct ==> loadgrid[..] == old(loadgrid[..])
      {
        curloadgrid[i] := 0;
      }
    }

    /** `maxload`. */
    method MaxLoad(n: int) returns (r: int)
      requires Valid()
      modifies this`maxload
      ensures Valid() && r == maxload == if n > 0 then n else old(maxload)
    {
      if n > 0 {
        maxload := n;
      }
      return maxload;
    }

    /** `grow_load`; `usec` is the microsecond of the clock. */
    method GrowLoad(n: int, usec: nat)
      requires Valid() && usec < 1000000
      modifies this`log, loadgrid, loadgrid2
      ensures Valid() && log == old(log) + [Grow(n, usec)] && curloadgrid == old(curloadgrid)
      ensures curloadgrid[..] == var i := if usec < 500000 then 0 else 1;
        old(curloadgrid[..])[i := old(curloadgrid[..])[i] + n]
    {
      hide InSecond, TurnTime, Open, Closed, GrownCell;
      var idx := usec / BASE;
      curloadgrid[idx] := curloadgrid[idx] + n;
      OneMore(log, Grow(n, usec));
      CellMore(Open(log), Grow(n, usec), 0);
      CellMore(Open(log), Grow(n, usec), 1);
      StillInSecond(log, Grow(n, usec));
      log := log + [Grow(n, usec)];
    }

    /** `peek_load`, at second `sec` of the clock: the growth of the last closed window, for
        one second; 0 before the first turn. */
    method PeekLoad(sec: int) returns (r: int)
      requires Valid()
      modifies this`log, this`curtime, this`direct, this`curloadgrid, loadgrid, loadgrid2
      ensures Valid() && log == old(log) + [Peek(sec)]
      ensures r == PerSecond(log)
    {
      hide InSecond, TurnTime, Open, Closed, GrownCell;
      OneMore(log, Peek(sec));
      CellMore(Open(log), Peek(sec), 0);
      CellMore(Open(log), Peek(sec), 1);
      CellMore([], Peek(sec), 0);
      CellMore([], Peek(sec), 1);
      NoGrowth();
      StillInSecond(log, Peek(sec));
      var timediff := sec - curtime;
      if timediff >= DEFAULT_INTERVAL {
        Trans();
        curtime := curtime + timediff;
      }
      log := log + [Peek(sec)];
      var curload := 0;
      var grid := if direct then loadgrid2 else loadgrid;
      for i := 0 to LOADGRID_NUM
        invariant curload == if i == 0 then 0 else if i == 1 then grid[0] else grid[0] + grid[1]
      {
        curload := curload + grid[i];
      }
      WindowInSecond(log);
      CellsHoldAll(Closed(log));
      return Quot(curload, DEFAULT_INTERVAL);
    }

    /** `check_load`. */
    method CheckLoad(sec: int) returns (overload: bool)
      requires Valid()
      modifies this`log, this`curtime, this`direct, this`curloadgrid, loadgrid, loadgrid2
      ensures Valid() && log == old(log) + [Peek(sec)]
      ensures overload <==> PerSecond(log) > maxload
    {
      var load := PeekLoad(sec);
      return load > maxload;
    }
  }

  lemma NoGrowth()
    ensures GrownCell([], 0) == 0 && GrownCell([], 1) == 0
  {
  }

  lemma StillInSecond(log: seq<Event>, e: Event)
    requires InSecond(log) && (e.Grow? ==> e.usec < 1000000)
    ensures InSecond(log + [e])
  {
  }

  lemma NextCall(calls: seq<Event>, i: nat)
    requires i < |calls| && InSecond(calls)
    ensures calls[..i + 1] == calls[..i] + [calls[i]] && (calls[i].Grow? ==> calls[i].usec < 1000000)
  {
  }

  /** Any run of calls: the events in the log are the calls, in order. */
  method Replay(calls: seq<Event>, maxload: int) returns (c: CLoad, peeks: seq<int>)
    requires InSecond(calls)
    ensures c.Valid() && c.log == calls && |peeks| == |calls|
    ensures forall i :: 0 <= i < |calls| && calls[i].Peek? ==> peeks[i] == PerSecond(calls[..i + 1])
  {
    hide *;
    c := new CLoad(maxload);
    peeks := [];
    for i := 0 to |calls|
      invariant c.Valid() && fresh(c) && fresh(c.loadgrid) && fresh(c.loadgrid2)
      invariant c.log == calls[..i] && |peeks| == i
      invariant forall j :: 0 <= j < i && calls[j].Peek? ==> peeks[j] == PerSecond(calls[..j + 1])
    {
      NextCall(calls, i);
      var r := 0;
      match calls[i] {
        case Grow(n, usec) => c.GrowLoad(n, usec);
        case Peek(sec) => r := c.PeekLoad(sec);
      }
      peeks := peeks + [r];
    }
    assert calls[..|calls|] == calls;
  }
}
