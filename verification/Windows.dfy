/**
  Growth of a load, counted in windows: what a run of calls should yield.
 */
module Windows {
  import opened Common

  /** Seconds a window lasts at least, and the cells of a grid. */
  const DEFAULT_INTERVAL := 5
  const LOADGRID_NUM := 2
  /** Microseconds a cell covers. */
  const BASE := 1000000 / LOADGRID_NUM

  datatype Event = Grow(n: int, usec: nat) | Peek(sec: int)

  /** Growth in one cell of the grid. */
  function GrownCell(log: seq<Event>, cell: int): int
    decreases |log|
  {
    if log == [] then 0
    else
      var e := log[|log| - 1];
      GrownCell(log[..|log| - 1], cell) + if e.Grow? && e.usec / BASE == cell then e.n else 0
  }

  /** Growth. */
  function Grown(log: seq<Event>): int
    decreases |log|
  {
    if log == [] then 0
    else
      var e := log[|log| - 1];
      Grown(log[..|log| - 1]) + if e.Grow? then e.n else 0
  }

  predicate InSecond(log: seq<Event>) { forall i :: 0 <= i < |log| && log[i].Grow? ==> log[i].usec < 1000000 }

  /** The cells hold all of it. */
  lemma {:induction false} CellsHoldAll(log: seq<Event>)
    requires InSecond(log)
    ensures GrownCell(log, 0) + GrownCell(log, 1) == Grown(log)
    decreases |log|
  {
    if log != [] {
      CellsHoldAll(log[..|log| - 1]);
      assert log[|log| - 1].Grow? ==> log[|log| - 1].usec / BASE in {0, 1};
    }
  }

  lemma {:induction false} GrownConcat(a: seq<Event>, b: seq<Event>)
    ensures Grown(a + b) == Grown(a) + Grown(b)
    decreases |b|
  {
    if b == [] {
      assert a + b == a;
    } else {
      assert (a + b)[..|a + b| - 1] == a + b[..|b| - 1];
      GrownConcat(a, b[..|b| - 1]);
    }
  }

  /** When the clock last turned the windows over; it starts at 0. */
  function TurnTime(log: seq<Event>): int
    decreases |log|
  {
    if log == [] then 0
    else if Turns(log) then log[|log| - 1].sec
    else TurnTime(log[..|log| - 1])
  }

  /** The last event of a log turns the windows over: a peek, the interval after the last turn. */
  predicate Turns(log: seq<Event>)
    requires log != []
    decreases |log|, 0
  {
    log[|log| - 1].Peek? && log[|log| - 1].sec - TurnTime(log[..|log| - 1]) >= DEFAULT_INTERVAL
  }

  /** The places in the log where the windows turn over. */
  function TurnsAt(log: seq<Event>): (at: seq<nat>)
    ensures forall k :: 0 <= k < |at| ==> at[k] < |log|
    decreases |log|
  {
    if log == [] then []
    else TurnsAt(log[..|log| - 1]) + if Turns(log) then [|log| - 1] else []
  }

  /** Where window `k` starts; the first one starts with the log. */
  function Begin(log: seq<Event>, k: nat): (i: nat)
    requires k <= |TurnsAt(log)|
    ensures i <= |log|
  {
    if k == 0 then 0 else TurnsAt(log)[k - 1]
  }

  /** Where window `k` ends; the last one is open. */
  function End(log: seq<Event>, k: nat): (i: nat)
    requires k <= |TurnsAt(log)|
    ensures i <= |log|
  {
    if k == |TurnsAt(log)| then |log| else TurnsAt(log)[k]
  }

  lemma {:induction false} TurnsAscend(log: seq<Event>)
    ensures forall i, j :: 0 <= i < j < |TurnsAt(log)| ==> TurnsAt(log)[i] < TurnsAt(log)[j]
    decreases |log|
  {
    if log != [] { TurnsAscend(log[..|log| - 1]); }
  }

  /** The events of window `k`. */
  function Window(log: seq<Event>, k: nat): seq<Event>
    requires k <= |TurnsAt(log)|
  {
    TurnsAscend(log);
    log[Begin(log, k)..End(log, k)]
  }

  /** All growth up to the end of window `k`, window by window. */
  function WindowSum(log: seq<Event>, k: nat): int
    requires k <= |TurnsAt(log)|
  {
    Grown(Window(log, k)) + if k == 0 then 0 else WindowSum(log, k - 1)
  }

  lemma {:induction false} WindowsUpTo(log: seq<Event>, k: nat)
    requires k <= |TurnsAt(log)|
    ensures WindowSum(log, k) == Grown(log[..End(log, k)])
  {
    TurnsAscend(log);
    if k > 0 {
      WindowsUpTo(log, k - 1);
      GrownConcat(log[..Begin(log, k)], Window(log, k));
      assert log[..End(log, k)] == log[..Begin(log, k)] + Window(log, k);
    } else {
      assert log[..End(log, 0)] == Window(log, 0);
    }
  }

  /** The windows lie end to end and cover the log, so no growth is lost or counted twice. */
  lemma Conserved(log: seq<Event>)
    ensures WindowSum(log, |TurnsAt(log)|) == Grown(log)
    ensures Begin(log, 0) == 0 && End(log, |TurnsAt(log)|) == |log|
    ensures forall k :: 0 < k <= |TurnsAt(log)| ==> Begin(log, k) == End(log, k - 1)
  {
    WindowsUpTo(log, |TurnsAt(log)|);
    assert log[..|log|] == log;
  }

  lemma {:induction false} LastTurn(log: seq<Event>)
    ensures var at := TurnsAt(log);
      if at == [] then TurnTime(log) == 0 else log[at[|at| - 1]].Peek? && TurnTime(log) == log[at[|at| - 1]].sec
    decreases |log|
  {
    if log != [] { LastTurn(log[..|log| - 1]); }
  }

  /** Two turns are at least the interval apart, whatever the clock does in between; every
      peek of a window is sooner after its start. */
  lemma {:induction false} TurnsApart(log: seq<Event>, k: nat)
    requires k < |TurnsAt(log)|
    ensures var at := TurnsAt(log);
      && log[at[k]].Peek? && log[at[k]].sec >= DEFAULT_INTERVAL
      && (k > 0 ==> log[at[k - 1]].Peek? && log[at[k]].sec - log[at[k - 1]].sec >= DEFAULT_INTERVAL)
    decreases |log|
  {
    var front := log[..|log| - 1];
    LastTurn(front);
    if k < |TurnsAt(front)| {
      TurnsApart(front, k);
    } else if k > 0 {
      TurnsApart(front, k - 1);
    }
  }

  lemma {:induction false} TurnsBefore(log: seq<Event>, i: nat)
    requires i <= |log|
    ensures forall j :: j in TurnsAt(log[..i]) <==> j in TurnsAt(log) && j < i
    decreases |log|
  {
    if i == |log| {
      assert log[..i] == log;
    } else {
      var front := log[..|log| - 1];
      assert front[..i] == log[..i];
      TurnsBefore(front, i);
    }
  }

  lemma {:induction false} TurnsHere(log: seq<Event>, i: nat)
    requires i < |log|
    ensures i in TurnsAt(log) <==> log[i].Peek? && log[i].sec - TurnTime(log[..i]) >= DEFAULT_INTERVAL
    decreases |log|
  {
    var front := log[..|log| - 1];
    if i < |front| {
      assert front[..i] == log[..i];
      TurnsHere(front, i);
    }
  }

  /** No turn was later than the last one. */
  lemma {:induction false} LastIsLatest(log: seq<Event>, k: nat)
    requires k < |TurnsAt(log)|
    ensures var i := TurnsAt(log)[k]; log[i].Peek? && log[i].sec <= TurnTime(log)
    decreases |log|
  {
    var front := log[..|log| - 1];
    if k < |TurnsAt(front)| { LastIsLatest(front, k); }
  }

  /** The second of a peek is the interval or more after the start, and after every turn before. */
  ghost predicate Due(log: seq<Event>, i: nat)
    requires i < |log|
  {
    && log[i].Peek? && log[i].sec >= DEFAULT_INTERVAL
    && forall j :: j in TurnsAt(log) && j < i ==> log[j].Peek? && log[i].sec - log[j].sec >= DEFAULT_INTERVAL
  }

  /** The windows turn over at exactly these peeks. */
  lemma TurnsExactly(log: seq<Event>, i: nat)
    requires i < |log|
    ensures i in TurnsAt(log) <==> Due(log, i)
  {
    TurnsHere(log, i);
    TurnsBefore(log, i);
    var front := log[..i];
    LastTurn(front);
    TimePositive(front);
    var at := TurnsAt(front);
    forall j | j in TurnsAt(log) && j < i ensures log[j].Peek? && log[j].sec <= TurnTime(front) {
      var k :| 0 <= k < |at| && at[k] == j;
      LastIsLatest(front, k);
    }
    if at != [] { assert at[|at| - 1] in at; }
  }

  lemma {:induction false} TimePositive(log: seq<Event>)
    ensures TurnTime(log) >= 0
    decreases |log|
  {
    if log != [] { TimePositive(log[..|log| - 1]); }
  }

  /** The window that is open, and the one closed last. */
  function Open(log: seq<Event>): seq<Event> { Window(log, |TurnsAt(log)|) }

  function Closed(log: seq<Event>): seq<Event> { if TurnsAt(log) == [] then [] else Window(log, |TurnsAt(log)| - 1) }

  /** The growth of the window closed last, for one second; 0 before the first turn. */
  function PerSecond(log: seq<Event>): int { Quot(Grown(Closed(log)), DEFAULT_INTERVAL) }

  /** What a peek gives: the growth between the last two turns, or up to the only one, divided
      by 5; 0 before the first. */
  lemma PerSecondIs(log: seq<Event>)
    ensures var at, q := TurnsAt(log), PerSecond(log);
      if at == [] then q == 0
      else
        var from := if |at| == 1 then 0 else at[|at| - 2];
        && from <= at[|at| - 1] <= |log|
        && var sum := Grown(log[from..at[|at| - 1]]);
           (sum >= 0 ==> q * 5 <= sum < (q + 1) * 5) && (sum <= 0 ==> (q - 1) * 5 < sum <= q * 5)
  {
    hide TurnsAt, Grown;
    TurnsAscend(log);
    GrownOne(0, 0, 0);
    var at := TurnsAt(log);
    if at != [] {
      var from := if |at| == 1 then 0 else at[|at| - 2];
      assert Closed(log) == log[from..at[|at| - 1]];
    }
  }

  /** Growth is what grows, once. */
  lemma GrownOne(n: int, usec: nat, sec: int)
    ensures Grown([]) == 0 && Grown([Grow(n, usec)]) == n && Grown([Peek(sec)]) == 0
  {
    assert [Grow(n, usec)][..0] == [] && [Peek(sec)][..0] == [];
  }

  lemma TurnsMore(log: seq<Event>, e: Event)
    ensures var more := log + [e];
      var turn := e.Peek? && e.sec - TurnTime(log) >= DEFAULT_INTERVAL;
      TurnTime(more) == (if turn then e.sec else TurnTime(log)) && TurnsAt(more) == TurnsAt(log) + if turn then [|log|]
          else []
  {
    assert (log + [e])[..|log|] == log;
  }

  lemma SameWindow(log: seq<Event>, more: seq<Event>, k: nat)
    requires k < |TurnsAt(log)| && log <= more && TurnsAt(log) <= TurnsAt(more)
    ensures Window(more, k) == Window(log, k)
  {
    hide TurnsAt;
    TurnsAscend(log);
    TurnsAscend(more);
    assert Begin(more, k) == Begin(log, k) && End(more, k) == End(log, k);
  }

  lemma OpenMore(log: seq<Event>, more: seq<Event>, e: Event)
    requires more == log + [e] && TurnsAt(more) == TurnsAt(log)
    ensures Open(more) == Open(log) + [e]
  {
    hide TurnsAt;
  }

  lemma OpenTurn(log: seq<Event>, more: seq<Event>, e: Event)
    requires more == log + [e] && TurnsAt(more) == TurnsAt(log) + [|log|]
    ensures Open(more) == [e] && Closed(more) == Open(log)
  {
    hide TurnsAt;
    var n := |TurnsAt(log)|;
    assert Begin(more, n) == Begin(log, n) && End(more, n) == |log|;
    assert Window(more, n) == Window(log, n);
  }

  /** One more event goes to the open window, or closes it. */
  lemma OneMore(log: seq<Event>, e: Event)
    ensures var more := log + [e];
      var turn := e.Peek? && e.sec - TurnTime(log) >= DEFAULT_INTERVAL;
      && TurnTime(more) == (if turn then e.sec else TurnTime(log))
      && Open(more) == (if turn then [] else Open(log)) + [e]
      && Closed(more) == if turn then Open(log) else Closed(log)
  {
    hide TurnsAt, Open, Window, TurnTime;
    var more := log + [e];
    var n := |TurnsAt(log)|;
    TurnsMore(log, e);
    if e.Peek? && e.sec - TurnTime(log) >= DEFAULT_INTERVAL {
      OpenTurn(log, more, e);
      assert [] + [e] == [e];
    } else {
      OpenMore(log, more, e);
      if n > 0 { SameWindow(log, more, n - 1); }
    }
  }

  /** The cells of a window with one more event. */
  lemma CellMore(w: seq<Event>, e: Event, cell: int)
    ensures GrownCell(w + [e], cell) == GrownCell(w, cell) + if e.Grow? && e.usec / BASE == cell then e.n else 0
  {
    assert (w + [e])[..|w|] == w;
  }

  lemma WindowInSecond(log: seq<Event>)
    requires InSecond(log)
    ensures InSecond(Open(log)) && InSecond(Closed(log))
  {
    hide InSecond, TurnsAt;
    var n := |TurnsAt(log)|;
    TurnsAscend(log);
    SliceInSecond(log, Begin(log, n), End(log, n));
    if n > 0 {
      SliceInSecond(log, Begin(log, n - 1), End(log, n - 1));
    } else {
      SliceInSecond(log, 0, 0);
      assert log[0..0] == [];
    }
  }

  lemma SliceInSecond(log: seq<Event>, i: nat, j: nat)
    requires InSecond(log) && i <= j <= |log|
    ensures InSecond(log[i..j])
  {
  }
}
