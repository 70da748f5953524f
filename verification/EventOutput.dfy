/** When runs with the same input have the same output, whatever the draining. */
module EventOutput {
  import opened Common
  import opened EventTable
  import opened EventLog
  import opened EventRuns
  import opened EventTheorems
  import opened EventOrder

  predicate Before(a: EventId, b: EventId)
  {
    NotAfter(a, b) && !NotAfter(b, a)
  }

  /** No two events have the same time stamp and serial number. */
  predicate DistinctStamps(g: Log)
  {
    forall t, u :: t in g.events && u in g.events && t != u ==>
      Before(g.events[t].l.e, g.events[u].l.e) || Before(g.events[u].l.e, g.events[t].l.e)
  }

  lemma {:induction false} EventPersists(steps: seq<Step>, k: nat, t: nat)
    requires k <= |steps| && t in LogOf(steps[..k]).events
    ensures t in LogOf(steps).events && LogOf(steps).events[t].l.e == LogOf(steps[..k]).events[t].l.e
  {
    if k < |steps| {
      var before := steps[..|steps| - 1];
      assert before[..k] == steps[..k];
      EventPersists(before, k, t);
      LogOfKeepsInv(before);
      var g := LogOf(before);
      assert WellFormed(t, g.events[t].l.records, g.lines);
      StepKeepsRecord(g, steps[|steps| - 1], t, 0, g.events[t].l.records[0]);
    } else {
      assert steps[..k] == steps;
    }
  }

  lemma StampsWereDistinct(steps: seq<Step>, k: nat)
    requires k <= |steps| && DistinctStamps(LogOf(steps))
    ensures DistinctStamps(LogOf(steps[..k]))
  {
    var g := LogOf(steps[..k]);
    forall t, u | t in g.events && u in g.events && t != u
      ensures Before(g.events[t].l.e, g.events[u].l.e) || Before(g.events[u].l.e, g.events[t].l.e)
    {
      EventPersists(steps, k, t);
      EventPersists(steps, k, u);
    }
  }

  predicate StrictlySorted(em: seq<EventList>)
  {
    forall i, j :: 0 <= i < j < |em| ==> Before(em[i].e, em[j].e)
  }

  lemma SortedIsStrict(r: Run, g: Log, b: nat)
    requires Linked(r, g) && DistinctStamps(g) && b <= |r.emitted| && Sorted(r.emitted[b..])
    ensures StrictlySorted(r.emitted[b..])
  {
    var em := r.emitted[b..];
    forall i, j | 0 <= i < j < |em|
      ensures Before(em[i].e, em[j].e)
    {
      assert em[i] == r.emitted[b + i] && em[j] == r.emitted[b + j];
      assert Tag(em[i]) in g.events && Tag(em[j]) in g.events;
    }
  }

  lemma {:induction false} SortedIsUnique(x: seq<EventList>, y: seq<EventList>)
    requires StrictlySorted(x) && StrictlySorted(y)
    requires forall l :: l in x <==> l in y
    ensures x == y
  {
    HasFirst(y);
    if x != [] {
      assert x[0] in y;
      var p :| 0 <= p < |y| && y[p] == x[0];
      assert y[0] in x;
      var q :| 0 <= q < |x| && x[q] == y[0];
      assert p == 0;
      forall l
        ensures l in x[1..] <==> l in y[1..]
      {
        NotFirst(x, l);
        NotFirst(y, l);
      }
      SortedIsUnique(x[1..], y[1..]);
      assert x == [x[0]] + x[1..] && y == [y[0]] + y[1..];
    }
  }

  lemma HasFirst(y: seq<EventList>)
    ensures y == [] || y[0] in y
  {
  }

  lemma NotFirst(x: seq<EventList>, l: EventList)
    requires x != [] && StrictlySorted(x)
    ensures l in x[1..] <==> l in x && l != x[0]
  {
    if l in x[1..] {
      var i :| 0 <= i < |x[1..]| && x[1..][i] == l;
      assert x[i + 1] == l;
    }
  }

  lemma OutputIsFinished(r: Run)
    requires NothingHeld(r.table)
    ensures forall l :: l in r.emitted <==> l in FinishedEvents(r)
  {
  }

  /** Of two runs with the same input, drained in any way until nothing is held, let one
      never have opened an event too late. Then the other has the same output exactly if
      it has not either. */
  lemma SameOutputIffTimely(a: seq<Step>, b: seq<Step>)
    requires Inputs(a) == Inputs(b) && DistinctStamps(LogOf(a)) && Timely(a)
    requires NothingHeld(Exec(a).table) && NothingHeld(Exec(b).table)
    ensures Exec(a).emitted == Exec(b).emitted <==> Timely(b)
  {
    SortedIffTimely(a);
    SortedIffTimely(b);
    if Timely(b) {
      LogIsAFunctionOfInput(a);
      LogIsAFunctionOfInput(b);
      StrictOutput(a);
      StrictOutput(b);
      DrainsDoNotChangeGrouping(a, b);
      OutputIsFinished(Exec(a));
      OutputIsFinished(Exec(b));
      SortedIsUnique(Exec(a).emitted, Exec(b).emitted);
    }
  }

  lemma StrictOutput(steps: seq<Step>)
    requires DistinctStamps(LogOf(steps)) && Sorted(Exec(steps).emitted)
    ensures StrictlySorted(Exec(steps).emitted)
  {
    RunRefinesLog(steps);
    assert Exec(steps).emitted[0..] == Exec(steps).emitted;
    SortedIsStrict(Exec(steps), LogOf(steps), 0);
  }
}
