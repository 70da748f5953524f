/** The order in which events leave the table, over whole runs. */
module EventOrder {
  import opened Common
  import opened EventTable
  import opened EventLog
  import opened EventRuns
  import opened EventTheorems

  /** In the order of second, millisecond and serial number. */
  predicate Sorted(em: seq<EventList>)
  {
    forall i, j :: 0 <= i < j < |em| ==>
      || em[i].e.sec < em[j].e.sec
      || (em[i].e.sec == em[j].e.sec && em[i].e.milli < em[j].e.milli)
      || (em[i].e.sec == em[j].e.sec && em[i].e.milli == em[j].e.milli && em[i].e.serial <= em[j].e.serial)
  }

  /** Every event emitted from position `b` on is no later than every held event. */
  predicate BelowHeld(em: seq<EventList>, b: nat, slots: seq<Slot>)
  {
    forall i, j :: b <= j < |em| && 0 <= i < |slots| && Live(slots[i]) ==> NotAfter(em[j].e, slots[i].l.e)
  }

  predicate OrderedFrom(r: Run, b: nat)
  {
    b <= |r.emitted| && Sorted(r.emitted[b..]) && BelowHeld(r.emitted, b, r.table.slots)
  }

  /** What leaves the table is no later than anything left in it, building or complete. */
  lemma EmittedIsEarliest(t: Table)
    requires Drained(t).Some?
    ensures forall i :: 0 <= i < |Drain(t).slots| && Live(Drain(t).slots[i]) ==>
              var l, m := Drained(t).value.e, Drain(t).slots[i].l.e;
              || l.sec < m.sec || (l.sec == m.sec && l.milli < m.milli)
              || (l.sec == m.sec && l.milli == m.milli && l.serial <= m.serial)
  {
    var i := ReadySlot(t).value;
    forall k | 0 <= k < |Drain(t).slots| && Live(Drain(t).slots[k])
      ensures NotAfter(Drained(t).value.e, Drain(t).slots[k].l.e)
    {
      assert Drain(t).slots[k] == t.slots[k];
    }
  }

  lemma EmitKeepsOrder(r: Run, b: nat)
    requires OrderedFrom(r, b)
    ensures OrderedFrom(Do(r, Emit), b)
  {
    if Drained(r.table).Some? {
      var i := ReadySlot(r.table).value;
      var r' := Do(r, Emit);
      EmittedIsEarliest(r.table);
      assert r'.emitted[b..] == r.emitted[b..] + [r.table.slots[i].l];
      forall j | b <= j < |r.emitted|
        ensures NotAfter(r.emitted[j].e, r.table.slots[i].l.e)
      {
      }
      forall k, j | b <= j < |r'.emitted| && 0 <= k < |r'.table.slots| && Live(r'.table.slots[k])
        ensures NotAfter(r'.emitted[j].e, r'.table.slots[k].l.e)
      {
        assert r'.table.slots[k] == r.table.slots[k];
      }
    }
  }

  /** Does feeding `line` open a new event? */
  predicate Opens(g: Log, line: Line)
  {
    Accepts(g, line) && line.e !in g.open
  }

  /** Slot `i` of the second table holds an event of an identity it held in the first. */
  predicate SameIdentity(slots: seq<Slot>, slots': seq<Slot>, i: nat)
  {
    i < |slots| && i < |slots'| && Live(slots[i]) && Live(slots'[i]) && slots[i].l.e == slots'[i].l.e
  }

  lemma IngestIdentities(t: Table, n: nat, line: Line, i: nat)
    requires TableInv(t) && i < |Ingest(t, n, line).slots| && Live(Ingest(t, n, line).slots[i])
    ensures || SameIdentity(t.slots, Ingest(t, n, line).slots, i)
            || (&& line.Entry? && line.rtype != AUDIT_EOE
                && FindBuilding(Sweep(t).slots, line.e, 0) == |Sweep(t).slots|
                && line.e == Ingest(t, n, line).slots[i].l.e)
  {
    SweepKeepsInv(t);
    if line.Entry? {
      AppendKeepsInv(Sweep(t), EventList(line.e, [Record(n, line.rtype, line.text)]));
    }
  }

  /** A step brings no identity into the table but that of a newly opened event. */
  lemma HeldIdentities(r: Run, g: Log, s: Step, i: nat)
    requires Linked(r, g) && i < |Do(r, s).table.slots| && Live(Do(r, s).table.slots[i])
    ensures || SameIdentity(r.table.slots, Do(r, s).table.slots, i)
            || (s.Feed? && Opens(g, s.line) && s.line.e == Do(r, s).table.slots[i].l.e)
  {
    if s.Feed? {
      IngestIdentities(r.table, r.lines, s.line, i);
      if s.line.Entry? {
        BuildingAfterSweep(r, g, s.line.e);
      }
    }
  }

  lemma StepKeepsOrder(r: Run, g: Log, s: Step, b: nat)
    requires Linked(r, g) && OrderedFrom(r, b)
    requires s.Feed? && Opens(g, s.line) ==> forall j :: b <= j < |r.emitted| ==> NotAfter(r.emitted[j].e, s.line.e)
    ensures OrderedFrom(Do(r, s), b)
  {
    if s.Emit? {
      EmitKeepsOrder(r, b);
    } else {
      var r' := Do(r, s);
      assert r'.emitted == r.emitted;
      forall i, j | b <= j < |r'.emitted| && 0 <= i < |r'.table.slots| && Live(r'.table.slots[i])
        ensures NotAfter(r'.emitted[j].e, r'.table.slots[i].l.e)
      {
        HeldIdentities(r, g, s, i);
      }
    }
  }

  // -------------------------------------------------------- when output is sorted

  predicate OpensAt(steps: seq<Step>, k: nat)
  {
    k < |steps| && steps[k].Feed? && Opens(LogOf(steps[..k]), steps[k].line)
  }

  /** No event is opened that is earlier than something already emitted. */
  ghost predicate Timely(steps: seq<Step>)
  {
    forall k: nat, j :: OpensAt(steps, k) && 0 <= j < |Exec(steps[..k]).emitted| ==>
      NotAfter(Exec(steps[..k]).emitted[j].e, steps[k].line.e)
  }

  lemma TimelyPrefix(steps: seq<Step>)
    requires steps != [] && Timely(steps)
    ensures Timely(steps[..|steps| - 1])
  {
    var before := steps[..|steps| - 1];
    forall k: nat, j | OpensAt(before, k) && 0 <= j < |Exec(before[..k]).emitted|
      ensures NotAfter(Exec(before[..k]).emitted[j].e, before[k].line.e)
    {
      assert before[..k] == steps[..k];
      assert OpensAt(steps, k);
    }
  }

  lemma {:induction false} TimelyRunIsOrdered(steps: seq<Step>)
    requires Timely(steps)
    ensures OrderedFrom(Exec(steps), 0)
  {
    if steps != [] {
      var k := |steps| - 1;
      TimelyPrefix(steps);
      TimelyRunIsOrdered(steps[..k]);
      RunRefinesLog(steps[..k]);
      forall j | 0 <= j < |Exec(steps[..k]).emitted| && OpensAt(steps, k)
        ensures NotAfter(Exec(steps[..k]).emitted[j].e, steps[k].line.e)
      {
      }
      StepKeepsOrder(Exec(steps[..k]), LogOf(steps[..k]), steps[k], 0);
    }
  }

  predicate NothingHeld(t: Table)
  {
    forall i :: 0 <= i < |t.slots| ==> !Live(t.slots[i])
  }

  lemma {:induction false} EmittedGrows(steps: seq<Step>, k: nat)
    requires k <= |steps|
    ensures Exec(steps[..k]).emitted <= Exec(steps).emitted
  {
    if k < |steps| {
      var before := steps[..|steps| - 1];
      assert before[..k] == steps[..k];
      EmittedGrows(before, k);
    } else {
      assert steps[..k] == steps;
    }
  }

  lemma EmittedLinesAreOld(r: Run, g: Log)
    requires Linked(r, g)
    ensures forall m, j :: 0 <= m < |r.emitted| && 0 <= j < |r.emitted[m].records| ==>
              r.emitted[m].records[j].line < g.lines
  {
    forall m, j | 0 <= m < |r.emitted| && 0 <= j < |r.emitted[m].records|
      ensures r.emitted[m].records[j].line < g.lines
    {
      assert WellFormed(Tag(r.emitted[m]), g.events[Tag(r.emitted[m])].l.records, g.lines);
    }
  }

  lemma EmittedIfNothingHeld(run: Run, g: Log, t: nat) returns (m: nat)
    requires Linked(run, g) && NothingHeld(run.table) && t in g.events
    ensures m < |run.emitted| && run.emitted[m] == g.events[t].l
  {
    assert t !in LiveTags(run.table.slots);
    m :| m < |run.emitted| && Tag(run.emitted[m]) == t;
  }

  /** An event opened in step `k` is emitted later than everything emitted before `k`. */
  lemma LateEventIsEmittedLater(steps: seq<Step>, k: nat) returns (m: nat)
    requires OpensAt(steps, k) && NothingHeld(Exec(steps).table)
    ensures |Exec(steps[..k]).emitted| <= m < |Exec(steps).emitted|
    ensures Exec(steps).emitted[m].e == steps[k].line.e
  {
    var run, g, r := Exec(steps), LogOf(steps), LineRecord(steps, k);
    KeptLineIsRecorded(steps, k);
    var t: nat, j: nat :| RecordedAt(g, t, j, r) && g.events[t].l.e == steps[k].line.e;
    RunRefinesLog(steps);
    m := EmittedIfNothingHeld(run, g, t);
    EmittedGrows(steps, k);
    RunRefinesLog(steps[..k]);
    EmittedLinesAreOld(Exec(steps[..k]), LogOf(steps[..k]));
    assert run.emitted[m].records[j].line == LogOf(steps[..k]).lines;
  }

  /** Once everything is out, the output is in time-stamp order exactly when no
      event was opened after a later one had been emitted. */
  lemma SortedIffTimely(steps: seq<Step>)
    requires NothingHeld(Exec(steps).table)
    ensures Sorted(Exec(steps).emitted) <==> Timely(steps)
  {
    if Timely(steps) {
      TimelyRunIsOrdered(steps);
      assert Exec(steps).emitted[0..] == Exec(steps).emitted;
    }
    if Sorted(Exec(steps).emitted) {
      forall k: nat, j | OpensAt(steps, k) && 0 <= j < |Exec(steps[..k]).emitted|
        ensures NotAfter(Exec(steps[..k]).emitted[j].e, steps[k].line.e)
      {
        var m := LateEventIsEmittedLater(steps, k);
        EmittedGrows(steps, k);
        assert Exec(steps).emitted[j] == Exec(steps[..k]).emitted[j];
      }
    }
  }

  // --------------------------------------------- opening in order is always timely

  ghost predicate OpensInOrder(steps: seq<Step>)
  {
    forall k: nat, k': nat :: k < k' && OpensAt(steps, k) && OpensAt(steps, k') ==>
      NotAfter(steps[k].line.e, steps[k'].line.e)
  }

  lemma {:induction false} RecordPersists(steps: seq<Step>, k: nat, t: nat, j: nat, r: Record)
    requires k <= |steps| && RecordedAt(LogOf(steps[..k]), t, j, r)
    ensures RecordedAt(LogOf(steps), t, j, r)
  {
    if k < |steps| {
      var before := steps[..|steps| - 1];
      assert before[..k] == steps[..k];
      RecordPersists(before, k, t, j, r);
      LogOfKeepsInv(before);
      StepKeepsRecord(LogOf(before), steps[|steps| - 1], t, j, r);
    } else {
      assert steps[..k] == steps;
    }
  }

  /** A line for an event that is already open adds a record after its first. */
  lemma OpenEventGrows(g: Log, line: Line)
    requires LogInv(g) && Accepts(g, line) && line.e in g.open
    ensures var j := |Extended(g, line).records| - 1;
            j > 0 && RecordedAt(LogStep(g, Feed(line)), Home(g, line), j, Record(g.lines, line.rtype, line.text))
  {
    assert WellFormed(g.open[line.e], OpenEvent(g, line.e).records, g.lines);
  }

  lemma LaterRecord(steps: seq<Step>, k: nat)
    requires k < |steps| && steps[k].Feed? && Accepts(LogOf(steps[..k]), steps[k].line)
    requires steps[k].line.e in LogOf(steps[..k]).open
    ensures var g0, line := LogOf(steps[..k]), steps[k].line;
            var j := |Extended(g0, line).records| - 1;
            j > 0 && RecordedAt(LogOf(steps), Home(g0, line), j, Record(g0.lines, line.rtype, line.text))
  {
    var g0, line := LogOf(steps[..k]), steps[k].line;
    LogOfKeepsInv(steps[..k]);
    OpenEventGrows(g0, line);
    assert steps[..k + 1][..k] == steps[..k];
    RecordPersists(steps, k + 1, Home(g0, line), |Extended(g0, line).records| - 1,
                   Record(g0.lines, line.rtype, line.text));
  }

  /** The first record of every logged event was the line that opened it. */
  lemma FirstRecordOpens(steps: seq<Step>, t: nat) returns (k: nat)
    requires t in LogOf(steps).events
    ensures OpensAt(steps, k) && steps[k].line.e == LogOf(steps).events[t].l.e
    ensures LogOf(steps[..k]).lines == t
  {
    var g := LogOf(steps);
    LogOfKeepsInv(steps);
    assert WellFormed(t, g.events[t].l.records, g.lines);
    var r := g.events[t].l.records[0];
    k := RecordIsKeptLine(steps, t, 0, r);
    var g0, line := LogOf(steps[..k]), steps[k].line;
    if line.e in g0.open {
      LaterRecord(steps, k);
      RecordedOnce(g, t, 0, r, Home(g0, line), |Extended(g0, line).records| - 1, r);
    }
  }

  /** An event opened later than one that has been emitted is not earlier, either. */
  lemma OpenedInOrder(steps: seq<Step>, k: nat, j: nat)
    requires OpensInOrder(steps) && OpensAt(steps, k) && j < |Exec(steps[..k]).emitted|
    ensures NotAfter(Exec(steps[..k]).emitted[j].e, steps[k].line.e)
  {
    var before := steps[..k];
    RunRefinesLog(before);
    var k0 := FirstRecordOpens(before, Tag(Exec(before).emitted[j]));
    assert before[..k0] == steps[..k0];
    assert OpensAt(steps, k0);
  }

  /** Events opened in time-stamp order come out in time-stamp order. */
  lemma OpeningInOrderSortsOutput(steps: seq<Step>)
    requires OpensInOrder(steps)
    ensures Timely(steps) && Sorted(Exec(steps).emitted)
  {
    forall k: nat, j | OpensAt(steps, k) && 0 <= j < |Exec(steps[..k]).emitted|
      ensures NotAfter(Exec(steps[..k]).emitted[j].e, steps[k].line.e)
    {
      OpenedInOrder(steps, k, j);
    }
    TimelyRunIsOrdered(steps);
    assert Exec(steps).emitted[0..] == Exec(steps).emitted;
  }

  // ------------------------------------------------------------------ end of input

  predicate NoneBuilding(t: Table)
  {
    forall i :: 0 <= i < |t.slots| ==> !t.slots[i].Building?
  }

  /** With nothing under construction, a drain always makes progress. */
  lemma EmitShrinksReady(t: Table)
    requires TableInv(t) && t.ready > 0 && NoneBuilding(t)
    ensures Drained(t).Some? && Drain(t).ready == t.ready - 1 && NoneBuilding(Drain(t))
  {
    var i :| i in CompleteSet(t.slots);
    assert Live(t.slots[i]);
  }

  function EmitTimes(n: nat): seq<Step>
  {
    seq(n, _ => Emit)
  }

  lemma ExecEmit(steps: seq<Step>)
    ensures Exec(steps + [Emit]) == Do(Exec(steps), Emit)
  {
    assert (steps + [Emit])[..|steps|] == steps;
  }

  lemma {:induction false} EmitsUntilEmpty(steps: seq<Step>, r: Run, n: nat, b: nat)
    requires Exec(steps) == r && n == r.table.ready && TableInv(r.table)
    requires OrderedFrom(r, b) && NoneBuilding(r.table)
    ensures NothingHeld(Exec(steps + EmitTimes(n)).table)
    ensures OrderedFrom(Exec(steps + EmitTimes(n)), b)
    decreases n
  {
    if n == 0 {
      ReadyCountDecidesEmptyScan(r.table);
      assert steps + EmitTimes(0) == steps;
    } else {
      EmitAdvances(r, b);
      ExecEmit(steps);
      EmitsUntilEmpty(steps + [Emit], Do(r, Emit), n - 1, b);
      assert steps + [Emit] + EmitTimes(n - 1) == steps + EmitTimes(n);
    }
  }

  lemma EmitAdvances(r: Run, b: nat)
    requires TableInv(r.table) && r.table.ready > 0 && NoneBuilding(r.table) && OrderedFrom(r, b)
    ensures var r' := Do(r, Emit);
            && TableInv(r'.table) && r'.table.ready == r.table.ready - 1
            && NoneBuilding(r'.table) && OrderedFrom(r', b)
  {
    EmitShrinksReady(r.table);
    EmitKeepsOrder(r, b);
    DrainKeepsInv(r.table);
  }

  /** Ending the input and draining as often as events are ready empties the table;
      what that adds to the output is in time-stamp order. */
  lemma FlushEmitsEverything(steps: seq<Step>)
    ensures var ended := steps + [Finish];
            var done := ended + EmitTimes(|CompleteSet(Exec(ended).table.slots)|);
            && NothingHeld(Exec(done).table)
            && Exec(steps).emitted <= Exec(done).emitted
            && Sorted(Exec(done).emitted[|Exec(steps).emitted|..])
  {
    var ended := steps + [Finish];
    assert ended[..|ended| - 1] == steps;
    RunRefinesLog(ended);
    var n := |CompleteSet(Exec(ended).table.slots)|;
    EmitsUntilEmpty(ended, Exec(ended), n, |Exec(steps).emitted|);
    var done := ended + EmitTimes(n);
    assert done[..|steps|] == steps;
    EmittedGrows(done, |steps|);
  }
}
