/** Whole runs of the event table: it refines the log, loses nothing, emits nothing
    twice, and emits in time-stamp order whenever that is possible. */
module EventRuns {
  import opened Common
  import opened EventTable
  import opened EventLog

  /** The table, the number of lines retrieved, and every event emitted so far. */
  datatype Run = Run(table: Table, lines: nat, emitted: seq<EventList>)

  function InitialRun(): Run
  {
    Run(EmptyTable(), 0, [])
  }

  function Do(r: Run, s: Step): Run
  {
    match s
    case Feed(line) => Run(Ingest(r.table, r.lines, line), r.lines + 1, r.emitted)
    case Emit =>
      var d := Drained(r.table);
      Run(Drain(r.table), r.lines, if d.Some? then r.emitted + [d.value] else r.emitted)
    case Free => r.(table := Sweep(r.table))
    case Finish => r.(table := TerminateAll(r.table))
    case Age(sec) => r.(table := CheckEvents(r.table, sec))
  }

  function Exec(steps: seq<Step>): Run
  {
    if steps == [] then InitialRun() else Do(Exec(steps[..|steps| - 1]), steps[|steps| - 1])
  }

  // ----------------------------------------------------------------- refinement

  function Tag(l: EventList): nat
  {
    if l.records == [] then 0 else l.records[0].line
  }

  function LiveTags(slots: seq<Slot>): set<nat>
  {
    set i: nat | i < |slots| && Live(slots[i]) :: Tag(slots[i].l)
  }

  function EmittedTags(em: seq<EventList>): set<nat>
  {
    set j: nat | j < |em| :: Tag(em[j])
  }

  /** Every live slot holds a logged event with its records, building iff it is open. */
  predicate SlotsLogged(slots: seq<Slot>, g: Log)
  {
    forall i :: 0 <= i < |slots| && Live(slots[i]) ==>
      Tag(slots[i].l) in g.events && g.events[Tag(slots[i].l)] == Logged(slots[i].l, slots[i].Building?)
  }

  /** Every emitted event is a closed event of the log with all its records. */
  predicate EmittedLogged(em: seq<EventList>, g: Log)
  {
    forall j :: 0 <= j < |em| ==> Tag(em[j]) in g.events && g.events[Tag(em[j])] == Logged(em[j], false)
  }

  /** No event is held twice, emitted twice, or both held and emitted. */
  predicate Once(slots: seq<Slot>, em: seq<EventList>)
  {
    && (forall i, j :: 0 <= i < j < |slots| && Live(slots[i]) && Live(slots[j]) ==> Tag(slots[i].l) != Tag(slots[j].l))
    && (forall i, j :: 0 <= i < j < |em| ==> Tag(em[i]) != Tag(em[j]))
    && (forall i, j :: 0 <= i < |slots| && Live(slots[i]) && 0 <= j < |em| ==> Tag(slots[i].l) != Tag(em[j]))
  }

  predicate Links(slots: seq<Slot>, em: seq<EventList>, g: Log)
  {
    && SlotsLogged(slots, g)
    && EmittedLogged(em, g)
    && Once(slots, em)
    && g.events.Keys == LiveTags(slots) + EmittedTags(em)
  }

  /** The table and the emitted events together are exactly the log. */
  predicate Linked(r: Run, g: Log)
  {
    LogInv(g) && TableInv(r.table) && r.lines == g.lines && Links(r.table.slots, r.emitted, g)
  }

  /** The two tables hold events with the same tags in the same slots. */
  predicate SameTags(slots: seq<Slot>, slots': seq<Slot>)
  {
    && |slots'| == |slots|
    && (forall i :: 0 <= i < |slots| ==> Live(slots'[i]) == Live(slots[i]))
    && (forall i :: 0 <= i < |slots| && Live(slots[i]) ==> Tag(slots'[i].l) == Tag(slots[i].l))
  }

  lemma SameTagsKeepOnce(slots: seq<Slot>, slots': seq<Slot>, em: seq<EventList>)
    requires SameTags(slots, slots') && Once(slots, em)
    ensures Once(slots', em) && LiveTags(slots') == LiveTags(slots)
  {
    forall t | t in LiveTags(slots)
      ensures t in LiveTags(slots')
    {
      var i: nat :| i < |slots| && Live(slots[i]) && Tag(slots[i].l) == t;
      assert Live(slots'[i]) && Tag(slots'[i].l) == t;
    }
  }

  lemma RelabelKeepsLinks(slots: seq<Slot>, slots': seq<Slot>, em: seq<EventList>, g: Log, g': Log)
    requires Links(slots, em, g) && SameTags(slots, slots')
    requires g'.events.Keys == g.events.Keys
    requires SlotsLogged(slots', g') && EmittedLogged(em, g')
    ensures Links(slots', em, g')
  {
    SameTagsKeepOnce(slots, slots', em);
  }

  lemma SweepLinked(r: Run, g: Log)
    requires Linked(r, g)
    ensures Linked(Do(r, Free), g)
  {
    SweepKeepsInv(r.table);
    RelabelKeepsLinks(r.table.slots, Sweep(r.table).slots, r.emitted, g, g);
  }

  lemma FinishLinks(t: Table, em: seq<EventList>, g: Log)
    requires Links(t.slots, em, g)
    ensures Links(TerminateAll(t).slots, em, LogTerminate(g))
  {
    RelabelKeepsLinks(t.slots, TerminateAll(t).slots, em, g, LogTerminate(g));
  }

  lemma CheckLinks(t: Table, em: seq<EventList>, g: Log, sec: int)
    requires Links(t.slots, em, g)
    ensures Links(CheckEvents(t, sec).slots, em, LogCheck(g, sec))
  {
    RelabelKeepsLinks(t.slots, CheckEvents(t, sec).slots, em, g, LogCheck(g, sec));
  }

  /** Moving the event of slot `i` from the table to the emitted events. */
  lemma EmitLinks(slots: seq<Slot>, em: seq<EventList>, g: Log, i: nat)
    requires Links(slots, em, g) && i < |slots| && slots[i].Complete?
    ensures Links(slots[i := Empty(Some(slots[i].l))], em + [slots[i].l], g)
  {
    EmitTags(slots, em, i);
    EmitOnce(slots, em, i);
  }

  lemma EmitOnce(slots: seq<Slot>, em: seq<EventList>, i: nat)
    requires Once(slots, em) && i < |slots| && slots[i].Complete?
    ensures Once(slots[i := Empty(Some(slots[i].l))], em + [slots[i].l])
  {
  }

  lemma EmitTags(slots: seq<Slot>, em: seq<EventList>, i: nat)
    requires Once(slots, em) && i < |slots| && slots[i].Complete?
    ensures LiveTags(slots[i := Empty(Some(slots[i].l))]) == LiveTags(slots) - {Tag(slots[i].l)}
    ensures EmittedTags(em + [slots[i].l]) == EmittedTags(em) + {Tag(slots[i].l)}
    ensures Tag(slots[i].l) in LiveTags(slots)
  {
    var l := slots[i].l;
    var slots' := slots[i := Empty(Some(l))];
    forall t | t in LiveTags(slots) && t != Tag(l)
      ensures t in LiveTags(slots')
    {
      var k: nat :| k < |slots| && Live(slots[k]) && Tag(slots[k].l) == t;
      assert Live(slots'[k]) && Tag(slots'[k].l) == t;
    }
    var em' := em + [l];
    assert em'[|em|] == l;
    forall t | t in EmittedTags(em)
      ensures t in EmittedTags(em')
    {
      var k: nat :| k < |em| && Tag(em[k]) == t;
      assert Tag(em'[k]) == t;
    }
  }

  lemma EmitLinked(r: Run, g: Log)
    requires Linked(r, g)
    ensures Linked(Do(r, Emit), g)
  {
    DrainKeepsInv(r.table);
    match ReadySlot(r.table)
    case None =>
    case Some(i) => EmitLinks(r.table.slots, r.emitted, g, i);
  }

  lemma BuildingSlotIsOpen(slots: seq<Slot>, em: seq<EventList>, g: Log, e: EventId)
    requires LogInv(g) && Links(slots, em, g)
    ensures FindBuilding(slots, e, 0) < |slots| <==> e in g.open
    ensures e in g.open ==>
              var l := slots[FindBuilding(slots, e, 0)].l;
              Tag(l) == g.open[e] && l == OpenEvent(g, e) && l.records != []
  {
    if e in g.open {
      assert WellFormed(g.open[e], OpenEvent(g, e).records, g.lines);
      assert g.open[e] !in EmittedTags(em);
      assert g.open[e] in LiveTags(slots);
    }
  }

  lemma AddRecordLinks(slots: seq<Slot>, em: seq<EventList>, g: Log, line: Line, i: nat)
    requires Links(slots, em, g) && line.Entry? && line.e in g.open
    requires i < |slots| && slots[i].Building? && Tag(slots[i].l) == g.open[line.e] && slots[i].l.records != []
    ensures Links(slots[i := Building(Extended(g, line))], em, LogAdd(g, line))
  {
    var slots' := slots[i := Building(Extended(g, line))];
    assert Tag(Extended(g, line)) == Tag(slots[i].l);
    assert SameTags(slots, slots');
    RelabelKeepsLinks(slots, slots', em, g, LogAdd(g, line));
  }

  /** `slots'` is `slots` with a new event in slot `i`, which held none. */
  predicate Adds(slots: seq<Slot>, slots': seq<Slot>, i: nat, l: EventList)
  {
    && |slots| <= |slots'| && i < |slots'| && slots'[i] == Building(l)
    && (i < |slots| ==> !Live(slots[i]))
    && (forall j :: 0 <= j < |slots| && j != i ==> slots'[j] == slots[j])
    && (forall j :: |slots| <= j < |slots'| && j != i ==> !Live(slots'[j]))
  }

  lemma AppendAdds(t: Table, l: EventList)
    requires TableInv(t) && Swept(t.slots)
    ensures Adds(t.slots, Append(t, l).slots, FirstEmpty(t.slots, 0), l)
  {
    AppendKeepsInv(t, l);
  }

  lemma AddsTags(slots: seq<Slot>, slots': seq<Slot>, i: nat, l: EventList)
    requires Adds(slots, slots', i, l)
    ensures LiveTags(slots') == LiveTags(slots) + {Tag(l)}
  {
    forall k | k in LiveTags(slots)
      ensures k in LiveTags(slots')
    {
      var j: nat :| j < |slots| && Live(slots[j]) && Tag(slots[j].l) == k;
      assert Live(slots'[j]) && Tag(slots'[j].l) == k;
    }
  }

  lemma AddsOnce(slots: seq<Slot>, slots': seq<Slot>, em: seq<EventList>, i: nat, l: EventList)
    requires Adds(slots, slots', i, l) && Once(slots, em)
    requires forall j :: 0 <= j < |slots| && Live(slots[j]) ==> Tag(slots[j].l) != Tag(l)
    requires forall j :: 0 <= j < |em| ==> Tag(em[j]) != Tag(l)
    ensures Once(slots', em)
  {
  }

  /** An event with a new tag links the table with the log that has it, too. */
  lemma AddsLinks(slots: seq<Slot>, slots': seq<Slot>, em: seq<EventList>, i: nat, l: EventList, g: Log, g': Log)
    requires Adds(slots, slots', i, l) && Links(slots, em, g) && Tag(l) !in g.events
    requires g'.events == g.events[Tag(l) := Logged(l, true)]
    ensures Links(slots', em, g')
  {
    forall j | 0 <= j < |slots| && Live(slots[j])
      ensures Tag(slots[j].l) != Tag(l)
    {
      assert Tag(slots[j].l) in g.events;
    }
    AddsOnce(slots, slots', em, i, l);
    AddsTags(slots, slots', i, l);
  }

  lemma NewEventLinks(t: Table, em: seq<EventList>, g: Log, line: Line)
    requires TableInv(t) && Swept(t.slots) && Links(t.slots, em, g)
    requires Accepts(g, line) && line.e !in g.open
    requires forall k :: k in g.events ==> k < g.lines
    ensures Links(Append(t, Extended(g, line)).slots, em, LogAdd(g, line))
  {
    var l := Extended(g, line);
    assert Tag(l) == g.lines;
    AppendAdds(t, l);
    AddsLinks(t.slots, Append(t, l).slots, em, FirstEmpty(t.slots, 0), l, g, LogAdd(g, line));
  }

  /** The slots being built are those of the open events, also after a sweep. */
  lemma BuildingAfterSweep(r: Run, g: Log, e: EventId)
    requires Linked(r, g)
    ensures FindBuilding(Sweep(r.table).slots, e, 0) < |r.table.slots| <==> e in g.open
  {
    SweepLinked(r, g);
    BuildingSlotIsOpen(Sweep(r.table).slots, r.emitted, g, e);
  }

  lemma ExtendingLinks(s: Table, em: seq<EventList>, g: Log, line: Line)
    requires LogInv(g) && Links(s.slots, em, g) && line.Entry? && line.e in g.open
    ensures var i := FindBuilding(s.slots, line.e, 0);
            && i < |s.slots|
            && s.slots[i].l.records + [Record(g.lines, line.rtype, line.text)] == Extended(g, line).records
            && var s1 := s.(slots := s.slots[i := Building(Extended(g, line))]);
            Links(CheckEvents(s1, line.e.sec).slots, em, LogIngest(g, line))
  {
    BuildingSlotIsOpen(s.slots, em, g, line.e);
    var i := FindBuilding(s.slots, line.e, 0);
    var s1 := s.(slots := s.slots[i := Building(Extended(g, line))]);
    AddRecordLinks(s.slots, em, g, line, i);
    CheckLinks(s1, em, LogAdd(g, line), line.e.sec);
  }

  lemma OpeningLinks(s: Table, em: seq<EventList>, g: Log, line: Line)
    requires LogInv(g) && TableInv(s) && Swept(s.slots) && Links(s.slots, em, g)
    requires Accepts(g, line) && line.e !in g.open
    ensures FindBuilding(s.slots, line.e, 0) == |s.slots|
    ensures Extended(g, line).records == [Record(g.lines, line.rtype, line.text)]
    ensures Links(CheckEvents(Append(s, Extended(g, line)), line.e.sec).slots, em, LogIngest(g, line))
  {
    BuildingSlotIsOpen(s.slots, em, g, line.e);
    KeysAreOld(g);
    NewEventLinks(s, em, g, line);
    CheckLinks(Append(s, Extended(g, line)), em, LogAdd(g, line), line.e.sec);
  }

  lemma AcceptedLinks(r: Run, g: Log, line: Line)
    requires Linked(r, g) && Accepts(g, line)
    ensures Links(Ingest(r.table, r.lines, line).slots, r.emitted, LogIngest(g, line))
  {
    SweepLinked(r, g);
    SweepKeepsInv(r.table);
    if line.e in g.open {
      ExtendingLinks(Sweep(r.table), r.emitted, g, line);
    } else {
      OpeningLinks(Sweep(r.table), r.emitted, g, line);
    }
  }

  lemma AcceptedLinked(r: Run, g: Log, line: Line)
    requires Linked(r, g) && Accepts(g, line)
    ensures Linked(Do(r, Feed(line)), LogIngest(g, line))
  {
    AcceptedLinks(r, g, line);
    IngestKeepsInv(r.table, r.lines, line);
    LogStepKeepsInv(g, Feed(line));
  }

  lemma RejectedLinked(r: Run, g: Log, line: Line)
    requires Linked(r, g) && !Accepts(g, line)
    ensures Linked(Do(r, Feed(line)), LogIngest(g, line))
  {
    SweepLinked(r, g);
    LogStepKeepsInv(g, Feed(line));
    if line.Entry? {
      BuildingSlotIsOpen(Sweep(r.table).slots, r.emitted, g, line.e);
    }
  }

  lemma StepLinked(r: Run, g: Log, s: Step)
    requires Linked(r, g)
    ensures Linked(Do(r, s), LogStep(g, s))
  {
    LogStepKeepsInv(g, s);
    match s
    case Feed(line) =>
      if Accepts(g, line) {
        AcceptedLinked(r, g, line);
      } else {
        RejectedLinked(r, g, line);
      }
    case Emit => EmitLinked(r, g);
    case Free => SweepLinked(r, g);
    case Finish =>
      RecountKeepsInv(r.table, TerminateAll(r.table).slots);
      FinishLinks(r.table, r.emitted, g);
    case Age(sec) =>
      RecountKeepsInv(r.table, CheckEvents(r.table, sec).slots);
      CheckLinks(r.table, r.emitted, g, sec);
  }

  /** Every run refines the log of its steps. */
  lemma {:induction false} RunRefinesLog(steps: seq<Step>)
    ensures Linked(Exec(steps), LogOf(steps))
  {
    if steps == [] {
      assert CompleteSet(EmptyTable().slots) == {};
    } else {
      var before := steps[..|steps| - 1];
      RunRefinesLog(before);
      StepLinked(Exec(before), LogOf(before), steps[|steps| - 1]);
    }
  }
}
