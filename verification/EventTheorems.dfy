/** What the refinement gives about every run: conservation of lines and events,
    independence from draining, table properties, and emission order. */
module EventTheorems {
  import opened EventTable
  import opened EventLog
  import opened EventRuns

  // ------------------------------------------------------- records in the log

  predicate RecordedAt(g: Log, t: nat, j: nat, r: Record)
  {
    t in g.events && j < |g.events[t].l.records| && g.events[t].l.records[j] == r
  }

  lemma StepKeepsRecord(g: Log, s: Step, t: nat, j: nat, r: Record)
    requires LogInv(g) && RecordedAt(g, t, j, r)
    ensures RecordedAt(LogStep(g, s), t, j, r) && LogStep(g, s).events[t].l.e == g.events[t].l.e
  {
    if s.Feed? && Accepts(g, s.line) {
      AddKeepsRecord(g, s.line, t, j, r);
    }
  }

  lemma AddKeepsRecord(g: Log, line: Line, t: nat, j: nat, r: Record)
    requires LogInv(g) && RecordedAt(g, t, j, r) && Accepts(g, line)
    ensures RecordedAt(LogAdd(g, line), t, j, r) && LogAdd(g, line).events[t].l.e == g.events[t].l.e
  {
    KeysAreOld(g);
  }

  lemma StepAddsOnlyItsLine(g: Log, s: Step, t: nat, j: nat, r: Record)
    requires LogInv(g) && RecordedAt(LogStep(g, s), t, j, r) && !RecordedAt(g, t, j, r)
    ensures s.Feed? && Accepts(g, s.line) && r == Record(g.lines, s.line.rtype, s.line.text)
    ensures LogStep(g, s).events[t].l.e == s.line.e
  {
  }

  lemma StepRecordsItsLine(g: Log, line: Line)
    requires LogInv(g) && Accepts(g, line)
    ensures exists t: nat, j: nat ::
              && RecordedAt(LogStep(g, Feed(line)), t, j, Record(g.lines, line.rtype, line.text))
              && LogStep(g, Feed(line)).events[t].l.e == line.e
  {
    var j := |Extended(g, line).records| - 1;
    assert RecordedAt(LogStep(g, Feed(line)), Home(g, line), j, Record(g.lines, line.rtype, line.text));
  }

  lemma RecordedOnce(g: Log, t: nat, j: nat, r: Record, t': nat, j': nat, r': Record)
    requires LogInv(g) && RecordedAt(g, t, j, r) && RecordedAt(g, t', j', r') && r.line == r'.line
    ensures t == t' && j == j'
  {
    assert WellFormed(t, g.events[t].l.records, g.lines);
  }

  // --------------------------------------------------------------- conservation

  /** The record that the line fed in step `k` becomes, if it is recorded. */
  function LineRecord(steps: seq<Step>, k: nat): Record
    requires k < |steps| && steps[k].Feed? && steps[k].line.Entry?
  {
    Record(LogOf(steps[..k]).lines, steps[k].line.rtype, steps[k].line.text)
  }

  /** Is the line fed in step `k` kept, given what came before it? */
  predicate Kept(steps: seq<Step>, k: nat)
  {
    k < |steps| && steps[k].Feed? && Accepts(LogOf(steps[..k]), steps[k].line)
  }

  lemma {:induction false} KeptLineIsRecorded(steps: seq<Step>, k: nat)
    requires Kept(steps, k)
    ensures exists t: nat, j: nat ::
              RecordedAt(LogOf(steps), t, j, LineRecord(steps, k)) && LogOf(steps).events[t].l.e == steps[k].line.e
  {
    var before := steps[..|steps| - 1];
    var g := LogOf(before);
    LogOfKeepsInv(before);
    if k == |steps| - 1 {
      assert steps[..k] == before && LogOf(steps) == LogStep(g, steps[k]);
      StepRecordsItsLine(g, steps[k].line);
      assert LineRecord(steps, k) == Record(g.lines, steps[k].line.rtype, steps[k].line.text);
    } else {
      assert before[..k] == steps[..k];
      KeptLineIsRecorded(before, k);
      var t: nat, j: nat :| RecordedAt(g, t, j, LineRecord(before, k)) && g.events[t].l.e == steps[k].line.e;
      StepKeepsRecord(g, steps[|steps| - 1], t, j, LineRecord(before, k));
      assert RecordedAt(LogOf(steps), t, j, LineRecord(steps, k));
    }
  }

  /** Nothing is invented: every record is a kept line, under that line's identity. */
  lemma {:induction false} RecordIsKeptLine(steps: seq<Step>, t: nat, j: nat, r: Record) returns (k: nat)
    requires RecordedAt(LogOf(steps), t, j, r)
    ensures Kept(steps, k) && r == LineRecord(steps, k)
    ensures LogOf(steps).events[t].l.e == steps[k].line.e
  {
    var before := steps[..|steps| - 1];
    LogOfKeepsInv(before);
    if RecordedAt(LogOf(before), t, j, r) {
      k := RecordIsKeptLine(before, t, j, r);
      assert before[..k] == steps[..k];
      StepKeepsRecord(LogOf(before), steps[|steps| - 1], t, j, r);
    } else {
      k := |steps| - 1;
      StepAddsOnlyItsLine(LogOf(before), steps[k], t, j, r);
    }
  }

  lemma {:induction false} LinesGrow(steps: seq<Step>, k: nat)
    requires k < |steps| && steps[k].Feed?
    ensures LogOf(steps[..k]).lines < LogOf(steps).lines
  {
    var before := steps[..|steps| - 1];
    if k < |steps| - 1 {
      assert before[..k] == steps[..k];
      LinesGrow(before, k);
    }
  }

  lemma {:induction false} LineNumbersDiffer(steps: seq<Step>, k: nat, k': nat)
    requires k < k' < |steps| && steps[k].Feed?
    ensures LogOf(steps[..k]).lines < LogOf(steps[..k']).lines
  {
    assert steps[..k'][..k] == steps[..k];
    LinesGrow(steps[..k'], k);
  }

  predicate Carries(l: EventList, r: Record)
  {
    r in l.records
  }

  /** The slots holding an event that carries `r`. */
  function Holders(slots: seq<Slot>, r: Record): set<nat>
  {
    set i: nat | i < |slots| && Live(slots[i]) && Carries(slots[i].l, r)
  }

  function Outlets(em: seq<EventList>, r: Record): set<nat>
  {
    set j: nat | j < |em| && Carries(em[j], r)
  }

  lemma RecordedIsCarried(slots: seq<Slot>, em: seq<EventList>, g: Log, t: nat, j: nat, r: Record)
    requires Links(slots, em, g) && RecordedAt(g, t, j, r)
    ensures Holders(slots, r) != {} || Outlets(em, r) != {}
  {
    if t in LiveTags(slots) {
      var i: nat :| i < |slots| && Live(slots[i]) && Tag(slots[i].l) == t;
      assert i in Holders(slots, r);
    } else {
      var i: nat :| i < |em| && Tag(em[i]) == t;
      assert i in Outlets(em, r);
    }
  }

  lemma CarriedIsRecorded(slots: seq<Slot>, em: seq<EventList>, g: Log, r: Record)
    requires SlotsLogged(slots, g) && EmittedLogged(em, g)
    requires Holders(slots, r) != {} || Outlets(em, r) != {}
    ensures exists t: nat, j: nat :: RecordedAt(g, t, j, r)
  {
    var l;
    if i :| i in Holders(slots, r) {
      l := slots[i].l;
    } else {
      var i :| i in Outlets(em, r);
      l := em[i];
    }
    var j: nat :| j < |l.records| && l.records[j] == r;
    assert RecordedAt(g, Tag(l), j, r);
  }

  lemma CarriersShareTag(g: Log, a: EventList, b: EventList, r: Record)
    requires LogInv(g) && Carries(a, r) && Carries(b, r)
    requires Tag(a) in g.events && g.events[Tag(a)].l == a && Tag(b) in g.events && g.events[Tag(b)].l == b
    ensures Tag(a) == Tag(b)
  {
    var j: nat :| j < |a.records| && a.records[j] == r;
    var k: nat :| k < |b.records| && b.records[k] == r;
    RecordedOnce(g, Tag(a), j, r, Tag(b), k, r);
  }

  lemma CarriedOnce(run: Run, g: Log, r: Record)
    requires Linked(run, g)
    ensures forall i, j :: i in Holders(run.table.slots, r) && j in Holders(run.table.slots, r) ==> i == j
    ensures forall i, j :: i in Outlets(run.emitted, r) && j in Outlets(run.emitted, r) ==> i == j
    ensures Holders(run.table.slots, r) == {} || Outlets(run.emitted, r) == {}
  {
    var slots := run.table.slots;
    forall i, j | i in Holders(slots, r) && j in Holders(slots, r)
      ensures i == j
    {
      CarriersShareTag(g, slots[i].l, slots[j].l, r);
    }
    forall i, j | i in Outlets(run.emitted, r) && j in Outlets(run.emitted, r)
      ensures i == j
    {
      CarriersShareTag(g, run.emitted[i], run.emitted[j], r);
    }
    forall i, j | i in Holders(slots, r) && j in Outlets(run.emitted, r)
      ensures false
    {
      CarriersShareTag(g, slots[i].l, run.emitted[j], r);
    }
  }

  lemma SingletonCard(s: set<nat>)
    requires forall i, j :: i in s && j in s ==> i == j
    ensures |s| == if s == {} then 0 else 1
  {
    if i :| i in s {
      assert s == {i};
    }
  }

  /** Conservation over whole runs: at any moment the record of a kept line is in
      exactly one place, a held event or an emitted one, and the event has the
      line's identity; the record of any other line is nowhere. */
  lemma Conservation(steps: seq<Step>, k: nat)
    requires k < |steps| && steps[k].Feed? && steps[k].line.Entry?
    ensures var run, r := Exec(steps), LineRecord(steps, k);
            |Holders(run.table.slots, r)| + |Outlets(run.emitted, r)| == if Kept(steps, k) then 1 else 0
  {
    var run, r, g := Exec(steps), LineRecord(steps, k), LogOf(steps);
    RunRefinesLog(steps);
    CarriedOnce(run, g, r);
    SingletonCard(Holders(run.table.slots, r));
    SingletonCard(Outlets(run.emitted, r));
    if Kept(steps, k) {
      KeptLineIsRecorded(steps, k);
      var t: nat, j: nat :| RecordedAt(g, t, j, r);
      RecordedIsCarried(run.table.slots, run.emitted, g, t, j, r);
    } else if Holders(run.table.slots, r) != {} || Outlets(run.emitted, r) != {} {
      CarriedIsRecorded(run.table.slots, run.emitted, g, r);
      var t: nat, j: nat :| RecordedAt(g, t, j, r);
      var k' := RecordIsKeptLine(steps, t, j, r);
      if k' < k {
        LineNumbersDiffer(steps, k', k);
      } else {
        LineNumbersDiffer(steps, k, k');
      }
    }
  }

  predicate IsHeld(t: Table, l: EventList)
  {
    exists i :: 0 <= i < |t.slots| && Live(t.slots[i]) && t.slots[i].l == l
  }

  /** Every event in the system consists of kept lines of its own identity, in
      arrival order, and only its last record can be of a terminating type. */
  lemma EventsAreKeptLines(steps: seq<Step>, l: EventList)
    requires l in Exec(steps).emitted || IsHeld(Exec(steps).table, l)
    ensures l.records != []
    ensures forall j, j' :: 0 <= j < j' < |l.records| ==> l.records[j].line < l.records[j'].line
    ensures forall j :: 0 <= j < |l.records| - 1 ==> !Terminal(l.records[j].rtype)
    ensures forall j :: 0 <= j < |l.records| ==>
              exists k: nat :: Kept(steps, k) && l.records[j] == LineRecord(steps, k) && steps[k].line.e == l.e
  {
    var g := LogOf(steps);
    RunRefinesLog(steps);
    assert Tag(l) in g.events && g.events[Tag(l)].l == l;
    assert WellFormed(Tag(l), g.events[Tag(l)].l.records, g.lines);
    forall j | 0 <= j < |l.records|
      ensures exists k: nat :: Kept(steps, k) && l.records[j] == LineRecord(steps, k) && steps[k].line.e == l.e
    {
      var k := RecordIsKeptLine(steps, Tag(l), j, l.records[j]);
    }
  }

  // ---------------------------------------------------- independence from drains

  /** The steps that carry input; emissions and sweeps are left out. */
  function Inputs(steps: seq<Step>): seq<Step>
  {
    if steps == [] then [] else
    var rest, s := Inputs(steps[..|steps| - 1]), steps[|steps| - 1];
    if s.Emit? || s.Free? then rest else rest + [s]
  }

  /** Drains and frees do not touch the log, so that it is a function of the other steps. */
  lemma {:induction false} LogIsAFunctionOfInput(steps: seq<Step>)
    ensures LogOf(steps) == LogOf(Inputs(steps))
  {
    if steps != [] {
      var rest := Inputs(steps[..|steps| - 1]);
      LogIsAFunctionOfInput(steps[..|steps| - 1]);
      assert Inputs(steps) != rest ==> Inputs(steps)[..|Inputs(steps)| - 1] == rest;
    }
  }

  function BuildingEvents(t: Table): set<EventList>
  {
    set i: nat | i < |t.slots| && t.slots[i].Building? :: t.slots[i].l
  }

  /** Complete events, whether still held or already emitted. */
  function FinishedEvents(r: Run): set<EventList>
  {
    (set i: nat | i < |r.table.slots| && r.table.slots[i].Complete? :: r.table.slots[i].l) + (set l | l in r.emitted)
  }

  function LoggedEvents(g: Log, open: bool): set<EventList>
  {
    set t | t in g.events && g.events[t].open == open :: g.events[t].l
  }

  lemma BuildingIsOpen(r: Run, g: Log)
    requires Linked(r, g)
    ensures BuildingEvents(r.table) == LoggedEvents(g, true)
  {
    forall l | l in LoggedEvents(g, true)
      ensures l in BuildingEvents(r.table)
    {
      BuildingSlotIsOpen(r.table.slots, r.emitted, g, l.e);
      var i := FindBuilding(r.table.slots, l.e, 0);
      assert r.table.slots[i].Building? && r.table.slots[i].l == l;
    }
  }

  lemma FinishedIsClosed(r: Run, g: Log)
    requires Links(r.table.slots, r.emitted, g)
    ensures FinishedEvents(r) == LoggedEvents(g, false)
  {
    var slots := r.table.slots;
    forall l | l in LoggedEvents(g, false)
      ensures l in FinishedEvents(r)
    {
      var t :| t in g.events && !g.events[t].open && g.events[t].l == l;
      if t in LiveTags(slots) {
        var i: nat :| i < |slots| && Live(slots[i]) && Tag(slots[i].l) == t;
        assert slots[i].Complete? && slots[i].l == l;
      } else {
        var j: nat :| j < |r.emitted| && Tag(r.emitted[j]) == t;
        assert r.emitted[j] == l;
      }
    }
    forall l | l in FinishedEvents(r)
      ensures l in LoggedEvents(g, false)
    {
      assert Tag(l) in g.events;
    }
  }

  /** Where drains and sweeps fall between the inputs changes neither the events
      under construction nor the set of finished ones: grouping depends on the
      input alone. */
  lemma DrainsDoNotChangeGrouping(a: seq<Step>, b: seq<Step>)
    requires Inputs(a) == Inputs(b)
    ensures BuildingEvents(Exec(a).table) == BuildingEvents(Exec(b).table)
    ensures FinishedEvents(Exec(a)) == FinishedEvents(Exec(b))
  {
    LogIsAFunctionOfInput(a);
    LogIsAFunctionOfInput(b);
    RunRefinesLog(a);
    RunRefinesLog(b);
    BuildingIsOpen(Exec(a), LogOf(a));
    BuildingIsOpen(Exec(b), LogOf(b));
    FinishedIsClosed(Exec(a), LogOf(a));
    FinishedIsClosed(Exec(b), LogOf(b));
  }

  // ------------------------------------------------------------ table properties

  /** At most one slot builds an event of each identity. */
  predicate DistinctlyBuilding(slots: seq<Slot>)
  {
    forall i, j :: 0 <= i < j < |slots| && slots[i].Building? && slots[j].Building? ==>
      slots[i].l.e != slots[j].l.e
  }

  /** No event under construction has received a terminating record. */
  predicate NoneTerminated(slots: seq<Slot>)
  {
    forall i :: 0 <= i < |slots| && slots[i].Building? ==>
      slots[i].l.records != [] && !Terminal(slots[i].l.records[|slots[i].l.records| - 1].rtype)
  }

  lemma LinkedTable(r: Run, g: Log)
    requires Linked(r, g)
    ensures DistinctlyBuilding(r.table.slots) && NoneTerminated(r.table.slots)
  {
    var slots := r.table.slots;
    forall i | 0 <= i < |slots| && slots[i].Building?
      ensures slots[i].l.e in g.open && g.open[slots[i].l.e] == Tag(slots[i].l)
      ensures slots[i].l.records != [] && !Terminal(slots[i].l.records[|slots[i].l.records| - 1].rtype)
    {
      assert g.events[Tag(slots[i].l)] == Logged(slots[i].l, true);
      assert WellFormed(Tag(slots[i].l), slots[i].l.records, g.lines);
    }
  }

  /** In every reachable table: the cached count is exact, unused slots own nothing,
      at most one slot builds an event of each identity, and none of those has
      already received a terminating record. */
  lemma TableProperties(steps: seq<Step>)
    ensures TableInv(Exec(steps).table)
    ensures DistinctlyBuilding(Exec(steps).table.slots) && NoneTerminated(Exec(steps).table.slots)
  {
    RunRefinesLog(steps);
    LinkedTable(Exec(steps), LogOf(steps));
  }

  /** After a check at time `sec` no event under construction is two seconds older. */
  lemma CheckLeavesNothingStale(steps: seq<Step>, sec: int)
    ensures forall l :: l in BuildingEvents(Exec(steps + [Age(sec)]).table) ==> l.e.sec + 2 > sec
  {
    var after := steps + [Age(sec)];
    assert after[..|after| - 1] == steps;
    RunRefinesLog(steps);
    RunRefinesLog(after);
    LogCheckKeepsInv(LogOf(steps), sec);
    BuildingIsOpen(Exec(after), LogOf(after));
  }

  // ------------------------------------------------------- how long an event is open

  /** Is the event younger than two seconds at time `sec`, and is its last record of a type
      after which more can follow? */
  predicate Unfinished(l: EventList, sec: int)
  {
    l.records != [] && sec < l.e.sec + 2 &&
    var r := l.records[|l.records| - 1].rtype;
    1300 <= r < 2100 && r != 1320 && r != 1327 && r != 2000 && !(1406 <= r <= 1419)
  }

  lemma ClosesIffFinished(l: EventList, sec: int)
    requires l.records != []
    ensures Closes(l, sec) <==> !Unfinished(l, sec)
  {
  }

  /** The event with the line added, if it is a line of that event. */
  function WithLine(l: EventList, s: Step, n: nat): (r: EventList)
    ensures r.e == l.e
  {
    if s.Feed? && s.line.Entry? && s.line.e == l.e
    then EventList(l.e, l.records + [Record(n, s.line.rtype, s.line.text)]) else l
  }

  function TimeOf(s: Step): int
    requires s.Age? || (s.Feed? && s.line.Entry?)
  {
    if s.Age? then s.sec else s.line.e.sec
  }

  lemma OpenEventAdded(g: Log, line: Line, t: nat)
    requires LogInv(g) && t in g.events && g.events[t].open && Accepts(g, line)
    ensures t in LogAdd(g, line).events
    ensures LogAdd(g, line).events[t] == Logged(WithLine(g.events[t].l, Feed(line), g.lines), true)
  {
    KeysAreOld(g);
    if line.e == g.events[t].l.e {
      assert OpenEvent(g, line.e) == g.events[t].l;
    }
  }

  /** What a line or a check does to an open event, in the log. */
  lemma OpenEventStep(g: Log, s: Step, t: nat)
    requires LogInv(g) && t in g.events && g.events[t].open
    requires s.Age? || (s.Feed? && Accepts(g, s.line))
    ensures var g', l' := LogStep(g, s), WithLine(g.events[t].l, s, g.lines);
            t in g'.events && g'.events[t] == Logged(l', Unfinished(l', TimeOf(s)))
  {
    assert WellFormed(t, g.events[t].l.records, g.lines);
    var l' := WithLine(g.events[t].l, s, g.lines);
    ClosesIffFinished(l', TimeOf(s));
    if s.Feed? {
      OpenEventAdded(g, s.line, t);
    }
  }

  /** A line of an identity that is not open becomes an event of its own. */
  lemma NewEventStep(g: Log, line: Line)
    requires LogInv(g) && line.Entry? && line.e !in g.open && line.rtype != 1320
    ensures var g', l := LogStep(g, Feed(line)), EventList(line.e, [Record(g.lines, line.rtype, line.text)]);
            && g'.events.Keys == g.events.Keys + {g.lines} && g.lines !in g.events
            && g'.events[g.lines] == Logged(l, Unfinished(l, line.e.sec))
  {
    KeysAreOld(g);
    assert Extended(g, line).records == [Record(g.lines, line.rtype, line.text)];
    ClosesIffFinished(Extended(g, line), line.e.sec);
  }

  lemma BuildingTag(r: Run, g: Log, l: EventList)
    requires Linked(r, g)
    ensures l in BuildingEvents(r.table) <==> Tag(l) in g.events && g.events[Tag(l)] == Logged(l, true)
    ensures l in FinishedEvents(r) <==> Tag(l) in g.events && g.events[Tag(l)] == Logged(l, false)
  {
    BuildingIsOpen(r, g);
    FinishedIsClosed(r, g);
    forall t | t in g.events
      ensures Tag(g.events[t].l) == t
    {
      assert WellFormed(t, g.events[t].l.records, g.lines);
    }
  }

  lemma BuildingIdentity(r: Run, g: Log, e: EventId)
    requires Linked(r, g)
    ensures e in g.open <==> exists m :: m in BuildingEvents(r.table) && m.e == e
  {
    BuildingIsOpen(r, g);
    if e in g.open {
      assert g.events[g.open[e]].l in LoggedEvents(g, true);
    }
  }

  /** In every run, an event that is under construction before a line or an age check is
      under construction afterwards, with the line added if it is its own, if and only if
      it is less than two seconds old then and its last record can be followed by more;
      otherwise it is finished. */
  lemma UnderConstructionIff(steps: seq<Step>, s: Step, l: EventList)
    requires l in BuildingEvents(Exec(steps).table)
    requires s.Age? || (s.Feed? && s.line.Entry? && (s.line.rtype == 1320 ==>
               exists m :: m in BuildingEvents(Exec(steps).table) && m.e == s.line.e))
    ensures var after, l' := Exec(steps + [s]), WithLine(l, s, Exec(steps).lines);
            && (l' in BuildingEvents(after.table) <==> Unfinished(l', TimeOf(s)))
            && (l' in FinishedEvents(after) <==> !Unfinished(l', TimeOf(s)))
  {
    var g, all := LogOf(steps), steps + [s];
    assert all[..|steps|] == steps;
    RunRefinesLog(steps);
    RunRefinesLog(all);
    BuildingTag(Exec(steps), g, l);
    if s.Feed? {
      BuildingIdentity(Exec(steps), g, s.line.e);
    }
    OpenEventStep(g, s, Tag(l));
    SameTag(g, l, s);
    BuildingTag(Exec(all), LogOf(all), WithLine(l, s, g.lines));
  }

  lemma SameTag(g: Log, l: EventList, s: Step)
    requires LogInv(g) && Tag(l) in g.events && g.events[Tag(l)].l == l
    ensures Tag(WithLine(l, s, g.lines)) == Tag(l)
  {
    assert WellFormed(Tag(l), l.records, g.lines);
  }

  /** In every run, a line of an identity that is not under construction becomes an event
      of its own, under construction unless its type ends it; a malformed line and a stray
      end-of-event marker change nothing. */
  lemma NewEventIff(steps: seq<Step>, line: Line)
    requires line.Entry? ==> forall m :: m in BuildingEvents(Exec(steps).table) ==> m.e != line.e
    ensures var before, after := Exec(steps), Exec(steps + [Feed(line)]);
            if line.Malformed? || line.rtype == 1320 then
              && BuildingEvents(after.table) == BuildingEvents(before.table)
              && FinishedEvents(after) == FinishedEvents(before)
            else
              var l := EventList(line.e, [Record(before.lines, line.rtype, line.text)]);
              && (l in BuildingEvents(after.table) <==> Unfinished(l, line.e.sec))
              && (l in FinishedEvents(after) <==> !Unfinished(l, line.e.sec))
  {
    var g, all := LogOf(steps), steps + [Feed(line)];
    assert all[..|steps|] == steps;
    RunRefinesLog(steps);
    RunRefinesLog(all);
    if line.Entry? {
      BuildingIdentity(Exec(steps), g, line.e);
    }
    if line.Malformed? || line.rtype == 1320 {
      BuildingIsOpen(Exec(steps), g);
      BuildingIsOpen(Exec(all), LogOf(all));
      FinishedIsClosed(Exec(steps), g);
      FinishedIsClosed(Exec(all), LogOf(all));
    } else {
      NewEventStep(g, line);
      BuildingTag(Exec(all), LogOf(all), LogOf(all).events[g.lines].l);
    }
  }
}
