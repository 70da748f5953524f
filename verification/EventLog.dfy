/** The reference meaning of grouping: a log of every event ever opened, computed
    from the input alone. It has no slots and knows nothing of draining. */
module EventLog {
  import opened EventTable

  /** What can happen to the parser. `Age` is a check against the wall clock. */
  datatype Step = Feed(line: Line) | Emit | Free | Finish | Age(sec: int)

  datatype Logged = Logged(l: EventList, open: bool)

  /** Every event, keyed by the arrival number of its first record; the key of the
      event open under each identity; the number of lines seen. */
  datatype Log = Log(events: map<nat, Logged>, open: map<EventId, nat>, lines: nat)

  const EmptyLog := Log(map[], map[], 0)

  // ------------------------------------------------------------------ invariant

  /** Records of one event: in arrival order, and only the last may be terminal. */
  predicate WellFormed(t: nat, rs: seq<Record>, lines: nat)
  {
    && rs != [] && rs[0].line == t
    && (forall j :: 0 <= j < |rs| ==> rs[j].line < lines)
    && (forall j, k :: 0 <= j < k < |rs| ==> rs[j].line < rs[k].line)
    && (forall j :: 0 <= j < |rs| - 1 ==> !Terminal(rs[j].rtype))
  }

  /** No line is recorded in both events. */
  predicate Disjoint(a: EventList, b: EventList)
  {
    forall j, k :: 0 <= j < |a.records| && 0 <= k < |b.records| ==> a.records[j].line != b.records[k].line
  }

  /** The two maps agree, and at most one event is open under each identity. */
  predicate OpenMatches(g: Log)
  {
    && (forall e :: e in g.open ==> g.open[e] in g.events && g.events[g.open[e]].open && g.events[g.open[e]].l.e == e)
    && (forall t :: t in g.events && g.events[t].open ==> g.events[t].l.e in g.open && g.open[g.events[t].l.e] == t)
  }

  predicate EachWellFormed(g: Log)
  {
    forall t :: t in g.events ==> WellFormed(t, g.events[t].l.records, g.lines)
  }

  predicate AllDisjoint(g: Log)
  {
    forall t, u :: t in g.events && u in g.events && t != u ==> Disjoint(g.events[t].l, g.events[u].l)
  }

  predicate EventsWellFormed(g: Log)
  {
    EachWellFormed(g) && AllDisjoint(g)
  }

  /** An open event is still waiting: its last record is not terminal. */
  predicate OpenNotTerminal(g: Log)
  {
    forall t :: t in g.events && g.events[t].open && g.events[t].l.records != [] ==>
      !Terminal(g.events[t].l.records[|g.events[t].l.records| - 1].rtype)
  }

  predicate LogInv(g: Log)
  {
    OpenMatches(g) && EventsWellFormed(g) && OpenNotTerminal(g)
  }

  // ---------------------------------------------------------------------- steps

  function CheckLogged(x: Logged, sec: int): Logged
  {
    if x.open && Closes(x.l, sec) then Logged(x.l, false) else x
  }

  /** The event open under identity `e`. */
  function OpenEvent(g: Log, e: EventId): EventList
  {
    if e in g.open && g.open[e] in g.events then g.events[g.open[e]].l else EventList(e, [])
  }

  /** Closing every open event that a check at stream time `sec` completes. */
  function LogCheck(g: Log, sec: int): (g': Log)
  {
    Log(map t | t in g.events :: CheckLogged(g.events[t], sec),
        map e | e in g.open && !Closes(OpenEvent(g, e), sec) :: g.open[e],
        g.lines)
  }

  function LogTerminate(g: Log): (g': Log)
  {
    Log(map t | t in g.events :: Logged(g.events[t].l, false), map[], g.lines)
  }

  /** Is the line recorded in some event? Everything is, except malformed lines and
      an end-of-event marker whose event is no longer open. */
  predicate Accepts(g: Log, line: Line)
  {
    line.Entry? && (line.e in g.open || line.rtype != AUDIT_EOE)
  }

  /** The key of the event that records the next line. */
  function Home(g: Log, line: Line): nat
    requires Accepts(g, line)
  {
    if line.e in g.open then g.open[line.e] else g.lines
  }

  /** The event that records the next line, with that line. */
  function Extended(g: Log, line: Line): EventList
    requires Accepts(g, line)
  {
    EventList(line.e, OpenEvent(g, line.e).records + [Record(g.lines, line.rtype, line.text)])
  }

  /** The log with an accepted line recorded, before the completion check. */
  function LogAdd(g: Log, line: Line): (g': Log)
    requires Accepts(g, line)
  {
    Log(g.events[Home(g, line) := Logged(Extended(g, line), true)], g.open[line.e := Home(g, line)], g.lines + 1)
  }

  function LogIngest(g: Log, line: Line): (g': Log)
  {
    if Accepts(g, line) then LogCheck(LogAdd(g, line), line.e.sec) else g.(lines := g.lines + 1)
  }

  function LogStep(g: Log, s: Step): (g': Log)
  {
    match s
    case Feed(line) => LogIngest(g, line)
    case Emit => g
    case Free => g
    case Finish => LogTerminate(g)
    case Age(sec) => LogCheck(g, sec)
  }

  /** The log after a whole run. */
  function LogOf(steps: seq<Step>): Log
  {
    if steps == [] then EmptyLog else LogStep(LogOf(steps[..|steps| - 1]), steps[|steps| - 1])
  }

  // ------------------------------------------------------- the invariant is kept

  lemma KeysAreOld(g: Log)
    requires EachWellFormed(g)
    ensures forall t :: t in g.events ==> t < g.lines
  {
    forall t | t in g.events
      ensures t < g.lines
    {
      assert WellFormed(t, g.events[t].l.records, g.lines);
    }
  }

  lemma SameListsKeepWellFormed(g: Log, g': Log)
    requires EventsWellFormed(g)
    requires g'.events.Keys == g.events.Keys && g'.lines >= g.lines
    requires forall t :: t in g.events ==> g'.events[t].l == g.events[t].l
    ensures EventsWellFormed(g')
  {
  }

  /** After a check no open event is older than two seconds or ends in a terminal record. */
  lemma LogCheckKeepsInv(g: Log, sec: int)
    requires OpenMatches(g) && EventsWellFormed(g)
    ensures LogInv(LogCheck(g, sec))
    ensures forall e :: e in LogCheck(g, sec).open ==> e.sec + 2 > sec
  {
    SameListsKeepWellFormed(g, LogCheck(g, sec));
    LogCheckKeepsOpen(g, sec);
  }

  lemma LogCheckKeepsOpen(g: Log, sec: int)
    requires OpenMatches(g)
    ensures OpenMatches(LogCheck(g, sec))
  {
  }

  lemma ExtendedWellFormed(g: Log, line: Line)
    requires LogInv(g) && Accepts(g, line)
    ensures WellFormed(Home(g, line), Extended(g, line).records, g.lines + 1)
  {
    if line.e in g.open {
      assert WellFormed(g.open[line.e], OpenEvent(g, line.e).records, g.lines);
    }
  }

  lemma ExtendedDisjoint(g: Log, line: Line, t: nat)
    requires LogInv(g) && Accepts(g, line) && t in g.events && t != Home(g, line)
    ensures Disjoint(g.events[t].l, Extended(g, line)) && Disjoint(Extended(g, line), g.events[t].l)
  {
    assert WellFormed(t, g.events[t].l.records, g.lines);
    var rs := Extended(g, line).records;
    forall j, k | 0 <= j < |g.events[t].l.records| && 0 <= k < |rs|
      ensures g.events[t].l.records[j].line != rs[k].line
    {
      if k < |rs| - 1 {
        assert Disjoint(g.events[t].l, g.events[g.open[line.e]].l);
      }
    }
  }

  lemma LogAddKeepsDisjoint(g: Log, line: Line)
    requires LogInv(g) && Accepts(g, line)
    ensures AllDisjoint(LogAdd(g, line))
  {
    var g' := LogAdd(g, line);
    forall t, u | t in g'.events && u in g'.events && t != u
      ensures Disjoint(g'.events[t].l, g'.events[u].l)
    {
      if t == Home(g, line) {
        ExtendedDisjoint(g, line, u);
      } else if u == Home(g, line) {
        ExtendedDisjoint(g, line, t);
      }
    }
  }

  lemma LogAddKeepsOpen(g: Log, line: Line)
    requires OpenMatches(g) && EachWellFormed(g) && Accepts(g, line)
    ensures OpenMatches(LogAdd(g, line))
  {
    KeysAreOld(g);
  }

  lemma LogAddKeepsWellFormed(g: Log, line: Line)
    requires LogInv(g) && Accepts(g, line)
    ensures EventsWellFormed(LogAdd(g, line))
  {
    var g' := LogAdd(g, line);
    forall t | t in g'.events
      ensures WellFormed(t, g'.events[t].l.records, g'.lines)
    {
      if t == Home(g, line) {
        ExtendedWellFormed(g, line);
      } else {
        assert WellFormed(t, g.events[t].l.records, g.lines);
      }
    }
    LogAddKeepsDisjoint(g, line);
  }

  lemma LogStepKeepsInv(g: Log, s: Step)
    requires LogInv(g)
    ensures LogInv(LogStep(g, s))
  {
    match s
    case Feed(line) =>
      if Accepts(g, line) {
        LogAddKeepsOpen(g, line);
        LogAddKeepsWellFormed(g, line);
        LogCheckKeepsInv(LogAdd(g, line), line.e.sec);
      } else {
        SameListsKeepWellFormed(g, LogStep(g, s));
      }
    case Emit =>
    case Free =>
    case Finish => SameListsKeepWellFormed(g, LogStep(g, s));
    case Age(sec) => LogCheckKeepsInv(g, sec);
  }

  lemma {:induction false} LogOfKeepsInv(steps: seq<Step>)
    ensures LogInv(LogOf(steps))
  {
    if steps != [] {
      LogOfKeepsInv(steps[..|steps| - 1]);
      LogStepKeepsInv(LogOf(steps[..|steps| - 1]), steps[|steps| - 1]);
    }
  }
}
