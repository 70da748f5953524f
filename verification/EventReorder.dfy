/** An input on which the parser hands out the same two events in either order, depending
    on whether it is drained between the line that completes the later event and the line
    that opens the earlier one. */
module EventReorder {
  import opened Common
  import opened EventTable
  import opened EventLog
  import opened EventRuns
  import opened EventTheorems
  import opened EventOrder
  import opened EventOutput
  import opened EventPacing

  // ------------------------------------------------------------- what single steps reach

  lemma ClosedIsReady(r: Run, g: Log, t: nat)
    requires Linked(r, g) && g.open == map[] && t in g.events && t !in EmittedTags(r.emitted)
    ensures NoneBuilding(r.table) && r.table.ready > 0
  {
    assert t in LiveTags(r.table.slots);
    var i: nat :| i < |r.table.slots| && Live(r.table.slots[i]) && Tag(r.table.slots[i].l) == t;
    assert i in CompleteSet(r.table.slots);
  }

  lemma LastIsNew(em: seq<EventList>, x: EventList, slots: seq<Slot>)
    requires Once(slots, em + [x])
    ensures Tag(x) !in EmittedTags(em)
  {
    var all := em + [x];
    forall m | 0 <= m < |em|
      ensures Tag(em[m]) != Tag(x)
    {
      assert all[m] == em[m] && all[|em|] == x;
    }
  }

  /** With all events closed, a drain emits one that was not emitted before, if any. */
  lemma EmitsAnother(r: Run, g: Log, t: nat) returns (x: EventList)
    requires Linked(r, g) && g.open == map[] && t in g.events && t !in EmittedTags(r.emitted)
    ensures Do(r, Emit).emitted == r.emitted + [x]
    ensures Tag(x) in g.events && g.events[Tag(x)].l == x && Tag(x) !in EmittedTags(r.emitted)
  {
    ClosedIsReady(r, g, t);
    EmitShrinksReady(r.table);
    x := Drained(r.table).value;
    EmitLinked(r, g);
    LastIsNew(r.emitted, x, Do(r, Emit).table.slots);
    assert Do(r, Emit).emitted[|r.emitted|] == x;
  }

  /** With no event closed, there is nothing to hand out. */
  lemma OpenIsDry(r: Run, g: Log)
    requires Linked(r, g) && forall t :: t in g.events ==> g.events[t].open
    ensures Drained(r.table).None? && Do(r, Emit) == r
  {
    assert SlotsLogged(r.table.slots, g);
  }

  /** What a settled run has come to: its log, its output and its input; with `sorted`, the
      output is in order and no event held is earlier. (Stated of the whole, so that the
      definitions stay folded.) */
  ghost predicate Reaches(steps: seq<Step>, g: Log, em: seq<EventList>, ins: seq<Step>, sorted: bool)
  {
    forall k: nat {:trigger Whole(steps, k)} :: k == |steps| ==>
      && LogOf(Whole(steps, k)) == g && Exec(Whole(steps, k)).emitted == em
      && Inputs(Whole(steps, k)) == ins && Settled(Whole(steps, k))
      && (sorted ==> OrderedFrom(Exec(Whole(steps, k)), 0))
  }

  lemma ReachesMeans(steps: seq<Step>, g: Log, em: seq<EventList>, ins: seq<Step>, sorted: bool)
    ensures Reaches(steps, g, em, ins, sorted) <==>
            && LogOf(steps) == g && Exec(steps).emitted == em && Inputs(steps) == ins && Settled(steps)
            && (sorted ==> OrderedFrom(Exec(steps), 0))
  {
    assert Whole(steps, |steps|) == steps;
  }

  lemma ReachByFeed(steps: seq<Step>, line: Line, g: Log, em: seq<EventList>, ins: seq<Step>, sorted: bool)
    requires Reaches(steps, g, em, ins, sorted) && (DrainsLast(ins) ==> Dry(steps))
    ensures Reaches(steps + [Feed(line)], LogIngest(g, line), em, ins + [Feed(line)], em == [])
  {
    ReachesMeans(steps, g, em, ins, sorted);
    InputKeepsSettled(steps, Feed(line));
    assert (steps + [Feed(line)])[..|steps|] == steps;
    ReachesMeans(steps + [Feed(line)], LogIngest(g, line), em, ins + [Feed(line)], em == []);
  }

  lemma ReachByIdleEmit(steps: seq<Step>, g: Log, em: seq<EventList>, ins: seq<Step>, sorted: bool)
    requires Reaches(steps, g, em, ins, sorted) && forall t :: t in g.events ==> g.events[t].open
    ensures Reaches(steps + [Emit], g, em, ins, sorted) && Dry(steps + [Emit])
  {
    ReachesMeans(steps, g, em, ins, sorted);
    RunRefinesLog(steps);
    OpenIsDry(Exec(steps), g);
    DrainsKeepInput(steps);
    assert (steps + [Emit])[..|steps|] == steps;
    ReachesMeans(steps + [Emit], g, em, ins, sorted);
  }

  lemma ReachByEmit(steps: seq<Step>, g: Log, em: seq<EventList>, ins: seq<Step>, sorted: bool, t: nat)
    returns (x: EventList)
    requires Reaches(steps, g, em, ins, sorted)
    requires g.open == map[] && t in g.events && t !in EmittedTags(em)
    ensures Tag(x) in g.events && g.events[Tag(x)].l == x && Tag(x) !in EmittedTags(em)
    ensures Reaches(steps + [Emit], g, em + [x], ins, sorted)
  {
    ReachesMeans(steps, g, em, ins, sorted);
    RunRefinesLog(steps);
    x := EmitsAnother(Exec(steps), g, t);
    if sorted {
      EmitKeepsOrder(Exec(steps), 0);
    }
    DrainsKeepInput(steps);
    assert (steps + [Emit])[..|steps|] == steps;
    ReachesMeans(steps + [Emit], g, em + [x], ins, sorted);
  }

  lemma ReachesEnd(steps: seq<Step>, g: Log, em: seq<EventList>, ins: seq<Step>, sorted: bool)
    requires Reaches(steps, g, em, ins, sorted) && g.events.Keys == EmittedTags(em)
    ensures ParserRun(steps, ins) && Exec(steps).emitted == em
    ensures sorted ==> Sorted(em)
  {
    ReachesMeans(steps, g, em, ins, sorted);
    RunRefinesLog(steps);
    AllEmitted(Exec(steps), g);
    assert em[0..] == em;
  }

  lemma AllEmitted(r: Run, g: Log)
    requires Linked(r, g) && g.events.Keys == EmittedTags(r.emitted)
    ensures NothingHeld(r.table)
  {
  }

  lemma TagsOf(em: seq<EventList>, x: EventList)
    ensures EmittedTags([]) == {}
    ensures EmittedTags(em + [x]) == EmittedTags(em) + {Tag(x)}
  {
    var all := em + [x];
    assert all[|em|] == x;
    forall t | t in EmittedTags(em)
      ensures t in EmittedTags(all)
    {
      var j: nat :| j < |em| && Tag(em[j]) == t;
      assert all[j] == em[j];
    }
  }

  // ------------------------------------------------------------------------ the example

  /** Two lines of one event, the second of which completes it; then an earlier event that
      consists of one line. */
  predicate ComesLate(first: Line, last: Line, early: Line)
  {
    && first.Entry? && last.Entry? && early.Entry? && first.e == last.e && Before(early.e, first.e)
    && !Terminal(first.rtype) && Terminal(last.rtype)
    && Terminal(early.rtype) && early.rtype != AUDIT_EOE
  }

  function RecordOf(n: nat, line: Line): Record
    requires line.Entry?
  {
    Record(n, line.rtype, line.text)
  }

  function LateEvent(first: Line, last: Line): EventList
    requires first.Entry? && last.Entry?
  {
    EventList(first.e, [RecordOf(0, first), RecordOf(1, last)])
  }

  function EarlyEvent(early: Line): EventList
    requires early.Entry?
  {
    EventList(early.e, [RecordOf(2, early)])
  }

  function Started(first: Line): Log
    requires first.Entry?
  {
    Log(map[0 := Logged(EventList(first.e, [RecordOf(0, first)]), true)], map[first.e := 0], 1)
  }

  function Completed(first: Line, last: Line): Log
    requires first.Entry? && last.Entry?
  {
    Log(map[0 := Logged(LateEvent(first, last), false)], map[], 2)
  }

  function Both(first: Line, last: Line, early: Line): Log
    requires first.Entry? && last.Entry? && early.Entry?
  {
    Log(map[0 := Logged(LateEvent(first, last), false), 2 := Logged(EarlyEvent(early), false)], map[], 3)
  }

  lemma StartedIs(first: Line)
    requires first.Entry? && !Terminal(first.rtype)
    ensures LogIngest(EmptyLog, first) == Started(first)
  {
    assert Extended(EmptyLog, first).records == [RecordOf(0, first)];
    assert LogIngest(EmptyLog, first).events == Started(first).events;
    assert LogIngest(EmptyLog, first).open == Started(first).open;
  }

  lemma CompletedIs(first: Line, last: Line)
    requires first.Entry? && last.Entry? && first.e == last.e && Terminal(last.rtype)
    ensures LogIngest(Started(first), last) == Completed(first, last)
  {
    assert Extended(Started(first), last).records == [RecordOf(0, first), RecordOf(1, last)];
    assert LogIngest(Started(first), last).events == Completed(first, last).events;
    assert LogIngest(Started(first), last).open == Completed(first, last).open;
  }

  lemma BothIs(first: Line, last: Line, early: Line)
    requires first.Entry? && last.Entry? && early.Entry? && Terminal(early.rtype) && early.rtype != AUDIT_EOE
    ensures LogIngest(Completed(first, last), early) == Both(first, last, early)
  {
    assert Extended(Completed(first, last), early).records == [RecordOf(2, early)];
    assert LogIngest(Completed(first, last), early).events == Both(first, last, early).events;
    assert LogIngest(Completed(first, last), early).open == Both(first, last, early).open;
  }

  /** The line that completes the later event is not one after which the parser drains. */
  lemma NoDrainAfterLast(first: Line, last: Line)
    requires first.Entry? && last.Entry? && first.e == last.e && !Terminal(first.rtype)
    ensures !DrainsLast([Feed(first), Feed(last)])
  {
    StartedIs(first);
    var ins := [Feed(first), Feed(last)];
    assert ins[..1] == [Feed(first)] && [Feed(first)][..0] == [];
    assert LogOf([Feed(first)]) == LogStep(LogOf([]), Feed(first));
  }

  /** Taking in the first two lines; the parser drains in between, in vain. */
  lemma LateCompleted(first: Line, last: Line)
    requires first.Entry? && last.Entry? && first.e == last.e && !Terminal(first.rtype) && Terminal(last.rtype)
    ensures Reaches([Feed(first), Emit, Feed(last)], Completed(first, last), [], [Feed(first), Feed(last)], true)
  {
    StartedIs(first);
    ReachesMeans([], EmptyLog, [], [], true);
    ReachByFeed([], first, EmptyLog, [], [], true);
    assert [] + [Feed(first)] == [Feed(first)];
    ReachByIdleEmit([Feed(first)], Started(first), [], [Feed(first)], true);
    CompletedIs(first, last);
    ReachByFeed([Feed(first)] + [Emit], last, Started(first), [], [Feed(first)], true);
    assert [Feed(first)] + [Emit] + [Feed(last)] == [Feed(first), Emit, Feed(last)];
    assert [Feed(first)] + [Feed(last)] == [Feed(first), Feed(last)];
  }

  function Lines(first: Line, last: Line, early: Line): seq<Step>
  {
    [Feed(first), Feed(last), Feed(early)]
  }

  function AtOnce(first: Line, last: Line, early: Line): seq<Step>
  {
    [Feed(first), Emit, Feed(last), Feed(early), Emit, Emit]
  }

  function InTwo(first: Line, last: Line, early: Line): seq<Step>
  {
    [Feed(first), Emit, Feed(last), Emit, Feed(early), Emit]
  }

  /** With both events complete and none handed out, two drains bring out the earlier one
      and then the later. */
  lemma DrainedTogether(steps: seq<Step>, g: Log, ins: seq<Step>, early: EventList, late: EventList)
    requires Reaches(steps, g, [], ins, true) && Before(early.e, late.e) && Tag(early) != Tag(late)
    requires g.events == map[Tag(late) := Logged(late, false), Tag(early) := Logged(early, false)] && g.open == map[]
    ensures ParserRun(steps + [Emit] + [Emit], ins)
    ensures Exec(steps + [Emit] + [Emit]).emitted == [early, late]
  {
    TagsOf([], late);
    var x := ReachByEmit(steps, g, [], ins, true, Tag(late));
    assert [] + [x] == [x];
    TagsOf([], x);
    var other := if x == late then early else late;
    var y := ReachByEmit(steps + [Emit], g, [x], ins, true, Tag(other));
    TagsOf([x], y);
    assert [x] + [y] == [x, y];
    ReachesEnd(steps + [Emit] + [Emit], g, [x, y], ins, true);
    assert [x, y][0] == x && [x, y][1] == y && NotAfter(x.e, y.e);
  }

  /** All lines in one chunk: the earlier event is opened before the later one is drained. */
  lemma FedAtOnce(first: Line, last: Line, early: Line)
    requires ComesLate(first, last, early)
    ensures ParserRun(AtOnce(first, last, early), Lines(first, last, early))
    ensures Exec(AtOnce(first, last, early)).emitted == [EarlyEvent(early), LateEvent(first, last)]
  {
    LateCompleted(first, last);
    BothIs(first, last, early);
    NoDrainAfterLast(first, last);
    var steps, ins := [Feed(first), Emit, Feed(last)], [Feed(first), Feed(last)];
    ReachByFeed(steps, early, Completed(first, last), [], ins, true);
    assert ins + [Feed(early)] == Lines(first, last, early);
    DrainedTogether(steps + [Feed(early)], Both(first, last, early), Lines(first, last, early),
                    EarlyEvent(early), LateEvent(first, last));
    assert steps + [Feed(early)] + [Emit] + [Emit] == AtOnce(first, last, early);
  }

  lemma DrainedApart(steps: seq<Step>, g: Log, ins: seq<Step>, late: EventList, early: Line) returns (y: EventList)
    requires Reaches(steps, g, [], ins, true) && !DrainsLast(ins) && g.open == map[]
    requires g.events == map[Tag(late) := Logged(late, false)]
    requires var g' := LogIngest(g, early);
             g'.open == map[] && exists t: nat :: t != Tag(late) && g'.events.Keys == {Tag(late), t}
    ensures ParserRun(steps + [Emit] + [Feed(early)] + [Emit], ins + [Feed(early)])
    ensures Exec(steps + [Emit] + [Feed(early)] + [Emit]).emitted == [late, y]
    ensures Tag(y) != Tag(late) && Tag(y) in LogIngest(g, early).events && LogIngest(g, early).events[Tag(y)].l == y
  {
    var g' := LogIngest(g, early);
    var t: nat :| t != Tag(late) && g'.events.Keys == {Tag(late), t};
    TagsOf([], late);
    var x := ReachByEmit(steps, g, [], ins, true, Tag(late));
    assert [] + [x] == [late];
    ReachByFeed(steps + [Emit], early, g, [late], ins, true);
    y := ReachByEmit(steps + [Emit] + [Feed(early)], g', [late], ins + [Feed(early)], false, t);
    TagsOf([late], y);
    assert [late] + [y] == [late, y];
    ReachesEnd(steps + [Emit] + [Feed(early)] + [Emit], g', [late, y], ins + [Feed(early)], false);
  }

  /** A chunk boundary before the last line: the later event is drained there. */
  lemma FedInTwo(first: Line, last: Line, early: Line)
    requires ComesLate(first, last, early)
    ensures ParserRun(InTwo(first, last, early), Lines(first, last, early))
    ensures Exec(InTwo(first, last, early)).emitted == [LateEvent(first, last), EarlyEvent(early)]
  {
    LateCompleted(first, last);
    BothIs(first, last, early);
    NoDrainAfterLast(first, last);
    var steps, ins := [Feed(first), Emit, Feed(last)], [Feed(first), Feed(last)];
    assert ins + [Feed(early)] == Lines(first, last, early);
    assert Both(first, last, early).events.Keys == {0, 2};
    var y := DrainedApart(steps, Completed(first, last), ins, LateEvent(first, last), early);
    assert steps + [Emit] + [Feed(early)] + [Emit] == InTwo(first, last, early);
  }

  /** Two runs of the parser on the same lines that differ in one drain, and in the order of
      the output; only one of them is sorted. */
  lemma ChunkBoundaryChangesOrder(first: Line, last: Line, early: Line)
    requires ComesLate(first, last, early)
    ensures var ins, a, b := Lines(first, last, early), AtOnce(first, last, early), InTwo(first, last, early);
            && ParserRun(a, ins) && ParserRun(b, ins)
            && Sorted(Exec(a).emitted) && !Sorted(Exec(b).emitted) && Exec(a).emitted != Exec(b).emitted
  {
    FedAtOnce(first, last, early);
    FedInTwo(first, last, early);
    var em := [LateEvent(first, last), EarlyEvent(early)];
    assert em[0] == LateEvent(first, last) && em[1] == EarlyEvent(early) && !NotAfter(em[0].e, em[1].e);
  }

  /** One such input: two records of an event at second 5, then one of an event at second 3. */
  lemma ReorderedExample()
    ensures var e := EventId(5, 0, 1, None);
            var first, last := Entry(e, 1300, ""), Entry(e, AUDIT_EOE, "");
            var early := Entry(EventId(3, 0, 2, None), 1100, "");
            var ins, a, b := Lines(first, last, early), AtOnce(first, last, early), InTwo(first, last, early);
            && ParserRun(a, ins) && Exec(a).emitted == [EarlyEvent(early), LateEvent(first, last)]
            && ParserRun(b, ins) && Exec(b).emitted == [LateEvent(first, last), EarlyEvent(early)]
  {
    var e := EventId(5, 0, 1, None);
    var first, last := Entry(e, 1300, ""), Entry(e, AUDIT_EOE, "");
    var early := Entry(EventId(3, 0, 2, None), 1100, "");
    FedAtOnce(first, last, early);
    FedInTwo(first, last, early);
  }
}
