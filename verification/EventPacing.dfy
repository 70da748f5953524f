/** The order of the output of the parser's own runs. The parser drains the table dry after
    a line that opens an event, but not after one that completes an event; whether it is
    drained there depends on how the input was chopped. Here is the exact condition on the
    input under which that does not change the order. */
module EventPacing {
  import opened Common
  import opened EventTable
  import opened EventLog
  import opened EventRuns
  import opened EventTheorems
  import opened EventOrder
  import opened EventOutput

  predicate IsInput(s: Step)
  {
    !s.Emit? && !s.Free?
  }

  /** The inputs after which the parser drains the table dry: a line that opens an event, the
      end of the input and a check against the wall clock; no other line. */
  predicate DrainsAt(ins: seq<Step>, k: nat)
  {
    k < |ins| && (OpensAt(ins, k) || ins[k].Finish? || ins[k].Age?)
  }

  predicate DrainsLast(ins: seq<Step>)
  {
    ins != [] && DrainsAt(ins, |ins| - 1)
  }

  predicate Dry(steps: seq<Step>)
  {
    Drained(Exec(steps).table).None?
  }

  /** After such an input nothing more was taken in until there was nothing left to hand
      out. Any other drains may have happened. */
  predicate Settled(steps: seq<Step>)
  {
    steps == [] || (
      var before := steps[..|steps| - 1];
      && Settled(before)
      && (IsInput(steps[|steps| - 1]) && DrainsLast(Inputs(before)) ==> Dry(before)))
  }

  /** Event `t` is complete, and every event under construction is later. */
  predicate Ripe(g: Log, t: nat)
  {
    && t in g.events && !g.events[t].open
    && (forall u :: u in g.events && g.events[u].open ==> Before(g.events[t].l.e, g.events[u].l.e))
  }

  /** Was the event ripe after input `j`, where the parser drains? */
  predicate ReleasedAt(ins: seq<Step>, j: nat, t: nat)
  {
    DrainsAt(ins, j) && Ripe(LogOf(ins[..j + 1]), t)
  }

  ghost predicate Released(ins: seq<Step>, t: nat)
  {
    exists j: nat :: ReleasedAt(ins, j, t)
  }

  /** Input `q` opens an event that is earlier than `t`, which is ripe by then, but was not
      ripe at any point so far where the parser had to drain. */
  ghost predicate Overtaken(ins: seq<Step>, q: nat, t: nat)
  {
    && OpensAt(ins, q) && Ripe(LogOf(ins[..q]), t) && !Released(ins[..q], t)
    && Before(ins[q].line.e, LogOf(ins[..q]).events[t].l.e)
  }

  ghost predicate Steady(ins: seq<Step>)
  {
    forall q: nat, t: nat :: !Overtaken(ins, q, t)
  }

  /** A run of the parser on this input, up to the point where nothing is held. */
  ghost predicate ParserRun(steps: seq<Step>, ins: seq<Step>)
  {
    Inputs(steps) == ins && Settled(steps) && NothingHeld(Exec(steps).table)
  }

  // ------------------------------------------------------------- what a drain hands out

  lemma HandedOutIsRipe(r: Run, g: Log)
    requires Linked(r, g) && DistinctStamps(g) && Drained(r.table).Some?
    ensures Ripe(g, Tag(Drained(r.table).value))
  {
    var i := ReadySlot(r.table).value;
    var t := Tag(r.table.slots[i].l);
    forall u | u in g.events && g.events[u].open
      ensures Before(g.events[t].l.e, g.events[u].l.e)
    {
      assert u in LiveTags(r.table.slots);
      var j: nat :| j < |r.table.slots| && Live(r.table.slots[j]) && Tag(r.table.slots[j].l) == u;
      assert NotAfter(r.table.slots[i].l.e, r.table.slots[j].l.e);
    }
  }

  lemma NoneRipeIsHeld(r: Run, g: Log, i: nat)
    requires Linked(r, g) && Drained(r.table).None? && i < |r.table.slots| && Live(r.table.slots[i])
    ensures !Ripe(g, Tag(r.table.slots[i].l))
  {
    var k := Lowest(r.table.slots, |r.table.slots|).value;
    assert g.events[Tag(r.table.slots[k].l)].open;
  }

  lemma RipeIsHandedOut(r: Run, g: Log, t: nat)
    requires Linked(r, g) && Drained(r.table).None? && Ripe(g, t)
    ensures t in EmittedTags(r.emitted)
  {
    forall i: nat | i < |r.table.slots| && Live(r.table.slots[i])
      ensures Tag(r.table.slots[i].l) != t
    {
      NoneRipeIsHeld(r, g, i);
    }
    assert t !in LiveTags(r.table.slots);
  }

  /** What is ripe stays so, unless an earlier event is opened. */
  lemma RipeStays(g: Log, s: Step, t: nat)
    requires LogInv(g) && Ripe(g, t)
    requires s.Feed? && Opens(g, s.line) ==> Before(g.events[t].l.e, s.line.e)
    ensures Ripe(LogStep(g, s), t)
  {
    var g' := LogStep(g, s);
    StepKeepsIdentity(g, s, t);
    KeysAreOld(g);
    forall u | u in g'.events && g'.events[u].open
      ensures Before(g'.events[t].l.e, g'.events[u].l.e)
    {
      if u in g.events {
        StepKeepsIdentity(g, s, u);
      }
    }
  }

  lemma StepKeepsIdentity(g: Log, s: Step, t: nat)
    requires LogInv(g) && t in g.events
    ensures t in LogStep(g, s).events && LogStep(g, s).events[t].l.e == g.events[t].l.e
    ensures !g.events[t].open ==> !LogStep(g, s).events[t].open
  {
    assert WellFormed(t, g.events[t].l.records, g.lines);
    StepKeepsRecord(g, s, t, 0, g.events[t].l.records[0]);
  }

  // ----------------------------------------------------------------------- draining dry

  /** As many drains as there can be events to hand out. */
  function Settle(steps: seq<Step>): seq<Step>
  {
    steps + EmitTimes(|CompleteSet(Exec(steps).table.slots)|)
  }

  lemma DrainsKeepInput(steps: seq<Step>)
    ensures Exec(steps + [Emit]) == Do(Exec(steps), Emit) && Inputs(steps + [Emit]) == Inputs(steps)
    ensures Settled(steps + [Emit]) == Settled(steps)
  {
    assert (steps + [Emit])[..|steps|] == steps;
  }

  /** Draining a dry table changes nothing; otherwise it takes out one complete event. */
  lemma DrainCounts(t: Table)
    requires TableInv(t)
    ensures TableInv(Drain(t))
    ensures if Drained(t).None? then Drain(t) == t else Drain(t).ready == t.ready - 1
  {
    DrainKeepsInv(t);
  }

  lemma {:induction false} DrainsDry(steps: seq<Step>, n: nat)
    requires TableInv(Exec(steps).table) && (Dry(steps) || Exec(steps).table.ready <= n)
    ensures Dry(steps + EmitTimes(n)) && Inputs(steps + EmitTimes(n)) == Inputs(steps)
    ensures Settled(steps + EmitTimes(n)) == Settled(steps)
    decreases n
  {
    if n == 0 {
      if Exec(steps).table.ready == 0 {
        ReadyCountDecidesEmptyScan(Exec(steps).table);
      }
      assert steps + EmitTimes(0) == steps;
    } else {
      DrainsKeepInput(steps);
      DrainCounts(Exec(steps).table);
      DrainsDry(steps + [Emit], n - 1);
      assert steps + [Emit] + EmitTimes(n - 1) == steps + EmitTimes(n);
    }
  }

  lemma SettleIsDry(steps: seq<Step>)
    ensures Dry(Settle(steps)) && Inputs(Settle(steps)) == Inputs(steps) && Settled(Settle(steps)) == Settled(steps)
    ensures steps <= Settle(steps)
  {
    RunRefinesLog(steps);
    DrainsDry(steps, |CompleteSet(Exec(steps).table.slots)|);
  }

  /** With every event complete, a dry table is empty. */
  lemma DryIsEmpty(r: Run, g: Log)
    requires Linked(r, g) && Drained(r.table).None? && g.open == map[]
    ensures NothingHeld(r.table)
  {
    forall i | 0 <= i < |r.table.slots|
      ensures !Live(r.table.slots[i])
    {
      if Live(r.table.slots[i]) {
        NoneRipeIsHeld(r, g, i);
      }
    }
  }

  // -------------------------------------------------------------------- the laziest run

  /** Draining dry if the parser has to. */
  function Rest(steps: seq<Step>): seq<Step>
  {
    if DrainsLast(Inputs(steps)) then Settle(steps) else steps
  }

  lemma RestIsDry(steps: seq<Step>)
    ensures Inputs(Rest(steps)) == Inputs(steps) && Settled(Rest(steps)) == Settled(steps)
    ensures steps <= Rest(steps) && (DrainsLast(Inputs(steps)) ==> Dry(Rest(steps)))
  {
    SettleIsDry(steps);
  }

  lemma InputKeepsSettled(steps: seq<Step>, s: Step)
    requires IsInput(s) && Settled(steps) && (DrainsLast(Inputs(steps)) ==> Dry(steps))
    ensures Settled(steps + [s]) && Inputs(steps + [s]) == Inputs(steps) + [s]
    ensures Exec(steps + [s]) == Do(Exec(steps), s)
  {
    assert (steps + [s])[..|steps|] == steps;
  }

  /** Resting, then taking in one more input. */
  function Take(steps: seq<Step>, s: Step): (r: seq<Step>)
  {
    Rest(steps) + [s]
  }

  /** A settled run on this input. (Stated of the whole, so that the definitions stay
      folded.) */
  ghost predicate Paces(steps: seq<Step>, ins: seq<Step>)
  {
    forall k: nat {:trigger Whole(steps, k)} :: k == |steps| ==>
      Settled(Whole(steps, k)) && Inputs(Whole(steps, k)) == ins
  }

  lemma PacesMeans(steps: seq<Step>, ins: seq<Step>)
    ensures Paces(steps, ins) <==> Settled(steps) && Inputs(steps) == ins
  {
    assert Whole(steps, |steps|) == steps;
  }

  lemma TakePaces(start: seq<Step>, steps: seq<Step>, ins: seq<Step>, s: Step)
    requires Paces(steps, ins) && IsInput(s) && start <= steps
    ensures Paces(Take(steps, s), ins + [s]) && start <= Take(steps, s)
    ensures Exec(Take(steps, s)) == Do(Exec(Rest(steps)), s)
  {
    PacesMeans(steps, ins);
    RestIsDry(steps);
    InputKeepsSettled(Rest(steps), s);
    PacesMeans(Take(steps, s), ins + [s]);
  }

  /** Taking in more input after a run, draining only where the parser has to. */
  function Resume(steps: seq<Step>, more: seq<Step>): seq<Step>
  {
    if more == [] then steps else Take(Resume(steps, more[..|more| - 1]), more[|more| - 1])
  }

  predicate AllInput(ins: seq<Step>)
  {
    forall k :: 0 <= k < |ins| ==> IsInput(ins[k])
  }

  lemma {:induction false} ResumePaces(steps: seq<Step>, ins: seq<Step>, more: seq<Step>)
    requires Paces(steps, ins) && AllInput(more)
    ensures Paces(Resume(steps, more), ins + more) && steps <= Resume(steps, more)
  {
    if more == [] {
      assert ins + more == ins;
    } else {
      var before, s := more[..|more| - 1], more[|more| - 1];
      ResumePaces(steps, ins, before);
      TakePaces(steps, Resume(steps, before), ins + before, s);
      Snoc(ins, more);
    }
  }

  function Lazy(ins: seq<Step>): seq<Step>
  {
    Resume([], ins)
  }

  // ------------------------------------------------- a steady input fixes the order

  /** The run has handed out `c` and then, in order, only events that are ripe and no later
      than what it holds. */
  ghost predicate Extends(r: Run, g: Log, c: seq<EventList>)
  {
    && c <= r.emitted && OrderedFrom(r, |c|)
    && (forall j :: |c| <= j < |r.emitted| ==> Ripe(g, Tag(r.emitted[j])))
  }

  lemma EmitExtends(r: Run, g: Log, c: seq<EventList>)
    requires Linked(r, g) && DistinctStamps(g) && Extends(r, g, c)
    ensures Extends(Do(r, Emit), g, c)
  {
    var em := Do(r, Emit).emitted;
    EmitKeepsOrder(r, |c|);
    forall j | |c| <= j < |em|
      ensures Ripe(g, Tag(em[j]))
    {
      if j < |r.emitted| {
        assert em[j] == r.emitted[j];
      } else {
        HandedOutIsRipe(r, g);
      }
    }
  }

  lemma StepExtends(r: Run, g: Log, s: Step, c: seq<EventList>)
    requires Linked(r, g) && Extends(r, g, c) && !s.Emit?
    requires s.Feed? && Opens(g, s.line) ==>
               forall j :: |c| <= j < |r.emitted| ==> Before(r.emitted[j].e, s.line.e)
    ensures Extends(Do(r, s), LogStep(g, s), c)
  {
    StepKeepsOrder(r, g, s, |c|);
    forall j | |c| <= j < |r.emitted|
      ensures Ripe(LogStep(g, s), Tag(r.emitted[j]))
    {
      RipeStays(g, s, Tag(r.emitted[j]));
    }
  }

  lemma NothingAdded(r: Run, g: Log)
    ensures Extends(r, g, r.emitted)
  {
  }

  lemma {:induction false} EmitsExtend(steps: seq<Step>, g: Log, c: seq<EventList>, n: nat)
    requires LogOf(steps) == g && DistinctStamps(g) && Extends(Exec(steps), g, c)
    ensures Extends(Exec(steps + EmitTimes(n)), g, c)
    decreases n
  {
    if n == 0 {
      assert steps + EmitTimes(0) == steps;
    } else {
      RunRefinesLog(steps);
      EmitExtends(Exec(steps), g, c);
      assert (steps + [Emit])[..|steps|] == steps;
      EmitsExtend(steps + [Emit], g, c, n - 1);
      assert steps + [Emit] + EmitTimes(n - 1) == steps + EmitTimes(n);
    }
  }

  lemma AddedIsAddedToo(r: Run, r': Run, g: Log, c: seq<EventList>, l: EventList)
    requires Linked(r, g) && Extends(r, g, c) && Linked(r', g) && Extends(r', g, c) && Drained(r'.table).None?
    requires l in r.emitted[|c|..]
    ensures l in r'.emitted[|c|..]
  {
    var i :| 0 <= i < |r.emitted[|c|..]| && r.emitted[|c|..][i] == l;
    assert l == r.emitted[|c| + i];
    forall k | 0 <= k < |c|
      ensures Tag(r'.emitted[k]) != Tag(l)
    {
      assert r.emitted[k] == c[k] && r'.emitted[k] == c[k];
    }
    RipeIsHandedOut(r', g, Tag(l));
    var m: nat :| m < |r'.emitted| && Tag(r'.emitted[m]) == Tag(l);
    assert r'.emitted[|c|..][m - |c|] == l;
  }

  /** Two runs that have come to a rest on the same log have handed out the same. */
  lemma SameAtRest(r: Run, r': Run, g: Log, c: seq<EventList>)
    requires Linked(r, g) && Linked(r', g) && DistinctStamps(g)
    requires Extends(r, g, c) && Drained(r.table).None?
    requires Extends(r', g, c) && Drained(r'.table).None?
    ensures r.emitted == r'.emitted
  {
    SortedIsStrict(r, g, |c|);
    SortedIsStrict(r', g, |c|);
    forall l
      ensures l in r.emitted[|c|..] <==> l in r'.emitted[|c|..]
    {
      if l in r.emitted[|c|..] {
        AddedIsAddedToo(r, r', g, c, l);
      }
      if l in r'.emitted[|c|..] {
        AddedIsAddedToo(r', r, g, c, l);
      }
    }
    SortedIsUnique(r.emitted[|c|..], r'.emitted[|c|..]);
    assert r.emitted == c + r.emitted[|c|..] && r'.emitted == c + r'.emitted[|c|..];
  }

  // the laziest run, one input at a time

  lemma LazyPaces(ins: seq<Step>)
    requires AllInput(ins)
    ensures Paces(Lazy(ins), ins)
  {
    PacesMeans([], []);
    ResumePaces([], [], ins);
    assert [] + ins == ins;
  }

  lemma LazyLog(ins: seq<Step>)
    requires AllInput(ins)
    ensures Inputs(Lazy(ins)) == ins && Settled(Lazy(ins)) && LogOf(Lazy(ins)) == LogOf(ins)
    ensures Linked(Exec(Lazy(ins)), LogOf(ins))
  {
    LazyPaces(ins);
    PacesMeans(Lazy(ins), ins);
    LogIsAFunctionOfInput(Lazy(ins));
    RunRefinesLog(Lazy(ins));
  }

  lemma RestLog(steps: seq<Step>)
    ensures LogOf(Rest(steps)) == LogOf(steps) && Linked(Exec(Rest(steps)), LogOf(steps))
    ensures Exec(steps).emitted <= Exec(Rest(steps)).emitted
  {
    RestIsDry(steps);
    LogIsAFunctionOfInput(steps);
    LogIsAFunctionOfInput(Rest(steps));
    RunRefinesLog(Rest(steps));
    EmittedGrows(Rest(steps), |steps|);
    assert Rest(steps)[..|steps|] == steps;
  }

  function LazyOutput(ins: seq<Step>): seq<EventList>
  {
    Exec(Lazy(ins)).emitted
  }

  lemma TakeOutput(steps: seq<Step>, ins: seq<Step>, s: Step)
    requires Paces(steps, ins) && IsInput(s)
    ensures Exec(Take(steps, s)).emitted == Exec(Rest(steps)).emitted
    ensures Exec(steps).emitted <= Exec(Take(steps, s)).emitted
  {
    TakePaces([], steps, ins, s);
    RestLog(steps);
  }

  /** With one more input, the laziest run has handed out what it had at its last rest. */
  lemma LazyStep(ins: seq<Step>)
    requires ins != [] && AllInput(ins)
    ensures LazyOutput(ins) == Exec(Rest(Lazy(ins[..|ins| - 1]))).emitted
    ensures LazyOutput(ins[..|ins| - 1]) <= LazyOutput(ins)
  {
    var before := ins[..|ins| - 1];
    LazyPaces(before);
    TakeOutput(Lazy(before), before, ins[|ins| - 1]);
  }

  lemma {:induction false} LazyContinues(ins: seq<Step>, k: nat)
    requires AllInput(ins) && k <= |ins|
    ensures Lazy(ins[..k]) <= Lazy(ins)
  {
    if k == |ins| {
      assert ins[..k] == ins;
    } else {
      var before := ins[..|ins| - 1];
      assert before[..k] == ins[..k];
      LazyContinues(before, k);
      LazyPaces(before);
      TakePaces(Lazy(ins[..k]), Lazy(before), before, ins[|ins| - 1]);
    }
  }

  lemma LazyOutputGrows(ins: seq<Step>, k: nat)
    requires AllInput(ins) && k <= |ins|
    ensures LazyOutput(ins[..k]) <= LazyOutput(ins)
  {
    LazyContinues(ins, k);
    EmittedGrows(Lazy(ins), |Lazy(ins[..k])|);
    assert Lazy(ins)[..|Lazy(ins[..k])|] == Lazy(ins[..k]);
  }

  lemma SamePoint(ins: seq<Step>, n: nat, j: nat, t: nat)
    requires j < n <= |ins|
    ensures ReleasedAt(ins[..n], j, t) == ReleasedAt(ins, j, t)
  {
    assert ins[..n][..j] == ins[..j] && ins[..n][..j + 1] == ins[..j + 1];
  }

  lemma RipeAtRestIsOut(ins: seq<Step>, t: nat)
    requires AllInput(ins) && ins != [] && ReleasedAt(ins, |ins| - 1, t)
    ensures t in EmittedTags(Exec(Rest(Lazy(ins))).emitted)
  {
    assert ins[..|ins|] == ins;
    LazyLog(ins);
    RestIsDry(Lazy(ins));
    RestLog(Lazy(ins));
    RipeIsHandedOut(Exec(Rest(Lazy(ins))), LogOf(ins), t);
  }

  /** What was ripe where the parser drains is out by the next input. */
  lemma ReleasedIsOut(ins: seq<Step>, j: nat, t: nat)
    requires AllInput(ins) && ReleasedAt(ins, j, t) && j + 1 < |ins|
    ensures t in EmittedTags(LazyOutput(ins))
  {
    var upto := ins[..j + 2];
    assert upto[..j + 1] == ins[..j + 1];
    SamePoint(ins, j + 1, j, t);
    RipeAtRestIsOut(ins[..j + 1], t);
    LazyStep(upto);
    LazyOutputGrows(ins, j + 2);
    TagsGrow(LazyOutput(upto), LazyOutput(ins), t);
  }

  lemma TagsGrow(em: seq<EventList>, em': seq<EventList>, t: nat)
    requires em <= em' && t in EmittedTags(em)
    ensures t in EmittedTags(em')
  {
    var j: nat :| j < |em| && Tag(em[j]) == t;
    assert em'[j] == em[j];
  }

  // any settled run, compared with the laziest

  lemma {:induction false} InputsAreInput(steps: seq<Step>)
    ensures AllInput(Inputs(steps))
  {
    if steps != [] {
      InputsAreInput(steps[..|steps| - 1]);
    }
  }

  lemma SteadyPrefix(ins: seq<Step>, n: nat)
    requires Steady(ins) && n <= |ins|
    ensures Steady(ins[..n])
  {
    var before := ins[..n];
    forall q: nat, t: nat
      ensures !Overtaken(before, q, t)
    {
      if q < n {
        assert before[..q] == ins[..q];
        assert !Overtaken(ins, q, t);
      }
    }
  }

  lemma AddedIsNew(r: Run, g: Log, c: seq<EventList>, j: nat)
    requires Linked(r, g) && c <= r.emitted && |c| <= j < |r.emitted|
    ensures Tag(r.emitted[j]) !in EmittedTags(c)
  {
    forall m: nat | m < |c|
      ensures Tag(c[m]) != Tag(r.emitted[j])
    {
      assert c[m] == r.emitted[m];
    }
  }

  lemma StillUnreleased(ins: seq<Step>, t: nat)
    requires AllInput(ins) && !DrainsLast(ins) && t !in EmittedTags(LazyOutput(ins))
    ensures !Released(ins, t)
  {
    forall i: nat | ReleasedAt(ins, i, t)
      ensures false
    {
      ReleasedIsOut(ins, i, t);
    }
  }

  /** An event opened under a steady input is later than an unreleased ripe one. */
  lemma OpenedLater(ins: seq<Step>, line: Line, t: nat)
    requires Steady(ins + [Feed(line)]) && DistinctStamps(LogOf(ins + [Feed(line)]))
    requires Opens(LogOf(ins), line) && Ripe(LogOf(ins), t) && !Released(ins, t)
    ensures Before(LogOf(ins).events[t].l.e, line.e)
  {
    var all, q := ins + [Feed(line)], |ins|;
    assert all[..q] == ins && all[..q + 1] == all;
    assert OpensAt(all, q) && !Overtaken(all, q, t);
    OpenedIsLogged(all, q);
    LogOfKeepsInv(ins);
    KeysAreOld(LogOf(ins));
    EventPersists(all, q, t);
  }

  lemma SteadyOpening(r: Run, ins: seq<Step>, line: Line, j: nat)
    requires AllInput(ins) && Steady(ins + [Feed(line)]) && DistinctStamps(LogOf(ins + [Feed(line)]))
    requires Linked(r, LogOf(ins)) && Extends(r, LogOf(ins), LazyOutput(ins)) && !DrainsLast(ins)
    requires Opens(LogOf(ins), line) && |LazyOutput(ins)| <= j < |r.emitted|
    ensures Before(r.emitted[j].e, line.e)
  {
    AddedIsNew(r, LogOf(ins), LazyOutput(ins), j);
    StillUnreleased(ins, Tag(r.emitted[j]));
    OpenedLater(ins, line, Tag(r.emitted[j]));
  }

  lemma OpenedIsLogged(steps: seq<Step>, k: nat)
    requires OpensAt(steps, k)
    ensures var u := LogOf(steps[..k]).lines;
            u in LogOf(steps[..k + 1]).events && LogOf(steps[..k + 1]).events[u].l.e == steps[k].line.e
  {
    assert steps[..k + 1][..k] == steps[..k];
  }

  lemma RestedSame(steps: seq<Step>, ins: seq<Step>)
    requires AllInput(ins) && Inputs(steps) == ins && DrainsLast(ins) && Dry(steps) && DistinctStamps(LogOf(ins))
    requires Extends(Exec(steps), LogOf(ins), LazyOutput(ins))
    ensures Exec(steps).emitted == Exec(Rest(Lazy(ins))).emitted
  {
    LazyLog(ins);
    LogIsAFunctionOfInput(steps);
    RunRefinesLog(steps);
    RestLog(Lazy(ins));
    RestIsDry(Lazy(ins));
    NothingAdded(Exec(Lazy(ins)), LogOf(ins));
    EmitsExtend(Lazy(ins), LogOf(ins), LazyOutput(ins), |CompleteSet(Exec(Lazy(ins)).table.slots)|);
    SameAtRest(Exec(steps), Exec(Rest(Lazy(ins))), LogOf(ins), LazyOutput(ins));
  }

  lemma InputExtendsLazy(steps: seq<Step>, ins: seq<Step>, s: Step)
    requires AllInput(ins) && Inputs(steps) == ins && IsInput(s) && (DrainsLast(ins) ==> Dry(steps))
    requires Steady(ins + [s]) && DistinctStamps(LogOf(ins + [s]))
    requires Extends(Exec(steps), LogOf(ins), LazyOutput(ins))
    ensures Extends(Do(Exec(steps), s), LogStep(LogOf(ins), s), LazyOutput(ins + [s]))
  {
    var r, all := Exec(steps), ins + [s];
    assert all[..|ins|] == ins;
    LogIsAFunctionOfInput(steps);
    RunRefinesLog(steps);
    LazyStep(all);
    LazyLog(ins);
    if DrainsLast(ins) {
      StampsWereDistinct(all, |ins|);
      RestedSame(steps, ins);
      NothingAdded(r, LogOf(ins));
    } else if s.Feed? && Opens(LogOf(ins), s.line) {
      forall j | |LazyOutput(ins)| <= j < |r.emitted|
        ensures Before(r.emitted[j].e, s.line.e)
      {
        SteadyOpening(r, ins, s.line, j);
      }
    }
    StepExtends(r, LogOf(ins), s, LazyOutput(all));
  }

  lemma {:induction false} RunExtendsLazy(steps: seq<Step>)
    requires Settled(steps) && Steady(Inputs(steps)) && DistinctStamps(LogOf(Inputs(steps)))
    ensures Extends(Exec(steps), LogOf(Inputs(steps)), LazyOutput(Inputs(steps)))
  {
    var ins := Inputs(steps);
    if steps == [] {
      NothingAdded(Exec(steps), LogOf(ins));
    } else {
      var before, s := steps[..|steps| - 1], steps[|steps| - 1];
      LogIsAFunctionOfInput(before);
      RunRefinesLog(before);
      InputsAreInput(before);
      if IsInput(s) {
        assert ins[..|ins| - 1] == Inputs(before);
        SteadyPrefix(ins, |ins| - 1);
        StampsWereDistinct(ins, |ins| - 1);
        RunExtendsLazy(before);
        InputExtendsLazy(before, Inputs(before), s);
      } else {
        RunExtendsLazy(before);
        if s.Emit? {
          EmitExtends(Exec(before), LogOf(ins), LazyOutput(ins));
        } else {
          StepExtends(Exec(before), LogOf(ins), s, LazyOutput(ins));
        }
      }
    }
  }

  lemma SteadyFixesOrder(a: seq<Step>, b: seq<Step>, ins: seq<Step>)
    requires Steady(ins) && DistinctStamps(LogOf(ins)) && ParserRun(a, ins) && ParserRun(b, ins)
    ensures Exec(a).emitted == Exec(b).emitted
  {
    RunExtendsLazy(a);
    RunExtendsLazy(b);
    LogIsAFunctionOfInput(a);
    LogIsAFunctionOfInput(b);
    RunRefinesLog(a);
    RunRefinesLog(b);
    SameAtRest(Exec(a), Exec(b), LogOf(ins), LazyOutput(ins));
  }

  // --------------------------------------- an unsteady input leaves the order open

  /** `t` has not come out before `u`. */
  ghost predicate Precedes(em: seq<EventList>, u: nat, t: nat)
  {
    forall i: nat :: i < |em| && Tag(em[i]) == t ==> u in EmittedTags(em[..i])
  }

  lemma HandedOutBefore(r: Run, g: Log, t: nat, u: nat) returns (j: nat)
    requires Linked(r, g) && t in g.events && u in g.events && Before(g.events[u].l.e, g.events[t].l.e)
    requires Drained(r.table).Some? && Tag(Drained(r.table).value) == t
    ensures j < |r.emitted| && Tag(r.emitted[j]) == u
  {
    forall i: nat | i < |r.table.slots| && Live(r.table.slots[i])
      ensures Tag(r.table.slots[i].l) != u
    {
      assert NotAfter(r.table.slots[ReadySlot(r.table).value].l.e, r.table.slots[i].l.e);
    }
    assert u !in LiveTags(r.table.slots);
    j :| j < |r.emitted| && Tag(r.emitted[j]) == u;
  }

  lemma StepKeepsPrecedence(r: Run, g: Log, s: Step, t: nat, u: nat)
    requires Linked(r, g) && t in g.events && u in g.events && Before(g.events[u].l.e, g.events[t].l.e)
    requires Precedes(r.emitted, u, t)
    ensures Precedes(Do(r, s).emitted, u, t)
  {
    var em := Do(r, s).emitted;
    forall i: nat | i < |em| && Tag(em[i]) == t
      ensures u in EmittedTags(em[..i])
    {
      assert em[..i] == r.emitted[..i];
      if i == |r.emitted| {
        var j := HandedOutBefore(r, g, t, u);
        assert em[..i][j] == r.emitted[j];
      }
    }
  }

  /** While the earlier event `u` is held, `t` is not handed out. */
  lemma {:induction false} WaitsFor(start: seq<Step>, steps: seq<Step>, t: nat, u: nat)
    requires start <= steps && t in LogOf(start).events && u in LogOf(start).events
    requires Before(LogOf(start).events[u].l.e, LogOf(start).events[t].l.e)
    requires t !in EmittedTags(Exec(start).emitted)
    ensures Precedes(Exec(steps).emitted, u, t)
  {
    if |start| == |steps| {
      assert start == steps;
    } else {
      var before := steps[..|steps| - 1];
      WaitsFor(start, before, t, u);
      assert before[..|start|] == start;
      EventPersists(before, |start|, t);
      EventPersists(before, |start|, u);
      RunRefinesLog(before);
      StepKeepsPrecedence(Exec(before), LogOf(before), steps[|steps| - 1], t, u);
    }
  }

  /** All that a row of drains hands out is ripe. */
  lemma {:induction false} EmitsAreRipe(steps: seq<Step>, g: Log, n: nat, t: nat)
    requires LogOf(steps) == g && DistinctStamps(g)
    requires t in EmittedTags(Exec(steps + EmitTimes(n)).emitted) && t !in EmittedTags(Exec(steps).emitted)
    ensures Ripe(g, t)
  {
    RunRefinesLog(steps);
    NothingAdded(Exec(steps), g);
    EmitsExtend(steps, g, Exec(steps).emitted, n);
    var em := Exec(steps + EmitTimes(n)).emitted;
    var j: nat :| j < |em| && Tag(em[j]) == t;
  }

  lemma NewlyOutIsReleased(ins: seq<Step>, t: nat)
    requires AllInput(ins) && DistinctStamps(LogOf(ins))
    requires t !in EmittedTags(LazyOutput(ins)) && t in EmittedTags(Exec(Rest(Lazy(ins))).emitted)
    ensures Released(ins, t)
  {
    LazyLog(ins);
    EmitsAreRipe(Lazy(ins), LogOf(ins), |CompleteSet(Exec(Lazy(ins)).table.slots)|, t);
    assert ins[..|ins|] == ins && ReleasedAt(ins, |ins| - 1, t);
  }

  /** The laziest run has handed out nothing but what was ripe where it had to drain. */
  lemma {:induction false} OutIsReleased(ins: seq<Step>, t: nat)
    requires AllInput(ins) && DistinctStamps(LogOf(ins)) && t in EmittedTags(LazyOutput(ins))
    ensures Released(ins, t)
  {
    if ins != [] {
      LazyStep(ins);
      StampsWereDistinct(ins, |ins| - 1);
      var before := ins[..|ins| - 1];
      if t in EmittedTags(LazyOutput(before)) {
        OutIsReleased(before, t);
      } else {
        NewlyOutIsReleased(before, t);
      }
      ReleasedStays(ins, t);
    }
  }

  lemma ReleasedStays(ins: seq<Step>, t: nat)
    requires ins != [] && Released(ins[..|ins| - 1], t)
    ensures Released(ins, t)
  {
    var before := ins[..|ins| - 1];
    var j: nat :| ReleasedAt(before, j, t);
    SamePoint(ins, |ins| - 1, j, t);
  }

  /** Draining as little as the parser may, and then dry. */
  function Patient(ins: seq<Step>): seq<Step>
  {
    Settle(Lazy(ins))
  }

  /** The same, but drained dry just before input `q` as well. */
  function Hasty(ins: seq<Step>, q: nat): seq<Step>
    requires q <= |ins|
  {
    Settle(Resume(Settle(Lazy(ins[..q])), ins[q..]))
  }

  lemma SettledRunEnds(steps: seq<Step>, ins: seq<Step>)
    requires Paces(steps, ins) && LogOf(ins).open == map[]
    ensures ParserRun(Settle(steps), ins) && Exec(steps).emitted <= Exec(Settle(steps)).emitted
  {
    PacesMeans(steps, ins);
    SettleIsDry(steps);
    LogIsAFunctionOfInput(Settle(steps));
    RunRefinesLog(Settle(steps));
    DryIsEmpty(Exec(Settle(steps)), LogOf(ins));
    assert Settle(steps)[..|steps|] == steps;
    EmittedGrows(Settle(steps), |steps|);
  }

  lemma UnreleasedIsIn(ins: seq<Step>, t: nat)
    requires AllInput(ins) && DistinctStamps(LogOf(ins)) && !Released(ins, t)
    ensures t !in EmittedTags(Exec(Rest(Lazy(ins))).emitted)
  {
    if t in EmittedTags(LazyOutput(ins)) {
      OutIsReleased(ins, t);
    } else if t in EmittedTags(Exec(Rest(Lazy(ins))).emitted) {
      NewlyOutIsReleased(ins, t);
    }
  }

  lemma LazyHoldsBoth(ins: seq<Step>, q: nat, t: nat)
    requires AllInput(ins) && DistinctStamps(LogOf(ins)) && Overtaken(ins, q, t)
    ensures var u, g := LogOf(ins[..q]).lines, LogOf(Lazy(ins[..q + 1]));
            && t in g.events && u in g.events && Before(g.events[u].l.e, g.events[t].l.e)
            && t !in EmittedTags(LazyOutput(ins[..q + 1]))
  {
    var upto := ins[..q + 1];
    assert upto[..q] == ins[..q];
    StampsWereDistinct(ins, q);
    UnreleasedIsIn(ins[..q], t);
    LazyStep(upto);
    LazyLog(upto);
    OpenedIsLogged(ins, q);
    EventPersists(upto, q, t);
  }

  lemma PatientOrder(ins: seq<Step>, q: nat, t: nat)
    requires AllInput(ins) && DistinctStamps(LogOf(ins)) && Overtaken(ins, q, t)
    ensures Precedes(Exec(Patient(ins)).emitted, LogOf(ins[..q]).lines, t)
  {
    LazyHoldsBoth(ins, q, t);
    LazyContinues(ins, q + 1);
    SettleIsDry(Lazy(ins));
    WaitsFor(Lazy(ins[..q + 1]), Patient(ins), t, LogOf(ins[..q]).lines);
  }

  lemma OutOfOrder(early: seq<EventList>, em: seq<EventList>, t: nat, u: nat)
    requires early <= em && t in EmittedTags(early) && u !in EmittedTags(early)
    ensures !Precedes(em, u, t)
  {
    var i: nat :| i < |early| && Tag(early[i]) == t;
    assert em[i] == early[i];
    forall j: nat | j < i
      ensures Tag(em[..i][j]) != u
    {
      assert em[j] == early[j];
    }
  }

  lemma HastyStart(ins: seq<Step>, t: nat)
    requires AllInput(ins) && Ripe(LogOf(ins), t)
    ensures var em := Exec(Settle(Lazy(ins))).emitted;
            t in EmittedTags(em) && LogOf(ins).lines !in EmittedTags(em)
    ensures Paces(Settle(Lazy(ins)), ins)
  {
    var start := Settle(Lazy(ins));
    LazyLog(ins);
    SettleIsDry(Lazy(ins));
    PacesMeans(start, ins);
    LogIsAFunctionOfInput(start);
    RunRefinesLog(start);
    RipeIsHandedOut(Exec(start), LogOf(ins), t);
    KeysAreOld(LogOf(ins));
  }

  lemma HastyOrder(ins: seq<Step>, q: nat, t: nat)
    requires AllInput(ins) && LogOf(ins).open == map[] && Overtaken(ins, q, t)
    ensures !Precedes(Exec(Hasty(ins, q)).emitted, LogOf(ins[..q]).lines, t)
    ensures ParserRun(Hasty(ins, q), ins)
  {
    var start := Settle(Lazy(ins[..q]));
    HastyStart(ins[..q], t);
    ResumePaces(start, ins[..q], ins[q..]);
    assert ins[..q] + ins[q..] == ins;
    var steps := Resume(start, ins[q..]);
    SettledRunEnds(steps, ins);
    assert steps[..|start|] == start;
    EmittedGrows(steps, |start|);
    OutOfOrder(Exec(start).emitted, Exec(Hasty(ins, q)).emitted, t, LogOf(ins[..q]).lines);
  }

  /** Draining just before the earlier event is opened, or not, puts the two in either order. */
  lemma UnsteadyLeavesOrderOpen(ins: seq<Step>, q: nat, t: nat)
    requires AllInput(ins) && DistinctStamps(LogOf(ins)) && LogOf(ins).open == map[] && Overtaken(ins, q, t)
    ensures ParserRun(Patient(ins), ins) && ParserRun(Hasty(ins, q), ins)
    ensures var u := LogOf(ins[..q]).lines;
            Precedes(Exec(Patient(ins)).emitted, u, t) && !Precedes(Exec(Hasty(ins, q)).emitted, u, t)
    ensures Exec(Patient(ins)).emitted != Exec(Hasty(ins, q)).emitted
  {
    LazyPaces(ins);
    SettledRunEnds(Lazy(ins), ins);
    PatientOrder(ins, q, t);
    HastyOrder(ins, q, t);
  }

  /** All the parser's runs on an input that completes every event hand out the events in
      the same order exactly if the input is steady. */
  lemma OrderFixedIffSteady(ins: seq<Step>)
    requires AllInput(ins) && DistinctStamps(LogOf(ins)) && LogOf(ins).open == map[]
    ensures Steady(ins) <==>
            forall a, b :: ParserRun(a, ins) && ParserRun(b, ins) ==> Exec(a).emitted == Exec(b).emitted
  {
    if Steady(ins) {
      forall a, b | ParserRun(a, ins) && ParserRun(b, ins)
        ensures Exec(a).emitted == Exec(b).emitted
      {
        SteadyFixesOrder(a, b, ins);
      }
    } else {
      var q: nat, t :| Overtaken(ins, q, t);
      UnsteadyLeavesOrderOpen(ins, q, t);
    }
  }

  /** Events opened in time-stamp order make a steady input. */
  lemma OpeningInOrderIsSteady(ins: seq<Step>)
    requires OpensInOrder(ins)
    ensures Steady(ins)
  {
    forall q: nat, t: nat | OpensAt(ins, q) && Ripe(LogOf(ins[..q]), t)
      ensures !Before(ins[q].line.e, LogOf(ins[..q]).events[t].l.e)
    {
      var k := FirstRecordOpens(ins[..q], t);
      assert ins[..q][..k] == ins[..k];
      assert OpensAt(ins, k);
    }
  }
}
