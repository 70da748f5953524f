/** The parser that owns the event table: the loops over the slot array, and the
    calls that retrieve lines and hand out events. Its ghost fields record the run
    so far, so everything proved of runs holds of the object. */
module EventParser {
  import opened Common
  import opened EventTable
  import opened EventLog
  import opened EventRuns
  import opened EventTheorems
  import opened EventOrder
  import opened EventPacing

  /** What retrieving a line reports when none is left. */
  datatype End = NoDataYet | AtEof | ReadError

  function Feeds(lines: seq<Line>): (s: seq<Step>)
    ensures |s| == |lines|
  {
    seq(|lines|, i requires 0 <= i < |lines| => Feed(lines[i]))
  }

  function LiveSet(slots: seq<Slot>): set<nat>
  {
    set i: nat | i < |slots| && Live(slots[i])
  }

  /** Is the run settled, and has it just been drained where it has to be? */
  datatype Pace = Resting | Going | Lost

  ghost predicate Keeps(steps: seq<Step>, pace: Pace)
  {
    (pace.Lost? || Settled(steps)) && (pace.Resting? && DrainsLast(Inputs(steps)) ==> Dry(steps))
  }

  /** The run so far leads to `run`, `inputs` are its input steps, and it keeps the pace.
      (Stated of the whole, so that the definitions stay folded in the methods.) */
  ghost predicate Recorded(steps: seq<Step>, inputs: seq<Step>, pace: Pace, run: Run)
  {
    forall k: nat {:trigger Whole(steps, k)} :: k == |steps| ==>
      Exec(Whole(steps, k)) == run && Inputs(Whole(steps, k)) == inputs && Keeps(Whole(steps, k), pace)
  }

  lemma RecordedMeans(steps: seq<Step>, inputs: seq<Step>, pace: Pace, run: Run)
    ensures Recorded(steps, inputs, pace, run) <==>
            Exec(steps) == run && Inputs(steps) == inputs && Keeps(steps, pace)
  {
    assert Whole(steps, |steps|) == steps;
  }

  /** The pace after one more input, which `drains` if the parser has to drain after it. */
  function Onward(pace: Pace, drains: bool): Pace
  {
    if !pace.Resting? then Lost else if drains then Going else Resting
  }

  lemma ExecOneMore(steps: seq<Step>, s: Step)
    ensures Exec(steps + [s]) == Do(Exec(steps), s)
    ensures Inputs(steps + [s]) == if s.Emit? || s.Free? then Inputs(steps) else Inputs(steps) + [s]
  {
    assert (steps + [s])[..|steps|] == steps;
  }

  class Parser {
    var slots: array<Slot>
    var maxi: int
    var ready: int
    var lines: nat
    var pending: seq<Line>
    var atEnd: End
    ghost var steps: seq<Step>
    ghost var pace: Pace
    ghost var inputs: seq<Step>
    ghost var emitted: seq<EventList>

    ghost function Snapshot(): Table
      reads this`slots, this`maxi, this`ready, slots
    {
      Table(slots[..], maxi, ready)
    }

    /** The object is in the state that the recorded run leads to. */
    ghost predicate Valid()
      reads this`slots, this`maxi, this`ready, this`lines, this`steps, this`inputs, this`pace, this`emitted,
            slots
    {
      Recorded(steps, inputs, pace, Run(Snapshot(), lines, emitted))
    }

    constructor (input: seq<Line>, end: End)
      ensures Valid() && fresh(slots)
      ensures steps == [] && inputs == [] && emitted == [] && pace == Resting
      ensures pending == input && atEnd == end
    {
      slots := new Slot[ARRAY_LIMIT](_ => Empty(None));
      maxi, ready, lines := -1, 0, 0;
      pending, atEnd := input, end;
      steps, inputs, pace, emitted := [], [], Resting, [];
      new;
      assert slots[..] == EmptyTable().slots;
      RecordedMeans(steps, inputs, pace, Run(Snapshot(), lines, emitted));
    }

    // ------------------------------------------------------ loops over the slots

    method FreeEmptied()
      requires TableInv(Snapshot())
      modifies slots
      ensures Snapshot() == Sweep(old(Snapshot()))
    {
      ghost var before := slots[..];
      var i := 0;
      while i <= maxi
        invariant 0 <= i <= maxi + 1
        invariant forall k :: 0 <= k < i ==> slots[k] == SweepSlot(before[k])
        invariant forall k :: i <= k < slots.Length ==> slots[k] == before[k]
      {
        if slots[i].Empty? && slots[i].stale.Some? {
          slots[i] := Empty(None);
        }
        i := i + 1;
      }
      assert slots[..] == Sweep(old(Snapshot())).slots;
    }

    /** Marks one event complete and counts it. */
    method MarkComplete(i: nat)
      requires TableInv(Snapshot()) && i < slots.Length && slots[i].Building?
      modifies slots, this`ready
      ensures TableInv(Snapshot()) && slots[..] == old(slots[..][i := Complete(slots[i].l)])
    {
      ghost var before := slots[..];
      slots[i] := Complete(slots[i].l);
      ready := ready + 1;
      assert slots[..] == before[i := slots[i]];
      CompleteSetUpdate(before, i, slots[i]);
      assert i !in CompleteSet(before);
    }

    method CheckAll(sec: int)
      requires TableInv(Snapshot())
      modifies slots, this`ready
      ensures Snapshot() == CheckEvents(old(Snapshot()), sec)
      ensures forall i :: 0 <= i < slots.Length && old(slots[i]).Building? && old(slots[i]).l.records != [] ==>
                slots[i] == if Unfinished(old(slots[i]).l, sec) then old(slots[i]) else Complete(old(slots[i]).l)
    {
      ghost var before := slots[..];
      var i := 0;
      while i <= maxi
        invariant 0 <= i <= maxi + 1 && TableInv(Snapshot())
        invariant forall k :: 0 <= k < i ==> slots[k] == CheckSlot(before[k], sec)
        invariant forall k :: i <= k < slots.Length ==> slots[k] == before[k]
      {
        if slots[i].Building? {
          var l := slots[i].l;
          if l.records != [] && (l.e.sec + 2 <= sec || Terminal(l.records[|l.records| - 1].rtype)) {
            MarkComplete(i);
          }
        }
        i := i + 1;
      }
      assert slots[..] == CheckEvents(old(Snapshot()), sec).slots;
      forall i | 0 <= i < slots.Length && before[i].Building? && before[i].l.records != []
        ensures slots[i] == if Unfinished(before[i].l, sec) then before[i] else Complete(before[i].l)
      {
        ClosesIffFinished(before[i].l, sec);
        assert slots[..][i] == CheckSlot(before[i], sec);
      }
    }

    method FinishAll()
      requires TableInv(Snapshot())
      modifies slots, this`ready
      ensures Snapshot() == TerminateAll(old(Snapshot()))
    {
      ghost var before := slots[..];
      var i := 0;
      while i <= maxi
        invariant 0 <= i <= maxi + 1 && TableInv(Snapshot())
        invariant forall k :: 0 <= k < i ==> slots[k] == FinishSlot(before[k])
        invariant forall k :: i <= k < slots.Length ==> slots[k] == before[k]
      {
        if slots[i].Building? {
          MarkComplete(i);
        }
        i := i + 1;
      }
      assert slots[..] == TerminateAll(old(Snapshot())).slots;
    }

    /** Puts a new event in the first empty slot, growing the array when there is none. */
    method AppendEvent(l: EventList)
      requires TableInv(Snapshot())
      modifies slots, this`slots, this`maxi
      ensures Snapshot() == Append(old(Snapshot()), l)
      ensures slots == old(slots) || fresh(slots)
    {
      var i := 0;
      while i < slots.Length
        invariant 0 <= i <= slots.Length
        invariant FirstEmpty(slots[..], 0) == FirstEmpty(slots[..], i)
      {
        if slots[i].Empty? {
          ghost var before := slots[..];
          slots[i] := Building(l);
          if i > maxi {
            maxi := i;
          }
          assert slots[..] == before[i := Building(l)];
          return;
        }
        i := i + 1;
      }
      var more := new Slot[slots.Length + ARRAY_LIMIT](_ => Empty(None));
      forall k | 0 <= k < slots.Length {
        more[k] := slots[k];
      }
      more[i] := Building(l);
      maxi := i;
      assert more[..] == slots[..] + [Building(l)] + seq(ARRAY_LIMIT - 1, _ => Empty(None));
      slots := more;
    }

    /** Is some complete event held? Asked without taking it out. */
    method HasReady() returns (some: bool)
      requires TableInv(Snapshot())
      ensures some <==> exists i :: 0 <= i < slots.Length && slots[i].Complete?
    {
      if ready == 0 {
        ReadyCountDecidesEmptyScan(Snapshot());
        return false;
      }
      var i := 0;
      while i <= maxi
        invariant 0 <= i <= maxi + 1
        invariant forall k :: 0 <= k < i ==> !slots[k].Complete?
      {
        if slots[i].Complete? {
          return true;
        }
        i := i + 1;
      }
      return false;
    }

    /** Takes out the oldest held event if it is complete. */
    method GetReady() returns (r: Option<EventList>)
      requires TableInv(Snapshot())
      modifies slots, this`ready
      ensures Snapshot() == Drain(old(Snapshot())) && r == Drained(old(Snapshot()))
      ensures r.Some? ==> forall i :: 0 <= i < slots.Length && Live(slots[i]) ==>
                var l, m := r.value.e, slots[i].l.e;
                || l.sec < m.sec || (l.sec == m.sec && l.milli < m.milli)
                || (l.sec == m.sec && l.milli == m.milli && l.serial <= m.serial)
    {
      if ready == 0 {
        ReadyCountDecidesEmptyScan(Snapshot());
        return None;
      }
      var lowest: Option<nat> := None;
      var i := 0;
      while i <= maxi
        invariant 0 <= i <= maxi + 1
        invariant lowest == Lowest(slots[..], i)
      {
        if Live(slots[i]) {
          if lowest.None? {
            lowest := Some(i);
          } else if TimestampCompare(slots[lowest.value].l.e, slots[i].l.e) == 1 {
            lowest := Some(i);
          }
        }
        i := i + 1;
      }
      LowestIgnoresUnused(Snapshot(), i);
      if lowest.Some? && slots[lowest.value].Complete? {
        ghost var before := slots[..];
        r := Some(slots[lowest.value].l);
        slots[lowest.value] := Empty(r);
        ready := ready - 1;
        assert slots[..] == before[lowest.value := Empty(r)];
        EmittedIsEarliest(old(Snapshot()));
      } else {
        r := None;
      }
    }

    // -------------------------------------------------------------- recorded steps

    method Sweeping()
      requires Valid()
      modifies this`steps, slots
      ensures Valid() && steps == old(steps) + [Free]
      ensures LiveSet(slots[..]) == old(LiveSet(slots[..]))
    {
      FreeEffects(steps, inputs, pace, Snapshot(), lines, emitted);
      FreeEmptied();
      steps := steps + [Free];
    }

    method Emitting() returns (le: Option<EventList>)
      requires Valid()
      modifies this`steps, this`pace, this`emitted, this`ready, slots
      ensures Valid() && steps == old(steps) + [Emit]
      ensures pace == if old(pace).Lost? then Lost else if le.Some? then Going else Resting
      ensures emitted == if le.Some? then old(emitted) + [le.value] else old(emitted)
      ensures le.Some? ==> BelowHeld([le.value], 0, slots[..]) && |LiveSet(slots[..])| < old(|LiveSet(slots[..])|)
      ensures le.None? ==> slots[..] == old(slots[..])
      ensures old(NoneBuilding(Snapshot())) ==> NoneBuilding(Snapshot())
      ensures le.None? && old(NoneBuilding(Snapshot())) ==> NothingHeld(Snapshot())
    {
      EmitEffects(steps, inputs, pace, Snapshot(), lines, emitted);
      le := GetReady();
      steps, pace := steps + [Emit], if pace.Lost? then Lost else if le.Some? then Going else Resting;
      if le.Some? {
        emitted := emitted + [le.value];
      }
    }

    method AddRecord(i: nat, r: Record)
      requires TableInv(Snapshot()) && i < slots.Length && slots[i].Building?
      modifies slots
      ensures slots[..] == old(slots[..][i := Building(EventList(slots[i].l.e, slots[i].l.records + [r]))])
      ensures TableInv(Snapshot())
    {
      ghost var before := slots[..];
      slots[i] := Building(EventList(slots[i].l.e, slots[i].l.records + [r]));
      assert slots[..] == before[i := slots[i]];
      CompleteSetUpdate(before, i, slots[i]);
      assert CompleteSet(slots[..]) == CompleteSet(before);
    }

    /** Adds a line to its event or opens one for it; tells whether one was opened. */
    method IngestLine(line: Line) returns (isNew: bool)
      requires TableInv(Snapshot())
      modifies this`slots, this`maxi, this`ready, slots
      ensures Snapshot() == Ingest(old(Snapshot()), lines, line)
      ensures slots == old(slots) || fresh(slots)
      ensures isNew <==> FindsNone(old(Snapshot()), line)
    {
      SweepKeepsInv(Snapshot());
      FreeEmptied();
      isNew := false;
      if line.Entry? {
        var r := Record(lines, line.rtype, line.text);
        var i := FindEvent(line.e);
        if i <= maxi {
          AddRecord(i, r);
          CheckAll(line.e.sec);
        } else if line.rtype != AUDIT_EOE {
          var l := EventList(line.e, [r]);
          AppendKeepsInv(Snapshot(), l);
          AppendEvent(l);
          CheckAll(line.e.sec);
          isNew := true;
        }
      }
    }

    /** The slot building event `e`, or one past the last slot in use. */
    method FindEvent(e: EventId) returns (i: nat)
      requires TableInv(Snapshot())
      ensures i <= maxi + 1
      ensures i <= maxi <==> FindBuilding(slots[..], e, 0) < slots.Length
      ensures i <= maxi ==> i == FindBuilding(slots[..], e, 0)
    {
      i := 0;
      while i <= maxi
        invariant 0 <= i <= maxi + 1
        invariant FindBuilding(slots[..], e, 0) == FindBuilding(slots[..], e, i)
      {
        if slots[i].Building? && EventsAreEqual(slots[i].l.e, e) {
          return;
        }
        i := i + 1;
      }
    }

    method Finishing()
      requires Valid()
      modifies this`steps, this`inputs, this`pace, this`ready, slots
      ensures Valid() && steps == old(steps) + [Finish] && inputs == old(inputs) + [Finish]
      ensures pace == Onward(old(pace), true)
      ensures LiveSet(slots[..]) == old(LiveSet(slots[..]))
      ensures NoneBuilding(Snapshot())
    {
      InputEffects(steps, inputs, pace, Run(Snapshot(), lines, emitted), Finish, true);
      FinishAll();
      steps, inputs, pace := steps + [Finish], inputs + [Finish], Onward(pace, true);
    }

    // ---------------------------------------------------------------- public calls

    /** Retrieves and ingests one pending line; tells whether it opened an event. */
    method TakeLine() returns (isNew: bool)
      requires Valid() && pending != []
      modifies this, slots
      ensures Valid() && atEnd == old(atEnd) && (slots == old(slots) || fresh(slots))
      ensures steps == old(steps) + [Feed(old(pending)[0])] && pending == old(pending)[1..]
      ensures inputs == old(inputs) + [Feed(old(pending)[0])]
      ensures emitted == old(emitted) && pace == Onward(old(pace), isNew)
      ensures isNew <==> FindsNone(old(Snapshot()), old(pending)[0])
    {
      var line := pending[0];
      FeedEffects(steps, inputs, pace, Snapshot(), lines, emitted, line);
      isNew := IngestLine(line);
      pending, lines := pending[1..], lines + 1;
      steps, inputs, pace := steps + [Feed(line)], inputs + [Feed(line)], Onward(pace, isNew);
    }

    /** Takes one line and drains once if it opened an event. */
    method TakeAndDrain() returns (le: Option<EventList>)
      requires Valid() && pending != []
      modifies this, slots
      ensures Valid() && atEnd == old(atEnd) && (slots == old(slots) || fresh(slots))
      ensures steps == old(steps) + [Feed(old(pending)[0])]
                       + if FindsNone(old(Snapshot()), old(pending)[0]) then [Emit] else []
      ensures pending == old(pending)[1..] && inputs == old(inputs) + [Feed(old(pending)[0])]
      ensures emitted == if le.Some? then old(emitted) + [le.value] else old(emitted)
      ensures le.Some? ==> BelowHeld([le.value], 0, slots[..])
      ensures old(pace).Resting? ==> pace == if le.Some? then Going else Resting
    {
      le := None;
      var isNew := TakeLine();
      if isNew {
        le := Emitting();
      }
    }

    /** Takes lines until one opens an event and the oldest held event is complete. */
    method TakeLines() returns (le: Option<EventList>, ghost used: seq<Line>)
      requires Valid()
      modifies this, slots
      ensures Valid() && atEnd == old(atEnd) && (slots == old(slots) || fresh(slots))
      ensures old(steps) <= steps && old(pending) == used + pending
      ensures inputs == old(inputs) + Feeds(used)
      ensures emitted == if le.Some? then old(emitted) + [le.value] else old(emitted)
      ensures le.Some? ==> used != [] && BelowHeld([le.value], 0, slots[..])
      ensures le.None? ==> pending == []
      ensures used == [] ==> slots[..] == old(slots[..])
      ensures old(pace).Resting? ==> pace == if le.Some? then Going else Resting
    {
      le, used := None, [];
      ghost var base := inputs;
      while pending != [] && le.None?
        invariant Valid() && atEnd == old(atEnd) && (slots == old(slots) || fresh(slots))
        invariant old(steps) <= steps && old(pending) == used + pending
        invariant emitted == if le.Some? then old(emitted) + [le.value] else old(emitted)
        invariant le.Some? ==> used != [] && BelowHeld([le.value], 0, slots[..])
        invariant inputs == base + Feeds(used)
        invariant used == [] ==> slots[..] == old(slots[..])
        invariant old(pace).Resting? ==> pace == if le.Some? then Going else Resting
        decreases |pending|
      {
        OneMoreFed(base, used, pending);
        used := used + [pending[0]];
        le := TakeAndDrain();
      }
    }

    /** What happens when no line is left to retrieve. */
    method RunDry() returns (rc: int, le: Option<EventList>)
      requires Valid()
      modifies this`steps, this`inputs, this`pace, this`ready, this`emitted, slots
      ensures Valid() && old(steps) <= steps
      ensures rc == 1 <==> le.Some?
      ensures emitted == if le.Some? then old(emitted) + [le.value] else old(emitted)
      ensures le.Some? ==> BelowHeld([le.value], 0, slots[..]) && |LiveSet(slots[..])| < old(|LiveSet(slots[..])|)
      ensures le.None? ==> rc == if atEnd.ReadError? then -1 else 0
      ensures le.None? && atEnd.AtEof? ==> NothingHeld(Snapshot())
      ensures inputs == if atEnd.AtEof? then old(inputs) + [Finish] else old(inputs)
      ensures old(pace).Resting? ==> pace == if le.Some? then Going else Resting
    {
      Sweeping();
      match atEnd
      case NoDataYet => return 0, None;
      case ReadError => return -1, None;
      case AtEof =>
        Finishing();
        le := Emitting();
        rc := if le.Some? then 1 else 0;
    }

    /** Hands out the next event, retrieving lines until one is ready.
        The lines taken are a prefix of what was pending; an event handed out is no
        later than any still held; at end of file, "no event" means none is left. */
    method NextEvent() returns (rc: int, le: Option<EventList>, ghost used: seq<Line>)
      requires Valid()
      modifies this, slots
      ensures Valid() && atEnd == old(atEnd) && (slots == old(slots) || fresh(slots))
      ensures old(steps) <= steps && old(pending) == used + pending
      ensures rc == 1 <==> le.Some?
      ensures emitted == if le.Some? then old(emitted) + [le.value] else old(emitted)
      ensures le.Some? ==> BelowHeld([le.value], 0, slots[..])
      ensures le.None? ==> pending == [] && rc == if atEnd.ReadError? then -1 else 0
      ensures le.None? && atEnd.AtEof? ==> NothingHeld(Snapshot())
      ensures || inputs == old(inputs) + Feeds(used)
              || (atEnd.AtEof? && pending == [] && inputs == old(inputs) + Feeds(used) + [Finish])
      ensures le.Some? ==> used != [] || |LiveSet(slots[..])| < old(|LiveSet(slots[..])|)
      ensures !old(pace).Lost? ==> pace == if le.Some? then Going else Resting
    {
      used := [];
      Sweeping();
      le := Emitting();
      if le.Some? {
        return 1, le, used;
      }
      le, used := TakeLines();
      if le.Some? {
        return 1, le, used;
      }
      rc, le := RunDry();
    }

    /** Hands out every event that can be handed out now; with `flush`, ends all
        events under construction first and empties the table. */
    method ConsumeFeed(flush: bool) returns (out: seq<EventList>)
      requires Valid() && atEnd.NoDataYet?
      modifies this, slots
      ensures Valid() && atEnd == old(atEnd) && (slots == old(slots) || fresh(slots))
      ensures old(steps) <= steps && pending == []
      ensures emitted == old(emitted) + out
      ensures inputs == old(inputs) + Feeds(old(pending)) + if flush then [Finish] else []
      ensures flush ==> NothingHeld(Snapshot())
      ensures !old(pace).Lost? ==> pace == Resting
    {
      out := HandOutAll();
      if flush {
        Finishing();
        var rest := HandOutHeld();
        Associate(old(emitted), out, rest);
        out := out + rest;
      }
    }

    /** With nothing under construction, hands out all that is held. */
    method HandOutHeld() returns (out: seq<EventList>)
      requires Valid() && NoneBuilding(Snapshot())
      modifies this`steps, this`pace, this`emitted, this`ready, slots
      ensures Valid() && old(steps) <= steps && emitted == old(emitted) + out
      ensures NothingHeld(Snapshot())
      ensures !old(pace).Lost? ==> pace == Resting
    {
      out := [];
      var le := Emitting();
      while le.Some?
        invariant Valid() && old(steps) <= steps && emitted == old(emitted) + (out + Given(le))
        invariant NoneBuilding(Snapshot()) && (le.None? ==> NothingHeld(Snapshot()))
        invariant !old(pace).Lost? ==> pace == if le.Some? then Going else Resting
        decreases le.Some?, |LiveSet(slots[..])|
      {
        out := out + [le.value];
        le := Emitting();
        Associate(old(emitted), out, Given(le));
      }
    }

    method HandOutAll() returns (out: seq<EventList>)
      requires Valid() && atEnd.NoDataYet?
      modifies this, slots
      ensures Valid() && atEnd == old(atEnd) && (slots == old(slots) || fresh(slots))
      ensures old(steps) <= steps && pending == []
      ensures emitted == old(emitted) + out
      ensures inputs == old(inputs) + Feeds(old(pending))
      ensures !old(pace).Lost? ==> pace == Resting
    {
      ghost var all, base := pending, inputs;
      out := [];
      assert all[0..] == all && base + Feeds(all[..0]) == base;
      var rc, le, n := NextOf(all, 0, base);
      while rc > 0
        invariant Valid() && atEnd == old(atEnd) && (slots == old(slots) || fresh(slots))
        invariant old(steps) <= steps && n <= |all| && pending == all[n..]
        invariant rc > 0 <==> le.Some?
        invariant emitted == old(emitted) + (out + Given(le))
        invariant inputs == base + Feeds(all[..n])
        invariant le.None? ==> n == |all|
        invariant !old(pace).Lost? ==> pace == if le.Some? then Going else Resting
        decreases le.Some?, |all| - n, |LiveSet(slots[..])|
      {
        out := out + [le.value];
        rc, le, n := NextOf(all, n, base);
        Associate(old(emitted), out, Given(le));
      }
      assert all[..n] == all;
    }

    /** The next event, when `n` of all lines have been taken. */
    method NextOf(ghost all: seq<Line>, ghost n: nat, ghost base: seq<Step>)
      returns (rc: int, le: Option<EventList>, ghost m: nat)
      requires Valid() && atEnd.NoDataYet? && n <= |all|
      requires pending == all[n..] && inputs == base + Feeds(all[..n])
      modifies this, slots
      ensures Valid() && atEnd == old(atEnd) && (slots == old(slots) || fresh(slots))
      ensures old(steps) <= steps && n <= m <= |all| && pending == all[m..]
      ensures inputs == base + Feeds(all[..m])
      ensures rc > 0 <==> le.Some?
      ensures emitted == old(emitted) + Given(le)
      ensures le.None? ==> m == |all|
      ensures le.Some? ==> m > n || |LiveSet(slots[..])| < old(|LiveSet(slots[..])|)
      ensures !old(pace).Lost? ==> pace == if le.Some? then Going else Resting
    {
      ghost var used;
      rc, le, used := NextEvent();
      FeedsAdvance(all, n, used, pending, base);
      m := n + |used|;
    }

    /** Checks all events against the wall clock, then hands out what is ready. */
    method AgeEvents(now: int) returns (out: seq<EventList>)
      requires Valid() && atEnd.NoDataYet?
      modifies this, slots
      ensures Valid() && (slots == old(slots) || fresh(slots))
      ensures emitted == old(emitted) + out
      ensures inputs == old(inputs) + [Age(now)] + Feeds(old(pending))
      ensures old(pace).Resting? ==> pace == Resting
    {
      InputEffects(steps, inputs, pace, Run(Snapshot(), lines, emitted), Age(now), true);
      CheckAll(now);
      steps, inputs, pace := steps + [Age(now)], inputs + [Age(now)], Onward(pace, true);
      out := ConsumeFeed(false);
    }
  }

  /** What a call adds to the events handed out. */
  function Given(le: Option<EventList>): seq<EventList>
  {
    if le.Some? then [le.value] else []
  }

  /** Feeding the next pending line. */
  lemma OneMoreFed(base: seq<Step>, used: seq<Line>, pending: seq<Line>)
    requires pending != []
    ensures used + pending == used + [pending[0]] + pending[1..]
    ensures base + Feeds(used) + [Feed(pending[0])] == base + Feeds(used + [pending[0]])
  {
    assert Feeds(used + [pending[0]]) == Feeds(used) + [Feed(pending[0])];
  }

  /** Taking `used` more lines of `all` feeds those. */
  lemma FeedsAdvance(all: seq<Line>, n: nat, used: seq<Line>, rest: seq<Line>, base: seq<Step>)
    requires n <= |all| && all[n..] == used + rest
    ensures n + |used| <= |all| && all[n + |used|..] == rest
    ensures base + Feeds(all[..n]) + Feeds(used) == base + Feeds(all[..n + |used|])
    ensures rest == [] ==> all[..n + |used|] == all
  {
    assert all[..n + |used|] == all[..n] + used;
    assert all[n + |used|..] == all[n..][|used|..];
  }

  /** With nothing under construction, a drain finds nothing only in an empty table. */
  lemma NothingReadyMeansNothingHeld(t: Table)
    requires TableInv(t) && NoneBuilding(t)
    ensures Drained(t).None? ==> NothingHeld(t)
  {
    if t.ready > 0 {
      EmitShrinksReady(t);
    } else {
      ReadyCountDecidesEmptyScan(t);
    }
  }

  lemma DrainEffects(t: Table)
    ensures Drained(t).Some? ==> BelowHeld([Drained(t).value], 0, Drain(t).slots)
    ensures Drained(t).Some? ==> |LiveSet(Drain(t).slots)| < |LiveSet(t.slots)|
  {
    if Drained(t).Some? {
      EmittedIsEarliest(t);
      var i := ReadySlot(t).value;
      assert LiveSet(Drain(t).slots) == LiveSet(t.slots) - {i};
      assert i in LiveSet(t.slots);
    }
  }

  lemma {:induction false} LowestIgnoresStale(t: Table, n: nat)
    requires n <= |t.slots|
    ensures Lowest(Sweep(t).slots, n) == Lowest(t.slots, n)
  {
    if n > 0 {
      LowestIgnoresStale(t, n - 1);
    }
  }

  lemma FreeKeepsPace(steps: seq<Step>)
    ensures Exec(steps + [Free]) == Do(Exec(steps), Free) && Inputs(steps + [Free]) == Inputs(steps)
    ensures Settled(steps + [Free]) == Settled(steps) && Dry(steps + [Free]) == Dry(steps)
  {
    assert (steps + [Free])[..|steps|] == steps;
    LowestIgnoresStale(Exec(steps).table, |Exec(steps).table.slots|);
  }

  lemma SweepKeepsLive(t: Table)
    ensures LiveSet(Sweep(t).slots) == LiveSet(t.slots)
  {
  }

  lemma FreeEffects(steps: seq<Step>, inputs: seq<Step>, pace: Pace, t: Table, n: nat, em: seq<EventList>)
    requires Recorded(steps, inputs, pace, Run(t, n, em))
    ensures TableInv(t) && Recorded(steps + [Free], inputs, pace, Run(Sweep(t), n, em))
    ensures LiveSet(Sweep(t).slots) == LiveSet(t.slots)
  {
    RecordedMeans(steps, inputs, pace, Run(t, n, em));
    FreeKeepsPace(steps);
    RecordedMeans(steps + [Free], inputs, pace, Run(Sweep(t), n, em));
    RunRefinesLog(steps);
    SweepKeepsLive(t);
  }

  /** Taking in one more input. */
  lemma InputEffects(steps: seq<Step>, inputs: seq<Step>, pace: Pace, run: Run, s: Step, drains: bool)
    requires Recorded(steps, inputs, pace, run) && IsInput(s) && (DrainsLast(inputs + [s]) ==> drains)
    ensures TableInv(run.table) && Recorded(steps + [s], inputs + [s], Onward(pace, drains), Do(run, s))
  {
    RecordedMeans(steps, inputs, pace, run);
    ExecOneMore(steps, s);
    RunRefinesLog(steps);
    if pace.Resting? {
      InputKeepsSettled(steps, s);
    }
    RecordedMeans(steps + [s], inputs + [s], Onward(pace, drains), Do(run, s));
  }

  /** Does adding the line find no event under construction? */
  predicate FindsNone(t: Table, line: Line)
  {
    line.Entry? && line.rtype != AUDIT_EOE && FindBuilding(Sweep(t).slots, line.e, 0) == |t.slots|
  }

  /** A line that finds no event under construction to extend is one that opens an event. */
  lemma OpensIffFindsNone(steps: seq<Step>, inputs: seq<Step>, pace: Pace, run: Run, line: Line)
    requires Recorded(steps, inputs, pace, run)
    ensures DrainsLast(inputs + [Feed(line)]) <==> FindsNone(run.table, line)
  {
    RecordedMeans(steps, inputs, pace, run);
    LogIsAFunctionOfInput(steps);
    RunRefinesLog(steps);
    assert (inputs + [Feed(line)])[..|inputs|] == inputs;
    FindsNoneIffOpens(run, LogOf(inputs), line);
  }

  lemma FindsNoneIffOpens(run: Run, g: Log, line: Line)
    requires Linked(run, g)
    ensures FindsNone(run.table, line) <==> Opens(g, line)
  {
    if line.Entry? {
      BuildingAfterSweep(run, g, line.e);
    }
  }

  lemma FeedEffects(steps: seq<Step>, inputs: seq<Step>, pace: Pace, t: Table, n: nat, em: seq<EventList>, line: Line)
    requires Recorded(steps, inputs, pace, Run(t, n, em))
    ensures TableInv(t)
    ensures Recorded(steps + [Feed(line)], inputs + [Feed(line)], Onward(pace, FindsNone(t, line)),
                     Run(Ingest(t, n, line), n + 1, em))
  {
    OpensIffFindsNone(steps, inputs, pace, Run(t, n, em), line);
    InputEffects(steps, inputs, pace, Run(t, n, em), Feed(line), FindsNone(t, line));
  }

  lemma EmitEffects(steps: seq<Step>, inputs: seq<Step>, pace: Pace, t: Table, n: nat, em: seq<EventList>)
    requires Recorded(steps, inputs, pace, Run(t, n, em))
    ensures TableInv(t)
    ensures if Drained(t).Some? then
              && Recorded(steps + [Emit], inputs, if pace.Lost? then Lost else Going,
                          Run(Drain(t), n, em + [Drained(t).value]))
              && BelowHeld([Drained(t).value], 0, Drain(t).slots)
              && |LiveSet(Drain(t).slots)| < |LiveSet(t.slots)|
            else
              && Recorded(steps + [Emit], inputs, if pace.Lost? then Lost else Resting, Run(Drain(t), n, em))
              && Drain(t) == t && (NoneBuilding(t) ==> NothingHeld(t))
  {
    RecordedMeans(steps, inputs, pace, Run(t, n, em));
    DrainsKeepInput(steps);
    RecordedMeans(steps + [Emit], inputs, if pace.Lost? then Lost else Going, Do(Run(t, n, em), Emit));
    RecordedMeans(steps + [Emit], inputs, if pace.Lost? then Lost else Resting, Do(Run(t, n, em), Emit));
    RunRefinesLog(steps);
    DrainEffects(t);
    if NoneBuilding(t) {
      NothingReadyMeansNothingHeld(t);
    }
  }

  lemma {:induction false} LowestIgnoresUnused(t: Table, n: nat)
    requires TableInv(t) && t.maxi < n <= |t.slots|
    ensures Lowest(t.slots, n) == Lowest(t.slots, |t.slots|)
    decreases |t.slots| - n
  {
    if n < |t.slots| {
      LowestIgnoresUnused(t, n + 1);
    }
  }
}
