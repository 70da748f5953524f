/** The event table of the log parser ("list of lists").
    Interleaved log records are grouped into events held in a growable array of
    slots; an event is emitted once it is complete and no older event is held. */
module EventTable {
  import opened Common

  const ARRAY_LIMIT: nat := 80
  const AUDIT_FIRST_EVENT: int := 1300
  const AUDIT_EOE: int := 1320
  const AUDIT_PROCTITLE: int := 1327
  const AUDIT_MAC_UNLBL_ALLOW: int := 1406
  const AUDIT_MAC_CALIPSO_DEL: int := 1419
  const AUDIT_KERNEL: int := 2000
  const AUDIT_FIRST_ANOM_MSG: int := 2100

  /** What identifies an event: its time stamp, serial number and optional node. */
  datatype EventId = EventId(sec: int, milli: nat, serial: nat, host: Option<string>)

  /** One log record; `line` is its arrival number among the retrieved lines. */
  datatype Record = Record(line: nat, rtype: int, text: string)

  /** An event with its records in the order they were appended. */
  datatype EventList = EventList(e: EventId, records: seq<Record>)

  /** A table slot. An `Empty` slot may still own the list that was emitted from
      it, until the next sweep frees that list. */
  datatype Slot = Empty(stale: Option<EventList>) | Building(l: EventList) | Complete(l: EventList)

  /** The slots, the largest index in use, and the cached number of complete slots. */
  datatype Table = Table(slots: seq<Slot>, maxi: int, ready: int)

  /** A retrieved line, after time-stamp extraction and type lookup. */
  datatype Line = Malformed | Entry(e: EventId, rtype: int, text: string)

  // ---------------------------------------------------------------- comparisons

  /** `a` is not later than `b`: by second, then millisecond, then serial number. */
  predicate NotAfter(a: EventId, b: EventId)
  {
    || a.sec < b.sec
    || (a.sec == b.sec && (a.milli < b.milli || (a.milli == b.milli && a.serial <= b.serial)))
  }

  function TimestampCompare(a: EventId, b: EventId): (c: int)
    ensures c == 1 <==> !NotAfter(a, b)
    ensures c == -1 <==> !NotAfter(b, a)
    ensures c == 0 <==> (a.sec, a.milli, a.serial) == (b.sec, b.milli, b.serial)
  {
    if a.sec > b.sec then 1
    else if a.sec < b.sec then -1
    else if a.milli > b.milli then 1
    else if a.milli < b.milli then -1
    else if a.serial > b.serial then 1
    else if a.serial < b.serial then -1
    else 0
  }

  predicate EventsAreEqual(a: EventId, b: EventId)
  {
    if !(a.serial == b.serial && a.milli == b.milli && a.sec == b.sec) then false
    else if a.host.Some? && b.host.Some? then a.host.value == b.host.value
    else !(a.host.Some? || b.host.Some?)
  }

  lemma NotAfterIsTotalPreorder(a: EventId, b: EventId, c: EventId)
    ensures NotAfter(a, a)
    ensures NotAfter(a, b) || NotAfter(b, a)
    ensures NotAfter(a, b) && NotAfter(b, c) ==> NotAfter(a, c)
  {
  }

  // ------------------------------------------------------------------ one slot

  /** Record types after which no further record of the event is expected. */
  predicate Terminal(rtype: int)
  {
    || rtype == AUDIT_PROCTITLE
    || rtype == AUDIT_EOE
    || rtype < AUDIT_FIRST_EVENT
    || rtype >= AUDIT_FIRST_ANOM_MSG
    || rtype == AUDIT_KERNEL
    || AUDIT_MAC_UNLBL_ALLOW <= rtype <= AUDIT_MAC_CALIPSO_DEL
  }

  /** Does a check at stream time `sec` complete this event? The current record
      of a list under construction is the one appended last. */
  predicate Closes(l: EventList, sec: int)
  {
    l.records != [] && (l.e.sec + 2 <= sec || Terminal(l.records[|l.records| - 1].rtype))
  }

  predicate Live(s: Slot) { !s.Empty? }

  function CheckSlot(s: Slot, sec: int): Slot
  {
    if s.Building? && Closes(s.l, sec) then Complete(s.l) else s
  }

  function FinishSlot(s: Slot): Slot
  {
    if s.Building? then Complete(s.l) else s
  }

  function SweepSlot(s: Slot): Slot
  {
    if s.Empty? then Empty(None) else s
  }

  // ------------------------------------------------------------- the whole table

  function CompleteSet(slots: seq<Slot>): set<nat>
  {
    set i: nat | i < |slots| && slots[i].Complete?
  }

  function EmptyTable(): Table
  {
    Table(seq(ARRAY_LIMIT, _ => Empty(None)), -1, 0)
  }

  /** What holds of the table between any two operations. */
  predicate TableInv(t: Table)
  {
    && ARRAY_LIMIT <= |t.slots|
    && -1 <= t.maxi < |t.slots|
    && (forall i :: t.maxi < i < |t.slots| ==> t.slots[i] == Empty(None))
    && t.ready == |CompleteSet(t.slots)|
  }

  predicate Swept(slots: seq<Slot>)
  {
    forall i :: 0 <= i < |slots| && slots[i].Empty? ==> slots[i] == Empty(None)
  }

  function Recount(t: Table, slots: seq<Slot>): (r: Table)
  {
    Table(slots, t.maxi, t.ready + |CompleteSet(slots)| - |CompleteSet(t.slots)|)
  }

  function Sweep(t: Table): Table
  {
    t.(slots := seq(|t.slots|, i requires 0 <= i < |t.slots| => SweepSlot(t.slots[i])))
  }

  function CheckEvents(t: Table, sec: int): Table
  {
    Recount(t, seq(|t.slots|, i requires 0 <= i < |t.slots| => CheckSlot(t.slots[i], sec)))
  }

  function TerminateAll(t: Table): Table
  {
    Recount(t, seq(|t.slots|, i requires 0 <= i < |t.slots| => FinishSlot(t.slots[i])))
  }

  /** The first empty slot at or after `i`, or the table size. */
  function FirstEmpty(slots: seq<Slot>, i: nat): (k: nat)
    requires i <= |slots|
    ensures i <= k <= |slots|
    ensures k < |slots| ==> slots[k].Empty?
    ensures forall j :: i <= j < k ==> Live(slots[j])
    decreases |slots| - i
  {
    if i == |slots| || slots[i].Empty? then i else FirstEmpty(slots, i + 1)
  }

  function Append(t: Table, l: EventList): Table
  {
    var i := FirstEmpty(t.slots, 0);
    if i < |t.slots| then
      t.(slots := t.slots[i := Building(l)], maxi := if i > t.maxi then i else t.maxi)
    else
      t.(slots := t.slots + [Building(l)] + seq(ARRAY_LIMIT - 1, _ => Empty(None)), maxi := i)
  }

  /** The first slot building event `e` at or after `i`, or the table size. */
  function FindBuilding(slots: seq<Slot>, e: EventId, i: nat): (k: nat)
    requires i <= |slots|
    ensures i <= k <= |slots|
    ensures k < |slots| ==> slots[k].Building? && slots[k].l.e == e
    ensures forall j :: i <= j < k ==> !(slots[j].Building? && slots[j].l.e == e)
    decreases |slots| - i
  {
    if i == |slots| || (slots[i].Building? && EventsAreEqual(slots[i].l.e, e)) then i
    else FindBuilding(slots, e, i + 1)
  }

  /** The first live slot with the lowest time stamp among the first `n` slots. */
  function Lowest(slots: seq<Slot>, n: nat): (r: Option<nat>)
    requires n <= |slots|
    ensures r.Some? ==> r.value < n && Live(slots[r.value])
    ensures r.Some? ==> forall j :: 0 <= j < n && Live(slots[j]) ==> NotAfter(slots[r.value].l.e, slots[j].l.e)
    ensures r.None? ==> forall j :: 0 <= j < n ==> !Live(slots[j])
  {
    if n == 0 then None else
    var r := Lowest(slots, n - 1);
    if !Live(slots[n - 1]) then r
    else if r.None? then Some(n - 1)
    else if TimestampCompare(slots[r.value].l.e, slots[n - 1].l.e) == 1 then Some(n - 1)
    else r
  }

  /** The slot the next drain would empty: the oldest live one, if it is complete. */
  function ReadySlot(t: Table): Option<nat>
  {
    var r := Lowest(t.slots, |t.slots|);
    if r.Some? && t.slots[r.value].Complete? then r else None
  }

  function Drain(t: Table): Table
  {
    match ReadySlot(t)
    case None => t
    case Some(i) => t.(slots := t.slots[i := Empty(Some(t.slots[i].l))], ready := t.ready - 1)
  }

  function Drained(t: Table): Option<EventList>
  {
    match ReadySlot(t)
    case None => None
    case Some(i) => Some(t.slots[i].l)
  }

  /** Sweeping, then adding the `n`-th line to its event, or opening an event for it. */
  function Ingest(t: Table, n: nat, line: Line): Table
  {
    var s := Sweep(t);
    match line
    case Malformed => s
    case Entry(e, rtype, text) =>
      var r := Record(n, rtype, text);
      var i := FindBuilding(s.slots, e, 0);
      if i < |s.slots| then
        CheckEvents(s.(slots := s.slots[i := Building(EventList(e, s.slots[i].l.records + [r]))]), e.sec)
      else if rtype == AUDIT_EOE then s
      else CheckEvents(Append(s, EventList(e, [r])), e.sec)
  }

  // ------------------------------------------------------- the invariant is kept

  lemma CompleteSetUpdate(slots: seq<Slot>, i: nat, s: Slot)
    requires i < |slots|
    ensures CompleteSet(slots[i := s]) ==
            if s.Complete? then CompleteSet(slots) + {i} else CompleteSet(slots) - {i}
  {
  }

  lemma RecountKeepsInv(t: Table, slots: seq<Slot>)
    requires TableInv(t)
    requires |slots| == |t.slots|
    requires forall i :: t.maxi < i < |slots| ==> slots[i] == Empty(None)
    ensures TableInv(Recount(t, slots))
  {
  }

  lemma SweepKeepsInv(t: Table)
    requires TableInv(t)
    ensures TableInv(Sweep(t)) && Swept(Sweep(t).slots)
  {
    assert CompleteSet(Sweep(t).slots) == CompleteSet(t.slots);
  }

  /** Opening an event takes a slot that owns no list, also when the table grows,
      and leaves every other slot alone. */
  lemma AppendKeepsInv(t: Table, l: EventList)
    requires TableInv(t) && Swept(t.slots)
    ensures TableInv(Append(t, l)) && Swept(Append(t, l).slots)
    ensures var i := FirstEmpty(t.slots, 0);
            && i < |Append(t, l).slots|
            && (i < |t.slots| ==> t.slots[i] == Empty(None))
            && Append(t, l).slots[i] == Building(l)
            && (forall j :: 0 <= j < |t.slots| && j != i ==> Append(t, l).slots[j] == t.slots[j])
            && (forall j :: |t.slots| <= j < |Append(t, l).slots| && j != i ==> Append(t, l).slots[j] == Empty(None))
  {
    var i := FirstEmpty(t.slots, 0);
    assert CompleteSet(Append(t, l).slots) == CompleteSet(t.slots);
  }

  lemma DrainKeepsInv(t: Table)
    requires TableInv(t)
    ensures TableInv(Drain(t))
  {
    match ReadySlot(t)
    case None =>
    case Some(i) =>
      CompleteSetUpdate(t.slots, i, Empty(Some(t.slots[i].l)));
      assert i in CompleteSet(t.slots);
  }

  /** The cached count decides a drain exactly as a full scan does. */
  lemma ReadyCountDecidesEmptyScan(t: Table)
    requires TableInv(t) && t.ready == 0
    ensures Drained(t) == None && Drain(t) == t
    ensures forall i :: 0 <= i < |t.slots| ==> !t.slots[i].Complete?
  {
    assert CompleteSet(t.slots) == {};
    forall i | 0 <= i < |t.slots|
      ensures !t.slots[i].Complete?
    {
      assert i !in CompleteSet(t.slots);
    }
  }

  lemma RecordKeepsInv(s: Table, i: nat, l: EventList, sec: int)
    requires TableInv(s) && i < |s.slots| && s.slots[i].Building?
    ensures TableInv(CheckEvents(s.(slots := s.slots[i := Building(l)]), sec))
  {
    var s1 := s.(slots := s.slots[i := Building(l)]);
    CompleteSetUpdate(s.slots, i, Building(l));
    assert CompleteSet(s1.slots) == CompleteSet(s.slots);
    RecountKeepsInv(s1, CheckEvents(s1, sec).slots);
  }

  lemma IngestKeepsInv(t: Table, n: nat, line: Line)
    requires TableInv(t)
    ensures TableInv(Ingest(t, n, line))
  {
    SweepKeepsInv(t);
    var s := Sweep(t);
    if line.Entry? {
      var r := Record(n, line.rtype, line.text);
      var i := FindBuilding(s.slots, line.e, 0);
      if i < |s.slots| {
        RecordKeepsInv(s, i, EventList(line.e, s.slots[i].l.records + [r]), line.e.sec);
      } else if line.rtype != AUDIT_EOE {
        var l := EventList(line.e, [r]);
        AppendKeepsInv(s, l);
        RecountKeepsInv(Append(s, l), CheckEvents(Append(s, l), line.e.sec).slots);
      }
    }
  }
}
