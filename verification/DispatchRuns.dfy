/** Every interleaving of producers, consumers and reconfiguration, at the
    granularity of the queue lock. */
module DispatchRuns {
  import opened Common
  import opened DispatchQueue

  /** A producer inside its enqueue call: the event and the failed attempts so far. */
  datatype Pending<E> = Pending(e: E, tries: nat)

  datatype System<E> = System(
    ring: Ring<E>,
    used: nat,                  // the counter of used slots, an unsigned 32-bit number
    suspended: bool,
    producers: seq<Pending<E>>, // producers between attempts
    waiting: nat,               // consumers waiting for a signal
    // what has happened so far:
    offered: seq<E>,
    accepted: seq<E>,
    dropped: seq<E>,
    delivered: seq<E>,
    emptyWakes: nat)            // wake-ups that found the queue empty

  /** `hup` is the state of the reload flag when the consumer looks at it. */
  datatype Step<E> =
    | Offer(e: E)
    | Attempt(i: nat, suspendOnOverflow: bool)
    | Consume(hup: bool)
    | Wake(hup: bool)
    | Increase(size: nat)
    | Resume

  function Initial<E>(depth: nat): System<E>
  {
    System(EmptyRing(depth), 0, false, [], 0, [], [], [], [], 0)
  }

  function Removed<T>(s: seq<T>, i: nat): seq<T>
    requires i < |s|
  {
    s[..i] + s[i + 1..]
  }

  /** Entering enqueue: while processing is suspended the event is freed at once. */
  function DoOffer<E>(s: System<E>, e: E): System<E>
  {
    if s.suspended then s.(offered := s.offered + [e], dropped := s.dropped + [e])
    else s.(offered := s.offered + [e], producers := s.producers + [Pending(e, 0)])
  }

  /** One turn of the retry loop of producer `i`. */
  function DoAttempt<E>(s: System<E>, i: nat, suspendOnOverflow: bool): System<E>
    requires InRange(s.ring) && i < |s.producers|
  {
    var p := s.producers[i];
    if p.tries > 3 then
      s.(producers := Removed(s.producers, i), dropped := s.dropped + [p.e],
         suspended := s.suspended || suspendOnOverflow)
    else if Full(s.ring) then
      s.(producers := s.producers[i := Pending(p.e, p.tries + 1)])
    else
      s.(producers := Removed(s.producers, i), ring := Store(s.ring, p.e),
         accepted := s.accepted + [p.e], used := (s.used + 1) % UINT_RANGE)
  }

  /** A consumer holding the lock takes the oldest event, if there is one; the counter
      goes down either way. */
  function Grab<E>(s: System<E>): System<E>
    requires InRange(s.ring)
  {
    var used := (s.used + UINT_RANGE - 1) % UINT_RANGE;
    match Oldest(s.ring)
    case Some(e) => s.(ring := Taken(s.ring), delivered := s.delivered + [e], used := used)
    case None => s.(emptyWakes := s.emptyWakes + 1, used := used)
  }

  function DoConsume<E>(s: System<E>, hup: bool): System<E>
    requires InRange(s.ring)
  {
    if hup then s
    else if Oldest(s.ring).None? then s.(waiting := s.waiting + 1)
    else Grab(s)
  }

  function DoWake<E>(s: System<E>, hup: bool): System<E>
    requires InRange(s.ring) && s.waiting > 0
  {
    var s' := s.(waiting := s.waiting - 1);
    if hup then s' else Grab(s')
  }

  predicate Enabled<E>(s: System<E>, t: Step<E>)
  {
    && (t.Attempt? ==> t.i < |s.producers|)
    && (t.Wake? ==> s.waiting > 0)
  }

  function Next<E>(s: System<E>, t: Step<E>): System<E>
    requires InRange(s.ring) && Enabled(s, t)
  {
    match t
    case Offer(e) => DoOffer(s, e)
    case Attempt(i, sus) => DoAttempt(s, i, sus)
    case Consume(hup) => DoConsume(s, hup)
    case Wake(hup) => DoWake(s, hup)
    case Increase(size) => s.(ring := Grow(s.ring, size))
    case Resume => s.(suspended := false)
  }

  /** `states` is a run: it starts empty and every state follows from the one before. */
  ghost predicate IsRun<E>(depth: nat, steps: seq<Step<E>>, states: seq<System<E>>)
  {
    && depth > 0 && |states| == |steps| + 1 && states[0] == Initial(depth)
    && (forall k :: 0 <= k < |steps| ==>
          InRange(states[k].ring) && Enabled(states[k], steps[k]) && states[k + 1] == Next(states[k], steps[k]))
  }

  // --------------------------------------------------------- conservation, all runs

  function Hit<E(==)>(e: E, x: E): nat
  {
    if e == x then 1 else 0
  }

  /** How often `x` occurs. */
  function Count<E(==)>(s: seq<E>, x: E): nat
  {
    if s == [] then 0 else Count(s[..|s| - 1], x) + Hit(s[|s| - 1], x)
  }

  function CountPending<E(==)>(ps: seq<Pending<E>>, x: E): nat
  {
    if ps == [] then 0 else CountPending(ps[..|ps| - 1], x) + Hit(ps[|ps| - 1].e, x)
  }

  /** How many slots hold `x`, wherever they are. */
  function CountSlots<E(==)>(q: seq<Option<E>>, x: E): nat
  {
    if q == [] then 0 else CountSlots(q[..|q| - 1], x) + HitSlot(q[|q| - 1], x)
  }

  function HitSlot<E(==)>(o: Option<E>, x: E): nat
  {
    if o == Some(x) then 1 else 0
  }

  lemma CountOneMore<E>(s: seq<E>, e: E, x: E)
    ensures Count(s + [e], x) == Count(s, x) + Hit(e, x)
  {
    assert (s + [e])[..|s|] == s;
  }

  lemma PendingOneMore<E>(ps: seq<Pending<E>>, p: Pending<E>, x: E)
    ensures CountPending(ps + [p], x) == CountPending(ps, x) + Hit(p.e, x)
  {
    assert (ps + [p])[..|ps|] == ps;
  }

  lemma {:induction false} PendingRemoved<E>(ps: seq<Pending<E>>, i: nat, x: E)
    requires i < |ps|
    ensures CountPending(Removed(ps, i), x) + Hit(ps[i].e, x) == CountPending(ps, x)
  {
    var n := |ps| - 1;
    if i == n {
      assert Removed(ps, i) == ps[..n];
    } else {
      assert Removed(ps, i) == Removed(ps[..n], i) + [ps[n]];
      PendingOneMore(Removed(ps[..n], i), ps[n], x);
      PendingRemoved(ps[..n], i, x);
    }
  }

  lemma {:induction false} PendingRetried<E>(ps: seq<Pending<E>>, i: nat, tries: nat, x: E)
    requires i < |ps|
    ensures CountPending(ps[i := Pending(ps[i].e, tries)], x) == CountPending(ps, x)
  {
    var n := |ps| - 1;
    var ps' := ps[i := Pending(ps[i].e, tries)];
    if i == n {
      assert ps'[..n] == ps[..n];
    } else {
      assert ps'[..n] == ps[..n][i := Pending(ps[i].e, tries)];
      PendingRetried(ps[..n], i, tries, x);
    }
  }

  lemma {:induction false} SlotsUpdated<E>(q: seq<Option<E>>, i: nat, o: Option<E>, x: E)
    requires i < |q|
    ensures CountSlots(q[i := o], x) + HitSlot(q[i], x) == CountSlots(q, x) + HitSlot(o, x)
  {
    var n := |q| - 1;
    if i == n {
      assert q[i := o][..n] == q[..n];
    } else {
      assert q[i := o][..n] == q[..n][i := o];
      SlotsUpdated(q[..n], i, o, x);
    }
  }

  lemma {:induction false} SlotsPadded<E>(q: seq<Option<E>>, n: nat, x: E)
    ensures CountSlots(q + seq(n, _ => None), x) == CountSlots(q, x)
  {
    var p := q + seq(n, _ => None);
    if n == 0 {
      assert p == q;
    } else {
      assert p[..|p| - 1] == q + seq(n - 1, _ => None);
      SlotsPadded(q, n - 1, x);
    }
  }

  /** Event `x` has been offered as often as it is with a producer, was accepted or
      was dropped; and accepted as often as it was delivered or is in a slot. */
  predicate Balanced<E(==)>(s: System<E>, x: E)
  {
    && Count(s.offered, x) == CountPending(s.producers, x) + Count(s.accepted, x) + Count(s.dropped, x)
    && Count(s.accepted, x) == Count(s.delivered, x) + CountSlots(s.ring.q, x)
  }

  lemma OfferBalances<E>(s: System<E>, e: E, x: E)
    requires Balanced(s, x)
    ensures Balanced(DoOffer(s, e), x)
  {
    CountOneMore(s.offered, e, x);
    CountOneMore(s.dropped, e, x);
    PendingOneMore(s.producers, Pending(e, 0), x);
  }

  lemma AttemptBalances<E>(s: System<E>, i: nat, sus: bool, x: E)
    requires InRange(s.ring) && Balanced(s, x) && i < |s.producers|
    ensures Balanced(DoAttempt(s, i, sus), x)
  {
    var p := s.producers[i];
    if p.tries > 3 {
      PendingRemoved(s.producers, i, x);
      CountOneMore(s.dropped, p.e, x);
    } else if Full(s.ring) {
      PendingRetried(s.producers, i, p.tries + 1, x);
    } else {
      PendingRemoved(s.producers, i, x);
      CountOneMore(s.accepted, p.e, x);
      SlotsUpdated(s.ring.q, s.ring.next % |s.ring.q|, Some(p.e), x);
    }
  }

  lemma GrabBalances<E>(s: System<E>, x: E)
    requires InRange(s.ring) && Balanced(s, x)
    ensures Balanced(Grab(s), x)
  {
    if Oldest(s.ring).Some? {
      CountOneMore(s.delivered, Oldest(s.ring).value, x);
      SlotsUpdated(s.ring.q, s.ring.last % |s.ring.q|, None, x);
    }
  }

  lemma IncreaseBalances<E>(s: System<E>, size: nat, x: E)
    requires Balanced(s, x)
    ensures Balanced(s.(ring := Grow(s.ring, size)), x)
  {
    if size > |s.ring.q| {
      SlotsPadded(s.ring.q, size - |s.ring.q|, x);
    }
  }

  lemma StepBalances<E>(s: System<E>, t: Step<E>, x: E)
    requires InRange(s.ring) && Balanced(s, x) && Enabled(s, t)
    ensures Balanced(Next(s, t), x)
  {
    match t
    case Offer(e) => OfferBalances(s, e, x);
    case Attempt(i, sus) => AttemptBalances(s, i, sus, x);
    case Consume(hup) => ConsumeBalances(s, hup, x);
    case Wake(hup) => WakeBalances(s, hup, x);
    case Increase(size) => IncreaseBalances(s, size, x);
    case Resume =>
  }

  lemma ConsumeBalances<E>(s: System<E>, hup: bool, x: E)
    requires InRange(s.ring) && Balanced(s, x)
    ensures Balanced(DoConsume(s, hup), x)
  {
    GrabBalances(s, x);
  }

  lemma WakeBalances<E>(s: System<E>, hup: bool, x: E)
    requires InRange(s.ring) && Balanced(s, x) && s.waiting > 0
    ensures Balanced(DoWake(s, hup), x)
  {
    GrabBalances(s.(waiting := s.waiting - 1), x);
  }

  /** Through every interleaving, also when the ring grows while wrapped, no event is
      lost or duplicated. */
  lemma {:induction false} RunConserves<E>(depth: nat, steps: seq<Step<E>>, states: seq<System<E>>, k: nat, x: E)
    requires IsRun(depth, steps, states) && k < |states|
    ensures Balanced(states[k], x)
  {
    if k == 0 {
      SlotsPadded([], depth, x);
      assert [] + seq<Option<E>>(depth, _ => None) == states[0].ring.q;
    } else {
      RunConserves(depth, steps, states, k - 1, x);
      StepBalances(states[k - 1], steps[k - 1], x);
    }
  }

  /** No producer has failed more than four times; and the counter of used slots is
      the number of events inside, less the wake-ups that found none, modulo the
      range of the counter. */
  predicate Bounded<E>(s: System<E>)
  {
    && InRange(s.ring)
    && (forall i :: 0 <= i < |s.producers| ==> s.producers[i].tries <= 4)
    && s.used == (|s.accepted| - |s.delivered| - s.emptyWakes) % UINT_RANGE
  }

  lemma CounterUp(n: int)
    ensures (n % UINT_RANGE + 1) % UINT_RANGE == (n + 1) % UINT_RANGE
  {
  }

  lemma CounterDown(n: int)
    ensures (n % UINT_RANGE + UINT_RANGE - 1) % UINT_RANGE == (n - 1) % UINT_RANGE
  {
  }

  lemma StepBounded<E>(s: System<E>, t: Step<E>)
    requires Bounded(s) && Enabled(s, t)
    ensures Bounded(Next(s, t))
  {
    CounterUp(|s.accepted| - |s.delivered| - s.emptyWakes);
    CounterDown(|s.accepted| - |s.delivered| - s.emptyWakes);
  }

  lemma {:induction false} RunBounded<E>(depth: nat, steps: seq<Step<E>>, states: seq<System<E>>, k: nat)
    requires IsRun(depth, steps, states) && k < |states|
    ensures Bounded(states[k])
  {
    if k > 0 {
      RunBounded(depth, steps, states, k - 1);
      StepBounded(states[k - 1], steps[k - 1]);
    }
  }

  // ------------------------------------------------------------------------- order

  /** Accepted events leave in the order in which they were accepted. */
  ghost predicate InOrder<E>(s: System<E>, c: seq<E>)
  {
    Holds(s.ring, c) && s.accepted == s.delivered + c
  }

  /** Growing happens only while the occupied slots do not wrap around. */
  ghost predicate GrowsUnwrapped<E>(steps: seq<Step<E>>, states: seq<System<E>>)
  {
    forall k :: 0 <= k < |steps| && k < |states| && InRange(states[k].ring) ==>
      (steps[k].Increase? && steps[k].size > |states[k].ring.q| ==> Unwrapped(states[k].ring))
  }

  lemma GrabInOrder<E>(s: System<E>, c: seq<E>) returns (c': seq<E>)
    requires InOrder(s, c) && InRange(s.ring)
    ensures InOrder(Grab(s), c')
  {
    FullWhenAllUsed(s.ring, c);
    if c == [] {
      c' := c;
    } else {
      TakeRemovesFirst(s.ring, c);
      c' := c[1..];
      assert s.delivered + [c[0]] + c[1..] == s.delivered + c;
    }
  }

  lemma StepInOrder<E>(s: System<E>, t: Step<E>, c: seq<E>) returns (c': seq<E>)
    requires InOrder(s, c) && InRange(s.ring) && Enabled(s, t)
    requires t.Increase? && t.size > |s.ring.q| ==> Unwrapped(s.ring)
    ensures InOrder(Next(s, t), c')
  {
    c' := c;
    match t
    case Offer(e) =>
    case Attempt(i, sus) =>
      var p := s.producers[i];
      if p.tries <= 3 && !Full(s.ring) {
        StoreAppends(s.ring, c, p.e);
        c' := c + [p.e];
        assert s.accepted + [p.e] == s.delivered + c';
      }
    case Consume(hup) =>
      if !hup && Oldest(s.ring).Some? {
        c' := GrabInOrder(s, c);
      }
    case Wake(hup) =>
      if !hup {
        c' := GrabInOrder(s.(waiting := s.waiting - 1), c);
      }
    case Increase(size) =>
      if size > |s.ring.q| {
        GrowKeepsWindow(s.ring, c, size);
      }
    case Resume =>
  }

  /** In every run that grows the ring only while it is not wrapped, the occupied
      slots are the cyclic window of the events accepted and not yet delivered, and
      these are delivered first in, first out. */
  lemma {:induction false} FirstInFirstOut<E>(depth: nat, steps: seq<Step<E>>, states: seq<System<E>>, k: nat)
    returns (c: seq<E>)
    requires IsRun(depth, steps, states) && GrowsUnwrapped(steps, states) && k < |states|
    ensures InOrder(states[k], c)
    ensures states[k].delivered <= states[k].accepted
  {
    if k == 0 {
      c := [];
    } else {
      c := FirstInFirstOut(depth, steps, states, k - 1);
      c := StepInOrder(states[k - 1], steps[k - 1], c);
    }
  }

  /** In those runs a consumer that looks for an event finds none, and so waits, only when
      every accepted event has been delivered; otherwise it takes the oldest of the rest. */
  lemma WaitsOnlyWhenEmpty<E>(depth: nat, steps: seq<Step<E>>, states: seq<System<E>>, k: nat)
    requires IsRun(depth, steps, states) && GrowsUnwrapped(steps, states) && k < |states|
    ensures var s := states[k];
            && InRange(s.ring) && s.delivered <= s.accepted
            && (DoConsume(s, false).waiting > s.waiting <==> |s.delivered| == |s.accepted|)
            && (|s.delivered| < |s.accepted| ==> Oldest(s.ring) == Some(s.accepted[|s.delivered|]))
  {
    var c := FirstInFirstOut(depth, steps, states, k);
    FullWhenAllUsed(states[k].ring, c);
    assert c != [] ==> states[k].accepted[|states[k].delivered|] == c[0];
  }

  /** And what a step delivers: a consumer that does not see the reload flag takes the oldest
      of the rest, or starts to wait when there is none. */
  lemma DeliveredByStep<E>(depth: nat, steps: seq<Step<E>>, states: seq<System<E>>, k: nat)
    requires IsRun(depth, steps, states) && GrowsUnwrapped(steps, states) && k < |steps|
    ensures var s, s', t := states[k], states[k + 1], steps[k];
            && s.delivered <= s.accepted
            && s'.delivered == s.delivered +
                 (if (t.Consume? || t.Wake?) && !t.hup && |s.delivered| < |s.accepted|
                  then [s.accepted[|s.delivered|]] else [])
            && s'.waiting == s.waiting +
                 (if t.Consume? && !t.hup && |s.delivered| == |s.accepted| then 1 else if t.Wake? then -1 else 0)
  {
    WaitsOnlyWhenEmpty(depth, steps, states, k);
  }

  // ---------------------------------------------------------------------- what is dropped

  /** Step `k` of the run is a failed attempt to store `e`: the ring was full. */
  ghost predicate FailedAt<E>(steps: seq<Step<E>>, states: seq<System<E>>, k: nat, e: E)
  {
    && k < |steps| && k < |states| && steps[k].Attempt? && InRange(states[k].ring) && Full(states[k].ring)
    && steps[k].i < |states[k].producers| && states[k].producers[steps[k].i].e == e
  }

  ghost predicate Failures<E>(steps: seq<Step<E>>, states: seq<System<E>>, ks: seq<nat>, k: nat, e: E)
  {
    && (forall j :: 0 <= j < |ks| ==> ks[j] < k && FailedAt(steps, states, ks[j], e))
    && (forall j, j' :: 0 <= j < j' < |ks| ==> ks[j] < ks[j'])
  }

  /** Where producer `i` was before a step, if it was there, and whether the step was a failed
      attempt of it. */
  lemma CameFrom<E>(s: System<E>, t: Step<E>, i: nat) returns (m: Option<nat>, failed: bool)
    requires InRange(s.ring) && Enabled(s, t) && i < |Next(s, t).producers|
    ensures m.None? ==> Next(s, t).producers[i].tries == 0
    ensures m.Some? ==>
              && m.value < |s.producers| && s.producers[m.value].e == Next(s, t).producers[i].e
              && Next(s, t).producers[i].tries == s.producers[m.value].tries + if failed then 1 else 0
    ensures failed ==> m.Some? && t.Attempt? && t.i == m.value && Full(s.ring)
  {
    m, failed := Some(i), false;
    if t.Offer? && i == |s.producers| {
      m := None;
    } else if t.Attempt? {
      var p := s.producers[t.i];
      if p.tries <= 3 && Full(s.ring) {
        failed := i == t.i;
      } else if i >= t.i {
        m := Some(i + 1);
      }
    }
  }

  /** A producer has failed as often as there were attempts of it on a full ring. */
  lemma {:induction false} TriesAreFailures<E>(depth: nat, steps: seq<Step<E>>, states: seq<System<E>>, k: nat, i: nat)
    returns (ks: seq<nat>)
    requires IsRun(depth, steps, states) && k < |states| && i < |states[k].producers|
    ensures |ks| == states[k].producers[i].tries && Failures(steps, states, ks, k, states[k].producers[i].e)
  {
    ks := [];
    if k > 0 {
      var m, failed := CameFrom(states[k - 1], steps[k - 1], i);
      if m.Some? {
        ks := TriesAreFailures(depth, steps, states, k - 1, m.value);
        if failed {
          ks := ks + [k - 1];
        }
      }
    }
  }

  /** In every run, an event is dropped only when it is offered while processing is suspended,
      or after four attempts to store it that all found the ring full. */
  lemma DroppedAfterFourFailures<E>(depth: nat, steps: seq<Step<E>>, states: seq<System<E>>, k: nat)
    returns (ks: seq<nat>)
    requires IsRun(depth, steps, states) && k < |steps| && states[k + 1].dropped != states[k].dropped
    ensures |states[k + 1].dropped| == |states[k].dropped| + 1
    ensures var e := states[k + 1].dropped[|states[k].dropped|];
            || (steps[k] == Offer(e) && states[k].suspended)
            || (steps[k].Attempt? && |ks| == 4 && Failures(steps, states, ks, k, e))
  {
    ks := [];
    RunBounded(depth, steps, states, k);
    if steps[k].Attempt? {
      ks := TriesAreFailures(depth, steps, states, k, steps[k].i);
    }
  }

  /** It is dropped when it is offered exactly if processing is suspended. */
  lemma RefusedIffSuspended<E>(depth: nat, steps: seq<Step<E>>, states: seq<System<E>>, k: nat)
    requires IsRun(depth, steps, states) && k < |steps| && steps[k].Offer?
    ensures states[k + 1].dropped == states[k].dropped + [steps[k].e] <==> states[k].suspended
    ensures states[k + 1].producers == states[k].producers + [Pending(steps[k].e, 0)] <==> !states[k].suspended
  {
    var d, p := states[k].dropped, states[k].producers;
    assert d + [steps[k].e] != d && p + [Pending(steps[k].e, 0)] != p;
  }

  /** And an attempt that finds a free slot, with fewer failures, stores the event. */
  lemma FreeSlotIsTaken<E>(depth: nat, steps: seq<Step<E>>, states: seq<System<E>>, k: nat)
    requires IsRun(depth, steps, states) && k < |steps| && steps[k].Attempt?
    requires !Full(states[k].ring) && states[k].producers[steps[k].i].tries < 4
    ensures states[k + 1].accepted == states[k].accepted + [states[k].producers[steps[k].i].e]
    ensures states[k + 1].dropped == states[k].dropped
  {
  }

  /** Processing is suspended by dropping an event after its last failure when that is asked
      for, and until it is resumed. */
  lemma SuspendedIff<E>(depth: nat, steps: seq<Step<E>>, states: seq<System<E>>, k: nat)
    requires IsRun(depth, steps, states) && k < |steps|
    ensures states[k + 1].suspended <==>
            || (states[k].suspended && !steps[k].Resume?)
            || (steps[k].Attempt? && steps[k].suspendOnOverflow && states[k + 1].dropped != states[k].dropped)
  {
    assert forall e :: states[k].dropped + [e] != states[k].dropped;
  }
}
