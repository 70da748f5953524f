/** The queue between the event source and the plug-ins: a ring of slots guarded by a
    lock, several producers that retry when it is full, and consumers that wait. */
module DispatchQueue {
  import opened Common

  // ---------------------------------------------------------------------- the ring

  const UINT_RANGE: nat := 0x1_0000_0000

  /** The slots, where the next event goes, and where the oldest one is. */
  datatype Ring<E> = Ring(q: seq<Option<E>>, next: nat, last: nat)

  function EmptyRing<E>(depth: nat): Ring<E>
  {
    Ring(seq(depth, _ => None), 0, 0)
  }

  /** Slot `i` of the window, cyclically. */
  function Slot(last: nat, i: nat, depth: nat): nat
  {
    if last + i < depth then last + i else last + i - depth
  }

  /** The ring holds exactly the events `c`: they fill the cyclic window that starts
      at `last` and ends before `next`, and every other slot is free. */
  ghost predicate Holds<E>(r: Ring<E>, c: seq<E>)
  {
    && 0 < |r.q| && r.next < |r.q| && r.last < |r.q| && |c| <= |r.q|
    && r.next == Slot(r.last, |c|, |r.q|)
    && (forall i :: 0 <= i < |c| ==> r.q[Slot(r.last, i, |r.q|)] == Some(c[i]))
    && (forall i {:trigger Slot(r.last, i, |r.q|)} :: |c| <= i < |r.q| ==> r.q[Slot(r.last, i, |r.q|)] == None)
  }

  predicate InRange<E>(r: Ring<E>)
  {
    0 < |r.q| && r.next < |r.q| && r.last < |r.q|
  }

  predicate Full<E>(r: Ring<E>)
    requires InRange(r)
  {
    r.q[r.next % |r.q|].Some?
  }

  function Store<E>(r: Ring<E>, e: E): Ring<E>
    requires InRange(r) && !Full(r)
  {
    var n := r.next % |r.q|;
    Ring(r.q[n := Some(e)], (n + 1) % |r.q|, r.last)
  }

  function Oldest<E>(r: Ring<E>): Option<E>
    requires InRange(r)
  {
    r.q[r.last % |r.q|]
  }

  function Taken<E>(r: Ring<E>): Ring<E>
    requires InRange(r) && Oldest(r).Some?
  {
    var n := r.last % |r.q|;
    Ring(r.q[n := None], r.next, (n + 1) % |r.q|)
  }

  function Grow<E>(r: Ring<E>, size: nat): Ring<E>
  {
    if size > |r.q| then r.(q := r.q + seq(size - |r.q|, _ => None)) else r
  }

  /** The occupied slots are one stretch, not wrapped around the end. */
  predicate Unwrapped<E>(r: Ring<E>)
    requires InRange(r)
  {
    r.last < r.next || Oldest(r).None?
  }

  // -------------------------------------------------- operations and the window

  lemma SmallMod(x: nat, d: nat)
    requires x <= d && d > 0
    ensures x % d == if x < d then x else 0
  {
  }

  lemma SlotInjective(last: nat, i: nat, j: nat, depth: nat)
    requires last < depth && i < depth && j < depth && i != j
    ensures Slot(last, i, depth) != Slot(last, j, depth)
  {
  }

  lemma FullWhenAllUsed<E>(r: Ring<E>, c: seq<E>)
    requires Holds(r, c)
    ensures InRange(r) && (Full(r) <==> |c| == |r.q|)
    ensures Oldest(r) == if c == [] then None else Some(c[0])
  {
    SmallMod(r.next, |r.q|);
    SmallMod(r.last, |r.q|);
    assert r.last == Slot(r.last, 0, |r.q|);
    if |c| == |r.q| {
      assert r.next == r.last;
    }
  }

  lemma StoreAppends<E>(r: Ring<E>, c: seq<E>, e: E)
    requires Holds(r, c) && InRange(r) && !Full(r)
    ensures Holds(Store(r, e), c + [e])
  {
    FullWhenAllUsed(r, c);
    var d := |r.q|;
    SmallMod(r.next, d);
    SmallMod(r.next + 1, d);
    var r' := Store(r, e);
    forall i | 0 <= i < d && i != |c|
      ensures r'.q[Slot(r.last, i, d)] == r.q[Slot(r.last, i, d)]
    {
      SlotInjective(r.last, i, |c|, d);
    }
  }

  lemma TakeRemovesFirst<E>(r: Ring<E>, c: seq<E>)
    requires Holds(r, c) && c != []
    ensures InRange(r) && Oldest(r) == Some(c[0]) && Holds(Taken(r), c[1..])
  {
    FullWhenAllUsed(r, c);
    var d := |r.q|;
    SmallMod(r.last, d);
    SmallMod(r.last + 1, d);
    var r' := Taken(r);
    assert r.last == Slot(r.last, 0, d);
    forall i | 0 <= i < d - 1
      ensures Slot(r'.last, i, d) == Slot(r.last, i + 1, d)
      ensures r'.q[Slot(r'.last, i, d)] == r.q[Slot(r.last, i + 1, d)]
    {
      SlotInjective(r.last, i + 1, 0, d);
    }
    assert Slot(r'.last, d - 1, d) == r.last;
  }

  /** Growing a ring keeps its window exactly when the window is not wrapped. */
  lemma GrowKeepsWindow<E>(r: Ring<E>, c: seq<E>, size: nat)
    requires Holds(r, c) && size > |r.q|
    ensures InRange(r) && (Holds(Grow(r, size), c) <==> Unwrapped(r))
  {
    FullWhenAllUsed(r, c);
    var r' := Grow(r, size);
    if Unwrapped(r) {
      forall i | 0 <= i < |c|
        ensures r'.q[Slot(r.last, i, size)] == Some(c[i])
      {
        assert Slot(r.last, i, size) == Slot(r.last, i, |r.q|);
      }
      forall i | |c| <= i < size
        ensures r'.q[Slot(r.last, i, size)] == None
      {
        var s := Slot(r.last, i, size);
        if s < |r.q| {
          var j := if s >= r.last then s - r.last else s + |r.q| - r.last;
          assert Slot(r.last, j, |r.q|) == s && j >= |c|;
        }
      }
    }
  }

  /** Growing a wrapped ring breaks the order: with 2 and 3 queued around the end of a
      ring of two slots, growing it and storing 4 and 5 makes 5 come out before 3. */
  lemma WrappedGrowthReorders()
    ensures var r := Store(Taken(Store(Store(EmptyRing(2), 1), 2)), 3);
            var g := Taken(Grow(r, 4));
            var h := Store(Store(g, 4), 5);
            && !Unwrapped(r) && Oldest(r) == Some(2) && Oldest(Grow(r, 4)) == Some(2)
            && Oldest(h) == Some(5) && Some(3) in h.q && Some(4) in h.q
  {
    var r1 := Store(Store(EmptyRing(2), 1), 2);
    assert r1 == Ring([Some(1), Some(2)], 0, 0);
    var r := Store(Taken(r1), 3);
    assert r == Ring([Some(3), Some(2)], 1, 1);
    assert Grow(r, 4) == Ring([Some(3), Some(2), None, None], 1, 1);
    var g := Taken(Grow(r, 4));
    assert g == Ring([Some(3), None, None, None], 1, 2);
    var h := Store(Store(g, 4), 5);
    assert h == Ring([Some(3), Some(4), Some(5), None], 3, 2);
    assert h.q[0] == Some(3) && h.q[1] == Some(4);
  }

  // ------------------------------------------------------------ growing while wrapped

  /** Taking `n` events one after the other: the events, and the ring left. */
  function TakeTimes<E>(r: Ring<E>, n: nat): Option<(seq<E>, Ring<E>)>
    requires InRange(r)
    decreases n
  {
    if n == 0 then Some(([], r))
    else if Oldest(r).None? then None
    else
      match TakeTimes(Taken(r), n - 1)
      case None => None
      case Some((es, r')) => Some(([Oldest(r).value] + es, r'))
  }

  function StoreAll<E>(r: Ring<E>, xs: seq<E>): Option<Ring<E>>
    requires InRange(r)
    decreases |xs|
  {
    if xs == [] then Some(r) else if Full(r) then None else StoreAll(Store(r, xs[0]), xs[1..])
  }

  /** Events in consecutive slots are taken in order. */
  lemma {:induction false} TakeStretch<E>(r: Ring<E>, c: seq<E>) returns (r': Ring<E>)
    requires InRange(r) && r.last + |c| < |r.q|
    requires forall i :: 0 <= i < |c| ==> r.q[r.last + i] == Some(c[i])
    ensures InRange(r') && TakeTimes(r, |c|) == Some((c, r'))
    ensures |r'.q| == |r.q| && r'.next == r.next && r'.last == r.last + |c|
    ensures forall j :: 0 <= j < |r.q| ==> r'.q[j] == if r.last <= j < r.last + |c| then None else r.q[j]
    decreases |c|
  {
    if c == [] {
      r' := r;
    } else {
      SmallMod(r.last, |r.q|);
      SmallMod(r.last + 1, |r.q|);
      assert r.q[r.last + 0] == Some(c[0]);
      forall i | 0 <= i < |c[1..]|
        ensures Taken(r).q[r.last + 1 + i] == Some(c[1..][i])
      {
        assert r.q[r.last + (i + 1)] == Some(c[i + 1]);
      }
      r' := TakeStretch(Taken(r), c[1..]);
      assert c == [c[0]] + c[1..];
    }
  }

  /** Free consecutive slots are filled in order. */
  lemma {:induction false} StoreStretch<E>(r: Ring<E>, xs: seq<E>) returns (r': Ring<E>)
    requires InRange(r) && r.next + |xs| <= |r.q|
    requires forall j :: r.next <= j < r.next + |xs| ==> r.q[j] == None
    ensures InRange(r') && StoreAll(r, xs) == Some(r')
    ensures |r'.q| == |r.q| && r'.last == r.last
    ensures forall i :: 0 <= i < |xs| ==> r'.q[r.next + i] == Some(xs[i])
    ensures forall j :: 0 <= j < |r.q| && !(r.next <= j < r.next + |xs|) ==> r'.q[j] == r.q[j]
    decreases |xs|
  {
    if xs == [] {
      r' := r;
    } else {
      SmallMod(r.next, |r.q|);
      SmallMod(r.next + 1, |r.q|);
      var s := Store(r, xs[0]);
      if |xs| == 1 {
        r' := s;
        assert xs[1..] == [];
      } else {
        r' := StoreStretch(s, xs[1..]);
        forall i | 0 <= i < |xs|
          ensures r'.q[r.next + i] == Some(xs[i])
        {
          if i > 0 {
            assert r'.q[s.next + (i - 1)] == Some(xs[1..][i - 1]);
          }
        }
      }
    }
  }

  lemma WrappedSize<E>(r: Ring<E>, c: seq<E>)
    requires Holds(r, c) && InRange(r) && !Unwrapped(r)
    ensures |c| == |r.q| - r.last + r.next && r.next <= r.last
  {
    FullWhenAllUsed(r, c);
  }

  lemma AtTheEnd<E>(r: Ring<E>, c: seq<E>, i: nat)
    requires Holds(r, c) && r.last + i < |r.q| && i < |c|
    ensures r.q[r.last + i] == Some(c[i])
  {
    assert r.last + i == Slot(r.last, i, |r.q|);
  }

  lemma AtTheBeginning<E>(r: Ring<E>, c: seq<E>, j: nat)
    requires Holds(r, c) && j < r.last
    ensures var i := |r.q| - r.last + j; r.q[j] == if i < |c| then Some(c[i]) else None
  {
    assert j == Slot(r.last, |r.q| - r.last + j, |r.q|);
  }

  lemma TakenToTheEnd<E>(r: Ring<E>, c: seq<E>, size: nat) returns (g: Ring<E>)
    requires Holds(r, c) && InRange(r) && !Unwrapped(r) && size > |r.q|
    ensures var n := |r.q| - r.last;
            && n <= |c| && InRange(Grow(r, size)) && TakeTimes(Grow(r, size), n) == Some((c[..n], g))
            && InRange(g) && |g.q| == size && g.next == r.next && g.last == |r.q|
            && (forall j :: 0 <= j < size ==> g.q[j] == if j < r.last then r.q[j] else None)
  {
    WrappedSize(r, c);
    var n := |r.q| - r.last;
    forall i | 0 <= i < n
      ensures Grow(r, size).q[r.last + i] == Some(c[..n][i])
    {
      AtTheEnd(r, c, i);
    }
    g := TakeStretch(Grow(r, size), c[..n]);
  }

  /** Growing a wrapped ring and taking the events up to its old end leaves the others at the
      beginning, and looks for the next one past the old end. */
  lemma GrownAndTaken<E>(r: Ring<E>, c: seq<E>, size: nat) returns (g: Ring<E>)
    requires Holds(r, c) && InRange(r) && !Unwrapped(r) && size > |r.q|
    ensures var n := |r.q| - r.last;
            && n <= |c| && InRange(Grow(r, size)) && TakeTimes(Grow(r, size), n) == Some((c[..n], g))
            && InRange(g) && |g.q| == size && g.next == r.next == |c| - n && g.last == |r.q|
            && (forall j :: 0 <= j < size ==> g.q[j] == if j < r.next then Some(c[n + j]) else None)
  {
    WrappedSize(r, c);
    g := TakenToTheEnd(r, c, size);
    LeftAtTheBeginning(r, c, g.q);
  }

  lemma LeftAtTheBeginning<E>(r: Ring<E>, c: seq<E>, q: seq<Option<E>>)
    requires Holds(r, c) && r.next <= r.last && |c| == |r.q| - r.last + r.next
    requires forall j :: 0 <= j < |q| ==> q[j] == if j < r.last then r.q[j] else None
    ensures forall j :: 0 <= j < |q| ==> q[j] == if j < r.next then Some(c[|r.q| - r.last + j]) else None
  {
    forall j | 0 <= j < |q|
      ensures q[j] == if j < r.next then Some(c[|r.q| - r.last + j]) else None
    {
      if j < r.last {
        AtTheBeginning(r, c, j);
      }
    }
  }

  /** Growing any wrapped ring stalls its consumers: after the events up to its old end are
      taken and fewer than enough events `xs` stored to pass that end, a consumer finds
      nothing, although all the other events wait at the beginning. */
  lemma WrappedGrowthStalls<E>(r: Ring<E>, c: seq<E>, size: nat, xs: seq<E>)
    requires Holds(r, c) && InRange(r) && !Unwrapped(r) && size > |r.q|
    requires |xs| <= |r.q| - r.next
    ensures var n := |r.q| - r.last;
            && n <= |c| && InRange(Grow(r, size))
            && var g := TakeTimes(Grow(r, size), n);
            && g.Some? && g.value.0 == c[..n] && InRange(g.value.1)
            && var h := StoreAll(g.value.1, xs);
            && h.Some? && InRange(h.value) && Oldest(h.value) == None && |c + xs| - n <= |h.value.q|
            && forall i :: 0 <= i < |c + xs| - n ==> h.value.q[i] == Some((c + xs)[n + i])
  {
    var g := GrownAndTaken(r, c, size);
    var h := StoreStretch(g, xs);
    SmallMod(|r.q|, size);
    forall i | r.next <= i < r.next + |xs|
      ensures h.q[i] == Some(xs[i - r.next])
    {
      assert h.q[g.next + (i - r.next)] == Some(xs[i - r.next]);
    }
  }

  /** Growing any wrapped ring breaks the order: with one event more, that one comes out
      next, while the one whose turn it is waits in slot 0; so what is delivered is not
      what was accepted first. */
  lemma WrappedGrowthOvertakes<E>(r: Ring<E>, c: seq<E>, size: nat, xs: seq<E>)
    requires Holds(r, c) && InRange(r) && !Unwrapped(r) && size > |r.q|
    requires |xs| == |r.q| - r.next + 1
    ensures var n := |r.q| - r.last;
            && n <= |c| && n < |c + xs| - 1 && InRange(Grow(r, size))
            && var g := TakeTimes(Grow(r, size), n);
            && g.Some? && g.value.0 == c[..n] && InRange(g.value.1)
            && var h := StoreAll(g.value.1, xs);
            && h.Some? && InRange(h.value)
            && Oldest(h.value) == Some(xs[|xs| - 1]) && h.value.q[0] == Some((c + xs)[n])
            && ((c + xs)[n] != xs[|xs| - 1] ==> !(c[..n] + [xs[|xs| - 1]] <= c + xs))
  {
    var n := |r.q| - r.last;
    var g := GrownAndTaken(r, c, size);
    var h := StoreStretch(g, xs);
    SmallMod(|r.q|, size);
    assert h.q[g.next + (|xs| - 1)] == Some(xs[|xs| - 1]);
    if r.next == 0 {
      assert h.q[g.next + 0] == Some(xs[0]);
    }
    NotFirst(c, xs, n);
  }

  lemma NotFirst<E>(c: seq<E>, xs: seq<E>, n: nat)
    requires n < |c + xs| && n <= |c| && xs != []
    ensures (c + xs)[n] != xs[|xs| - 1] ==> !(c[..n] + [xs[|xs| - 1]] <= c + xs)
  {
    assert (c[..n] + [xs[|xs| - 1]])[n] == xs[|xs| - 1];
  }

  // -------------------------------------------------------------------- the queue

  /** The queue itself. Each method is what one thread does while it holds the lock. */
  class Queue<E> {
    var q: array<Option<E>>
    var next: nat
    var last: nat
    var used: nat
    var maxUsed: nat

    ghost function View(): Ring<E>
      reads this, q
    {
      Ring(q[..], next, last)
    }

    constructor (depth: nat)
      requires depth > 0
      ensures View() == EmptyRing(depth) && used == 0 && fresh(q)
    {
      next, last, used, maxUsed := 0, 0, 0, 0;
      q := new Option<E>[depth](_ => None);
    }

    /** One attempt to enqueue. */
    method TryStore(e: E) returns (ok: bool)
      requires InRange(View())
      modifies this`next, this`used, this`maxUsed, q
      ensures ok == !old(Full(View()))
      ensures View() == if ok then Store(old(View()), e) else old(View())
      ensures used == if ok then (old(used) + 1) % UINT_RANGE else old(used)
      ensures maxUsed == if ok && used > old(maxUsed) then used else old(maxUsed)
    {
      var n := next % q.Length;
      if q[n].None? {
        ghost var before := q[..];
        q[n] := Some(e);
        assert q[..] == before[n := Some(e)];
        next := (n + 1) % q.Length;
        used := (used + 1) % UINT_RANGE;
        if used > maxUsed {
          maxUsed := used;
        }
        ok := true;
      } else {
        ok := false;
      }
    }

    /** Taking the oldest event after the wait, if any. */
    method TryTake() returns (e: Option<E>)
      requires InRange(View())
      modifies this`last, this`used, q
      ensures e == old(Oldest(View()))
      ensures View() == if e.Some? then Taken(old(View())) else old(View())
      ensures used == (old(used) + UINT_RANGE - 1) % UINT_RANGE
    {
      var n := last % q.Length;
      e := q[n];
      if e.Some? {
        ghost var before := q[..];
        q[n] := None;
        assert q[..] == before[n := None];
        last := (n + 1) % q.Length;
      }
      used := (used + UINT_RANGE - 1) % UINT_RANGE;
    }

    method IncreaseDepth(size: nat)
      requires InRange(View())
      modifies this`q
      ensures View() == Grow(old(View()), size)
    {
      if size > q.Length {
        var bigger := new Option<E>[size](_ => None);
        forall i | 0 <= i < q.Length {
          bigger[i] := q[i];
        }
        assert bigger[..] == q[..] + seq(size - q.Length, _ => None);
        q := bigger;
      }
    }
  }
}
