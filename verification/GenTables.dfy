/** Generating the tables that turn numbers into names: a pool of names, and either a
    table indexed by number or a sorted pair of arrays, whichever is smaller. */
module GenTables {
  import opened Common
  import opened Splitting

  const DIRECT_THRESHOLD := 2.0

  datatype Value = Value(val: int, s: seq<Byte>, offset: nat, index: nat)

  /** The order of the tables: by number, then as specified. */
  function CompareVals(a: Value, b: Value): int
  {
    if a.val > b.val then 1
    else if a.val < b.val then -1
    else if a.index > b.index then 1
    else if a.index < b.index then -1
    else 0
  }

  predicate SortedByVal(vs: seq<Value>)
  {
    forall i, j :: 0 <= i < j < |vs| ==> CompareVals(vs[i], vs[j]) <= 0
  }

  // ---------------------------------------------------------------- the name pool

  function Pool(vs: seq<Value>): seq<Byte>
  {
    if vs == [] then [] else Pool(vs[..|vs| - 1]) + vs[|vs| - 1].s + ['\0']
  }

  /** Does the name with its terminator stand at this offset? */
  predicate PointsAt(pool: seq<Byte>, offset: nat, s: seq<Byte>)
  {
    offset + |s| < |pool| && pool[offset..offset + |s|] == s && pool[offset + |s|] == '\0'
  }

  lemma {:induction false} OffsetPoints(vs: seq<Value>, i: nat)
    requires i < |vs|
    ensures PointsAt(Pool(vs), |Pool(vs[..i])|, vs[i].s)
  {
    var init := vs[..|vs| - 1];
    if i < |init| {
      OffsetPoints(init, i);
      assert init[..i] == vs[..i];
      assert Pool(init) <= Pool(vs);
    }
  }

  /** The same values with their offsets in the pool. */
  function Placed(vs: seq<Value>): (r: seq<Value>)
    ensures |r| == |vs|
  {
    seq(|vs|, i requires 0 <= i < |vs| => vs[i].(offset := |Pool(vs[..i])|))
  }

  lemma PoolGrows(vs: seq<Value>, i: nat)
    requires i < |vs|
    ensures Pool(vs[..i + 1]) == Pool(vs[..i]) + vs[i].s + ['\0']
  {
    assert vs[..i + 1][..i] == vs[..i];
  }

  /** Places all names. */
  method PlaceNames(values: array<Value>)
    modifies values
    ensures values[..] == Placed(old(values[..]))
  {
    ghost var vs := values[..];
    var offset := 0;
    for i := 0 to values.Length
      invariant offset == |Pool(vs[..i])|
      invariant forall j :: 0 <= j < i ==> values[j] == vs[j].(offset := |Pool(vs[..j])|)
      invariant forall j :: i <= j < values.Length ==> values[j] == vs[j]
    {
      values[i] := values[i].(offset := offset);
      offset := offset + |values[i].s| + 1;
      PoolGrows(vs, i);
    }
  }

  /** Emits the names one after the other. */
  method EmitNames(values: array<Value>) returns (pool: seq<Byte>)
    ensures pool == Pool(values[..])
  {
    ghost var vs := values[..];
    pool := [];
    for i := 0 to values.Length
      invariant pool == Pool(vs[..i])
    {
      pool := pool + values[i].s + ['\0'];
      PoolGrows(vs, i);
    }
    assert vs[..values.Length] == vs;
  }

  /** Offsets do not change the pool. */
  lemma {:induction false} PoolOfPlaced(vs: seq<Value>)
    ensures Pool(Placed(vs)) == Pool(vs)
  {
    if vs != [] {
      var init := vs[..|vs| - 1];
      PoolOfPlaced(init);
      assert forall i :: 0 <= i < |init| ==> init[..i] == vs[..i];
      assert Placed(vs)[..|vs| - 1] == Placed(init);
    }
  }

  /** Places all names, and emits the pool. */
  method OutputStrings(values: array<Value>) returns (pool: seq<Byte>)
    modifies values
    ensures values[..] == Placed(old(values[..])) && pool == Pool(old(values[..]))
  {
    PoolOfPlaced(values[..]);
    PlaceNames(values);
    pool := EmitNames(values);
  }

  // -------------------------------------------------------------------- the tables

  /** Direct: a cell for every number from `min` on. Search: increasing numbers, and the
      offsets that belong to them. */
  datatype Table = Direct(min: int, cells: seq<Option<nat>>) | Search(keys: seq<int>, offsets: seq<nat>)

  function Lookup(t: Table, v: int): Option<nat>
  {
    match t
    case Direct(min, cells) => if min <= v < min + |cells| then cells[v - min] else None
    case Search(keys, offsets) => if |keys| == |offsets| then Find(keys, offsets, v) else None
  }

  function Find(keys: seq<int>, offsets: seq<nat>, v: int): Option<nat>
    requires |keys| == |offsets|
  {
    if keys == [] then None
    else if keys[0] == v then Some(offsets[0])
    else Find(keys[1..], offsets[1..], v)
  }

  /** The offset of the first value with number `v`. */
  function First(vs: seq<Value>, v: int): (r: Option<nat>)
    ensures r.None? <==> forall i :: 0 <= i < |vs| ==> vs[i].val != v
  {
    if vs == [] then None
    else if vs[0].val == v then Some(vs[0].offset)
    else First(vs[1..], v)
  }

  predicate Increasing(vs: seq<Value>)
  {
    forall i, j :: 0 <= i < j < |vs| ==> vs[i].val < vs[j].val
  }

  lemma {:induction false} FirstIs(vs: seq<Value>, i: nat)
    requires i < |vs| && forall j :: 0 <= j < i ==> vs[j].val != vs[i].val
    ensures First(vs, vs[i].val) == Some(vs[i].offset)
  {
    if i > 0 {
      FirstIs(vs[1..], i - 1);
    }
  }

  /** Is every number once in the list? If not, generation may have to be given up. */
  method HasDuplicates(values: seq<Value>) returns (b: bool)
    requires SortedByVal(values) && values != []
    ensures b <==> !Increasing(values)
  {
    for i := 0 to |values| - 1
      invariant forall j, k :: 0 <= j < k <= i ==> values[j].val < values[k].val
    {
      assert CompareVals(values[i], values[i + 1]) <= 0;
      if values[i].val == values[i + 1].val {
        return true;
      }
    }
    return false;
  }

  /** Do two lists give every number the same meaning? */
  ghost predicate SameFirsts(r: seq<Value>, vs: seq<Value>)
  {
    forall v :: First(r, v) == First(vs, v)
  }

  lemma {:induction false} FirstOfSum(a: seq<Value>, b: seq<Value>, v: int)
    ensures First(a + b, v) == if First(a, v).Some? then First(a, v) else First(b, v)
  {
    if a == [] {
      assert a + b == b;
    } else {
      assert (a + b)[1..] == a[1..] + b;
      FirstOfSum(a[1..], b, v);
    }
  }

  lemma OneMore(r: seq<Value>, vs: seq<Value>, x: Value)
    requires SameFirsts(r, vs)
    ensures SameFirsts(r + [x], vs + [x])
    ensures First(r, x.val).Some? ==> SameFirsts(r, vs + [x])
  {
    forall v
      ensures First(r + [x], v) == First(vs + [x], v)
      ensures First(r, x.val).Some? ==> First(r, v) == First(vs + [x], v)
    {
      FirstOfSum(r, [x], v);
      FirstOfSum(vs, [x], v);
    }
  }

  /** `r` is the first value of each number of `vs`. */
  ghost predicate Firsts(r: seq<Value>, vs: seq<Value>)
  {
    && Increasing(r) && SameFirsts(r, vs) && (r == [] <==> vs == [])
    && (vs != [] ==> r[|r| - 1].val == vs[|vs| - 1].val)
  }

  lemma FirstsOfMore(r: seq<Value>, vs: seq<Value>, x: Value)
    requires Firsts(r, vs) && (vs != [] ==> vs[|vs| - 1].val <= x.val)
    ensures r == [] || r[|r| - 1].val != x.val ==> Firsts(r + [x], vs + [x])
    ensures r != [] && r[|r| - 1].val == x.val ==> Firsts(r, vs + [x])
  {
    OneMore(r, vs, x);
  }

  /** The first value of each number. */
  method Unique(values: seq<Value>) returns (r: seq<Value>)
    requires SortedByVal(values) && values != []
    ensures Increasing(r) && SameFirsts(r, values) && r != []
  {
    r := [];
    for i := 0 to |values|
      invariant Firsts(r, values[..i])
    {
      assert values[..i + 1] == values[..i] + [values[i]];
      assert i > 0 ==> CompareVals(values[i - 1], values[i]) <= 0;
      FirstsOfMore(r, values[..i], values[i]);
      if r == [] || r[|r| - 1].val != values[i].val {
        r := r + [values[i]];
      }
    }
    assert values[..|values|] == values;
  }

  /** Does the table give every number the meaning it has in the list? */
  ghost predicate Means(t: Table, vs: seq<Value>)
  {
    forall v :: Lookup(t, v) == First(vs, v)
  }

  /** The table with a cell for every number. */
  method OutputDirect(unique: seq<Value>) returns (t: Table)
    requires Increasing(unique) && unique != []
    ensures t.Direct? && Means(t, unique)
  {
    var min, max := unique[0].val, unique[|unique| - 1].val;
    var cells: seq<Option<nat>> := [];
    var next, i := min, 0;
    while true
      invariant min <= next <= max && i < |unique| && |cells| == next - min
      invariant forall j :: 0 <= j < i ==> unique[j].val < next
      invariant forall v :: min <= v < next ==> cells[v - min] == First(unique, v)
      decreases max - next
    {
      while unique[i].val < next
        invariant i < |unique| && forall j :: 0 <= j < i ==> unique[j].val < next
        decreases |unique| - i
      {
        i := i + 1;
      }
      if unique[i].val == next {
        FirstIs(unique, i);
        cells := cells + [Some(unique[i].offset)];
      } else {
        cells := cells + [None];
      }
      if next == max {
        break;
      }
      next := next + 1;
    }
    t := Direct(min, cells);
  }

  /** The two arrays. */
  method OutputSearch(unique: seq<Value>) returns (t: Table)
    requires Increasing(unique)
    ensures t.Search? && Means(t, unique)
    ensures |t.keys| == |t.offsets| && forall i, j :: 0 <= i < j < |t.keys| ==> t.keys[i] < t.keys[j]
  {
    var keys: seq<int> := [];
    for i := 0 to |unique|
      invariant |keys| == i && forall j :: 0 <= j < i ==> keys[j] == unique[j].val
    {
      keys := keys + [unique[i].val];
    }
    var offsets: seq<nat> := [];
    for i := 0 to |unique|
      invariant |offsets| == i && forall j :: 0 <= j < i ==> offsets[j] == unique[j].offset
    {
      offsets := offsets + [unique[i].offset];
    }
    t := Search(keys, offsets);
    forall v
      ensures Lookup(t, v) == First(unique, v)
    {
      FindIsFirst(keys, offsets, unique, v);
    }
  }

  lemma {:induction false} FindIsFirst(keys: seq<int>, offsets: seq<nat>, vs: seq<Value>, v: int)
    requires |keys| == |offsets| == |vs|
    requires forall i :: 0 <= i < |vs| ==> keys[i] == vs[i].val && offsets[i] == vs[i].offset
    ensures Find(keys, offsets, v) == First(vs, v)
  {
    if vs != [] {
      FindIsFirst(keys[1..], offsets[1..], vs[1..], v);
    }
  }

  /** The table for a sorted list, of whichever form is smaller; none when a number has
      two names and that was not allowed. Either form means the same. */
  method OutputTable(values: seq<Value>, allowDuplicates: bool) returns (t: Option<Table>)
    requires SortedByVal(values) && values != []
    ensures t.None? <==> !allowDuplicates && !Increasing(values)
    ensures t.Some? ==> Means(t.value, values)
    ensures t.Some? ==> (t.value.Direct? <==> values[|values| - 1].val - values[0].val <= 2 * |Numbers(values)|)
  {
    if !allowDuplicates {
      var dup := HasDuplicates(values);
      if dup {
        return None;
      }
    }
    var unique := Unique(values);
    var min, max, n := unique[0].val, unique[|unique| - 1].val, |unique|;
    var table;
    if (max as real - min as real) / n as real <= DIRECT_THRESHOLD {
      table := OutputDirect(unique);
    } else {
      table := OutputSearch(unique);
    }
    MeansSame(table, unique, values);
    SameSpread(unique, values);
    AtMostTwice(min, max, n);
    t := Some(table);
  }

  /** The numbers that have a name. */
  function Numbers(vs: seq<Value>): set<int>
  {
    set v | v in vs :: v.val
  }

  lemma SameSpread(r: seq<Value>, vs: seq<Value>)
    requires SortedByVal(vs) && Increasing(r) && SameFirsts(r, vs) && r != [] && vs != []
    ensures r[0].val == vs[0].val && r[|r| - 1].val == vs[|vs| - 1].val && |r| == |Numbers(vs)|
  {
    forall v: int
      ensures v in Numbers(r) <==> v in Numbers(vs)
    {
      NumbersAreFound(r, v);
      NumbersAreFound(vs, v);
    }
    assert Numbers(r) == Numbers(vs);
    NumbersOfIncreasing(r);
    assert r[0].val in Numbers(r) && r[|r| - 1].val in Numbers(r);
    assert vs[0].val in Numbers(vs) && vs[|vs| - 1].val in Numbers(vs);
    assert forall i :: 0 <= i < |vs| ==> vs[0].val <= vs[i].val <= vs[|vs| - 1].val;
  }

  lemma NumbersAreFound(vs: seq<Value>, v: int)
    ensures v in Numbers(vs) <==> First(vs, v).Some?
  {
    if First(vs, v).Some? {
      var i :| 0 <= i < |vs| && vs[i].val == v;
      assert vs[i] in vs;
    }
  }

  lemma {:induction false} NumbersOfIncreasing(r: seq<Value>)
    requires Increasing(r)
    ensures |Numbers(r)| == |r|
  {
    if r != [] {
      var n := |r| - 1;
      NumbersOfIncreasing(r[..n]);
      assert r == r[..n] + [r[n]];
      assert Numbers(r) == Numbers(r[..n]) + {r[n].val};
      assert r[n].val !in Numbers(r[..n]);
    }
  }

  lemma AtMostTwice(min: int, max: int, n: nat)
    requires n > 0
    ensures (max as real - min as real) / n as real <= 2.0 <==> max - min <= 2 * n
  {
    var q := (max as real - min as real) / n as real;
    assert q * n as real == max as real - min as real;
    if q <= 2.0 {
      assert q * n as real <= 2.0 * n as real;
    } else {
      assert q * n as real > 2.0 * n as real;
    }
  }

  lemma MeansSame(t: Table, r: seq<Value>, vs: seq<Value>)
    requires Means(t, r) && SameFirsts(r, vs)
    ensures Means(t, vs)
  {
    forall v
      ensures Lookup(t, v) == First(vs, v)
    {
      assert First(r, v) == First(vs, v);
    }
  }

  // ------------------------------------------------------------- what tables mean

  /** The first name specified for a number. */
  function Meaning(pairs: seq<(int, seq<Byte>)>, v: int): (r: Option<seq<Byte>>)
  {
    if pairs == [] then None
    else if pairs[0].0 == v then Some(pairs[0].1)
    else Meaning(pairs[1..], v)
  }

  lemma {:induction false} MeaningAt(pairs: seq<(int, seq<Byte>)>, i: nat)
    requires i < |pairs| && forall j :: 0 <= j < i ==> pairs[j].0 != pairs[i].0
    ensures Meaning(pairs, pairs[i].0) == Some(pairs[i].1)
  {
    if i > 0 {
      MeaningAt(pairs[1..], i - 1);
    }
  }

  lemma {:induction false} NoMeaning(pairs: seq<(int, seq<Byte>)>, v: int)
    requires forall j :: 0 <= j < |pairs| ==> pairs[j].0 != v
    ensures Meaning(pairs, v) == None
  {
    if pairs != [] {
      NoMeaning(pairs[1..], v);
    }
  }

  /** Is the pair specified at `i` among the values? */
  predicate Present(vs: seq<Value>, i: int)
  {
    exists j :: 0 <= j < |vs| && vs[j].index == i
  }

  /** `vs` are the specified pairs in some order, each knowing where it was specified. */
  predicate Arranged(vs: seq<Value>, pairs: seq<(int, seq<Byte>)>)
  {
    && (forall j :: 0 <= j < |vs| ==> vs[j].index < |pairs| && pairs[vs[j].index] == (vs[j].val, vs[j].s))
    && (forall i :: 0 <= i < |pairs| ==> Present(vs, i))
  }

  /** Does each value's offset point at its name? */
  predicate AllPoint(pool: seq<Byte>, vs: seq<Value>)
  {
    forall j :: 0 <= j < |vs| ==> PointsAt(pool, vs[j].offset, vs[j].s)
  }

  lemma PlacedPoint(vs: seq<Value>)
    ensures AllPoint(Pool(vs), Placed(vs))
  {
    forall j | 0 <= j < |vs|
      ensures PointsAt(Pool(vs), Placed(vs)[j].offset, Placed(vs)[j].s)
    {
      OffsetPoints(vs, j);
    }
  }

  lemma PlacedArranged(vs: seq<Value>, pairs: seq<(int, seq<Byte>)>)
    requires Arranged(vs, pairs)
    ensures Arranged(Placed(vs), pairs)
  {
    forall i | 0 <= i < |pairs|
      ensures Present(Placed(vs), i)
    {
      assert Present(vs, i);
      var j :| 0 <= j < |vs| && vs[j].index == i;
      assert Placed(vs)[j].index == i;
    }
  }

  /** Sorting keeps the values arranged and their offsets pointing. */
  lemma SortedStays(vs: seq<Value>, ws: seq<Value>, pairs: seq<(int, seq<Byte>)>, pool: seq<Byte>)
    requires Arranged(vs, pairs) && AllPoint(pool, vs)
    requires forall x :: x in ws <==> x in vs
    ensures Arranged(ws, pairs) && AllPoint(pool, ws)
  {
    forall j | 0 <= j < |ws|
      ensures ws[j].index < |pairs| && pairs[ws[j].index] == (ws[j].val, ws[j].s)
      ensures PointsAt(pool, ws[j].offset, ws[j].s)
    {
      assert ws[j] in vs;
    }
    forall i | 0 <= i < |pairs|
      ensures Present(ws, i)
    {
      assert Present(vs, i);
      var j :| 0 <= j < |vs| && vs[j].index == i;
      assert vs[j] in ws;
    }
  }

  lemma {:induction false} FirstInOrder(vs: seq<Value>, v: int) returns (j: nat)
    requires First(vs, v).Some?
    ensures j < |vs| && vs[j].val == v && First(vs, v) == Some(vs[j].offset)
    ensures forall k :: 0 <= k < j ==> vs[k].val != v
  {
    if vs[0].val == v {
      j := 0;
    } else {
      var k := FirstInOrder(vs[1..], v);
      j := k + 1;
    }
  }

  lemma NothingUnlessSpecified(vs: seq<Value>, pairs: seq<(int, seq<Byte>)>, v: int)
    requires Arranged(vs, pairs) && First(vs, v).None?
    ensures Meaning(pairs, v).None?
  {
    forall i | 0 <= i < |pairs|
      ensures pairs[i].0 != v
    {
      assert Present(vs, i);
    }
    NoMeaning(pairs, v);
  }

  lemma FirstIsFirstSpecified(vs: seq<Value>, pairs: seq<(int, seq<Byte>)>, v: int, j: nat)
    requires SortedByVal(vs) && Arranged(vs, pairs) && j < |vs| && vs[j].val == v
    requires forall k :: 0 <= k < j ==> vs[k].val != v
    ensures Meaning(pairs, v) == Some(vs[j].s)
  {
    forall i | 0 <= i < vs[j].index
      ensures pairs[i].0 != v
    {
      assert Present(vs, i);
      var k :| 0 <= k < |vs| && vs[k].index == i;
      assert k > j ==> CompareVals(vs[j], vs[k]) <= 0;
    }
    MeaningAt(pairs, vs[j].index);
  }

  /** The generated table finds, for every number, the name specified first for it, at its
      place in the pool, and nothing for the others: `named` is the list in the order of
      the pool, `sorted` the placed values in the order of the table. */
  lemma TableFindsFirstSpecified(pairs: seq<(int, seq<Byte>)>, named: seq<Value>, sorted: seq<Value>, t: Table, v: int)
    requires Arranged(named, pairs)
    requires SortedByVal(sorted) && forall x :: x in sorted <==> x in Placed(named)
    requires Means(t, sorted)
    ensures Lookup(t, v).Some? <==> Meaning(pairs, v).Some?
    ensures Lookup(t, v).Some? ==> PointsAt(Pool(named), Lookup(t, v).value, Meaning(pairs, v).value)
  {
    PlacedArranged(named, pairs);
    PlacedPoint(named);
    SortedStays(Placed(named), sorted, pairs, Pool(named));
    assert Lookup(t, v) == First(sorted, v);
    if First(sorted, v).None? {
      NothingUnlessSpecified(sorted, pairs, v);
    } else {
      var j := FirstInOrder(sorted, v);
      FirstIsFirstSpecified(sorted, pairs, v, j);
    }
  }
}
