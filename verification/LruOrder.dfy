/** What the cache list should look like: keys, most recently requested first. */
module LruOrder {
  import opened Common

  /** A request for a key, or the eviction of a key just requested. */
  datatype Access = Check(key: nat) | Evict(key: nat)

  predicate Distinct(keys: seq<nat>)
  {
    forall i, j :: 0 <= i < j < |keys| ==> keys[i] != keys[j]
  }

  function Without(keys: seq<nat>, k: nat): seq<nat>
  {
    if keys == [] then [] else
    (if keys[0] == k then [] else [keys[0]]) + Without(keys[1..], k)
  }

  lemma {:induction false} WithoutMembers(keys: seq<nat>, k: nat)
    ensures forall x :: x in Without(keys, k) <==> x in keys && x != k
    ensures k !in keys ==> Without(keys, k) == keys
  {
    if keys != [] {
      WithoutMembers(keys[1..], k);
    }
  }

  /** `k` moves to the front, or enters there. */
  function Touch(keys: seq<nat>, k: nat): seq<nat>
  {
    [k] + Without(keys, k)
  }

  lemma {:induction false} WithoutAt(keys: seq<nat>, i: nat)
    requires Distinct(keys) && i < |keys|
    ensures Without(keys, keys[i]) == keys[..i] + keys[i + 1..]
  {
    if i == 0 {
      WithoutMembers(keys[1..], keys[0]);
    } else {
      WithoutAt(keys[1..], i - 1);
    }
  }

  lemma {:induction false} WithoutKeepsOrder(keys: seq<nat>, k: nat, i: nat, j: nat) returns (i': nat, j': nat)
    requires i < j < |Without(keys, k)|
    ensures i' < j' < |keys| && keys[i'] == Without(keys, k)[i] && keys[j'] == Without(keys, k)[j]
  {
    if keys[0] != k && i == 0 {
      WithoutMembers(keys[1..], k);
      assert Without(keys[1..], k)[j - 1] in Without(keys[1..], k);
      j' :| j' < |keys[1..]| && keys[1..][j'] == Without(keys[1..], k)[j - 1];
      i', j' := 0, j' + 1;
    } else {
      var d := if keys[0] == k then 0 else 1;
      i', j' := WithoutKeepsOrder(keys[1..], k, i - d, j - d);
      i', j' := i' + 1, j' + 1;
    }
  }

  /** The list after a run of accesses. */
  function KeysAfter(run: seq<Access>): seq<nat>
  {
    if run == [] then [] else
    var keys := KeysAfter(run[..|run| - 1]);
    match run[|run| - 1]
    case Check(k) => Touch(keys, k)
    case Evict(k) => Without(keys, k)
  }

  /** The list is the one the run leads to. (Stated of the whole, so that the
      definition stays folded where the list changes.) */
  ghost predicate InOrder(keys: seq<nat>, run: seq<Access>)
  {
    forall n: nat {:trigger Whole(run, n)} :: n == |run| ==> keys == KeysAfter(Whole(run, n))
  }

  lemma InOrderMeans(keys: seq<nat>, run: seq<Access>)
    ensures InOrder(keys, run) <==> keys == KeysAfter(run)
  {
    assert Whole(run, |run|) == run;
  }

  lemma InOrderOneMore(keys: seq<nat>, run: seq<Access>, a: Access)
    requires InOrder(keys, run)
    ensures InOrder(if a.Check? then Touch(keys, a.key) else Without(keys, a.key), run + [a])
  {
    InOrderMeans(keys, run);
    assert (run + [a])[..|run|] == run;
    InOrderMeans(if a.Check? then Touch(keys, a.key) else Without(keys, a.key), run + [a]);
  }

  /** The position of the last access to `k`, or -1. */
  function LastAccess(run: seq<Access>, k: nat): (p: int)
    ensures -1 <= p < |run|
    ensures p >= 0 ==> run[p].key == k
    ensures forall q :: p < q < |run| ==> run[q].key != k
  {
    if run == [] then -1
    else if run[|run| - 1].key == k then |run| - 1
    else LastAccess(run[..|run| - 1], k)
  }

  /** A key is cached exactly when its last access was a request. */
  lemma {:induction false} CachedIffLastChecked(run: seq<Access>, k: nat)
    ensures k in KeysAfter(run) <==> LastAccess(run, k) >= 0 && run[LastAccess(run, k)].Check?
  {
    if run != [] {
      CachedIffLastChecked(run[..|run| - 1], k);
      WithoutMembers(KeysAfter(run[..|run| - 1]), run[|run| - 1].key);
    }
  }

  /** The list is exactly in order of last request, the most recent first. */
  lemma {:induction false} MostRecentFirst(run: seq<Access>)
    ensures forall i, j :: 0 <= i < j < |KeysAfter(run)| ==>
              LastAccess(run, KeysAfter(run)[i]) > LastAccess(run, KeysAfter(run)[j])
  {
    if run != [] {
      var before := run[..|run| - 1];
      var k, keys := run[|run| - 1].key, KeysAfter(before);
      MostRecentFirst(before);
      WithoutMembers(keys, k);
      var rest := Without(keys, k);
      forall i, j | 0 <= i < j < |rest|
        ensures LastAccess(run, rest[i]) > LastAccess(run, rest[j])
      {
        var i', j' := WithoutKeepsOrder(keys, k, i, j);
        assert rest[i] in rest && rest[j] in rest;
      }
      forall j | 0 <= j < |rest|
        ensures |run| - 1 > LastAccess(run, rest[j])
      {
        assert rest[j] in rest;
      }
    }
  }

  lemma OrderIsDistinct(run: seq<Access>)
    ensures Distinct(KeysAfter(run))
  {
    MostRecentFirst(run);
  }

  /** Distinct keys below `total` cannot fill the list while one of them is absent. */
  lemma Pigeonhole(keys: seq<nat>, total: nat, k: nat)
    requires Distinct(keys) && (forall x :: x in keys ==> x < total)
    requires k < total && k !in keys
    ensures |keys| < total
  {
    AtMost(keys + [k], total);
  }

  lemma {:induction false} AtMost(keys: seq<nat>, n: nat)
    requires Distinct(keys) && (forall x :: x in keys ==> x < n)
    ensures |keys| <= n
    decreases n
  {
    if keys != [] {
      assert keys[0] in keys;
    }
    if n == 0 {
    } else if i :| 0 <= i < |keys| && keys[i] == n - 1 {
      var rest := keys[..i] + keys[i + 1..];
      forall x | x in rest
        ensures x < n - 1
      {
        var p :| 0 <= p < |rest| && rest[p] == x;
        var q := if p < i then p else p + 1;
        assert keys[q] == x && keys[q] in keys;
        assert if q < i then keys[q] != keys[i] else keys[i] != keys[q];
      }
      AtMost(rest, n - 1);
    } else {
      AtMost(keys, n - 1);
    }
  }
}
