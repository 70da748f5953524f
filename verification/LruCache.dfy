/** The cache itself: a doubly linked list of nodes and a table that finds the
    node of a key directly. */
module LruCache {
  import opened Common
  import opened LruOrder

  /** The identity stored in a node before it is filled: (unsigned)-1. */
  const UNSET_ID: nat := 0xFFFF_FFFF

  /** A list node. `key` only records which table entry the node was made for. */
  class QNode {
    ghost const key: nat
    var prev: QNode?
    var next: QNode?
    var uses: nat
    var id: nat
    var str: Option<string>

    constructor (ghost k: nat)
      ensures key == k && prev == null && next == null && uses == 1 && id == UNSET_ID && str == None
    {
      key := k;
      prev, next, uses, id, str := null, null, 1, UNSET_ID, None;
    }
  }

  /** The keys of the nodes, in list order. */
  ghost function KeysOf(nodes: seq<QNode>): (keys: seq<nat>)
    ensures |keys| == |nodes|
  {
    seq(|nodes|, i requires 0 <= i < |nodes| => nodes[i].key)
  }

  /** The nodes are in bijection with the used entries of the table. */
  ghost predicate Indexed(table: seq<QNode?>, nodes: seq<QNode>)
  {
    && (forall i :: 0 <= i < |nodes| ==> nodes[i].key < |table| && table[nodes[i].key] == nodes[i])
    && (forall k :: 0 <= k < |table| && table[k] != null ==> table[k].key == k && table[k] in nodes)
  }

  ghost predicate DistinctNodes(nodes: seq<QNode>)
  {
    forall i, j :: 0 <= i < j < |nodes| ==> nodes[i] != nodes[j]
  }

  /** The table has an entry for exactly the keys in the list, each at one place. */
  lemma TableIsKeySet(table: seq<QNode?>, nodes: seq<QNode>)
    requires Indexed(table, nodes) && DistinctNodes(nodes)
    ensures Distinct(KeysOf(nodes))
    ensures forall k: nat :: k in KeysOf(nodes) <==> k < |table| && table[k] != null
  {
    var keys := KeysOf(nodes);
    forall k: nat | k < |table| && table[k] != null
      ensures k in keys
    {
      var i :| 0 <= i < |nodes| && nodes[i] == table[k];
      assert keys[i] == k;
    }
    forall i, j | 0 <= i < j < |keys|
      ensures keys[i] != keys[j]
    {
      assert nodes[i] != nodes[j];
    }
  }

  lemma KeysRemoved(nodes: seq<QNode>, i: nat)
    requires i < |nodes|
    ensures KeysOf(nodes[..i] + nodes[i + 1..]) == KeysOf(nodes)[..i] + KeysOf(nodes)[i + 1..]
  {
  }

  lemma KeysPrepended(n: QNode, nodes: seq<QNode>)
    ensures KeysOf([n] + nodes) == [n.key] + KeysOf(nodes)
  {
  }

  lemma KeysTouched(table: seq<QNode?>, nodes: seq<QNode>, i: nat)
    requires Indexed(table, nodes) && DistinctNodes(nodes) && i < |nodes|
    ensures KeysOf(nodes[..i] + nodes[i + 1..]) == Without(KeysOf(nodes), nodes[i].key)
    ensures KeysOf([nodes[i]] + (nodes[..i] + nodes[i + 1..])) == Touch(KeysOf(nodes), nodes[i].key)
  {
    TableIsKeySet(table, nodes);
    WithoutAt(KeysOf(nodes), i);
    KeysRemoved(nodes, i);
    KeysPrepended(nodes[i], nodes[..i] + nodes[i + 1..]);
  }

  lemma MovedKeepsIndexed(table: seq<QNode?>, nodes: seq<QNode>, i: nat)
    requires Indexed(table, nodes) && DistinctNodes(nodes) && i < |nodes|
    ensures nodes[i] !in nodes[..i] + nodes[i + 1..]
    ensures Indexed(table, [nodes[i]] + (nodes[..i] + nodes[i + 1..]))
  {
    var rest := nodes[..i] + nodes[i + 1..];
    forall n | n in nodes && n != nodes[i]
      ensures n in rest
    {
      var p :| 0 <= p < |nodes| && nodes[p] == n;
      assert rest[if p < i then p else p - 1] == n;
    }
  }

  lemma KeysExtended(table: seq<QNode?>, nodes: seq<QNode>, n: QNode)
    requires Indexed(table, nodes) && DistinctNodes(nodes) && n.key < |table| && table[n.key] == null
    ensures |nodes| < |table|
    ensures KeysOf([n] + nodes) == Touch(KeysOf(nodes), n.key)
  {
    TableIsKeySet(table, nodes);
    Pigeonhole(KeysOf(nodes), |table|, n.key);
    WithoutMembers(KeysOf(nodes), n.key);
    KeysPrepended(n, nodes);
  }

  lemma KeysDropped(table: seq<QNode?>, nodes: seq<QNode>)
    requires Indexed(table, nodes) && DistinctNodes(nodes) && nodes != []
    ensures KeysOf(nodes[1..]) == Without(KeysOf(nodes), nodes[0].key)
  {
    KeysTouched(table, nodes, 0);
    assert nodes[..0] + nodes[0 + 1..] == nodes[1..];
  }

  /** Dropping the first node and its table entry keeps the bijection. */
  lemma DroppedKeepsIndexed(table: seq<QNode?>, nodes: seq<QNode>)
    requires Indexed(table, nodes) && DistinctNodes(nodes) && nodes != []
    ensures nodes[0].key < |table| && Indexed(table[nodes[0].key := null], nodes[1..])
  {
    var table' := table[nodes[0].key := null];
    forall k | 0 <= k < |table'| && table'[k] != null
      ensures table'[k] in nodes[1..]
    {
      var p :| 0 <= p < |nodes| && nodes[p] == table[k];
      assert nodes[1..][p - 1] == table[k];
    }
  }

  /** Adding a node in front and its table entry keeps the bijection. */
  lemma AddedKeepsIndexed(table: seq<QNode?>, nodes: seq<QNode>, n: QNode)
    requires Indexed(table, nodes) && n.key < |table| && table[n.key] == null
    ensures Indexed(table[n.key := n], [n] + nodes)
  {
    var table', nodes' := table[n.key := n], [n] + nodes;
    forall k | 0 <= k < |table'| && table'[k] != null
      ensures table'[k] in nodes'
    {
      if k == n.key {
        assert nodes'[0] == table'[k];
      } else {
        var p :| 0 <= p < |nodes| && nodes[p] == table[k];
        assert nodes'[p + 1] == table'[k];
      }
    }
  }

  class Queue {
    var count: nat
    var total: nat
    var hits: nat
    var misses: nat
    var evictions: nat
    var front: QNode?
    var end: QNode?
    var hash: array<QNode?>
    ghost var nodes: seq<QNode>
    ghost var history: seq<Access>

    /** The list is well formed. When it is empty nothing is known of `end`: removing
        the only node leaves it dangling. */
    ghost predicate Chained()
      reads this`front, this`end, this`nodes, nodes`prev, nodes`next
    {
      && front == (if nodes == [] then null else nodes[0])
      && (nodes != [] ==> end == nodes[|nodes| - 1])
      && DistinctNodes(nodes)
      && (forall i {:trigger nodes[i].prev} :: 0 <= i < |nodes| ==>
            nodes[i].prev == if i == 0 then null else nodes[i - 1])
      && (forall i {:trigger nodes[i].next} :: 0 <= i < |nodes| ==>
            nodes[i].next == if i == |nodes| - 1 then null else nodes[i + 1])
    }

    ghost predicate Valid()
      reads this`front, this`end, this`nodes, this`count, this`total, this`hash, hash, nodes`prev, nodes`next
    {
      Chained() && Indexed(hash[..], nodes) && total == hash.Length && count == |nodes|
    }

    /** The cached keys, in list order. */
    ghost function Keys(): seq<nat>
      reads this`nodes
    {
      KeysOf(nodes)
    }

    /** The list order is the one that the accesses so far call for. */
    ghost predicate Ordered()
      reads this`nodes, this`history
    {
      InOrder(KeysOf(nodes), history)
    }

    constructor (size: nat)
      ensures Valid() && Ordered() && nodes == [] && total == size && fresh(hash)
    {
      count, total, hits, misses, evictions := 0, size, 0, 0, 0;
      front, end := null, null;
      hash := new QNode?[size](_ => null);
      nodes, history := [], [];
      new;
      InOrderMeans([], []);
    }

    // -------------------------------------------------------------- list surgery

    method InsertBefore(node: QNode, newNode: QNode, ghost k: nat)
      requires Chained() && k < |nodes| && node == nodes[k] && newNode !in nodes
      modifies this`front, this`nodes, nodes`prev, nodes`next, newNode`prev, newNode`next
      ensures Chained() && nodes == old(nodes)[..k] + [newNode] + old(nodes)[k..]
    {
      newNode.prev := node.prev;
      newNode.next := node;
      if node.prev == null {
        front := newNode;
      } else {
        node.prev.next := newNode;
      }
      node.prev := newNode;
      nodes := nodes[..k] + [newNode] + nodes[k..];
    }

    method InsertBeginning(newNode: QNode)
      requires Chained() && newNode !in nodes
      modifies this`front, this`end, this`nodes, nodes`prev, nodes`next, newNode`prev, newNode`next
      ensures Chained() && nodes == [newNode] + old(nodes)
    {
      if front == null {
        front, end := newNode, newNode;
        newNode.prev, newNode.next := null, null;
        nodes := [newNode];
      } else {
        InsertBefore(front, newNode, 0);
      }
    }

    /** Unlinks a node. The two consistency checks of the original, which abort the
        program, can never fire. */
    method RemoveNode(node: QNode, ghost k: nat)
      requires Chained() && k < |nodes| && node == nodes[k]
      modifies this`front, this`end, this`nodes, nodes`prev, nodes`next
      ensures Chained() && nodes == old(nodes)[..k] + old(nodes)[k + 1..]
    {
      if node.prev == null {
        front := node.next;
        if front != null {
          front.prev := null;
        }
      } else {
        if node.prev.next != node {
          assert false;
        }
        node.prev.next := node.next;
        if node.next == null {
          end := node.prev;
          if end != null {
            end.next := null;
          }
        } else {
          if node.next.prev != node {
            assert false;
          }
          node.next.prev := node.prev;
        }
      }
      nodes := nodes[..k] + nodes[k + 1..];
    }

    method RemoveFront()
      requires Chained() && front != null
      modifies this`front, this`end, this`nodes, nodes`prev, nodes`next
      ensures Chained() && nodes == old(nodes)[1..]
    {
      RemoveNode(front, 0);
    }

    method Relink(node: QNode, ghost k: nat)
      requires Chained() && k < |nodes| && node == nodes[k] && node !in nodes[..k] + nodes[k + 1..]
      modifies this`front, this`end, this`nodes, nodes`prev, nodes`next
      ensures Chained() && nodes == [node] + (old(nodes)[..k] + old(nodes)[k + 1..])
    {
      RemoveNode(node, k);
      node.next, node.prev := null, null;
      InsertBeginning(node);
    }

    // ------------------------------------------------------------ cache operations

    /** Removes the last node. */
    method Dequeue()
      requires Chained() && count == |nodes| && count > 0
      modifies this`front, this`end, this`nodes, this`count, nodes`prev, nodes`next
      ensures Chained() && nodes == old(nodes)[..|old(nodes)| - 1] && count == |nodes|
    {
      if end == null {
        assert false;
      }
      RemoveNode(end, |nodes| - 1);
      count := count - 1;
    }

    /** Makes an unfilled entry for a key that has none. The branch that would evict
        for want of room is dead: there are as many slots as keys. */
    method Enqueue(key: nat)
      requires Valid() && key < total && hash[key] == null
      modifies this`front, this`end, this`nodes, this`count, hash, nodes`prev, nodes`next
      ensures Valid() && Keys() == Touch(old(Keys()), key)
      ensures hash[..] == old(hash[..])[key := front] && nodes == [front] + old(nodes)
      ensures front != null && fresh(front) && front.id == UNSET_ID && front.str == None
    {
      var temp := new QNode(key);
      KeysExtended(hash[..], nodes, temp);
      AddedKeepsIndexed(hash[..], nodes, temp);
      if count == total {
        assert false;
      }
      InsertBeginning(temp);
      hash[key] := temp;
      count := count + 1;
      assert hash[..] == old(hash[..])[key := temp];
    }

    /** Moves the node of a cached key to the front. */
    method MoveToFront(page: QNode, key: nat)
      requires Valid() && key < total && hash[key] == page
      modifies this`front, this`end, this`nodes, nodes`prev, nodes`next
      ensures Valid() && front == page && Keys() == Touch(old(Keys()), key)
      ensures forall n :: n in nodes ==> n in old(nodes)
    {
      ghost var k :| 0 <= k < |nodes| && nodes[k] == page;
      KeysTouched(hash[..], nodes, k);
      MovedKeepsIndexed(hash[..], nodes, k);
      Relink(page, k);
    }

    lemma FrontTouched()
      requires Valid() && front != null
      ensures Keys() == Touch(Keys(), front.key)
    {
      KeysTouched(hash[..], nodes, 0);
      assert [nodes[0]] + (nodes[..0] + nodes[1..]) == nodes;
    }

    /** A request for a cached key. */
    method Hit(page: QNode, key: nat)
      requires Valid() && key < total && hash[key] == page
      modifies this`front, this`end, this`nodes, this`hits, nodes`prev, nodes`next, nodes`uses
      ensures Valid() && front == page && Keys() == Touch(old(Keys()), key)
      ensures forall n :: n in nodes ==> n in old(nodes)
      ensures hits == old(hits) + 1
      ensures page.uses == old(page.uses) + if page != old(front) then 1 else 0
    {
      if page != front {
        MoveToFront(page, key);
        front.uses := front.uses + 1;
      } else {
        FrontTouched();
      }
      hits := hits + 1;
    }

    /** The node of a key in range, moved or added to the front. */
    method Fetch(key: nat) returns (r: QNode)
      requires Valid() && key < total
      modifies this`front, this`end, this`nodes, this`count, this`hits, this`misses, hash
      modifies nodes`prev, nodes`next, nodes`uses
      ensures Valid()
      ensures r == front && Keys() == Touch(old(Keys()), key) && hash[..] == old(hash[..])[key := r]
      ensures if old(hash[key]) != null then r == old(hash[key]) else fresh(r) && r.id == UNSET_ID && r.str == None
      ensures forall n :: n in nodes ==> n in old(nodes) || fresh(n)
      ensures hits == old(hits) + (if old(hash[key]) != null then 1 else 0)
      ensures misses == old(misses) + (if old(hash[key]) != null then 0 else 1)
    {
      var page := hash[key];
      if page == null {
        Enqueue(key);
        misses := misses + 1;
      } else {
        Hit(page, key);
      }
      assert page != null ==> hash[..] == old(hash[..])[key := page];
      return front;
    }

    method DropFront(key: nat)
      requires Valid() && key < total && front != null && hash[key] == front
      modifies this`front, this`end, this`nodes, this`count, this`evictions, hash, nodes`prev, nodes`next
      ensures Valid()
      ensures Keys() == Without(old(Keys()), key) && hash[..] == old(hash[..])[key := null]
      ensures forall n :: n in nodes ==> n in old(nodes)
      ensures evictions == old(evictions) + 1
    {
      if end == null {
        assert false;
      }
      KeysDropped(hash[..], nodes);
      DroppedKeepsIndexed(hash[..], nodes);
      hash[key] := null;
      RemoveFront();
      count := count - 1;
      evictions := evictions + 1;
      assert hash[..] == old(hash[..])[key := null];
    }

    /** Requests a key: its node, moved or added to the front. Only the table entry of
        that key can change, and no cached text does. */
    method CheckCache(key: nat) returns (r: QNode?)
      requires Valid()
      modifies this, hash, nodes`prev, nodes`next, nodes`uses
      ensures Valid() && hash == old(hash) && total == old(total)
      ensures r == null <==> key >= total
      ensures r == null ==> Keys() == old(Keys()) && hash[..] == old(hash[..])
      ensures r != null ==> r == front && Keys() == Touch(old(Keys()), key) && hash[..] == old(hash[..])[key := r]
      ensures r != null && old(hash[key]) != null ==> r == old(hash[key])
      ensures r != null && old(hash[key]) == null ==> fresh(r) && r.id == UNSET_ID && r.str == None
      ensures forall n :: n in nodes ==> n in old(nodes) || fresh(n)
      ensures hits == old(hits) + (if r != null && old(hash[key]) != null then 1 else 0)
      ensures misses == old(misses) + (if r != null && old(hash[key]) == null then 1 else 0)
      ensures evictions == old(evictions)
      ensures history == old(history) + if r != null then [Check(key)] else []
      ensures old(Ordered()) ==> Ordered()
    {
      if key >= total {
        return null;
      }
      if Ordered() {
        InOrderOneMore(Keys(), history, Check(key));
      }
      r := Fetch(key);
      history := history + [Check(key)];
    }

    /** Drops the node just requested, because it holds something else. */
    method EvictFront(key: nat)
      requires Valid() && key < total && front != null && hash[key] == front
      modifies this, hash, nodes`prev, nodes`next
      ensures Valid() && hash == old(hash) && total == old(total)
      ensures Keys() == Without(old(Keys()), key) && hash[..] == old(hash[..])[key := null]
      ensures forall n :: n in nodes ==> n in old(nodes)
      ensures evictions == old(evictions) + 1 && hits == old(hits) && misses == old(misses)
      ensures history == old(history) + [Evict(key)]
      ensures old(Ordered()) ==> Ordered()
    {
      if Ordered() {
        InOrderOneMore(Keys(), history, Evict(key));
      }
      DropFront(key);
      history := history + [Evict(key)];
    }
  }
}
