/** Turning a user or group number into text through the cache. */
module NameCache {
  import opened Common
  import opened LruCache

  const CACHE_SIZE: nat := 19

  /** A 32-bit user or group number. */
  type Id = n: int | 0 <= n < 0x1_0000_0000

  /** The number printed as a signed 32-bit integer. */
  function Signed(id: Id): string
  {
    if id < 0x8000_0000 then Decimal(id) else "-" + Decimal(0x1_0000_0000 - id)
  }

  /** It is the decimal form of the number, or of what is missing to the next one of 33
      bits, with a minus sign. */
  lemma SignedIs(id: Id)
    ensures if id < 0x8000_0000 then Prints(Signed(id), id)
            else Signed(id)[0] == '-' && Prints(Signed(id)[1..], 0x1_0000_0000 - id)
  {
    DecimalIs(if id < 0x8000_0000 then id else 0x1_0000_0000 - id);
    if id >= 0x8000_0000 {
      assert Signed(id)[1..] == Decimal(0x1_0000_0000 - id);
    }
  }

  /** What fits a buffer of `size` bytes with its terminator. */
  function Clip(text: string, size: nat): (r: string)
    requires size > 0
    ensures r <= text && |r| == if |text| < size then |text| else size - 1
  {
    if |text| < size then text else text[..size - 1]
  }

  /** The text for a number, looked up directly in the database. */
  function Uncached(db: map<Id, string>, id: Id): string
  {
    if id == UNSET_ID then "unset"
    else if id == 0 then "root"
    else if id in db then db[id]
    else "unknown(" + Signed(id) + ")"
  }

  class Names {
    const db: map<Id, string>
    var cache: Queue?

    /** Every filled node holds the database's text for its number. */
    ghost predicate Valid()
      reads this, cache, if cache == null then {} else {cache.hash}, if cache == null then [] else cache.nodes
    {
      cache != null ==>
        && cache.Valid() && cache.total == CACHE_SIZE
        && (forall k {:trigger cache.hash[k]} :: 0 <= k < cache.hash.Length && cache.hash[k] != null ==>
              (cache.hash[k].id != UNSET_ID ==>
                 cache.hash[k].id in db && cache.hash[k].str == Some(db[cache.hash[k].id])))
    }

    constructor (database: map<Id, string>)
      ensures Valid() && db == database
    {
      db := database;
      cache := null;
    }

    /** The slot of `key` holds something else: replace its node by an unfilled one. */
    method Replace(key: nat) returns (node: QNode)
      requires Valid() && cache != null && key < CACHE_SIZE
      requires cache.front != null && cache.hash[key] == cache.front
      modifies cache, cache.hash, cache.nodes
      ensures Valid() && cache.hash == old(cache.hash) && cache.hash[key] == node
      ensures fresh(node) && node.id == UNSET_ID
    {
      cache.EvictFront(key);
      node := cache.CheckCache(key);
    }

    method Fill(node: QNode, key: nat, id: Id)
      requires Valid() && cache != null && id in db && key < CACHE_SIZE && cache.hash[key] == node
      modifies node`str, node`id
      ensures Valid() && node.str == Some(db[id])
    {
      node.str := Some(db[id]);
      node.id := id;
    }

    method Find(id: Id) returns (name: Option<string>)
      requires Valid() && cache != null && id != UNSET_ID
      modifies cache, cache.hash, cache.nodes
      ensures Valid()
      ensures name == if id in db then Some(db[id]) else None
    {
      var key := id % cache.total;
      var node := cache.CheckCache(key);
      name := None;
      if node != null {
        if node.id == id {
          name := node.str;
        } else {
          node := Replace(key);
          if id in db {
            Fill(node, key, id);
            name := node.str;
          }
        }
      }
    }

    /** Through the cache the answer is always the direct one, whatever was asked
        before, whichever numbers share a slot, and whether or not they are known. */
    method Lookup(id: Id, size: nat) returns (text: string)
      requires Valid() && size > 0
      modifies this, cache, if cache == null then {} else {cache.hash}, if cache == null then [] else cache.nodes
      ensures Valid()
      ensures text == Clip(Uncached(db, id), size)
      ensures var whole := if id == 0xFFFF_FFFF then "unset" else if id == 0 then "root"
                           else if id in db then db[id] else "unknown(" + Signed(id) + ")";
              text <= whole && |text| == if |whole| < size then |whole| else size - 1
    {
      if id == UNSET_ID {
        return Clip("unset", size);
      } else if id == 0 {
        return Clip("root", size);
      }
      if cache == null {
        cache := new Queue(CACHE_SIZE);
      }
      var name := Find(id);
      text := if name.Some? then Clip(name.value, size) else Clip("unknown(" + Signed(id) + ")", size);
    }
  }
}
