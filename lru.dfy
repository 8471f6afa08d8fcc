/**
 * How the fields of a Cache represent the abstract recency list of module
 * LruModel.
 *
 * The doubly-linked list of container/list is represented by stable element
 * handles: the list is a sequence of handles in recency order, a store maps
 * each handle to the entry its element carries, and the index maps a key to
 * its element's handle. A handle plays the part of a *list.Element pointer: it
 * stays the same while the element moves in the list and while its entry's
 * value is overwritten.
 */
module LruRepr {
  import opened LruModel

  /** The identity of a list element. */
  type Handle = nat

  // ---------------------------------------------------------------------------
  // The representation invariant, stated over the fields' values

  /**
   * The list `ll`, the element store `elements`, the index `cache` and the
   * count `nbytes` represent the abstract recency list `items`: the element at
   * each list position carries that position's item, every handle is below
   * `nextHandle`, keys are distinct, the index maps exactly the listed keys,
   * each to its own element, and nbytes is the sum of the entries' costs.
   */
  ghost predicate Represents(ll: seq<Handle>, elements: map<Handle, Item>, cache: map<Key, Handle>,
                             nextHandle: nat, items: seq<Item>, nbytes: int)
  {
    && |ll| == |items|
    && (forall i :: 0 <= i < |ll| ==> ll[i] < nextHandle && ll[i] in elements && elements[ll[i]] == items[i])
    && Distinct(items)
    && cache.Keys == Keys(items)
    && (forall i :: 0 <= i < |ll| ==> items[i].key in cache && cache[items[i].key] == ll[i])
    && nbytes == Bytes(items)
  }

  /** A cached key's element stands in the list where its item stands. */
  lemma CachedElement(ll: seq<Handle>, elements: map<Handle, Item>, cache: map<Key, Handle>,
                      nextHandle: nat, items: seq<Item>, nbytes: int, key: Key)
    requires Represents(ll, elements, cache, nextHandle, items, nbytes) && key in cache
    ensures var k := IndexOfKey(items, key);
      && k < |ll| && ll[k] == cache[key] && Position(ll, cache[key]) == k
      && cache[key] in elements && elements[cache[key]] == items[k]
  {
    var k := IndexOfKey(items, key);
    var p := Position(ll, cache[key]);
    assert items[p].key == items[k].key;
  }

  /** Moving the element at `i` to the front moves its item to the front. */
  lemma MoveToFrontRepresents(ll: seq<Handle>, elements: map<Handle, Item>, cache: map<Key, Handle>,
                              nextHandle: nat, items: seq<Item>, nbytes: int, i: nat)
    requires Represents(ll, elements, cache, nextHandle, items, nbytes) && i < |ll|
    ensures Represents(MoveToFront(ll, i), elements, cache, nextHandle, MoveToFront(items, i), nbytes)
  {
    var l: seq<Handle>, t := MoveToFront(ll, i), MoveToFront(items, i);
    forall j | 0 <= j < |l|
      ensures l[j] < nextHandle && l[j] in elements && elements[l[j]] == t[j]
      ensures t[j].key in cache && cache[t[j].key] == l[j]
    {
      var j' := if j == 0 then i else if j <= i then j - 1 else j;
      assert l[j] == ll[j'] && t[j] == items[j'];
    }
    MoveToFrontKeys(items, i);
    BytesMoveToFront(items, i);
  }

  /**
   * Overwriting the value of a cached key's entry and moving its element to
   * the front: the list represents Put of the items, and the count changes by
   * the difference of the two values' sizes.
   */
  lemma ReplaceRepresents(ll: seq<Handle>, elements: map<Handle, Item>, cache: map<Key, Handle>,
                          nextHandle: nat, items: seq<Item>, nbytes: int, key: Key, value: Value)
    requires Represents(ll, elements, cache, nextHandle, items, nbytes) && key in cache
    ensures var h := cache[key];
      && h in ll && h in elements && elements[h].key == key
      && Represents(MoveToFront(ll, Position(ll, h)), elements[h := elements[h].(value := value)], cache, nextHandle,
           Put(items, key, value), nbytes + value.Len() - elements[h].value.Len())
  {
    var h := cache[key];
    CachedElement(ll, elements, cache, nextHandle, items, nbytes, key);
    var i := Position(ll, h);
    var l: seq<Handle>, t := MoveToFront(ll, i), Put(items, key, value);
    var m := elements[h := elements[h].(value := value)];
    PutExisting(items, key, value);
    forall j | 0 <= j < |l|
      ensures l[j] < nextHandle && l[j] in m && m[l[j]] == t[j]
      ensures t[j].key in cache && cache[t[j].key] == l[j]
    {
      if j > 0 {
        var j' := if j <= i then j - 1 else j;
        assert l[j] == ll[j'] && t[j] == items[j'];
        assert items[j'].key != items[i].key;
      }
    }
  }

  /** A new element pushed at the front, with its key indexed. */
  lemma PushFrontRepresents(ll: seq<Handle>, elements: map<Handle, Item>, cache: map<Key, Handle>,
                            nextHandle: nat, items: seq<Item>, nbytes: int, key: Key, value: Value)
    requires Represents(ll, elements, cache, nextHandle, items, nbytes) && key !in cache
    ensures var item := Item(key, value);
      Represents([nextHandle] + ll, elements[nextHandle := item], cache[key := nextHandle],
        nextHandle + 1, [item] + items, nbytes + Cost(item))
  {
    var item := Item(key, value);
    var l: seq<Handle>, t := [nextHandle] + ll, [item] + items;
    PutNew(items, key, value);
    assert Put(items, key, value) == t;
    forall j | 0 <= j < |l|
      ensures l[j] < nextHandle + 1 && l[j] in elements[nextHandle := item]
      ensures elements[nextHandle := item][l[j]] == t[j]
      ensures t[j].key in cache[key := nextHandle] && cache[key := nextHandle][t[j].key] == l[j]
    {
      if j > 0 {
        assert l[j] == ll[j - 1] && t[j] == items[j - 1];
      }
    }
  }

  /** Dropping the back element and its key drops the back item and its cost. */
  lemma DropLastRepresents(ll: seq<Handle>, elements: map<Handle, Item>, cache: map<Key, Handle>,
                           nextHandle: nat, items: seq<Item>, nbytes: int)
    requires Represents(ll, elements, cache, nextHandle, items, nbytes) && ll != []
    ensures var n := |ll| - 1;
      && ll[n] in elements && elements[ll[n]] == items[n]
      && Represents(ll[..n], elements - {ll[n]}, cache - {items[n].key}, nextHandle,
           items[..n], nbytes - Cost(items[n]))
  {
    var n := |ll| - 1;
    DropOldest(items);
    forall j | 0 <= j < n ensures ll[j] != ll[n] && items[j].key != items[n].key {
      assert items[j].key != items[n].key;
    }
  }


  // ---------------------------------------------------------------------------

}

/**
 * The LRU cache of package `lru` (lru/lru.go): a recency list of list
 * elements, an index from key to element, a running byte count and a byte
 * budget. Each method updates these fields in place as the Go methods do and
 * is proved against the pure functions of module LruModel.
 */
module Lru {
  import opened LruModel
  import opened LruRepr

  /** An LRU cache. It is not safe for concurrent access. */
  class Cache {
    /** The byte budget; zero or less means no bound. */
    const maxBytes: int
    /** The bytes charged for the live entries. */
    var nbytes: int
    /** The recency list, most recently used first. */
    var ll: seq<Handle>
    /** The entry each list element carries. */
    var elements: map<Handle, Item>
    /** The index from key to list element. */
    var cache: map<Key, Handle>
    /** Whether an OnEvicted hook is installed. */
    const onEvicted: bool
    /** The handle the next new list element receives. */
    var nextHandle: nat

    /** The abstract contents: one item per list element, in list order. */
    ghost var entries: seq<Item>
    /** Every call of the OnEvicted hook, in order, with its key and value. */
    ghost var evictions: seq<Item>

    /** The representation invariant. */
    ghost predicate Valid()
      reads this
    {
      Represents(ll, elements, cache, nextHandle, entries, nbytes)
    }

    /** The budget holds, or there is none. */
    ghost predicate WithinBudget()
      reads this
    {
      maxBytes <= 0 || nbytes <= maxBytes
    }

    /** New: an empty cache with the given budget and hook. */
    constructor New(maxBytes: int, onEvicted: bool)
      ensures Valid() && WithinBudget()
      ensures this.maxBytes == maxBytes && this.onEvicted == onEvicted
      ensures entries == [] && evictions == [] && nbytes == 0
    {
      this.maxBytes := maxBytes;
      this.onEvicted := onEvicted;
      nbytes := 0;
      ll := [];
      elements := map[];
      cache := map[];
      nextHandle := 0;
      entries := [];
      evictions := [];
    }

    /**
     * Get: on a hit, the entry comes to the front and its value is returned
     * with ok; on a miss, nothing changes and no value is returned.
     */
    method Get(key: Key) returns (value: Option<Value>, ok: bool)
      requires Valid()
      modifies this
      ensures Valid() && ok == value.Some?
      ensures value == Lookup(old(entries), key)
      ensures entries == Touch(old(entries), key)
      ensures nbytes == old(nbytes) && cache == old(cache)
      ensures evictions == old(evictions)
      ensures !ok ==> unchanged(this)
    {
      if key in cache {
        var elem := cache[key];
        CachedElement(ll, elements, cache, nextHandle, entries, nbytes, key);
        MoveToFrontRepresents(ll, elements, cache, nextHandle, entries, nbytes, Position(ll, elem));
        var i := Position(ll, elem);
        value, ok := Some(elements[elem].value), true;
        ll, entries := MoveToFront(ll, i), MoveToFront(entries, i);
      } else {
        value, ok := None, false;
      }
    }

    /**
     * RemoveOldest: on a non-empty cache, the back entry leaves the list and
     * the index, its cost leaves nbytes, and the hook, if installed, is called
     * once with its key and value. On an empty cache nothing happens.
     */
    method RemoveOldest()
      requires Valid()
      modifies this
      ensures Valid()
      ensures old(entries) == [] ==> unchanged(this)
      ensures old(entries) != [] ==>
        var last := old(entries)[|old(entries)| - 1];
        && entries == old(entries)[..|old(entries)| - 1]
        && nbytes == old(nbytes) - Cost(last)
        && evictions == old(evictions) + (if onEvicted then [last] else [])
      ensures old(WithinBudget()) ==> WithinBudget()
    {
      if |ll| > 0 {
        var elem := ll[|ll| - 1];
        DropLastRepresents(ll, elements, cache, nextHandle, entries, nbytes);
        var kv := elements[elem];
        ll, elements, cache, nbytes, entries, evictions :=
          ll[..|ll| - 1], elements - {elem}, cache - {kv.key}, nbytes - (|kv.key| + kv.value.Len()),
          entries[..|entries| - 1], evictions + (if onEvicted then [kv] else []);
      }
    }

    /**
     * Add: overwrite the value of the entry for `key` and move it to the
     * front, or push a new entry at the front; then evict from the back until
     * the budget holds.
     */
    method Add(key: Key, value: Value)
      requires Valid()
      modifies this
      ensures Valid() && WithinBudget()
      ensures entries == Evict(Put(old(entries), key, value), maxBytes)
      ensures evictions == old(evictions)
        + (if onEvicted then Evicted(Put(old(entries), key, value), maxBytes) else [])
    {
      ghost var l0, m0, c0, h0, e0, n0 := ll, elements, cache, nextHandle, entries, nbytes;
      if key in cache {
        var elem := cache[key];
        var i := Position(ll, elem) by {
          CachedElement(l0, m0, c0, h0, e0, n0, key);
        }
        var kv := elements[elem] by {
          CachedElement(l0, m0, c0, h0, e0, n0, key);
        }
        ll, elements, nbytes, entries :=
          MoveToFront(ll, i), elements[elem := kv.(value := value)], nbytes + value.Len() - kv.value.Len(),
          Put(entries, key, value);
        assert Valid() by {
          ReplaceRepresents(l0, m0, c0, h0, e0, n0, key, value);
        }
      } else {
        var elem := nextHandle;
        ll, elements, cache, nextHandle, nbytes, entries :=
          [elem] + ll, elements[elem := Item(key, value)], cache[key := elem], nextHandle + 1,
          nbytes + |key| + value.Len(), Put(entries, key, value);
        assert Valid() by {
          PushFrontRepresents(l0, m0, c0, h0, e0, n0, key, value);
        }
      }
      EvictOverBudget();
    }

    /**
     * The loop that ends Add: while the budget is positive and exceeded, remove
     * the oldest entry. The cache keeps the entries Evict keeps, and the hook
     * sees the ones Evicted lists, oldest first.
     */
    method EvictOverBudget()
      requires Valid()
      modifies this
      ensures Valid() && WithinBudget()
      ensures entries == Evict(old(entries), maxBytes)
      ensures evictions == old(evictions) + (if onEvicted then Evicted(old(entries), maxBytes) else [])
    {
      ghost var put, log, dropped: seq<Item> := entries, evictions, [];
      assert Logged(evictions, log, dropped, onEvicted);
      assert Evicted(put, maxBytes) == dropped + Evicted(entries, maxBytes);
      while maxBytes > 0 && maxBytes < nbytes
        invariant Valid()
        invariant Evict(entries, maxBytes) == Evict(put, maxBytes)
        invariant Evicted(put, maxBytes) == dropped + Evicted(entries, maxBytes)
        invariant Logged(evictions, log, dropped, onEvicted)
        decreases |ll|
      {
        ghost var before, d0, e0 := entries, dropped, evictions;
        RemoveOldest();
        EvictTurn(put, d0, before, entries, maxBytes);
        LogTurn(e0, log, d0, onEvicted, before[|before| - 1]);
        dropped := d0 + [before[|before| - 1]];
      }
      assert Evicted(put, maxBytes) == dropped by {
        assert Evicted(entries, maxBytes) == [];
        assert dropped + [] == dropped;
      }
    }

    /** Len: the number of entries. */
    method Len() returns (n: int)
      requires Valid()
      ensures n == |entries|
    {
      n := |ll|;
    }
  }
}
