/**
 * The abstract state of the byte-bounded LRU cache of package `lru`, and its
 * eviction policy, as pure functions.
 *
 * The recency list is a sequence of key/value items, most recently used at
 * index 0 and least recently used at the end. The byte count charged for an
 * item is len(key) + value.Len(). The functions Put, Touch, Evict and Evicted
 * say what Cache.Add, Cache.Get and the eviction loop of Cache.Add do to that
 * sequence; the lemmas below state what the cache promises about them.
 */
module LruModel {

  datatype Option<T> = None | Some(value: T)

  /** A Go string is a sequence of bytes, and len(key) counts those bytes. */
  type Key = seq<bv8>

  /**
   * A cached value. The cache asks nothing of a value but its size in bytes,
   * reported by Len(); `payload` stands for whatever else the value holds.
   */
  datatype Value = Value(payload: seq<bv8>, size: nat) {
    function Len(): nat { size }
  }

  /** The abstract view of one entry of the recency list. */
  datatype Item = Item(key: Key, value: Value)

  /** The bytes an entry is charged: len(key) + value.Len(). */
  function Cost(item: Item): (c: nat)
    ensures |item.key| <= c && item.value.Len() <= c
  {
    |item.key| + item.value.Len()
  }

  /** The bytes charged for all the entries of `s`. */
  function Bytes(s: seq<Item>): nat {
    if s == [] then 0 else Cost(s[0]) + Bytes(s[1..])
  }

  /** The keys that occur in `s`: the key set of the index. */
  function Keys(s: seq<Item>): set<Key> {
    if s == [] then {} else {s[0].key} + Keys(s[1..])
  }

  /** The key of every entry is in the key set. */
  lemma {:induction false} KeyAt(s: seq<Item>, i: nat)
    requires i < |s|
    ensures s[i].key in Keys(s)
  {
    if i > 0 {
      KeyAt(s[1..], i - 1);
    }
  }

  /** A key is in Keys(s) exactly when some entry of `s` carries it. */
  lemma {:induction false} KeysIndexed(s: seq<Item>)
    ensures forall i :: 0 <= i < |s| ==> s[i].key in Keys(s)
    ensures forall key :: key in Keys(s) ==> exists i :: 0 <= i < |s| && s[i].key == key
  {
    if s != [] {
      KeysIndexed(s[1..]);
      forall i | 0 < i < |s| ensures s[i].key in Keys(s) {
        assert s[i] == s[1..][i - 1];
      }
      forall key | key in Keys(s[1..]) ensures exists i :: 0 <= i < |s| && s[i].key == key {
        var i :| 0 <= i < |s[1..]| && s[1..][i].key == key;
        assert s[i + 1].key == key;
      }
    }
  }

  /** No key occurs twice in the recency list. */
  predicate Distinct(s: seq<Item>) {
    forall i, j :: 0 <= i < j < |s| ==> s[i].key != s[j].key
  }

  // ---------------------------------------------------------------------------
  // Sequence operations the list performs

  /** The sequence without its element at index `i`; the others keep their order. */
  function RemoveAt<T>(s: seq<T>, i: nat): (r: seq<T>)
    requires i < |s|
    ensures |r| == |s| - 1
    ensures forall j :: 0 <= j < |r| ==> r[j] == s[if j < i then j else j + 1]
  {
    s[..i] + s[i + 1..]
  }

  /** The element at index `i` moved to the front; the others keep their order. */
  function MoveToFront<T>(s: seq<T>, i: nat): (r: seq<T>)
    requires i < |s|
    ensures |r| == |s| && r[0] == s[i]
    ensures forall j :: 0 < j < |r| ==> r[j] == s[if j <= i then j - 1 else j]
  {
    [s[i]] + RemoveAt(s, i)
  }

  /** Removing past the front element is removing from the tail. */
  lemma RemoveAtCons<T>(s: seq<T>, i: nat)
    requires 0 < i < |s|
    ensures RemoveAt(s, i) == [s[0]] + RemoveAt(s[1..], i - 1)
  {
    assert s[..i] == [s[0]] + s[1..][..i - 1];
  }

  /** Removing an element takes exactly one occurrence of it out of the multiset. */
  lemma MultisetRemoveAt<T>(s: seq<T>, i: nat)
    requires i < |s|
    ensures multiset(s) == multiset(RemoveAt(s, i)) + multiset{s[i]}
  {
    assert s == s[..i] + [s[i]] + s[i + 1..];
  }

  /** Where `x` stands in `s`. */
  function Position<T(==)>(s: seq<T>, x: T): (i: nat)
    requires x in s
    ensures i < |s| && s[i] == x
    ensures forall j :: 0 <= j < i ==> s[j] != x
  {
    if s[0] == x then 0 else 1 + Position(s[1..], x)
  }

  /** Where the entry for `key` stands in the recency list. */
  function IndexOfKey(s: seq<Item>, key: Key): (i: nat)
    requires key in Keys(s)
    ensures i < |s| && s[i].key == key
    ensures Distinct(s) ==> forall j :: 0 <= j < |s| && s[j].key == key ==> j == i
  {
    if s[0].key == key then 0 else 1 + IndexOfKey(s[1..], key)
  }

  /** The value stored under `key`, if any. */
  function Lookup(s: seq<Item>, key: Key): (r: Option<Value>)
    ensures r.Some? <==> key in Keys(s)
    ensures r.Some? ==> exists i :: 0 <= i < |s| && s[i] == Item(key, r.value)
  {
    if key in Keys(s) then Some(s[IndexOfKey(s, key)].value) else None
  }

  // ---------------------------------------------------------------------------
  // The effect of the cache operations on the recency list

  /**
   * Get: a hit moves the entry for `key` to the front, a miss changes nothing.
   */
  function Touch(s: seq<Item>, key: Key): (t: seq<Item>)
    ensures |t| == |s|
    ensures key in Keys(s) ==> t[0].key == key
    ensures key !in Keys(s) ==> t == s
  {
    if key in Keys(s) then MoveToFront(s, IndexOfKey(s, key)) else s
  }

  /**
   * Add before its eviction loop: an existing entry for `key` is moved to the
   * front and given the new value; otherwise a new entry is pushed at the front.
   */
  function Put(s: seq<Item>, key: Key, value: Value): (p: seq<Item>)
    ensures |p| > 0 && p[0] == Item(key, value)
  {
    if key in Keys(s) then [Item(key, value)] + RemoveAt(s, IndexOfKey(s, key))
    else [Item(key, value)] + s
  }

  /**
   * The eviction loop of Add: while the budget is positive and exceeded, drop
   * the back (least recently used) entry. The list cannot run empty while the
   * budget is exceeded, because an empty list is charged no bytes.
   */
  function Evict(s: seq<Item>, maxBytes: int): (r: seq<Item>)
    ensures |r| <= |s| && r == s[..|r|]
    ensures maxBytes <= 0 ==> r == s
    decreases |s|
  {
    if maxBytes > 0 && maxBytes < Bytes(s) then
      var r := Evict(s[..|s| - 1], maxBytes);
      assert s[..|s| - 1][..|r|] == s[..|r|];
      r
    else s
  }

  /**
   * Evict keeps the longest prefix that fits: what it keeps is within a
   * positive budget, and keeping one more entry would exceed it.
   */
  lemma {:induction false} EvictFits(s: seq<Item>, maxBytes: int)
    ensures var r := Evict(s, maxBytes);
      && (maxBytes <= 0 || Bytes(r) <= maxBytes)
      && (|r| < |s| ==> maxBytes < Bytes(s[..|r| + 1]))
    decreases |s|
  {
    if maxBytes > 0 && maxBytes < Bytes(s) {
      var t := s[..|s| - 1];
      EvictFits(t, maxBytes);
      var r := Evict(t, maxBytes);
      assert |r| + 1 < |s| ==> t[..|r| + 1] == s[..|r| + 1];
      assert s[..|s|] == s;
    }
  }

  /** The entries the eviction loop drops, in the order it drops them. */
  function Evicted(s: seq<Item>, maxBytes: int): (r: seq<Item>)
    ensures |r| == |s| - |Evict(s, maxBytes)|
    decreases |s|
  {
    if maxBytes > 0 && maxBytes < Bytes(s) then [s[|s| - 1]] + Evicted(s[..|s| - 1], maxBytes) else []
  }

  /**
   * One turn of the eviction loop, from a list `before` that still exceeds the
   * budget to `after`, the list without its back entry: if `before` evicts
   * like `put` once `dropped` is gone, so does `after` once `dropped` and the
   * back entry of `before` are gone.
   */
  lemma EvictTurn(put: seq<Item>, dropped: seq<Item>, before: seq<Item>, after: seq<Item>, maxBytes: int)
    requires 0 < maxBytes < Bytes(before) && after == before[..|before| - 1]
    requires Evict(before, maxBytes) == Evict(put, maxBytes)
    requires Evicted(put, maxBytes) == dropped + Evicted(before, maxBytes)
    ensures Evict(after, maxBytes) == Evict(put, maxBytes)
    ensures Evicted(put, maxBytes) == dropped + [before[|before| - 1]] + Evicted(after, maxBytes)
  {
    var e := Evicted(after, maxBytes);
    assert Evicted(before, maxBytes) == [before[|before| - 1]] + e;
    assert dropped + ([before[|before| - 1]] + e) == dropped + [before[|before| - 1]] + e;
  }

  /** The hook log: `log` followed by `dropped` when a hook is installed. */
  ghost predicate Logged(evictions: seq<Item>, log: seq<Item>, dropped: seq<Item>, hooked: bool) {
    evictions == log + (if hooked then dropped else [])
  }

  /** A dropped entry is logged when a hook is installed. */
  lemma LogTurn(evictions: seq<Item>, log: seq<Item>, dropped: seq<Item>, hooked: bool, item: Item)
    requires Logged(evictions, log, dropped, hooked)
    ensures Logged(evictions + (if hooked then [item] else []), log, dropped + [item], hooked)
  {
    if hooked {
      assert log + dropped + [item] == log + (dropped + [item]);
    }
  }

  /**
   * The evicted entries are exactly the ones Evict cuts off the back of the
   * list, taken from the back: the oldest first.
   */
  lemma {:induction false} EvictedFromBack(s: seq<Item>, maxBytes: int)
    ensures forall j :: 0 <= j < |Evicted(s, maxBytes)| ==> Evicted(s, maxBytes)[j] == s[|s| - 1 - j]
    decreases |s|
  {
    if maxBytes > 0 && maxBytes < Bytes(s) {
      var t := s[..|s| - 1];
      EvictedFromBack(t, maxBytes);
      var r, q := Evicted(s, maxBytes), Evicted(t, maxBytes);
      assert r == [s[|s| - 1]] + q;
      forall j | 0 < j < |r| ensures r[j] == s[|s| - 1 - j] {
        assert r[j] == q[j - 1] == t[|t| - j];
      }
    }
  }

  // ---------------------------------------------------------------------------
  // Byte accounting

  /** Taking any one entry out of the list lowers the byte count by its cost. */
  lemma {:induction false} BytesRemoveAt(s: seq<Item>, i: nat)
    requires i < |s|
    ensures Bytes(s) == Cost(s[i]) + Bytes(RemoveAt(s, i))
  {
    if i == 0 {
      assert RemoveAt(s, 0) == s[1..];
    } else {
      BytesRemoveAt(s[1..], i - 1);
      RemoveAtCons(s, i);
      assert ([s[0]] + RemoveAt(s[1..], i - 1))[1..] == RemoveAt(s[1..], i - 1);
    }
  }

  /** Reordering an entry to the front does not change the byte count. */
  lemma {:induction false} BytesMoveToFront(s: seq<Item>, i: nat)
    requires i < |s|
    ensures Bytes(MoveToFront(s, i)) == Bytes(s)
  {
    BytesRemoveAt(s, i);
    assert MoveToFront(s, i)[1..] == RemoveAt(s, i);
  }

  /** A prefix of the list is charged no more than the whole list. */
  lemma {:induction false} BytesPrefix(s: seq<Item>, n: nat)
    requires n <= |s|
    ensures Bytes(s[..n]) <= Bytes(s)
  {
    if n > 0 {
      BytesPrefix(s[1..], n - 1);
      assert s[..n][1..] == s[1..][..n - 1];
    }
  }

  /** The byte count is a sum over the entries: it adds up across a split of the list. */
  lemma {:induction false} BytesConcat(a: seq<Item>, b: seq<Item>)
    ensures Bytes(a + b) == Bytes(a) + Bytes(b)
  {
    if a != [] {
      BytesConcat(a[1..], b);
      assert (a + b)[1..] == a[1..] + b;
    } else {
      assert a + b == b;
    }
  }

  // ---------------------------------------------------------------------------
  // The representation: distinct keys, a key set and a byte count

  /**
   * Get on a hit (Touch): the entry for `key` comes to the front with its value;
   * the entries, their values, the key set and the byte count are unchanged.
   * On a miss nothing changes.
   */
  lemma TouchKeepsEntries(s: seq<Item>, key: Key)
    requires Distinct(s)
    ensures var t := Touch(s, key);
      && Distinct(t) && Keys(t) == Keys(s)
      && multiset(t) == multiset(s) && Bytes(t) == Bytes(s)
      && (key in Keys(s) ==> t[0] == Item(key, Lookup(s, key).value))
      && (key !in Keys(s) ==> t == s)
  {
    if key in Keys(s) {
      var i := IndexOfKey(s, key);
      var t := MoveToFront(s, i);
      assert multiset(t) == multiset(s) by {
        MultisetRemoveAt(s, i);
      }
      BytesMoveToFront(s, i);
      MoveToFrontKeys(s, i);
    }
  }

  /** Moving an entry to the front keeps the keys distinct and the key set. */
  lemma MoveToFrontKeys(s: seq<Item>, i: nat)
    requires i < |s| && Distinct(s)
    ensures Distinct(MoveToFront(s, i)) && Keys(MoveToFront(s, i)) == Keys(s)
  {
    var t, r := MoveToFront(s, i), RemoveAt(s, i);
    assert t == [s[i]] + r;
    RemoveAtDistinct(s, i);
    RemoveAtKeys(s, i);
    PushFrontKeys(s[i], r, s);
    KeyAt(s, i);
  }

  /**
   * Pushing `x` in front of `r`, where `r` is `s` without the key of `x`:
   * the keys stay distinct, and the key set is that of `s` plus that key.
   */
  lemma PushFrontKeys(x: Item, r: seq<Item>, s: seq<Item>)
    requires Distinct(r) && Keys(r) == Keys(s) - {x.key}
    ensures Distinct([x] + r) && Keys([x] + r) == Keys(s) + {x.key}
  {
    var t := [x] + r;
    KeysCons(x, r);
    forall a, b | 0 <= a < b < |t| ensures t[a].key != t[b].key {
      assert t[b] == r[b - 1];
      KeyAt(r, b - 1);
      if a > 0 { assert t[a] == r[a - 1]; }
    }
  }

  /** The keys of a list with an entry pushed at its front. */
  lemma KeysCons(x: Item, s: seq<Item>)
    ensures Keys([x] + s) == {x.key} + Keys(s)
  {
    assert ([x] + s)[1..] == s;
  }

  /** The list without one entry is still free of repeated keys. */
  lemma RemoveAtDistinct(s: seq<Item>, i: nat)
    requires i < |s| && Distinct(s)
    ensures Distinct(RemoveAt(s, i))
  {
    var r := RemoveAt(s, i);
    forall a, b | 0 <= a < b < |r| ensures r[a].key != r[b].key {
      var a', b' := if a < i then a else a + 1, if b < i then b else b + 1;
      assert r[a] == s[a'] && r[b] == s[b'];
    }
  }

  /** The front key does not occur again further back. */
  lemma DistinctHead(s: seq<Item>)
    requires s != [] && Distinct(s)
    ensures s[0].key !in Keys(s[1..]) && Distinct(s[1..])
  {
    KeysIndexed(s[1..]);
  }

  /** The list without one entry has lost exactly that entry's key. */
  lemma {:induction false} RemoveAtKeys(s: seq<Item>, i: nat)
    requires i < |s| && Distinct(s)
    ensures Keys(RemoveAt(s, i)) == Keys(s) - {s[i].key}
  {
    DistinctHead(s);
    if i == 0 {
      assert RemoveAt(s, 0) == s[1..];
    } else {
      var t := RemoveAt(s[1..], i - 1);
      assert Keys(RemoveAt(s, i)) == {s[0].key} + Keys(t) by {
        RemoveAtCons(s, i);
        KeysCons(s[0], t);
      }
      RemoveAtKeys(s[1..], i - 1);
      assert s[0].key != s[i].key;
    }
  }

  /**
   * RemoveOldest on a non-empty list drops exactly the back entry: the rest is
   * distinct and in the same order, its key leaves the key set and the byte
   * count falls by its cost.
   */
  lemma DropOldest(s: seq<Item>)
    requires s != [] && Distinct(s)
    ensures var rest, last := s[..|s| - 1], s[|s| - 1];
      && Distinct(rest) && Keys(rest) == Keys(s) - {last.key}
      && Bytes(rest) == Bytes(s) - Cost(last)
  {
    RemoveAtDistinct(s, |s| - 1);
    RemoveAtKeys(s, |s| - 1);
    BytesRemoveAt(s, |s| - 1);
    assert RemoveAt(s, |s| - 1) == s[..|s| - 1];
  }

  /**
   * Add before eviction, on an existing key: the entry count is unchanged, the
   * entry comes to the front with the new value, the other entries stay as they
   * were, and the byte count changes by value.Len() - old.Len().
   */
  lemma PutExisting(s: seq<Item>, key: Key, value: Value)
    requires Distinct(s) && key in Keys(s)
    ensures var p, prev := Put(s, key, value), Lookup(s, key).value;
      && |p| == |s| && p[0] == Item(key, value)
      && Distinct(p) && Keys(p) == Keys(s)
      && multiset(p) == multiset(s) - multiset{Item(key, prev)} + multiset{Item(key, value)}
      && Bytes(p) == Bytes(s) + value.Len() - prev.Len()
  {
    var i := IndexOfKey(s, key);
    var p, r := Put(s, key, value), RemoveAt(s, i);
    assert p == [Item(key, value)] + r;
    assert Distinct(p) && Keys(p) == Keys(s) by {
      RemoveAtDistinct(s, i);
      RemoveAtKeys(s, i);
      PushFrontKeys(Item(key, value), r, s);
    }
    assert Bytes(p) == Bytes(s) + value.Len() - s[i].value.Len() by {
      BytesRemoveAt(s, i);
      assert p[1..] == r;
    }
    assert multiset(p) == multiset(s) - multiset{s[i]} + multiset{Item(key, value)} by {
      MultisetRemoveAt(s, i);
    }
  }

  /**
   * Add before eviction, on a new key: the entry is pushed at the front and the
   * byte count grows by len(key) + value.Len().
   */
  lemma PutNew(s: seq<Item>, key: Key, value: Value)
    requires Distinct(s) && key !in Keys(s)
    ensures var p := Put(s, key, value);
      && |p| == |s| + 1 && p[0] == Item(key, value) && p[1..] == s
      && Distinct(p) && Keys(p) == Keys(s) + {key}
      && Bytes(p) == Bytes(s) + |key| + value.Len()
  {
    var p := Put(s, key, value);
    assert p[1..] == s;
    KeysCons(Item(key, value), s);
  }

  // ---------------------------------------------------------------------------
  // Eviction

  /**
   * After Add, the entry just added is the most recently used one unless the
   * eviction loop emptied the whole cache; an entry that alone exceeds a
   * positive budget empties it, itself included.
   */
  lemma {:induction false} AddedEntryEvictedLast(s: seq<Item>, key: Key, value: Value, maxBytes: int)
    requires Distinct(s)
    ensures var r := Evict(Put(s, key, value), maxBytes);
      && (r == [] || r[0] == Item(key, value))
      && (0 < maxBytes < |key| + value.Len() ==> r == [])
  {
    var p := Put(s, key, value);
    var r := Evict(p, maxBytes);
    EvictFits(p, maxBytes);
    if r != [] {
      assert r[0] == p[0];
    }
  }
}
