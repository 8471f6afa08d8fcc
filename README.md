# LRU cache with a byte budget

This project models package `lru` of the geecache repository (`lru/lru.go`) in
Dafny and proves what that cache promises. A `Cache` holds entries in a recency
list, with the most recently used entry at the front. It also keeps an index
from key to list element, a running count `nbytes` of the bytes charged for the
live entries, and a budget `maxBytes`. Each entry is charged `len(key)` plus
`value.Len()`.

- `Get` moves a hit to the front.
- `RemoveOldest` drops the back entry and reports it to the optional
  `OnEvicted` hook.
- `Add` either overwrites and promotes an existing entry or pushes a new one.
  It then evicts from the back while `maxBytes > 0` and the budget is
  exceeded.

The project has three modules:

- **`LruModel`** (`lru_model.dfy`) is the abstract recency list, as pure
  functions:
  - `Bytes`, the accounting;
  - `Keys`, the key set;
  - `Touch`, what `Get` does to the list;
  - `Put`, `Add` before its loop;
  - `Evict` and `Evicted`, what the eviction loop keeps and what it drops.

  Beside them are the lemmas that state the cache's guarantees about these
  functions.
- **`LruRepr`** (`lru.dfy`) defines the representation invariant `Represents`
  and proves that each field update preserves it. The doubly linked list of
  `container/list` is represented by stable element handles:
  - the list is a sequence of handles, most recent first;
  - a store maps each handle to the entry its element carries;
  - the index maps each key to its element's handle.

  A handle stands for a `*list.Element`. It keeps its identity while the
  element moves and while the entry's value is overwritten in place
  (`kv.value = value`).
- **`Lru`** (`lru.dfy`) holds class `Cache`. `New` builds one; `Get`,
  `RemoveOldest` and `Add` update its fields in place, and `Len` only reads
  them. Ghost fields record the
  abstract contents (`entries`) and every call of the eviction hook
  (`evictions`). Every method keeps `Valid()`, and each is proved against the
  `LruModel` functions. The eviction loop at the end of `Add` is the `while`
  loop of `EvictOverBudget`, with its invariants.

Keys are byte strings (`seq<bv8>`) because Go's `len` of a string counts
bytes. A value is its payload together with the size that its `Len()` reports.

## Model

| member | source | states |
|---|---|---|
| Lru.Cache.New | lru/lru.go:29-37 | a new cache is empty, has zero bytes charged and has logged no evictions; it keeps the given budget and hook, satisfies the representation invariant and is within budget |
| Lru.Cache.Get | lru/lru.go:39-47 | on a hit, returns the key's value with ok true and moves its entry to the front (`Touch`). On a miss, returns no value with ok false and changes nothing. The byte count, the index and the eviction log never change |
| Lru.Cache.RemoveOldest | lru/lru.go:49-62 | on an empty cache, nothing changes. Otherwise exactly the back (least recently used) entry is removed; nbytes falls by len(key)+value.Len() of that entry; the hook sees that entry if it is installed; the budget still holds if it held before |
| Lru.Cache.Add | lru/lru.go:64-82 | afterwards the cache holds `Evict(Put(old, key, value), maxBytes)`, is within budget (maxBytes <= 0 or nbytes <= maxBytes) and keeps the representation invariant. The hook has seen exactly the evicted entries, oldest first |
| Lru.Cache.EvictOverBudget | lru/lru.go:79-81 | the eviction loop leaves exactly the entries `Evict` keeps, within budget, and logs exactly `Evicted` to the hook |
| Lru.Cache.Len | lru/lru.go:84-86 | returns the number of entries in the cache |
| LruRepr.CachedElement | lru/lru.go:41-43 | the element the index gives for a cached key sits in the list at that key's position and carries that key's entry |
| LruRepr.MoveToFrontRepresents | lru/lru.go:42 | moving a list element to the front keeps the fields representing the list with the same item moved to the front |
| LruRepr.ReplaceRepresents | lru/lru.go:66-71 | for a cached key: moving its element to the front, overwriting the value in place and adjusting nbytes by value.Len() - old Len() represents `Put` |
| LruRepr.PushFrontRepresents | lru/lru.go:72-77 | for a new key: pushing a fresh element at the front, indexing it and adding len(key)+value.Len() to nbytes represents the list with the new item in front |
| LruRepr.DropLastRepresents | lru/lru.go:51-56 | removing the back element, deleting its key from the index and subtracting its cost represents the list without its back item |
| LruModel.Cost | lru/lru.go:56 | an entry is charged at least its key's byte length and at least its value's Len(): both parts of len(key)+value.Len() count |
| LruModel.BytesConcat | lru/lru.go:10 | `Bytes`, the model of nbytes, is a sum over the entries: the charge for a list split in two is the sum of the charges for the parts |
| LruModel.KeysIndexed | lru/lru.go:14 | `Keys`, the key set of the index, holds exactly the keys of the list's entries: every entry's key is in it, and every key in it belongs to some entry |
| LruModel.Touch | lru/lru.go:41-42 | what Get does to the recency list: the entry count is kept; on a hit the key's entry is in front; on a miss the list is unchanged |
| LruModel.Put | lru/lru.go:66-77 | what Add does to the list before evicting: the new key and value stand at the front, whether the key was cached or not |
| LruModel.Lookup | lru/lru.go:41-44 | a key has a value exactly when it is in the list, and that value is the one its entry carries |
| LruModel.IndexOfKey | lru/lru.go:41 | finds an entry with the key; when keys are distinct, it is the only such entry |
| LruModel.Position | lru/lru.go:42 | finds the list position of an element, which is its first occurrence |
| LruModel.RemoveAt | lru/lru.go:53 | removing one list position keeps the other entries in their order |
| LruModel.MoveToFront | lru/lru.go:42 | the moved entry comes first, and the others keep their order behind it |
| LruModel.TouchKeepsEntries | lru/lru.go:40-46 | on a hit, the entry with its value comes to the front; keys stay distinct; the key set, the multiset of entries and the byte count are unchanged. On a miss, the list is unchanged |
| LruModel.MoveToFrontKeys | lru/lru.go:42 | moving an entry to the front keeps keys distinct and keeps the key set |
| LruModel.BytesMoveToFront | lru/lru.go:42 | moving an entry to the front does not change the byte count |
| LruModel.RemoveAtKeys | lru/lru.go:53-55 | removing an entry removes exactly its key from the key set |
| LruModel.RemoveAtDistinct | lru/lru.go:53-55 | removing an entry keeps the keys distinct |
| LruModel.BytesRemoveAt | lru/lru.go:56 | removing an entry lowers the byte count by exactly len(key)+value.Len() of that entry |
| LruModel.DropOldest | lru/lru.go:50-56 | dropping the back entry leaves the rest distinct and in order; only its key leaves the key set, and the byte count falls by its cost |
| LruModel.PutExisting | lru/lru.go:66-71 | for a cached key, Add before eviction keeps the entry count and the key set. The entry comes to the front with the new value, and only that entry's value changes (multiset). nbytes changes by value.Len() - old Len() |
| LruModel.PutNew | lru/lru.go:72-77 | for a new key, Add before eviction pushes the entry in front of the unchanged list. The key joins the key set and nbytes grows by len(key)+value.Len() |
| LruModel.Evict | lru/lru.go:79-81 | eviction keeps a prefix of the recency list, so it drops only from the back; with maxBytes <= 0 it keeps everything |
| LruModel.EvictFits | lru/lru.go:79-81 | what eviction keeps fits a positive budget, and it is the longest prefix that fits: keeping one more entry would exceed the budget |
| LruModel.BytesPrefix | lru/lru.go:79-81 | a prefix of the list is never charged more than the whole list |
| LruModel.Evicted | lru/lru.go:79-81 | the loop drops exactly as many entries as eviction removes |
| LruModel.EvictedFromBack | lru/lru.go:50-51 | the j-th entry the loop drops is the j-th from the back, so the least recently used goes first |
| LruModel.EvictTurn | lru/lru.go:79-80 | one turn of the loop over a list that still exceeds the budget: dropping its back entry leaves a list that evicts to the same result; the dropped entry is next in `Evicted` |
| LruModel.LogTurn | lru/lru.go:58-60 | one removal extends the hook's log by the removed entry exactly when a hook is installed |
| LruModel.AddedEntryEvictedLast | lru/lru.go:65-82 | after Add, the added entry is the most recently used one, unless eviction emptied the cache. An entry whose own cost exceeds a positive budget empties the cache, itself included |

## Left out

- The rest of the geecache repository is not part of this model: the `Group`, `GetterFunc`, `ByteView`, locking and loading layers.
- Concurrency: the Go cache is not safe for concurrent use, and the model is sequential.
- The `container/list` internals are not modelled. A list element is a handle into a map, and the list is a sequence of handles. `Position` finds an element by a linear search, whereas the Go list unlinks a known pointer in constant time. The model captures the element identity that `MoveToFront` and `Remove` rely on, not their cost.
- Lru.Cache.New: the hook is a boolean saying whether `OnEvicted` is non-nil. The body of the callback is user code, so the model records each call (key and value) in the ghost log `evictions` instead of running the callback.
- Lru.Cache.Get: the result is an `Option<Value>` together with `ok`. The Go code returns the zero `Value` (nil interface) on a miss, and `None` stands for it.
- Negative sizes: a size is a `nat`. A `Value` whose `Len()` is negative is not modelled.
- Lru.Cache.Add: `nbytes` and the sizes are unbounded integers. Overflow of the `int64` counter and of the `int64(...)` conversions is not modelled.
- Lru.Cache.Add: a value is never nil, and its `Len()` reports the same size every time while it is cached. The Go code calls `Len()` afresh at lines 56, 70 and 76. A nil value panics there; in the new-key branch this happens after the entry was already pushed and indexed. A value whose size changes while it is cached (for instance shrunk by the hook during the loop) can make the byte count drift, and the loop at lines 79-81 can then run forever on an empty list. None of this is modelled: the size is fixed in the value.
- Lru.Cache.New: the hook is fixed at construction (`const onEvicted`). In Go, `OnEvicted` is an exported field that callers may reassign at any time.
- Lru.Cache.Add: the eviction loop is the separate method `EvictOverBudget`, called at the end of `Add`. Its body is exactly lines 79-81.
