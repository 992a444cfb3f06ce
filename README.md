# SortedMap in Dafny

A model of `SortedMap.js`, an ordered associative container. The map keeps two structures
in step:

- `_index` maps the *symbol* of a key (what the caller's `symbolizer` returns for it) to its
  `{key, value}` pair. Here it is `index: map<S, Pair<K, V>>`.
- `_sorted` is a list of *buckets*. Each bucket holds the pairs that the caller's comparator
  ranks equal, in insertion order, and the buckets are in ascending order. Here it is
  `sorted: seq<seq<Pair<K, V>>>`.

`SortedMaps.SortedMap` is a class with those two fields. Its methods change them in place,
as `_insert` and `_remove` do. The symbolizer and the comparator are constructor parameters.
A comparator answers `Option<int>`, and `None` stands for a non-numeric (NaN) answer.
Without a comparator the map keeps insertion order.

Files:

- `outcomes.dfy`: `Option`, `Result`, and the two failures. One is a NaN answer, which the
  search throws on. The other is an exact lookup that lands past the last bucket, where the
  source reads a property of `undefined` and throws.
- `comparators.dfy`: the laws of a well-behaved comparator. `TotalPreorder` means every
  answer is a number, swapping the arguments flips the sign, and "not after" is transitive.
  `RespectsIdentity` means keys with equal symbols rank equal.
- `search.dfy`: the free function `binarySearch`, as a loop over a window `[min, max)`.
- `buckets.dfy`: the two structures as values, plus their invariants:
  - `Consistent`: the index maps exactly the symbols of the stored pairs, each to its own
    pair, and no bucket is empty.
  - `Ordered`: each bucket is internally rank-equal, and the buckets strictly increase.

  It also holds the lemmas about every edit made to them.
- `sorted_map.dfy`: the class, with `get`, `_pos`, `_insert`, `_remove`, `add`, `remove` and
  `forEach`. It also has a corrected removal, `RemoveIntended` (see Findings).
- `scenarios.dfy`: client sequences verified against the method contracts alone. They cover
  the numeric and parity examples, the removals that take the `-1` path, and the corrected
  removal on the same inputs.

Two invariants are kept apart:

- `Valid()` says the index and the buckets agree. `add` keeps it for any comparator at all,
  even one that is not a preorder.
- `Sorted()` says the buckets are ordered. It needs a comparator that obeys the preorder
  laws.

The model follows what the code does, with one exception: the bucket scan of `_remove`.
The code's comment there says "find it and remove it", but the test at `SortedMap.js:127`
only checks that a symbol is truthy. The model matches by symbol, and Findings records the
scan as written. Behaviours of the code that a reader might not expect:

- Without a comparator, `add` returns the new bucket's position, which is the old bucket
  count (`SortedMap.js:61`, `SortedMap.js:160`).
- Without a comparator, `remove` of a stored key is not a no-op. The exact lookup answers
  -1 (`SortedMap.js:61`). `_remove` then deletes the index entry and splices out the last
  bucket (`SortedMap.js:120`, `SortedMap.js:134`).
- `get` returns the stored `{key, value}` pair, not the bare value (`SortedMap.js:33`,
  `SortedMap.js:147`).

## Model

| member | source | states |
|---|---|---|
| SortedMaps.SortedMap.constructor | SortedMap.js:13-21 | A new map has an empty index and no buckets, keeps the given symbolizer and comparator, and is consistent and ordered. |
| SortedMaps.SortedMap.Get | SortedMap.js:144-148 | In a consistent map, `get` finds a pair exactly when some stored pair has the key's symbol, and the pair it returns is stored and has that symbol. It reads the map and changes nothing. |
| SortedMaps.SortedMap.Pos | SortedMap.js:47-63 | Without a comparator: the slot past the end, or -1 for an exact lookup. A NaN answer fails, and only on a bucket's first key. An inexact slot lies within `[0, count]`, and is the correctly placed slot when the buckets are ordered. An exact answer is -1 or a bucket whose first pair has the key's symbol. Under a lawful comparator and ordered buckets, it is -1 exactly when the stored pair heads no bucket. |
| SortedMaps.SortedMap.Insert | SortedMap.js:76-102 | The index gains the new pair. The bucket list is unchanged for a negative slot. Otherwise it gains a bucket past the end, the pair pushed onto a rank-equal bucket at the slot, or a new one-pair bucket spliced in before it. The map stays consistent, and stays ordered when the slot is the correct one. |
| SortedMaps.SortedMap.RemoveAt | SortedMap.js:114-138 | The index loses the symbol, and the buckets become `Removed(...)`: the last pair with the symbol leaves bucket `pos`, the emptied bucket goes, and `pos == -1` drops the last bucket. When the bucket at `pos` starts with the key's symbol, exactly that first pair goes, and consistency and order are kept. The scan is the corrected one, matching by symbol (Findings row 2). |
| SortedMaps.SortedMap.Add | SortedMap.js:150-161 | First write wins: a stored symbol leaves both structures unchanged and gives no position. A NaN answer fails with both structures unchanged. A new key is indexed, and its pair is pushed onto a rank-equal bucket at the returned slot or spliced in as a new bucket there. A following `get` returns the pair. Without a comparator the pair gets a new last bucket at the old bucket count. Under a preorder the slot is correct and the order is kept. Consistency is always kept. |
| SortedMaps.SortedMap.Remove | SortedMap.js:163-175 | An absent key is a no-op with no position, and a failure leaves both structures unchanged. When the exact lookup finds the key, its pair and symbol go and the map stays consistent (and ordered). At -1 the last bucket is dropped, and the map is then inconsistent unless that bucket held exactly the removed pair. Without a comparator a stored key always takes the -1 path. Under a lawful comparator the -1 path is taken exactly when the pair heads no bucket. It uses the corrected scan of `RemoveAt` (Findings row 2). |
| SortedMaps.SortedMap.ForEach | SortedMap.js:177-186 | Visits `(value, key)` for every stored pair exactly once: buckets in order, each bucket front to back, which is the traversal `Entries()`. |
| SortedMaps.SortedMap.Locate | SortedMap.js:123-131 | Finds the bucket holding a pair with the key's symbol, scanning each bucket as `_remove` does. It answers -1 exactly when no bucket holds one. |
| SortedMaps.SortedMap.RemoveIntended | SortedMap.js:163-175 | The corrected `remove`. An absent key is a no-op. A stored key's pair leaves the bucket that holds it, wherever it sits there, and the bucket goes once empty. The index loses the symbol, and the traversal loses exactly that one pair. The map stays consistent, and stays ordered under a preorder. |
| Search.BinarySearch | SortedMap.js:206-223 | An empty window gives `min`. Only indices in `[min, max)` are probed. It fails exactly when some probe answered NaN, and never when every answer in the window is numeric. A result lies in `[min, max]`, and the item does not rank above the item at the result. Over an ascending window and a preorder, the result is the correct slot: everything before ranks below the item, everything after ranks above it. The loop terminates because the window shrinks. |
| Search.TiedSlot | SortedMap.js:214-220 | An item rank-equal to the probe at `mid` of an ascending window belongs exactly at `mid`. |
| Search.RaiseLow | SortedMap.js:218 | Raising `min` to `mid` keeps "everything below the window ranks below the item". |
| Search.LowerHigh | SortedMap.js:219 | Lowering `max` to `mid` keeps "everything from the window's end on ranks above the item". |
| Buckets.OrderedHeads | SortedMap.js:49-51 | Ordered buckets are non-empty and have strictly ascending first keys, as the search expects. |
| Buckets.IndexedLookup | SortedMap.js:31-34 | `_fetch`'s membership test: a symbol is indexed exactly when some stored pair has it, and it maps to that pair. |
| Buckets.SpliceEntries | SortedMap.js:97 | Splicing in `[p]` inserts `p` into the traversal where the bucket goes. |
| Buckets.PushEntries | SortedMap.js:93 | Pushing `p` onto a bucket inserts `p` into the traversal right after that bucket's pairs. |
| Buckets.TakeEntries | SortedMap.js:128 | Splicing one pair out of a bucket takes exactly that pair out of the traversal. |
| Buckets.DropEntries | SortedMap.js:133-134 | Splicing out a bucket gives the same traversal as emptying it. |
| Buckets.IndexedInsert | SortedMap.js:82 | Indexing a pair with a new symbol, wherever it lands in the traversal, keeps the index exact. |
| Buckets.IndexedRemove | SortedMap.js:120 | Deleting a stored pair's symbol and the pair keeps the index exact. |
| Buckets.GrowNonEmpty | SortedMap.js:85-98 | A splice or a push leaves no bucket empty. |
| Buckets.SplicedConsistent | SortedMap.js:82-97 | Indexing a new key and splicing in its one-pair bucket keeps index and buckets consistent. |
| Buckets.PushedConsistent | SortedMap.js:82-93 | Indexing a new key and pushing its pair onto a bucket keeps index and buckets consistent. |
| Buckets.LastMatch | SortedMap.js:123-131 | The position the backward scan stops at: the last pair with the symbol, or -1 when there is none. |
| Buckets.ScanBucket | SortedMap.js:123-131 | The backward scan loop returns `LastMatch`. |
| Buckets.LastTruthy | SortedMap.js:126-131 | The scan as written stops at the last pair whose symbol is merely truthy, or -1. |
| Buckets.TakeNonEmpty | SortedMap.js:133-134 | Taking one pair out, and the bucket once empty, leaves no bucket empty. |
| Buckets.TakeConsistent | SortedMap.js:114-135 | Taking one pair out of a bucket (and the bucket once empty), with its symbol out of the index, keeps them consistent. The traversal loses exactly that pair. |
| Buckets.BucketDistinct | SortedMap.js:123-131 | In a consistent map no two pairs of a bucket share a symbol, so the scan has at most one match. |
| Buckets.RemovedHead | SortedMap.js:114-138 | Removing by the symbol of a bucket's first pair takes exactly that pair out, or the whole bucket when it was the only pair, and keeps the map consistent. |
| Buckets.IndexedHead | SortedMap.js:53 | The first pair of every bucket is the pair indexed under its symbol. |
| Buckets.StoredBucket | SortedMap.js:123 | An indexed symbol occurs in some bucket, and any bucket where it occurs holds the indexed pair. |
| Buckets.StoredMatch | SortedMap.js:126-131 | On the bucket holding the indexed pair, the scan stops at that pair. |
| Buckets.RemovedStored | SortedMap.js:114-138 | Removing by symbol from the bucket that holds the indexed pair takes exactly that pair out of the traversal and keeps the map consistent. |
| Buckets.MisplacedRemoval | SortedMap.js:123-135 | On the -1 path (an empty scan, then the last bucket spliced out), the map becomes inconsistent unless that bucket held exactly the removed pair. |
| Buckets.SpliceKeepsOrdered | SortedMap.js:97 | A new bucket spliced in at its correct slot, ranked strictly below the bucket there, keeps the buckets ordered. |
| Buckets.PushKeepsOrdered | SortedMap.js:92-93 | Pushing a pair rank-equal to a bucket's first pair keeps the buckets ordered. |
| Buckets.DropHeadKeepsOrdered | SortedMap.js:128-134 | Taking a bucket's first pair out, and the bucket once empty, keeps the buckets ordered. |
| Buckets.TakeKeepsOrdered | SortedMap.js:128-134 | Taking any one pair out of a bucket, and the bucket once empty, keeps the buckets ordered. |
| Buckets.RemovedKeepsOrdered | SortedMap.js:123-135 | Whatever symbol `_remove` scans a bucket for, ordered buckets stay ordered. |
| Buckets.EntriesAscending | SortedMap.js:177-186 | The traversal of ordered buckets never visits a key that ranks above a later one. |
| Buckets.StoredKeySlot | SortedMap.js:50-56 | Under a lawful comparator, a stored key's slot is the one bucket holding its pair. The exact check on that bucket's first pair fails exactly when the pair heads no bucket. |
| Comparators.PreorderFacts | SortedMap.js:201-202 | The consequences of the comparator laws: reflexive ties, symmetric ties, the trichotomy of answers, and transitivity mixed with ties. |
| Scenarios.NumericLaws | SortedMap.js:201-202 | `a - b` on integers is a total preorder that respects identity symbols. |
| Scenarios.ParityLaws | SortedMap.js:201-202 | Comparison by parity is a total preorder that respects identity symbols. |
| Scenarios.NumericExample | SortedMap.js:150-186 | With numeric order, adding 5, 2 and 8 traverses as 2, 5, 8, and removing 5 leaves 2, 8. |
| Scenarios.NumericVisits | SortedMap.js:177-186 | What the traversal visits for those two bucket lists. |
| Scenarios.NumericMap | SortedMap.js:150-161 | Adding 5, 2 and 8 gives three single-pair buckets in numeric order. |
| Scenarios.AddTwo | SortedMap.js:150-161 | 2 ranks below the only head 5, so it gets a new first bucket at slot 0. |
| Scenarios.AddEight | SortedMap.js:150-161 | 8 ranks above both heads, so it gets a new last bucket at slot 2, and the map stays ordered. |
| Scenarios.RemoveFive | SortedMap.js:163-175 | 5 heads the middle bucket, so the exact lookup finds it and that bucket goes. |
| Scenarios.ParityExample | SortedMap.js:150-186 | Under parity, 2 and 4 share a bucket and traverse in insertion order. Removing 2 and then 4 empties the map. The removals use the corrected scan (Findings row 2). |
| Scenarios.ParityMap | SortedMap.js:150-161 | Adding 2 then 4 under parity gives one bucket `[2, 4]`. |
| Scenarios.AddFour | SortedMap.js:85-93 | 4 ranks equal to the head 2, so it is pushed onto that bucket. |
| Scenarios.RemoveTwo | SortedMap.js:163-175 | With the corrected scan (Findings row 2), 2 heads the shared bucket, so its pair goes and 4 stays. The scan as written would take out the pair of 4 instead. |
| Scenarios.RemoveFour | SortedMap.js:163-175 | 4 now heads its bucket, so it goes and so does the bucket. |
| Scenarios.ParityTieRemoval | SortedMap.js:53-55 | Removing 4 from `[2, 4]` answers -1 and drops the whole bucket while 2 stays indexed, so the map is inconsistent. |
| Scenarios.ParityTieRemovalIntended | SortedMap.js:163-175 | The corrected removal of 4 leaves the bucket `[2]` and a consistent map. |
| Scenarios.RemoveFourIntended | SortedMap.js:163-175 | The corrected removal finds 4 in the shared bucket at slot 0 and takes only its pair. |
| Scenarios.UnorderedPair | SortedMap.js:59-63 | Without a comparator, adding 1 then 2 gives one bucket each, in insertion order. |
| Scenarios.UnorderedRemoval | SortedMap.js:59-63 | Without a comparator, removing 1 answers -1 and drops the bucket of 2. The index forgets 1, the traversal still visits 1, and the map is inconsistent. |
| Scenarios.UnorderedRemovalIntended | SortedMap.js:163-175 | The corrected removal of 1 leaves exactly key 2 and a consistent map. |
| Scenarios.RemoveOneIntended | SortedMap.js:163-175 | The corrected removal takes the first bucket, which holds 1, and leaves the index without 1. |
| Scenarios.TruthyScanMisses | SortedMap.js:126-131 | In the bucket `[2, 4]`, scanning for 2 by truthiness stops at the pair of 4, while scanning by symbol stops at the pair of 2. |

## Left out

- The module wrapper (`SortedMap.js:3-4`, `SortedMap.js:226-230`) is not modelled, because it only exports the constructor.
- The `missing` sentinel, compared by object identity (`SortedMap.js:6`), is an `Option` here.
- NaN and floating point are not modelled. A comparator answers an integer or `None`, and `None` plays NaN. The source only tests `isNaN`, so every other number behaves like its sign.
- Exceptions thrown by the comparator or the symbolizer are not modelled, because they are calls into code that is not part of this model. Both are total functions here.
- Symbols are compared with `==`. The source uses them as object property names, which turns them into strings, so two symbols with the same string form would collide there.
- The index is a `map` that starts empty. The source's index is a plain object, and its `in` test at `SortedMap.js:33` also finds inherited names such as `toString` or `constructor`. There, with an identity symbolizer, `get` of such a key returns the inherited property, `add` of it is a silent no-op, and `remove` of it runs the exact lookup.
- `get` returns a `Pair` value. The source returns the stored pair object itself (`SortedMap.js:147`), which `_index` and `_sorted` share, so a caller that changes its `key` or `value` changes the map. That sharing is not modelled.
- SortedMaps.SortedMap.Pos, SortedMaps.SortedMap.Add, SortedMaps.SortedMap.Remove: each requires a consistent map. Operations on a map that the -1 path of `remove` left inconsistent are not modelled, although the source keeps serving them. Without a comparator, every removal except of the key added last reaches that state.
- The override hooks on `_insert` and `_remove` (`SortedMap.js:68-69`, `SortedMap.js:107-108`) are not modelled: the model fixes their behaviour.
- `forEach`'s callback is not called. `ForEach` returns the sequence of `(value, key)` arguments the callback would receive, in order.
- Buckets are values (`seq`), not shared arrays. Aliasing between a bucket fetched in `_remove` and the stored one is not modelled. The model writes the edited bucket back, which is what the in-place splice amounts to.
- Buckets.LastMatch: the bucket scan matches by symbol equality, deliberately. The source's scan tests only whether a symbol is truthy (`SortedMap.js:127`); see Findings.
- SortedMaps.SortedMap.Insert: slots past the end are excluded by precondition (the source would leave holes in the array there), and `add` never passes one. Without a comparator, only a negative slot or the end is allowed, because the rank check on line 92 would call a missing comparator.
- SortedMaps.SortedMap.RemoveAt: slots past the end are excluded by precondition, and `remove` never passes one. In the source they fall through to a no-op `splice`.
- SortedMaps.SortedMap.Remove: the contract proves nothing "nice" about the -1 path. It states the literal outcome and when that outcome breaks consistency.
- SortedMaps.SortedMap.Pos: an exact lookup whose slot is past the last bucket fails with `MissingBucket`. The source throws a `TypeError` there. Under a lawful comparator this cannot happen for a stored key (`StoredKeySlot`).

## Findings

| source | as written | input that shows it | evidently intended | confidence | as-written member | corrected member |
|---|---|---|---|---|---|---|
| SortedMap.js:53-55, SortedMap.js:120-134 | The exact lookup of `remove` checks only the first pair of the found bucket, and answers -1 otherwise, as it always does without a comparator. `_remove` then deletes the index entry and splices out the last bucket. | Parity comparator: add 2 and 4, then remove 4. Or no comparator: add 1 and 2, then remove 1. | The stored pair leaves the bucket that holds it, and nothing else changes. | not executed | SortedMaps.SortedMap.Remove, Buckets.MisplacedRemoval, Scenarios.ParityTieRemoval, Scenarios.UnorderedRemoval | SortedMaps.SortedMap.RemoveIntended, Scenarios.ParityTieRemovalIntended, Scenarios.UnorderedRemovalIntended |
| SortedMap.js:126-131 | The backward scan stops at the last pair whose symbol is truthy, never comparing it with the symbol being removed. | Parity comparator: add 2 and 4, then remove 2. The scan takes out the pair of 4 while the index loses 2. | The scan stops at the pair whose symbol equals the removed key's symbol. | not executed | Buckets.LastTruthy, Scenarios.TruthyScanMisses | Buckets.LastMatch, Buckets.ScanBucket |
