/**
 * The ordered associative container of SortedMap.js: an identity index from symbol to
 * `{key, value}` pair kept in step with a list of buckets of rank-equal pairs.
 */
module SortedMaps {
  import opened Outcomes
  import opened Comparators
  import opened Search
  import opened Buckets

  class SortedMap<K(!new), V, S(==)> {
    /** Maps a key to its identity symbol: equal symbols mean the same logical key. */
    const symbolize: K -> S
    /** The optional comparator; without one the map keeps insertion order. */
    const comparator: Option<Comparator<K>>

    /** `_index`: each stored symbol to its pair. */
    var index: map<S, Pair<K, V>>
    /** `_sorted`: buckets of rank-equal pairs, in ascending order. */
    var sorted: seq<Bucket<K, V>>

    /** The index and the buckets agree; holds whatever the comparator does. */
    ghost predicate Valid()
      reads this
    {
      Consistent(index, sorted, symbolize)
    }

    /** With a comparator, the buckets are internally rank-equal and strictly increasing. */
    ghost predicate Sorted()
      reads this
    {
      comparator.Some? ==> Ordered(sorted, comparator.value)
    }

    /** The comparator, if any, is a total preorder under which equal symbols rank equal. */
    ghost predicate Lawful() {
      comparator.Some? ==> TotalPreorder(comparator.value) && RespectsIdentity(comparator.value, symbolize)
    }

    /** The stored pairs in traversal order. */
    ghost function Entries(): seq<Pair<K, V>>
      reads this
    {
      Flatten(sorted)
    }

    constructor (symbolize: K -> S, comparator: Option<Comparator<K>>)
      ensures this.symbolize == symbolize && this.comparator == comparator
      ensures index == map[] && sorted == []
      ensures Valid() && Sorted()
    {
      this.symbolize := symbolize;
      this.comparator := comparator;
      index := map[];
      sorted := [];
    }

    /** `get` (through `_fetch`): the stored pair for the key's symbol, if any. */
    function Get(key: K): (r: Option<Pair<K, V>>)
      reads this
      ensures Valid() ==>
        (r.Some? <==> exists i :: 0 <= i < |Entries()| && symbolize(Entries()[i].key) == symbolize(key))
      ensures Valid() && r.Some? ==> r.value in Entries() && symbolize(r.value.key) == symbolize(key)
    {
      var symbol := symbolize(key);
      IndexedLookup(index, Entries(), symbolize, symbol);
      if symbol in index then Some(index[symbol]) else None
    }

    /**
     * `_pos`: the bucket slot for `key`. Without a comparator the slot is always past the
     * end, and an exact lookup always answers -1. With one, a binary search over the
     * buckets' first keys; an exact lookup then answers -1 unless the first pair of the
     * found bucket has the key's symbol.
     */
    method Pos(key: K, exact: bool) returns (r: Result<int, Failure>)
      requires Valid()
      ensures comparator.None? ==> r == Ok(if exact then -1 else |sorted|)
      ensures r.Err? ==> comparator.Some?
      ensures r == Err(InvalidComparatorResult) ==>
                exists b :: 0 <= b < |sorted| && comparator.value(key, sorted[b][0].key).None?
      ensures r == Err(MissingBucket) ==> exact
      ensures r.Ok? && !exact ==> 0 <= r.value <= |sorted|
      ensures r.Ok? && exact ==>
                r.value == -1 || (0 <= r.value < |sorted| && symbolize(sorted[r.value][0].key) == symbolize(key))
      ensures comparator.Some? && !exact && (forall b :: 0 <= b < |sorted| ==> comparator.value(key, sorted[b][0].key).Some?) ==>
                r.Ok?
      ensures comparator.Some? && !exact && TotalPreorder(comparator.value) && Ordered(sorted, comparator.value) ==>
                r.Ok? && Slot(sorted, r.value, key, comparator.value)
      ensures comparator.Some? && exact && Lawful() && Sorted() && symbolize(key) in index ==>
                r.Ok? && (r.value == -1 <==> forall b :: 0 <= b < |sorted| ==> sorted[b][0] != index[symbolize(key)])
    {
      if comparator.None? {
        return Ok(if exact then -1 else |sorted|);
      }
      var cmp := comparator.value;
      var heads := Heads(sorted);
      if Ordered(sorted, cmp) {
        OrderedHeads(sorted, cmp);
      }
      var found;
      ghost var probes;
      found, probes := BinarySearch(0, |sorted|, key, heads, cmp);
      if found.Err? {
        ghost var t :| 0 <= t < |probes| && cmp(key, heads[probes[t]]).None?;
        assert cmp(key, sorted[probes[t]][0].key).None?;
        return found;
      }
      var pos := found.value;
      if exact {
        ghost var lawful := TotalPreorder(cmp) && RespectsIdentity(cmp, symbolize) && Ordered(sorted, cmp) &&
                            symbolize(key) in index;
        if lawful {
          StoredKeySlot(index, sorted, symbolize, cmp, key, pos);
        }
        if pos >= |sorted| {
          // `sorted[pos][0]` of a missing bucket throws
          return Err(MissingBucket);
        }
        if symbolize(key) != symbolize(sorted[pos][0].key) {
          pos := -1;
        }
        assert lawful ==> (pos == -1 <==> forall b :: 0 <= b < |sorted| ==> sorted[b][0] != index[symbolize(key)]);
      }
      return Ok(pos);
    }

    /**
     * `_insert`: index the new pair, then (for a non-negative slot) open a bucket past the
     * end, append to a rank-equal bucket at the slot, or splice a new bucket in before it.
     */
    method Insert(key: K, pos: int, value: V) returns (r: int)
      requires Valid()
      requires symbolize(key) !in index
      requires pos <= |sorted|
      requires comparator.None? ==> pos < 0 || pos == |sorted|
      modifies this
      ensures r == pos
      ensures index == old(index)[symbolize(key) := Pair(key, value)]
      ensures pos < 0 ==> sorted == old(sorted)
      ensures pos == |old(sorted)| ==> sorted == old(sorted) + [[Pair(key, value)]]
      ensures 0 <= pos < |old(sorted)| && Tied(comparator.value(old(sorted)[pos][0].key, key)) ==>
                sorted == old(sorted)[pos := old(sorted)[pos] + [Pair(key, value)]]
      ensures 0 <= pos < |old(sorted)| && !Tied(comparator.value(old(sorted)[pos][0].key, key)) ==>
                sorted == old(sorted)[..pos] + [[Pair(key, value)]] + old(sorted)[pos..]
      ensures 0 <= pos ==> Valid()
      ensures (0 <= pos && comparator.Some? && TotalPreorder(comparator.value) && old(Sorted()) &&
               old(Slot(sorted, pos, key, comparator.value))) ==> Sorted()
    {
      var pair := Pair(key, value);
      ghost var before := sorted;
      index := index[symbolize(key) := pair];
      if pos >= 0 {
        if pos == |sorted| {
          sorted := sorted + [[pair]];
          assert sorted == before[..pos] + [[pair]] + before[pos..];
          SplicedConsistent(old(index), before, symbolize, pos, pair);
          if comparator.Some? && TotalPreorder(comparator.value) && Ordered(before, comparator.value)
             && Slot(before, pos, key, comparator.value) {
            SpliceKeepsOrdered(before, pos, pair, comparator.value);
          }
        } else if comparator.value(sorted[pos][0].key, key) == Some(0) {
          sorted := sorted[pos := sorted[pos] + [pair]];
          PushedConsistent(old(index), before, symbolize, pos, pair);
          if Ordered(before, comparator.value) {
            PushKeepsOrdered(before, pos, pair, comparator.value);
          }
        } else {
          sorted := sorted[..pos] + [[pair]] + sorted[pos..];
          SplicedConsistent(old(index), before, symbolize, pos, pair);
          if TotalPreorder(comparator.value) && Ordered(before, comparator.value)
             && Slot(before, pos, key, comparator.value) {
            var cmp := comparator.value;
            PreorderFacts(cmp, key, before[pos][0].key, key);
            assert Heads(before)[pos] == before[pos][0].key;
            SpliceKeepsOrdered(before, pos, pair, cmp);
          }
        }
      }
      return pos;
    }

    /**
     * `_remove`: drop the key's symbol from the index, take the last pair with that symbol
     * out of bucket `pos`, and splice the bucket out once it is empty. With `pos == -1`
     * there is no bucket to scan, so `splice(-1, 1)` drops the last bucket instead.
     */
    method RemoveAt(key: K, pos: int) returns (r: int)
      requires pos == -1 || 0 <= pos < |sorted|
      modifies this
      ensures r == pos
      ensures index == old(index) - {symbolize(key)}
      ensures sorted == Removed(old(sorted), pos, symbolize(key), symbolize)
      ensures (old(Valid()) && 0 <= pos && symbolize(old(sorted)[pos][0].key) == symbolize(key)) ==>
                && Valid()
                && sorted == (if |old(sorted)[pos]| == 1 then old(sorted)[..pos] + old(sorted)[pos + 1..]
                              else old(sorted)[pos := old(sorted)[pos][1..]])
                && (comparator.Some? && TotalPreorder(comparator.value) && old(Sorted()) ==> Sorted())
    {
      var symbol := symbolize(key);
      index := index - {symbol};
      var entries := if 0 <= pos < |sorted| then sorted[pos] else [];
      var at := ScanBucket(entries, symbol, symbolize);
      if at >= 0 {
        entries := entries[..at] + entries[at + 1..];
        sorted := sorted[pos := entries];
      }
      if |entries| == 0 {
        if pos == -1 {
          if |sorted| > 0 {
            sorted := sorted[..|sorted| - 1];
          }
        } else {
          sorted := sorted[..pos] + sorted[pos + 1..];
        }
      }
      if old(Valid()) && 0 <= pos && symbolize(old(sorted)[pos][0].key) == symbol {
        RemovedHead(old(index), old(sorted), symbolize, pos);
        if comparator.Some? && TotalPreorder(comparator.value) && old(Sorted()) {
          DropHeadKeepsOrdered(old(sorted), pos, comparator.value);
        }
      }
      return pos;
    }

    /**
     * `add`: first write wins. A key whose symbol is stored leaves the map as it is and
     * yields no position; otherwise the pair goes into the index and into one bucket, and
     * the slot is returned. A non-numeric comparator answer throws before anything changes.
     */
    method Add(key: K, value: V) returns (r: Result<Option<int>, Failure>)
      requires Valid()
      modifies this
      ensures Valid()
      ensures symbolize(key) in old(index) ==> r == Ok(None) && index == old(index) && sorted == old(sorted)
      ensures r.Err? ==>
                && r.error == InvalidComparatorResult && comparator.Some?
                && index == old(index) && sorted == old(sorted)
                && exists b :: 0 <= b < |sorted| && comparator.value(key, sorted[b][0].key).None?
      ensures symbolize(key) !in old(index) && r.Ok? ==>
                && r.value.Some? && 0 <= r.value.value <= |old(sorted)|
                && index == old(index)[symbolize(key) := Pair(key, value)]
                && var pos := r.value.value;
                   if comparator.Some? && pos < |old(sorted)| && Tied(comparator.value(old(sorted)[pos][0].key, key))
                   then sorted == old(sorted)[pos := old(sorted)[pos] + [Pair(key, value)]]
                   else sorted == old(sorted)[..pos] + [[Pair(key, value)]] + old(sorted)[pos..]
      ensures r.Ok? ==> Get(key) == Some(if symbolize(key) in old(index) then old(index)[symbolize(key)] else Pair(key, value))
      ensures comparator.None? && symbolize(key) !in old(index) ==>
                r == Ok(Some(|old(sorted)|)) && sorted == old(sorted) + [[Pair(key, value)]]
      ensures comparator.Some? && TotalPreorder(comparator.value) && old(Sorted()) ==>
                && r.Ok? && Sorted()
                && (r.value.Some? ==> old(Slot(sorted, r.value.value, key, comparator.value)))
    {
      if Get(key).Some? {
        return Ok(None);
      }
      var found := Pos(key, false);
      if found.Err? {
        return Err(found.error);
      }
      var pos := Insert(key, found.value, value);
      return Ok(Some(pos));
    }

    /**
     * `remove`: a key whose symbol is not stored is a no-op with no position. Otherwise the
     * exact lookup picks the bucket, and `_remove` runs with what it returns, -1 included.
     */
    method Remove(key: K) returns (r: Result<Option<int>, Failure>)
      requires Valid()
      modifies this
      ensures symbolize(key) !in old(index) ==> r == Ok(None) && index == old(index) && sorted == old(sorted)
      ensures r.Err? ==> comparator.Some? && index == old(index) && sorted == old(sorted)
      ensures r.Ok? && r.value.Some? ==> symbolize(key) in old(index) && index == old(index) - {symbolize(key)}
      ensures r.Ok? && r.value.Some? && r.value.value != -1 ==>
                && var pos := r.value.value;
                && 0 <= pos < |old(sorted)| && old(sorted)[pos][0] == old(index)[symbolize(key)]
                && sorted == (if |old(sorted)[pos]| == 1 then old(sorted)[..pos] + old(sorted)[pos + 1..]
                              else old(sorted)[pos := old(sorted)[pos][1..]])
                && Valid()
      ensures r == Ok(Some(-1)) ==>
                && |old(sorted)| > 0 && sorted == old(sorted)[..|old(sorted)| - 1]
                && (old(sorted)[|old(sorted)| - 1] != [old(index)[symbolize(key)]] ==> !Valid())
      ensures comparator.None? && symbolize(key) in old(index) ==> r == Ok(Some(-1))
      ensures comparator.Some? && Lawful() && old(Sorted()) && symbolize(key) in old(index) ==>
                && r.Ok? && r.value.Some?
                && (r.value.value == -1 <==> forall b :: 0 <= b < |old(sorted)| ==> old(sorted)[b][0] != old(index)[symbolize(key)])
                && (r.value.value != -1 ==> Sorted())
    {
      if Get(key).None? {
        return Ok(None);
      }
      var found := Pos(key, true);
      if found.Err? {
        return Err(found.error);
      }
      var symbol := symbolize(key);
      StoredBucket(index, sorted, symbolize, symbol);
      if found.value >= 0 {
        IndexedHead(index, sorted, symbolize, found.value);
      } else if sorted[|sorted| - 1] != [index[symbol]] {
        MisplacedRemoval(index, sorted, symbolize, symbol);
      }
      var pos := RemoveAt(key, found.value);
      return Ok(Some(pos));
    }

    /**
     * The first bucket holding a pair with the key's symbol, or -1 when none does: each
     * bucket is scanned as `_remove` scans one. No comparator is consulted.
     */
    method Locate(key: K) returns (b: int)
      ensures -1 <= b < |sorted|
      ensures b >= 0 ==> exists j :: 0 <= j < |sorted[b]| && symbolize(sorted[b][j].key) == symbolize(key)
      ensures b == -1 <==> forall c, j :: 0 <= c < |sorted| && 0 <= j < |sorted[c]| ==> symbolize(sorted[c][j].key) != symbolize(key)
    {
      var symbol := symbolize(key);
      var i := 0;
      while i < |sorted|
        invariant 0 <= i <= |sorted|
        invariant forall c, j :: 0 <= c < i && 0 <= j < |sorted[c]| ==> symbolize(sorted[c][j].key) != symbol
      {
        var at := ScanBucket(sorted[i], symbol, symbolize);
        if at >= 0 {
          return i;
        }
        i := i + 1;
      }
      return -1;
    }

    /**
     * `remove` as it is evidently meant to behave: the stored pair leaves the bucket that
     * holds it, wherever it sits in that bucket and with or without a comparator; the
     * bucket goes once empty; the index entry goes; the bucket's position is returned.
     */
    method RemoveIntended(key: K) returns (r: Option<int>)
      requires Valid()
      modifies this
      ensures Valid()
      ensures Get(key) == None
      ensures symbolize(key) !in old(index) ==> r == None && index == old(index) && sorted == old(sorted)
      ensures symbolize(key) in old(index) ==>
                && r.Some? && 0 <= r.value < |old(sorted)| && old(index)[symbolize(key)] in old(sorted)[r.value]
                && index == old(index) - {symbolize(key)}
                && (exists at :: 0 <= at < |old(sorted)[r.value]| && old(sorted)[r.value][at] == old(index)[symbolize(key)]
                              && sorted == Taken(old(sorted), r.value, at))
                && exists k :: 0 <= k < |old(Entries())| && old(Entries())[k] == old(index)[symbolize(key)]
                            && Entries() == old(Entries())[..k] + old(Entries())[k + 1..]
      ensures comparator.Some? && TotalPreorder(comparator.value) && old(Sorted()) ==> Sorted()
    {
      if Get(key).None? {
        return None;
      }
      var symbol := symbolize(key);
      ghost var before, stored := sorted, index;
      StoredBucket(stored, before, symbolize, symbol);
      var b := Locate(key);
      var pos := RemoveAt(key, b);
      RemovedStored(stored, before, symbolize, symbol, b);
      ghost var at := LastMatch(before[b], symbol, symbolize);
      assert sorted == Taken(before, b, at);
      if comparator.Some? && TotalPreorder(comparator.value) && Ordered(before, comparator.value) {
        RemovedKeepsOrdered(before, b, symbol, symbolize, comparator.value);
      }
      return Some(pos);
    }

    /**
     * `forEach`, with the callback's arguments collected: `(value, key)` for every stored
     * pair, buckets in order and each bucket front to back.
     */
    method ForEach() returns (visits: seq<(V, K)>)
      ensures |visits| == |Entries()|
      ensures forall t :: 0 <= t < |visits| ==> visits[t] == (Entries()[t].value, Entries()[t].key)
    {
      visits := [];
      var i := 0;
      while i < |sorted|
        invariant 0 <= i <= |sorted|
        invariant |visits| == |Flatten(sorted[..i])|
        invariant forall t :: 0 <= t < |visits| ==> visits[t] == (Flatten(sorted[..i])[t].value, Flatten(sorted[..i])[t].key)
      {
        var entries: Bucket<K, V> := sorted[i];
        ghost var done: seq<Pair<K, V>> := Flatten(sorted[..i]);
        var j := 0;
        while j < |entries|
          invariant 0 <= j <= |entries|
          invariant |visits| == |done| + j
          invariant forall t :: 0 <= t < |visits| ==> visits[t] == ((done + entries)[t].value, (done + entries)[t].key)
        {
          visits := visits + [(entries[j].value, entries[j].key)];
          j := j + 1;
        }
        assert sorted[..i + 1] == sorted[..i] + [entries];
        FlattenAppend(sorted[..i], [entries]);
        assert Flatten([entries]) == entries + Flatten([]);
        i := i + 1;
      }
      assert sorted[..i] == sorted;
    }
  }
}
