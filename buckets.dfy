/**
 * The two structures of a sorted map as values: the identity index (symbol to pair) and
 * the bucket list (pairs grouped by rank, buckets in ascending order), with the
 * invariants that tie them together and the facts about the in-place edits made to them.
 */
module Buckets {
  import opened Outcomes
  import opened Comparators
  import opened Search

  /** A stored `{key, value}` pair. */
  datatype Pair<K, V> = Pair(key: K, value: V)

  /** The pairs that the comparator ranks equal, in insertion order. */
  type Bucket<K, V> = seq<Pair<K, V>>

  /** All stored pairs in traversal order: bucket by bucket, each bucket front to back. */
  function Flatten<K, V>(bs: seq<Bucket<K, V>>): seq<Pair<K, V>>
  {
    if bs == [] then [] else bs[0] + Flatten(bs[1..])
  }

  ghost predicate NonEmptyBuckets<K, V>(bs: seq<Bucket<K, V>>) {
    forall b :: 0 <= b < |bs| ==> |bs[b]| > 0
  }

  /** No two stored pairs share a symbol. */
  ghost predicate DistinctSymbols<K, V, S>(entries: seq<Pair<K, V>>, symbolize: K -> S) {
    forall i, j :: 0 <= i < j < |entries| ==> symbolize(entries[i].key) != symbolize(entries[j].key)
  }

  /** The index maps exactly the symbols of `entries`, each to its own pair. */
  ghost predicate Indexed<K, V, S>(index: map<S, Pair<K, V>>, entries: seq<Pair<K, V>>, symbolize: K -> S) {
    && DistinctSymbols(entries, symbolize)
    && (forall i :: 0 <= i < |entries| ==>
          symbolize(entries[i].key) in index && index[symbolize(entries[i].key)] == entries[i])
    && (forall s :: s in index ==> symbolize(index[s].key) == s && index[s] in entries)
  }

  /** The identity index and the bucket list agree, and no bucket is empty. */
  ghost predicate Consistent<K, V, S>(index: map<S, Pair<K, V>>, bs: seq<Bucket<K, V>>, symbolize: K -> S) {
    NonEmptyBuckets(bs) && Indexed(index, Flatten(bs), symbolize)
  }

  /** The representative key of each bucket: the key of its first pair. */
  function Heads<K, V>(bs: seq<Bucket<K, V>>): (keys: seq<K>)
    requires NonEmptyBuckets(bs)
    ensures |keys| == |bs|
    ensures forall b :: 0 <= b < |bs| ==> keys[b] == bs[b][0].key
  {
    seq(|bs|, b requires 0 <= b < |bs| => bs[b][0].key)
  }

  /** Every pair of the bucket is rank-equal to its first one. */
  ghost predicate RankEqual<K(!new), V>(bucket: Bucket<K, V>, cmp: Comparator<K>) {
    |bucket| > 0 && forall j :: 0 <= j < |bucket| ==> Tied(cmp(bucket[0].key, bucket[j].key))
  }

  /** Buckets are internally rank-equal and strictly increasing. */
  ghost predicate Ordered<K(!new), V>(bs: seq<Bucket<K, V>>, cmp: Comparator<K>) {
    && (forall b :: 0 <= b < |bs| ==> RankEqual(bs[b], cmp))
    && (forall b, c {:trigger cmp(bs[b][0].key, bs[c][0].key)} :: 0 <= b < c < |bs| ==> Before(cmp(bs[b][0].key, bs[c][0].key)))
  }

  /** `pos` is the slot of the bucket list where a pair with `key` belongs. */
  ghost predicate Slot<K(!new), V>(bs: seq<Bucket<K, V>>, pos: int, key: K, cmp: Comparator<K>)
    requires NonEmptyBuckets(bs)
  {
    PlacedIn(Heads(bs), 0, |bs|, pos, key, cmp)
  }

  // ---------------------------------------------------------------------------
  // Flattening

  lemma {:induction false} FlattenAppend<K, V>(a: seq<Bucket<K, V>>, b: seq<Bucket<K, V>>)
    ensures Flatten(a + b) == Flatten(a) + Flatten(b)
  {
    if a == [] {
      assert a + b == b;
    } else {
      assert (a + b)[1..] == a[1..] + b;
      FlattenAppend(a[1..], b);
    }
  }

  /** The pairs of bucket `b` form one contiguous run of the traversal. */
  lemma {:induction false} FlattenAround<K, V>(bs: seq<Bucket<K, V>>, b: int)
    requires 0 <= b < |bs|
    ensures Flatten(bs) == Flatten(bs[..b]) + bs[b] + Flatten(bs[b + 1..])
  {
    var single := [bs[b]];
    assert bs == bs[..b] + (single + bs[b + 1..]);
    FlattenAppend(bs[..b], single + bs[b + 1..]);
    FlattenAppend(single, bs[b + 1..]);
    assert single[1..] == [];
    assert Flatten(single) == bs[b];
  }

  /** Replacing bucket `b` replaces its run in the traversal. */
  lemma {:induction false} FlattenReplace<K, V>(bs: seq<Bucket<K, V>>, b: int, bucket: Bucket<K, V>)
    requires 0 <= b < |bs|
    ensures Flatten(bs[b := bucket]) == Flatten(bs[..b]) + bucket + Flatten(bs[b + 1..])
  {
    FlattenAround(bs[b := bucket], b);
    assert bs[b := bucket][..b] == bs[..b];
    assert bs[b := bucket][b + 1..] == bs[b + 1..];
  }

  /** Every pair of the traversal sits in some bucket. */
  lemma {:induction false} FlattenMember<K, V>(bs: seq<Bucket<K, V>>, x: Pair<K, V>)
    requires x in Flatten(bs)
    ensures exists b, j :: 0 <= b < |bs| && 0 <= j < |bs[b]| && bs[b][j] == x
  {
    if x in bs[0] {
      var j :| 0 <= j < |bs[0]| && bs[0][j] == x;
    } else {
      FlattenMember(bs[1..], x);
      var b, j :| 0 <= b < |bs[1..]| && 0 <= j < |bs[1..][b]| && bs[1..][b][j] == x;
      assert bs[b + 1][j] == x;
    }
  }

  /** Splicing a new bucket `[p]` in at `pos` inserts `p` into the traversal. */
  lemma {:induction false} SpliceEntries<K, V>(bs: seq<Bucket<K, V>>, pos: int, p: Pair<K, V>)
    requires 0 <= pos <= |bs|
    ensures var k := |Flatten(bs[..pos])|;
            && k <= |Flatten(bs)|
            && Flatten(bs[..pos] + [[p]] + bs[pos..]) == Flatten(bs)[..k] + [p] + Flatten(bs)[k..]
  {
    assert bs == bs[..pos] + bs[pos..];
    FlattenAppend(bs[..pos], bs[pos..]);
    FlattenAppend(bs[..pos] + [[p]], bs[pos..]);
    FlattenAppend(bs[..pos], [[p]]);
    assert Flatten([[p]]) == [p] + Flatten([]);
    var k := |Flatten(bs[..pos])|;
    assert Flatten(bs)[..k] == Flatten(bs[..pos]);
    assert Flatten(bs)[k..] == Flatten(bs[pos..]);
  }

  /** Appending `p` to bucket `pos` inserts `p` into the traversal right after that bucket. */
  lemma {:induction false} PushEntries<K, V>(bs: seq<Bucket<K, V>>, pos: int, p: Pair<K, V>)
    requires 0 <= pos < |bs|
    ensures var k := |Flatten(bs[..pos])| + |bs[pos]|;
            && k <= |Flatten(bs)|
            && Flatten(bs[pos := bs[pos] + [p]]) == Flatten(bs)[..k] + [p] + Flatten(bs)[k..]
  {
    FlattenAround(bs, pos);
    FlattenReplace(bs, pos, bs[pos] + [p]);
    var k := |Flatten(bs[..pos])| + |bs[pos]|;
    assert Flatten(bs)[..k] == Flatten(bs[..pos]) + bs[pos];
    assert Flatten(bs)[k..] == Flatten(bs[pos + 1..]);
  }

  /** Taking pair `j` out of bucket `pos` takes it out of the traversal. */
  lemma {:induction false} TakeEntries<K, V>(bs: seq<Bucket<K, V>>, pos: int, j: int)
    requires 0 <= pos < |bs| && 0 <= j < |bs[pos]|
    ensures var k := |Flatten(bs[..pos])| + j;
            && k < |Flatten(bs)|
            && Flatten(bs)[k] == bs[pos][j]
            && Flatten(bs[pos := bs[pos][..j] + bs[pos][j + 1..]]) == Flatten(bs)[..k] + Flatten(bs)[k + 1..]
  {
    var x := bs[pos][j];
    var front, back := bs[pos][..j], bs[pos][j + 1..];
    var before, after := Flatten(bs[..pos]), Flatten(bs[pos + 1..]);
    FlattenAround(bs, pos);
    FlattenReplace(bs, pos, front + back);
    assert bs[pos] == front + [x] + back;
    Regroup(before, front, x, back, after);
    Cut(before + front, x, back + after);
  }

  /** Splicing out a bucket traverses like emptying it. */
  lemma {:induction false} DropEntries<K, V>(bs: seq<Bucket<K, V>>, pos: int)
    requires 0 <= pos < |bs|
    ensures Flatten(bs[..pos] + bs[pos + 1..]) == Flatten(bs[pos := []])
  {
    FlattenAppend(bs[..pos], bs[pos + 1..]);
    FlattenReplace(bs, pos, []);
  }

  /** Regrouping a concatenation around one element. */
  lemma Regroup<T>(a: seq<T>, b: seq<T>, x: T, c: seq<T>, d: seq<T>)
    ensures a + (b + [x] + c) + d == (a + b) + [x] + (c + d)
    ensures a + (b + c) + d == (a + b) + (c + d)
  {
  }

  /** Cutting a concatenation at the element between its two parts. */
  lemma Cut<T>(a: seq<T>, x: T, b: seq<T>)
    ensures |a + [x] + b| == |a| + 1 + |b|
    ensures (a + [x] + b)[..|a|] == a && (a + [x] + b)[|a|] == x && (a + [x] + b)[|a| + 1..] == b
  {
  }

  // ---------------------------------------------------------------------------
  // The identity index

  /** A symbol is indexed exactly when some stored pair has it, and then it maps to that pair. */
  lemma {:induction false} IndexedLookup<K, V, S>(index: map<S, Pair<K, V>>, entries: seq<Pair<K, V>>, symbolize: K -> S, symbol: S)
    ensures Indexed(index, entries, symbolize) ==>
              (symbol in index <==> exists i :: 0 <= i < |entries| && symbolize(entries[i].key) == symbol)
    ensures Indexed(index, entries, symbolize) && symbol in index ==>
              index[symbol] in entries && symbolize(index[symbol].key) == symbol
  {
    if Indexed(index, entries, symbolize) && symbol in index {
      var i :| 0 <= i < |entries| && entries[i] == index[symbol];
      assert symbolize(entries[i].key) == symbol;
    }
  }

  /** Ordered buckets have strictly ascending first keys, as the binary search expects. */
  lemma {:induction false} OrderedHeads<K(!new), V>(bs: seq<Bucket<K, V>>, cmp: Comparator<K>)
    requires Ordered(bs, cmp)
    ensures NonEmptyBuckets(bs) && AscendingIn(Heads(bs), 0, |bs|, cmp)
  {
    assert NonEmptyBuckets(bs) by {
      forall b | 0 <= b < |bs| ensures |bs[b]| > 0 {
        assert RankEqual(bs[b], cmp);
      }
    }
  }

  /** Indexing a pair with a new symbol, wherever it lands in the traversal, keeps the index exact. */
  lemma {:induction false} IndexedInsert<K, V, S>(index: map<S, Pair<K, V>>, entries: seq<Pair<K, V>>, symbolize: K -> S, k: int, p: Pair<K, V>)
    requires Indexed(index, entries, symbolize)
    requires symbolize(p.key) !in index
    requires 0 <= k <= |entries|
    ensures Indexed(index[symbolize(p.key) := p], entries[..k] + [p] + entries[k..], symbolize)
  {
    var after := entries[..k] + [p] + entries[k..];
    var index' := index[symbolize(p.key) := p];
    forall i, j | 0 <= i < j < |after|
      ensures symbolize(after[i].key) != symbolize(after[j].key)
    {
      assert after[i] == if i < k then entries[i] else if i == k then p else entries[i - 1];
      assert after[j] == if j < k then entries[j] else if j == k then p else entries[j - 1];
    }
    forall i | 0 <= i < |after|
      ensures symbolize(after[i].key) in index' && index'[symbolize(after[i].key)] == after[i]
    {
      assert after[i] == if i < k then entries[i] else if i == k then p else entries[i - 1];
    }
    forall s | s in index'
      ensures symbolize(index'[s].key) == s && index'[s] in after
    {
      if s != symbolize(p.key) {
        var i :| 0 <= i < |entries| && entries[i] == index[s];
        assert after[if i < k then i else i + 1] == entries[i];
      } else {
        assert after[k] == p;
      }
    }
  }

  /** Dropping the pair at `k` and its symbol keeps the index exact. */
  lemma {:induction false} IndexedRemove<K, V, S>(index: map<S, Pair<K, V>>, entries: seq<Pair<K, V>>, symbolize: K -> S, k: int)
    requires Indexed(index, entries, symbolize)
    requires 0 <= k < |entries|
    ensures Indexed(index - {symbolize(entries[k].key)}, entries[..k] + entries[k + 1..], symbolize)
  {
    var after := entries[..k] + entries[k + 1..];
    var gone := symbolize(entries[k].key);
    var index' := index - {gone};
    forall i, j | 0 <= i < j < |after|
      ensures symbolize(after[i].key) != symbolize(after[j].key)
    {
      assert after[i] == if i < k then entries[i] else entries[i + 1];
      assert after[j] == if j < k then entries[j] else entries[j + 1];
    }
    forall i | 0 <= i < |after|
      ensures symbolize(after[i].key) in index' && index'[symbolize(after[i].key)] == after[i]
    {
      var at := if i < k then i else i + 1;
      assert after[i] == entries[at];
      assert symbolize(after[i].key) != gone;
    }
    forall s | s in index'
      ensures symbolize(index'[s].key) == s && index'[s] in after
    {
      var i :| 0 <= i < |entries| && entries[i] == index[s];
      assert i != k;
      assert after[if i < k then i else i - 1] == entries[i];
    }
  }

  /** Splicing a new key's pair in as a bucket of its own keeps index and buckets consistent. */
  lemma {:induction false} SplicedConsistent<K, V, S>(index: map<S, Pair<K, V>>, bs: seq<Bucket<K, V>>, symbolize: K -> S, pos: int, p: Pair<K, V>)
    requires Consistent(index, bs, symbolize) && symbolize(p.key) !in index
    requires 0 <= pos <= |bs|
    ensures Consistent(index[symbolize(p.key) := p], bs[..pos] + [[p]] + bs[pos..], symbolize)
  {
    SpliceEntries(bs, pos, p);
    IndexedInsert(index, Flatten(bs), symbolize, |Flatten(bs[..pos])|, p);
    GrowNonEmpty(bs, pos, p);
  }

  /** Pushing a new key's pair onto the end of a bucket keeps index and buckets consistent. */
  lemma {:induction false} PushedConsistent<K, V, S>(index: map<S, Pair<K, V>>, bs: seq<Bucket<K, V>>, symbolize: K -> S, pos: int, p: Pair<K, V>)
    requires Consistent(index, bs, symbolize) && symbolize(p.key) !in index
    requires 0 <= pos < |bs|
    ensures Consistent(index[symbolize(p.key) := p], bs[pos := bs[pos] + [p]], symbolize)
  {
    PushEntries(bs, pos, p);
    IndexedInsert(index, Flatten(bs), symbolize, |Flatten(bs[..pos])| + |bs[pos]|, p);
    GrowNonEmpty(bs, pos, p);
  }

  // ---------------------------------------------------------------------------
  // Removal

  /** The position of the last pair of `entries` whose key has `symbol`, or -1 when there is none. */
  ghost function LastMatch<K, V, S>(entries: Bucket<K, V>, symbol: S, symbolize: K -> S): (i: int)
    ensures -1 <= i < |entries|
    ensures i >= 0 ==> symbolize(entries[i].key) == symbol
    ensures forall j :: i < j < |entries| ==> symbolize(entries[j].key) != symbol
    decreases |entries|
  {
    if entries == [] then -1
    else if symbolize(entries[|entries| - 1].key) == symbol then |entries| - 1
    else LastMatch(entries[..|entries| - 1], symbol, symbolize)
  }

  /** The backwards scan of `_remove` over one bucket, looking for the pair with `symbol`. */
  method ScanBucket<K, V, S(==)>(entries: Bucket<K, V>, symbol: S, symbolize: K -> S) returns (found: int)
    ensures found == LastMatch(entries, symbol, symbolize)
  {
    var i := |entries|;
    assert entries[..i] == entries;
    while i > 0
      invariant 0 <= i <= |entries|
      invariant LastMatch(entries, symbol, symbolize) == LastMatch(entries[..i], symbol, symbolize)
    {
      i := i - 1;
      assert entries[..i + 1][..i] == entries[..i];
      if symbolize(entries[i].key) == symbol {
        return i;
      }
    }
    return -1;
  }

  /**
   * The scan as the source writes it: the last pair whose symbol is merely truthy, with no
   * comparison against the symbol being removed. `truthy` is the host language's truthiness.
   */
  ghost function LastTruthy<K, V, S>(entries: Bucket<K, V>, symbolize: K -> S, truthy: S -> bool): (i: int)
    ensures -1 <= i < |entries|
    ensures i >= 0 ==> truthy(symbolize(entries[i].key))
    ensures forall j :: i < j < |entries| ==> !truthy(symbolize(entries[j].key))
    decreases |entries|
  {
    if entries == [] then -1
    else if truthy(symbolize(entries[|entries| - 1].key)) then |entries| - 1
    else LastTruthy(entries[..|entries| - 1], symbolize, truthy)
  }

  /**
   * The bucket list after `_remove(key, pos)` with `symbol` the key's symbol: the last pair
   * with that symbol leaves bucket `pos`, and a bucket left empty is spliced out. At
   * `pos == -1` there is no bucket to scan and `splice(-1, 1)` drops the last bucket.
   */
  ghost function Removed<K, V, S>(bs: seq<Bucket<K, V>>, pos: int, symbol: S, symbolize: K -> S): seq<Bucket<K, V>>
    requires pos == -1 || 0 <= pos < |bs|
  {
    if pos == -1 then
      (if bs == [] then bs else bs[..|bs| - 1])
    else
      var at := LastMatch(bs[pos], symbol, symbolize);
      var rest := if at >= 0 then bs[pos][..at] + bs[pos][at + 1..] else bs[pos];
      if rest == [] then bs[..pos] + bs[pos + 1..] else bs[pos := rest]
  }

  /** Splicing in a new one-pair bucket, or pushing onto an existing bucket, leaves no bucket empty. */
  lemma {:induction false} GrowNonEmpty<K, V>(bs: seq<Bucket<K, V>>, pos: int, p: Pair<K, V>)
    requires NonEmptyBuckets(bs) && 0 <= pos <= |bs|
    ensures NonEmptyBuckets(bs[..pos] + [[p]] + bs[pos..])
    ensures pos < |bs| ==> NonEmptyBuckets(bs[pos := bs[pos] + [p]])
  {
    var spliced := bs[..pos] + [[p]] + bs[pos..];
    forall b | 0 <= b < |spliced| ensures |spliced[b]| > 0 {
      assert spliced[b] == if b < pos then bs[b] else if b == pos then [p] else bs[b - 1];
    }
  }

  /** The buckets with pair `j` of bucket `pos` taken out, and that bucket spliced out once empty. */
  ghost function Taken<K, V>(bs: seq<Bucket<K, V>>, pos: int, j: int): seq<Bucket<K, V>>
    requires 0 <= pos < |bs| && 0 <= j < |bs[pos]|
  {
    if |bs[pos]| == 1 then bs[..pos] + bs[pos + 1..] else bs[pos := bs[pos][..j] + bs[pos][j + 1..]]
  }

  /** Taking one pair out leaves no bucket empty. */
  lemma {:induction false} TakeNonEmpty<K, V>(bs: seq<Bucket<K, V>>, pos: int, j: int)
    requires NonEmptyBuckets(bs) && 0 <= pos < |bs| && 0 <= j < |bs[pos]|
    ensures NonEmptyBuckets(Taken(bs, pos, j))
  {
    var after := Taken(bs, pos, j);
    forall b | 0 <= b < |after| ensures |after[b]| > 0 {
      if |bs[pos]| == 1 {
        assert after[b] == if b < pos then bs[b] else bs[b + 1];
      } else if b == pos {
        assert |bs[pos][..j] + bs[pos][j + 1..]| == |bs[pos]| - 1;
      }
    }
  }

  /**
   * Taking one pair out of the buckets, and its symbol out of the index, keeps them
   * consistent; the traversal loses exactly that pair.
   */
  lemma {:induction false} TakeConsistent<K, V, S>(index: map<S, Pair<K, V>>, bs: seq<Bucket<K, V>>, symbolize: K -> S, pos: int, j: int)
    requires Consistent(index, bs, symbolize)
    requires 0 <= pos < |bs| && 0 <= j < |bs[pos]|
    ensures var k := |Flatten(bs[..pos])| + j;
            && k < |Flatten(bs)| && Flatten(bs)[k] == bs[pos][j]
            && Flatten(Taken(bs, pos, j)) == Flatten(bs)[..k] + Flatten(bs)[k + 1..]
            && Consistent(index - {symbolize(bs[pos][j].key)}, Taken(bs, pos, j), symbolize)
  {
    var entries := Flatten(bs);
    var k := |Flatten(bs[..pos])| + j;
    TakeEntries(bs, pos, j);
    if |bs[pos]| == 1 {
      DropEntries(bs, pos);
      assert bs[pos][..j] + bs[pos][j + 1..] == [];
    }
    assert Flatten(Taken(bs, pos, j)) == entries[..k] + entries[k + 1..];
    IndexedRemove(index, entries, symbolize, k);
    TakeNonEmpty(bs, pos, j);
  }

  /** In a consistent map the pairs of one bucket have distinct symbols. */
  lemma {:induction false} BucketDistinct<K, V, S>(bs: seq<Bucket<K, V>>, symbolize: K -> S, pos: int)
    requires DistinctSymbols(Flatten(bs), symbolize)
    requires 0 <= pos < |bs|
    ensures DistinctSymbols(bs[pos], symbolize)
  {
    FlattenAround(bs, pos);
    var offset := |Flatten(bs[..pos])|;
    forall i, j | 0 <= i < j < |bs[pos]|
      ensures symbolize(bs[pos][i].key) != symbolize(bs[pos][j].key)
    {
      assert Flatten(bs)[offset + i] == bs[pos][i];
      assert Flatten(bs)[offset + j] == bs[pos][j];
    }
  }

  /**
   * Removing by the symbol of a bucket's first pair takes exactly that pair out (the
   * bucket goes when it was the only one) and keeps index and buckets consistent.
   */
  lemma {:induction false} RemovedHead<K, V, S>(index: map<S, Pair<K, V>>, bs: seq<Bucket<K, V>>, symbolize: K -> S, pos: int)
    requires Consistent(index, bs, symbolize)
    requires 0 <= pos < |bs|
    ensures var symbol := symbolize(bs[pos][0].key);
            && Removed(bs, pos, symbol, symbolize)
               == (if |bs[pos]| == 1 then bs[..pos] + bs[pos + 1..] else bs[pos := bs[pos][1..]])
            && Consistent(index - {symbol}, Removed(bs, pos, symbol, symbolize), symbolize)
  {
    var symbol := symbolize(bs[pos][0].key);
    BucketDistinct(bs, symbolize, pos);
    assert LastMatch(bs[pos], symbol, symbolize) == 0;
    assert bs[pos][..0] + bs[pos][1..] == bs[pos][1..];
    assert Removed(bs, pos, symbol, symbolize) == Taken(bs, pos, 0);
    TakeConsistent(index, bs, symbolize, pos, 0);
  }

  /** The first pair of every bucket is the pair indexed under its symbol. */
  lemma {:induction false} IndexedHead<K, V, S>(index: map<S, Pair<K, V>>, bs: seq<Bucket<K, V>>, symbolize: K -> S, pos: int)
    requires Consistent(index, bs, symbolize) && 0 <= pos < |bs|
    ensures symbolize(bs[pos][0].key) in index && index[symbolize(bs[pos][0].key)] == bs[pos][0]
  {
    FlattenAround(bs, pos);
    assert Flatten(bs)[|Flatten(bs[..pos])|] == bs[pos][0];
  }

  /** An indexed symbol occurs in some bucket, and any bucket where it occurs holds the indexed pair. */
  lemma {:induction false} StoredBucket<K, V, S>(index: map<S, Pair<K, V>>, bs: seq<Bucket<K, V>>, symbolize: K -> S, symbol: S)
    requires Consistent(index, bs, symbolize) && symbol in index
    ensures exists c, j :: 0 <= c < |bs| && 0 <= j < |bs[c]| && symbolize(bs[c][j].key) == symbol
    ensures forall c, j :: 0 <= c < |bs| && 0 <= j < |bs[c]| && symbolize(bs[c][j].key) == symbol ==> index[symbol] in bs[c]
  {
    FlattenMember(bs, index[symbol]);
    forall c, j | 0 <= c < |bs| && 0 <= j < |bs[c]| && symbolize(bs[c][j].key) == symbol
      ensures index[symbol] in bs[c]
    {
      FlattenAround(bs, c);
      assert Flatten(bs)[|Flatten(bs[..c])| + j] == bs[c][j];
    }
  }

  /**
   * Removing by `symbol` from the bucket that holds the pair indexed under `symbol` takes
   * exactly that pair out of the traversal and keeps index and buckets consistent.
   */
  lemma {:induction false} RemovedStored<K, V, S>(index: map<S, Pair<K, V>>, bs: seq<Bucket<K, V>>, symbolize: K -> S, symbol: S, pos: int)
    requires Consistent(index, bs, symbolize)
    requires symbol in index && 0 <= pos < |bs| && index[symbol] in bs[pos]
    ensures var at := LastMatch(bs[pos], symbol, symbolize);
            var k := |Flatten(bs[..pos])| + at;
            && 0 <= at < |bs[pos]| && bs[pos][at] == index[symbol]
            && Removed(bs, pos, symbol, symbolize) == Taken(bs, pos, at)
            && Consistent(index - {symbol}, Taken(bs, pos, at), symbolize)
            && 0 <= k < |Flatten(bs)| && Flatten(bs)[k] == index[symbol]
            && Flatten(Taken(bs, pos, at)) == Flatten(bs)[..k] + Flatten(bs)[k + 1..]
  {
    var at := StoredMatch(index, bs, symbolize, symbol, pos);
    TakeConsistent(index, bs, symbolize, pos, at);
  }

  /** The scan of `_remove` over the bucket holding the indexed pair stops at that pair. */
  lemma {:induction false} StoredMatch<K, V, S>(index: map<S, Pair<K, V>>, bs: seq<Bucket<K, V>>, symbolize: K -> S, symbol: S, pos: int)
      returns (at: int)
    requires Consistent(index, bs, symbolize)
    requires symbol in index && 0 <= pos < |bs| && index[symbol] in bs[pos]
    ensures at == LastMatch(bs[pos], symbol, symbolize)
    ensures 0 <= at < |bs[pos]| && bs[pos][at] == index[symbol]
  {
    var p := index[symbol];
    assert symbolize(p.key) == symbol;
    BucketDistinct(bs, symbolize, pos);
    var j :| 0 <= j < |bs[pos]| && bs[pos][j] == p;
    at := LastMatch(bs[pos], symbol, symbolize);
    assert at == j;
  }

  /**
   * The `pos == -1` path of `_remove` deletes the index entry and drops the last bucket.
   * Unless that bucket held exactly the removed pair, index and buckets then disagree.
   */
  lemma {:induction false} MisplacedRemoval<K, V, S>(index: map<S, Pair<K, V>>, bs: seq<Bucket<K, V>>, symbolize: K -> S, symbol: S)
    requires Consistent(index, bs, symbolize)
    requires symbol in index && bs != [] && bs[|bs| - 1] != [index[symbol]]
    ensures !Consistent(index - {symbol}, Removed(bs, -1, symbol, symbolize), symbolize)
  {
    var p := index[symbol];
    var last := |bs| - 1;
    var kept := bs[..last];
    assert Removed(bs, -1, symbol, symbolize) == kept;
    FlattenAround(bs, last);
    assert bs[last + 1..] == [];
    var head := Flatten(kept);
    assert Flatten(bs) == head + bs[last];
    var index' := index - {symbol};
    assert |bs[last]| == 1 ==> bs[last] == [bs[last][0]];
    if p in head {
      var i :| 0 <= i < |head| && head[i] == p;
      assert symbolize(head[i].key) !in index';
    } else {
      var j :| 0 <= j < |bs[last]| && bs[last][j] == p;
      var other := if j == 0 then 1 else 0;
      var q := bs[last][other];
      assert Flatten(bs)[|head| + other] == q;
      assert Flatten(bs)[|head| + j] == p;
      assert symbolize(q.key) != symbol;
      forall i | 0 <= i < |head| ensures head[i] != q {
        assert Flatten(bs)[i] == head[i];
      }
      assert symbolize(q.key) in index' && index'[symbolize(q.key)] !in head;
    }
  }

  // ---------------------------------------------------------------------------
  // Order

  /** With a new key ranked strictly between its neighbours, splicing in `[p]` keeps the buckets ordered. */
  lemma {:induction false} SpliceKeepsOrdered<K(!new), V>(bs: seq<Bucket<K, V>>, pos: int, p: Pair<K, V>, cmp: Comparator<K>)
    requires TotalPreorder(cmp) && Ordered(bs, cmp)
    requires Slot(bs, pos, p.key, cmp)
    requires pos < |bs| ==> Before(cmp(p.key, bs[pos][0].key))
    ensures Ordered(bs[..pos] + [[p]] + bs[pos..], cmp)
  {
    var after := bs[..pos] + [[p]] + bs[pos..];
    var heads := Heads(bs);
    assert forall i :: 0 <= i < pos ==> After(cmp(p.key, bs[i][0].key)) by {
      forall i | 0 <= i < pos ensures After(cmp(p.key, bs[i][0].key)) {
        assert heads[i] == bs[i][0].key;
      }
    }
    assert forall i :: pos <= i < |bs| ==> Before(cmp(p.key, bs[i][0].key)) by {
      forall i | pos <= i < |bs| ensures Before(cmp(p.key, bs[i][0].key)) {
        assert heads[i] == bs[i][0].key;
      }
    }
    PreorderFacts(cmp, p.key, p.key, p.key);
    forall b | 0 <= b < |after| ensures RankEqual(after[b], cmp) {
      assert after[b] == if b < pos then bs[b] else if b == pos then [p] else bs[b - 1];
    }
    forall b, c | 0 <= b < c < |after| ensures Before(cmp(after[b][0].key, after[c][0].key)) {
      if c < pos {
        assert after[b] == bs[b] && after[c] == bs[c];
      } else if c == pos {
        assert after[b] == bs[b] && after[c] == [p];
        PreorderFacts(cmp, bs[b][0].key, p.key, p.key);
      } else if b < pos {
        assert after[b] == bs[b] && after[c] == bs[c - 1];
      } else if b == pos {
        assert after[b] == [p] && after[c] == bs[c - 1];
      } else {
        assert after[b] == bs[b - 1] && after[c] == bs[c - 1];
      }
    }
  }

  /** Appending a pair rank-equal to a bucket's first pair keeps the buckets ordered. */
  lemma {:induction false} PushKeepsOrdered<K(!new), V>(bs: seq<Bucket<K, V>>, pos: int, p: Pair<K, V>, cmp: Comparator<K>)
    requires Ordered(bs, cmp)
    requires 0 <= pos < |bs| && Tied(cmp(bs[pos][0].key, p.key))
    ensures Ordered(bs[pos := bs[pos] + [p]], cmp)
  {
    var after := bs[pos := bs[pos] + [p]];
    assert RankEqual(after[pos], cmp) by {
      forall j | 0 <= j < |after[pos]| ensures Tied(cmp(after[pos][0].key, after[pos][j].key)) {
        assert after[pos][j] == if j < |bs[pos]| then bs[pos][j] else p;
      }
    }
  }

  /** Taking the first pair out of a bucket (and the bucket, once empty) keeps the buckets ordered. */
  lemma {:induction false} DropHeadKeepsOrdered<K(!new), V>(bs: seq<Bucket<K, V>>, pos: int, cmp: Comparator<K>)
    requires TotalPreorder(cmp) && Ordered(bs, cmp)
    requires 0 <= pos < |bs|
    ensures Ordered(if |bs[pos]| == 1 then bs[..pos] + bs[pos + 1..] else bs[pos := bs[pos][1..]], cmp)
  {
    if |bs[pos]| == 1 {
      var after := bs[..pos] + bs[pos + 1..];
      forall b | 0 <= b < |after| ensures after[b] == bs[if b < pos then b else b + 1] { }
    } else {
      var rest := bs[pos][1..];
      var after: seq<Bucket<K, V>> := bs[pos := rest];
      var head := bs[pos][0].key;
      var next := rest[0].key;
      PreorderFacts(cmp, head, next, next);
      forall j | 0 <= j < |rest| ensures Tied(cmp(next, rest[j].key)) {
        assert rest[j] == bs[pos][j + 1];
        PreorderFacts(cmp, next, head, rest[j].key);
      }
      forall b, c | 0 <= b < c < |after| ensures Before(cmp(after[b][0].key, after[c][0].key)) {
        if b == pos {
          PreorderFacts(cmp, next, head, bs[c][0].key);
        } else if c == pos {
          PreorderFacts(cmp, bs[b][0].key, head, next);
        }
      }
    }
  }

  /** Taking any one pair out of a bucket (and the bucket, once empty) keeps the buckets ordered. */
  lemma {:induction false} TakeKeepsOrdered<K(!new), V>(bs: seq<Bucket<K, V>>, pos: int, j: int, cmp: Comparator<K>)
    requires TotalPreorder(cmp) && Ordered(bs, cmp)
    requires 0 <= pos < |bs| && 0 <= j < |bs[pos]|
    ensures Ordered(if |bs[pos]| == 1 then bs[..pos] + bs[pos + 1..] else bs[pos := bs[pos][..j] + bs[pos][j + 1..]], cmp)
  {
    if j == 0 {
      assert bs[pos][..0] + bs[pos][1..] == bs[pos][1..];
      DropHeadKeepsOrdered(bs, pos, cmp);
    } else {
      var rest := bs[pos][..j] + bs[pos][j + 1..];
      var after: seq<Bucket<K, V>> := bs[pos := rest];
      assert rest[0] == bs[pos][0];
      forall i | 0 <= i < |rest| ensures Tied(cmp(rest[0].key, rest[i].key)) {
        assert rest[i] == bs[pos][if i < j then i else i + 1];
      }
      assert RankEqual(rest, cmp);
      forall b, c | 0 <= b < c < |after| ensures Before(cmp(after[b][0].key, after[c][0].key)) {
        assert after[b][0] == bs[b][0] && after[c][0] == bs[c][0];
      }
    }
  }

  /** Whatever symbol `_remove` scans a bucket of ordered buckets for, the buckets stay ordered. */
  lemma {:induction false} RemovedKeepsOrdered<K(!new), V, S>(bs: seq<Bucket<K, V>>, pos: int, symbol: S, symbolize: K -> S, cmp: Comparator<K>)
    requires TotalPreorder(cmp) && Ordered(bs, cmp)
    requires 0 <= pos < |bs|
    ensures Ordered(Removed(bs, pos, symbol, symbolize), cmp)
  {
    var at := LastMatch(bs[pos], symbol, symbolize);
    if at >= 0 {
      TakeKeepsOrdered(bs, pos, at, cmp);
      if |bs[pos]| == 1 {
        assert bs[pos][..at] + bs[pos][at + 1..] == [];
      }
    } else {
      assert |bs[pos]| > 0;
    }
  }

  /** The traversal of ordered buckets never visits a key ranked above a later one. */
  lemma {:induction false} EntriesAscending<K(!new), V>(bs: seq<Bucket<K, V>>, cmp: Comparator<K>)
    requires TotalPreorder(cmp) && Ordered(bs, cmp)
    ensures forall i, j :: 0 <= i < j < |Flatten(bs)| ==> !After(cmp(Flatten(bs)[i].key, Flatten(bs)[j].key))
  {
    if bs != [] {
      var first := bs[0];
      var rest := Flatten(bs[1..]);
      assert Ordered(bs[1..], cmp) by {
        forall b, c | 0 <= b < c < |bs[1..]| ensures Before(cmp(bs[1..][b][0].key, bs[1..][c][0].key)) {
          assert bs[1..][b] == bs[b + 1] && bs[1..][c] == bs[c + 1];
        }
      }
      EntriesAscending(bs[1..], cmp);
      var entries := Flatten(bs);
      forall i, j | 0 <= i < j < |entries| ensures !After(cmp(entries[i].key, entries[j].key)) {
        if j < |first| {
          PreorderFacts(cmp, entries[i].key, first[0].key, entries[j].key);
        } else if i >= |first| {
          assert entries[i] == rest[i - |first|] && entries[j] == rest[j - |first|];
        } else {
          var y := entries[j];
          assert y == rest[j - |first|];
          FlattenMember(bs[1..], y);
          var b, k :| 0 <= b < |bs[1..]| && 0 <= k < |bs[1..][b]| && bs[1..][b][k] == y;
          var other := bs[b + 1][0].key;
          assert Before(cmp(first[0].key, other));
          PreorderFacts(cmp, entries[i].key, first[0].key, other);
          PreorderFacts(cmp, entries[i].key, other, y.key);
        }
      }
    }
  }

  /**
   * When the comparator respects identity, a key whose symbol is stored has its slot at the
   * one bucket holding the stored pair; that pair is first there exactly when the first
   * pair's symbol is the key's.
   */
  lemma {:induction false} StoredKeySlot<K(!new), V, S>(index: map<S, Pair<K, V>>, bs: seq<Bucket<K, V>>, symbolize: K -> S, cmp: Comparator<K>, key: K, pos: int)
    requires Consistent(index, bs, symbolize) && Ordered(bs, cmp)
    requires TotalPreorder(cmp) && RespectsIdentity(cmp, symbolize)
    requires symbolize(key) in index
    requires Slot(bs, pos, key, cmp)
    ensures pos < |bs| && index[symbolize(key)] in bs[pos]
    ensures forall b :: 0 <= b < |bs| && bs[b][0] == index[symbolize(key)] ==> b == pos
    ensures symbolize(bs[pos][0].key) == symbolize(key) <==> bs[pos][0] == index[symbolize(key)]
    ensures symbolize(bs[pos][0].key) != symbolize(key) <==>
              forall b :: 0 <= b < |bs| ==> bs[b][0] != index[symbolize(key)]
  {
    var p := index[symbolize(key)];
    FlattenMember(bs, p);
    var b, j :| 0 <= b < |bs| && 0 <= j < |bs[b]| && bs[b][j] == p;
    PreorderFacts(cmp, key, bs[b][0].key, p.key);
    PreorderFacts(cmp, key, p.key, bs[b][0].key);
    assert Tied(cmp(key, bs[b][0].key));
    assert b == pos;
    forall c | 0 <= c < |bs| && bs[c][0] == p ensures c == pos {
      assert Tied(cmp(key, bs[c][0].key));
    }
    FlattenAround(bs, pos);
    assert Flatten(bs)[|Flatten(bs[..pos])|] == bs[pos][0];
  }
}
