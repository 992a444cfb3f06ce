/**
 * Client sequences verified against the contracts of `SortedMap` alone: a map under numeric
 * order, a map under parity where keys share a bucket, the removals that take the -1 path
 * and leave the map inconsistent, the corrected removal on the same inputs, and the bucket
 * scan as written.
 */
module Scenarios {
  import opened Outcomes
  import opened Comparators
  import opened Buckets
  import opened SortedMaps

  /** Symbols are the numbers themselves. */
  function Identity(k: int): int { k }

  /** Truthiness of a number symbol: every number but zero. */
  function NumberTruthy(s: int): bool { s != 0 }

  /** Numeric order, `a - b`. */
  function Numeric(a: int, b: int): Option<int> { Some(a - b) }

  /**
   * Even numbers before odd ones; all even numbers rank-equal, and all odd ones. Dafny's `%`
   * never answers a negative remainder, unlike the host language's, so the two agree only
   * on non-negative keys; the scenarios use positive keys alone.
   */
  function Parity(a: int, b: int): Option<int> { Some(a % 2 - b % 2) }

  lemma NumericLaws()
    ensures TotalPreorder(Numeric) && RespectsIdentity(Numeric, Identity)
  {
  }

  lemma ParityLaws()
    ensures TotalPreorder(Parity) && RespectsIdentity(Parity, Identity)
  {
  }

  /** Keys 5, 2, 8 come back in numeric order; removing 5 takes out its bucket. */
  method NumericExample() returns (first: seq<(string, int)>, second: seq<(string, int)>)
    ensures first == [("two", 2), ("five", 5), ("eight", 8)]
    ensures second == [("two", 2), ("eight", 8)]
  {
    var m := NumericMap();
    first := m.ForEach();
    NumericVisits(first, m.sorted);
    RemoveFive(m);
    second := m.ForEach();
    NumericVisits(second, m.sorted);
  }

  /** What a traversal of the numeric map visits, before and after 5 is removed. */
  lemma NumericVisits(visits: seq<(string, int)>, sorted: seq<Bucket<int, string>>)
    requires |visits| == |Flatten(sorted)|
    requires forall t :: 0 <= t < |visits| ==> visits[t] == (Flatten(sorted)[t].value, Flatten(sorted)[t].key)
    ensures sorted == [[Pair(2, "two")], [Pair(5, "five")], [Pair(8, "eight")]] ==> visits == [("two", 2), ("five", 5), ("eight", 8)]
    ensures sorted == [[Pair(2, "two")], [Pair(8, "eight")]] ==> visits == [("two", 2), ("eight", 8)]
  {
    assert Flatten([[Pair(2, "two")], [Pair(5, "five")], [Pair(8, "eight")]]) == [Pair(2, "two"), Pair(5, "five"), Pair(8, "eight")];
    assert Flatten([[Pair(2, "two")], [Pair(8, "eight")]]) == [Pair(2, "two"), Pair(8, "eight")];
  }

  /** Adding 5, 2 and 8 gives each key a bucket of its own, in numeric order. */
  method NumericMap() returns (m: SortedMap<int, string, int>)
    ensures fresh(m)
    ensures m.comparator == Some(Numeric) && m.symbolize == Identity && m.Valid() && m.Sorted()
    ensures m.sorted == [[Pair(2, "two")], [Pair(5, "five")], [Pair(8, "eight")]]
    ensures m.index == map[5 := Pair(5, "five"), 2 := Pair(2, "two"), 8 := Pair(8, "eight")]
  {
    m := new SortedMap<int, string, int>(Identity, Some(Numeric));
    var r := m.Add(5, "five");
    assert m.sorted == [[Pair(5, "five")]];
    AddTwo(m);
    AddEight(m);
  }

  /** 2 ranks below the head 5, so it gets a new first bucket. */
  method AddTwo(m: SortedMap<int, string, int>)
    requires m.comparator == Some(Numeric) && m.symbolize == Identity && m.Valid()
    requires m.sorted == [[Pair(5, "five")]] && m.index == map[5 := Pair(5, "five")]
    modifies m
    ensures m.sorted == [[Pair(2, "two")], [Pair(5, "five")]]
    ensures m.index == map[5 := Pair(5, "five"), 2 := Pair(2, "two")]
    ensures m.Valid()
  {
    assert Heads(m.sorted) == [5];
    assert m.Sorted();
    NumericLaws();
    var r := m.Add(2, "two");
    assert r == Ok(Some(0));
  }

  /** 8 ranks above both heads, so it gets a new last bucket. */
  method AddEight(m: SortedMap<int, string, int>)
    requires m.comparator == Some(Numeric) && m.symbolize == Identity && m.Valid()
    requires m.sorted == [[Pair(2, "two")], [Pair(5, "five")]]
    requires m.index == map[5 := Pair(5, "five"), 2 := Pair(2, "two")]
    modifies m
    ensures m.sorted == [[Pair(2, "two")], [Pair(5, "five")], [Pair(8, "eight")]]
    ensures m.index == map[5 := Pair(5, "five"), 2 := Pair(2, "two"), 8 := Pair(8, "eight")]
    ensures m.Valid() && m.Sorted()
  {
    assert Heads(m.sorted) == [2, 5];
    assert m.Sorted();
    NumericLaws();
    ghost var before := m.sorted;
    var r := m.Add(8, "eight");
    assert r.Ok? && r.value.Some?;
    ghost var pos := r.value.value;
    assert Slot(before, pos, 8, Numeric);
    assert After(Numeric(8, Heads(before)[0])) && After(Numeric(8, Heads(before)[1]));
    assert r == Ok(Some(2));
  }

  /** 5 heads the middle bucket, so the exact lookup finds it and the bucket goes. */
  method RemoveFive(m: SortedMap<int, string, int>)
    requires m.comparator == Some(Numeric) && m.symbolize == Identity && m.Valid()
    requires m.sorted == [[Pair(2, "two")], [Pair(5, "five")], [Pair(8, "eight")]]
    requires m.index == map[5 := Pair(5, "five"), 2 := Pair(2, "two"), 8 := Pair(8, "eight")]
    modifies m
    requires m.Sorted()
    ensures m.sorted == [[Pair(2, "two")], [Pair(8, "eight")]]
  {
    NumericLaws();
    ghost var before := m.sorted;
    ghost var index := m.index;
    assert before[1][0] == index[5];
    var r := m.Remove(5);
    assert r == Ok(Some(1));
  }

  /** Rank-equal keys 2 and 4 share a bucket in insertion order; it goes with its last pair. */
  method ParityExample() returns (m: SortedMap<int, string, int>, visits: seq<(string, int)>)
    ensures visits == [("a", 2), ("b", 4)]
    ensures m.sorted == [] && m.index == map[]
  {
    m := ParityMap();
    visits := m.ForEach();
    assert Flatten([[Pair(2, "a"), Pair(4, "b")]]) == [Pair(2, "a"), Pair(4, "b")];
    RemoveTwo(m);
    RemoveFour(m);
  }

  /** Adding 2 then 4 under parity: 4 joins the bucket of 2. */
  method ParityMap() returns (m: SortedMap<int, string, int>)
    ensures fresh(m)
    ensures m.comparator == Some(Parity) && m.symbolize == Identity && m.Valid() && m.Sorted()
    ensures m.sorted == [[Pair(2, "a"), Pair(4, "b")]]
    ensures m.index == map[2 := Pair(2, "a"), 4 := Pair(4, "b")]
  {
    m := new SortedMap<int, string, int>(Identity, Some(Parity));
    var r := m.Add(2, "a");
    assert m.sorted == [[Pair(2, "a")]];
    AddFour(m);
  }

  /** 4 ranks equal to the head 2 of the only bucket, so it is pushed onto that bucket. */
  method AddFour(m: SortedMap<int, string, int>)
    requires m.comparator == Some(Parity) && m.symbolize == Identity && m.Valid()
    requires m.sorted == [[Pair(2, "a")]] && m.index == map[2 := Pair(2, "a")]
    modifies m
    ensures m.Valid() && m.Sorted()
    ensures m.sorted == [[Pair(2, "a"), Pair(4, "b")]]
    ensures m.index == map[2 := Pair(2, "a"), 4 := Pair(4, "b")]
  {
    assert Heads(m.sorted) == [2];
    assert m.Sorted();
    ParityLaws();
    ghost var before: seq<Bucket<int, string>> := m.sorted;
    var r := m.Add(4, "b");
    assert r.Ok? && r.value.Some?;
    ghost var pos := r.value.value;
    assert Slot(before, pos, 4, Parity);
    assert !After(Parity(4, Heads(before)[0]));
    assert pos == 0;
    assert Tied(Parity(before[0][0].key, 4));
    assert m.sorted == before[0 := before[0] + [Pair(4, "b")]];
    assert before[0] + [Pair(4, "b")] == [Pair(2, "a"), Pair(4, "b")];
  }

  /** 2 heads the shared bucket, so the exact lookup finds it and 4 is left alone there. */
  method RemoveTwo(m: SortedMap<int, string, int>)
    requires m.comparator == Some(Parity) && m.symbolize == Identity && m.Valid()
    requires m.sorted == [[Pair(2, "a"), Pair(4, "b")]]
    requires m.index == map[2 := Pair(2, "a"), 4 := Pair(4, "b")]
    requires m.Sorted()
    modifies m
    ensures m.Valid() && m.Sorted()
    ensures m.sorted == [[Pair(4, "b")]]
    ensures m.index == map[4 := Pair(4, "b")]
  {
    ParityLaws();
    ghost var before := m.sorted;
    ghost var index := m.index;
    assert before[0][0] == index[2];
    var r := m.Remove(2);
    assert r == Ok(Some(0));
  }

  /** 4 now heads its bucket, so removing it takes the emptied bucket out. */
  method RemoveFour(m: SortedMap<int, string, int>)
    requires m.comparator == Some(Parity) && m.symbolize == Identity && m.Valid()
    requires m.sorted == [[Pair(4, "b")]]
    requires m.index == map[4 := Pair(4, "b")]
    requires m.Sorted()
    modifies m
    ensures m.sorted == [] && m.index == map[]
  {
    ParityLaws();
    ghost var before := m.sorted;
    ghost var index := m.index;
    assert before[0][0] == index[4];
    var r := m.Remove(4);
    assert r == Ok(Some(0));
  }

  /**
   * Removing 4 first: it is not at the head of its bucket, so the exact lookup answers -1
   * and the whole last bucket goes, 2 included, while the index still holds 2.
   */
  method ParityTieRemoval() returns (m: SortedMap<int, string, int>, r: Result<Option<int>, Failure>)
    ensures r == Ok(Some(-1))
    ensures m.sorted == [] && m.Get(2) == Some(Pair(2, "a"))
    ensures !m.Valid()
  {
    m := ParityMap();
    ParityLaws();
    ghost var before := m.sorted;
    ghost var index := m.index;
    assert forall b :: 0 <= b < |before| ==> before[b][0] != index[4];
    r := m.Remove(4);
  }

  /** The corrected removal of 4 takes only its pair out of the shared bucket. */
  method ParityTieRemovalIntended() returns (m: SortedMap<int, string, int>, r: Option<int>)
    ensures r == Some(0)
    ensures m.sorted == [[Pair(2, "a")]] && m.Get(4) == None && m.Valid()
  {
    m := ParityMap();
    r := RemoveFourIntended(m);
  }

  /** 4 is the second pair of the only bucket; the bucket keeps 2. */
  method RemoveFourIntended(m: SortedMap<int, string, int>) returns (q: Option<int>)
    requires m.comparator == Some(Parity) && m.symbolize == Identity && m.Valid()
    requires m.sorted == [[Pair(2, "a"), Pair(4, "b")]]
    requires m.index == map[2 := Pair(2, "a"), 4 := Pair(4, "b")]
    modifies m
    ensures q == Some(0) && m.Valid()
    ensures m.sorted == [[Pair(2, "a")]] && m.Get(4) == None
  {
    ghost var before := m.sorted;
    ghost var index := m.index;
    assert index[4] == before[0][1];
    q := m.RemoveIntended(4);
    assert before[0][..1] + before[0][2..] == [Pair(2, "a")];
  }

  /** Without a comparator, keys 1 and 2 each get a bucket, in insertion order. */
  method UnorderedPair() returns (m: SortedMap<int, string, int>)
    ensures fresh(m)
    ensures m.comparator == None && m.symbolize == Identity && m.Valid()
    ensures m.sorted == [[Pair(1, "one")], [Pair(2, "two")]]
    ensures m.index == map[1 := Pair(1, "one"), 2 := Pair(2, "two")]
  {
    m := new SortedMap<int, string, int>(Identity, None);
    var r := m.Add(1, "one");
    r := m.Add(2, "two");
  }

  /**
   * Without a comparator, removing key 1 drops the last bucket, which holds key 2: the
   * index forgets 1 while traversal still visits it.
   */
  method UnorderedRemoval() returns (m: SortedMap<int, string, int>, r: Result<Option<int>, Failure>, visits: seq<(string, int)>)
    ensures r == Ok(Some(-1))
    ensures m.sorted == [[Pair(1, "one")]] && m.Get(1) == None
    ensures visits == [("one", 1)]
    ensures !m.Valid()
  {
    m := UnorderedPair();
    r := m.Remove(1);
    visits := m.ForEach();
    assert Flatten([[Pair(1, "one")]]) == [Pair(1, "one")];
  }

  /** The corrected removal on the same sequence leaves exactly key 2. */
  method UnorderedRemovalIntended() returns (m: SortedMap<int, string, int>, visits: seq<(string, int)>)
    ensures m.Valid() && m.sorted == [[Pair(2, "two")]]
    ensures visits == [("two", 2)]
  {
    m := UnorderedPair();
    RemoveOneIntended(m);
    visits := m.ForEach();
    assert Flatten([[Pair(2, "two")]]) == [Pair(2, "two")];
  }

  /** 1 sits in the first bucket, which goes, and leaves the index. */
  method RemoveOneIntended(m: SortedMap<int, string, int>)
    requires m.comparator == None && m.symbolize == Identity && m.Valid()
    requires m.sorted == [[Pair(1, "one")], [Pair(2, "two")]]
    requires m.index == map[1 := Pair(1, "one"), 2 := Pair(2, "two")]
    modifies m
    ensures m.Valid()
    ensures m.sorted == [[Pair(2, "two")]] && 1 !in m.index
  {
    ghost var before := m.sorted;
    ghost var index := m.index;
    assert index[1] in before[0] && index[1] !in before[1];
    var q := m.RemoveIntended(1);
    assert q.Some? && 0 <= q.value < 2 && index[1] in before[q.value];
    assert q == Some(0);
    assert |before[0]| == 1 && before[..0] + before[1..] == [[Pair(2, "two")]];
  }

  /**
   * In the parity bucket `[2, 4]`, removing 2 by a truthiness scan picks the pair of 4,
   * while the scan by symbol picks the pair of 2.
   */
  lemma TruthyScanMisses()
    ensures var bucket := [Pair(2, "a"), Pair(4, "b")];
            && LastTruthy(bucket, Identity, NumberTruthy) == 1 && Identity(bucket[1].key) != 2
            && LastMatch(bucket, 2, Identity) == 0
  {
  }
}
