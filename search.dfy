/** The free function `binarySearch`: the slot for a new item among items kept in order. */
module Search {
  import opened Outcomes
  import opened Comparators

  /** Within `[lo, hi)` every item sorts strictly before every later one. */
  ghost predicate AscendingIn<T(!new)>(items: seq<T>, lo: int, hi: int, cmp: Comparator<T>)
    requires 0 <= lo && hi <= |items|
  {
    forall i, j {:trigger cmp(items[i], items[j])} :: lo <= i < j < hi ==> Before(cmp(items[i], items[j]))
  }

  /**
   * `pos` is a correct slot for `item` within `[lo, hi]`: every earlier item sorts before
   * `item`, every later one after it, and the item at `pos` (if any) is not below `item`.
   */
  ghost predicate PlacedIn<T(!new)>(items: seq<T>, lo: int, hi: int, pos: int, item: T, cmp: Comparator<T>)
    requires 0 <= lo && hi <= |items|
  {
    && lo <= pos <= hi
    && (forall i :: lo <= i < pos ==> After(cmp(item, items[i])))
    && (forall i :: pos < i < hi ==> Before(cmp(item, items[i])))
    && (pos < hi ==> !After(cmp(item, items[pos])))
  }

  /**
   * Finds the slot in `[min, max]` where `item` belongs among `items[min..max]`, probing
   * only indices in `[min, max)`. `probes` records, in order, every index compared with.
   * A non-numeric comparator answer stops the search with `InvalidComparatorResult`.
   */
  method BinarySearch<T(!new)>(min: int, max: int, item: T, items: seq<T>, cmp: Comparator<T>)
    returns (r: Result<int, Failure>, ghost probes: seq<int>)
    requires min < max ==> 0 <= min && max <= |items|
    ensures max <= min ==> r == Ok(min) && probes == []
    ensures forall t :: 0 <= t < |probes| ==> min <= probes[t] < max
    ensures r.Err? <==> exists t :: 0 <= t < |probes| && cmp(item, items[probes[t]]).None?
    ensures r.Err? ==> r.error == InvalidComparatorResult
    ensures (forall i :: min <= i < max ==> cmp(item, items[i]).Some?) ==> r.Ok?
    ensures r.Ok? && min < max ==> min <= r.value <= max && (r.value < max ==> !After(cmp(item, items[r.value])))
    ensures min < max && TotalPreorder(cmp) && AscendingIn(items, min, max, cmp) ==>
              r.Ok? && PlacedIn(items, min, max, r.value, item, cmp)
  {
    probes := [];
    if max <= min {
      return Ok(min), probes;
    }
    ghost var ordered := TotalPreorder(cmp) && AscendingIn(items, min, max, cmp);
    var lo, hi := min, max;
    while true
      invariant min <= lo < hi <= max
      invariant forall t :: 0 <= t < |probes| ==> min <= probes[t] < max && cmp(item, items[probes[t]]).Some?
      invariant hi < max ==> Before(cmp(item, items[hi]))
      invariant ordered ==> forall i :: min <= i < lo ==> After(cmp(item, items[i]))
      invariant ordered ==> forall i :: hi <= i < max ==> Before(cmp(item, items[i]))
      decreases hi - lo
    {
      var mid := (lo + hi) / 2;
      probes := probes + [mid];
      var c := cmp(item, items[mid]);
      if c.None? {
        assert probes[|probes| - 1] == mid;
        return Err(InvalidComparatorResult), probes;
      }
      if hi - lo <= 1 {
        if c.value == 0 {
          TiedSlot(items, min, max, mid, item, cmp, ordered);
          return Ok(mid), probes;
        } else if c.value > 0 {
          return Ok(hi), probes;
        } else {
          return Ok(lo), probes;
        }
      }
      if c.value > 0 {
        if ordered {
          RaiseLow(items, min, max, lo, mid, item, cmp);
        }
        lo := mid;
      } else if c.value < 0 {
        if ordered {
          LowerHigh(items, min, max, mid, hi, item, cmp);
        }
        hi := mid;
      } else {
        TiedSlot(items, min, max, mid, item, cmp, ordered);
        return Ok(mid), probes;
      }
    }
  }

  /** An item rank-equal to `items[mid]` of an ascending window belongs at `mid`. */
  lemma TiedSlot<T(!new)>(items: seq<T>, min: int, max: int, mid: int, item: T, cmp: Comparator<T>, ordered: bool)
    requires 0 <= min <= mid < max <= |items|
    requires Tied(cmp(item, items[mid]))
    requires ordered ==> TotalPreorder(cmp) && AscendingIn(items, min, max, cmp)
    ensures ordered ==> PlacedIn(items, min, max, mid, item, cmp)
  {
    if ordered {
      forall i | min <= i < mid ensures After(cmp(item, items[i])) {
        PreorderFacts(cmp, items[i], items[mid], item);
        PreorderFacts(cmp, item, items[i], items[mid]);
      }
      forall i | mid < i < max ensures Before(cmp(item, items[i])) {
        PreorderFacts(cmp, item, items[mid], items[i]);
      }
    }
  }

  /** An item above `items[mid]` of an ascending window is above everything before `mid`. */
  lemma RaiseLow<T(!new)>(items: seq<T>, min: int, max: int, lo: int, mid: int, item: T, cmp: Comparator<T>)
    requires 0 <= min <= lo <= mid < max <= |items|
    requires TotalPreorder(cmp) && AscendingIn(items, min, max, cmp)
    requires After(cmp(item, items[mid]))
    requires forall i :: min <= i < lo ==> After(cmp(item, items[i]))
    ensures forall i :: min <= i < mid ==> After(cmp(item, items[i]))
  {
    forall i | lo <= i < mid ensures After(cmp(item, items[i])) {
      PreorderFacts(cmp, items[i], items[mid], item);
      PreorderFacts(cmp, item, items[i], items[mid]);
    }
  }

  /** An item below `items[mid]` of an ascending window is below everything after `mid`. */
  lemma LowerHigh<T(!new)>(items: seq<T>, min: int, max: int, mid: int, hi: int, item: T, cmp: Comparator<T>)
    requires 0 <= min <= mid < hi <= max <= |items|
    requires TotalPreorder(cmp) && AscendingIn(items, min, max, cmp)
    requires Before(cmp(item, items[mid]))
    requires forall i :: hi <= i < max ==> Before(cmp(item, items[i]))
    ensures forall i :: mid < i < max ==> Before(cmp(item, items[i]))
  {
    forall i | mid < i < hi ensures Before(cmp(item, items[i])) {
      PreorderFacts(cmp, item, items[mid], items[i]);
    }
  }
}
