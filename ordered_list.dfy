/**
 * The partially sorted list of the supermarket statistics: a list whose
 * front `[0, nSorted)` is ordered by the comparator `ordening`, with binary
 * search over that front, a linear search over the rest, and `merge`.
 * The comparator orders items by an integer key, as the purchase tracker's
 * `Comparator.comparing(Purchase::getBarcode)` does.
 */
module OrderedLists {
  import opened Wrappers
  import opened Sorting

  /** What a search returns: an index (-1 for none), or the IndexOutOfBoundsException of `get`. */
  datatype Outcome = Returned(index: int) | IndexOutOfBounds

  /** The number of sorted items left after `add(index, item)`, as written. */
  function SortedCountAfterAdd(nSorted: int, index: int): (n: int)
    ensures n <= nSorted
    ensures 0 <= index < nSorted ==> n < index
    ensures !(0 <= index < nSorted) ==> n == nSorted
  {
    if 0 <= index && index < nSorted then index - 1 else nSorted
  }

  /** The count `add(index, item)` evidently means to keep: the items before `index`. */
  function SortedCountAfterAddFixed(nSorted: int, index: int): (n: int)
    ensures 0 <= index < nSorted ==> n == index
    ensures !(0 <= index < nSorted) ==> n == nSorted
  {
    if 0 <= index && index < nSorted then index else nSorted
  }

  /** Inserting at the front of a list with a sorted front leaves a count of -1. */
  lemma AddAtFrontGivesMinusOne(nSorted: int)
    requires nSorted >= 1
    ensures SortedCountAfterAdd(nSorted, 0) == -1
  {
  }

  /**
   * With the fixed count, an insertion keeps the count a valid length and
   * the counted front sorted.
   */
  lemma {:induction false} AddFixedKeepsSortedFront<T>(items: seq<T>, nSorted: int, index: int, item: T, key: T -> int)
    requires 0 <= nSorted <= |items| && 0 <= index <= |items|
    requires SortedBy(items[..nSorted], key)
    ensures var n := SortedCountAfterAddFixed(nSorted, index);
            var inserted := items[..index] + [item] + items[index..];
            0 <= n <= |inserted| && SortedBy(inserted[..n], key)
  {
    var n := SortedCountAfterAddFixed(nSorted, index);
    var inserted := items[..index] + [item] + items[index..];
    assert inserted[..n] == items[..n];
    assert items[..n] == items[..nSorted][..n];
  }

  /** Two items of a sorted front are in key order. */
  lemma SortedFrontOrder<T>(items: seq<T>, n: nat, key: T -> int, i: int, j: int)
    requires n <= |items| && SortedBy(items[..n], key)
    requires 0 <= i <= j < n
    ensures key(items[i]) <= key(items[j])
  {
    assert items[i] == items[..n][i] && items[j] == items[..n][j];
  }

  class OrderedArrayList<T> {
    var items: seq<T>
    /** The comparator used by the latest sort, as a key. */
    var ordening: T -> int
    var nSorted: int

    /** The length of the sorted front that the searches rely on. */
    function SortedLength(): (n: nat)
      reads this
      ensures nSorted >= 0 ==> n == nSorted
      ensures nSorted < 0 ==> n == 0
    {
      if nSorted < 0 then 0 else nSorted
    }

    /**
     * The representation invariant: the first `nSorted` items are ordered by
     * `ordening`. `nSorted` can drop to -1 (see `Add`) and, through `remove`
     * with a negative index, below that.
     */
    ghost predicate Valid()
      reads this
    {
      nSorted <= |items| && SortedBy(items[..SortedLength()], ordening)
    }

    constructor (ordening: T -> int)
      ensures Valid() && items == [] && this.ordening == ordening && nSorted == 0
    {
      items := [];
      this.ordening := ordening;
      nSorted := 0;
    }

    /** `clear`: no items, nothing sorted. */
    method Clear()
      modifies this
      ensures Valid() && items == [] && nSorted == 0 && ordening == old(ordening)
    {
      items := [];
      nSorted := 0;
    }

    /**
     * `sort(c)`: the library sort (a stable sort, modelled by the insertion
     * sort function) orders all items by `c`, which becomes the ordening.
     */
    method Sort(c: T -> int)
      modifies this
      ensures Valid()
      ensures items == InsSort(old(items), c)
      ensures SortedBy(items, c) && multiset(items) == multiset(old(items))
      ensures ordening == c && nSorted == |items|
    {
      InsSortSorts(items, c);
      items := InsSort(items, c);
      ordening := c;
      nSorted := |items|;
      assert items[..SortedLength()] == items;
    }

    /** `sort()`: sorts by the current ordening unless everything is sorted already. */
    method SortIfNeeded()
      requires Valid()
      modifies this
      ensures Valid() && ordening == old(ordening)
      ensures old(nSorted) >= |old(items)| ==> items == old(items) && nSorted == old(nSorted)
      ensures old(nSorted) < |old(items)| ==> items == InsSort(old(items), ordening) && nSorted == |items|
      ensures SortedBy(items, ordening) && multiset(items) == multiset(old(items))
    {
      if nSorted < |items| {
        Sort(ordening);
      } else {
        assert items[..SortedLength()] == items;
      }
    }

    /**
     * `add(index, item)`: inserting before the sorted end cuts the sorted
     * front to `index - 1` items (one fewer than still are sorted; -1 for
     * index 0). `thrown` is the IndexOutOfBoundsException of an index outside
     * `0..size`; the count is not touched then, because its guard needs an
     * index below `nSorted <= size`.
     */
    method Add(index: int, item: T) returns (thrown: bool)
      requires Valid()
      modifies this
      ensures Valid() && ordening == old(ordening)
      ensures thrown <==> !(0 <= index <= |old(items)|)
      ensures nSorted == SortedCountAfterAdd(old(nSorted), index)
      ensures thrown ==> items == old(items) && nSorted == old(nSorted)
      ensures !thrown ==> items == old(items[..index]) + [item] + old(items[index..])
    {
      ghost var before := items;
      ghost var n := SortedLength();
      nSorted := SortedCountAfterAdd(nSorted, index);
      if !(0 <= index <= |items|) {
        return true;
      }
      items := items[..index] + [item] + items[index..];
      assert items[..SortedLength()] == before[..n][..SortedLength()];
      thrown := false;
    }

    /** `ArrayList.add(item)`: appends; the sorted front is kept. */
    method Append(item: T)
      requires Valid()
      modifies this
      ensures Valid() && ordening == old(ordening)
      ensures items == old(items) + [item] && nSorted == old(nSorted)
    {
      ghost var before := items;
      items := items + [item];
      assert items[..SortedLength()] == before[..SortedLength()];
    }

    /**
     * `remove(index)`: the sorted count drops by one when `index < nSorted`
     * and `nSorted != 0`; then the item is removed and returned. An index
     * outside `0..size-1` throws IndexOutOfBoundsException (`None`) after
     * that decrement, which a negative index can trigger.
     */
    method RemoveAt(index: int) returns (removed: Option<T>)
      requires Valid()
      modifies this
      ensures Valid() && ordening == old(ordening)
      ensures removed.None? <==> !(0 <= index < |old(items)|)
      ensures nSorted == if index < old(nSorted) && old(nSorted) != 0 then old(nSorted) - 1 else old(nSorted)
      ensures removed.None? ==> items == old(items)
      ensures removed.Some? ==> removed.value == old(items[index])
                                && items == old(items[..index]) + old(items[index + 1..])
    {
      ghost var before := items;
      ghost var n := SortedLength();
      if index < nSorted && nSorted != 0 {
        nSorted := nSorted - 1;
      }
      if !(0 <= index < |items|) {
        assert items[..SortedLength()] == before[..n][..SortedLength()];
        return None;
      }
      removed := Some(items[index]);
      items := items[..index] + items[index + 1..];
      if index < n {
        forall i, j | 0 <= i < j < SortedLength()
          ensures ordening(items[i]) <= ordening(items[j])
        {
          var i', j' := if i < index then i else i + 1, if j < index then j else j + 1;
          assert items[i] == before[..n][i'] && items[j] == before[..n][j'];
        }
      } else {
        assert items[..SortedLength()] == before[..n][..SortedLength()];
      }
    }

    /**
     * `linearSearch(left, right, x)`: the first index in `[left, right)` whose
     * item compares equal to `x`, or -1; reading a negative index throws.
     */
    method LinearSearch(left: int, right: int, x: T) returns (r: Outcome)
      requires right <= |items|
      ensures r == IndexOutOfBounds <==> left < 0 && left < right
      ensures r.Returned? ==> r.index == -1 || (left <= r.index < right && ordening(items[r.index]) == ordening(x))
      ensures r.Returned? && r.index >= 0 ==> forall k :: left <= k < r.index ==> ordening(items[k]) != ordening(x)
      ensures r == Returned(-1) ==> forall k :: 0 <= k && left <= k < right ==> ordening(items[k]) != ordening(x)
    {
      var i := left;
      while i < right
        invariant left <= i && (i <= right || i == left)
        invariant left < 0 ==> i == left
        invariant forall k :: 0 <= k && left <= k < i ==> ordening(items[k]) != ordening(x)
        decreases right - i
      {
        if i < 0 {
          return IndexOutOfBounds;
        }
        if ordening(items[i]) == ordening(x) {
          return Returned(i);
        }
        i := i + 1;
      }
      return Returned(-1);
    }

    /**
     * `indexOfByIterativeBinarySearch`: binary search over `[0, nSorted]`
     * (the bound is inclusive, so the item at `nSorted` is looked at last),
     * then a linear search over `[nSorted, size)`. When every item is sorted
     * and smaller than `x`, the search reads index `size` and throws.
     */
    method IndexOfByIterativeBinarySearch(x: T) returns (r: Outcome)
      requires Valid()
      ensures r == IndexOutOfBounds <==>
                nSorted < 0 || (nSorted == |items| && forall k :: 0 <= k < |items| ==> ordening(items[k]) < ordening(x))
      ensures r.Returned? ==> -1 <= r.index < |items|
      ensures r.Returned? && r.index >= 0 ==> ordening(items[r.index]) == ordening(x)
      ensures r == Returned(-1) ==> forall k :: 0 <= k < |items| ==> ordening(items[k]) != ordening(x)
    {
      var min, max := 0, nSorted;
      ghost var allBelow := nSorted == |items| && forall k :: 0 <= k < |items| ==> ordening(items[k]) < ordening(x);
      while min <= max
        invariant 0 <= min && max <= nSorted && (max < -1 ==> max == nSorted)
        invariant forall k :: 0 <= k < min && k < nSorted ==> ordening(items[k]) < ordening(x)
        invariant forall k :: max < k < nSorted ==> ordening(items[k]) > ordening(x)
        invariant allBelow ==> max == nSorted && min <= nSorted
        decreases max - min
      {
        var middle := (min + max) / 2;
        if middle == |items| {
          return IndexOutOfBounds;
        }
        var middleValue := items[middle];
        if ordening(middleValue) < ordening(x) {
          forall k | 0 <= k < middle + 1 && k < nSorted
            ensures ordening(items[k]) < ordening(x)
          {
            if middle < nSorted {
              SortedFrontOrder(items, SortedLength(), ordening, k, middle);
            }
          }
          min := middle + 1;
        } else if ordening(middleValue) > ordening(x) {
          forall k | middle - 1 < k < nSorted
            ensures ordening(items[k]) > ordening(x)
          {
            if middle < k {
              SortedFrontOrder(items, SortedLength(), ordening, middle, k);
            }
          }
          max := middle - 1;
        } else {
          return Returned(middle);
        }
      }
      r := LinearSearch(nSorted, |items|, x);
    }

    /**
     * `recursiveBinarySearch(x, left, right)`: binary search over the
     * inclusive range `[left, right]`; -1 for an empty range, for `left` at
     * the end of the list, or when nothing is sorted.
     */
    function RecursiveBinarySearch(x: T, left: int, right: int): (r: int)
      reads this
      requires 0 <= left <= |items| && right <= |items|
      ensures r == -1 || (left <= r <= right && r < |items| && ordening(items[r]) == ordening(x))
      ensures Valid() && right <= nSorted && r == -1 ==>
                forall k :: left <= k <= right && k < nSorted ==> ordening(items[k]) != ordening(x)
      decreases right - left
    {
      if right < left || left == |items| || nSorted == 0 then -1
      else
        var middle := (left + right) / 2;
        var result := ordening(items[middle]) - ordening(x);
        if result < 0 then
          var r := RecursiveBinarySearch(x, middle + 1, right);
          assert Valid() && right <= nSorted && r == -1 ==>
                   forall k :: left <= k <= middle && k < nSorted ==> ordening(items[k]) != ordening(x) by {
            if Valid() && right <= nSorted && r == -1 {
              forall k | left <= k <= middle && k < nSorted
                ensures ordening(items[k]) < ordening(x)
              {
                if middle < nSorted {
                  SortedFrontOrder(items, SortedLength(), ordening, k, middle);
                }
              }
            }
          }
          r
        else if result > 0 then
          var r := RecursiveBinarySearch(x, left, middle - 1);
          assert Valid() && right <= nSorted && r == -1 ==>
                   forall k :: middle <= k <= right && k < nSorted ==> ordening(items[k]) != ordening(x) by {
            if Valid() && right <= nSorted && r == -1 {
              forall k | middle <= k <= right && k < nSorted
                ensures ordening(items[k]) > ordening(x)
              {
                if middle < k {
                  SortedFrontOrder(items, SortedLength(), ordening, middle, k);
                }
              }
            }
          }
          r
        else middle
    }

    /**
     * `indexOfByRecursiveBinarySearch`: the recursive binary search over
     * `[0, nSorted]`, then a linear search over `[nSorted, size)`; the linear
     * search throws when `nSorted` is -1.
     */
    method IndexOfByRecursiveBinarySearch(x: T) returns (r: Outcome)
      requires Valid()
      ensures r == IndexOutOfBounds <==> nSorted < 0
      ensures r.Returned? ==> -1 <= r.index < |items|
      ensures r.Returned? && r.index >= 0 ==> ordening(items[r.index]) == ordening(x)
      ensures r == Returned(-1) ==> forall k :: 0 <= k < |items| ==> ordening(items[k]) != ordening(x)
    {
      var found := RecursiveBinarySearch(x, 0, nSorted);
      if found != -1 {
        return Returned(found);
      }
      r := LinearSearch(nSorted, |items|, x);
    }

    /**
     * `merge(newItem, merger)`: null is refused; an item without a match is
     * appended (true); otherwise the match is replaced by
     * `merger(match, newItem)` (false). The merger is required to keep the
     * key of the match, as the purchase tracker's count-adding merger does.
     */
    method Merge(newItem: Option<T>, merger: (T, T) -> T) returns (added: bool, thrown: bool)
      requires Valid()
      requires forall a, b :: ordening(merger(a, b)) == ordening(a)
      modifies this
      ensures Valid() && ordening == old(ordening) && nSorted == old(nSorted)
      ensures newItem.None? || thrown ==> !added && items == old(items)
      ensures thrown <==> newItem.Some? && old(nSorted) < 0
      ensures newItem.Some? && !thrown ==>
                (added <==> forall k :: 0 <= k < |old(items)| ==> ordening(old(items)[k]) != ordening(newItem.value))
      ensures added ==> items == old(items) + [newItem.value]
      ensures newItem.Some? && !thrown && !added ==>
                exists i :: 0 <= i < |old(items)| && ordening(old(items)[i]) == ordening(newItem.value)
                            && items == old(items)[i := merger(old(items)[i], newItem.value)]
    {
      if newItem.None? {
        return false, false;
      }
      var x := newItem.value;
      var matched := IndexOfByRecursiveBinarySearch(x);
      if matched == IndexOutOfBounds {
        return false, true;
      }
      if matched.index < 0 {
        Append(x);
        return true, false;
      }
      var i := matched.index;
      ghost var before := items;
      var mergedItem := merger(items[i], x);
      items := items[i := mergedItem];
      assert forall k :: 0 <= k < |items| ==> ordening(items[k]) == ordening(before[k]);
      assert forall k :: 0 <= k < SortedLength() ==> items[..SortedLength()][k] == items[k];
      assert forall k :: 0 <= k < SortedLength() ==> before[..SortedLength()][k] == before[k];
      return false, false;
    }
  }
}
