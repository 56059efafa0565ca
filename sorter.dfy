/**
 * The in-place sorters of the archery ranking: insertion sort, quicksort
 * with its partition around the first item, and the early returns of the
 * tops heap sort. The comparator orders items by an integer key:
 * `compare(x, y)` has the sign of `key(x) - key(y)`.
 */
module Sorting {

  /** `s` is in non-decreasing key order. */
  predicate SortedBy<T>(s: seq<T>, key: T -> int) {
    forall i, j :: 0 <= i < j < |s| ==> key(s[i]) <= key(s[j])
  }

  /** Every item of `s` has a key of at most `v`. */
  predicate AllAtMost<T>(s: seq<T>, key: T -> int, v: int) {
    forall i :: 0 <= i < |s| ==> key(s[i]) <= v
  }

  /** Every item of `s` has a key of at least `v`. */
  predicate AllAtLeast<T>(s: seq<T>, key: T -> int, v: int) {
    forall i :: 0 <= i < |s| ==> key(s[i]) >= v
  }

  /**
   * The inner loop of the insertion sort: `x` moves left past every item
   * whose key is strictly greater, and stops behind the first one that is not.
   */
  function Insert<T>(s: seq<T>, x: T, key: T -> int): seq<T> {
    if s == [] || key(s[|s| - 1]) <= key(x) then s + [x]
    else Insert(s[..|s| - 1], x, key) + [s[|s| - 1]]
  }

  /** The whole insertion sort: each item in turn inserted into the sorted front. */
  function InsSort<T>(s: seq<T>, key: T -> int): seq<T> {
    if s == [] then [] else Insert(InsSort(s[..|s| - 1], key), s[|s| - 1], key)
  }

  /** Inserting adds exactly `x` to the items. */
  lemma {:induction false} InsertPermutes<T>(s: seq<T>, x: T, key: T -> int)
    ensures multiset(Insert(s, x, key)) == multiset(s) + multiset{x}
    decreases |s|
  {
    if s != [] && key(s[|s| - 1]) > key(x) {
      var init, last := s[..|s| - 1], s[|s| - 1];
      assert s == init + [last];
      InsertPermutes(init, x, key);
    }
  }

  /** Inserting into a sorted sequence keeps it sorted. */
  lemma {:induction false} InsertSorted<T>(s: seq<T>, x: T, key: T -> int)
    requires SortedBy(s, key)
    ensures SortedBy(Insert(s, x, key), key)
    decreases |s|
  {
    if s != [] && key(s[|s| - 1]) > key(x) {
      var init, last := s[..|s| - 1], s[|s| - 1];
      assert s == init + [last];
      InsertSorted(init, x, key);
      InsertPermutes(init, x, key);
      var m := Insert(init, x, key);
      forall i | 0 <= i < |m|
        ensures key(m[i]) <= key(last)
      {
        assert m[i] in multiset(m);
        if m[i] != x {
          assert m[i] in multiset(init);
          var k :| 0 <= k < |init| && init[k] == m[i];
          assert s[k] == init[k];
        }
      }
      assert Insert(s, x, key) == m + [last];
    } else {
      assert Insert(s, x, key) == s + [x];
    }
  }

  /** The insertion sort returns its input in key order. */
  lemma {:induction false} InsSortSorts<T>(s: seq<T>, key: T -> int)
    ensures SortedBy(InsSort(s, key), key)
    ensures multiset(InsSort(s, key)) == multiset(s)
    decreases |s|
  {
    if s != [] {
      var init := s[..|s| - 1];
      assert s == init + [s[|s| - 1]];
      InsSortSorts(init, key);
      InsertSorted(InsSort(init, key), s[|s| - 1], key);
      InsertPermutes(InsSort(init, key), s[|s| - 1], key);
    }
  }

  /** `[x]` when `x` has key `k`, otherwise nothing. */
  function KeyPart<T>(x: T, key: T -> int, k: int): seq<T> {
    if key(x) == k then [x] else []
  }

  /** The items of `s` whose key is `k`, in their order in `s`. */
  function WithKey<T>(s: seq<T>, key: T -> int, k: int): seq<T> {
    if s == [] then [] else WithKey(s[..|s| - 1], key, k) + KeyPart(s[|s| - 1], key, k)
  }

  /** Inserting keeps the items of every key in their order, `x` after its equals. */
  lemma {:induction false} InsertStable<T>(s: seq<T>, x: T, key: T -> int, k: int)
    ensures WithKey(Insert(s, x, key), key, k) == WithKey(s, key, k) + KeyPart(x, key, k)
    decreases |s|
  {
    if s == [] || key(s[|s| - 1]) <= key(x) {
      assert Insert(s, x, key) == s + [x];
      assert (s + [x])[..|s|] == s;
    } else {
      var init, last := s[..|s| - 1], s[|s| - 1];
      var m := Insert(init, x, key);
      assert Insert(s, x, key) == m + [last];
      InsertStable(init, x, key, k);
      assert (m + [last])[..|m|] == m;
      assert KeyPart(x, key, k) == [] || KeyPart(last, key, k) == [];
    }
  }

  /**
   * The insertion sort is stable: the items of each key keep their input order,
   * because only strictly greater items are shifted.
   */
  lemma {:induction false} InsSortStable<T>(s: seq<T>, key: T -> int, k: int)
    ensures WithKey(InsSort(s, key), key, k) == WithKey(s, key, k)
    decreases |s|
  {
    if s != [] {
      var init := s[..|s| - 1];
      InsSortStable(init, key, k);
      InsertStable(InsSort(init, key), s[|s| - 1], key, k);
    }
  }

  /**
   * Where the insertion puts `x`: behind the last item that is not greater,
   * with every later item greater.
   */
  lemma {:induction false} InsertAfterGreater<T>(s: seq<T>, x: T, key: T -> int, j: int)
    requires 0 <= j <= |s| && (j == 0 || key(s[j - 1]) <= key(x))
    requires forall k :: j <= k < |s| ==> key(s[k]) > key(x)
    ensures Insert(s, x, key) == s[..j] + [x] + s[j..]
    decreases |s|
  {
    if |s| == j {
      assert s[..j] == s && s[j..] == [];
    } else {
      var init, last := s[..|s| - 1], s[|s| - 1];
      InsertAfterGreater(init, x, key, j);
      assert init[..j] == s[..j];
      assert init[j..] + [last] == s[j..];
    }
  }

  /** Sorting one more item inserts it into the sorted front. */
  lemma InsSortStep<T>(s: seq<T>, i: int, key: T -> int)
    requires 0 <= i < |s|
    ensures InsSort(s[..i + 1], key) == Insert(InsSort(s[..i], key), s[i], key)
  {
    assert s[..i + 1][..i] == s[..i];
  }

  /** The array after the shifting loop and the final store, as a sequence. */
  lemma ShiftedIn<T>(b: seq<T>, sorted: seq<T>, temp: T, j: int)
    requires 0 <= j <= |sorted| < |b|
    requires forall k :: 0 <= k < j ==> b[k] == sorted[k]
    requires b[j] == temp
    requires forall k :: j < k <= |sorted| ==> b[k] == sorted[k - 1]
    ensures b[..|sorted| + 1] == sorted[..j] + [temp] + sorted[j..]
  {
  }

  /**
   * The shifting loop of `selInsSort`: the items before `i` that are greater
   * than `temp` move one place right; `j` is the place left free.
   */
  method ShiftGreater<T>(a: array<T>, i: int, temp: T, key: T -> int) returns (j: int)
    requires 0 <= i < a.Length
    modifies a
    ensures 0 <= j <= i
    ensures j == 0 || key(old(a[j - 1])) <= key(temp)
    ensures forall k :: j <= k < i ==> key(old(a[k])) > key(temp)
    ensures forall k :: 0 <= k < j ==> a[k] == old(a[k])
    ensures forall k :: j < k <= i ==> a[k] == old(a[k - 1])
    ensures forall k :: i < k < a.Length ==> a[k] == old(a[k])
  {
    j := i;
    while j > 0 && key(a[j - 1]) > key(temp)
      invariant 0 <= j <= i
      invariant forall k :: 0 <= k < j ==> a[k] == old(a[k])
      invariant forall k :: j < k <= i ==> a[k] == old(a[k - 1])
      invariant forall k :: i < k < a.Length ==> a[k] == old(a[k])
      invariant forall k :: j <= k < i ==> key(old(a[k])) > key(temp)
    {
      a[j] := a[j - 1];
      j := j - 1;
    }
  }

  /**
   * One pass of the outer loop of `selInsSort`: the item at `i` is taken out
   * and the greater items before it shift one place right until it can be
   * stored.
   */
  method InsertItem<T>(a: array<T>, i: int, key: T -> int)
    requires 0 <= i < a.Length
    modifies a
    ensures a[..i + 1] == Insert(old(a[..i]), old(a[i]), key)
    ensures a[i + 1..] == old(a[i + 1..])
  {
    var temp := a[i];
    ghost var sorted := a[..i];
    ghost var rest := a[i + 1..];
    var j := ShiftGreater(a, i, temp, key);
    InsertAfterGreater(sorted, temp, key, j);
    a[j] := temp;
    ShiftedIn(a[..], sorted, temp, j);
    assert forall k :: 0 <= k < |rest| ==> a[i + 1..][k] == rest[k];
  }

  /** `selInsSort`: insertion sort in place. */
  method SelInsSort<T>(a: array<T>, key: T -> int)
    modifies a
    ensures a[..] == InsSort(old(a[..]), key)
    ensures SortedBy(a[..], key) && multiset(a[..]) == multiset(old(a[..]))
  {
    ghost var s := a[..];
    for i := 0 to a.Length
      invariant a[..i] == InsSort(s[..i], key)
      invariant a[i..] == s[i..]
    {
      assert a[i] == s[i];
      InsSortStep(s, i, key);
      InsertItem(a, i, key);
    }
    assert a[..] == a[..a.Length] && s == s[..a.Length];
    InsSortSorts(s, key);
  }

  /** Permuting a stretch keeps a bound that held for all of it. */
  lemma AtMostKept<T>(s: seq<T>, t: seq<T>, key: T -> int, v: int)
    requires multiset(s) == multiset(t) && AllAtMost(s, key, v)
    ensures AllAtMost(t, key, v)
  {
    forall i | 0 <= i < |t|
      ensures key(t[i]) <= v
    {
      assert t[i] in multiset(s);
      var k :| 0 <= k < |s| && s[k] == t[i];
    }
  }

  lemma AtLeastKept<T>(s: seq<T>, t: seq<T>, key: T -> int, v: int)
    requires multiset(s) == multiset(t) && AllAtLeast(s, key, v)
    ensures AllAtLeast(t, key, v)
  {
    forall i | 0 <= i < |t|
      ensures key(t[i]) >= v
    {
      assert t[i] in multiset(s);
      var k :| 0 <= k < |s| && s[k] == t[i];
    }
  }

  /** Two sorted stretches around a pivot that separates them make one sorted stretch. */
  lemma {:induction false} SortedAroundPivot<T>(l: seq<T>, x: T, r: seq<T>, key: T -> int)
    requires SortedBy(l, key) && SortedBy(r, key)
    requires AllAtMost(l, key, key(x)) && AllAtLeast(r, key, key(x))
    ensures SortedBy(l + [x] + r, key)
  {
    var s := l + [x] + r;
    forall i, j | 0 <= i < j < |s|
      ensures key(s[i]) <= key(s[j])
    {
      if j < |l| {
        assert s[i] == l[i] && s[j] == l[j];
      } else if i > |l| {
        assert s[i] == r[i - |l| - 1] && s[j] == r[j - |l| - 1];
      } else if i < |l| {
        assert key(s[i]) <= key(x);
        assert j == |l| || s[j] == r[j - |l| - 1];
      } else {
        assert s[j] == r[j - |l| - 1];
      }
    }
  }

  /** When nothing outside `[from, to]` moved, the stretch holds what the whole array lost. */
  lemma StretchPermuted<T>(s: seq<T>, t: seq<T>, from: int, to: int)
    requires 0 <= from <= to + 1 <= |s| == |t|
    requires multiset(s) == multiset(t)
    requires forall k :: 0 <= k < |s| && !(from <= k <= to) ==> s[k] == t[k]
    ensures multiset(s[from..to + 1]) == multiset(t[from..to + 1])
  {
    var front, mid, back := s[..from], s[from..to + 1], s[to + 1..];
    var mid' := t[from..to + 1];
    assert s == front + mid + back;
    assert t == front + mid' + back;
    calc {
      multiset(mid);
      multiset(front + mid + back) - multiset(front) - multiset(back);
      multiset(front + mid' + back) - multiset(front) - multiset(back);
      multiset(mid');
    }
  }

  /** Swaps `a[i]` and `a[j]`, through a temporary as `items.set` does. */
  method Swap<T>(a: array<T>, i: int, j: int)
    requires 0 <= i < a.Length && 0 <= j < a.Length
    modifies a
    ensures a[i] == old(a[j]) && a[j] == old(a[i])
    ensures forall k :: 0 <= k < a.Length && k != i && k != j ==> a[k] == old(a[k])
    ensures multiset(a[..]) == multiset(old(a[..]))
  {
    ghost var before := a[..];
    var temp := a[i];
    a[i] := a[j];
    a[j] := temp;
    assert a[..] == before[i := before[j]][j := before[i]];
  }

  /**
   * `partition`: the first item is the pivot; `lo` skips smaller items from
   * the left, `hi` skips greater items from the right, out-of-place pairs are
   * swapped, and the pivot is finally swapped into position `hi`. The
   * do-while of the source is a while loop here: a first pass with
   * `lo > hi` changes nothing.
   */
  method Partition<T>(a: array<T>, begin: int, end: int, key: T -> int) returns (p: int)
    requires 0 <= begin <= end < a.Length
    modifies a
    ensures begin <= p <= end
    ensures a[p] == old(a[begin])
    ensures forall k :: begin <= k < p ==> key(a[k]) <= key(a[p])
    ensures forall k :: p < k <= end ==> key(a[k]) >= key(a[p])
    ensures multiset(a[..]) == multiset(old(a[..]))
    ensures forall k :: 0 <= k < a.Length && !(begin <= k <= end) ==> a[k] == old(a[k])
  {
    var pivot := a[begin];
    var lo, hi := begin + 1, end;
    while lo <= hi
      invariant begin + 1 <= lo <= end + 1 && begin <= hi <= end && lo <= hi + 2
      invariant a[begin] == pivot
      invariant forall k :: begin + 1 <= k < lo ==> key(a[k]) <= key(pivot)
      invariant forall k :: hi < k <= end ==> key(a[k]) >= key(pivot)
      invariant multiset(a[..]) == multiset(old(a[..]))
      invariant forall k :: 0 <= k < a.Length && !(begin <= k <= end) ==> a[k] == old(a[k])
      decreases hi - lo + 2
    {
      while lo <= hi && key(a[lo]) < key(pivot)
        invariant begin + 1 <= lo <= hi + 1
        invariant forall k :: begin + 1 <= k < lo ==> key(a[k]) <= key(pivot)
      {
        lo := lo + 1;
      }
      while lo <= hi && key(a[hi]) > key(pivot)
        invariant begin <= hi && lo <= hi + 1
        invariant forall k :: hi < k <= end ==> key(a[k]) >= key(pivot)
      {
        hi := hi - 1;
      }
      if lo <= hi {
        Swap(a, lo, hi);
        lo, hi := lo + 1, hi - 1;
      }
    }
    // the pivot, still at `begin`, and the item at `hi` change places
    Swap(a, begin, hi);
    p := hi;
  }

  /** `quickSortPart`: sorts `a[from..to]` (both inclusive) and nothing else. */
  method QuickSortPart<T>(a: array<T>, from: int, to: int, key: T -> int)
    requires 0 <= from <= to + 1 <= a.Length
    modifies a
    ensures SortedBy(a[from..to + 1], key)
    ensures multiset(a[..]) == multiset(old(a[..]))
    ensures forall k :: 0 <= k < a.Length && !(from <= k <= to) ==> a[k] == old(a[k])
    decreases (to - from)
  {
    if to <= from {
      return;
    }
    var p := Partition(a, from, to, key);
    ghost var split := a[..];
    QuickSortPart(a, from, p - 1, key);
    ghost var leftDone := a[..];
    QuickSortPart(a, p + 1, to, key);
    SortedAfterParts(split, leftDone, a[..], from, p, to, key);
  }

  /**
   * The two recursive calls of `quickSortPart` around a partitioned stretch
   * leave it sorted.
   */
  lemma SortedAfterParts<T>(split: seq<T>, leftDone: seq<T>, done: seq<T>, from: int, p: int, to: int, key: T -> int)
    requires 0 <= from <= p <= to < |split| == |leftDone| == |done|
    requires forall k :: from <= k < p ==> key(split[k]) <= key(split[p])
    requires forall k :: p < k <= to ==> key(split[k]) >= key(split[p])
    requires SortedBy(leftDone[from..p - 1 + 1], key) && multiset(leftDone) == multiset(split)
    requires forall k :: 0 <= k < |split| && !(from <= k <= p - 1) ==> leftDone[k] == split[k]
    requires SortedBy(done[p + 1..to + 1], key) && multiset(done) == multiset(leftDone)
    requires forall k :: 0 <= k < |split| && !(p + 1 <= k <= to) ==> done[k] == leftDone[k]
    ensures SortedBy(done[from..to + 1], key)
  {
    StretchPermuted(split, leftDone, from, p - 1);
    StretchPermuted(leftDone, done, p + 1, to);
    assert done[from..p] == leftDone[from..p] == leftDone[from..p - 1 + 1];
    assert done[p] == split[p];
    assert split[from..p] == split[from..p - 1 + 1];
    assert AllAtMost(split[from..p], key, key(split[p]));
    assert AllAtLeast(split[p + 1..to + 1], key, key(split[p]));
    AtMostKept(split[from..p], done[from..p], key, key(done[p]));
    assert split[p + 1..to + 1] == leftDone[p + 1..to + 1];
    AtLeastKept(leftDone[p + 1..to + 1], done[p + 1..to + 1], key, key(done[p]));
    SortedAroundPivot(done[from..p], done[p], done[p + 1..to + 1], key);
    assert done[from..to + 1] == done[from..p] + [done[p]] + done[p + 1..to + 1];
  }

  /** `quickSort`: the whole array sorted, as a permutation of what it held. */
  method QuickSort<T>(a: array<T>, key: T -> int)
    modifies a
    ensures SortedBy(a[..], key)
    ensures multiset(a[..]) == multiset(old(a[..]))
  {
    QuickSortPart(a, 0, a.Length - 1, key);
    assert a[..] == a[0..a.Length - 1 + 1];
  }

  /**
   * `topsHeapSort`: nothing to do for `numTops <= 0`; a full quicksort when
   * `numTops` exceeds the size. Otherwise the body as it stands: the heap
   * repair steps are empty, so the pass over the tail only swaps an item into
   * position 0 when it is smaller than the item there, and the final heap
   * sort loop has an empty body.
   */
  method TopsHeapSort<T>(numTops: int, a: array<T>, key: T -> int)
    modifies a
    ensures numTops <= 0 ==> a[..] == old(a[..])
    ensures numTops > a.Length ==> SortedBy(a[..], key)
    ensures multiset(a[..]) == multiset(old(a[..]))
    ensures 0 < numTops <= a.Length ==> forall k :: numTops <= k < a.Length ==> key(a[0]) <= key(a[k])
  {
    if numTops <= 0 {
      return;
    } else if numTops > a.Length {
      QuickSort(a, key);
      return;
    }
    for i := numTops to a.Length
      invariant multiset(a[..]) == multiset(old(a[..]))
      invariant forall k :: numTops <= k < i ==> key(a[0]) <= key(a[k])
    {
      var item := a[i];
      var worstLeadItem := a[0];
      if key(item) < key(worstLeadItem) {
        // `item` moves to the root, `worstLeadItem` to position `i`
        Swap(a, 0, i);
      }
    }
  }
}
