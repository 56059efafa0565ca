/**
 * A train: an engine that can pull at most `maxWagons` wagons, and the first
 * wagon of the sequence it pulls. The sequence itself is the chain of wagon
 * links kept in the yard.
 */
module Trains {
  import opened Wrappers
  import opened JavaInt
  import opened Wagons

  /** The seats of a passenger wagon or the maximum weight of a freight wagon. */
  function Capacity(k: Kind): int {
    match k
    case Passenger(seats) => seats
    case Freight(weight) => weight
  }

  /** Every wagon of `s` is a passenger wagon (`passenger`) or a freight wagon (`!passenger`). */
  ghost predicate AllOfClass(kinds: map<int, Kind>, s: seq<int>, passenger: bool) {
    forall w :: w in s ==> w in kinds && kinds[w].Passenger? == passenger
  }

  /**
   * The seats or maximum weights of the wagons of `s`, added up without
   * overflow; a wagon of no known kind adds nothing.
   */
  ghost function CapacitySum(kinds: map<int, Kind>, s: seq<int>): int
  {
    if s == [] then 0
    else
      var last := s[|s| - 1];
      CapacitySum(kinds, s[..|s| - 1]) + (if last in kinds then Capacity(kinds[last]) else 0)
  }

  /** The sum over two sequences one after the other is the sum of their sums. */
  lemma {:induction false} CapacitySumAppend(kinds: map<int, Kind>, a: seq<int>, b: seq<int>)
    ensures CapacitySum(kinds, a + b) == CapacitySum(kinds, a) + CapacitySum(kinds, b)
    decreases |b|
  {
    if b != [] {
      assert (a + b)[..|a + b| - 1] == a + b[..|b| - 1];
      CapacitySumAppend(kinds, a, b[..|b| - 1]);
    } else {
      assert a + b == a;
    }
  }

  /** The wagons of `s` from last to first. */
  function Reversed(s: seq<int>): (r: seq<int>)
    ensures |r| == |s| && multiset(r) == multiset(s)
    decreases |s|
  {
    if s == [] then [] else
      assert s == [s[0]] + s[1..];
      Reversed(s[1..]) + [s[0]]
  }

  /** Position `k` of the reversed sequence holds the wagon `k` places from the rear. */
  lemma {:induction false} ReversedAt(s: seq<int>)
    ensures forall k :: 0 <= k < |s| ==> Reversed(s)[k] == s[|s| - 1 - k]
    decreases |s|
  {
    if s != [] {
      ReversedAt(s[1..]);
    }
  }

  /** Reversing twice gives the sequence back. */
  lemma ReversedTwice(s: seq<int>)
    ensures Reversed(Reversed(s)) == s
  {
    ReversedAt(s);
    ReversedAt(Reversed(s));
  }

  /** Reversing does not change the total seats or weight. */
  lemma {:induction false} CapacitySumReversed(kinds: map<int, Kind>, s: seq<int>)
    ensures CapacitySum(kinds, Reversed(s)) == CapacitySum(kinds, s)
    decreases |s|
  {
    if s != [] {
      var t := s[1..];
      assert s == [s[0]] + t;
      CapacitySumReversed(kinds, t);
      CapacitySumAppend(kinds, Reversed(t), [s[0]]);
      CapacitySumAppend(kinds, [s[0]], t);
      var one := [s[0]];
      assert one[..0] == [];
    }
  }

  /** What `getTotalNumberOfSeats` and `getTotalMaxWeight` give: a total, or a ClassCastException for a mixed train. */
  datatype TotalResult = Total(value: int) | ClassCast

  class Train {
    const origin: string
    const destination: string
    /** `engine.getMaxWagons()`. */
    const maxWagons: int
    /** The links of all wagons, shared with the other trains. */
    const yard: Yard
    var firstWagon: Option<int>

    /** The source's representation invariant: the first wagon has no previous wagon. */
    ghost predicate Valid()
      reads this, yard
    {
      yard.Valid() && (firstWagon.Some? ==> firstWagon.value in yard.kinds && firstWagon.value !in yard.prev)
    }

    /** The wagons of the train, front to rear. */
    ghost function Sequence(): (s: seq<int>)
      requires Valid()
      reads this, yard
      ensures s == [] <==> firstWagon.None?
      ensures s != [] ==> s[0] == firstWagon.value
      ensures Distinct(s) && forall w :: w in s ==> w in yard.kinds
    {
      if firstWagon.None? then []
      else
        var f := firstWagon.value;
        assert LineAt(yard.next, yard.line, f);
        InLine(yard.next, yard.line, f);
        LineDistinct(yard.next, yard.line, f);
        yard.line[f]
    }

    /** The three conditions of `canAttach`. */
    ghost predicate Attachable(w: int)
      requires Valid() && w in yard.kinds
      reads this, yard
    {
      (firstWagon.None? || SameClass(yard.kinds[w], yard.kinds[firstWagon.value]))
      && w !in yard.prev
      && maxWagons >= |Sequence()| + |yard.line[w]|
    }

    constructor (yard: Yard, maxWagons: int, origin: string, destination: string)
      requires yard.Valid()
      ensures Valid() && Sequence() == []
      ensures this.yard == yard && this.maxWagons == maxWagons
      ensures this.origin == origin && this.destination == destination
    {
      this.yard := yard;
      this.maxWagons := maxWagons;
      this.origin := origin;
      this.destination := destination;
      firstWagon := None;
    }

    /** `getNumberOfWagons`: 0 without wagons, otherwise one more than the tail length of the first wagon. */
    method NumberOfWagons() returns (n: int)
      requires Valid()
      ensures n == |Sequence()|
    {
      if firstWagon.None? {
        return 0;
      }
      var tail := yard.TailLength(firstWagon.value);
      n := tail + 1;
    }

    /** `getLastWagonAttached`: the rear wagon, or null for a train without wagons. */
    method LastWagonAttached() returns (last: Option<int>)
      requires Valid()
      ensures last.None? <==> Sequence() == []
      ensures last.Some? ==> last.value == Sequence()[|Sequence()| - 1] && last.value !in yard.next
    {
      ghost var s := Sequence();
      last := None;
      var i := firstWagon;
      ghost var k := 0;
      while i.Some?
        invariant 0 <= k <= |s| && (i.Some? <==> k < |s|)
        invariant i.Some? ==> i.value in yard.line && yard.line[i.value] == s[k..]
        invariant k == 0 ==> last.None?
        invariant k > 0 ==> last == Some(s[k - 1])
        decreases |s| - k
      {
        assert LineAt(yard.next, yard.line, i.value);
        if i.value in yard.next {
          assert LineAt(yard.next, yard.line, yard.next[i.value]);
        }
        assert s[k..][1..] == s[k + 1..];
        last := i;
        i := if i.value in yard.next then Some(yard.next[i.value]) else None;
        k := k + 1;
      }
      if firstWagon.Some? {
        LastHasNoNext(yard.next, yard.line, firstWagon.value);
      }
    }

    /**
     * `findWagonAtPosition`: the wagon at `position`, counting from 1, or
     * null when the position is not in the train.
     */
    method FindWagonAtPosition(position: int) returns (r: Option<int>)
      requires Valid()
      ensures r.Some? <==> 1 <= position <= |Sequence()|
      ensures r.Some? ==> r.value == Sequence()[position - 1]
    {
      ghost var s := Sequence();
      var wPosition := 1;
      if firstWagon.Some? {
        var count := NumberOfWagons();
        if position <= count && position > 0 {
          var wagon := firstWagon.value;
          while wagon in yard.next && wPosition != position
            invariant 1 <= wPosition <= position
            invariant wagon in yard.line && yard.line[wagon] == s[wPosition - 1..]
            decreases position - wPosition
          {
            assert LineAt(yard.next, yard.line, wagon);
            assert s[wPosition - 1..][1..] == s[wPosition..];
            wPosition := wPosition + 1;
            wagon := yard.next[wagon];
          }
          assert LineAt(yard.next, yard.line, wagon);
          return Some(wagon);
        }
      }
      return None;
    }

    /** `findWagonById`: the wagon with the given id when it is in the train, otherwise null. */
    method FindWagonById(wagonId: int) returns (found: Option<int>)
      requires Valid()
      ensures found == if wagonId in Sequence() then Some(wagonId) else None
    {
      ghost var s := Sequence();
      var current := firstWagon;
      ghost var k := 0;
      while current.Some?
        invariant 0 <= k <= |s| && (current.Some? <==> k < |s|)
        invariant current.Some? ==> current.value in yard.line && yard.line[current.value] == s[k..]
        invariant wagonId !in s[..k]
        decreases |s| - k
      {
        assert LineAt(yard.next, yard.line, current.value);
        if current.value == wagonId {
          assert s[k] == wagonId;
          return current;
        }
        if current.value in yard.next {
          assert LineAt(yard.next, yard.line, yard.next[current.value]);
        }
        assert s[k..][1..] == s[k + 1..];
        assert s[..k + 1] == s[..k] + [s[k]];
        current := if current.value in yard.next then Some(yard.next[current.value]) else None;
        k := k + 1;
      }
      assert s[..k] == s;
      return None;
    }

    /**
     * `canAttach`: the train is empty or the wagon has the class of the first
     * wagon, the wagon has no previous wagon, and the engine can pull the
     * train's wagons and the whole sequence from the wagon together.
     */
    method CanAttach(w: int) returns (b: bool)
      requires Valid() && w in yard.kinds
      ensures b == Attachable(w)
    {
      b := false;
      if firstWagon.None? || SameClass(yard.kinds[w], yard.kinds[firstWagon.value]) {
        if w !in yard.prev {
          var count := NumberOfWagons();
          var tail := yard.TailLength(w);
          if maxWagons >= count + (tail + 1) {
            b := true;
          }
        }
      }
    }

    /**
     * `attachToRear`: false with nothing changed when the sequence from `w`
     * cannot be attached; otherwise that sequence follows the train's wagons.
     * Attaching the train's own first wagon, which closes a ring, is excluded.
     */
    method AttachToRear(w: int) returns (ok: bool)
      requires Valid() && w in yard.kinds
      requires firstWagon == Some(w) ==> maxWagons < 2 * |Sequence()|
      modifies this, yard
      ensures Valid()
      ensures ok == old(Attachable(w))
      ensures !ok ==> unchanged(this) && unchanged(yard)
      ensures ok ==> Sequence() == old(Sequence()) + old(yard.line[w])
      ensures ok && old(firstWagon).None? ==> unchanged(yard)
      ensures ok && old(firstWagon).Some? ==>
                var last := old(Sequence()[|Sequence()| - 1]);
                yard.next == old(yard.next)[last := w] && yard.prev == old(yard.prev)[w := last]
    {
      ok := CanAttach(w);
      if !ok {
        return;
      }
      if firstWagon.None? {
        firstWagon := Some(w);
        return;
      }
      // `w` has no previous wagon here, so the source's detachFront is not reached.
      var first := firstWagon.value;
      var last := yard.LastWagonAttached(first);
      if last in yard.line[w] {
        HeadsMeet(yard.next, yard.prev, yard.line, w, first, last);
      }
      var _ := yard.AttachTail(last, w);
    }

    /**
     * `insertAtFront`: false with nothing changed when the wagon is already
     * in the train or the sequence from it cannot be attached; otherwise that
     * sequence comes first, followed by the train's wagons in their order.
     */
    method InsertAtFront(w: int) returns (ok: bool)
      requires Valid() && w in yard.kinds
      modifies this, yard
      ensures Valid()
      ensures ok == old(w !in Sequence() && Attachable(w))
      ensures !ok ==> unchanged(this) && unchanged(yard)
      ensures ok ==> firstWagon == Some(w) && Sequence() == old(yard.line[w]) + old(Sequence())
      ensures ok && old(firstWagon).Some? ==>
                var last := old(yard.line[w][|yard.line[w]| - 1]);
                yard.next == old(yard.next)[last := old(firstWagon.value)]
                && yard.prev == old(yard.prev)[old(firstWagon.value) := last]
    {
      var found := FindWagonById(w);
      if found.Some? {
        return false;
      }
      ok := CanAttach(w);
      if !ok {
        return;
      }
      if firstWagon.Some? {
        var temp := firstWagon.value;
        NoFrontMaps(yard.next, yard.prev, temp);
        var _ := yard.DetachFront(temp);
        var front := yard.LastWagonAttached(w);
        NoLinkMaps(yard.next, yard.prev, front, temp);
        if front in yard.line[temp] {
          HeadsMeet(yard.next, yard.prev, yard.line, w, temp, front);
        }
        yard.ReAttachTo(temp, front);
      }
      firstWagon := Some(w);
    }

    /**
     * The loop shared by `getTotalNumberOfSeats` (`passenger`) and
     * `getTotalMaxWeight` (`!passenger`): 0 unless the first wagon is of the
     * class; otherwise the 32-bit sum over the wagons, or a ClassCastException
     * at a wagon of the other class.
     */
    method CapacityTotal(passenger: bool) returns (r: TotalResult)
      requires Valid()
      ensures r == if firstWagon.None? || yard.kinds[firstWagon.value].Passenger? != passenger then Total(0)
                   else if AllOfClass(yard.kinds, Sequence(), passenger) then Total(Wrap32(CapacitySum(yard.kinds, Sequence())))
                   else ClassCast
    {
      ghost var s := Sequence();
      var total := 0;
      if firstWagon.Some? && yard.kinds[firstWagon.value].Passenger? == passenger {
        var count := NumberOfWagons();
        var i := 1;
        while i <= count
          invariant 1 <= i <= count + 1
          invariant AllOfClass(yard.kinds, s[..i - 1], passenger)
          invariant total == Wrap32(CapacitySum(yard.kinds, s[..i - 1]))
        {
          var found := FindWagonAtPosition(i);
          var k := yard.kinds[found.value];
          if k.Passenger? != passenger {
            return ClassCast;
          }
          assert s[..i][..i - 1] == s[..i - 1];
          assert s[..i] == s[..i - 1] + [s[i - 1]];
          WrapAdd(CapacitySum(yard.kinds, s[..i - 1]), Capacity(k));
          total := Wrap32(total + Capacity(k));
          i := i + 1;
        }
        assert s[..i - 1] == s;
      }
      return Total(total);
    }

    /** `getTotalNumberOfSeats`. */
    method TotalNumberOfSeats() returns (r: TotalResult)
      requires Valid()
      ensures r == if firstWagon.None? || !yard.kinds[firstWagon.value].Passenger? then Total(0)
                   else if AllOfClass(yard.kinds, Sequence(), true) then Total(Wrap32(CapacitySum(yard.kinds, Sequence())))
                   else ClassCast
    {
      r := CapacityTotal(true);
    }

    /** `getTotalMaxWeight`. */
    method TotalMaxWeight() returns (r: TotalResult)
      requires Valid()
      ensures r == if firstWagon.None? || yard.kinds[firstWagon.value].Passenger? then Total(0)
                   else if AllOfClass(yard.kinds, Sequence(), false) then Total(Wrap32(CapacitySum(yard.kinds, Sequence())))
                   else ClassCast
    {
      r := CapacityTotal(false);
    }

    /**
     * The state of `reverse` after `j` rounds, for a train whose wagons were
     * `s`: the part not yet reversed starts at `rest` and is `s` without its
     * last `j` wagons; the reversed part starts at the former rear wagon.
     */
    ghost predicate ReverseState(rest: int, s: seq<int>, j: int)
      reads this, yard
    {
      Valid() && 0 <= j <= |s| && |s| >= 2 && s[0] == rest
      && Distinct(s) && (forall w :: w in s ==> w in yard.kinds)
      && (j < |s| ==> rest !in yard.prev)
      && (j == 0 ==> firstWagon == Some(rest) && yard.line[rest] == s)
      && (0 < j ==> firstWagon == Some(s[|s| - 1]) && yard.line[s[|s| - 1]] == Reversed(s[|s| - j..]))
      && (0 < j < |s| ==> yard.line[rest] == s[..|s| - j])
    }

    /**
     * `reverse`: a train with at most one wagon is left as it is; otherwise
     * the rear wagon is detached and moved behind the reversed part, once per
     * wagon, which puts the wagons in the opposite order.
     */
    method Reverse()
      requires Valid()
      modifies this, yard
      ensures Valid()
      ensures Sequence() == Reversed(old(Sequence()))
      ensures |old(Sequence())| <= 1 ==> unchanged(this) && unchanged(yard)
    {
      ghost var s := Sequence();
      var reverseWagons := NumberOfWagons();
      if firstWagon.None? || firstWagon.value !in yard.next {
        if firstWagon.Some? {
          assert LineAt(yard.next, yard.line, firstWagon.value);
        }
        return;
      }
      var reverseFirstToLastWagon := firstWagon.value;
      assert LineAt(yard.next, yard.line, reverseFirstToLastWagon);
      assert LineAt(yard.next, yard.line, yard.next[reverseFirstToLastWagon]);
      NoFrontMaps(yard.next, yard.prev, reverseFirstToLastWagon);
      var _ := yard.DetachFront(reverseFirstToLastWagon);
      var i := 0;
      while i < reverseWagons
        invariant reverseWagons == |s| && ReverseState(reverseFirstToLastWagon, s, i)
      {
        MoveRearWagon(reverseFirstToLastWagon, s, i);
        i := i + 1;
      }
      assert s[|s| - i..] == s;
    }

    /** One round of `reverse`: the rear wagon of the unreversed part goes to the rear of the reversed part. */
    method MoveRearWagon(rest: int, ghost s: seq<int>, ghost i: int)
      requires ReverseState(rest, s, i) && i < |s|
      modifies this, yard
      ensures ReverseState(rest, s, i + 1)
    {
      var n := |s|;
      ReverseFacts(s, i);
      var frontWagon := DetachRear(rest, s, i);
      if firstWagon == Some(rest) {
        firstWagon := Some(frontWagon);
      } else {
        AppendWagon(firstWagon.value, frontWagon, rest);
      }
    }

    /** `reverseFirstToLastWagon.getLastWagonAttached().detachFront()` in round `i` of `reverse`. */
    method DetachRear(rest: int, ghost s: seq<int>, ghost i: int) returns (frontWagon: int)
      requires ReverseState(rest, s, i) && i < |s|
      modifies yard
      ensures Valid() && (firstWagon == Some(rest) <==> i == 0)
      ensures frontWagon == s[|s| - i - 1] && frontWagon !in yard.prev && yard.line[frontWagon] == [frontWagon]
      ensures i + 1 < |s| ==> yard.line[rest] == s[..|s| - i - 1] && rest !in yard.prev
      ensures i > 0 ==> yard.line[s[|s| - 1]] == Reversed(s[|s| - i..])
    {
      var n := |s|;
      frontWagon := yard.LastWagonAttached(rest);
      ghost var line0 := yard.line;
      assert line0[rest] == s[..n - i];
      if n - i - 1 > 0 {
        RoundCut(yard.next, yard.prev, yard.line, rest, s, i);
      }
      var former := yard.DetachFront(frontWagon);
      if n - i - 1 > 0 {
        assert former == Some(s[n - i - 2]);
      }
    }

    /** `firstWagon.getLastWagonAttached().attachTail(w)` for a wagon `w` that stands alone. */
    method AppendWagon(first: int, w: int, ghost other: int)
      requires Valid() && firstWagon == Some(first)
      requires w in yard.kinds && w !in yard.prev && yard.line[w] == [w] && w !in yard.line[first]
      modifies yard
      ensures Valid()
      ensures yard.line[first] == old(yard.line[first]) + [w]
      ensures other in yard.kinds && old(Sequence()[|Sequence()| - 1]) !in old(yard.line[other])
              ==> yard.line[other] == old(yard.line[other])
      ensures yard.prev == old(yard.prev)[w := old(Sequence()[|Sequence()| - 1])]
    {
      var last := yard.LastWagonAttached(first);
      var _ := yard.AttachTail(last, w);
    }

    /**
     * The checks `moveOneWagon` makes before it relinks anything: it returns
     * false, with nothing changed, for an id not in this train or when both
     * trains have wagons of different classes.
     */
    method MoveOneWagonRefused(wagonId: int, toTrain: Train) returns (refused: bool)
      requires Valid() && toTrain.Valid() && toTrain.yard == yard
      ensures refused <==> wagonId !in Sequence()
                           || (toTrain.firstWagon.Some?
                               && !SameClass(yard.kinds[firstWagon.value], yard.kinds[toTrain.firstWagon.value]))
    {
      var wagonById := FindWagonById(wagonId);
      if wagonById.None? {
        return true;
      }
      if toTrain.firstWagon.Some? && yard.kinds[firstWagon.value].Freight? {
        if yard.kinds[toTrain.firstWagon.value].Passenger? {
          return true;
        }
      }
      if toTrain.firstWagon.Some? && yard.kinds[firstWagon.value].Passenger? {
        if yard.kinds[toTrain.firstWagon.value].Freight? {
          return true;
        }
      }
      return false;
    }

    /**
     * The checks `splitAtPosition` makes before it relinks anything: it
     * returns false, with nothing changed, for a position not in the train
     * and for position 1 of a train with more than one wagon.
     */
    method SplitAtPositionRefused(position: int) returns (refused: bool)
      requires Valid()
      ensures refused <==> !(1 <= position <= |Sequence()|) || (position == 1 && |Sequence()| > 1)
    {
      var wagonAtPosition := FindWagonAtPosition(position);
      if wagonAtPosition.None? {
        return true;
      }
      assert wagonAtPosition == firstWagon <==> position == 1;
      if wagonAtPosition == firstWagon {
        assert LineAt(yard.next, yard.line, wagonAtPosition.value);
        if wagonAtPosition.value in yard.next {
          assert LineAt(yard.next, yard.line, yard.next[wagonAtPosition.value]);
          return true;
        }
      }
      return false;
    }
  }

  /** What one round of `reverse` needs to know about the wagons `s` of the train. */
  lemma ReverseFacts(s: seq<int>, i: int)
    requires Distinct(s) && 0 <= i < |s|
    ensures i > 0 ==> Reversed(s[|s| - i..])[i - 1] == s[|s| - i]
    ensures i > 0 ==> s[|s| - i] != s[|s| - i - 1] && s[|s| - i] !in s[..|s| - i - 1]
    ensures i > 0 ==> s[|s| - i - 1] !in Reversed(s[|s| - i..])
    ensures i > 0 ==> Reversed(s[|s| - i..]) + [s[|s| - i - 1]] == Reversed(s[|s| - i - 1..])
    ensures i == 0 ==> Reversed(s[|s| - 1..]) == [s[|s| - 1]]
    ensures |s| - i - 1 > 0 ==> s[|s| - i - 2] !in Reversed(s[|s| - i..]) && s[|s| - i - 2] != s[|s| - i - 1]
    ensures |s| - i - 1 > 0 ==> s[..|s| - i][..|s| - i - 1] == s[..|s| - i - 1]
    ensures 0 < i < |s| - 1 ==> s[|s| - i - 1] != s[0]
  {
    var n := |s|;
    var t := s[n - i - 1..];
    assert t[1..] == s[n - i..];
    ReversedAt(s[n - i..]);
    if i > 0 {
      DistinctApart(s, n - i, n - i - 1);
      DistinctApart(s, n - i - 1, n - i);
    }
    if n - i - 1 > 0 {
      DistinctApart(s, n - i - 2, n - i);
    }
    assert s[n - 1..] == [s[n - 1]];
  }

  /**
   * Round `i` of `reverse` cuts the unreversed part `s[..|s| - i]` in front
   * of its last wagon: that wagon's previous wagon is the one before it, and
   * the cut shortens the unreversed part by one and leaves the detached wagon
   * and the reversed part as they are.
   */
  lemma RoundCut(next: map<int, int>, prev: map<int, int>, line: map<int, seq<int>>, rest: int, s: seq<int>, i: int)
    requires Lines(next, line) && TwoWay(next, prev) && Distinct(s) && 0 <= i < |s| - 1
    requires rest in line && line[rest] == s[..|s| - i]
    requires s[|s| - i - 1] in line && line[s[|s| - i - 1]] == [s[|s| - i - 1]]
    requires i > 0 ==> s[|s| - 1] in line && line[s[|s| - 1]] == Reversed(s[|s| - i..])
    ensures s[|s| - i - 1] in prev && prev[s[|s| - i - 1]] == s[|s| - i - 2]
    ensures var d := Detached(line, s[|s| - i - 2], 1);
            d[rest] == s[..|s| - i - 1] && d[s[|s| - i - 1]] == [s[|s| - i - 1]]
            && (i > 0 ==> d[s[|s| - 1]] == Reversed(s[|s| - i..]))
  {
    var n := |s|;
    ReverseFacts(s, i);
    RearCut(next, prev, line, rest);
  }

  /**
   * Cutting the chain from `w` in front of its last wagon: the last wagon's
   * previous wagon is the one before it in the chain, and the chain from `w`
   * loses its last wagon.
   */
  lemma RearCut(next: map<int, int>, prev: map<int, int>, line: map<int, seq<int>>, w: int)
    requires Lines(next, line) && TwoWay(next, prev) && w in line && |line[w]| >= 2
    ensures var u := line[w];
            u[|u| - 1] in prev && prev[u[|u| - 1]] == u[|u| - 2]
            && Detached(line, u[|u| - 2], 1)[w] == u[..|u| - 1]
  {
    var u := line[w];
    LinkedBack(next, prev, line, w, |u| - 1);
  }

  /** Two positions of a sequence without repetitions hold different wagons. */
  lemma DistinctApart(s: seq<int>, j: int, k: int)
    requires Distinct(s) && 0 <= j < |s| && 0 <= k <= |s|
    ensures j < k ==> s[j] !in s[k..] && s[j] !in Reversed(s[k..])
    ensures k <= j ==> s[j] !in s[..k]
  {
    if j < k {
      assert s[j] !in multiset(s[k..]);
    }
  }
}
