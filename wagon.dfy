/**
 * The wagons of the train exercise: each wagon has an id, a kind (passenger
 * wagon with seats or freight wagon with a maximum weight) and links to the
 * wagon behind it (`nextWagon`) and in front of it (`previousWagon`).
 *
 * The links of all wagons are kept in one `Yard`: `next[a] == b` says that
 * `b` is attached at the tail of `a`. Wagons are identified by their ids. The
 * ghost map `line` gives, for each wagon, the sequence from that wagon to the
 * end of its chain; its invariant makes every chain finite.
 */
module Wagons {
  import opened Wrappers

  /** The subclass of a wagon, with what it carries. */
  datatype Kind = Passenger(numberOfSeats: int) | Freight(maxWeight: int)

  /** `a.getClass() == b.getClass()`. */
  predicate SameClass(a: Kind, b: Kind) {
    a.Passenger? == b.Passenger?
  }

  ghost predicate Distinct<T>(s: seq<T>) {
    forall i, j :: 0 <= i < j < |s| ==> s[i] != s[j]
  }

  /** The links agree both ways: `next.previous == this` and `previous.next == this`. */
  ghost predicate TwoWay(next: map<int, int>, prev: map<int, int>) {
    (forall a :: a in next ==> next[a] in prev && prev[next[a]] == a)
    && (forall b :: b in prev ==> prev[b] in next && next[prev[b]] == b)
  }

  /** The chain from `w` is `w` followed by the chain from its next wagon, if any. */
  ghost predicate LineAt(next: map<int, int>, line: map<int, seq<int>>, w: int) {
    w in line
    && (w in next ==> next[w] in line && line[w] == [w] + line[next[w]])
    && (w !in next ==> line[w] == [w])
  }

  ghost predicate Lines(next: map<int, int>, line: map<int, seq<int>>) {
    forall w {:trigger LineAt(next, line, w)} :: w in line ==> LineAt(next, line, w)
  }

  /** The wagon linked to `k` by `m`, if any. */
  function Ends(m: map<int, int>, k: int): set<int> {
    if k in m then {m[k]} else {}
  }

  /** Removing the tail link of `front` and then the front link of `w` removes both links of the original maps. */
  lemma UnlinkMaps(next: map<int, int>, prev: map<int, int>, front: int, w: int)
    requires TwoWay(next, prev)
    ensures (next - {front}) - Ends(prev - Ends(next, front), w) == next - {front} - Ends(prev, w)
    ensures (prev - Ends(next, front)) - {w} == prev - {w} - Ends(next, front)
  {
    if front in next && next[front] == w {
      assert Ends(prev - Ends(next, front), w) == {};
      assert Ends(prev, w) == {front};
    }
  }

  /** Cutting both links of `w` and linking `p` to `n` bypasses `w`. */
  lemma BypassMaps(next: map<int, int>, prev: map<int, int>, p: int, w: int, n: int)
    ensures var next', prev' := next - {p} - {w}, prev - {w} - {n};
            (next' - {p} - Ends(prev', n))[p := n] == (next - {w})[p := n]
            && (prev' - {n} - Ends(next', p))[n := p] == (prev - {w})[n := p]
  {
    var next', prev' := next - {p} - {w}, prev - {w} - {n};
    assert Ends(prev', n) == {} && Ends(next', p) == {};
  }

  /** Cutting the front link and then the tail link of `w` removes both links of the original maps. */
  lemma IsolateMaps(next: map<int, int>, prev: map<int, int>, w: int)
    requires w !in Ends(prev, w)
    ensures next - Ends(prev, w) - {w} == next - {w} - Ends(prev, w)
    ensures prev - {w} - Ends(next - Ends(prev, w), w) == prev - {w} - Ends(next, w)
  {
    assert Ends(next - Ends(prev, w), w) == Ends(next, w);
  }

  /** Detaching the front of a wagon with no previous wagon changes nothing. */
  lemma NoFrontMaps(next: map<int, int>, prev: map<int, int>, w: int)
    requires w !in prev
    ensures next - Ends(prev, w) == next && prev - {w} == prev
  {
    assert Ends(prev, w) == {};
  }

  /** Unlinking links that do not exist changes nothing. */
  lemma NoLinkMaps(next: map<int, int>, prev: map<int, int>, front: int, w: int)
    requires front !in next && w !in prev
    ensures next - {front} - Ends(prev, w) == next && prev - {w} - Ends(next, front) == prev
  {
    assert Ends(prev, w) == {} && Ends(next, front) == {};
  }

  /** The chains after `t` is attached behind `a`: every chain through `a` goes on with the chain of `t`. */
  ghost function Attached(line: map<int, seq<int>>, a: int, t: int): map<int, seq<int>>
    requires t in line
  {
    map w | w in line :: if a in line[w] then line[w] + line[t] else line[w]
  }

  /** The chains after the tail of `a`, `k` wagons long, is cut off. */
  ghost function Detached(line: map<int, seq<int>>, a: int, k: nat): map<int, seq<int>>
  {
    map w | w in line :: if a in line[w] && k <= |line[w]| then line[w][..|line[w]| - k] else line[w]
  }

  /** Every wagon in the chain from `w` starts a chain that ends the chain from `w`. */
  lemma {:induction false} SuffixAt(next: map<int, int>, line: map<int, seq<int>>, w: int, x: int)
    requires Lines(next, line) && w in line && x in line[w]
    ensures x in line && |line[x]| <= |line[w]|
    ensures line[w][|line[w]| - |line[x]|..] == line[x]
    decreases |line[w]|
  {
    assert LineAt(next, line, w);
    if x != w {
      var n := next[w];
      assert LineAt(next, line, n);
      SuffixAt(next, line, n, x);
      assert line[w][|line[w]| - |line[x]|..] == line[n][|line[n]| - |line[x]|..];
    }
  }

  /** Every wagon of a chain is a known wagon. */
  lemma InLine(next: map<int, int>, line: map<int, seq<int>>, w: int)
    requires Lines(next, line) && w in line
    ensures forall x :: x in line[w] ==> x in line
  {
    forall x | x in line[w]
      ensures x in line
    {
      SuffixAt(next, line, w, x);
    }
  }

  /** In the chain from `w`, each wagon but the last has the following one as its next. */
  lemma {:induction false} Predecessor(next: map<int, int>, line: map<int, seq<int>>, w: int, i: int)
    requires Lines(next, line) && w in line && 0 < i < |line[w]|
    ensures line[w][i - 1] in next && next[line[w][i - 1]] == line[w][i]
    decreases i
  {
    assert LineAt(next, line, w);
    var n := next[w];
    assert LineAt(next, line, n);
    if i > 1 {
      Predecessor(next, line, n, i - 1);
    }
  }

  /** In the chain from `w`, each wagon but the first has the one before it as its previous wagon. */
  lemma LinkedBack(next: map<int, int>, prev: map<int, int>, line: map<int, seq<int>>, w: int, i: int)
    requires Lines(next, line) && TwoWay(next, prev) && w in line && 0 < i < |line[w]|
    ensures line[w][i] in prev && prev[line[w][i]] == line[w][i - 1]
  {
    Predecessor(next, line, w, i);
    var z := line[w][i - 1];
    assert next[z] in prev;
  }

  /** No chain comes back to its first wagon. */
  lemma NotInTail(next: map<int, int>, line: map<int, seq<int>>, w: int)
    requires Lines(next, line) && w in line && w in next
    ensures next[w] in line && w !in line[next[w]]
  {
    assert LineAt(next, line, w);
    if w in line[next[w]] {
      SuffixAt(next, line, next[w], w);
    }
  }

  /** A chain holds each wagon once. */
  lemma {:induction false} LineDistinct(next: map<int, int>, line: map<int, seq<int>>, w: int)
    requires Lines(next, line) && w in line
    ensures Distinct(line[w])
    decreases |line[w]|
  {
    assert LineAt(next, line, w);
    if w in next {
      var n := next[w];
      NotInTail(next, line, w);
      assert LineAt(next, line, n);
      LineDistinct(next, line, n);
      forall i, j | 0 <= i < j < |line[w]|
        ensures line[w][i] != line[w][j]
      {
        if i > 0 {
          assert line[w][i] == line[n][i - 1] && line[w][j] == line[n][j - 1];
        } else {
          assert line[w][j] == line[n][j - 1];
        }
      }
    }
  }

  /** The last wagon of a chain has nothing behind it. */
  lemma {:induction false} LastHasNoNext(next: map<int, int>, line: map<int, seq<int>>, w: int)
    requires Lines(next, line) && w in line
    ensures |line[w]| > 0 && line[w][0] == w && line[w][|line[w]| - 1] !in next
    decreases |line[w]|
  {
    assert LineAt(next, line, w);
    if w in next {
      assert LineAt(next, line, next[w]);
      LastHasNoNext(next, line, next[w]);
    }
  }

  /**
   * When the chains from `w` and from `f` share a wagon, the shorter one ends
   * the longer one.
   */
  lemma {:induction false} SharedSuffix(next: map<int, int>, prev: map<int, int>, line: map<int, seq<int>>, w: int, f: int, x: int)
    requires Lines(next, line) && TwoWay(next, prev)
    requires w in line && f in line && x in line[w] && x in line[f] && |line[f]| <= |line[w]|
    ensures f in line[w]
    decreases |line[f]|
  {
    assert LineAt(next, line, f);
    if x != f {
      var y := next[f];
      assert LineAt(next, line, y);
      SharedSuffix(next, prev, line, w, y, x);
      SuffixAt(next, line, w, y);
      var i := |line[w]| - |line[y]|;
      assert line[w][i] == y;
      LinkedBack(next, prev, line, w, i);
      assert prev[y] == f;
    }
  }

  /** Two wagons with nothing in front of them whose chains meet are the same wagon. */
  lemma HeadsMeet(next: map<int, int>, prev: map<int, int>, line: map<int, seq<int>>, w: int, f: int, x: int)
    requires Lines(next, line) && TwoWay(next, prev)
    requires w in line && f in line && w !in prev && f !in prev && x in line[w] && x in line[f]
    ensures w == f
  {
    if |line[f]| <= |line[w]| {
      SharedSuffix(next, prev, line, w, f, x);
      HeadIsFirst(next, prev, line, w, f);
    } else {
      SharedSuffix(next, prev, line, f, w, x);
      HeadIsFirst(next, prev, line, f, w);
    }
  }

  /** A wagon with nothing in front of it can only be the first of a chain it is in. */
  lemma HeadIsFirst(next: map<int, int>, prev: map<int, int>, line: map<int, seq<int>>, w: int, f: int)
    requires Lines(next, line) && TwoWay(next, prev) && w in line && f in line[w] && f !in prev
    ensures f == w
  {
    assert LineAt(next, line, w);
    var i :| 0 <= i < |line[w]| && line[w][i] == f;
    if i > 0 {
      LinkedBack(next, prev, line, w, i);
    }
  }

  /** Attaching `t` behind `a`, which ends its chain and is not in the chain of `t`, keeps the chains well formed. */
  lemma AttachLines(next: map<int, int>, line: map<int, seq<int>>, a: int, t: int)
    requires Lines(next, line) && a in line && t in line && a !in next && a !in line[t]
    ensures Lines(next[a := t], Attached(line, a, t))
  {
    var next', line' := next[a := t], Attached(line, a, t);
    forall w | w in line'
      ensures LineAt(next', line', w)
    {
      assert LineAt(next, line, w);
      if w != a && w in next {
        assert LineAt(next, line, next[w]);
      }
    }
  }

  /** Cutting the tail off `a` keeps the chains well formed. */
  lemma DetachLines(next: map<int, int>, line: map<int, seq<int>>, a: int)
    requires Lines(next, line) && a in line && a in next
    ensures next[a] in line
    ensures Lines(next - {a}, Detached(line, a, |line[next[a]]|))
  {
    assert LineAt(next, line, a);
    var b := next[a];
    var next', line' := next - {a}, Detached(line, a, |line[b]|);
    forall w | w in line'
      ensures LineAt(next', line', w)
    {
      assert LineAt(next, line, w);
      if w != a && w in next {
        var x := next[w];
        assert LineAt(next, line, x);
        if a in line[x] {
          SuffixAt(next, line, x, a);
          assert line'[w] == [w] + line'[x];
        }
      }
    }
  }

  /**
   * Detaching the tail of `a` right after attaching `t` behind it gives back
   * the links and the chains as they were.
   */
  lemma DetachUndoesAttach(next: map<int, int>, prev: map<int, int>, line: map<int, seq<int>>, a: int, t: int)
    requires a !in next && t !in prev && t in line
    ensures next[a := t] - {a} == next
    ensures prev[t := a] - Ends(next[a := t], a) == prev
    ensures Detached(Attached(line, a, t), a, |line[t]|) == line
  {
    var back := Detached(Attached(line, a, t), a, |line[t]|);
    forall w | w in line
      ensures back[w] == line[w]
    {
      if a in line[w] {
        assert (line[w] + line[t])[..|line[w]|] == line[w];
      }
    }
  }

  /** All wagons and their links. */
  class Yard {
    /** The wagons, by id. */
    const kinds: map<int, Kind>
    var next: map<int, int>
    var prev: map<int, int>
    /** For each wagon, the wagons from it to the end of its chain. */
    ghost var line: map<int, seq<int>>

    ghost predicate Valid()
      reads this
    {
      line.Keys == kinds.Keys && next.Keys <= kinds.Keys && prev.Keys <= kinds.Keys
      && TwoWay(next, prev) && Lines(next, line)
    }

    /** New wagons, none attached to another. */
    constructor (kinds: map<int, Kind>)
      ensures Valid()
      ensures this.kinds == kinds && next == map[] && prev == map[]
      ensures forall w :: w in kinds ==> line[w] == [w]
    {
      this.kinds := kinds;
      next, prev := map[], map[];
      line := map w | w in kinds :: [w];
      new;
      assert forall w :: w in line ==> LineAt(next, line, w);
    }

    /** `getLastWagonAttached`: the last wagon of the chain from `w`; nothing is behind it. */
    method LastWagonAttached(w: int) returns (last: int)
      requires Valid() && w in kinds
      ensures last in kinds && last !in next && line[last] == [last]
      ensures line[w] != [] && last == line[w][|line[w]| - 1]
    {
      last := w;
      ghost var k := 0;
      assert LineAt(next, line, w);
      while last in next
        invariant 0 <= k < |line[w]| && last in line && line[last] == line[w][k..]
        decreases |line[w]| - k
      {
        assert LineAt(next, line, last);
        assert LineAt(next, line, next[last]);
        assert line[w][k + 1..] == line[w][k..][1..];
        last := next[last];
        k := k + 1;
      }
      assert LineAt(next, line, last);
      assert line[w][k] == last;
    }

    /** `getTailLength`: the number of wagons behind `w`. */
    method TailLength(w: int) returns (n: int)
      requires Valid() && w in kinds
      ensures n == |line[w]| - 1
    {
      n := 0;
      var current := w;
      assert LineAt(next, line, w);
      while current in next
        invariant 0 <= n < |line[w]| && current in line && line[current] == line[w][n..]
        decreases |line[w]| - n
      {
        assert LineAt(next, line, current);
        assert LineAt(next, line, next[current]);
        assert line[w][n + 1..] == line[w][n..][1..];
        current := next[current];
        n := n + 1;
      }
      assert LineAt(next, line, current);
    }

    /**
     * `attachTail`: an IllegalStateException when `a` already has a next
     * wagon or `t` a previous one, with nothing changed; otherwise `t` is
     * linked behind `a`. Attaching the first wagon of `a`'s own chain, which
     * would close a ring, is excluded.
     */
    method AttachTail(a: int, t: int) returns (thrown: bool)
      requires Valid() && a in kinds && t in kinds
      requires a !in next && t !in prev ==> a !in line[t]
      modifies this
      ensures Valid()
      ensures thrown == old(a in next || t in prev)
      ensures thrown ==> next == old(next) && prev == old(prev) && line == old(line)
      ensures !thrown ==> next == old(next)[a := t] && prev == old(prev)[t := a]
                          && line == Attached(old(line), a, t)
    {
      if a in next || t in prev {
        return true;
      }
      AttachLines(next, line, a, t);
      next := next[a := t];
      prev := prev[t := a];
      line := Attached(line, a, t);
      thrown := false;
    }

    /**
     * `detachTail`: the former next wagon of `a`, if any; afterwards neither
     * is linked to the other, and the chains through `a` end at `a`.
     */
    method DetachTail(a: int) returns (r: Option<int>)
      requires Valid() && a in kinds
      modifies this
      ensures Valid()
      ensures r == if a in old(next) then Some(old(next[a])) else None
      ensures next == old(next) - {a} && prev == old(prev) - Ends(old(next), a)
      ensures line == if r.Some? then Detached(old(line), a, |old(line[r.value])|) else old(line)
    {
      if a !in next {
        return None;
      }
      var b := next[a];
      DetachLines(next, line, a);
      next := next - {a};
      prev := prev - {b};
      line := Detached(line, a, |line[b]|);
      r := Some(b);
    }

    /**
     * `detachFront`: the former previous wagon of `w`, if any, whose tail is
     * detached.
     */
    method DetachFront(w: int) returns (r: Option<int>)
      requires Valid() && w in kinds
      modifies this
      ensures Valid()
      ensures r == if w in old(prev) then Some(old(prev[w])) else None
      ensures next == old(next) - Ends(old(prev), w) && prev == old(prev) - {w}
      ensures line == if r.Some? then Detached(old(line), r.value, |old(line[w])|) else old(line)
    {
      if w !in prev {
        return None;
      }
      var p := prev[w];
      var _ := DetachTail(p);
      r := Some(p);
    }

    /** Facts about the chain from `w` after its front is detached. */
    lemma FrontCutKeeps(p: int, w: int)
      requires Valid() && w in prev && prev[w] == p
      ensures p in line && w in line && p !in line[w]
    {
      assert next[p] == w;
      NotInTail(next, line, p);
    }

    /**
     * `reAttachTo`: `w` is detached from its front and `front` from its tail,
     * then `w` is attached behind `front`. `front` must not lie in the chain
     * from `w`, which would close a ring.
     */
    method ReAttachTo(w: int, front: int)
      requires Valid() && w in kinds && front in kinds && front !in line[w]
      modifies this
      ensures Valid()
      ensures next == (old(next) - {front} - Ends(old(prev), w))[front := w]
      ensures prev == (old(prev) - {w} - Ends(old(next), front))[w := front]
      ensures front !in old(next) && w !in old(prev) ==> line == Attached(old(line), front, w)
    {
      Unlink(w, front);
      var _ := AttachTail(front, w);
    }

    /** The detaching half of `reAttachTo`. */
    method Unlink(w: int, front: int)
      requires Valid() && w in kinds && front in kinds && front !in line[w]
      modifies this
      ensures Valid() && front !in next && w !in prev && front !in line[w]
      ensures next == old(next) - {front} - Ends(old(prev), w)
      ensures prev == old(prev) - {w} - Ends(old(next), front)
      ensures front !in old(next) && w !in old(prev) ==> line == old(line)
    {
      ghost var next0, prev0 := next, prev;
      if front in next {
        var _ := DetachTail(front);
        assert next == next0 - {front} && prev == prev0 - Ends(next0, front);
      }
      ghost var next1, prev1 := next, prev;
      assert next1 == next0 - {front} && prev1 == prev0 - Ends(next0, front);
      if w in prev {
        FrontCutKeeps(prev[w], w);
        var _ := DetachFront(w);
        assert next == next1 - Ends(prev1, w) && prev == prev1 - {w};
      }
      assert next == next1 - Ends(prev1, w) && prev == prev1 - {w};
      UnlinkMaps(next0, prev0, front, w);
    }

    /**
     * `removeFromSequence`: `w` ends up with no neighbours; a wagon that was in
     * front of it is linked to the one that was behind it, when both exist.
     */
    method RemoveFromSequence(w: int)
      requires Valid() && w in kinds
      modifies this
      ensures Valid() && w !in next && w !in prev
      ensures w in old(prev) && w in old(next) ==>
                next == (old(next) - {w})[old(prev[w]) := old(next[w])]
                && prev == (old(prev) - {w})[old(next[w]) := old(prev[w])]
      ensures !(w in old(prev) && w in old(next)) ==>
                next == old(next) - {w} - Ends(old(prev), w)
                && prev == old(prev) - {w} - Ends(old(next), w)
    {
      if w in next && w in prev {
        Bypass(w);
      } else {
        ghost var next0, prev0 := next, prev;
        if w in prev {
          FrontCutKeeps(prev[w], w);
          assert LineAt(next, line, w);
        }
        var _ := DetachFront(w);
        ghost var next1 := next;
        var _ := DetachTail(w);
        IsolateMaps(next0, prev0, w);
      }
    }

    /** The branch of `removeFromSequence` for a wagon with neighbours on both sides. */
    method Bypass(w: int)
      requires Valid() && w in kinds && w in next && w in prev
      modifies this
      ensures Valid() && w !in next && w !in prev
      ensures next == (old(next) - {w})[old(prev[w]) := old(next[w])]
      ensures prev == (old(prev) - {w})[old(next[w]) := old(prev[w])]
    {
      var previous, following := prev[w], next[w];
      FrontCutKeeps(previous, w);
      NotInTail(next, line, w);
      assert LineAt(next, line, w);
      ghost var chain := line[following];
      ghost var next0, prev0 := next, prev;
      assert previous !in chain && w !in chain;
      assert previous != w;
      var _ := DetachFront(w);
      assert w in next && next[w] == following;
      assert line[following] == chain;
      var _ := DetachTail(w);
      assert line[following] == chain;
      ghost var next2, prev2 := next, prev;
      assert next2 == next0 - {previous} - {w} && prev2 == prev0 - {w} - {following};
      ReAttachTo(following, previous);
      BypassMaps(next0, prev0, previous, w, following);
    }
  }
}
