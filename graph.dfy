/**
 * The directed graph of the graph assignment: vertices stored by id, edges
 * in a nested map keyed by from-vertex and then to-vertex, and the
 * depth-first, breadth-first and Dijkstra-style searches over it.
 * Vertex equality (`equals`) is modelled as value equality, and `getId` as
 * the function `idOf`. Neighbour lists come out of hash maps in an order
 * the model leaves open: every search is proved for every order.
 */
module Graphs {
  import opened Wrappers

  /** No element occurs twice. */
  predicate Distinct<T(==)>(s: seq<T>) {
    forall i, j :: 0 <= i < j < |s| ==> s[i] != s[j]
  }

  /** The elements of a sequence. */
  function Elems<T(!new)>(s: seq<T>): (r: set<T>)
    ensures forall x :: x in r <==> x in s
  {
    set x | x in s
  }

  /** The elements of a concatenation. */
  lemma ElemsAppend<T(!new)>(a: seq<T>, b: seq<T>)
    ensures Elems(a + b) == Elems(a) + Elems(b)
  {
    assert forall x :: x in a + b <==> x in a || x in b;
  }

  /** The elements of a non-empty sequence: its head and the elements of its tail. */
  lemma ElemsHead<T(!new)>(s: seq<T>)
    requires s != []
    ensures Elems(s) == {s[0]} + Elems(s[1..])
  {
    assert s == [s[0]] + s[1..];
    ElemsAppend([s[0]], s[1..]);
  }

  /** A sequence is empty exactly when it has no elements. */
  lemma ElemsEmpty<T(!new)>(s: seq<T>)
    ensures Elems(s) == {} <==> s == []
  {
    if s != [] {
      assert s[0] in Elems(s);
    }
  }

  /** Two repetition-free sequences with no common element concatenate to one. */
  lemma DistinctAppend<T(!new)>(a: seq<T>, b: seq<T>)
    requires Distinct(a) && Distinct(b) && Elems(a) !! Elems(b)
    ensures Distinct(a + b)
  {
    forall i, j | 0 <= i < j < |a + b|
      ensures (a + b)[i] != (a + b)[j]
    {
      if i < |a| <= j {
        assert (a + b)[i] in Elems(a) && (a + b)[j] in Elems(b);
      }
    }
  }

  /**
   * The queue of a breadth-first round: a repetition-free tail of the
   * enqueue history stays one when its head is polled and new vertices
   * `added`, each once, are offered to both.
   */
  lemma QueueAfterRound<T(!new)>(reached: set<T>, enqueued: seq<T>, queue: seq<T>, added: seq<T>)
    requires queue != [] && Distinct(queue) && Elems(queue) <= reached
    requires |queue| <= |enqueued| && enqueued[|enqueued| - |queue|..] == queue
    requires Distinct(added) && Elems(added) !! reached
    ensures var q' := queue[1..] + added; var e' := enqueued + added;
            Distinct(q') && |q'| <= |e'| && e'[|e'| - |q'|..] == q'
  {
    ElemsHead(queue);
    DistinctAppend(queue[1..], added);
    var k := |enqueued| - |queue|;
    assert (enqueued + added)[k + 1..] == enqueued[k + 1..] + added;
    assert enqueued[k + 1..] == enqueued[k..][1..];
  }

  /**
   * After a round the reached vertices are the finished ones, the polled
   * head among them, and those still queued.
   */
  lemma KeysAfterRound<T(!new)>(reached: set<T>, reached': set<T>, done: set<T>, queue: seq<T>, added: seq<T>)
    requires queue != [] && reached == done + Elems(queue) && reached' == reached + Elems(added)
    ensures reached' == (done + {queue[0]}) + Elems(queue[1..] + added)
  {
    ElemsHead(queue);
    ElemsAppend(queue[1..], added);
  }

  /** Appending one element after a concatenation appends it to its second part. */
  lemma AppendOne<T>(a: seq<T>, b: seq<T>, x: T)
    ensures (a + b) + [x] == a + (b + [x])
  {
  }

  /** Offering one more new vertex keeps the offered vertices new and each offered once. */
  lemma AddedGrows<T(!new)>(before: set<T>, reached: set<T>, added: seq<T>, n: T)
    requires Distinct(added) && Elems(added) !! before && Elems(added) <= reached
    requires n !in reached && n !in before
    ensures Distinct(added + [n]) && Elems(added + [n]) !! before
    ensures Elems(added + [n]) == Elems(added) + {n}
  {
    ElemsAppend(added, [n]);
    DistinctAppend(added, [n]);
  }

  /** `DGPath`: the vertex list (null when absent), the total weight and the visited set. */
  datatype Path<V> = Path(vertices: Option<seq<V>>, totalWeight: nat, visited: set<V>)

  /** What a search ends with: null, a path, or an exception. */
  datatype SearchResult<V> =
    | Null
    | Returned(path: Path<V>)
    | NullPointerThrown
    | OutOfFuel            // the search did not end within the fuel it was given

  /** What `dfsRecursive` ends with. */
  datatype Walk<V> = Found(path: seq<V>) | NoPath | Crash

  /** How one round of the breadth-first search ends. */
  datatype Round<V> = Expanded | Reached(vs: seq<V>) | Crashed

  /**
   * `DSPNode` of a vertex: the vertex its best walk so far comes from (none
   * for the start), whether it is marked complete, and that walk's weight.
   */
  datatype DspNode<V> = DspNode(fromVertex: Option<V>, marked: bool, weightSumTo: nat)

  /**
   * The relaxation step of `dijkstraShortestPath`: a candidate weight below
   * the node's replaces it, with `from` as the new predecessor; otherwise the
   * node stays as it is.
   */
  function Relax<V>(node: DspNode<V>, candidate: nat, from: V): (r: DspNode<V>)
    ensures r.weightSumTo <= node.weightSumTo && r.weightSumTo <= candidate
    ensures r.marked == node.marked
    ensures r == node || (r.fromVertex == Some(from) && r.weightSumTo == candidate < node.weightSumTo)
  {
    if candidate < node.weightSumTo then node.(weightSumTo := candidate, fromVertex := Some(from)) else node
  }

  /**
   * The node map after `neighbour` is seen with `candidate` as the weight
   * through `from`. A vertex without a node gets a new one, which starts at
   * `Double.MAX_VALUE` and so always takes the (finite) candidate.
   */
  function Reach<V>(nodes: map<V, DspNode<V>>, neighbour: V, candidate: nat, from: V): (r: map<V, DspNode<V>>)
    ensures r.Keys == nodes.Keys + {neighbour}
    ensures forall v :: v in nodes && v != neighbour ==> r[v] == nodes[v]
    ensures neighbour in nodes ==> r[neighbour] == Relax(nodes[neighbour], candidate, from)
    ensures neighbour !in nodes ==> r[neighbour] == DspNode(Some(from), false, candidate)
  {
    if neighbour in nodes then nodes[neighbour := Relax(nodes[neighbour], candidate, from)]
    else nodes[neighbour := DspNode(Some(from), false, candidate)]
  }

  /**
   * The selection at the end of a `dijkstraShortestPath` round: the nodes in
   * set order, keeping the last unmarked one whose weight is at most the
   * least seen so far (`Double.MAX_VALUE` at first); none when every node
   * is marked.
   */
  method SelectNext<V(==)>(nodes: map<V, DspNode<V>>) returns (next: Option<V>)
    ensures next.None? <==> forall v :: v in nodes ==> nodes[v].marked
    ensures next.Some? ==> next.value in nodes && !nodes[next.value].marked
                           && forall v :: v in nodes && !nodes[v].marked ==> nodes[next.value].weightSumTo <= nodes[v].weightSumTo
  {
    var order := Enumerate(nodes.Keys);
    var leastWeight: Option<nat> := None;
    next := None;
    for i := 0 to |order|
      invariant next.None? <==> forall k :: 0 <= k < i ==> nodes[order[k]].marked
      invariant next.None? ==> leastWeight.None?
      invariant next.Some? ==> next.value in nodes && !nodes[next.value].marked
                               && leastWeight == Some(nodes[next.value].weightSumTo)
                               && forall k :: 0 <= k < i && !nodes[order[k]].marked ==>
                                    nodes[next.value].weightSumTo <= nodes[order[k]].weightSumTo
    {
      var node := nodes[order[i]];
      if !node.marked && (leastWeight.None? || leastWeight.value >= node.weightSumTo) {
        leastWeight := Some(node.weightSumTo);
        next := Some(order[i]);
      }
    }
  }

  /** The elements of `s`, once each, in an order left open. */
  method Enumerate<T(==)>(s: set<T>) returns (ns: seq<T>)
    ensures Distinct(ns)
    ensures forall x :: x in ns <==> x in s
  {
    ns := [];
    var rest := s;
    while rest != {}
      invariant Distinct(ns)
      invariant forall x :: x in s <==> x in ns || x in rest
      invariant forall x :: x in ns ==> x !in rest
      decreases |rest|
    {
      ghost var w := SomeElement(rest);
      var x :| x in rest;
      ns := ns + [x];
      rest := rest - {x};
    }
  }

  /** Removing more of a finite set leaves less of it. */
  lemma ShrinkingRest<T>(u: set<T>, before: set<T>, after: set<T>, x: T)
    requires before + {x} <= after && x in u && x !in before
    ensures |u - after| < |u - before|
  {
    var big, small := u - before, u - after;
    assert small <= big - {x};
    assert big == (big - {x}) + {x};
    assert |small| <= |big - {x}| by {
      assert big - {x} == small + ((big - {x}) - small);
    }
  }

  /** The (from, to) pairs of a nested edge map. */
  function PairsOf<V(!new), E>(m: map<V, map<V, E>>): (s: set<(V, V)>)
    ensures forall a, b :: (a, b) in s <==> a in m && b in m[a]
  {
    set a, b | a in m && b in m[a] :: (a, b)
  }

  /** The nested edge map with `e` put in for `f -> t`. */
  function PutEdge<V, E>(m: map<V, map<V, E>>, f: V, t: V, e: E): (r: map<V, map<V, E>>)
    ensures f in r && t in r[f] && r[f][t] == e
  {
    m[f := (if f in m then m[f] else map[])[t := e]]
  }

  /** Putting in an edge adds its pair and leaves every other edge as it was. */
  lemma PutEdgeEffect<V(!new), E>(m: map<V, map<V, E>>, f: V, t: V, e: E)
    ensures PairsOf(PutEdge(m, f, t, e)) == PairsOf(m) + {(f, t)}
    ensures forall a, b :: (a, b) != (f, t) ==>
              var r := PutEdge(m, f, t, e);
              (a in r && b in r[a] <==> a in m && b in m[a]) && (a in m && b in m[a] ==> r[a][b] == m[a][b])
  {
  }

  /** Every vertex is stored under its own id. */
  ghost predicate KeyedById<V>(vs: map<string, V>, idOf: V -> string) {
    forall id :: id in vs ==> idOf(vs[id]) == id
  }

  /** `putIfAbsent(idOf(v), v)` on a vertex map. */
  function PutIfAbsent<V>(vs: map<string, V>, v: V, idOf: V -> string): (r: map<string, V>)
    ensures idOf(v) in r && r.Keys == vs.Keys + {idOf(v)}
    ensures forall id :: id in vs ==> r[id] == vs[id]
    ensures KeyedById(vs, idOf) ==> KeyedById(r, idOf)
  {
    if idOf(v) in vs then vs else vs[idOf(v) := v]
  }

  class DirectedGraph<V(==,!new), E> {
    /** `getId` of the vertices. */
    const idOf: V -> string
    var vertices: map<string, V>
    var edges: map<V, map<V, E>>

    /** Every vertex is stored under its own id. */
    ghost predicate Valid()
      reads this
    {
      KeyedById(vertices, idOf)
    }

    constructor (idOf: V -> string)
      ensures Valid() && this.idOf == idOf && vertices == map[] && edges == map[]
    {
      this.idOf := idOf;
      vertices := map[];
      edges := map[];
    }

    /** There is an edge from `a` to `b`. */
    predicate HasEdge(a: V, b: V)
      reads this
    {
      a in edges && b in edges[a]
    }

    /** The vertices at the end of some edge. */
    ghost function Targets(): set<V>
      reads this
    {
      set a, b | a in edges && b in edges[a] :: b
    }

    /** Every vertex the graph mentions: stored ones and edge endpoints. */
    ghost function Universe(): set<V>
      reads this
    {
      vertices.Values + edges.Keys + Targets()
    }

    lemma TargetInUniverse(a: V, b: V)
      requires HasEdge(a, b)
      ensures b in Universe()
    {
      assert b in Targets();
    }

    /** `p` is a non-empty walk along recorded edges. */
    ghost predicate IsEdgePath(p: seq<V>)
      reads this
    {
      |p| > 0 && forall i :: 0 <= i < |p| - 1 ==> HasEdge(p[i], p[i + 1])
    }

    /** Some walk along recorded edges leads from `a` to `b`. */
    ghost predicate Reaches(a: V, b: V)
      reads this
    {
      exists p :: IsEdgePath(p) && p[0] == a && p[|p| - 1] == b
    }

    /** Every edge out of `s` ends in `t`. */
    ghost predicate ClosedUnder(s: set<V>, t: set<V>)
      reads this
    {
      forall a, b :: a in s && HasEdge(a, b) ==> b in t
    }

    /** A walk that starts in an edge-closed set stays in it. */
    lemma {:induction false} WalkStaysIn(p: seq<V>, s: set<V>, k: int)
      requires IsEdgePath(p) && p[0] in s && ClosedUnder(s, s)
      requires 0 <= k < |p|
      ensures p[k] in s
    {
      if k > 0 {
        WalkStaysIn(p, s, k - 1);
        assert HasEdge(p[k - 1], p[k]);
      }
    }

    /** No walk leaves an edge-closed set. */
    lemma ClosedBlocks(s: set<V>, a: V, b: V)
      requires ClosedUnder(s, s) && a in s && b !in s
      ensures !Reaches(a, b)
    {
      forall p | IsEdgePath(p) && p[0] == a
        ensures p[|p| - 1] != b
      {
        WalkStaysIn(p, s, |p| - 1);
      }
    }

    /** Every vertex reaches itself, by the walk of one vertex. */
    lemma ReachesSelf(a: V)
      ensures Reaches(a, a)
    {
      assert IsEdgePath([a]);
    }

    /** A walk to `b` goes on along an edge out of `b`. */
    lemma ReachesStep(a: V, b: V, c: V)
      requires Reaches(a, b) && HasEdge(b, c)
      ensures Reaches(a, c)
    {
      var p :| IsEdgePath(p) && p[0] == a && p[|p| - 1] == b;
      var q := p + [c];
      assert forall i :: 0 <= i < |p| ==> q[i] == p[i];
      assert IsEdgePath(q);
    }

    /** `getVertexById`: the vertex stored under `id`, or null. */
    function GetVertexById(id: string): (r: Option<V>)
      reads this
      ensures r.Some? <==> id in vertices
      ensures r.Some? ==> r.value == vertices[id] && (Valid() ==> idOf(r.value) == id)
    {
      if id in vertices then Some(vertices[id]) else None
    }

    /** `getEdge`: the edge from `from` to `to`, or null. */
    function GetEdge(from: Option<V>, to: Option<V>): (r: Option<E>)
      reads this
      ensures r.Some? <==> from.Some? && to.Some? && HasEdge(from.value, to.value)
      ensures r.Some? ==> r.value == edges[from.value][to.value]
    {
      if from.None? || to.None? then None
      else if from.value in edges && to.value in edges[from.value] then Some(edges[from.value][to.value])
      else None
    }

    /** `getEdge` by ids. */
    function GetEdgeById(fromId: string, toId: string): (r: Option<E>)
      reads this
      ensures r.Some? <==> fromId in vertices && toId in vertices && HasEdge(vertices[fromId], vertices[toId])
    {
      GetEdge(GetVertexById(fromId), GetVertexById(toId))
    }

    /** `getNumVertices`. */
    function NumVertices(): (n: nat)
      reads this
      ensures n == |vertices.Keys|
    {
      |vertices|
    }

    /** The recorded edges as (from, to) pairs. */
    function EdgePairs(): (s: set<(V, V)>)
      reads this
      ensures forall a, b :: (a, b) in s <==> HasEdge(a, b)
    {
      PairsOf(edges)
    }

    /** `getNumEdges`: the sizes of the inner maps added up, one per (from, to) pair. */
    function NumEdges(): (n: nat)
      reads this
      ensures n == |EdgePairs()|
    {
      |EdgePairs()|
    }

    /**
     * `getNeighbours`: null for null or a vertex that is not stored; otherwise
     * every vertex with an edge from `from`, once each, in hash-map order.
     */
    method GetNeighbours(from: Option<V>) returns (r: Option<seq<V>>)
      ensures r.None? <==> from.None? || from.value !in vertices.Values
      ensures r.Some? ==> Distinct(r.value) && forall n :: n in r.value <==> HasEdge(from.value, n)
    {
      if from.None? || from.value !in vertices.Values {
        return None;
      }
      var out := if from.value in edges then edges[from.value].Keys else {};
      var ns := Enumerate(out);
      return Some(ns);
    }

    /**
     * `addOrGetVertex`: a vertex with a new id is stored and returned; for a
     * known id the stored vertex is returned and nothing changes.
     */
    method AddOrGetVertex(v: V) returns (r: V)
      requires Valid()
      modifies this
      ensures Valid() && edges == old(edges)
      ensures idOf(v) !in old(vertices) ==> r == v && vertices == old(vertices)[idOf(v) := v]
      ensures idOf(v) in old(vertices) ==> r == old(vertices)[idOf(v)] && vertices == old(vertices)
      ensures idOf(r) == idOf(v)
    {
      if idOf(v) !in vertices {
        vertices := vertices[idOf(v) := v];
        return v;
      }
      return vertices[idOf(v)];
    }

    /** `addEdge` succeeds: two distinct vertices without an edge between them. */
    predicate CanAdd(from: Option<V>, to: Option<V>)
      reads this
    {
      from.Some? && to.Some? && from.value != to.value && GetEdge(from, to).None?
    }

    /**
     * `addEdge`: refused for a null end, a loop or an existing edge; otherwise
     * both ends are put into the vertex map if their ids are new, and the edge
     * goes into the inner map of `from`.
     */
    method AddEdge(from: Option<V>, to: Option<V>, e: E) returns (added: bool)
      requires Valid()
      modifies this
      ensures Valid()
      ensures added <==> old(CanAdd(from, to))
      ensures !added ==> vertices == old(vertices) && edges == old(edges)
      ensures added ==> vertices == PutIfAbsent(PutIfAbsent(old(vertices), from.value, idOf), to.value, idOf)
      ensures added ==> edges == PutEdge(old(edges), from.value, to.value, e)
      ensures added ==> GetEdge(from, to) == Some(e) && idOf(from.value) in vertices && idOf(to.value) in vertices
      ensures added ==> EdgePairs() == old(EdgePairs()) + {(from.value, to.value)} && NumEdges() == old(NumEdges()) + 1
    {
      if !CanAdd(from, to) {
        return false;
      }
      var f, t := from.value, to.value;
      PutEdgeEffect(edges, f, t, e);
      vertices := PutIfAbsent(PutIfAbsent(vertices, f, idOf), t, idOf);
      edges := PutEdge(edges, f, t, e);
      return true;
    }

    /** `addEdge` by ids: refused for an unknown id, otherwise as `AddEdge`. */
    method AddEdgeById(fromId: string, toId: string, e: E) returns (added: bool)
      requires Valid()
      modifies this
      ensures Valid()
      ensures added <==> old(CanAdd(GetVertexById(fromId), GetVertexById(toId)))
      ensures fromId !in old(vertices) || toId !in old(vertices) ==> !added
      ensures !added ==> vertices == old(vertices) && edges == old(edges)
      ensures added ==> vertices == old(vertices) && HasEdge(vertices[fromId], vertices[toId])
      ensures added ==> EdgePairs() == old(EdgePairs()) + {(vertices[fromId], vertices[toId])}
    {
      added := AddEdge(GetVertexById(fromId), GetVertexById(toId), e);
    }

    /**
     * `addConnection`: the edge `v1 -> v2`, and only if that one was added,
     * the edge `v2 -> v1`; true when both were added. A first edge stays when
     * the second is refused.
     */
    method AddConnection(v1: Option<V>, v2: Option<V>, e: E) returns (both: bool)
      requires Valid()
      modifies this
      ensures Valid()
      ensures !old(CanAdd(v1, v2)) ==> !both && vertices == old(vertices) && edges == old(edges)
      ensures old(CanAdd(v1, v2)) ==> GetEdge(v1, v2) == Some(e)
      ensures both <==> old(CanAdd(v1, v2)) && old(CanAdd(v2, v1))
      ensures both ==> GetEdge(v2, v1) == Some(e)
                       && EdgePairs() == old(EdgePairs()) + {(v1.value, v2.value), (v2.value, v1.value)}
      ensures old(CanAdd(v1, v2)) && !both ==> EdgePairs() == old(EdgePairs()) + {(v1.value, v2.value)}
    {
      var first := AddEdge(v1, v2, e);
      if !first {
        return false;
      }
      assert CanAdd(v2, v1) == old(CanAdd(v2, v1));
      ghost var mid := edges;
      both := AddEdge(v2, v1, e);
      if both {
        PutEdgeEffect(mid, v2.value, v1.value, e);
      }
    }

    /**
     * `removeUnconnectedVertices`: drops the empty inner maps, then every
     * stored vertex that has no outgoing edge.
     */
    method RemoveUnconnectedVertices()
      requires Valid()
      modifies this
      ensures Valid()
      ensures EdgePairs() == old(EdgePairs())
      ensures forall a :: a in edges <==> a in old(edges) && |old(edges[a])| != 0
      ensures forall a :: a in edges ==> edges[a] == old(edges[a])
      ensures forall a, b :: HasEdge(a, b) ==> edges[a][b] == old(edges[a][b])
      ensures forall id :: id in vertices ==> id in old(vertices) && vertices[id] == old(vertices[id])
      ensures forall id :: id in vertices ==> exists b :: HasEdge(vertices[id], b)
      ensures forall id :: id in old(vertices) && (exists b :: old(HasEdge(vertices[id], b))) ==> id in vertices
    {
      edges := map a | a in edges && |edges[a]| != 0 :: edges[a];
      vertices := map id | id in vertices && vertices[id] in edges :: vertices[id];
      forall id | id in vertices
        ensures exists b :: HasEdge(vertices[id], b)
      {
        var a := vertices[id];
        var b := SomeElement(edges[a].Keys);
        assert HasEdge(a, b);
      }
      assert EdgePairs() == old(EdgePairs());
    }

    /**
     * `p` is a walk without repeats from `from` to `to` whose vertices are all
     * in `after` and none in `before`.
     */
    ghost predicate FreshWalk(p: seq<V>, from: V, to: V, before: set<V>, after: set<V>)
      reads this
    {
      IsEdgePath(p) && p[0] == from && p[|p| - 1] == to && Distinct(p)
      && forall i :: 0 <= i < |p| ==> p[i] in after && p[i] !in before
    }

    /** A fresh walk from a successor of `current` extends to one from `current`. */
    lemma ExtendWalk(current: V, n: V, p: seq<V>, to: V, visited: set<V>, before: set<V>, after: set<V>)
      requires FreshWalk(p, n, to, before, after) && HasEdge(current, n)
      requires visited + {current} <= before <= after && current !in visited
      ensures FreshWalk([current] + p, current, to, visited, after)
    {
      var q := [current] + p;
      assert forall k :: 1 <= k < |q| ==> q[k] == p[k - 1];
      assert HasEdge(q[0], q[1]);
    }

    /** What a call that found nothing adds to the visited set keeps the closure. */
    lemma ClosedAfterCall(visited: set<V>, current: V, before: set<V>, after: set<V>)
      requires visited + {current} <= before <= after
      requires ClosedUnder(before - visited - {current}, before) && ClosedUnder(after - before, after)
      ensures ClosedUnder(after - visited - {current}, after)
    {
      assert after - visited - {current} == (before - visited - {current}) + (after - before);
    }

    /** Once all its successors are visited, `current` joins the closed part. */
    lemma ClosedWithCurrent(visited: set<V>, current: V, after: set<V>)
      requires ClosedUnder(after - visited - {current}, after)
      requires forall n :: HasEdge(current, n) ==> n in after
      ensures ClosedUnder(after - visited, after)
    {
      assert after - visited <= (after - visited - {current}) + {current};
    }

    /**
     * `dfsRecursive`: null when `current` was visited already; otherwise it is
     * visited, and either is the target or the unvisited neighbours are tried
     * in turn. A found path is a walk from `current` to the target through
     * vertices this call visited. When nothing is found, the vertices this
     * call visited have all their successors visited.
     */
    method DfsRecursive(current: V, target: V, visited: set<V>) returns (r: Walk<V>, after: set<V>)
      requires current in Universe() && visited <= Universe()
      ensures visited <= after <= Universe() && current in after
      ensures r.Found? ==> FreshWalk(r.path, current, target, visited, after)
      ensures r.NoPath? && target !in visited ==> target !in after && ClosedUnder(after - visited, after)
      decreases |Universe() - visited|
    {
      if current in visited {
        return NoPath, visited;
      }
      after := visited + {current};
      if current == target {
        return Found([current]), after;
      }
      var ns := GetNeighbours(Some(current));
      if ns.None? {
        return Crash, after;
      }
      var neighbours := ns.value;
      for i := 0 to |neighbours|
        invariant visited + {current} <= after <= Universe()
        invariant forall k :: 0 <= k < i ==> neighbours[k] in after
        invariant target !in visited ==> target !in after && ClosedUnder(after - visited - {current}, after)
      {
        var n := neighbours[i];
        if n !in after {
          TargetInUniverse(current, n);
          ShrinkingRest(Universe(), visited, after, current);
          ghost var before := after;
          var sub, subAfter := DfsRecursive(n, target, after);
          after := subAfter;
          if sub.Crash? {
            return Crash, after;
          }
          if sub.Found? {
            ExtendWalk(current, n, sub.path, target, visited, before, after);
            return Found([current] + sub.path), after;
          }
          if target !in visited {
            ClosedAfterCall(visited, current, before, after);
          }
        }
      }
      if target !in visited {
        ClosedWithCurrent(visited, current, after);
      }
      return NoPath, after;
    }

    /**
     * `depthFirstSearch`: null for an unknown id; `[start]` when start is the
     * target; otherwise the path `dfsRecursive` finds, whose vertex list is
     * null when it finds none, in which case no walk leads to the target.
     */
    method DepthFirstSearch(startId: string, targetId: string) returns (r: SearchResult<V>)
      ensures r == Null <==> startId !in vertices || targetId !in vertices
      ensures r != Null && vertices[startId] == vertices[targetId] ==>
                r == Returned(Path(Some([vertices[startId]]), 0, {vertices[startId]}))
      ensures r.Returned? && r.path.vertices.Some? ==>
                FreshWalk(r.path.vertices.value, vertices[startId], vertices[targetId], {}, r.path.visited)
                && r.path.totalWeight == 0
      ensures r.Returned? && r.path.vertices.None? ==> !Reaches(vertices[startId], vertices[targetId])
    {
      var s, t := GetVertexById(startId), GetVertexById(targetId);
      if s.None? || t.None? {
        return Null;
      }
      var start, target := s.value, t.value;
      if start == target {
        return Returned(Path(Some([start]), 0, {target}));
      }
      var walk, visited := DfsRecursive(start, target, {});
      match walk
      case Crash =>
        r := NullPointerThrown;
      case NoPath =>
        assert visited - {} == visited;
        ClosedBlocks(visited, start, target);
        r := Returned(Path(None, 0, visited));
      case Found(p) =>
        r := Returned(Path(Some(p), 0, visited));
    }

    /** The entry of `v` points back to a reached vertex of smaller depth. */
    ghost predicate PointsBack(visitedFrom: map<V, Option<V>>, depth: map<V, nat>, v: V) {
      v in visitedFrom && v in depth
      && (visitedFrom[v].Some? ==>
            visitedFrom[v].value in visitedFrom && visitedFrom[v].value in depth
            && depth[visitedFrom[v].value] < depth[v])
    }

    /**
     * The search tree of the breadth-first search: `visitedFrom` maps each
     * reached vertex to the one it was reached from (start: none), `depth`
     * strictly grows along that map, every reached vertex is reachable from
     * the start, and `enqueued` lists each reached vertex once.
     */
    ghost predicate SearchTree(start: V, target: V, visitedFrom: map<V, Option<V>>, depth: map<V, nat>, enqueued: seq<V>)
      reads this
    {
      start in visitedFrom && target !in visitedFrom && visitedFrom.Keys <= Universe()
      && (forall v {:trigger PointsBack(visitedFrom, depth, v)} :: v in visitedFrom ==> PointsBack(visitedFrom, depth, v))
      && (forall v {:trigger Reaches(start, v)} :: v in visitedFrom ==> Reaches(start, v))
      && Distinct(enqueued) && (forall v :: v in enqueued <==> v in visitedFrom)
    }

    /**
     * The `for` loop of `breadthFirstSearch` over the neighbours of `cur`:
     * each neighbour is marked visited; the target ends the loop (`hit`);
     * any other neighbour not reached before is recorded as reached from
     * `cur` and queued. The queued vertices `added` are new, each is queued
     * once, and they are exactly what is appended to the enqueue history.
     */
    method ExpandVertex(start: V, target: V, cur: V, neighbours: seq<V>,
                        visitedFrom: map<V, Option<V>>, ghost depth: map<V, nat>, ghost enqueued: seq<V>,
                        queue: seq<V>, visited: set<V>)
      returns (hit: bool, visitedFrom': map<V, Option<V>>, ghost depth': map<V, nat>, ghost enqueued': seq<V>,
               queue': seq<V>, visited': set<V>, ghost added: seq<V>)
      requires SearchTree(start, target, visitedFrom, depth, enqueued) && cur in visitedFrom
      requires forall n :: n in neighbours <==> HasEdge(cur, n)
      ensures SearchTree(start, target, visitedFrom', depth', enqueued')
      ensures visited <= visited' && visitedFrom.Keys <= visitedFrom'.Keys
      ensures queue' == queue + added && visitedFrom'.Keys == visitedFrom.Keys + Elems(added)
      ensures enqueued' == enqueued + added && Distinct(added) && Elems(added) !! visitedFrom.Keys
      ensures forall n :: n in added ==> HasEdge(cur, n)
      ensures hit ==> target in visited' && HasEdge(cur, target)
      ensures !hit ==> forall n :: HasEdge(cur, n) ==> n in visitedFrom'
    {
      visitedFrom', depth', enqueued', queue', visited' := visitedFrom, depth, enqueued, queue, visited;
      added := [];
      assert queue + [] == queue && enqueued + [] == enqueued;
      for i := 0 to |neighbours|
        invariant Expansion(start, target, cur, visitedFrom, enqueued, queue, visitedFrom', depth', enqueued', queue', added)
        invariant visited <= visited'
        invariant forall k :: 0 <= k < i ==> neighbours[k] in visitedFrom'
      {
        var n := neighbours[i];
        visited' := visited' + {n};
        if n == target {
          return true, visitedFrom', depth', enqueued', queue', visited', added;
        } else if n !in visitedFrom' {
          ExpansionStep(start, target, cur, visitedFrom, enqueued, queue, visitedFrom', depth', enqueued', queue', added, n);
          visitedFrom' := visitedFrom'[n := Some(cur)];
          depth' := depth'[n := depth'[cur] + 1];
          enqueued' := enqueued' + [n];
          queue' := queue' + [n];
          added := added + [n];
        }
      }
      hit := false;
    }

    /**
     * The state of the expansion of `cur` after some of its neighbours: the
     * search tree grown by the vertices `added` so far, which are successors
     * of `cur` not reached before, each once, and have been offered to both
     * the queue and the enqueue history.
     */
    ghost predicate Expansion(start: V, target: V, cur: V, visitedFrom: map<V, Option<V>>, enqueued: seq<V>, queue: seq<V>,
                              visitedFrom': map<V, Option<V>>, depth': map<V, nat>, enqueued': seq<V>, queue': seq<V>,
                              added: seq<V>)
      reads this
    {
      SearchTree(start, target, visitedFrom', depth', enqueued') && cur in visitedFrom'
      && visitedFrom'.Keys == visitedFrom.Keys + Elems(added)
      && queue' == queue + added && enqueued' == enqueued + added
      && Distinct(added) && Elems(added) !! visitedFrom.Keys
      && (forall n :: n in added ==> HasEdge(cur, n))
    }

    /** Offering a successor of `cur` that was not reached before keeps the expansion state. */
    lemma ExpansionStep(start: V, target: V, cur: V, visitedFrom: map<V, Option<V>>, enqueued: seq<V>, queue: seq<V>,
                        visitedFrom': map<V, Option<V>>, depth': map<V, nat>, enqueued': seq<V>, queue': seq<V>,
                        added: seq<V>, n: V)
      requires Expansion(start, target, cur, visitedFrom, enqueued, queue, visitedFrom', depth', enqueued', queue', added)
      requires HasEdge(cur, n) && n !in visitedFrom' && n != target
      ensures cur in depth'
      ensures Expansion(start, target, cur, visitedFrom, enqueued, queue,
                        visitedFrom'[n := Some(cur)], depth'[n := depth'[cur] + 1], enqueued' + [n], queue' + [n], added + [n])
    {
      GrowTree(start, target, cur, n, visitedFrom', depth', enqueued');
      AddedGrows(visitedFrom.Keys, visitedFrom'.Keys, added, n);
      AppendOne(enqueued, added, n);
      AppendOne(queue, added, n);
    }

    /**
     * Recording `n`, a successor of the reached vertex `cur` that was not
     * reached before, as reached from `cur` keeps the search tree.
     */
    lemma GrowTree(start: V, target: V, cur: V, n: V, visitedFrom: map<V, Option<V>>, depth: map<V, nat>, enqueued: seq<V>)
      requires SearchTree(start, target, visitedFrom, depth, enqueued) && cur in visitedFrom
      requires HasEdge(cur, n) && n !in visitedFrom && n != target
      ensures cur in depth && visitedFrom[n := Some(cur)].Keys == visitedFrom.Keys + {n}
      ensures SearchTree(start, target, visitedFrom[n := Some(cur)], depth[n := depth[cur] + 1], enqueued + [n])
    {
      TargetInUniverse(cur, n);
      assert PointsBack(visitedFrom, depth, cur);
      var vf, d := visitedFrom[n := Some(cur)], depth[n := depth[cur] + 1];
      forall v | v in vf
        ensures PointsBack(vf, d, v)
      {
        if v != n {
          assert PointsBack(visitedFrom, depth, v);
        }
      }
      ReachesStep(start, cur, n);
      var e := enqueued + [n];
      assert forall v :: v in e <==> v in enqueued || v == n;
    }

    /**
     * The path building of `breadthFirstSearch`: after start and `cur`, the
     * target is added once, while the `visitedFrom` chain is walked back from
     * `cur` to the start.
     */
    method TraceBack(start: V, cur: V, n: V, visitedFrom: map<V, Option<V>>, ghost depth: map<V, nat>) returns (vs: seq<V>)
      requires cur in visitedFrom && n != start && n != cur
      requires forall v {:trigger PointsBack(visitedFrom, depth, v)} :: v in visitedFrom ==> PointsBack(visitedFrom, depth, v)
      ensures vs == [start, cur, n]
    {
      vs := [start, cur];
      var c := Some(cur);
      assert PointsBack(visitedFrom, depth, cur);
      while c.Some?
        invariant c.Some? ==> c.value in visitedFrom && PointsBack(visitedFrom, depth, c.value)
        invariant vs == [start, cur, n] || (vs == [start, cur] && c == Some(cur))
        decreases if c.Some? then depth[c.value] + 1 else 0
      {
        if n !in vs {
          vs := vs + [n];
        }
        c := visitedFrom[c.value];
        if c.Some? {
          assert PointsBack(visitedFrom, depth, c.value);
        }
      }
    }

    /**
     * The state of the breadth-first search between rounds: the search tree,
     * the finished vertices `done` (all their successors reached) and the
     * queue holding exactly the reached vertices not yet finished, each
     * once, as the tail of the enqueue history.
     */
    ghost predicate Frontier(start: V, target: V, visitedFrom: map<V, Option<V>>, depth: map<V, nat>, enqueued: seq<V>,
                             done: set<V>, queue: seq<V>, visited: set<V>)
      reads this
    {
      SearchTree(start, target, visitedFrom, depth, enqueued) && start in visited
      && Pending(visitedFrom.Keys, enqueued, done, queue)
    }

    /**
     * The queue part of the frontier: the queue lists each vertex once, is the
     * tail of the enqueue history, and together with `done` makes up the
     * `reached` vertices; every edge out of `done` stays among them.
     */
    ghost predicate Pending(reached: set<V>, enqueued: seq<V>, done: set<V>, queue: seq<V>)
      reads this
    {
      Distinct(queue) && |queue| <= |enqueued| && enqueued[|enqueued| - |queue|..] == queue
      && reached == done + Elems(queue)
      && ClosedUnder(done, reached)
    }

    /**
     * One round of the `breadthFirstSearch` loop: poll the queue, read the
     * neighbours of the polled vertex (a crash when it has no edge map) and
     * expand it; on reaching the target, build the vertex list.
     */
    method BfsRound(start: V, target: V, visitedFrom: map<V, Option<V>>, ghost depth: map<V, nat>, ghost enqueued: seq<V>,
                    ghost done: set<V>, queue: seq<V>, visited: set<V>)
      returns (round: Round<V>, visitedFrom': map<V, Option<V>>, ghost depth': map<V, nat>, ghost enqueued': seq<V>,
               ghost done': set<V>, queue': seq<V>, visited': set<V>)
      requires Frontier(start, target, visitedFrom, depth, enqueued, done, queue, visited) && queue != []
      ensures round.Expanded? ==> Frontier(start, target, visitedFrom', depth', enqueued', done', queue', visited')
      ensures round.Expanded? ==>
                |Universe() - visitedFrom'.Keys| < |Universe() - visitedFrom.Keys|
                || (visitedFrom'.Keys == visitedFrom.Keys && |queue'| < |queue|)
      ensures round.Reached? ==>
                (exists c :: HasEdge(c, target) && round.vs == [start, c, target])
                && start in visited' && target in visited' && Reaches(start, target)
    {
      var cur := queue[0];
      ElemsHead(queue);
      queue' := queue[1..];
      var ns := GetNeighbours(Some(cur));
      if ns.None? {
        return Crashed, visitedFrom, depth, enqueued, done, queue', visited;
      }
      var hit;
      ghost var added;
      hit, visitedFrom', depth', enqueued', queue', visited', added :=
        ExpandVertex(start, target, cur, ns.value, visitedFrom, depth, enqueued, queue', visited);
      if hit {
        ReachesStep(start, cur, target);
        var vs := TraceBack(start, cur, target, visitedFrom', depth');
        return Reached(vs), visitedFrom', depth', enqueued', done, queue', visited';
      }
      done' := done + {cur};
      FrontierAfterExpand(cur, visitedFrom.Keys, visitedFrom'.Keys, enqueued, done, queue, added);
      round := Expanded;
    }

    /** Finishing `cur` after its expansion keeps the queue part of the frontier and shrinks the search. */
    lemma FrontierAfterExpand(cur: V, reached: set<V>, reached': set<V>, enqueued: seq<V>, done: set<V>, queue: seq<V>,
                              added: seq<V>)
      requires queue != [] && cur == queue[0] && Pending(reached, enqueued, done, queue)
      requires Distinct(added) && Elems(added) !! reached
      requires reached' == reached + Elems(added) && reached' <= Universe()
      requires forall n :: HasEdge(cur, n) ==> n in reached'
      ensures Pending(reached', enqueued + added, done + {cur}, queue[1..] + added)
      ensures |Universe() - reached'| < |Universe() - reached|
              || (reached' == reached && |queue[1..] + added| < |queue|)
    {
      QueueAfterRound(reached, enqueued, queue, added);
      KeysAfterRound(reached, reached', done, queue, added);
      ClosedAfterRound(cur, done, reached, reached');
      if reached' != reached {
        ghost var x := SomeElement(reached' - reached);
        ShrinkingRest(Universe(), reached, reached', x);
      } else {
        ElemsEmpty(added);
      }
    }

    /** Finishing `cur`, all of whose successors are reached, keeps the finished vertices closed. */
    lemma ClosedAfterRound(cur: V, done: set<V>, reached: set<V>, reached': set<V>)
      requires ClosedUnder(done, reached) && reached <= reached'
      requires forall n :: HasEdge(cur, n) ==> n in reached'
      ensures ClosedUnder(done + {cur}, reached')
    {
    }

    /**
     * `breadthFirstSearch`: null for an unknown id or when the queue runs
     * empty, in which case no walk leads to the target; `[start]` when start is
     * the target. When a neighbour is the target, the vertex list is start, the
     * vertex being expanded and the target.
     */
    method BreadthFirstSearch(startId: string, targetId: string) returns (r: SearchResult<V>)
      ensures startId !in vertices || targetId !in vertices ==> r == Null
      ensures r == Null && startId in vertices && targetId in vertices ==> !Reaches(vertices[startId], vertices[targetId])
      ensures startId in vertices && targetId in vertices && vertices[startId] == vertices[targetId] ==>
                r == Returned(Path(Some([vertices[startId]]), 0, {vertices[startId]}))
      ensures r.Returned? && vertices[startId] != vertices[targetId] ==>
                (exists c :: HasEdge(c, vertices[targetId])
                             && r.path.vertices == Some([vertices[startId], c, vertices[targetId]]))
                && vertices[startId] in r.path.visited && vertices[targetId] in r.path.visited
                && r.path.totalWeight == 0
      ensures r.Returned? ==> Reaches(vertices[startId], vertices[targetId])
    {
      var s, t := GetVertexById(startId), GetVertexById(targetId);
      if s.None? || t.None? {
        return Null;
      }
      var start, target := s.value, t.value;
      if start == target {
        ReachesSelf(start);
        return Returned(Path(Some([start]), 0, {start}));
      }
      r := BfsFrom(start, target);
    }

    /** The search loop of `breadthFirstSearch`, from a start other than the target. */
    method BfsFrom(start: V, target: V) returns (r: SearchResult<V>)
      requires start in vertices.Values && start != target
      ensures r == Null ==> !Reaches(start, target)
      ensures r.Returned? ==>
                (exists c :: HasEdge(c, target) && r.path.vertices == Some([start, c, target]))
                && start in r.path.visited && target in r.path.visited && r.path.totalWeight == 0
      ensures r.Returned? ==> Reaches(start, target)
    {
      var visited := {start};
      var visitedFrom: map<V, Option<V>> := map[start := None];
      ghost var depth: map<V, nat> := map[start := 0];
      ghost var enqueued := [start];
      ghost var done: set<V> := {};
      var queue := [start];
      assert Elems(queue) == {start};
      assert PointsBack(visitedFrom, depth, start);
      ReachesSelf(start);
      // `current = queue.poll()` at the end of each round, written as a poll at the top
      while queue != []
        invariant Frontier(start, target, visitedFrom, depth, enqueued, done, queue, visited)
        decreases |Universe() - visitedFrom.Keys|, |queue|
      {
        var round;
        round, visitedFrom, depth, enqueued, done, queue, visited :=
          BfsRound(start, target, visitedFrom, depth, enqueued, done, queue, visited);
        match round
        case Crashed =>
          return NullPointerThrown;
        case Reached(vs) =>
          return Returned(Path(Some(vs), 0, visited));
        case Expanded =>
      }
      assert Elems(queue) == {};
      ClosedBlocks(done, start, target);
      return Null;
    }

    /** The weight `weightMapper` gives the edge from `a` to `b`. */
    ghost function EdgeWeight(a: V, b: V, weightMapper: E -> nat): nat
      reads this
      requires HasEdge(a, b)
    {
      weightMapper(edges[a][b])
    }

    /** A walk of two or more vertices goes on as a walk after its first vertex. */
    lemma TailIsEdgePath(p: seq<V>)
      requires IsEdgePath(p) && |p| >= 2
      ensures IsEdgePath(p[1..])
    {
      forall j | 0 <= j < |p| - 2
        ensures HasEdge(p[1..][j], p[1..][j + 1])
      {
        assert HasEdge(p[j + 1], p[j + 2]);
      }
    }

    /** The sum of the edge weights along a walk. */
    ghost function PathWeight(p: seq<V>, weightMapper: E -> nat): nat
      reads this
      requires IsEdgePath(p)
      decreases |p|
    {
      if |p| < 2 then 0
      else
        TailIsEdgePath(p);
        EdgeWeight(p[0], p[1], weightMapper) + PathWeight(p[1..], weightMapper)
    }

    /** An edge into the first vertex of a walk extends it at the front by that edge's weight. */
    lemma PrependEdge(a: V, p: seq<V>, weightMapper: E -> nat)
      requires IsEdgePath(p) && HasEdge(a, p[0])
      ensures IsEdgePath([a] + p)
      ensures PathWeight([a] + p, weightMapper) == EdgeWeight(a, p[0], weightMapper) + PathWeight(p, weightMapper)
    {
      var q := [a] + p;
      assert q[1..] == p;
      forall i | 0 <= i < |q| - 1
        ensures HasEdge(q[i], q[i + 1])
      {
        if i > 0 {
          assert q[i] == p[i - 1] && q[i + 1] == p[i];
        }
      }
    }

    /**
     * The node of `v` hangs below its predecessor by a recorded edge, at no
     * less than the predecessor's weight plus that edge's.
     */
    ghost predicate TreeEdge(nodes: map<V, DspNode<V>>, weightMapper: E -> nat, v: V)
      reads this
    {
      v in nodes
      && (nodes[v].fromVertex.Some? ==>
            nodes[v].fromVertex.value in nodes && HasEdge(nodes[v].fromVertex.value, v)
            && nodes[nodes[v].fromVertex.value].weightSumTo + EdgeWeight(nodes[v].fromVertex.value, v, weightMapper)
               <= nodes[v].weightSumTo)
    }

    /** A marked node has every successor of its vertex among the nodes. */
    ghost predicate FullyExpanded(nodes: map<V, DspNode<V>>, v: V)
      reads this
    {
      v in nodes && (nodes[v].marked ==> forall n :: HasEdge(v, n) ==> n in nodes)
    }

    /**
     * The node map of `dijkstraShortestPath`: the start at weight 0 without
     * predecessor, every other node with one, predecessors forming recorded
     * edges, and marked nodes fully expanded.
     */
    ghost predicate DspState(start: V, nodes: map<V, DspNode<V>>, weightMapper: E -> nat)
      reads this
    {
      start in nodes && nodes[start].fromVertex.None? && nodes[start].weightSumTo == 0
      && (forall v :: v in nodes && v != start ==> nodes[v].fromVertex.Some?)
      && (forall v {:trigger TreeEdge(nodes, weightMapper, v)} :: v in nodes ==> TreeEdge(nodes, weightMapper, v))
      && (forall v {:trigger FullyExpanded(nodes, v)} :: v in nodes ==> FullyExpanded(nodes, v))
    }

    /**
     * Relaxing a successor `n` of a node `from` through their edge keeps the
     * node map well formed, and no weight grows.
     */
    lemma ReachKeepsState(start: V, nodes: map<V, DspNode<V>>, n: V, from: V, weightMapper: E -> nat)
      requires DspState(start, nodes, weightMapper) && from in nodes && HasEdge(from, n)
      ensures DspState(start, Reach(nodes, n, nodes[from].weightSumTo + EdgeWeight(from, n, weightMapper), from), weightMapper)
      ensures forall v :: v in nodes ==>
                Reach(nodes, n, nodes[from].weightSumTo + EdgeWeight(from, n, weightMapper), from)[v].weightSumTo <= nodes[v].weightSumTo
    {
      var after := Reach(nodes, n, nodes[from].weightSumTo + EdgeWeight(from, n, weightMapper), from);
      assert after[from] == nodes[from];
      forall v | v in after
        ensures TreeEdge(after, weightMapper, v) && FullyExpanded(after, v)
      {
        if v != n {
          assert TreeEdge(nodes, weightMapper, v) && FullyExpanded(nodes, v);
        } else if n in nodes {
          assert TreeEdge(nodes, weightMapper, n) && FullyExpanded(nodes, n);
        }
      }
    }

    /** Marking a node whose successors all have nodes keeps the node map well formed. */
    lemma MarkKeepsState(start: V, nodes: map<V, DspNode<V>>, v: V, weightMapper: E -> nat)
      requires DspState(start, nodes, weightMapper) && v in nodes
      requires forall n :: HasEdge(v, n) ==> n in nodes
      ensures DspState(start, nodes[v := nodes[v].(marked := true)], weightMapper)
    {
      var after := nodes[v := nodes[v].(marked := true)];
      forall u | u in after
        ensures TreeEdge(after, weightMapper, u) && FullyExpanded(after, u)
      {
        assert TreeEdge(nodes, weightMapper, u) && FullyExpanded(nodes, u);
      }
    }

    /**
     * The neighbour loop of a `dijkstraShortestPath` round: each neighbour of
     * `current` gets a node if it has none and is relaxed through the edge
     * from `current`, which also becomes the current node (`stale` otherwise
     * stays as it was); the loop ends early at the target.
     */
    method RelaxNeighbours(start: V, target: V, current: V, neighbours: seq<V>, nodes: map<V, DspNode<V>>,
                           stale: Option<V>, weightMapper: E -> nat)
      returns (hit: bool, nodes': map<V, DspNode<V>>, stale': Option<V>)
      requires DspState(start, nodes, weightMapper) && current in nodes && target !in nodes
      requires forall n :: n in neighbours <==> HasEdge(current, n)
      ensures DspState(start, nodes', weightMapper)
      ensures forall v :: v in nodes ==>
                v in nodes' && nodes'[v].weightSumTo <= nodes[v].weightSumTo && nodes'[v].marked == nodes[v].marked
      ensures stale' == if neighbours == [] then stale else Some(current)
      ensures hit <==> target in nodes'
      ensures !hit ==> forall n :: HasEdge(current, n) ==> n in nodes'
    {
      nodes', stale' := nodes, stale;
      for i := 0 to |neighbours|
        invariant DspState(start, nodes', weightMapper) && target !in nodes'
        invariant forall v :: v in nodes ==>
                    v in nodes' && nodes'[v].weightSumTo <= nodes[v].weightSumTo && nodes'[v].marked == nodes[v].marked
        invariant stale' == if i == 0 then stale else Some(current)
        invariant forall k :: 0 <= k < i ==> neighbours[k] in nodes'
      {
        var n := neighbours[i];
        stale' := Some(current);
        ReachKeepsState(start, nodes', n, current, weightMapper);
        nodes' := Reach(nodes', n, nodes'[current].weightSumTo + weightMapper(edges[current][n]), current);
        if n == target {
          return true, nodes', stale';
        }
      }
      hit := false;
    }

    /**
     * The second relaxation at the target: every neighbour of the target that
     * has a node relaxes the target through the edge back to it; a missing
     * edge back hands null to the weight mapper, which throws.
     */
    method RelaxTarget(start: V, target: V, back: seq<V>, nodes: map<V, DspNode<V>>, weightMapper: E -> nat)
      returns (thrown: bool, nodes': map<V, DspNode<V>>)
      requires DspState(start, nodes, weightMapper) && target in nodes
      requires forall n :: n in back <==> HasEdge(target, n)
      ensures thrown <==> exists m :: HasEdge(target, m) && m in nodes && !HasEdge(m, target)
      ensures !thrown ==> DspState(start, nodes', weightMapper) && nodes'.Keys == nodes.Keys
                          && nodes'[target].weightSumTo <= nodes[target].weightSumTo
                          && forall v :: v in nodes && v != target ==> nodes'[v] == nodes[v]
    {
      nodes' := nodes;
      for i := 0 to |back|
        invariant DspState(start, nodes', weightMapper) && nodes'.Keys == nodes.Keys
        invariant nodes'[target].weightSumTo <= nodes[target].weightSumTo
        invariant forall v :: v in nodes && v != target ==> nodes'[v] == nodes[v]
        invariant forall k :: 0 <= k < i && back[k] in nodes ==> HasEdge(back[k], target)
      {
        var m := back[i];
        if m in nodes' {
          var e := GetEdge(Some(m), Some(target));
          if e.None? {
            return true, nodes';
          }
          ReachKeepsState(start, nodes', target, m, weightMapper);
          nodes' := Reach(nodes', target, nodes'[m].weightSumTo + weightMapper(e.value), m);
        }
      }
      thrown := false;
    }

    /**
     * The path building of `dijkstraShortestPath`: from the target, each
     * vertex is put in front while its node has a predecessor, which becomes
     * the next vertex; none when `fuel` runs out first.
     */
    method WalkBack(start: V, target: V, nodes: map<V, DspNode<V>>, weightMapper: E -> nat, fuel: nat)
      returns (p: Option<seq<V>>)
      requires DspState(start, nodes, weightMapper) && target in nodes
      ensures p.Some? ==> IsEdgePath(p.value) && p.value[0] == start && p.value[|p.value| - 1] == target
                          && PathWeight(p.value, weightMapper) <= nodes[target].weightSumTo
    {
      var v, tail := target, [];
      var steps := fuel;
      while nodes[v].fromVertex.Some?
        invariant v in nodes && IsEdgePath([v] + tail) && ([v] + tail)[|tail|] == target
        invariant nodes[v].weightSumTo + PathWeight([v] + tail, weightMapper) <= nodes[target].weightSumTo
        decreases steps
      {
        if steps == 0 {
          return None;
        }
        steps := steps - 1;
        var from := nodes[v].fromVertex.value;
        assert TreeEdge(nodes, weightMapper, v);
        PrependEdge(from, [v] + tail, weightMapper);
        assert ([from] + ([v] + tail))[|tail| + 1] == target;
        tail := [v] + tail;
        v := from;
      }
      return Some([v] + tail);
    }

    /**
     * The target branch of `dijkstraShortestPath`: every node's vertex joins
     * the visited set, the target is relaxed once more from its own
     * neighbours, and the walk back gives the vertex list; the total weight is
     * the target node's weight.
     */
    method FinishAtTarget(start: V, target: V, nodes: map<V, DspNode<V>>, weightMapper: E -> nat, fuel: nat)
      returns (r: SearchResult<V>, nodes': map<V, DspNode<V>>)
      requires DspState(start, nodes, weightMapper) && target in nodes && target in vertices.Values
      ensures r != Null
      ensures r.Returned? ==>
                nodes'.Keys == nodes.Keys && nodes'[target].weightSumTo <= nodes[target].weightSumTo
                && r.path.totalWeight == nodes'[target].weightSumTo && r.path.visited == nodes.Keys
                && r.path.vertices.Some? && IsEdgePath(r.path.vertices.value)
                && r.path.vertices.value[0] == start && r.path.vertices.value[|r.path.vertices.value| - 1] == target
                && PathWeight(r.path.vertices.value, weightMapper) <= r.path.totalWeight
    {
      var visited := nodes.Keys;
      var back := GetNeighbours(Some(target));
      var thrown;
      thrown, nodes' := RelaxTarget(start, target, back.value, nodes, weightMapper);
      if thrown {
        return NullPointerThrown, nodes';
      }
      var p := WalkBack(start, target, nodes', weightMapper, fuel);
      if p.None? {
        return OutOfFuel, nodes';
      }
      r := Returned(Path(p, nodes'[target].weightSumTo, visited));
    }

    /**
     * `dijkstraShortestPath`, run for at most `fuel` rounds: null for an
     * unknown id, or when no unmarked node is left, in which case no walk leads
     * to the target; `[start]` at weight 0 when start is the target. The first
     * time the target is a neighbour, the search ends with a walk from start to
     * target along recorded edges whose weight is at most the reported total.
     */
    method DijkstraShortestPath(startId: string, targetId: string, weightMapper: E -> nat, fuel: nat)
      returns (r: SearchResult<V>)
      ensures startId !in vertices || targetId !in vertices ==> r == Null
      ensures startId in vertices && targetId in vertices && vertices[startId] == vertices[targetId] ==>
                r == Returned(Path(Some([vertices[startId]]), 0, {vertices[startId]}))
      ensures r == Null && startId in vertices && targetId in vertices ==> !Reaches(vertices[startId], vertices[targetId])
      ensures r.Returned? && vertices[startId] != vertices[targetId] ==>
                r.path.vertices.Some? && IsEdgePath(r.path.vertices.value)
                && r.path.vertices.value[0] == vertices[startId]
                && r.path.vertices.value[|r.path.vertices.value| - 1] == vertices[targetId]
                && PathWeight(r.path.vertices.value, weightMapper) <= r.path.totalWeight
                && vertices[startId] in r.path.visited && vertices[targetId] in r.path.visited
    {
      var s, t := GetVertexById(startId), GetVertexById(targetId);
      if s.None? || t.None? {
        return Null;
      }
      var start, target := s.value, t.value;
      if start == target {
        return Returned(Path(Some([start]), 0, {start}));
      }
      var nodes := map[start := DspNode(None, false, 0)];
      var current := start;
      // the node `currentDspNode` refers to; none for the initial placeholder
      var stale: Option<V> := None;
      var steps := fuel;
      while steps > 0
        invariant DspState(start, nodes, weightMapper) && current in nodes && target !in nodes
        invariant stale.Some? ==> stale.value in nodes && nodes[stale.value].marked
        decreases steps
      {
        steps := steps - 1;
        var ns := GetNeighbours(Some(current));
        if ns.None? {
          return NullPointerThrown;
        }
        var hit;
        hit, nodes, stale := RelaxNeighbours(start, target, current, ns.value, nodes, stale, weightMapper);
        if hit {
          r, nodes := FinishAtTarget(start, target, nodes, weightMapper, steps);
          return;
        }
        if stale.Some? {
          assert FullyExpanded(nodes, stale.value);
          MarkKeepsState(start, nodes, stale.value, weightMapper);
          nodes := nodes[stale.value := nodes[stale.value].(marked := true)];
        }
        var next := SelectNext(nodes);
        if next.None? {
          assert ClosedUnder(nodes.Keys, nodes.Keys) by {
            forall a, b | a in nodes.Keys && HasEdge(a, b)
              ensures b in nodes.Keys
            {
              assert FullyExpanded(nodes, a);
            }
          }
          ClosedBlocks(nodes.Keys, start, target);
          return Null;
        }
        current := next.value;
      }
      return OutOfFuel;
    }
  }
}
