/**
  A generic directed multigraph: a map from each vertex to the ordered list of
  its outgoing edges, every edge carrying a payload. Several edges between the
  same two vertices are kept, each as its own entry.

  The first half of the module states the graph on values (`Adjacency`); the
  class `Graph` at the end is the mutable object whose methods change it.
*/
module GraphMath {
  import opened Wrappers

  /** A vertex: a thin wrapper around a key, compared by value. */
  datatype Node<T> = Node(property: T)

  /** A directed edge with its payload. */
  datatype Edge<T, P> = Edge(from: Node<T>, to: Node<T>, property: P)

  /** The edges of a cycle, in the order the search closes it. */
  datatype Path<T, P> = Path(edges: seq<Edge<T, P>>)

  /** Each vertex with its outgoing edges, in insertion order. */
  type Adjacency<T(==), P> = map<Node<T>, seq<Edge<T, P>>>

  /** The outgoing edges of `n`, or none for a vertex the graph does not know. */
  function Outgoing<T(==), P>(adj: Adjacency<T, P>, n: Node<T>): seq<Edge<T, P>>
  {
    if n in adj then adj[n] else []
  }

  /** Every edge is listed under its own `from` vertex. */
  ghost predicate Keyed<T, P>(adj: Adjacency<T, P>)
  {
    forall n, e | n in adj && e in adj[n] :: e.from == n
  }

  /** The shape every graph built by `AddEdge` has: edges listed under their
      `from` vertex, and every edge target is a vertex too. */
  ghost predicate WellFormed<T, P>(adj: Adjacency<T, P>)
  {
    Keyed(adj) && forall n, e | n in adj && e in adj[n] :: e.to in adj
  }

  /** `e` is one of the graph's edges. */
  ghost predicate IsEdgeOf<T, P>(adj: Adjacency<T, P>, e: Edge<T, P>)
  {
    e.from in adj && e in adj[e.from]
  }

  /** There is an edge from `from` to `to`, whatever its payload. */
  ghost predicate HasEdgeIn<T, P>(adj: Adjacency<T, P>, from: Node<T>, to: Node<T>)
  {
    from in adj && exists e :: e in adj[from] && e.to == to
  }

  /** Whether some edge of the list ends at `to` (a stream `anyMatch`). */
  function AnyEdgeTo<T(==), P>(edges: seq<Edge<T, P>>, to: Node<T>): (r: bool)
    ensures r <==> exists i :: 0 <= i < |edges| && edges[i].to == to
  {
    if edges == [] then false
    else if edges[0].to == to then true
    else
      var rest := AnyEdgeTo(edges[1..], to);
      assert forall i :: 0 < i < |edges| ==> edges[i] == edges[1..][i - 1];
      rest
  }

  // ---------------------------------------------------------------------------
  // Adding edges

  /** The graph after appending `edge` to the list of its `from` vertex and
      making sure its `to` vertex exists. */
  function WithEdge<T(==), P>(adj: Adjacency<T, P>, edge: Edge<T, P>): (r: Adjacency<T, P>)
    ensures r.Keys == adj.Keys + {edge.from, edge.to}
    ensures r[edge.from] == Outgoing(adj, edge.from) + [edge]
    ensures edge.to != edge.from ==> r[edge.to] == Outgoing(adj, edge.to)
    ensures forall n | n in adj && n != edge.from :: r[n] == adj[n]
  {
    var withFrom := adj[edge.from := Outgoing(adj, edge.from) + [edge]];
    if edge.to in withFrom then withFrom else withFrom[edge.to := []]
  }

  /** The graph after adding `edges` one after the other. */
  function WithEdges<T(==), P>(adj: Adjacency<T, P>, edges: seq<Edge<T, P>>): Adjacency<T, P>
    decreases |edges|
  {
    if edges == [] then adj
    else WithEdge(WithEdges(adj, edges[..|edges| - 1]), edges[|edges| - 1])
  }

  /** Adding one more edge of the list to the graph of a prefix gives the graph of the longer prefix. */
  lemma WithEdgesPrefixStep<T, P>(edges: seq<Edge<T, P>>, i: nat)
    requires i < |edges|
    ensures WithEdges(map[], edges[..i + 1]) == WithEdge(WithEdges(map[], edges[..i]), edges[i])
  {
    assert edges[..i + 1][..i] == edges[..i];
  }

  lemma WithEdgeWellFormed<T, P>(adj: Adjacency<T, P>, edge: Edge<T, P>)
    requires WellFormed(adj)
    ensures WellFormed(WithEdge(adj, edge))
  {
    var r := WithEdge(adj, edge);
    forall n, e: Edge<T, P> | n in r && e in r[n] ensures e.from == n && e.to in r {
      if n == edge.from {
        assert e in Outgoing(adj, n) || e == edge;
      } else if n == edge.to {
        assert e in Outgoing(adj, n);
      }
    }
  }

  /** Adding an edge adds exactly that edge. */
  lemma WithEdgeEdges<T, P>(adj: Adjacency<T, P>, edge: Edge<T, P>, e: Edge<T, P>)
    ensures IsEdgeOf(WithEdge(adj, edge), e) <==> IsEdgeOf(adj, e) || e == edge
  {
    var r := WithEdge(adj, edge);
    if e.from == edge.from {
      assert r[e.from] == Outgoing(adj, e.from) + [edge];
    }
  }

  /** Adding an edge makes its pair linked and links no other pair. */
  lemma WithEdgeHasEdge<T, P>(adj: Adjacency<T, P>, edge: Edge<T, P>, from: Node<T>, to: Node<T>)
    ensures HasEdgeIn(WithEdge(adj, edge), from, to)
        <==> HasEdgeIn(adj, from, to) || (from == edge.from && to == edge.to)
  {
    var r := WithEdge(adj, edge);
    if from == edge.from {
      assert r[from] == Outgoing(adj, from) + [edge];
      assert edge in r[from];
      if HasEdgeIn(r, from, to) {
        var e: Edge<T, P> :| e in r[from] && e.to == to;
        assert e in Outgoing(adj, from) || e == edge;
      }
      if HasEdgeIn(adj, from, to) {
        var e: Edge<T, P> :| e in adj[from] && e.to == to;
        assert e in r[from];
      }
    } else if from == edge.to {
      assert r[from] == Outgoing(adj, from);
    } else if from in adj {
      assert r[from] == adj[from];
    }
  }

  lemma {:induction false} WithEdgesWellFormed<T, P>(adj: Adjacency<T, P>, edges: seq<Edge<T, P>>)
    requires WellFormed(adj)
    ensures WellFormed(WithEdges(adj, edges))
    decreases |edges|
  {
    if edges != [] {
      WithEdgesWellFormed(adj, edges[..|edges| - 1]);
      WithEdgeWellFormed(WithEdges(adj, edges[..|edges| - 1]), edges[|edges| - 1]);
    }
  }

  /** The edges of a graph built from `edges` are exactly those edges. */
  lemma {:induction false} WithEdgesEdges<T, P>(adj: Adjacency<T, P>, edges: seq<Edge<T, P>>, e: Edge<T, P>)
    ensures IsEdgeOf(WithEdges(adj, edges), e) <==> IsEdgeOf(adj, e) || e in edges
    decreases |edges|
  {
    if edges != [] {
      var init := edges[..|edges| - 1];
      WithEdgesEdges(adj, init, e);
      WithEdgeEdges(WithEdges(adj, init), edges[|edges| - 1], e);
      assert edges == init + [edges[|edges| - 1]];
    }
  }

  /** A graph built from `edges` links a pair exactly when it already did or
      one of the edges joins that pair. */
  lemma {:induction false} WithEdgesHasEdge<T, P>(adj: Adjacency<T, P>, edges: seq<Edge<T, P>>, from: Node<T>, to: Node<T>)
    ensures HasEdgeIn(WithEdges(adj, edges), from, to)
        <==> HasEdgeIn(adj, from, to) || exists e | e in edges :: e.from == from && e.to == to
    decreases |edges|
  {
    if edges != [] {
      var init := edges[..|edges| - 1];
      var last := edges[|edges| - 1];
      WithEdgesHasEdge(adj, init, from, to);
      WithEdgeHasEdge(WithEdges(adj, init), last, from, to);
      assert forall e | e in edges :: e in init || e == last;
      assert forall e | e in init :: e in edges;
    }
  }

  // ---------------------------------------------------------------------------
  // Removing edges

  /** The list that the forward index loop of `removeEdge` leaves: an edge
      ending at `to` is removed, and the edge that then slides into its index
      is stepped over without being looked at. */
  function RemovedSkipping<T(==), P>(edges: seq<Edge<T, P>>, to: Node<T>): seq<Edge<T, P>>
    decreases |edges|
  {
    if edges == [] then []
    else if edges[0].to != to then [edges[0]] + RemovedSkipping(edges[1..], to)
    else if |edges| == 1 then []
    else [edges[1]] + RemovedSkipping(edges[2..], to)
  }

  /** The edges of the list that do not end at `to`, in their order. */
  function EdgesNotTo<T(==), P>(edges: seq<Edge<T, P>>, to: Node<T>): (r: seq<Edge<T, P>>)
    ensures forall e | e in r :: e in edges && e.to != to
    ensures forall e | e in edges && e.to != to :: e in r
    decreases |edges|
  {
    if edges == [] then []
    else if edges[0].to != to then [edges[0]] + EdgesNotTo(edges[1..], to)
    else EdgesNotTo(edges[1..], to)
  }

  /** No two consecutive entries of the list both end at `to`. */
  ghost predicate NoAdjacentTo<T, P>(edges: seq<Edge<T, P>>, to: Node<T>)
  {
    forall i | 0 <= i < |edges| - 1 :: !(edges[i].to == to && edges[i + 1].to == to)
  }

  /** The skipping removal deletes only edges ending at `to`: the other edges
      survive in their order. */
  lemma {:induction false} RemovedSkippingKeepsOthers<T, P>(edges: seq<Edge<T, P>>, to: Node<T>)
    ensures EdgesNotTo(RemovedSkipping(edges, to), to) == EdgesNotTo(edges, to)
    decreases |edges|
  {
    if edges == [] {
    } else if edges[0].to != to {
      RemovedSkippingKeepsOthers(edges[1..], to);
    } else if |edges| == 1 {
    } else {
      RemovedSkippingKeepsOthers(edges[2..], to);
      var tail := RemovedSkipping(edges[2..], to);
      assert ([edges[1]] + tail)[1..] == tail;
      assert edges[1..][1..] == edges[2..];
    }
  }

  /** The skipping removal never adds an edge. */
  lemma {:induction false} RemovedSkippingShrinks<T, P>(edges: seq<Edge<T, P>>, to: Node<T>)
    ensures multiset(RemovedSkipping(edges, to)) <= multiset(edges)
    decreases |edges|
  {
    if edges == [] {
    } else if edges[0].to != to {
      RemovedSkippingShrinks(edges[1..], to);
      assert edges == [edges[0]] + edges[1..];
    } else if |edges| == 1 {
    } else {
      RemovedSkippingShrinks(edges[2..], to);
      assert edges == [edges[0]] + ([edges[1]] + edges[2..]);
    }
  }

  /** When no two matching edges are adjacent, the skipping removal does remove
      every edge ending at `to`. */
  lemma {:induction false} RemovedSkippingComplete<T, P>(edges: seq<Edge<T, P>>, to: Node<T>)
    requires NoAdjacentTo(edges, to)
    ensures forall e | e in RemovedSkipping(edges, to) :: e.to != to
    decreases |edges|
  {
    if edges == [] {
    } else if edges[0].to != to {
      assert NoAdjacentTo(edges[1..], to) by {
        forall i | 0 <= i < |edges[1..]| - 1 ensures !(edges[1..][i].to == to && edges[1..][i + 1].to == to) {
          assert edges[1..][i] == edges[i + 1] && edges[1..][i + 1] == edges[i + 2];
        }
      }
      RemovedSkippingComplete(edges[1..], to);
    } else if |edges| == 1 {
    } else {
      assert edges[1].to != to;
      assert NoAdjacentTo(edges[2..], to) by {
        forall i | 0 <= i < |edges[2..]| - 1 ensures !(edges[2..][i].to == to && edges[2..][i + 1].to == to) {
          assert edges[2..][i] == edges[i + 2] && edges[2..][i + 1] == edges[i + 3];
        }
      }
      RemovedSkippingComplete(edges[2..], to);
    }
  }

  /** Two equal matching edges in a row: the second one survives. */
  lemma RemovedSkippingAdjacentDuplicate<T, P>(e: Edge<T, P>)
    ensures RemovedSkipping([e, e], e.to) == [e]
  {
    assert [e, e][2..] == [];
  }

  /** One step of the forward removal loop at a matching index `i`: the entry is
      removed and the index still advances. */
  lemma RemovedSkippingMatchStep<T, P>(edges: seq<Edge<T, P>>, i: nat, to: Node<T>)
    requires i < |edges| && edges[i].to == to
    ensures var shorter := edges[..i] + edges[i + 1..];
      if i + 1 <= |shorter| then shorter[..i + 1] + RemovedSkipping(shorter[i + 1..], to) == edges[..i] + RemovedSkipping(edges[i..], to)
      else shorter == edges[..i] + RemovedSkipping(edges[i..], to)
  {
    var shorter := edges[..i] + edges[i + 1..];
    if i + 1 < |edges| {
      assert edges[i..][1..] == edges[i + 1..];
      assert edges[i + 1..][1..] == edges[i + 2..];
      assert shorter[..i + 1] == edges[..i] + [edges[i + 1]];
      assert shorter[i + 1..] == edges[i + 2..];
    } else {
      assert shorter == edges[..i];
    }
  }

  /** One step of the forward removal loop at a non-matching index `i`. */
  lemma RemovedSkippingKeepStep<T, P>(edges: seq<Edge<T, P>>, i: nat, to: Node<T>)
    requires i < |edges| && edges[i].to != to
    ensures edges[..i + 1] + RemovedSkipping(edges[i + 1..], to) == edges[..i] + RemovedSkipping(edges[i..], to)
  {
    assert edges[i..] == [edges[i]] + edges[i + 1..];
    assert edges[..i + 1] == edges[..i] + [edges[i]];
  }

  /** One step of the corrected removal loop at a matching index `i`: the
      entry is removed and the index stays. */
  lemma EdgesNotToDropStep<T, P>(edges: seq<Edge<T, P>>, i: nat, to: Node<T>)
    requires i < |edges| && edges[i].to == to
    ensures var shorter := edges[..i] + edges[i + 1..];
      shorter[..i] + EdgesNotTo(shorter[i..], to) == edges[..i] + EdgesNotTo(edges[i..], to)
  {
    var shorter := edges[..i] + edges[i + 1..];
    assert shorter[..i] == edges[..i];
    assert shorter[i..] == edges[i + 1..];
    assert edges[i..][1..] == edges[i + 1..];
  }

  /** One step of the corrected removal loop at a non-matching index `i`. */
  lemma EdgesNotToKeepStep<T, P>(edges: seq<Edge<T, P>>, i: nat, to: Node<T>)
    requires i < |edges| && edges[i].to != to
    ensures edges[..i + 1] + EdgesNotTo(edges[i + 1..], to) == edges[..i] + EdgesNotTo(edges[i..], to)
  {
    assert edges[i..][1..] == edges[i + 1..];
    assert edges[..i + 1] == edges[..i] + [edges[i]];
  }

  /** The graph after `removeEdge(edge)` as written. */
  function WithoutEdge<T(==), P>(adj: Adjacency<T, P>, edge: Edge<T, P>): Adjacency<T, P>
  {
    if edge.from in adj then adj[edge.from := RemovedSkipping(adj[edge.from], edge.to)] else adj
  }


  /** Removing every matching edge takes out exactly the edges of that pair. */
  lemma WithoutAllEdgesEdges<T, P>(adj: Adjacency<T, P>, edge: Edge<T, P>, e: Edge<T, P>)
    ensures IsEdgeOf(WithoutAllEdges(adj, edge), e)
        <==> IsEdgeOf(adj, e) && !(e.from == edge.from && e.to == edge.to)
  {
  }

  /** After removing every matching edge the pair is no longer linked. */
  lemma WithoutAllEdgesUnlinks<T, P>(adj: Adjacency<T, P>, edge: Edge<T, P>)
    ensures !HasEdgeIn(WithoutAllEdges(adj, edge), edge.from, edge.to)
  {
  }

  /** Removing every matching edge leaves every other pair linked or unlinked as it was. */
  lemma WithoutAllEdgesOtherPairs<T, P>(adj: Adjacency<T, P>, edge: Edge<T, P>, from: Node<T>, to: Node<T>)
    requires from != edge.from || to != edge.to
    ensures HasEdgeIn(WithoutAllEdges(adj, edge), from, to) <==> HasEdgeIn(adj, from, to)
  {
    if from == edge.from && from in adj {
      var r := WithoutAllEdges(adj, edge);
      if HasEdgeIn(adj, from, to) {
        var e: Edge<T, P> :| e in adj[from] && e.to == to;
        assert e in r[from];
      }
    }
  }

  /** The as-written removal leaves the pair linked when the edge was added twice. */
  lemma WithoutEdgeAfterDuplicate<T, P>(edge: Edge<T, P>)
    ensures HasEdgeIn(WithoutEdge(WithEdge(WithEdge(map[], edge), edge), edge), edge.from, edge.to)
  {
    var twice := WithEdge(WithEdge(map[], edge), edge);
    assert twice[edge.from] == [edge, edge];
    RemovedSkippingAdjacentDuplicate(edge);
    assert edge in WithoutEdge(twice, edge)[edge.from];
  }

  /** Removal keeps a graph well formed. */
  lemma WithoutEdgeWellFormed<T, P>(adj: Adjacency<T, P>, edge: Edge<T, P>)
    requires WellFormed(adj)
    ensures WellFormed(WithoutEdge(adj, edge))
  {
    if edge.from in adj {
      RemovedSkippingShrinks(adj[edge.from], edge.to);
      var r := WithoutEdge(adj, edge);
      forall e: Edge<T, P> | e in r[edge.from] ensures e.from == edge.from && e.to in r {
        assert e in multiset(r[edge.from]);
        assert e in adj[edge.from];
      }
    }
  }

  lemma WithoutAllEdgesWellFormed<T, P>(adj: Adjacency<T, P>, edge: Edge<T, P>)
    requires WellFormed(adj)
    ensures WellFormed(WithoutAllEdges(adj, edge))
  {
  }

  /** The graph after deleting every edge from `edge.from` to `edge.to`. */
  function WithoutAllEdges<T(==), P>(adj: Adjacency<T, P>, edge: Edge<T, P>): Adjacency<T, P>
  {
    if edge.from in adj then adj[edge.from := EdgesNotTo(adj[edge.from], edge.to)] else adj
  }

  /** `removeEdge` touches only the list of `edge.from`, and in it only entries
      ending at `edge.to`: every other entry stays, in its order. */
  lemma WithoutEdgeKeepsOthers<T, P>(adj: Adjacency<T, P>, edge: Edge<T, P>)
    ensures WithoutEdge(adj, edge).Keys == adj.Keys
    ensures forall n | n in adj && n != edge.from :: WithoutEdge(adj, edge)[n] == adj[n]
    ensures EdgesNotTo(Outgoing(WithoutEdge(adj, edge), edge.from), edge.to)
         == EdgesNotTo(Outgoing(adj, edge.from), edge.to)
    ensures forall e | e in Outgoing(WithoutEdge(adj, edge), edge.from) :: e in Outgoing(adj, edge.from)
  {
    if edge.from in adj {
      RemovedSkippingKeepsOthers(adj[edge.from], edge.to);
      RemovedSkippingShrinks(adj[edge.from], edge.to);
      forall e | e in Outgoing(WithoutEdge(adj, edge), edge.from) ensures e in adj[edge.from] {
        assert e in multiset(RemovedSkipping(adj[edge.from], edge.to));
      }
    }
  }

  /** `removeEdge` leaves every other pair linked or unlinked as it was. */
  lemma WithoutEdgeOtherPairs<T, P>(adj: Adjacency<T, P>, edge: Edge<T, P>, from: Node<T>, to: Node<T>)
    requires from != edge.from || to != edge.to
    ensures HasEdgeIn(WithoutEdge(adj, edge), from, to) <==> HasEdgeIn(adj, from, to)
  {
    WithoutEdgeKeepsOthers(adj, edge);
    if from == edge.from && from in adj {
      var r := WithoutEdge(adj, edge);
      if HasEdgeIn(adj, from, to) {
        var e: Edge<T, P> :| e in adj[from] && e.to == to;
        assert e in EdgesNotTo(adj[from], edge.to);
        assert e in r[from];
      }
      if HasEdgeIn(r, from, to) {
        var e: Edge<T, P> :| e in r[from] && e.to == to;
        assert e in Outgoing(r, edge.from);
      }
    }
  }

  /** After `removeEdge`, the pair is unlinked provided no two of its entries
      sat next to each other in the list (in particular when there was at most one). */
  lemma WithoutEdgeUnlinks<T, P>(adj: Adjacency<T, P>, edge: Edge<T, P>)
    requires edge.from in adj ==> NoAdjacentTo(adj[edge.from], edge.to)
    ensures !HasEdgeIn(WithoutEdge(adj, edge), edge.from, edge.to)
  {
    if edge.from in adj {
      RemovedSkippingComplete(adj[edge.from], edge.to);
    }
  }

  // ---------------------------------------------------------------------------
  // Intersection

  /** The edges of the list whose pair is linked in `other`, in their order and
      with their multiplicity. */
  ghost function Kept<T, P, P2>(edges: seq<Edge<T, P>>, other: Adjacency<T, P2>): seq<Edge<T, P>>
    decreases |edges|
  {
    if edges == [] then []
    else if HasEdgeIn(other, edges[0].from, edges[0].to) then [edges[0]] + Kept(edges[1..], other)
    else Kept(edges[1..], other)
  }

  /** The vertices touched by an edge of `adj` whose pair is linked in `other`. */
  ghost function KeptNodes<T, P, P2>(adj: Adjacency<T, P>, other: Adjacency<T, P2>): set<Node<T>>
  {
    (set n, e | n in adj && e in adj[n] && HasEdgeIn(other, e.from, e.to) :: e.from)
    + (set n, e | n in adj && e in adj[n] && HasEdgeIn(other, e.from, e.to) :: e.to)
  }

  /** The graph that `intersection` builds: the kept edges, added one by one. */
  ghost function Intersected<T, P, P2>(adj: Adjacency<T, P>, other: Adjacency<T, P2>): Adjacency<T, P>
  {
    map n | n in KeptNodes(adj, other) :: Kept(Outgoing(adj, n), other)
  }

  /** An edge is kept iff it is in the list and `other` links its pair. */
  lemma {:induction false} KeptMembers<T, P, P2>(edges: seq<Edge<T, P>>, other: Adjacency<T, P2>, e: Edge<T, P>)
    ensures e in Kept(edges, other) <==> e in edges && HasEdgeIn(other, e.from, e.to)
    decreases |edges|
  {
    if edges != [] {
      KeptMembers(edges[1..], other, e);
      assert edges == [edges[0]] + edges[1..];
    }
  }

  /** A kept edge keeps all its copies. */
  lemma {:induction false} KeptMultiplicity<T, P, P2>(edges: seq<Edge<T, P>>, other: Adjacency<T, P2>, e: Edge<T, P>)
    requires HasEdgeIn(other, e.from, e.to)
    ensures multiset(Kept(edges, other))[e] == multiset(edges)[e]
    decreases |edges|
  {
    if edges != [] {
      KeptMultiplicity(edges[1..], other, e);
      assert edges == [edges[0]] + edges[1..];
    }
  }

  lemma {:induction false} KeptAppend<T, P, P2>(edges: seq<Edge<T, P>>, e: Edge<T, P>, other: Adjacency<T, P2>)
    ensures Kept(edges + [e], other)
         == Kept(edges, other) + (if HasEdgeIn(other, e.from, e.to) then [e] else [])
    decreases |edges|
  {
    if edges == [] {
      assert [e][1..] == [];
    } else {
      assert (edges + [e])[1..] == edges[1..] + [e];
      KeptAppend(edges[1..], e, other);
    }
  }

  /** A vertex with a kept outgoing edge is one of `KeptNodes`. */
  lemma KeptTouches<T, P, P2>(adj: Adjacency<T, P>, other: Adjacency<T, P2>, n: Node<T>)
    requires Keyed(adj)
    ensures Kept(Outgoing(adj, n), other) != [] ==> n in KeptNodes(adj, other)
  {
    var r := Kept(Outgoing(adj, n), other);
    if r != [] {
      KeptMembers(Outgoing(adj, n), other, r[0]);
      assert n in adj && r[0] in adj[n];
    }
  }

  /** The vertices that the kept edges touch grow by the endpoints of one more
      kept edge. */
  lemma KeptNodesStep<T, P, P2>(part: Adjacency<T, P>, other: Adjacency<T, P2>, k: Node<T>, e: Edge<T, P>)
    requires k in part
    ensures KeptNodes(part[k := part[k] + [e]], other)
         == KeptNodes(part, other) + (if HasEdgeIn(other, e.from, e.to) then {e.from, e.to} else {})
  {
    var next := part[k := part[k] + [e]];
    var grown := KeptNodes(part, other) + (if HasEdgeIn(other, e.from, e.to) then {e.from, e.to} else {});
    forall x | x in KeptNodes(next, other) ensures x in grown {
      var n, d: Edge<T, P> :| n in next && d in next[n] && HasEdgeIn(other, d.from, d.to) && (x == d.from || x == d.to);
      if d != e {
        assert n in part && d in part[n];
      }
    }
    forall x | x in grown ensures x in KeptNodes(next, other) {
      if x in KeptNodes(part, other) {
        var n, d: Edge<T, P> :| n in part && d in part[n] && HasEdgeIn(other, d.from, d.to) && (x == d.from || x == d.to);
        assert d in next[n];
      } else {
        assert e in next[k];
      }
    }
  }

  /** Maps with the same keys and the same value at every key are equal. */
  lemma MapsEqual<K, V>(a: map<K, V>, b: map<K, V>)
    requires a.Keys == b.Keys
    requires forall k | k in a && k in b :: a[k] == b[k]
    ensures a == b
  {
  }

  /** Processing one more edge of vertex `k` in the intersection loop, when
      `other` links its pair: the edge is added to the result. */
  lemma IntersectedStepKept<T, P, P2>(part: Adjacency<T, P>, other: Adjacency<T, P2>, k: Node<T>, e: Edge<T, P>)
    requires Keyed(part) && k in part && e.from == k
    requires HasEdgeIn(other, e.from, e.to)
    ensures Intersected(part[k := part[k] + [e]], other) == WithEdge(Intersected(part, other), e)
  {
    var next := part[k := part[k] + [e]];
    var before := Intersected(part, other);
    var after := Intersected(next, other);
    var expected := WithEdge(before, e);
    forall n | n in after && n in expected ensures after[n] == expected[n] {
      IntersectedEntryKept(part, other, k, e, n);
    }
    KeptNodesStep(part, other, k, e);
    MapsEqual(after, expected);
  }

  /** The entry of one vertex in that step. */
  lemma IntersectedEntryKept<T, P, P2>(part: Adjacency<T, P>, other: Adjacency<T, P2>, k: Node<T>, e: Edge<T, P>, n: Node<T>)
    requires Keyed(part) && k in part && e.from == k
    requires HasEdgeIn(other, e.from, e.to)
    requires n in Intersected(part[k := part[k] + [e]], other) && n in WithEdge(Intersected(part, other), e)
    ensures Intersected(part[k := part[k] + [e]], other)[n] == WithEdge(Intersected(part, other), e)[n]
  {
    var next := part[k := part[k] + [e]];
    var before := Intersected(part, other);
    if n == k {
      KeptAppend(part[k], e, other);
      KeptTouches(part, other, k);
      assert Outgoing(next, k) == part[k] + [e];
      assert Outgoing(before, k) == Kept(Outgoing(part, k), other);
    } else if n == e.to {
      KeptTouches(part, other, e.to);
      assert Outgoing(next, n) == Outgoing(part, n);
      assert Outgoing(before, n) == Kept(Outgoing(part, n), other);
    } else {
      assert Outgoing(next, n) == Outgoing(part, n);
    }
  }

  /** Processing one more edge of vertex `k` in the intersection loop, when
      `other` does not link its pair: the result stays as it is. */
  lemma IntersectedStepDropped<T, P, P2>(part: Adjacency<T, P>, other: Adjacency<T, P2>, k: Node<T>, e: Edge<T, P>)
    requires k in part
    requires !HasEdgeIn(other, e.from, e.to)
    ensures Intersected(part[k := part[k] + [e]], other) == Intersected(part, other)
  {
    var next := part[k := part[k] + [e]];
    var before := Intersected(part, other);
    var after := Intersected(next, other);
    KeptAppend(part[k], e, other);
    forall n | n in after && n in before ensures after[n] == before[n] {
      if n == k {
        assert Outgoing(next, k) == part[k] + [e];
      } else {
        assert Outgoing(next, n) == Outgoing(part, n);
      }
    }
    KeptNodesStep(part, other, k, e);
    MapsEqual(after, before);
  }

  /** Starting a new vertex of the intersection loop changes nothing. */
  lemma IntersectedNewVertex<T, P, P2>(part: Adjacency<T, P>, other: Adjacency<T, P2>, k: Node<T>)
    requires k !in part
    ensures Intersected(part[k := []], other) == Intersected(part, other)
  {
    var next := part[k := []];
    var before := Intersected(part, other);
    var after := Intersected(next, other);
    forall n | n in after && n in before ensures after[n] == before[n] {
      assert Outgoing(next, n) == Outgoing(part, n);
    }
    KeptNodesNewVertex(part, other, k);
    MapsEqual(after, before);
  }

  lemma KeptNodesNewVertex<T, P, P2>(part: Adjacency<T, P>, other: Adjacency<T, P2>, k: Node<T>)
    requires k !in part
    ensures KeptNodes(part[k := []], other) == KeptNodes(part, other)
  {
    var next := part[k := []];
    forall x | x in KeptNodes(next, other) ensures x in KeptNodes(part, other) {
      var n, d: Edge<T, P> :| n in next && d in next[n] && HasEdgeIn(other, d.from, d.to) && (x == d.from || x == d.to);
      assert n in part && d in part[n];
    }
    forall x | x in KeptNodes(part, other) ensures x in KeptNodes(next, other) {
      var n, d: Edge<T, P> :| n in part && d in part[n] && HasEdgeIn(other, d.from, d.to) && (x == d.from || x == d.to);
      assert n in next && d in next[n];
    }
  }

  /** The intersection holds exactly the receiver's edges whose pair `other` links. */
  lemma IntersectedEdges<T, P, P2>(adj: Adjacency<T, P>, other: Adjacency<T, P2>, e: Edge<T, P>)
    requires Keyed(adj)
    ensures IsEdgeOf(Intersected(adj, other), e) <==> IsEdgeOf(adj, e) && HasEdgeIn(other, e.from, e.to)
  {
    KeptMembers(Outgoing(adj, e.from), other, e);
    if IsEdgeOf(adj, e) && HasEdgeIn(other, e.from, e.to) {
      assert e.from in KeptNodes(adj, other);
    }
  }

  /** A pair is linked in the intersection iff it is linked in both graphs. */
  lemma IntersectedHasEdge<T, P, P2>(adj: Adjacency<T, P>, other: Adjacency<T, P2>, from: Node<T>, to: Node<T>)
    requires Keyed(adj)
    ensures HasEdgeIn(Intersected(adj, other), from, to) <==> HasEdgeIn(adj, from, to) && HasEdgeIn(other, from, to)
  {
    var i := Intersected(adj, other);
    if HasEdgeIn(i, from, to) {
      var e: Edge<T, P> :| e in i[from] && e.to == to;
      KeptMembers(Outgoing(adj, from), other, e);
    }
    if HasEdgeIn(adj, from, to) && HasEdgeIn(other, from, to) {
      var e: Edge<T, P> :| e in adj[from] && e.to == to;
      assert from in KeptNodes(adj, other);
      KeptMembers(adj[from], other, e);
      assert e in i[from];
    }
  }

  /** Every intersection is a well-formed graph. */
  lemma IntersectedWellFormed<T, P, P2>(adj: Adjacency<T, P>, other: Adjacency<T, P2>)
    requires Keyed(adj)
    ensures WellFormed(Intersected(adj, other))
  {
    var i := Intersected(adj, other);
    forall n, e: Edge<T, P> | n in i && e in i[n] ensures e.from == n && e.to in i {
      KeptMembers(Outgoing(adj, n), other, e);
      assert e.to in KeptNodes(adj, other);
    }
  }

  /** The part of the graph made of the lists of the vertices in `keep`. */
  ghost function Restrict<T, P>(adj: Adjacency<T, P>, keep: set<Node<T>>): Adjacency<T, P>
  {
    map n | n in adj && n in keep :: adj[n]
  }

  /** The intersection loop starts on a new vertex `v`: nothing of it is processed yet. */
  lemma IntersectionLoopEnter<T, P, P2>(adj: Adjacency<T, P>, other: Adjacency<T, P2>, done: set<Node<T>>, v: Node<T>)
    requires v in adj && v !in done
    ensures Intersected(Restrict(adj, done)[v := adj[v][..0]], other) == Intersected(Restrict(adj, done), other)
  {
    assert adj[v][..0] == [];
    IntersectedNewVertex(Restrict(adj, done), other, v);
  }

  /** The intersection loop processes entry `j` of vertex `v`'s list. */
  lemma IntersectionLoopStep<T, P, P2>(adj: Adjacency<T, P>, other: Adjacency<T, P2>, done: set<Node<T>>, v: Node<T>, j: nat)
    requires Keyed(adj) && v in adj && j < |adj[v]|
    ensures Intersected(Restrict(adj, done)[v := adj[v][..j + 1]], other)
         == if HasEdgeIn(other, adj[v][j].from, adj[v][j].to)
            then WithEdge(Intersected(Restrict(adj, done)[v := adj[v][..j]], other), adj[v][j])
            else Intersected(Restrict(adj, done)[v := adj[v][..j]], other)
  {
    var part := Restrict(adj, done)[v := adj[v][..j]];
    var e := adj[v][j];
    assert Keyed(part) by {
      forall n, d: Edge<T, P> | n in part && d in part[n] ensures d.from == n {
        assert d in adj[n];
      }
    }
    assert adj[v][..j + 1] == part[v] + [e];
    assert part[v := part[v] + [e]] == Restrict(adj, done)[v := adj[v][..j + 1]];
    assert e in adj[v];
    if HasEdgeIn(other, e.from, e.to) {
      IntersectedStepKept(part, other, v, e);
    } else {
      IntersectedStepDropped(part, other, v, e);
    }
  }

  /** The intersection loop has processed the whole list of vertex `v`. */
  lemma IntersectionLoopLeave<T, P>(adj: Adjacency<T, P>, done: set<Node<T>>, v: Node<T>)
    requires v in adj
    ensures Restrict(adj, done)[v := adj[v][..|adj[v]|]] == Restrict(adj, done + {v})
  {
    assert adj[v][..|adj[v]|] == adj[v];
  }

  // ---------------------------------------------------------------------------
  // Cycles

  /** The edges are edges of the graph and each one starts where the previous one ends. */
  ghost predicate IsChainIn<T, P>(adj: Adjacency<T, P>, edges: seq<Edge<T, P>>)
  {
    (forall i | 0 <= i < |edges| :: IsEdgeOf(adj, edges[i]))
    && (forall i | 0 <= i < |edges| - 1 :: edges[i].to == edges[i + 1].from)
  }

  /** A closed chain of at least one edge. */
  ghost predicate IsCycleIn<T, P>(adj: Adjacency<T, P>, edges: seq<Edge<T, P>>)
  {
    |edges| > 0 && IsChainIn(adj, edges) && edges[|edges| - 1].to == edges[0].from
  }

  /** No vertex is left twice. */
  ghost predicate DistinctFroms<T, P>(edges: seq<Edge<T, P>>)
  {
    forall i, j | 0 <= i < j < |edges| :: edges[i].from != edges[j].from
  }

  /** A cycle that passes through each of its vertices once. */
  ghost predicate IsSimpleCycleIn<T, P>(adj: Adjacency<T, P>, edges: seq<Edge<T, P>>)
  {
    IsCycleIn(adj, edges) && DistinctFroms(edges)
  }

  /** The graph has a directed cycle. */
  ghost predicate HasCycleIn<T(!new), P(!new)>(adj: Adjacency<T, P>)
  {
    exists edges :: IsCycleIn(adj, edges)
  }

  /** The vertices that the edges leave. */
  ghost function Froms<T, P>(edges: seq<Edge<T, P>>): set<Node<T>>
  {
    set i | 0 <= i < |edges| :: edges[i].from
  }

  /** A self-loop on its own is a simple cycle. */
  lemma SelfLoopIsSimpleCycle<T, P>(adj: Adjacency<T, P>, e: Edge<T, P>)
    requires IsEdgeOf(adj, e) && e.from == e.to
    ensures IsSimpleCycleIn(adj, [e])
  {
  }

  /** A graph without vertices has no cycle. */
  lemma EmptyGraphHasNoCycle<T(!new), P(!new)>(adj: Adjacency<T, P>)
    requires adj == map[]
    ensures !HasCycleIn(adj)
  {
  }

  /** The edge after edge `i` round a closed chain of `n` edges. */
  function Successor(i: nat, n: nat): (j: nat)
    requires i < n
    ensures j < n && (i < n - 1 ==> j == i + 1) && (i == n - 1 ==> j == 0)
  {
    if i < n - 1 then i + 1 else 0
  }

  /** Every edge of a cycle ends where its successor starts. */
  lemma CycleSuccessor<T, P>(adj: Adjacency<T, P>, edges: seq<Edge<T, P>>, i: nat)
    requires IsCycleIn(adj, edges) && i < |edges|
    ensures edges[i].to == edges[Successor(i, |edges|)].from
  {
  }

  /** No two edges of a simple cycle end at the same vertex. */
  lemma SimpleCycleDistinctTargets<T, P>(adj: Adjacency<T, P>, edges: seq<Edge<T, P>>)
    requires IsSimpleCycleIn(adj, edges)
    ensures forall i, j | 0 <= i < j < |edges| :: edges[i].to != edges[j].to
  {
    forall i, j | 0 <= i < j < |edges| ensures edges[i].to != edges[j].to {
      CycleSuccessor(adj, edges, i);
      CycleSuccessor(adj, edges, j);
      var si, sj := Successor(i, |edges|), Successor(j, |edges|);
      assert si != sj;
      if si < sj {
        assert edges[si].from != edges[sj].from;
      } else {
        assert edges[sj].from != edges[si].from;
      }
    }
  }

  /** The vertices that the edges enter. */
  ghost function Tos<T, P>(edges: seq<Edge<T, P>>): set<Node<T>>
  {
    set i | 0 <= i < |edges| :: edges[i].to
  }

  /** The vertices a cycle's edges end at are the vertices they start from. */
  lemma CycleTargetsAreSources<T, P>(adj: Adjacency<T, P>, edges: seq<Edge<T, P>>)
    requires IsCycleIn(adj, edges)
    ensures Tos(edges) == Froms(edges)
  {
    var n := |edges|;
    forall v | v in Tos(edges) ensures v in Froms(edges) {
      var i :| 0 <= i < n && edges[i].to == v;
      CycleSuccessor(adj, edges, i);
      assert edges[Successor(i, n)].from == v;
    }
    forall v | v in Froms(edges) ensures v in Tos(edges) {
      var j :| 0 <= j < n && edges[j].from == v;
      var i := if j > 0 then j - 1 else n - 1;
      CycleSuccessor(adj, edges, i);
      assert Successor(i, n) == j;
      assert edges[i].to == v;
    }
  }

  /** The depth-first search's record of finished vertices: each has a finishing
      rank below `clock`, and its edges lead to finished vertices of a smaller rank. */
  ghost predicate Finished<T, P>(adj: Adjacency<T, P>, done: set<Node<T>>, rank: map<Node<T>, nat>, clock: nat)
  {
    forall n | n in done ::
      n in adj && n in rank && rank[n] < clock
      && forall e | e in adj[n] :: e.to in done && e.to in rank && rank[e.to] < rank[n]
  }

  /** Along a chain that starts at a finished vertex the rank falls at every edge. */
  lemma {:induction false} ChainRankFalls<T, P>(adj: Adjacency<T, P>, done: set<Node<T>>, rank: map<Node<T>, nat>, clock: nat,
                                                edges: seq<Edge<T, P>>, k: nat)
    requires Finished(adj, done, rank, clock)
    requires IsChainIn(adj, edges) && 0 <= k < |edges| && edges[0].from in done
    ensures edges[k].to in done && edges[k].to in rank && rank[edges[k].to] < rank[edges[0].from]
    decreases k
  {
    assert IsEdgeOf(adj, edges[k]);
    if k > 0 {
      ChainRankFalls(adj, done, rank, clock, edges, k - 1);
      assert edges[k].from == edges[k - 1].to;
    }
  }

  /** When every vertex has finished, the graph has no cycle. */
  lemma AllFinishedNoCycle<T(!new), P(!new)>(adj: Adjacency<T, P>, rank: map<Node<T>, nat>, clock: nat)
    requires Finished(adj, adj.Keys, rank, clock)
    ensures !HasCycleIn(adj)
  {
    if HasCycleIn(adj) {
      var edges :| IsCycleIn(adj, edges);
      assert IsEdgeOf(adj, edges[0]);
      ChainRankFalls(adj, adj.Keys, rank, clock, edges, |edges| - 1);
    }
  }

  /** The search state on entry to a vertex `current`: the stack path is a chain
      of graph edges ending at `current`, it leaves each stacked vertex once, and
      `current` itself is not stacked yet. */
  ghost predicate StackPath<T, P>(adj: Adjacency<T, P>, path: seq<Edge<T, P>>, inStack: set<Node<T>>, current: Node<T>)
  {
    IsChainIn(adj, path) && DistinctFroms(path) && Froms(path) == inStack
    && (path != [] ==> path[|path| - 1].to == current)
  }

  /** The first index of `path` whose edge leaves `n`, or `|path|` if there is none. */
  function IndexOfFrom<T(==), P>(path: seq<Edge<T, P>>, n: Node<T>): (r: nat)
    ensures r <= |path|
    ensures forall i | 0 <= i < r :: path[i].from != n
    ensures r < |path| ==> path[r].from == n
    decreases |path|
  {
    if path == [] then 0
    else if path[0].from == n then 0
    else 1 + IndexOfFrom(path[1..], n)
  }

  /** Pushing the edge that leaves the top vertex keeps the stack path's shape. */
  lemma StackPathPush<T, P>(adj: Adjacency<T, P>, path: seq<Edge<T, P>>, inStack: set<Node<T>>,
                            current: Node<T>, edge: Edge<T, P>)
    requires StackPath(adj, path, inStack, current) && current !in inStack
    requires IsEdgeOf(adj, edge) && edge.from == current
    ensures StackPath(adj, path + [edge], inStack + {current}, edge.to)
  {
    var pushed := path + [edge];
    assert Froms(pushed) == Froms(path) + {current} by {
      forall x | x in Froms(pushed) ensures x in Froms(path) + {current} {
        var i :| 0 <= i < |pushed| && pushed[i].from == x;
        if i < |path| { assert pushed[i] == path[i]; }
      }
      forall x | x in Froms(path) ensures x in Froms(pushed) {
        var i :| 0 <= i < |path| && path[i].from == x;
        assert pushed[i] == path[i];
      }
      assert pushed[|path|].from == current;
    }
    forall a, b | 0 <= a < b < |pushed| ensures pushed[a].from != pushed[b].from {
      assert pushed[a] == path[a];
      if b < |path| {
        assert pushed[b] == path[b];
      } else {
        assert path[a].from in Froms(path);
      }
    }
  }

  /** A back edge from the top vertex to itself closes a one-edge cycle,
      because no stacked edge leaves the top vertex. */
  lemma ClosedSelfLoopIsSimple<T, P>(adj: Adjacency<T, P>, path: seq<Edge<T, P>>, inStack: set<Node<T>>,
                                     current: Node<T>, edge: Edge<T, P>)
    requires StackPath(adj, path, inStack, current) && current !in inStack
    requires IsEdgeOf(adj, edge) && edge.from == current && edge.to == current
    ensures path[IndexOfFrom(path, edge.to)..] == []
    ensures IsSimpleCycleIn(adj, path[IndexOfFrom(path, edge.to)..] + [edge])
  {
    var j := IndexOfFrom(path, edge.to);
    assert forall i | 0 <= i < |path| :: path[i].from in Froms(path);
    assert j == |path|;
    assert path[j..] + [edge] == [edge];
  }

  /** A back edge from the top vertex to a vertex lower in the stack closes a
      simple cycle: the stacked edges from that vertex on, then the back edge. */
  lemma ClosedCycleIsSimple<T, P>(adj: Adjacency<T, P>, path: seq<Edge<T, P>>, inStack: set<Node<T>>,
                                  current: Node<T>, edge: Edge<T, P>)
    requires StackPath(adj, path, inStack, current) && current !in inStack
    requires IsEdgeOf(adj, edge) && edge.from == current && edge.to in inStack
    ensures IsSimpleCycleIn(adj, path[IndexOfFrom(path, edge.to)..] + [edge])
  {
    var j := IndexOfFrom(path, edge.to);
    var i :| 0 <= i < |path| && path[i].from == edge.to;
    assert j <= i;
    SuffixChain(adj, path, j, edge);
    SuffixDistinct(path, j, edge);
  }

  /** A suffix of a chain that ends where `edge` starts, followed by `edge`, is a chain. */
  lemma SuffixChain<T, P>(adj: Adjacency<T, P>, path: seq<Edge<T, P>>, j: nat, edge: Edge<T, P>)
    requires IsChainIn(adj, path) && j < |path| && path[|path| - 1].to == edge.from && IsEdgeOf(adj, edge)
    ensures IsChainIn(adj, path[j..] + [edge])
  {
    var cycle := path[j..] + [edge];
    forall a | 0 <= a < |cycle| ensures IsEdgeOf(adj, cycle[a]) {
      if a < |path| - j { assert cycle[a] == path[j + a]; }
    }
    forall a | 0 <= a < |cycle| - 1 ensures cycle[a].to == cycle[a + 1].from {
      if a < |path| - j - 1 {
        assert cycle[a] == path[j + a] && cycle[a + 1] == path[j + a + 1];
      }
    }
  }

  /** Closing a suffix of a path with distinct sources by an edge from a vertex
      the path never leaves keeps the sources distinct. */
  lemma SuffixDistinct<T, P>(path: seq<Edge<T, P>>, j: nat, edge: Edge<T, P>)
    requires DistinctFroms(path) && j <= |path| && edge.from !in Froms(path)
    ensures DistinctFroms(path[j..] + [edge])
  {
    var cycle := path[j..] + [edge];
    forall a, b | 0 <= a < b < |cycle| ensures cycle[a].from != cycle[b].from {
      assert cycle[a] == path[j + a];
      if b < |path| - j {
        assert cycle[b] == path[j + b];
      } else {
        assert path[j + a].from in Froms(path);
      }
    }
  }

  /** A vertex whose edges all lead to finished vertices finishes with the next rank. */
  lemma FinishVertex<T, P>(adj: Adjacency<T, P>, done: set<Node<T>>, rank: map<Node<T>, nat>, clock: nat, current: Node<T>)
    requires Finished(adj, done, rank, clock)
    requires current in adj && current !in done
    requires forall e | e in adj[current] :: e.to in done
    ensures Finished(adj, done + {current}, rank[current := clock], clock + 1)
  {
  }

  // ---------------------------------------------------------------------------
  // The mutable graph

  /** The graph object: its adjacency map is updated in place by `AddEdge` and
      `RemoveEdge`. */
  class Graph<T(==,!new), P(!new)> {
    var adjacency: Adjacency<T, P>

    ghost predicate Valid()
      reads this
    {
      WellFormed(adjacency)
    }

    /** A new graph has no vertices. */
    constructor ()
      ensures Valid() && adjacency == map[]
    {
      adjacency := map[];
    }

    /** Appends `edge` to the list of its `from` vertex and registers its `to`
        vertex with an empty list if it is new. */
    method AddEdge(edge: Edge<T, P>)
      requires Valid()
      modifies this
      ensures Valid()
      ensures adjacency == WithEdge(old(adjacency), edge)
    {
      var edges := if edge.from in adjacency then adjacency[edge.from] else [];
      adjacency := adjacency[edge.from := edges + [edge]];
      if edge.to !in adjacency {
        adjacency := adjacency[edge.to := []];
      }
      WithEdgeWellFormed(old(adjacency), edge);
    }

    /** Whether some edge leads from `from` to `to`; false for an unknown `from`. */
    function HasEdge(from: Node<T>, to: Node<T>): (r: bool)
      reads this
      ensures r <==> HasEdgeIn(adjacency, from, to)
    {
      if from !in adjacency then false
      else
        var answer := AnyEdgeTo(adjacency[from], to);
        assert answer ==> exists i :: 0 <= i < |adjacency[from]| && adjacency[from][i].to == to;
        answer
    }

    /** A new graph holding the receiver's edges whose pair `other` links, with
        the receiver's payloads and duplicates; the receiver is not changed. */
    method Intersection<P2(!new)>(other: Graph<T, P2>) returns (result: Graph<T, P>)
      requires Valid()
      ensures fresh(result) && result.Valid()
      ensures result.adjacency == Intersected(adjacency, other.adjacency)
    {
      result := new Graph();
      ghost var done: set<Node<T>> := {};
      var remaining := adjacency.Keys;
      while remaining != {}
        invariant remaining <= adjacency.Keys && done == adjacency.Keys - remaining
        invariant fresh(result) && result.Valid()
        invariant result.adjacency == Intersected(Restrict(adjacency, done), other.adjacency)
        decreases remaining
      {
        var vertex :| vertex in remaining;
        var edges := adjacency[vertex];
        IntersectionLoopEnter(adjacency, other.adjacency, done, vertex);
        var j := 0;
        while j < |edges|
          invariant 0 <= j <= |edges|
          invariant fresh(result) && result.Valid()
          invariant result.adjacency == Intersected(Restrict(adjacency, done)[vertex := edges[..j]], other.adjacency)
        {
          var edge := edges[j];
          IntersectionLoopStep(adjacency, other.adjacency, done, vertex, j);
          if other.HasEdge(edge.from, edge.to) {
            result.AddEdge(edge);
          }
          j := j + 1;
        }
        IntersectionLoopLeave(adjacency, done, vertex);
        done := done + {vertex};
        remaining := remaining - {vertex};
      }
      assert Restrict(adjacency, done) == adjacency;
    }

    /** `removeEdge` as written: walks the list of `edge.from` forward by index
        and removes each entry ending at `edge.to`, stepping over the entry that
        slides into the freed index. */
    method RemoveEdge(edge: Edge<T, P>)
      requires Valid()
      modifies this
      ensures Valid()
      ensures adjacency == WithoutEdge(old(adjacency), edge)
    {
      WithoutEdgeWellFormed(adjacency, edge);
      if edge.from in adjacency {
        ghost var original := adjacency[edge.from];
        var edges := adjacency[edge.from];
        var i := 0;
        while i < |edges|
          invariant i <= |edges| + 1
          invariant adjacency == old(adjacency)
          invariant i <= |edges| ==> edges[..i] + RemovedSkipping(edges[i..], edge.to) == RemovedSkipping(original, edge.to)
          invariant i == |edges| + 1 ==> edges == RemovedSkipping(original, edge.to)
          decreases |edges| + 1 - i
        {
          if edges[i].to == edge.to {
            RemovedSkippingMatchStep(edges, i, edge.to);
            edges := edges[..i] + edges[i + 1..];
          } else {
            RemovedSkippingKeepStep(edges, i, edge.to);
          }
          i := i + 1;
        }
        if i == |edges| {
          assert edges[..i] == edges && edges[i..] == [];
        }
        assert edges == RemovedSkipping(original, edge.to);
        adjacency := adjacency[edge.from := edges];
      }
    }

    /** The corrected removal: deletes every entry of `edge.from`'s list that
        ends at `edge.to`, looking at each entry once. */
    method RemoveAllEdges(edge: Edge<T, P>)
      requires Valid()
      modifies this
      ensures Valid()
      ensures adjacency == WithoutAllEdges(old(adjacency), edge)
    {
      WithoutAllEdgesWellFormed(adjacency, edge);
      if edge.from in adjacency {
        ghost var original := adjacency[edge.from];
        var edges := adjacency[edge.from];
        var i := 0;
        while i < |edges|
          invariant i <= |edges|
          invariant adjacency == old(adjacency)
          invariant edges[..i] + EdgesNotTo(edges[i..], edge.to) == EdgesNotTo(original, edge.to)
          decreases |edges| - i
        {
          if edges[i].to == edge.to {
            EdgesNotToDropStep(edges, i, edge.to);
            edges := edges[..i] + edges[i + 1..];
          } else {
            EdgesNotToKeepStep(edges, i, edge.to);
            i := i + 1;
          }
        }
        assert edges[..i] == edges && edges[i..] == [];
        assert edges == EdgesNotTo(original, edge.to);
        adjacency := adjacency[edge.from := edges];
      }
    }

    /** Closes the cycle that `edge` forms with the stacked `path`: the path's
        edges from the first one leaving `edge.to` on, then `edge`. */
    method ClosedCycle(path: seq<Edge<T, P>>, edge: Edge<T, P>) returns (cycle: seq<Edge<T, P>>)
      ensures cycle == path[IndexOfFrom(path, edge.to)..] + [edge]
    {
      var neighbor := edge.to;
      cycle := [];
      var foundStart := false;
      var i := 0;
      while i < |path|
        invariant 0 <= i <= |path|
        invariant foundStart <==> IndexOfFrom(path, neighbor) < i
        invariant foundStart ==> cycle == path[IndexOfFrom(path, neighbor)..i]
        invariant !foundStart ==> cycle == []
      {
        if path[i].from == neighbor || foundStart {
          foundStart := true;
          cycle := cycle + [path[i]];
        }
        i := i + 1;
      }
      cycle := cycle + [edge];
    }

    /** The recursive depth-first search from `current` (`findCycleDFS`). The
        sets `visited` and `inStack` are passed in and handed back; `path` is the
        stack of edges that led to `current`. The ghost `rank` and `clock`
        record the order in which vertices finish. */
    method FindCycleDfs(current: Node<T>, visitedIn: set<Node<T>>, inStackIn: set<Node<T>>, pathIn: seq<Edge<T, P>>,
                        ghost rankIn: map<Node<T>, nat>, ghost clockIn: nat)
      returns (cycle: Option<Path<T, P>>, visited: set<Node<T>>, inStack: set<Node<T>>,
               ghost rank: map<Node<T>, nat>, ghost clock: nat)
      requires Valid()
      requires current in adjacency && current !in visitedIn
      requires inStackIn <= visitedIn <= adjacency.Keys
      requires StackPath(adjacency, pathIn, inStackIn, current)
      requires Finished(adjacency, visitedIn - inStackIn, rankIn, clockIn)
      ensures cycle.Some? ==> IsSimpleCycleIn(adjacency, cycle.value.edges)
      ensures cycle.None? ==> inStack == inStackIn
      ensures cycle.None? ==> visitedIn + {current} <= visited <= adjacency.Keys
      ensures cycle.None? ==> Finished(adjacency, visited - inStack, rank, clock)
      decreases adjacency.Keys - visitedIn
    {
      visited := visitedIn + {current};
      inStack := inStackIn + {current};
      rank, clock := rankIn, clockIn;
      var path := pathIn;
      var edges := Outgoing(adjacency, current);
      var k := 0;
      while k < |edges|
        invariant 0 <= k <= |edges|
        invariant inStack == inStackIn + {current} && path == pathIn
        invariant visitedIn + {current} <= visited <= adjacency.Keys
        invariant Finished(adjacency, visited - inStack, rank, clock)
        invariant forall i | 0 <= i < k :: edges[i].to in visited - inStack
      {
        var edge := edges[k];
        assert edge in adjacency[current];
        var neighbor := edge.to;
        if neighbor in inStack {
          var closed := ClosedCycle(path, edge);
          if neighbor == current {
            ClosedSelfLoopIsSimple(adjacency, path, inStackIn, current, edge);
          } else {
            ClosedCycleIsSimple(adjacency, path, inStackIn, current, edge);
          }
          return Some(Path(closed)), visited, inStack, rank, clock;
        }
        if neighbor !in visited {
          StackPathPush(adjacency, path, inStackIn, current, edge);
          path := path + [edge];
          var found;
          found, visited, inStack, rank, clock := FindCycleDfs(neighbor, visited, inStack, path, rank, clock);
          if found.Some? {
            return found, visited, inStack, rank, clock;
          }
          path := path[..|path| - 1];
          assert path == pathIn;
        }
        k := k + 1;
      }
      FinishVertex(adjacency, visited - inStack, rank, clock, current);
      assert visited - inStackIn == (visited - inStack) + {current};
      inStack := inStack - {current};
      assert inStack == inStackIn;
      rank := rank[current := clock];
      clock := clock + 1;
      cycle := None;
    }

    /** Searches from every vertex not yet visited, in no particular order, and
        returns the first cycle found; nothing when the graph has no cycle. */
    method FindFirstCycle() returns (cycle: Option<Path<T, P>>)
      requires Valid()
      ensures cycle.Some? ==> IsSimpleCycleIn(adjacency, cycle.value.edges)
      ensures cycle.None? <==> !HasCycleIn(adjacency)
    {
      var visited: set<Node<T>> := {};
      var inStack: set<Node<T>> := {};
      ghost var rank: map<Node<T>, nat> := map[];
      ghost var clock: nat := 0;
      var remaining := adjacency.Keys;
      while remaining != {}
        invariant remaining <= adjacency.Keys
        invariant inStack == {}
        invariant adjacency.Keys - remaining <= visited <= adjacency.Keys
        invariant Finished(adjacency, visited, rank, clock)
        decreases remaining
      {
        var node :| node in remaining;
        if node !in visited {
          var found;
          found, visited, inStack, rank, clock := FindCycleDfs(node, visited, inStack, [], rank, clock);
          if found.Some? {
            assert IsCycleIn(adjacency, found.value.edges);
            return found;
          }
          assert visited - inStack == visited;
        }
        remaining := remaining - {node};
      }
      assert visited == adjacency.Keys;
      AllFinishedNoCycle(adjacency, rank, clock);
      cycle := None;
    }
  }
}
