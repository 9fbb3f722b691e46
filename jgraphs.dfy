/**
 * The jgrapht graph classes the modelled code fills and queries, reduced to
 * the behaviour it relies on. These are library classes, not part of the
 * repository; their behaviour is stated as jgrapht documents it.
 */
module JGraphs {

  /** The vertices that some edge of `edges` starts or ends at. */
  function Endpoints<V>(edges: set<(V, V)>): set<V>
  {
    (set e | e in edges :: e.0) + (set e | e in edges :: e.1)
  }

  lemma EndpointsOfUnion<V>(a: set<(V, V)>, b: set<(V, V)>)
    ensures Endpoints(a + b) == Endpoints(a) + Endpoints(b)
  {
  }

  lemma EndpointsOfInsert<V>(a: set<(V, V)>, from: V, to: V)
    ensures Endpoints(a + {(from, to)}) == Endpoints(a) + {from, to}
  {
    EndpointsOfUnion(a, {(from, to)});
    assert Endpoints({(from, to)}) == {from, to};
  }

  /**
   * A `DefaultDirectedGraph` with `DefaultEdge`s: a vertex set and a set of
   * (source, target) pairs. Self-loops are allowed; a second edge between
   * the same ordered pair is refused, so the edges form a set.
   */
  class DirectedGraph<V(==)> {
    var vertices: set<V>
    var edges: set<(V, V)>

    ghost predicate Valid()
      reads this
    {
      Endpoints(edges) <= vertices
    }

    constructor ()
      ensures vertices == {} && edges == {}
      ensures Valid()
    {
      vertices := {};
      edges := {};
    }

    /** `addVertex`: adding a vertex that is already there changes nothing. */
    method AddVertex(v: V)
      modifies this
      ensures vertices == old(vertices) + {v}
      ensures edges == old(edges)
    {
      vertices := vertices + {v};
    }

    /**
     * `addEdge(source, target)`: both vertices must already be in the graph
     * (jgrapht throws otherwise); an edge already present changes nothing.
     */
    method AddEdge(source: V, target: V)
      requires source in vertices && target in vertices
      modifies this
      ensures edges == old(edges) + {(source, target)}
      ensures vertices == old(vertices)
    {
      edges := edges + {(source, target)};
    }

    /** `containsEdge(source, target)`. */
    function ContainsEdge(source: V, target: V): bool
      reads this
    {
      (source, target) in edges
    }
  }

  /**
   * A `SimpleGraph` with `DefaultEdge`s: undirected, so an edge is the set of
   * its two end vertices; no self-loops and no parallel edges.
   */
  class SimpleGraph<V(==)> {
    var vertices: set<V>
    var edges: set<set<V>>

    ghost predicate Valid()
      reads this
    {
      forall e | e in edges :: |e| == 2 && e <= vertices
    }

    constructor ()
      ensures vertices == {} && edges == {}
      ensures Valid()
    {
      vertices := {};
      edges := {};
    }

    method AddVertex(v: V)
      modifies this
      ensures vertices == old(vertices) + {v}
      ensures edges == old(edges)
    {
      vertices := vertices + {v};
    }

    /**
     * `addEdge(u, v)`: both vertices must be in the graph and distinct
     * (jgrapht throws on a loop); an edge already present in either
     * direction changes nothing.
     */
    method AddEdge(u: V, v: V)
      requires u in vertices && v in vertices && u != v
      modifies this
      ensures edges == old(edges) + {{u, v}}
      ensures vertices == old(vertices)
    {
      edges := edges + {{u, v}};
    }
  }

  /**
   * A `DefaultDirectedGraph` whose edges are values of type `E` (as the
   * journey graph's `Condition`s are): each edge value is stored once with
   * its (source, target) pair, and a second edge between the same ordered
   * pair is refused.
   */
  class LabelledGraph<V(==), E(==)> {
    var vertices: set<V>
    var edges: map<E, (V, V)>

    ghost predicate Valid()
      reads this
    {
      Endpoints(edges.Values) <= vertices
    }

    constructor ()
      ensures vertices == {} && edges == map[]
      ensures Valid()
    {
      vertices := {};
      edges := map[];
    }

    method AddVertex(v: V)
      modifies this
      ensures vertices == old(vertices) + {v}
      ensures edges == old(edges)
    {
      vertices := vertices + {v};
    }

    /**
     * `addEdge(source, target, e)`: refused (the graph is unchanged) when
     * `e` is already an edge or when some edge already joins `source` to
     * `target`; otherwise `e` is added from `source` to `target`.
     */
    method AddEdge(source: V, target: V, e: E)
      requires source in vertices && target in vertices
      modifies this
      ensures e in old(edges) || (source, target) in old(edges).Values ==> edges == old(edges)
      ensures e !in old(edges) && (source, target) !in old(edges).Values ==>
                edges == old(edges)[e := (source, target)]
      ensures vertices == old(vertices)
    {
      if e !in edges && (source, target) !in edges.Values {
        edges := edges[e := (source, target)];
      }
    }
  }
}
