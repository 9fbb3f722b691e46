/**
 * The influence map of physics processes across laboratories: which
 * (process, laboratory) unit disturbs which, derived from process-to-process
 * influence and the laboratories, plus explicit infrastructure influence.
 * On top of it, the conflict count of a new reservation, the undirected
 * influence graph of a set of reservations, and influence zones.
 */
module Influence {
  import opened Wrappers
  import opened JGraphs
  import opened Cardinality

  datatype PhysicsProcess = PhysicsProcess(name: string)

  datatype Laboratory = Laboratory(name: string)

  /** A physics process running in a laboratory: a vertex of the influence map. */
  datatype InfluenceUnit = InfluenceUnit(process: PhysicsProcess, laboratory: Laboratory)

  datatype Reservation = Reservation(process: PhysicsProcess, laboratory: Laboratory)

  /** The unit a reservation occupies. */
  function UnitOf(r: Reservation): InfluenceUnit
  {
    InfluenceUnit(r.process, r.laboratory)
  }

  /** The edges of a `PhysicsInfluence` graph: (p, q) when process p disturbs process q. */
  type PhysicsInfluence = set<(PhysicsProcess, PhysicsProcess)>

  /** The edges of a `LaboratoryAdjacency` graph: (l1, l2) when lab l1 reaches lab l2. */
  type LaboratoryAdjacency = set<(Laboratory, Laboratory)>

  /** The edges of an `InfrastructureInfluence` graph, between units directly. */
  type InfrastructureInfluence = set<(InfluenceUnit, InfluenceUnit)>

  type UnitEdges = set<(InfluenceUnit, InfluenceUnit)>

  // ---------------------------------------------------------------------------
  // The derived edge sets
  // ---------------------------------------------------------------------------

  /** (p, l1) → (q, l2) for every physics edge p → q, l1 in `sources` and l2 in `targets`. */
  function LabProduct(physics: PhysicsInfluence, sources: set<Laboratory>, targets: set<Laboratory>): UnitEdges
  {
    set e, l1, l2 | e in physics && l1 in sources && l2 in targets :: Spread(e, l1, l2)
  }

  /** The unit edge a physics edge induces from lab `l1` to lab `l2`. */
  function Spread(e: (PhysicsProcess, PhysicsProcess), l1: Laboratory, l2: Laboratory): (InfluenceUnit, InfluenceUnit)
  {
    (InfluenceUnit(e.0, l1), InfluenceUnit(e.1, l2))
  }

  /** The edges the lab-set construction derives: every physics edge between every pair of labs. */
  function CartesianEdges(physics: PhysicsInfluence, labs: set<Laboratory>): UnitEdges
  {
    LabProduct(physics, labs, labs)
  }

  /** The edges the adjacency construction derives: every physics edge along every adjacency edge. */
  function AdjacencyEdges(physics: PhysicsInfluence, adjacency: LaboratoryAdjacency): UnitEdges
  {
    set e, a | e in physics && a in adjacency :: Along(e, a)
  }

  /** The unit edge a physics edge induces along an adjacency edge. */
  function Along(e: (PhysicsProcess, PhysicsProcess), a: (Laboratory, Laboratory)): (InfluenceUnit, InfluenceUnit)
  {
    (InfluenceUnit(e.0, a.0), InfluenceUnit(e.1, a.1))
  }

  lemma LabProductSplitPhysics(a: PhysicsInfluence, b: PhysicsInfluence, sources: set<Laboratory>, targets: set<Laboratory>)
    ensures LabProduct(a + b, sources, targets) == LabProduct(a, sources, targets) + LabProduct(b, sources, targets)
  {
  }

  lemma LabProductSplitSources(physics: PhysicsInfluence, a: set<Laboratory>, b: set<Laboratory>, targets: set<Laboratory>)
    ensures LabProduct(physics, a + b, targets) == LabProduct(physics, a, targets) + LabProduct(physics, b, targets)
  {
  }

  lemma LabProductSplitTargets(physics: PhysicsInfluence, sources: set<Laboratory>, a: set<Laboratory>, b: set<Laboratory>)
    ensures LabProduct(physics, sources, a + b) == LabProduct(physics, sources, a) + LabProduct(physics, sources, b)
  {
  }

  lemma LabProductSingle(e: (PhysicsProcess, PhysicsProcess), l1: Laboratory, l2: Laboratory)
    ensures LabProduct({e}, {l1}, {l2}) == {(InfluenceUnit(e.0, l1), InfluenceUnit(e.1, l2))}
  {
  }

  lemma AdjacencySplitPhysics(a: PhysicsInfluence, b: PhysicsInfluence, adjacency: LaboratoryAdjacency)
    ensures AdjacencyEdges(a + b, adjacency) == AdjacencyEdges(a, adjacency) + AdjacencyEdges(b, adjacency)
  {
  }

  lemma AdjacencySplitLabs(physics: PhysicsInfluence, a: LaboratoryAdjacency, b: LaboratoryAdjacency)
    ensures AdjacencyEdges(physics, a + b) == AdjacencyEdges(physics, a) + AdjacencyEdges(physics, b)
  {
  }

  lemma AdjacencySingle(e: (PhysicsProcess, PhysicsProcess), d: (Laboratory, Laboratory))
    ensures AdjacencyEdges({e}, {d}) == {(InfluenceUnit(e.0, d.0), InfluenceUnit(e.1, d.1))}
  {
  }

  lemma LabProductStep(e: (PhysicsProcess, PhysicsProcess), l1: Laboratory, done: set<Laboratory>, l2: Laboratory)
    ensures LabProduct({e}, {l1}, done + {l2}) == LabProduct({e}, {l1}, done) + {(InfluenceUnit(e.0, l1), InfluenceUnit(e.1, l2))}
  {
    LabProductSplitTargets({e}, {l1}, done, {l2});
    LabProductSingle(e, l1, l2);
  }

  lemma AdjacencyStep(e: (PhysicsProcess, PhysicsProcess), done: LaboratoryAdjacency, d: (Laboratory, Laboratory))
    ensures AdjacencyEdges({e}, done + {d}) == AdjacencyEdges({e}, done) + {(InfluenceUnit(e.0, d.0), InfluenceUnit(e.1, d.1))}
  {
    AdjacencySplitLabs({e}, done, {d});
    AdjacencySingle(e, d);
  }

  /** In the lab-set construction (p1, l1) → (p2, l2) is derived iff p1 → p2 and both labs are in the set. */
  lemma CartesianEdgesIff(physics: PhysicsInfluence, labs: set<Laboratory>, from: InfluenceUnit, to: InfluenceUnit)
    ensures (from, to) in CartesianEdges(physics, labs) <==>
              (from.process, to.process) in physics && from.laboratory in labs && to.laboratory in labs
  {
    if (from.process, to.process) in physics && from.laboratory in labs && to.laboratory in labs {
      var e := (from.process, to.process);
      assert (InfluenceUnit(e.0, from.laboratory), InfluenceUnit(e.1, to.laboratory)) == (from, to);
    }
  }

  /** In the adjacency construction (p1, l1) → (p2, l2) is derived iff p1 → p2 and l1 → l2. */
  lemma AdjacencyEdgesIff(physics: PhysicsInfluence, adjacency: LaboratoryAdjacency, from: InfluenceUnit, to: InfluenceUnit)
    ensures (from, to) in AdjacencyEdges(physics, adjacency) <==>
              (from.process, to.process) in physics && (from.laboratory, to.laboratory) in adjacency
  {
    if (from.process, to.process) in physics && (from.laboratory, to.laboratory) in adjacency {
      var e := (from.process, to.process);
      var d := (from.laboratory, to.laboratory);
      assert (InfluenceUnit(e.0, d.0), InfluenceUnit(e.1, d.1)) == (from, to);
    }
  }

  /** The lab-set construction derives |physics edges| · |labs|² edges. */
  lemma {:induction false} CartesianEdgeCount(physics: PhysicsInfluence, labs: set<Laboratory>)
    ensures |CartesianEdges(physics, labs)| == |physics| * (|labs| * |labs|)
  {
    var f := (x: ((PhysicsProcess, PhysicsProcess), (Laboratory, Laboratory))) => Spread(x.0, x.1.0, x.1.1);
    var domain := Product(physics, Product(labs, labs));
    ProductSize(labs, labs);
    ProductSize(physics, Product(labs, labs));
    InjectiveImage(domain, f);
    var image := Image(domain, f);
    forall u | u in CartesianEdges(physics, labs)
      ensures u in image
    {
      var e, l1, l2 :| e in physics && l1 in labs && l2 in labs && u == Spread(e, l1, l2);
      assert (e, (l1, l2)) in domain && f((e, (l1, l2))) == u;
    }
    forall u | u in image
      ensures u in CartesianEdges(physics, labs)
    {
      var x :| x in domain && u == f(x);
      assert x.0 in physics && x.1.0 in labs && x.1.1 in labs;
    }
    assert CartesianEdges(physics, labs) == image;
  }

  /** The adjacency construction derives |physics edges| · |adjacency edges| edges. */
  lemma {:induction false} AdjacencyEdgeCount(physics: PhysicsInfluence, adjacency: LaboratoryAdjacency)
    ensures |AdjacencyEdges(physics, adjacency)| == |physics| * |adjacency|
  {
    var f := (x: ((PhysicsProcess, PhysicsProcess), (Laboratory, Laboratory))) => Along(x.0, x.1);
    var domain := Product(physics, adjacency);
    ProductSize(physics, adjacency);
    InjectiveImage(domain, f);
    var image := Image(domain, f);
    forall u | u in AdjacencyEdges(physics, adjacency)
      ensures u in image
    {
      var e, d :| e in physics && d in adjacency && u == Along(e, d);
      assert (e, d) in domain && f((e, d)) == u;
    }
    forall u | u in image
      ensures u in AdjacencyEdges(physics, adjacency)
    {
      var x :| x in domain && u == f(x);
      assert x.0 in physics && x.1 in adjacency;
    }
    assert AdjacencyEdges(physics, adjacency) == image;
  }

  /** Infrastructure edges the derivation does not already produce add one edge each. */
  lemma LabSetEdgeCount(physics: PhysicsInfluence, infrastructure: InfrastructureInfluence, labs: set<Laboratory>)
    requires CartesianEdges(physics, labs) !! infrastructure
    ensures |CartesianEdges(physics, labs) + infrastructure| == |physics| * (|labs| * |labs|) + |infrastructure|
  {
    CartesianEdgeCount(physics, labs);
  }

  /** Whether reservation `a` disturbs reservation `b` in the lab-set construction. */
  lemma LabSetInfluence(physics: PhysicsInfluence, infrastructure: InfrastructureInfluence, labs: set<Laboratory>,
                        a: Reservation, b: Reservation)
    ensures (UnitOf(a), UnitOf(b)) in CartesianEdges(physics, labs) + infrastructure <==>
              ((a.process, b.process) in physics && a.laboratory in labs && b.laboratory in labs) ||
              (UnitOf(a), UnitOf(b)) in infrastructure
  {
    CartesianEdgesIff(physics, labs, UnitOf(a), UnitOf(b));
  }

  /** Whether reservation `a` disturbs reservation `b` in the adjacency construction. */
  lemma AdjacencyInfluence(physics: PhysicsInfluence, infrastructure: InfrastructureInfluence,
                           adjacency: LaboratoryAdjacency, a: Reservation, b: Reservation)
    ensures (UnitOf(a), UnitOf(b)) in AdjacencyEdges(physics, adjacency) + infrastructure <==>
              ((a.process, b.process) in physics && (a.laboratory, b.laboratory) in adjacency) ||
              (UnitOf(a), UnitOf(b)) in infrastructure
  {
    AdjacencyEdgesIff(physics, adjacency, UnitOf(a), UnitOf(b));
  }

  // ---------------------------------------------------------------------------
  // Filling the result graph
  // ---------------------------------------------------------------------------

  /** Adds the two units and the edge between them, as every loop body of the constructions does. */
  method AddUnitEdge(result: DirectedGraph<InfluenceUnit>, from: InfluenceUnit, to: InfluenceUnit)
    requires result.vertices == Endpoints(result.edges)
    modifies result
    ensures result.edges == old(result.edges) + {(from, to)}
    ensures result.vertices == Endpoints(result.edges)
  {
    ghost var before := result.edges;
    result.AddVertex(from);
    result.AddVertex(to);
    result.AddEdge(from, to);
    EndpointsOfInsert(before, from, to);
  }

  /**
   * `cartesianOf`: every physics edge between every ordered pair of labs (a
   * lab with itself included). The two lab loops nested inside the physics
   * loop are `AddLabPairs` and `AddLabRow`.
   */
  method CartesianOf(physics: PhysicsInfluence, labs: set<Laboratory>) returns (result: DirectedGraph<InfluenceUnit>)
    ensures fresh(result)
    ensures result.edges == CartesianEdges(physics, labs)
    ensures result.vertices == Endpoints(result.edges)
  {
    result := new DirectedGraph();
    var pending := physics;
    ghost var done: PhysicsInfluence := {};
    while pending != {}
      invariant done + pending == physics
      invariant fresh(result)
      invariant result.edges == LabProduct(done, labs, labs)
      invariant result.vertices == Endpoints(result.edges)
      decreases |pending|
    {
      var edge :| edge in pending;
      AddLabPairs(result, edge, labs);
      LabProductSplitPhysics(done, {edge}, labs, labs);
      done := done + {edge};
      pending := pending - {edge};
    }
  }

  /** The loops over `lab1` and `lab2` for one physics edge. */
  method AddLabPairs(result: DirectedGraph<InfluenceUnit>, edge: (PhysicsProcess, PhysicsProcess), labs: set<Laboratory>)
    requires result.vertices == Endpoints(result.edges)
    modifies result
    ensures result.edges == old(result.edges) + LabProduct({edge}, labs, labs)
    ensures result.vertices == Endpoints(result.edges)
  {
    var pendingSources := labs;
    ghost var doneSources: set<Laboratory> := {};
    while pendingSources != {}
      invariant doneSources + pendingSources == labs
      invariant result.edges == old(result.edges) + LabProduct({edge}, doneSources, labs)
      invariant result.vertices == Endpoints(result.edges)
      decreases |pendingSources|
    {
      var lab1 :| lab1 in pendingSources;
      AddLabRow(result, edge, lab1, labs);
      LabProductSplitSources({edge}, doneSources, {lab1}, labs);
      doneSources := doneSources + {lab1};
      pendingSources := pendingSources - {lab1};
    }
  }

  /** The loop over `lab2` for one physics edge and one `lab1`. */
  method AddLabRow(result: DirectedGraph<InfluenceUnit>, edge: (PhysicsProcess, PhysicsProcess),
                   lab1: Laboratory, labs: set<Laboratory>)
    requires result.vertices == Endpoints(result.edges)
    modifies result
    ensures result.edges == old(result.edges) + LabProduct({edge}, {lab1}, labs)
    ensures result.vertices == Endpoints(result.edges)
  {
    var sourceProcess := edge.0;
    var targetProcess := edge.1;
    var pendingTargets := labs;
    ghost var doneTargets: set<Laboratory> := {};
    while pendingTargets != {}
      invariant doneTargets + pendingTargets == labs
      invariant result.edges == old(result.edges) + LabProduct({edge}, {lab1}, doneTargets)
      invariant result.vertices == Endpoints(result.edges)
      decreases |pendingTargets|
    {
      var lab2 :| lab2 in pendingTargets;
      var from := InfluenceUnit(sourceProcess, lab1);
      var to := InfluenceUnit(targetProcess, lab2);
      AddUnitEdge(result, from, to);
      LabProductStep(edge, lab1, doneTargets, lab2);
      doneTargets := doneTargets + {lab2};
      pendingTargets := pendingTargets - {lab2};
    }
  }

  /**
   * `adjacencyOf`: every physics edge along every laboratory-adjacency edge.
   * The adjacency loop nested inside the physics loop is `AddAlongAdjacency`.
   */
  method AdjacencyOf(physics: PhysicsInfluence, adjacency: LaboratoryAdjacency) returns (result: DirectedGraph<InfluenceUnit>)
    ensures fresh(result)
    ensures result.edges == AdjacencyEdges(physics, adjacency)
    ensures result.vertices == Endpoints(result.edges)
  {
    result := new DirectedGraph();
    var pending := physics;
    ghost var done: PhysicsInfluence := {};
    while pending != {}
      invariant done + pending == physics
      invariant fresh(result)
      invariant result.edges == AdjacencyEdges(done, adjacency)
      invariant result.vertices == Endpoints(result.edges)
      decreases |pending|
    {
      var physicsEdge :| physicsEdge in pending;
      AddAlongAdjacency(result, physicsEdge, adjacency);
      AdjacencySplitPhysics(done, {physicsEdge}, adjacency);
      done := done + {physicsEdge};
      pending := pending - {physicsEdge};
    }
  }

  /** The adjacency loop for one physics edge. */
  method AddAlongAdjacency(result: DirectedGraph<InfluenceUnit>, physicsEdge: (PhysicsProcess, PhysicsProcess),
                           adjacency: LaboratoryAdjacency)
    requires result.vertices == Endpoints(result.edges)
    modifies result
    ensures result.edges == old(result.edges) + AdjacencyEdges({physicsEdge}, adjacency)
    ensures result.vertices == Endpoints(result.edges)
  {
    var sourceProcess := physicsEdge.0;
    var targetProcess := physicsEdge.1;
    var pendingAdjacency := adjacency;
    ghost var doneAdjacency: LaboratoryAdjacency := {};
    while pendingAdjacency != {}
      invariant doneAdjacency + pendingAdjacency == adjacency
      invariant result.edges == old(result.edges) + AdjacencyEdges({physicsEdge}, doneAdjacency)
      invariant result.vertices == Endpoints(result.edges)
      decreases |pendingAdjacency|
    {
      var adjacencyEdge :| adjacencyEdge in pendingAdjacency;
      var from := InfluenceUnit(sourceProcess, adjacencyEdge.0);
      var to := InfluenceUnit(targetProcess, adjacencyEdge.1);
      AddUnitEdge(result, from, to);
      AdjacencyStep(physicsEdge, doneAdjacency, adjacencyEdge);
      doneAdjacency := doneAdjacency + {adjacencyEdge};
      pendingAdjacency := pendingAdjacency - {adjacencyEdge};
    }
  }

  /** `addInfrastructure`: every infrastructure edge, with its two units, is added unchanged. */
  method AddInfrastructure(infrastructure: InfrastructureInfluence, result: DirectedGraph<InfluenceUnit>)
    requires result.vertices == Endpoints(result.edges)
    modifies result
    ensures result.edges == old(result.edges) + infrastructure
    ensures result.vertices == Endpoints(result.edges)
  {
    var pending := infrastructure;
    ghost var done: InfrastructureInfluence := {};
    while pending != {}
      invariant done + pending == infrastructure
      invariant result.edges == old(result.edges) + done
      invariant result.vertices == Endpoints(result.edges)
      decreases |pending|
    {
      var edge :| edge in pending;
      AddUnitEdge(result, edge.0, edge.1);
      done := done + {edge};
      pending := pending - {edge};
    }
  }

  // ---------------------------------------------------------------------------
  // The influence map and its builder
  // ---------------------------------------------------------------------------

  class InfluenceMap {
    const graph: DirectedGraph<InfluenceUnit>

    constructor (graph: DirectedGraph<InfluenceUnit>)
      ensures this.graph == graph
    {
      this.graph := graph;
    }

    /** `of(physics, infrastructure, laboratories)`. */
    static method OfLaboratories(physics: PhysicsInfluence, infrastructure: InfrastructureInfluence,
                                 labs: set<Laboratory>) returns (m: InfluenceMap)
      ensures fresh(m) && fresh(m.graph)
      ensures m.graph.edges == CartesianEdges(physics, labs) + infrastructure
      ensures m.graph.vertices == Endpoints(m.graph.edges)
    {
      var result := CartesianOf(physics, labs);
      AddInfrastructure(infrastructure, result);
      m := new InfluenceMap(result);
    }

    /** `of(physics, infrastructure, laboratoryAdjacency)`. */
    static method OfAdjacency(physics: PhysicsInfluence, infrastructure: InfrastructureInfluence,
                              adjacency: LaboratoryAdjacency) returns (m: InfluenceMap)
      ensures fresh(m) && fresh(m.graph)
      ensures m.graph.edges == AdjacencyEdges(physics, adjacency) + infrastructure
      ensures m.graph.vertices == Endpoints(m.graph.edges)
    {
      var result := AdjacencyOf(physics, adjacency);
      AddInfrastructure(infrastructure, result);
      m := new InfluenceMap(result);
    }

    /** Whether `fromProcess` in `fromLab` disturbs `toProcess` in `toLab`: membership of that directed edge. */
    function Influences(fromProcess: PhysicsProcess, fromLab: Laboratory,
                        toProcess: PhysicsProcess, toLab: Laboratory): (r: bool)
      reads graph
      ensures r <==> (InfluenceUnit(fromProcess, fromLab), InfluenceUnit(toProcess, toLab)) in graph.edges
    {
      graph.ContainsEdge(InfluenceUnit(fromProcess, fromLab), InfluenceUnit(toProcess, toLab))
    }

    /** `influences(from, to)` on reservations: the edge from `from`'s unit to `to`'s unit. */
    function InfluencesReservation(from: Reservation, to: Reservation): (r: bool)
      reads graph
      ensures r <==> (UnitOf(from), UnitOf(to)) in graph.edges
    {
      Influences(from.process, from.laboratory, to.process, to.laboratory)
    }
  }

  /**
   * `InfluenceMap.Builder`: each input is `None` until it is supplied (a Java
   * `null`); `Build` uses the lab adjacency whenever one was supplied.
   */
  class Builder {
    var physicsInfluence: Option<PhysicsInfluence>
    var infrastructureInfluence: Option<InfrastructureInfluence>
    var laboratories: Option<set<Laboratory>>
    var laboratoryAdjacency: Option<LaboratoryAdjacency>

    constructor ()
      ensures physicsInfluence == None && infrastructureInfluence == None
      ensures laboratories == None && laboratoryAdjacency == None
    {
      physicsInfluence := None;
      infrastructureInfluence := None;
      laboratories := None;
      laboratoryAdjacency := None;
    }

    method WithPhysics(physics: PhysicsInfluence)
      modifies this
      ensures physicsInfluence == Some(physics)
      ensures infrastructureInfluence == old(infrastructureInfluence)
      ensures laboratories == old(laboratories) && laboratoryAdjacency == old(laboratoryAdjacency)
    {
      physicsInfluence := Some(physics);
    }

    method WithInfrastructure(infrastructure: InfrastructureInfluence)
      modifies this
      ensures infrastructureInfluence == Some(infrastructure)
      ensures physicsInfluence == old(physicsInfluence)
      ensures laboratories == old(laboratories) && laboratoryAdjacency == old(laboratoryAdjacency)
    {
      infrastructureInfluence := Some(infrastructure);
    }

    method WithLaboratories(labs: set<Laboratory>)
      modifies this
      ensures laboratories == Some(labs)
      ensures physicsInfluence == old(physicsInfluence) && infrastructureInfluence == old(infrastructureInfluence)
      ensures laboratoryAdjacency == old(laboratoryAdjacency)
    {
      laboratories := Some(labs);
    }

    method WithLaboratoryAdjacency(adjacency: LaboratoryAdjacency)
      modifies this
      ensures laboratoryAdjacency == Some(adjacency)
      ensures physicsInfluence == old(physicsInfluence) && infrastructureInfluence == old(infrastructureInfluence)
      ensures laboratories == old(laboratories)
    {
      laboratoryAdjacency := Some(adjacency);
    }

    /**
     * `build`. A missing physics or infrastructure input is dereferenced and
     * throws; a missing lab set is dereferenced only once there is a physics
     * edge to spread over the labs.
     */
    method Build() returns (r: Result<InfluenceMap>)
      ensures r.Ok? <==> physicsInfluence.Some? && infrastructureInfluence.Some? &&
                         (laboratoryAdjacency.Some? || laboratories.Some? || physicsInfluence.value == {})
      ensures r.Thrown? ==> r.exception == NullPointerException
      ensures r.Ok? ==> fresh(r.value) && fresh(r.value.graph)
      ensures r.Ok? && laboratoryAdjacency.Some? ==>
                r.value.graph.edges == AdjacencyEdges(physicsInfluence.value, laboratoryAdjacency.value)
                                       + infrastructureInfluence.value
      ensures r.Ok? && laboratoryAdjacency.None? && laboratories.Some? ==>
                r.value.graph.edges == CartesianEdges(physicsInfluence.value, laboratories.value)
                                       + infrastructureInfluence.value
      ensures r.Ok? && laboratoryAdjacency.None? && laboratories.None? ==>
                r.value.graph.edges == infrastructureInfluence.value
      ensures r.Ok? ==> r.value.graph.vertices == Endpoints(r.value.graph.edges)
    {
      if physicsInfluence.None? || infrastructureInfluence.None? {
        return Thrown(NullPointerException);
      }
      var m;
      if laboratoryAdjacency.Some? {
        m := InfluenceMap.OfAdjacency(physicsInfluence.value, infrastructureInfluence.value, laboratoryAdjacency.value);
      } else if laboratories.Some? {
        m := InfluenceMap.OfLaboratories(physicsInfluence.value, infrastructureInfluence.value, laboratories.value);
      } else if physicsInfluence.value == {} {
        // The lab loop of `cartesianOf` never runs, so the missing lab set is never read.
        m := InfluenceMap.OfLaboratories(physicsInfluence.value, infrastructureInfluence.value, {});
      } else {
        return Thrown(NullPointerException);
      }
      r := Ok(m);
    }
  }

  // ---------------------------------------------------------------------------
  // Conflict analysis
  // ---------------------------------------------------------------------------

  /** Whether `a`'s unit has an edge to `b`'s unit among `edges`. */
  predicate Disturbs(edges: UnitEdges, a: Reservation, b: Reservation)
  {
    (UnitOf(a), UnitOf(b)) in edges
  }

  /** The reservations of `existing` that `newReservation` disturbs (not those that disturb it). */
  function Conflicts(edges: UnitEdges, newReservation: Reservation, existing: set<Reservation>): set<Reservation>
  {
    set e | e in existing && Disturbs(edges, newReservation, e)
  }

  /** An undirected edge between two reservations. */
  function Link(r1: Reservation, r2: Reservation): set<Reservation>
  {
    {r1, r2}
  }

  /** The undirected pairs from `sources` × `targets` whose first member disturbs the second. */
  function InfluencePairs(edges: UnitEdges, sources: set<Reservation>, targets: set<Reservation>): set<set<Reservation>>
  {
    set r1, r2 | r1 in sources && r2 in targets && r1 != r2 && Disturbs(edges, r1, r2) :: Link(r1, r2)
  }

  /** The edges `buildInfluenceGraph` produces for `reservations`. */
  function InfluenceEdges(edges: UnitEdges, reservations: set<Reservation>): set<set<Reservation>>
  {
    InfluencePairs(edges, reservations, reservations)
  }

  lemma ConflictsStep(edges: UnitEdges, newReservation: Reservation, done: set<Reservation>, e: Reservation)
    requires e !in done
    ensures |Conflicts(edges, newReservation, done + {e})| ==
              |Conflicts(edges, newReservation, done)| + (if Disturbs(edges, newReservation, e) then 1 else 0)
  {
    if Disturbs(edges, newReservation, e) {
      assert Conflicts(edges, newReservation, done + {e}) == Conflicts(edges, newReservation, done) + {e};
    } else {
      assert Conflicts(edges, newReservation, done + {e}) == Conflicts(edges, newReservation, done);
    }
  }

  lemma InfluencePairsSplitSources(edges: UnitEdges, a: set<Reservation>, b: set<Reservation>, targets: set<Reservation>)
    ensures InfluencePairs(edges, a + b, targets) == InfluencePairs(edges, a, targets) + InfluencePairs(edges, b, targets)
  {
  }

  lemma SourcesStep(edges: UnitEdges, before: set<set<Reservation>>, after: set<set<Reservation>>,
                    done: set<Reservation>, r1: Reservation, targets: set<Reservation>)
    requires before == InfluencePairs(edges, done, targets)
    requires after == before + InfluencePairs(edges, {r1}, targets)
    ensures after == InfluencePairs(edges, done + {r1}, targets)
  {
    InfluencePairsSplitSources(edges, done, {r1}, targets);
  }

  lemma InfluencePairsStep(edges: UnitEdges, r1: Reservation, done: set<Reservation>, r2: Reservation)
    ensures InfluencePairs(edges, {r1}, done + {r2}) ==
              InfluencePairs(edges, {r1}, done) + (if r1 != r2 && Disturbs(edges, r1, r2) then {Link(r1, r2)} else {})
  {
  }

  lemma LinkStep(edges: UnitEdges, start: set<set<Reservation>>, before: set<set<Reservation>>, after: set<set<Reservation>>,
                  r1: Reservation, done: set<Reservation>, r2: Reservation)
    requires before == start + InfluencePairs(edges, {r1}, done)
    requires after == before + (if r1 != r2 && Disturbs(edges, r1, r2) then {Link(r1, r2)} else {})
    ensures after == start + InfluencePairs(edges, {r1}, done + {r2})
  {
    InfluencePairsStep(edges, r1, done, r2);
  }

  /** {a, b} is an influence edge iff a ≠ b, both are given, and one disturbs the other. */
  lemma InfluenceEdgesIff(edges: UnitEdges, reservations: set<Reservation>, a: Reservation, b: Reservation)
    ensures {a, b} in InfluenceEdges(edges, reservations) <==>
              a != b && a in reservations && b in reservations && (Disturbs(edges, a, b) || Disturbs(edges, b, a))
  {
    if {a, b} in InfluenceEdges(edges, reservations) {
      var r1, r2 :| r1 in reservations && r2 in reservations && r1 != r2 &&
        Disturbs(edges, r1, r2) && {a, b} == Link(r1, r2);
      assert r1 in {a, b} && r2 in {a, b};
      assert a in {r1, r2} && b in {r1, r2};
    }
    if a != b && a in reservations && b in reservations && !Disturbs(edges, a, b) && Disturbs(edges, b, a) {
      assert Link(b, a) == {a, b};
    }
  }

  /** No reservation is linked to itself: every edge joins two distinct given reservations. */
  lemma InfluenceEdgesHaveTwoEnds(edges: UnitEdges, reservations: set<Reservation>)
    ensures forall e | e in InfluenceEdges(edges, reservations) :: |e| == 2 && e <= reservations
  {
  }

  /** `InfluanceAnalyzer`, over an influence map. */
  class InfluenceAnalyzer {
    const influenceMap: InfluenceMap

    constructor (influenceMap: InfluenceMap)
      ensures this.influenceMap == influenceMap
    {
      this.influenceMap := influenceMap;
    }

    /** `countConflicts`. */
    method CountConflicts(newReservation: Reservation, existing: set<Reservation>) returns (conflicts: int)
      ensures conflicts == |Conflicts(influenceMap.graph.edges, newReservation, existing)|
      ensures 0 <= conflicts <= |existing|
      ensures conflicts == 0 <==> forall e | e in existing :: !influenceMap.InfluencesReservation(newReservation, e)
    {
      ghost var edges := influenceMap.graph.edges;
      conflicts := 0;
      var pending := existing;
      ghost var done: set<Reservation> := {};
      while pending != {}
        invariant done + pending == existing && done !! pending
        invariant conflicts == |Conflicts(edges, newReservation, done)|
        decreases |pending|
      {
        var e :| e in pending;
        ConflictsStep(edges, newReservation, done, e);
        if influenceMap.InfluencesReservation(newReservation, e) {
          conflicts := conflicts + 1;
        }
        done := done + {e};
        pending := pending - {e};
      }
      SubsetSize(Conflicts(edges, newReservation, existing), existing);
      if conflicts == 0 {
        assert Conflicts(edges, newReservation, existing) == {};
      }
    }

    /** `buildInfluenceGraph`: every reservation is a vertex, linked to every other one it disturbs. */
    method BuildInfluenceGraph(reservations: set<Reservation>) returns (graph: SimpleGraph<Reservation>)
      ensures fresh(graph)
      ensures graph.vertices == reservations
      ensures graph.edges == InfluenceEdges(influenceMap.graph.edges, reservations)
    {
      graph := new SimpleGraph();
      var pending := reservations;
      while pending != {}
        invariant pending <= reservations
        invariant fresh(graph)
        invariant graph.vertices + pending == reservations && graph.edges == {}
        decreases |pending|
      {
        var reservation :| reservation in pending;
        graph.AddVertex(reservation);
        pending := pending - {reservation};
      }
      ghost var edges := influenceMap.graph.edges;
      var pendingSources := reservations;
      ghost var done: set<Reservation> := {};
      while pendingSources != {}
        invariant done + pendingSources == reservations
        invariant graph.vertices == reservations
        invariant graph.edges == InfluencePairs(edges, done, reservations)
        decreases |pendingSources|
      {
        var r1 :| r1 in pendingSources;
        ghost var before := graph.edges;
        AddInfluencesOf(graph, r1, reservations);
        SourcesStep(edges, before, graph.edges, done, r1, reservations);
        done := done + {r1};
        pendingSources := pendingSources - {r1};
      }
    }

    /** The inner loop of `buildInfluenceGraph`: links `r1` to every other reservation it disturbs. */
    method AddInfluencesOf(graph: SimpleGraph<Reservation>, r1: Reservation, reservations: set<Reservation>)
      requires graph.vertices == reservations && r1 in reservations
      modifies graph
      ensures graph.vertices == reservations
      ensures graph.edges == old(graph.edges) + InfluencePairs(influenceMap.graph.edges, {r1}, reservations)
    {
      ghost var edges := influenceMap.graph.edges;
      ghost var start := graph.edges;
      var pendingTargets := reservations;
      ghost var doneTargets: set<Reservation> := {};
      while pendingTargets != {}
        invariant doneTargets + pendingTargets == reservations
        invariant graph.vertices == reservations
        invariant graph.edges == start + InfluencePairs(edges, {r1}, doneTargets)
        decreases |pendingTargets|
      {
        var r2 :| r2 in pendingTargets;
        ghost var before := graph.edges;
        LinkIfDisturbs(graph, r1, r2);
        LinkStep(edges, start, before, graph.edges, r1, doneTargets, r2);
        doneTargets := doneTargets + {r2};
        pendingTargets := pendingTargets - {r2};
      }
    }

    /** The body of that inner loop: `r1` and `r2` are linked when they differ and `r1` disturbs `r2`. */
    method LinkIfDisturbs(graph: SimpleGraph<Reservation>, r1: Reservation, r2: Reservation)
      requires r1 in graph.vertices && r2 in graph.vertices
      modifies graph
      ensures graph.vertices == old(graph.vertices)
      ensures graph.edges == old(graph.edges) +
                (if r1 != r2 && Disturbs(influenceMap.graph.edges, r1, r2) then {Link(r1, r2)} else {})
    {
      if r1 != r2 && influenceMap.InfluencesReservation(r1, r2) {
        graph.AddEdge(r1, r2);
      }
    }
  }

  // ---------------------------------------------------------------------------
  // Influence zones
  // ---------------------------------------------------------------------------

  /** A group of reservations that disturb one another, directly or through others. */
  datatype InfluenceZone = InfluenceZone(reservations: set<Reservation>)
  {
    /** How many other members `reservation` has to negotiate with; 0 for a non-member. */
    function CountReservationsToNegotiateWith(reservation: Reservation): (n: int)
      ensures reservation !in reservations ==> n == 0
      ensures reservation in reservations ==> n == Size() - 1
      ensures n == |GetReservationsToNegotiateWith(reservation)|
    {
      if reservation !in reservations then 0 else |reservations| - 1
    }

    /** The other members of the zone; nothing for a non-member. */
    function GetReservationsToNegotiateWith(reservation: Reservation): (others: set<Reservation>)
      ensures reservation !in others
      ensures others <= reservations
      ensures reservation in reservations ==> others + {reservation} == reservations
      ensures reservation !in reservations ==> others == {}
    {
      if reservation !in reservations then {} else reservations - {reservation}
    }

    /** `size`: the number of reservations in the zone. */
    function Size(): (n: nat)
      ensures n == |reservations|
      ensures n == 0 <==> reservations == {}
      ensures forall r | r in reservations :: n == |GetReservationsToNegotiateWith(r)| + 1
    {
      |reservations|
    }
  }

  /** A zone of one reservation has size 1 and nobody to negotiate with. */
  lemma SingletonZone(r: Reservation)
    ensures InfluenceZone({r}).Size() == 1
    ensures InfluenceZone({r}).CountReservationsToNegotiateWith(r) == 0
    ensures InfluenceZone({r}).GetReservationsToNegotiateWith(r) == {}
  {
  }
}
