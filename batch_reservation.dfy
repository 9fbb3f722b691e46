/** The batch reservation use case: a list of change requests is turned into a
    directed graph, and a cycle in it is carried out as one swap. */
module BatchReservations {
  import opened Wrappers
  import opened OwnerIds
  import opened Slots
  import opened Requests
  import opened GraphMath
  import opened SlotRepositories
  import opened Eligibilities
  import Results = BatchReservationResults

  type Request = ReservationChangeRequest

  // ---------------------------------------------------------------------------
  // The slot graph: one edge per request, from its slot to the slot it wants

  function SlotEdge(r: Request): (e: Edge<SlotId, Request>)
    ensures e.from == Node(r.fromSlot) && e.to == Node(r.toSlot) && e.property == r
  {
    Edge(Node(r.fromSlot), Node(r.toSlot), r)
  }

  function SlotEdges(requests: seq<Request>): (edges: seq<Edge<SlotId, Request>>)
    ensures |edges| == |requests|
    ensures forall i | 0 <= i < |requests| :: edges[i] == SlotEdge(requests[i])
  {
    seq(|requests|, i requires 0 <= i < |requests| => SlotEdge(requests[i]))
  }

  /** The graph that `buildGraph` makes of the requests. */
  ghost function SlotGraph(requests: seq<Request>): Adjacency<SlotId, Request>
  {
    WithEdges(map[], SlotEdges(requests))
  }

  // ---------------------------------------------------------------------------
  // The owner graph: one edge per request, between the current owners of its slots

  /** The owners know every slot the requests name. */
  ghost predicate Covers(owners: map<SlotId, OwnerId>, requests: seq<Request>)
  {
    forall i | 0 <= i < |requests| :: requests[i].fromSlot in owners && requests[i].toSlot in owners
  }

  function OwnerEdge(owners: map<SlotId, OwnerId>, r: Request): (e: Edge<OwnerId, Request>)
    requires r.fromSlot in owners && r.toSlot in owners
    ensures e.from == Node(owners[r.fromSlot]) && e.to == Node(owners[r.toSlot]) && e.property == r
  {
    Edge(Node(owners[r.fromSlot]), Node(owners[r.toSlot]), r)
  }

  function OwnerEdges(owners: map<SlotId, OwnerId>, requests: seq<Request>): (edges: seq<Edge<OwnerId, Request>>)
    requires Covers(owners, requests)
    ensures |edges| == |requests|
    ensures forall i | 0 <= i < |requests| :: edges[i] == OwnerEdge(owners, requests[i])
  {
    seq(|requests|, i requires 0 <= i < |requests| => OwnerEdge(owners, requests[i]))
  }

  /** The graph that `buildOwnerGraph` makes of the requests, given the owners. */
  ghost function OwnerGraph(owners: map<SlotId, OwnerId>, requests: seq<Request>): Adjacency<OwnerId, Request>
    requires Covers(owners, requests)
  {
    WithEdges(map[], OwnerEdges(owners, requests))
  }

  /** The owner graph cut down to the transfers that `eligible` allows. */
  ghost function EligibleOwnerGraph<P>(owners: map<SlotId, OwnerId>, requests: seq<Request>,
                                       eligible: Adjacency<OwnerId, P>): Adjacency<OwnerId, Request>
    requires Covers(owners, requests)
  {
    Intersected(OwnerGraph(owners, requests), eligible)
  }

  // ---------------------------------------------------------------------------
  // What a cycle carries out

  /** The requests on the edges of a path (`map(Edge::property)` into a set). */
  function Payloads<T>(edges: seq<Edge<T, Request>>): set<Request>
  {
    set i | 0 <= i < |edges| :: edges[i].property
  }

  /** Distinct payloads on the edges make one request per edge. */
  lemma {:induction false} InjectivePayloadsCount<T>(edges: seq<Edge<T, Request>>)
    requires forall i, j | 0 <= i < j < |edges| :: edges[i].property != edges[j].property
    ensures |Payloads(edges)| == |edges|
  {
    if edges != [] {
      var init := edges[..|edges| - 1];
      var last := edges[|edges| - 1];
      InjectivePayloadsCount(init);
      assert Payloads(edges) == Payloads(init) + {last.property} by {
        forall p | p in Payloads(edges) ensures p in Payloads(init) + {last.property} {
          var i :| 0 <= i < |edges| && edges[i].property == p;
          if i < |edges| - 1 { assert init[i] == edges[i]; }
        }
      }
      assert last.property !in Payloads(init);
    }
  }

  /** The owners after the requests are carried out: a slot that a request
      takes goes to that request's user, a slot that is only given up is
      freed, and every other slot keeps its owner. */
  ghost predicate Reassigned(before: map<SlotId, OwnerId>, after: map<SlotId, OwnerId>, executed: set<Request>)
  {
    after.Keys == before.Keys
    && forall id | id in before ::
         if id in ToSlots(executed) then exists r | r in executed :: r.toSlot == id && after[id] == r.userId
         else if id in FromSlots(executed) then after[id] == Empty()
         else after[id] == before[id]
  }

  /** When no two requests take the same slot, each user gets exactly the slot
      they asked for. */
  lemma ReassignedTargets(before: map<SlotId, OwnerId>, after: map<SlotId, OwnerId>, executed: set<Request>)
    requires Reassigned(before, after, executed) && DistinctTargets(executed)
    ensures forall r | r in executed && r.toSlot in before :: after[r.toSlot] == r.userId
  {
    forall r | r in executed && r.toSlot in before ensures after[r.toSlot] == r.userId {
      assert r.toSlot in ToSlots(executed);
    }
  }

  /** When every slot given up is also taken, no slot of the swap is left free:
      each goes to one of the requesting users. */
  lemma ReassignedFreesNothing(before: map<SlotId, OwnerId>, after: map<SlotId, OwnerId>, executed: set<Request>)
    requires Reassigned(before, after, executed) && FromSlots(executed) == ToSlots(executed)
    ensures forall r | r in executed && r.fromSlot in before :: exists q | q in executed :: after[r.fromSlot] == q.userId
  {
    forall r | r in executed && r.fromSlot in before ensures exists q | q in executed :: after[r.fromSlot] == q.userId {
      assert r.fromSlot in FromSlots(executed);
    }
  }

  /** A cycle of the slot graph is made of the given requests, takes each slot
      at most once, takes exactly the slots it gives up, and yields one request
      per edge. */
  lemma SlotCycleRequests(requests: seq<Request>, edges: seq<Edge<SlotId, Request>>)
    requires IsSimpleCycleIn(SlotGraph(requests), edges)
    ensures forall i | 0 <= i < |edges| :: edges[i].property in requests && edges[i] == SlotEdge(edges[i].property)
    ensures DistinctTargets(Payloads(edges))
    ensures FromSlots(Payloads(edges)) == ToSlots(Payloads(edges))
    ensures |Payloads(edges)| == |edges|
  {
    SlotGraphEdges(requests, edges);
    SimpleCycleDistinctTargets(SlotGraph(requests), edges);
    CycleTargetsAreSources(SlotGraph(requests), edges);
    SlotPayloadsDistinctTargets(edges);
    SlotPayloadsBalanced(edges);
    forall i, j | 0 <= i < j < |edges| ensures edges[i].property != edges[j].property {
      assert edges[i].from != edges[j].from;
    }
    InjectivePayloadsCount(edges);
  }

  /** Every edge of the slot graph is the edge of one of the requests. */
  lemma SlotGraphEdges(requests: seq<Request>, edges: seq<Edge<SlotId, Request>>)
    requires forall i | 0 <= i < |edges| :: IsEdgeOf(SlotGraph(requests), edges[i])
    ensures forall i | 0 <= i < |edges| :: edges[i].property in requests && edges[i] == SlotEdge(edges[i].property)
  {
    var all := SlotEdges(requests);
    forall i | 0 <= i < |edges| ensures edges[i].property in requests && edges[i] == SlotEdge(edges[i].property) {
      WithEdgesEdges(map[], all, edges[i]);
      var k :| 0 <= k < |all| && all[k] == edges[i];
      assert edges[i] == SlotEdge(requests[k]);
    }
  }

  /** Slot edges that end at distinct slots carry requests that take distinct slots. */
  lemma SlotPayloadsDistinctTargets(edges: seq<Edge<SlotId, Request>>)
    requires forall i | 0 <= i < |edges| :: edges[i] == SlotEdge(edges[i].property)
    requires forall i, j | 0 <= i < j < |edges| :: edges[i].to != edges[j].to
    ensures DistinctTargets(Payloads(edges))
  {
    var executed := Payloads(edges);
    forall p, q | p in executed && q in executed && p.toSlot == q.toSlot ensures p == q {
      var i :| 0 <= i < |edges| && edges[i].property == p;
      var j :| 0 <= j < |edges| && edges[j].property == q;
      assert edges[i].to == edges[j].to;
    }
  }

  /** Slot edges that enter exactly the slots they leave carry requests that
      take exactly the slots they give up. */
  lemma SlotPayloadsBalanced(edges: seq<Edge<SlotId, Request>>)
    requires forall i | 0 <= i < |edges| :: edges[i] == SlotEdge(edges[i].property)
    requires Tos(edges) == Froms(edges)
    ensures FromSlots(Payloads(edges)) == ToSlots(Payloads(edges))
  {
    var executed := Payloads(edges);
    forall id | id in FromSlots(executed) ensures id in ToSlots(executed) {
      var p :| p in executed && p.fromSlot == id;
      var i :| 0 <= i < |edges| && edges[i].property == p;
      assert edges[i].from in Tos(edges);
      var j :| 0 <= j < |edges| && edges[j].to == edges[i].from;
      assert edges[j].property in executed;
    }
    forall id | id in ToSlots(executed) ensures id in FromSlots(executed) {
      var p :| p in executed && p.toSlot == id;
      var i :| 0 <= i < |edges| && edges[i].property == p;
      assert edges[i].to in Froms(edges);
      var j :| 0 <= j < |edges| && edges[j].from == edges[i].to;
      assert edges[j].property in executed;
    }
  }

  /** The slots named by requests drawn from a list are slots of that list. */
  lemma PayloadSlotsListed<T>(requests: seq<Request>, edges: seq<Edge<T, Request>>)
    requires forall i | 0 <= i < |edges| :: edges[i].property in requests
    ensures SlotIdsOf(Payloads(edges)) <= ListSlotIds(requests)
  {
    forall id | id in SlotIdsOf(Payloads(edges)) ensures id in ListSlotIds(requests) {
      var r :| r in Payloads(edges) && (id == r.fromSlot || id == r.toSlot);
      var i :| 0 <= i < |edges| && edges[i].property == r;
      var k :| 0 <= k < |requests| && requests[k] == r;
    }
  }

  /** Every edge of a path in the eligible owner graph is the owner edge of
      one of the requests, and an allowed transfer. */
  lemma OwnerCycleEdges<P>(owners: map<SlotId, OwnerId>, requests: seq<Request>,
                           eligible: Adjacency<OwnerId, P>, edges: seq<Edge<OwnerId, Request>>)
    requires Covers(owners, requests)
    requires forall i | 0 <= i < |edges| :: IsEdgeOf(EligibleOwnerGraph(owners, requests, eligible), edges[i])
    ensures forall i | 0 <= i < |edges| ::
              edges[i].property in requests
              && edges[i].property.fromSlot in owners && edges[i].property.toSlot in owners
              && edges[i] == OwnerEdge(owners, edges[i].property)
              && HasEdgeIn(eligible, edges[i].from, edges[i].to)
  {
    var all := OwnerEdges(owners, requests);
    WithEdgesWellFormed(map[], all);
    forall i | 0 <= i < |edges|
      ensures edges[i].property in requests
              && edges[i].property.fromSlot in owners && edges[i].property.toSlot in owners
              && edges[i] == OwnerEdge(owners, edges[i].property)
              && HasEdgeIn(eligible, edges[i].from, edges[i].to)
    {
      IntersectedEdges(OwnerGraph(owners, requests), eligible, edges[i]);
      WithEdgesEdges(map[], all, edges[i]);
      var k :| 0 <= k < |all| && all[k] == edges[i];
      assert edges[i] == OwnerEdge(owners, requests[k]);
    }
  }

  /** A cycle of the eligible owner graph is made of the given requests, each
      an allowed transfer between the current owners of its slots; it takes
      each slot at most once, the owners it takes from are the owners it gives
      to, and it yields one request per edge. */
  lemma OwnerCycleRequests<P>(owners: map<SlotId, OwnerId>, requests: seq<Request>,
                              eligible: Adjacency<OwnerId, P>, edges: seq<Edge<OwnerId, Request>>)
    requires Covers(owners, requests)
    requires IsSimpleCycleIn(EligibleOwnerGraph(owners, requests, eligible), edges)
    ensures forall i | 0 <= i < |edges| ::
              edges[i].property in requests
              && edges[i].property.fromSlot in owners && edges[i].property.toSlot in owners
              && edges[i] == OwnerEdge(owners, edges[i].property)
              && HasEdgeIn(eligible, edges[i].from, edges[i].to)
    ensures DistinctTargets(Payloads(edges))
    ensures |Payloads(edges)| == |edges|
  {
    OwnerCycleEdges(owners, requests, eligible, edges);
    SimpleCycleDistinctTargets(EligibleOwnerGraph(owners, requests, eligible), edges);
    var executed := Payloads(edges);
    forall p, q | p in executed && q in executed && p.toSlot == q.toSlot ensures p == q {
      var i :| 0 <= i < |edges| && edges[i].property == p;
      var j :| 0 <= j < |edges| && edges[j].property == q;
      assert edges[i].to == edges[j].to;
    }
    forall i, j | 0 <= i < j < |edges| ensures edges[i].property != edges[j].property {
      assert edges[i].from != edges[j].from;
    }
    InjectivePayloadsCount(edges);
  }

  /** Carrying out requests on the slots that were loaded and writing them back
      over the whole store is carrying them out on the whole store, since the
      requests name only loaded slots. */
  lemma ReassignedInStore(before: map<SlotId, OwnerId>, after: map<SlotId, OwnerId>,
                          loadedBefore: map<SlotId, OwnerId>, loadedAfter: map<SlotId, OwnerId>,
                          executed: set<Request>)
    requires Reassigned(loadedBefore, loadedAfter, executed)
    requires SlotIdsOf(executed) <= loadedBefore.Keys <= before.Keys
    requires forall id | id in loadedBefore :: loadedBefore[id] == before[id]
    requires after.Keys == before.Keys
    requires forall id | id in after :: after[id] == if id in loadedAfter then loadedAfter[id] else before[id]
    ensures Reassigned(before, after, executed)
  {
    forall id | id in before
      ensures if id in ToSlots(executed) then exists r | r in executed :: r.toSlot == id && after[id] == r.userId
              else if id in FromSlots(executed) then after[id] == Empty()
              else after[id] == before[id]
    {
      if id in loadedBefore {
        assert id in loadedAfter;
      }
    }
  }

  /** The state at the end of the assigning loop: `taker` names, for each slot
      taken, the request that took it. */
  lemma TakersReassigned(before: map<SlotId, OwnerId>, after: map<SlotId, OwnerId>,
                         executed: set<Request>, taker: map<SlotId, Request>)
    requires after.Keys == before.Keys && taker.Keys == ToSlots(executed)
    requires forall id | id in taker ::
               taker[id] in executed && taker[id].toSlot == id && id in after && after[id] == taker[id].userId
    requires forall id | id in after && id !in taker ::
               after[id] == if id in FromSlots(executed) then Empty() else before[id]
    ensures Reassigned(before, after, executed)
  {
    forall id | id in before
      ensures if id in ToSlots(executed) then exists r | r in executed :: r.toSlot == id && after[id] == r.userId
              else if id in FromSlots(executed) then after[id] == Empty()
              else after[id] == before[id]
    {
      if id in taker {
        assert taker[id] in executed && taker[id].toSlot == id && after[id] == taker[id].userId;
      }
    }
  }

  /** The owners `released`, with each slot of `taker` handed to its taker's user. */
  ghost function Overlaid(released: map<SlotId, OwnerId>, taker: map<SlotId, Request>): map<SlotId, OwnerId>
  {
    map id | id in released :: if id in taker then taker[id].userId else released[id]
  }

  lemma OverlaidStep(released: map<SlotId, OwnerId>, taker: map<SlotId, Request>, r: Request)
    requires r.toSlot in released
    ensures Overlaid(released, taker)[r.toSlot := r.userId] == Overlaid(released, taker[r.toSlot := r])
  {
  }

  /** Handing the taken slots over after the releases gives the reassignment. */
  lemma OverlaidReassigned(before: map<SlotId, OwnerId>, released: map<SlotId, OwnerId>,
                           executed: set<Request>, taker: map<SlotId, Request>)
    requires released.Keys == before.Keys && taker.Keys == ToSlots(executed) && taker.Keys <= released.Keys
    requires forall id | id in released :: released[id] == if id in FromSlots(executed) then Empty() else before[id]
    requires forall id | id in taker :: taker[id] in executed && taker[id].toSlot == id
    ensures Reassigned(before, Overlaid(released, taker), executed)
  {
    TakersReassigned(before, Overlaid(released, taker), executed, taker);
  }

  /** `toSlot.assignTo(user)` on one slot of the map changes that slot's owner and no other. */
  method AssignOne(slots: map<SlotId, Slot>, id: SlotId, user: OwnerId)
    requires forall k | k in slots :: slots[k].slotId == k
    requires id in slots
    modifies slots[id]
    ensures OwnersOf(slots) == old(OwnersOf(slots))[id := user]
  {
    slots[id].AssignTo(user);
    forall k | k in slots && k != id
      ensures slots[k] != slots[id]
    {
      assert slots[k].slotId != slots[id].slotId;
    }
  }

  // ---------------------------------------------------------------------------
  // The use case

  class BatchReservationUseCase {
    const slotRepository: InMemorySlotRepository

    constructor (slotRepository: InMemorySlotRepository)
      ensures this.slotRepository == slotRepository
    {
      this.slotRepository := slotRepository;
    }

    /** One edge per request, added in list order. */
    method BuildGraph(requests: seq<Request>) returns (graph: Graph<SlotId, Request>)
      ensures fresh(graph) && graph.Valid()
      ensures graph.adjacency == SlotGraph(requests)
    {
      graph := new Graph();
      var all := SlotEdges(requests);
      var i := 0;
      while i < |requests|
        invariant 0 <= i <= |requests|
        invariant fresh(graph) && graph.Valid()
        invariant graph.adjacency == WithEdges(map[], all[..i])
      {
        var request := requests[i];
        var edge := Edge(Node(request.fromSlot), Node(request.toSlot), request);
        assert edge == all[i];
        WithEdgesPrefixStep(all, i);
        graph.AddEdge(edge);
        i := i + 1;
      }
      assert all[..i] == all;
    }

    /** The owner graph; loading the slots first throws when a request names
        an unknown slot. */
    method BuildOwnerGraph(requests: seq<Request>) returns (result: Result<Graph<OwnerId, Request>>)
      requires slotRepository.Valid()
      ensures result.Ok? <==> ListSlotIds(requests) <= slotRepository.slots.Keys
      ensures result.Thrown? ==> result.exception == NullPointerException
      ensures result.Ok? ==>
                fresh(result.value) && result.value.Valid()
                && Covers(slotRepository.Owners(), requests)
                && result.value.adjacency == OwnerGraph(slotRepository.Owners(), requests)
    {
      ghost var owners := slotRepository.Owners();
      var graph := new Graph();
      var found := slotRepository.FindAll(ListSlotIds(requests));
      if found.Thrown? {
        return Thrown(found.exception);
      }
      ListSlotIdsCover(requests, found.value.Keys);
      AddOwnerEdges(graph, found.value, requests, owners);
      assert slotRepository.Owners() == owners;
      result := Ok(graph);
    }

    /** The loop of `buildOwnerGraph`: one edge per request, from the owner of
        the slot it gives up to the owner of the slot it takes. `findAll` has
        returned a slot for every identifier, so the null check of the source
        always passes and is left out. */
    method AddOwnerEdges(graph: Graph<OwnerId, Request>, slots: map<SlotId, Slot>, requests: seq<Request>,
                         ghost owners: map<SlotId, OwnerId>)
      requires graph.Valid() && graph.adjacency == map[]
      requires forall k | 0 <= k < |requests| :: requests[k].fromSlot in slots && requests[k].toSlot in slots
      requires forall id | id in slots :: id in owners && slots[id].owner == owners[id]
      modifies graph
      ensures graph.Valid() && Covers(owners, requests)
      ensures graph.adjacency == OwnerGraph(owners, requests)
    {
      var all := OwnerEdges(owners, requests);
      var i := 0;
      while i < |requests|
        invariant 0 <= i <= |requests|
        invariant graph.Valid()
        invariant graph.adjacency == WithEdges(map[], all[..i])
      {
        var request := requests[i];
        var fromSlot := slots[request.fromSlot];
        var toSlot := slots[request.toSlot];
        var edge := Edge(Node(fromSlot.GetOwner()), Node(toSlot.GetOwner()), request);
        assert edge == all[i];
        WithEdgesPrefixStep(all, i);
        graph.AddEdge(edge);
        i := i + 1;
      }
      assert all[..i] == all;
    }

    /** The requests on the first cycle found, or none when the graph has no
        cycle; `cycle` is that cycle. */
    method FindDependentRequests<T(==,!new)>(graph: Graph<T, Request>)
      returns (dependent: set<Request>, ghost cycle: Option<seq<Edge<T, Request>>>)
      requires graph.Valid()
      ensures cycle.None? <==> !HasCycleIn(graph.adjacency)
      ensures cycle.Some? ==> IsSimpleCycleIn(graph.adjacency, cycle.value) && dependent == Payloads(cycle.value)
      ensures dependent == {} <==> cycle.None?
      ensures dependent == {} <==> !HasCycleIn(graph.adjacency)
    {
      var found := graph.FindFirstCycle();
      if found.Some? {
        dependent := Payloads(found.value.edges);
        cycle := Some(found.value.edges);
        assert found.value.edges[0].property in dependent;
      } else {
        dependent := {};
        cycle := None;
      }
    }

    /** A fresh copy of every slot the requests name. */
    method LoadAllSlots(dependent: set<Request>) returns (result: Result<map<SlotId, Slot>>)
      requires slotRepository.Valid()
      ensures result.Ok? <==> SlotIdsOf(dependent) <= slotRepository.slots.Keys
      ensures result.Thrown? ==> result.exception == NullPointerException
      ensures result.Ok? ==> result.value.Keys == SlotIdsOf(dependent)
      ensures result.Ok? ==> forall id | id in result.value ::
                fresh(result.value[id]) && result.value[id].slotId == id
                && result.value[id].owner == slotRepository.slots[id].owner
    {
      result := slotRepository.FindAll(SlotIdsOf(dependent));
    }

    /** The two loops of `execute`: every slot given up is released, then every
        slot taken is assigned to its requester. */
    method Reassign(slots: map<SlotId, Slot>, dependent: set<Request>)
      requires forall id | id in slots :: slots[id].slotId == id
      requires SlotIdsOf(dependent) <= slots.Keys
      modifies slots.Values
      ensures Reassigned(old(OwnersOf(slots)), OwnersOf(slots), dependent)
    {
      ghost var before := OwnersOf(slots);
      ReleaseAll(slots, dependent);
      AssignAll(slots, dependent, before);
    }

    /** The first loop: frees the slot that each request gives up. */
    method ReleaseAll(slots: map<SlotId, Slot>, dependent: set<Request>)
      requires forall id | id in slots :: slots[id].slotId == id
      requires FromSlots(dependent) <= slots.Keys
      modifies slots.Values
      ensures forall id | id in slots ::
                slots[id].owner == if id in FromSlots(dependent) then Empty() else old(slots[id].owner)
    {
      var remaining := dependent;
      while remaining != {}
        invariant remaining <= dependent
        invariant forall id | id in slots ::
                    slots[id].owner == if id in FromSlots(dependent - remaining) then Empty() else old(slots[id].owner)
        decreases remaining
      {
        var request :| request in remaining;
        assert request.fromSlot in FromSlots(dependent);
        var fromSlot := slots[request.fromSlot];
        fromSlot.Release();
        assert FromSlots(dependent - (remaining - {request})) == FromSlots(dependent - remaining) + {request.fromSlot};
        remaining := remaining - {request};
      }
      assert dependent - remaining == dependent;
    }

    /** The second loop: hands the slot that each request takes to its user. */
    method AssignAll(slots: map<SlotId, Slot>, dependent: set<Request>, ghost before: map<SlotId, OwnerId>)
      requires forall id | id in slots :: slots[id].slotId == id
      requires ToSlots(dependent) <= slots.Keys && before.Keys == slots.Keys
      requires forall id | id in slots ::
                 slots[id].owner == if id in FromSlots(dependent) then Empty() else before[id]
      modifies slots.Values
      ensures Reassigned(before, OwnersOf(slots), dependent)
    {
      ghost var released := OwnersOf(slots);
      var remaining := dependent;
      ghost var done: set<Request> := {};
      ghost var taker: map<SlotId, Request> := map[];
      while remaining != {}
        invariant done + remaining == dependent
        invariant taker.Keys == ToSlots(done) && taker.Keys <= slots.Keys
        invariant forall id | id in taker :: taker[id] in dependent && taker[id].toSlot == id
        invariant OwnersOf(slots) == Overlaid(released, taker)
        decreases remaining
      {
        var request :| request in remaining;
        ToSlotsStep(dependent, done, request);
        AssignOne(slots, request.toSlot, request.userId);
        OverlaidStep(released, taker, request);
        taker := taker[request.toSlot := request];
        done := done + {request};
        remaining := remaining - {request};
      }
      OverlaidReassigned(before, released, dependent, taker);
    }

    /** Lines shared by both `execute` overloads once the dependent requests
        are known: nothing to do for no request; otherwise load the slots
        (throwing for an unknown one), carry the requests out on the copies and
        save them back, all or nothing. */
    method ExecuteDependent(dependent: set<Request>) returns (result: Result<Results.BatchReservationResult>)
      requires slotRepository.Valid()
      modifies slotRepository
      ensures slotRepository.Valid()
      ensures dependent == {} ==> result == Ok(Results.None())
      ensures result.Thrown? <==> dependent != {} && !(SlotIdsOf(dependent) <= old(slotRepository.slots.Keys))
      ensures result.Thrown? ==> result.exception == NullPointerException
      ensures !(result.Ok? && dependent != {}) ==> slotRepository.slots == old(slotRepository.slots)
      ensures result.Ok? && dependent != {} ==>
                result.value.status == Results.SUCCESS
                && (forall q :: q in result.value.executedRequests <==> q in dependent)
                && Results.Distinct(result.value.executedRequests)
                && slotRepository.slots.Keys == old(slotRepository.slots.Keys)
                && (forall id | id in old(slotRepository.slots) && id !in SlotIdsOf(dependent) ::
                      slotRepository.slots[id] == old(slotRepository.slots[id]))
                && Reassigned(old(slotRepository.Owners()), slotRepository.Owners(), dependent)
    {
      if dependent == {} {
        return Ok(Results.None());
      }
      var loaded := LoadAllSlots(dependent);
      if loaded.Thrown? {
        return Thrown(loaded.exception);
      }
      CarryOut(loaded.value, dependent);
      var success := Results.Success(dependent);
      result := Ok(success);
    }

    /** Carries the requests out on the loaded copies and saves the copies back. */
    method CarryOut(slots: map<SlotId, Slot>, dependent: set<Request>)
      requires slotRepository.Valid()
      requires slots.Keys == SlotIdsOf(dependent) <= slotRepository.slots.Keys
      requires forall id | id in slots ::
                 slots[id].slotId == id && slots[id].owner == slotRepository.slots[id].owner
                 && slots[id] !in slotRepository.slots.Values
      modifies slotRepository, slots.Values
      ensures slotRepository.Valid()
      ensures slotRepository.slots.Keys == old(slotRepository.slots.Keys)
      ensures forall id | id in old(slotRepository.slots) && id !in slots ::
                slotRepository.slots[id] == old(slotRepository.slots[id])
      ensures Reassigned(old(slotRepository.Owners()), slotRepository.Owners(), dependent)
    {
      ghost var stored := slotRepository.slots;
      ghost var before := slotRepository.Owners();
      ghost var loadedBefore := OwnersOf(slots);
      forall k | k in stored
        ensures stored[k] !in slots.Values
      {
        assert stored[k] in stored.Values;
      }
      Reassign(slots, dependent);
      ghost var loadedAfter := OwnersOf(slots);
      ghost var combined := OwnersOf(stored + slots);
      forall id | id in combined
        ensures combined[id] == if id in loadedAfter then loadedAfter[id] else before[id]
      {
        if id !in slots {
          assert combined[id] == stored[id].owner;
        }
      }
      SaveCopies(slots);
      ReassignedInStore(before, combined, loadedBefore, loadedAfter, dependent);
    }

    /** `saveAll(slots.values())`: every slot of the map replaces the stored
        slot of its identifier. */
    method SaveCopies(slots: map<SlotId, Slot>)
      requires slotRepository.Valid()
      requires forall id | id in slots :: slots[id].slotId == id
      modifies slotRepository
      ensures slotRepository.Valid()
      ensures slotRepository.slots == old(slotRepository.slots) + slots
      ensures slotRepository.Owners() == old(OwnersOf(slotRepository.slots + slots))
    {
      ghost var stored := slotRepository.slots;
      var values := SlotValues(slots);
      slotRepository.SaveAll(values);
      SavedAllDistinct(stored, values);
      assert (set v | v in values :: v.slotId) == slots.Keys by {
        forall id | id in slots ensures id in (set v | v in values :: v.slotId) {
          assert slots[id] in values;
        }
      }
      forall id | id in slotRepository.slots
        ensures slotRepository.slots[id] == (stored + slots)[id]
      {
        if id in slots {
          assert slots[id] in values;
        }
      }
      MapsEqual(slotRepository.slots, stored + slots);
    }

    /** `execute(requests)`: carries out the first cycle of the slot graph. */
    method Execute(requests: seq<Request>)
      returns (result: Result<Results.BatchReservationResult>, ghost cycle: Option<seq<Edge<SlotId, Request>>>)
      requires slotRepository.Valid()
      modifies slotRepository
      ensures slotRepository.Valid()
      ensures cycle.None? <==> !HasCycleIn(SlotGraph(requests))
      ensures cycle.Some? ==> IsSimpleCycleIn(SlotGraph(requests), cycle.value)
      ensures cycle.None? ==> result == Ok(Results.None())
      ensures result.Thrown? <==> cycle.Some? && !(SlotIdsOf(Payloads(cycle.value)) <= old(slotRepository.slots.Keys))
      ensures result.Thrown? ==> result.exception == NullPointerException
      ensures !(result.Ok? && cycle.Some?) ==> slotRepository.slots == old(slotRepository.slots)
      ensures result.Ok? && cycle.Some? ==>
                result.value.status == Results.SUCCESS
                && (forall q :: q in result.value.executedRequests <==> q in Payloads(cycle.value))
                && |result.value.executedRequests| == |cycle.value|
                && slotRepository.slots.Keys == old(slotRepository.slots.Keys)
                && Reassigned(old(slotRepository.Owners()), slotRepository.Owners(), Payloads(cycle.value))
    {
      var graph := BuildGraph(requests);
      var dependent;
      dependent, cycle := FindDependentRequests(graph);
      if cycle.Some? {
        SlotCycleRequests(requests, cycle.value);
      }
      result := ExecuteDependent(dependent);
      if result.Ok? && cycle.Some? {
        DistinctCount(result.value.executedRequests, dependent);
      }
    }

    /** `execute(requests, eligibility)`: carries out the first cycle of the
        owner graph restricted to the allowed transfers. */
    method ExecuteEligible(requests: seq<Request>, eligibility: Eligibility)
      returns (result: Result<Results.BatchReservationResult>, ghost cycle: Option<seq<Edge<OwnerId, Request>>>)
      requires slotRepository.Valid()
      modifies slotRepository
      ensures slotRepository.Valid()
      ensures result.Thrown? <==> !(ListSlotIds(requests) <= old(slotRepository.slots.Keys))
      ensures result.Thrown? ==> result.exception == NullPointerException && cycle.None?
      ensures result.Ok? ==> Covers(old(slotRepository.Owners()), requests)
      ensures result.Ok? ==>
                (cycle.None? <==> !HasCycleIn(EligibleOwnerGraph(old(slotRepository.Owners()), requests, old(eligibility.graph.adjacency))))
      ensures result.Ok? && cycle.Some? ==>
                IsSimpleCycleIn(EligibleOwnerGraph(old(slotRepository.Owners()), requests, old(eligibility.graph.adjacency)), cycle.value)
      ensures cycle.None? ==> slotRepository.slots == old(slotRepository.slots)
      ensures result.Ok? && cycle.None? ==> result.value == Results.None()
      ensures result.Ok? && cycle.Some? ==>
                result.value.status == Results.SUCCESS
                && (forall q :: q in result.value.executedRequests <==> q in Payloads(cycle.value))
                && |result.value.executedRequests| == |cycle.value|
                && slotRepository.slots.Keys == old(slotRepository.slots.Keys)
                && Reassigned(old(slotRepository.Owners()), slotRepository.Owners(), Payloads(cycle.value))
    {
      var ownerGraph := BuildOwnerGraph(requests);
      if ownerGraph.Thrown? {
        cycle := None;
        return Thrown(ownerGraph.exception), cycle;
      }
      ghost var owners := slotRepository.Owners();
      ghost var eligible := eligibility.graph.adjacency;
      assert owners == old(slotRepository.Owners()) && eligible == old(eligibility.graph.adjacency);
      var intersection := ownerGraph.value.Intersection(eligibility.AsGraph());
      ghost var graph := intersection.adjacency;
      assert graph == EligibleOwnerGraph(owners, requests, eligible);
      var dependent;
      dependent, cycle := FindDependentRequests(intersection);
      if cycle.Some? {
        OwnerCycleRequests(owners, requests, eligible, cycle.value);
        PayloadSlotsListed(requests, cycle.value);
      }
      result := ExecuteDependent(dependent);
      if result.Ok? && cycle.Some? {
        DistinctCount(result.value.executedRequests, dependent);
      }
    }
  }

  /** A list without repetitions has as many entries as the set it holds. */
  lemma {:induction false} DistinctCount(list: seq<Request>, s: set<Request>)
    requires Results.Distinct(list) && forall q :: q in list <==> q in s
    ensures |list| == |s|
  {
    if list != [] {
      var last := list[|list| - 1];
      var init := list[..|list| - 1];
      assert forall q :: q in init <==> q in s - {last} by {
        forall q ensures q in init <==> q in s - {last} {
          if q in init {
            var i :| 0 <= i < |init| && init[i] == q;
            assert list[i] == q;
          }
          if q in s - {last} {
            var i :| 0 <= i < |list| && list[i] == q;
            assert i < |list| - 1;
            assert init[i] == q;
          }
        }
      }
      DistinctCount(init, s - {last});
    }
  }
}
