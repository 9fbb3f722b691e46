# Graph archetypes in Dafny

This project models the hand-written graph code of the `softwarearchetypes.graphs` Java
repository and proves properties of it.

- **Slot-swap cycle resolution** (package `cycles`). Users ask to move from one slot to
  another. The use case builds a directed multigraph whose edges are the requests. That graph
  is keyed either by slot id or by the *current owners* of both slots; in the second case it
  is intersected with an eligibility graph of permitted owner-to-owner transfers. The use case
  looks for the first cycle with a depth-first search. If it finds one, it carries out that
  cycle's requests: it loads copies of the slots involved, releases every slot given up,
  assigns every slot taken, saves the copies and reports the executed requests.
- **Influence maps** (package `influence`). Physics edges combined with laboratory sets or
  laboratory adjacency, plus infrastructure edges. Conflict counting and the undirected
  influence graph of `InfluanceAnalyzer`, and `InfluenceZone`.
- **Execution environments** (package `scheduling.concurrency`). Queries over a
  step → environment map, including Java `int` wrap-around in `environmentCount`.
- **User journeys** (package `userjourney`). `State` (a set of products), `onFulfilled` as one
  step of a labelled transition system, and the builders that fill the journey graph.

## Modules and files

- `wrappers.dfy`: `Wrappers`: `Option` (also a Java `null`) and `Result` (a value or a thrown
  exception).
- `graph.dfy`: `GraphMath`: `Node`, `Edge`, `Path` and the class `Graph`. The class holds the
  adjacency map from node to edge list that its methods update. Pure functions on that map
  specify the methods, and lemmas prove their properties.
- `owner_id.dfy`, `slot.dfy`, `reservation_change_request.dfy`, `slot_repository.dfy`,
  `eligibility.dfy`, `batch_reservation_result.dfy`, `batch_reservation.dfy`: the rest of
  `cycles`.
  - `Slot`, `InMemorySlotRepository`, `Eligibility` and `BatchReservationUseCase` are classes,
    because the Java code changes them in place.
  - `OwnerId`, `SlotId`, `ReservationChangeRequest` and `BatchReservationResult` are
    datatypes.
- `jgraphs.dfy`: `JGraphs`: the few jgrapht graph operations the code relies on. jgrapht is
  not part of this model. `DefaultDirectedGraph` becomes a vertex set and a set of
  `(source, target)` pairs. It allows self-loops but not parallel edges. `SimpleGraph` becomes
  a set of two-element sets. The journey graph becomes a map from `Condition` label to
  `(source, target)`; jgrapht refuses a label that is already present or a second edge between
  the same vertices.
- `cardinality.dfy`: sizes of images and of finite products of sets, used for the edge counts.
- `influence.dfy`, `execution_environments.dfy`, `state.dfy`, `user_journey.dfy`: the other
  packages.

The model follows what the code does, even where the code's own comments, names or guards
suggest something else:

- `InMemorySlotRepository.findAll` maps a missing id to `null` inside `Collectors.toMap`, and
  `toMap` throws on a `null` value (SlotRepository.java:35-42).
  - `execute(requests, eligibility)` loads the slots of every request while building the
    owner graph (BatchReservationUseCase.java:86). So any request that names an unknown slot
    makes it throw a `NullPointerException`. It does not return `FAILURE` and does not skip
    the request.
  - `execute(requests)` loads only the slots of the requests on the cycle it found, and only
    when there is one (BatchReservationUseCase.java:24-25). It throws only when one of those
    requests names an unknown slot.
  - The null guard at BatchReservationUseCase.java:92 can never be false. The owner-graph
    loop is modelled without it.
- `removeEdge` removes by index inside a forward index loop. An edge that directly follows a
  removed one is skipped (see "## Findings"). `Eligibility.markTransferIneligible` uses it
  as it is, so a transfer that was marked eligible twice stays eligible after one
  withdrawal.
- The unused `requests` parameter of `findDependentRequests` is dropped.
- `Builder.build` in `InfluenceMap` passes `null` on to `of`. When no adjacency and no
  laboratory set were given, this throws only if there is a physics edge to combine with the
  missing laboratory set. The model reproduces this.

## Model

| member | source | states |
|---|---|---|
| GraphMath.Graph.constructor | src/main/java/com/softwarearchetypes/graphs/cycles/math/Graph.java:9 | a new graph has no vertices and no edges |
| GraphMath.Graph.AddEdge | src/main/java/com/softwarearchetypes/graphs/cycles/math/Graph.java:11-15 | the new adjacency is `WithEdge(old, edge)`: see the `WithEdge` row |
| GraphMath.WithEdge | src/main/java/com/softwarearchetypes/graphs/cycles/math/Graph.java:11-15 | the edge goes at the end of `from`'s list; `to` becomes a vertex, with an empty list if it was absent; every other list is unchanged |
| GraphMath.WithEdgeEdges | src/main/java/com/softwarearchetypes/graphs/cycles/math/Graph.java:11-15 | after adding, the edges of the graph are the old edges plus exactly the added one |
| GraphMath.WithEdgeHasEdge | src/main/java/com/softwarearchetypes/graphs/cycles/math/Graph.java:11-15 | after adding, `from` is linked to `to` iff that was so before or the added edge joins them |
| GraphMath.WithEdgeWellFormed | src/main/java/com/softwarearchetypes/graphs/cycles/math/Graph.java:11-15 | adding keeps the representation invariant: every list sits under its edges' `from`, and every `to` is a vertex |
| GraphMath.WithEdgesEdges | src/main/java/com/softwarearchetypes/graphs/cycles/math/Graph.java:11-15 | adding a sequence of edges in turn adds exactly their members |
| GraphMath.WithEdgesHasEdge | src/main/java/com/softwarearchetypes/graphs/cycles/math/Graph.java:11-15 | after adding a sequence of edges, `from` is linked to `to` iff it was before or one of the added edges joins them |
| GraphMath.AnyEdgeTo | src/main/java/com/softwarearchetypes/graphs/cycles/math/Graph.java:70 | `anyMatch`: true iff some edge of the list ends at `to` |
| GraphMath.Graph.HasEdge | src/main/java/com/softwarearchetypes/graphs/cycles/math/Graph.java:65-71 | true iff some edge in `from`'s list ends at `to`, whatever its payload; false for an unknown `from` |
| GraphMath.Graph.Intersection | src/main/java/com/softwarearchetypes/graphs/cycles/math/Graph.java:73-85 | returns a fresh graph equal to `Intersected(receiver, other)`; the receiver is not modified |
| GraphMath.IntersectedEdges | src/main/java/com/softwarearchetypes/graphs/cycles/math/Graph.java:76-81 | an edge, with its own payload, is in the intersection iff it is a receiver edge and `other` links its endpoints |
| GraphMath.KeptMultiplicity | src/main/java/com/softwarearchetypes/graphs/cycles/math/Graph.java:77-79 | a kept edge keeps its number of duplicates |
| GraphMath.KeptMembers | src/main/java/com/softwarearchetypes/graphs/cycles/math/Graph.java:77-79 | a list's kept edges are exactly its members whose endpoints `other` links |
| GraphMath.IntersectedHasEdge | src/main/java/com/softwarearchetypes/graphs/cycles/math/Graph.java:73-85 | the intersection links `from` to `to` iff both graphs do |
| GraphMath.IntersectedWellFormed | src/main/java/com/softwarearchetypes/graphs/cycles/math/Graph.java:73-85 | the intersection satisfies the representation invariant |
| GraphMath.Graph.RemoveEdge | src/main/java/com/softwarearchetypes/graphs/cycles/math/Graph.java:87-98 | as written: the new adjacency is `WithoutEdge(old, edge)`, which removes by index in a forward loop |
| GraphMath.EdgesNotTo | src/main/java/com/softwarearchetypes/graphs/cycles/math/Graph.java:87-98 | the edges of a list that do not end at `to`: all of them, and nothing else |
| GraphMath.RemovedSkippingKeepsOthers | src/main/java/com/softwarearchetypes/graphs/cycles/math/Graph.java:90-94 | the index loop keeps every edge not ending at `to`, in its order |
| GraphMath.RemovedSkippingShrinks | src/main/java/com/softwarearchetypes/graphs/cycles/math/Graph.java:90-94 | the index loop only removes edges, never adds or duplicates one |
| GraphMath.RemovedSkippingComplete | src/main/java/com/softwarearchetypes/graphs/cycles/math/Graph.java:90-94 | if no two matching edges are adjacent, the loop removes every edge ending at `to` |
| GraphMath.RemovedSkippingAdjacentDuplicate | src/main/java/com/softwarearchetypes/graphs/cycles/math/Graph.java:90-94 | two adjacent equal matching edges leave one behind |
| GraphMath.WithoutEdgeKeepsOthers | src/main/java/com/softwarearchetypes/graphs/cycles/math/Graph.java:87-98 | removal keeps the vertex set and every other vertex's list, and keeps exactly the non-matching edges of `from`'s list |
| GraphMath.WithoutEdgeOtherPairs | src/main/java/com/softwarearchetypes/graphs/cycles/math/Graph.java:87-98 | removal changes no other (from, to) link |
| GraphMath.WithoutEdgeUnlinks | src/main/java/com/softwarearchetypes/graphs/cycles/math/Graph.java:87-98 | with no adjacent matching duplicates, `from` is no longer linked to `to` |
| GraphMath.WithoutEdgeWellFormed | src/main/java/com/softwarearchetypes/graphs/cycles/math/Graph.java:87-98 | removal keeps the representation invariant |
| GraphMath.WithoutEdgeAfterDuplicate | src/main/java/com/softwarearchetypes/graphs/cycles/math/Graph.java:90-94 | adding an edge twice and then removing it leaves `from` still linked to `to` |
| GraphMath.Graph.RemoveAllEdges | src/main/java/com/softwarearchetypes/graphs/cycles/math/Graph.java:87-98 | corrected removal: the new adjacency is `WithoutAllEdges(old, edge)` |
| GraphMath.WithoutAllEdgesEdges | src/main/java/com/softwarearchetypes/graphs/cycles/math/Graph.java:87-98 | corrected removal keeps exactly the edges that do not join `from` to `to` |
| GraphMath.WithoutAllEdgesUnlinks | src/main/java/com/softwarearchetypes/graphs/cycles/math/Graph.java:87-98 | after corrected removal, `from` is never linked to `to` |
| GraphMath.WithoutAllEdgesOtherPairs | src/main/java/com/softwarearchetypes/graphs/cycles/math/Graph.java:87-98 | corrected removal changes no other link |
| GraphMath.WithoutAllEdgesWellFormed | src/main/java/com/softwarearchetypes/graphs/cycles/math/Graph.java:87-98 | corrected removal keeps the representation invariant |
| GraphMath.SelfLoopIsSimpleCycle | src/main/java/com/softwarearchetypes/graphs/cycles/math/Graph.java:36-48 | a self-loop on its own is a simple cycle |
| GraphMath.EmptyGraphHasNoCycle | src/main/java/com/softwarearchetypes/graphs/cycles/math/Graph.java:17-30 | the empty graph has no cycle |
| GraphMath.SimpleCycleDistinctTargets | src/main/java/com/softwarearchetypes/graphs/cycles/math/Graph.java:38-48 | the edges of a simple cycle have pairwise distinct targets |
| GraphMath.CycleTargetsAreSources | src/main/java/com/softwarearchetypes/graphs/cycles/math/Graph.java:38-48 | around a cycle, the set of targets equals the set of sources |
| GraphMath.IndexOfFrom | src/main/java/com/softwarearchetypes/graphs/cycles/math/Graph.java:40-45 | the position of the first path edge leaving `n`, or the path length when none does |
| GraphMath.StackPathPush | src/main/java/com/softwarearchetypes/graphs/cycles/math/Graph.java:51-53 | pushing an edge from `current` keeps the path a chain whose sources are exactly the stacked vertices |
| GraphMath.ClosedSelfLoopIsSimple | src/main/java/com/softwarearchetypes/graphs/cycles/math/Graph.java:36-48 | a self-loop reached by the search closes into a one-edge cycle, because no path edge leaves `current` |
| GraphMath.ClosedCycleIsSimple | src/main/java/com/softwarearchetypes/graphs/cycles/math/Graph.java:38-48 | an edge back to a stacked vertex, added to the path suffix from that vertex, gives a simple cycle |
| GraphMath.ChainRankFalls | src/main/java/com/softwarearchetypes/graphs/cycles/math/Graph.java:51-61 | along any chain from a finished vertex, finish times fall strictly |
| GraphMath.AllFinishedNoCycle | src/main/java/com/softwarearchetypes/graphs/cycles/math/Graph.java:17-30 | if every vertex is finished, the graph has no cycle |
| GraphMath.FinishVertex | src/main/java/com/softwarearchetypes/graphs/cycles/math/Graph.java:61 | a vertex whose successors are all finished may be popped from the stack as finished |
| GraphMath.Graph.ClosedCycle | src/main/java/com/softwarearchetypes/graphs/cycles/math/Graph.java:39-47 | the scan returns the path suffix starting at the first edge leaving the target, plus the closing edge |
| GraphMath.Graph.FindCycleDfs | src/main/java/com/softwarearchetypes/graphs/cycles/math/Graph.java:32-63 | a found path is a simple cycle of the graph. Otherwise the stack is restored, `current` and everything it reaches is visited, and all visited vertices off the stack are finished |
| GraphMath.Graph.FindFirstCycle | src/main/java/com/softwarearchetypes/graphs/cycles/math/Graph.java:17-30 | a returned path is a non-empty simple cycle of graph edges; nothing is returned iff the graph has no cycle |
| OwnerIds.Of | src/main/java/com/softwarearchetypes/graphs/cycles/OwnerId.java:5-7 | wraps the given string unchanged, null included |
| OwnerIds.Empty | src/main/java/com/softwarearchetypes/graphs/cycles/OwnerId.java:9-11 | wraps `""` and is empty |
| OwnerIds.IsEmpty | src/main/java/com/softwarearchetypes/graphs/cycles/OwnerId.java:13-15 | true iff the identifier wraps null or `""` |
| OwnerIds.OfIsEmpty | src/main/java/com/softwarearchetypes/graphs/cycles/OwnerId.java:5-15 | `of(v)` is empty iff `v` is null or `""` |
| OwnerIds.EmptyIsEmpty | src/main/java/com/softwarearchetypes/graphs/cycles/OwnerId.java:5-15 | `empty()` wraps `""`, is empty and equals `of("")` |
| OwnerIds.OfInjective | src/main/java/com/softwarearchetypes/graphs/cycles/OwnerId.java:3-7 | identifiers are equal iff they wrap equal strings |
| Slots.Slot.constructor | src/main/java/com/softwarearchetypes/graphs/cycles/Slot.java:7-10 | the slot holds the given id and owner |
| Slots.Slot.Create | src/main/java/com/softwarearchetypes/graphs/cycles/Slot.java:12-14 | a fresh slot with the given id and owner |
| Slots.Slot.Release | src/main/java/com/softwarearchetypes/graphs/cycles/Slot.java:16-18 | the owner becomes `OwnerId.empty()` whatever it was; the id is a constant |
| Slots.Slot.AssignTo | src/main/java/com/softwarearchetypes/graphs/cycles/Slot.java:20-22 | the owner becomes the new owner whatever it was, so the last write wins |
| Slots.Slot.GetOwner | src/main/java/com/softwarearchetypes/graphs/cycles/Slot.java:24-26 | the current owner field |
| Slots.Slot.Id | src/main/java/com/softwarearchetypes/graphs/cycles/Slot.java:28-30 | the slot's fixed identifier |
| SlotRepositories.InMemorySlotRepository.constructor | src/main/java/com/softwarearchetypes/graphs/cycles/SlotRepository.java:22 | a new repository stores no slot |
| SlotRepositories.InMemorySlotRepository.FindById | src/main/java/com/softwarearchetypes/graphs/cycles/SlotRepository.java:24-27 | the slot last saved under that id, or none when no slot was saved under it |
| SlotRepositories.InMemorySlotRepository.Save | src/main/java/com/softwarearchetypes/graphs/cycles/SlotRepository.java:29-32 | stores the slot under its own id; every other id is unchanged |
| SlotRepositories.InMemorySlotRepository.SaveAll | src/main/java/com/softwarearchetypes/graphs/cycles/SlotRepository.java:45-47 | the store equals saving each slot in turn |
| SlotRepositories.SavedAllDistinct | src/main/java/com/softwarearchetypes/graphs/cycles/SlotRepository.java:45-47 | for slots with distinct ids, each slot ends up under its id and every other id keeps its slot, whatever the order |
| SlotRepositories.SavedAllFiles | src/main/java/com/softwarearchetypes/graphs/cycles/SlotRepository.java:45-47 | with distinct ids, every saved slot ends up under its own id |
| SlotRepositories.SavedAllKeepsOthers | src/main/java/com/softwarearchetypes/graphs/cycles/SlotRepository.java:45-47 | an id that no saved slot carries keeps its stored slot |
| SlotRepositories.SavedAllKeys | src/main/java/com/softwarearchetypes/graphs/cycles/SlotRepository.java:45-47 | the ids afterwards are the stored ones plus those of the saved slots |
| SlotRepositories.InMemorySlotRepository.FindAll | src/main/java/com/softwarearchetypes/graphs/cycles/SlotRepository.java:34-43 | throws a `NullPointerException` iff some id is absent. Otherwise the keys are exactly the ids, and each value is a fresh copy with the stored id and owner, so changing it leaves the store alone |
| SlotRepositories.SlotValues | src/main/java/com/softwarearchetypes/graphs/cycles/BatchReservationUseCase.java:35 | `slots.values()`: every slot of the map, once each |
| SlotRepositories.OwnersOf | src/main/java/com/softwarearchetypes/graphs/cycles/Slot.java:24-26 | the owner of every slot of a map, under the same keys |
| Eligibilities.Eligibility.constructor | src/main/java/com/softwarearchetypes/graphs/cycles/Eligibility.java:12 | a new eligibility allows no transfer at all |
| Eligibilities.Eligibility.MarkTransferEligible | src/main/java/com/softwarearchetypes/graphs/cycles/Eligibility.java:14-16 | appends the payload-free edge; afterwards the pair is eligible and every other pair keeps its status |
| Eligibilities.Eligibility.MarkTransferIneligible | src/main/java/com/softwarearchetypes/graphs/cycles/Eligibility.java:18-20 | removes with the as-written `removeEdge` (`WithoutEdge`). Every other pair, its reverse included, keeps its status. The pair becomes ineligible whenever no two consecutive entries of its source's edge list point at its target; marked twice and revoked once, it stays eligible |
| Eligibilities.Eligibility.IsTransferEligible | src/main/java/com/softwarearchetypes/graphs/cycles/Eligibility.java:22-24 | true iff the graph has an edge from `from` to `to` |
| Eligibilities.Eligibility.AsGraph | src/main/java/com/softwarearchetypes/graphs/cycles/Eligibility.java:26-28 | the eligibility's own graph object, not a copy |
| Eligibilities.MarkedPairsEligible | src/test/java/com/softwarearchetypes/graphs/cycles/EligibilityTest.java:54-86 | after marking a list of pairs on a new eligibility, a pair is eligible iff it was marked, so marking a→b does not make b→a eligible |
| BatchReservationResults.None | src/main/java/com/softwarearchetypes/graphs/cycles/BatchReservationResult.java:19-21 | status FAILURE and no executed request |
| BatchReservationResults.Success | src/main/java/com/softwarearchetypes/graphs/cycles/BatchReservationResult.java:14-16 | status SUCCESS and a list holding each executed request exactly once, so its length is the set's size |
| Requests.ListSlotIdsCover | src/main/java/com/softwarearchetypes/graphs/cycles/BatchReservationUseCase.java:83-85 | if every collected slot id is present, both slots of every request are present |
| BatchReservations.SlotEdge | src/main/java/com/softwarearchetypes/graphs/cycles/BatchReservationUseCase.java:64-66 | a request becomes the edge from its `fromSlot` to its `toSlot`, carrying itself |
| BatchReservations.OwnerEdge | src/main/java/com/softwarearchetypes/graphs/cycles/BatchReservationUseCase.java:94-96 | a request becomes the edge from the current owner of `fromSlot` to the current owner of `toSlot`, carrying itself |
| BatchReservations.BatchReservationUseCase.constructor | src/main/java/com/softwarearchetypes/graphs/cycles/BatchReservationUseCase.java:17-19 | the use case works on the given repository |
| BatchReservations.BatchReservationUseCase.BuildGraph | src/main/java/com/softwarearchetypes/graphs/cycles/BatchReservationUseCase.java:61-70 | a fresh graph with one edge per request, added in list order (`SlotGraph`) |
| BatchReservations.BatchReservationUseCase.BuildOwnerGraph | src/main/java/com/softwarearchetypes/graphs/cycles/BatchReservationUseCase.java:79-102 | throws a `NullPointerException` iff some request names an unknown slot. Otherwise it returns a fresh graph with the owner edge of each request, in list order |
| BatchReservations.BatchReservationUseCase.AddOwnerEdges | src/main/java/com/softwarearchetypes/graphs/cycles/BatchReservationUseCase.java:88-99 | the loop adds one owner edge per request, so the graph becomes `OwnerGraph` |
| BatchReservations.BatchReservationUseCase.FindDependentRequests | src/main/java/com/softwarearchetypes/graphs/cycles/BatchReservationUseCase.java:104-122 | the payloads of the first cycle: empty iff the graph has no cycle |
| BatchReservations.SlotCycleRequests | src/main/java/com/softwarearchetypes/graphs/cycles/BatchReservationUseCase.java:114-121 | in the slot graph, every payload of a simple cycle is an input request. The payloads take pairwise distinct slots, give up exactly the slots they take, and are as many as the cycle's edges |
| BatchReservations.OwnerCycleEdges | src/main/java/com/softwarearchetypes/graphs/cycles/BatchReservationUseCase.java:42-43 | every edge of the eligible owner graph on a path is the owner edge of an input request, and its owner pair is eligible |
| BatchReservations.OwnerCycleRequests | src/main/java/com/softwarearchetypes/graphs/cycles/BatchReservationUseCase.java:42-43 | in the eligible owner graph, every cycle edge is the owner edge of an input request whose owner pair is eligible. The payloads take distinct slots, and are as many as the cycle's edges |
| BatchReservations.PayloadSlotsListed | src/main/java/com/softwarearchetypes/graphs/cycles/BatchReservationUseCase.java:72-77 | every slot named by an executed request is one of the input requests' slots |
| BatchReservations.BatchReservationUseCase.LoadAllSlots | src/main/java/com/softwarearchetypes/graphs/cycles/BatchReservationUseCase.java:72-77 | throws iff some slot named by the requests is unknown; otherwise fresh copies of exactly those slots, with their stored owners |
| BatchReservations.BatchReservationUseCase.ReleaseAll | src/main/java/com/softwarearchetypes/graphs/cycles/BatchReservationUseCase.java:27-30 | every loaded `fromSlot` becomes empty; every other loaded slot keeps its owner |
| BatchReservations.AssignOne | src/main/java/com/softwarearchetypes/graphs/cycles/BatchReservationUseCase.java:32-33 | one assignment changes the owner of that slot alone |
| BatchReservations.BatchReservationUseCase.AssignAll | src/main/java/com/softwarearchetypes/graphs/cycles/BatchReservationUseCase.java:31-34 | once the releases are done, the assignments give `Reassigned` owners |
| BatchReservations.BatchReservationUseCase.Reassign | src/main/java/com/softwarearchetypes/graphs/cycles/BatchReservationUseCase.java:27-34 | both loops together: every `toSlot` goes to the user of a request that takes it, every other `fromSlot` becomes empty, and every other slot keeps its owner |
| BatchReservations.ReassignedTargets | src/main/java/com/softwarearchetypes/graphs/cycles/BatchReservationUseCase.java:31-34 | when the requests take distinct slots, each `toSlot` ends up with that request's user |
| BatchReservations.ReassignedFreesNothing | src/main/java/com/softwarearchetypes/graphs/cycles/BatchReservationUseCase.java:27-34 | when the requests give up exactly the slots they take, no given-up slot ends empty: each ends with some executed user |
| BatchReservations.BatchReservationUseCase.SaveCopies | src/main/java/com/softwarearchetypes/graphs/cycles/BatchReservationUseCase.java:35 | saving the loaded copies overwrites exactly their ids, and the store's owners afterwards are those of the stored slots overlaid with the copies |
| BatchReservations.BatchReservationUseCase.CarryOut | src/main/java/com/softwarearchetypes/graphs/cycles/BatchReservationUseCase.java:25-35 | release, assign and save: the stored owners are `Reassigned`, and slots that were not loaded are untouched |
| BatchReservations.BatchReservationUseCase.ExecuteDependent | src/main/java/com/softwarearchetypes/graphs/cycles/BatchReservationUseCase.java:24-38 | an empty set gives `none()` and writes nothing. A missing slot throws and writes nothing. Otherwise the result is SUCCESS with exactly the executed requests, the owners are `Reassigned`, and other slots are untouched |
| BatchReservations.BatchReservationUseCase.Execute | src/main/java/com/softwarearchetypes/graphs/cycles/BatchReservationUseCase.java:21-39 | no cycle in the slot graph gives FAILURE and no write. Otherwise the executed set is the payloads of a simple cycle, as many as its edges, and the owners are reassigned along it |
| BatchReservations.BatchReservationUseCase.ExecuteEligible | src/main/java/com/softwarearchetypes/graphs/cycles/BatchReservationUseCase.java:41-59 | throws iff a request names an unknown slot. No cycle in the eligible owner graph gives FAILURE and no write. Otherwise that cycle's requests are executed as in `Execute` |
| Influence.CartesianOf | src/main/java/com/softwarearchetypes/graphs/influence/InfluenceMap.java:44-61 | the nested loops produce exactly `CartesianEdges(physics, labs)`, with every endpoint a vertex |
| Influence.AddLabPairs | src/main/java/com/softwarearchetypes/graphs/influence/InfluenceMap.java:50-58 | the loops over lab pairs add one physics edge spread over every lab pair |
| Influence.AddLabRow | src/main/java/com/softwarearchetypes/graphs/influence/InfluenceMap.java:51-57 | the innermost loop adds the edges from one lab to every lab |
| Influence.CartesianEdgesIff | src/main/java/com/softwarearchetypes/graphs/influence/InfluenceMap.java:44-61 | (p1,l1)→(p2,l2) is an edge iff p1→p2 is a physics edge and both labs are in the set |
| Influence.CartesianEdgeCount | src/test/java/com/softwarearchetypes/graphs/influence/InfluenceMapTest.java:43 | the lab-set construction has \|physics\| × \|labs\|² edges |
| Influence.AdjacencyOf | src/main/java/com/softwarearchetypes/graphs/influence/InfluenceMap.java:63-84 | the nested loops produce exactly `AdjacencyEdges(physics, adjacency)`, with every endpoint a vertex |
| Influence.AddAlongAdjacency | src/main/java/com/softwarearchetypes/graphs/influence/InfluenceMap.java:72-81 | the inner loop adds one physics edge along every adjacency edge |
| Influence.AdjacencyEdgesIff | src/main/java/com/softwarearchetypes/graphs/influence/InfluenceMap.java:63-84 | (p1,l1)→(p2,l2) is an edge iff p1→p2 is a physics edge and l1→l2 an adjacency edge |
| Influence.AdjacencyEdgeCount | src/test/java/com/softwarearchetypes/graphs/influence/InfluenceMapTest.java:105 | the adjacency construction has \|physics\| × \|adjacency\| edges |
| Influence.AddInfrastructure | src/main/java/com/softwarearchetypes/graphs/influence/InfluenceMap.java:33-42 | every infrastructure edge is added unchanged, with its endpoints as vertices |
| Influence.AddUnitEdge | src/main/java/com/softwarearchetypes/graphs/influence/InfluenceMap.java:54-56 | adding both vertices and then the edge adds exactly that edge |
| Influence.LabSetEdgeCount | src/test/java/com/softwarearchetypes/graphs/influence/InfluenceMapTest.java:75 | with infrastructure edges disjoint from the derived ones, the counts add up |
| Influence.InfluenceMap.constructor | src/main/java/com/softwarearchetypes/graphs/influence/InfluenceMap.java:13-15 | the map keeps the given graph |
| Influence.InfluenceMap.OfLaboratories | src/main/java/com/softwarearchetypes/graphs/influence/InfluenceMap.java:17-23 | the map's edges are the lab-set edges plus the infrastructure edges |
| Influence.InfluenceMap.OfAdjacency | src/main/java/com/softwarearchetypes/graphs/influence/InfluenceMap.java:25-31 | the map's edges are the adjacency edges plus the infrastructure edges |
| Influence.InfluenceMap.Influences | src/main/java/com/softwarearchetypes/graphs/influence/InfluenceMap.java:90-96 | true iff the directed edge between the two units is present |
| Influence.InfluenceMap.InfluencesReservation | src/main/java/com/softwarearchetypes/graphs/influence/InfluenceMap.java:98-100 | true iff (from.process, from.lab)→(to.process, to.lab) is an edge |
| Influence.LabSetInfluence | src/main/java/com/softwarearchetypes/graphs/influence/InfluenceMap.java:17-23 | a reservation influences another iff their processes are physics-linked and both labs are listed, or an infrastructure edge joins them |
| Influence.AdjacencyInfluence | src/main/java/com/softwarearchetypes/graphs/influence/InfluenceMap.java:25-31 | a reservation influences another iff their processes are physics-linked and their labs adjacent, or an infrastructure edge joins them |
| Influence.Builder.constructor | src/main/java/com/softwarearchetypes/graphs/influence/InfluenceMap.java:106-110 | all four inputs start unset |
| Influence.Builder.WithPhysics | src/main/java/com/softwarearchetypes/graphs/influence/InfluenceMap.java:112-115 | sets the physics input only |
| Influence.Builder.WithInfrastructure | src/main/java/com/softwarearchetypes/graphs/influence/InfluenceMap.java:117-120 | sets the infrastructure input only |
| Influence.Builder.WithLaboratories | src/main/java/com/softwarearchetypes/graphs/influence/InfluenceMap.java:122-125 | sets the laboratory set only |
| Influence.Builder.WithLaboratoryAdjacency | src/main/java/com/softwarearchetypes/graphs/influence/InfluenceMap.java:127-130 | sets the adjacency only |
| Influence.Builder.Build | src/main/java/com/softwarearchetypes/graphs/influence/InfluenceMap.java:132-137 | uses the adjacency whenever one was given, otherwise the lab set. It throws a `NullPointerException` exactly when a needed input is unset |
| Influence.InfluenceAnalyzer.constructor | src/main/java/com/softwarearchetypes/graphs/influence/InfluanceAnalyzer.java:16-18 | the analyzer asks the given map |
| Influence.InfluenceAnalyzer.CountConflicts | src/main/java/com/softwarearchetypes/graphs/influence/InfluanceAnalyzer.java:20-28 | the number of existing reservations that the new one influences (that direction only): at most their number, and 0 iff it influences none |
| Influence.InfluenceAnalyzer.BuildInfluenceGraph | src/main/java/com/softwarearchetypes/graphs/influence/InfluanceAnalyzer.java:53-66 | the vertices are exactly the reservations; the edges are `InfluenceEdges` |
| Influence.InfluenceAnalyzer.AddInfluencesOf | src/main/java/com/softwarearchetypes/graphs/influence/InfluanceAnalyzer.java:59-63 | the inner loop adds the links from `r1` to every reservation it disturbs |
| Influence.InfluenceAnalyzer.LinkIfDisturbs | src/main/java/com/softwarearchetypes/graphs/influence/InfluanceAnalyzer.java:60-62 | links two distinct reservations when the first influences the second, and never a reservation to itself |
| Influence.InfluenceEdgesIff | src/main/java/com/softwarearchetypes/graphs/influence/InfluanceAnalyzer.java:58-63 | {a, b} is an edge iff a ≠ b, both are reservations, and influence holds in at least one direction |
| Influence.InfluenceEdgesHaveTwoEnds | src/main/java/com/softwarearchetypes/graphs/influence/InfluanceAnalyzer.java:53-66 | every edge joins two distinct input reservations |
| Influence.InfluenceZone.CountReservationsToNegotiateWith | src/main/java/com/softwarearchetypes/graphs/influence/InfluenceZone.java:12-17 | 0 for a non-member, `size() - 1` for a member, and always the size of the negotiation set |
| Influence.InfluenceZone.GetReservationsToNegotiateWith | src/main/java/com/softwarearchetypes/graphs/influence/InfluenceZone.java:19-26 | empty for a non-member; for a member, the other reservations of the zone; never the reservation itself |
| Influence.InfluenceZone.Size | src/main/java/com/softwarearchetypes/graphs/influence/InfluenceZone.java:28-30 | the number of reservations; 0 iff the zone is empty; one more than any member's negotiation set |
| Influence.SingletonZone | src/main/java/com/softwarearchetypes/graphs/influence/InfluenceZone.java:12-30 | a one-reservation zone has size 1 and nothing to negotiate |
| Concurrency.Successor | src/main/java/com/softwarearchetypes/graphs/scheduling/concurrency/ExecutionEnvironments.java:15 | Java `int` `+ 1`: one more, except that `Integer.MAX_VALUE` wraps to `Integer.MIN_VALUE` |
| Concurrency.Max | src/main/java/com/softwarearchetypes/graphs/scheduling/concurrency/ExecutionEnvironments.java:13-14 | the largest environment number: present, and at least every other |
| Concurrency.ExecutionEnvironments.EnvironmentCount | src/main/java/com/softwarearchetypes/graphs/scheduling/concurrency/ExecutionEnvironments.java:12-17 | 0 for an empty map; otherwise one more than the largest number (above every environment, which one reaches), or `Integer.MIN_VALUE` after wrap-around |
| Concurrency.ExecutionEnvironments.GetEnvironment | src/main/java/com/softwarearchetypes/graphs/scheduling/concurrency/ExecutionEnvironments.java:19-21 | the step's environment, or null (None) exactly for an unmapped step |
| Concurrency.ExecutionEnvironments.GetStepsInEnvironment | src/main/java/com/softwarearchetypes/graphs/scheduling/concurrency/ExecutionEnvironments.java:23-31 | the loop collects exactly the steps mapped to the environment |
| Concurrency.ExecutionEnvironments.CanRunConcurrently | src/main/java/com/softwarearchetypes/graphs/scheduling/concurrency/ExecutionEnvironments.java:33-37 | true iff both steps are mapped, to the same environment |
| Concurrency.StepsInIff | src/main/java/com/softwarearchetypes/graphs/scheduling/concurrency/ExecutionEnvironments.java:23-31 | a step is in an environment's steps iff `getEnvironment` gives that environment |
| Concurrency.StepInOwnEnvironment | src/main/java/com/softwarearchetypes/graphs/scheduling/concurrency/ExecutionEnvironments.java:19-31 | every mapped step lies in the steps of its own environment |
| Concurrency.EnvironmentsPartitionSteps | src/main/java/com/softwarearchetypes/graphs/scheduling/concurrency/ExecutionEnvironments.java:23-31 | distinct environments hold disjoint steps, and together they hold every mapped step |
| Concurrency.EnvironmentBelowCount | src/main/java/com/softwarearchetypes/graphs/scheduling/concurrency/ExecutionEnvironments.java:12-21 | without wrap-around, every step's environment is below the count |
| Concurrency.NoStepsBeyondCount | src/main/java/com/softwarearchetypes/graphs/scheduling/concurrency/ExecutionEnvironments.java:12-31 | without wrap-around, no environment at or above the count holds a step |
| Concurrency.ConcurrencySymmetric | src/main/java/com/softwarearchetypes/graphs/scheduling/concurrency/ExecutionEnvironments.java:33-37 | concurrency is symmetric |
| Concurrency.ConcurrencyReflexiveOnMapped | src/main/java/com/softwarearchetypes/graphs/scheduling/concurrency/ExecutionEnvironments.java:33-37 | a step is concurrent with itself iff it is mapped; an unmapped step is concurrent with nothing |
| Concurrency.ConcurrentIffSharedEnvironment | src/main/java/com/softwarearchetypes/graphs/scheduling/concurrency/ExecutionEnvironments.java:23-37 | two steps can run concurrently iff some environment holds both |
| Concurrency.ConcurrencyTransitive | src/main/java/com/softwarearchetypes/graphs/scheduling/concurrency/ExecutionEnvironments.java:33-37 | concurrency is transitive |
| States.State.WithProduct | src/main/java/com/softwarearchetypes/graphs/userjourney/State.java:16-20 | the new state holds the product and every original product, and nothing else; the receiver is a value and is unchanged |
| States.State.Contains | src/main/java/com/softwarearchetypes/graphs/userjourney/State.java:22-26 | true iff the type is among the product types of the state; never for the empty state |
| States.Empty | src/main/java/com/softwarearchetypes/graphs/userjourney/State.java:8-10 | the empty state holds no product |
| States.Of | src/main/java/com/softwarearchetypes/graphs/userjourney/State.java:12-14 | throws `IllegalArgumentException` iff a product is repeated; otherwise a state holding exactly the given products, as many as were given |
| States.EmptyContainsNothing | src/main/java/com/softwarearchetypes/graphs/userjourney/State.java:8-10 | the empty state contains no product type |
| States.WithProductContains | src/main/java/com/softwarearchetypes/graphs/userjourney/State.java:16-26 | after `withProduct`, a type is contained iff it was before or is the new product's |
| States.WithProductIdempotent | src/main/java/com/softwarearchetypes/graphs/userjourney/State.java:16-20 | adding a product already present gives an equal state |
| States.WithProductCommutes | src/main/java/com/softwarearchetypes/graphs/userjourney/State.java:16-20 | the order of additions does not matter |
| States.OfContains | src/main/java/com/softwarearchetypes/graphs/userjourney/State.java:12-26 | a state built by `of` contains exactly the types of the products given |
| States.OfIsRepeatedWithProduct | src/main/java/com/softwarearchetypes/graphs/userjourney/State.java:12-20 | `of` agrees with adding the products one at a time to the empty state |
| UserJourneys.UserJourney.OnFulfilled | src/main/java/com/softwarearchetypes/graphs/userjourney/UserJourney.java:37-45 | a null current state throws `NullPointerException`, one that is not a vertex `IllegalArgumentException`. A matching outgoing edge moves the journey to its target, keeping id and graph; otherwise the same journey comes back |
| UserJourneys.FulfilAll | src/test/java/com/softwarearchetypes/graphs/userjourney/OnFulfilledTest.java:44-50 | successive `onFulfilled` calls keep the id and the graph |
| UserJourneys.OnFulfilledStaysInGraph | src/main/java/com/softwarearchetypes/graphs/userjourney/UserJourney.java:37-45 | from a state of the graph, `onFulfilled` succeeds and stays in the graph |
| UserJourneys.OnFulfilledIdempotent | src/main/java/com/softwarearchetypes/graphs/userjourney/UserJourney.java:37-45 | fulfilling a condition a second time changes nothing more |
| UserJourneys.FulfilAllFollowsPath | src/test/java/com/softwarearchetypes/graphs/userjourney/OnFulfilledTest.java:44-50 | fulfilling the labels of a path walks to the path's end |
| UserJourneys.FulfilAllStaysInGraph | src/main/java/com/softwarearchetypes/graphs/userjourney/UserJourney.java:37-45 | any sequence of conditions from a state of the graph stays in the graph |
| UserJourneys.Builder.constructor | src/main/java/com/softwarearchetypes/graphs/userjourney/UserJourney.java:62-65 | a fresh empty graph, the given id, no current state |
| UserJourneys.Builder.From | src/main/java/com/softwarearchetypes/graphs/userjourney/UserJourney.java:67-70 | adds the state as a vertex and starts a transition from it |
| UserJourneys.Builder.WithCurrentState | src/main/java/com/softwarearchetypes/graphs/userjourney/UserJourney.java:72-75 | records the current state and returns the same builder |
| UserJourneys.Builder.Build | src/main/java/com/softwarearchetypes/graphs/userjourney/UserJourney.java:77-79 | the journey carries the id, the shared graph and the current state |
| UserJourneys.TransitionBuilder.constructor | src/main/java/com/softwarearchetypes/graphs/userjourney/UserJourney.java:86-89 | remembers the builder and the source state |
| UserJourneys.TransitionBuilder.On | src/main/java/com/softwarearchetypes/graphs/userjourney/UserJourney.java:91-93 | remembers the condition as well |
| UserJourneys.TransitionWithCondition.constructor | src/main/java/com/softwarearchetypes/graphs/userjourney/UserJourney.java:101-105 | remembers builder, source state and condition |
| UserJourneys.TransitionWithCondition.Goto | src/main/java/com/softwarearchetypes/graphs/userjourney/UserJourney.java:107-111 | adds the target vertex and the labelled edge, unless the label or the vertex pair is already used; keeps the graph well formed |
| UserJourneys.EndpointsOfNewLabel | src/main/java/com/softwarearchetypes/graphs/userjourney/UserJourney.java:108-109 | a new label adds exactly its two endpoints to the states its edges touch |
| UserJourneys.ChainOfTransitions | src/test/java/com/softwarearchetypes/graphs/userjourney/OnFulfilledTest.java:28-51 | a journey built as in the chained-transitions example reaches the penalty state once `paymentOnTime` is fulfilled, then the 10% discount state once `promotionApproved` is fulfilled |

## Left out

- jgrapht is not part of this model. So the connectivity and cut-point analysis of
  `InfluanceAnalyzer` (InfluanceAnalyzer.java:30-51) are left out, and so are the
  all-paths enumeration of `waysToAchieve`, topological sorting and greedy colouring.
- Floating point: `CustomerPath.weight`, `optimizedWayToAchieve` and the typed getters of
  `Condition` are left out. Attribute values are integers only.
- `Schedule`, `BridgingReservations` and `CustomerPath` are left out, as thin wrappers.
  The non-blank name checks of `ProcessStep` and `DependencyType` are left out too.
- The `PhysicsInfluence`, `LaboratoryAdjacency` and `InfrastructureInfluence` builders are
  left out: the model takes their result directly, as sets of pairs.
- `toString` of `Path`, `Edge` and `Node` is left out.
- `ConcurrentHashMap` is a plain map: concurrency is not modelled.
- `HashMap` and `HashSet` iteration order is an arbitrary choice (`:|`). So
  `GraphMath.Graph.FindFirstCycle` promises *a* simple cycle whenever one exists, not one
  particular cycle.
- The defensive copies made by the `ExecutionEnvironments` and `InfluenceZone` constructors
  are left out: the model's maps and sets are values. Null keys and null values in the
  step map are left out.
- UserJourneys.TransitionWithCondition.Goto: it requires the source state to be a vertex
  already. `from` guarantees this for every builder chain; jgrapht's exception for an edge
  from an unknown vertex is not modelled.
- UserJourneys.FulfilAll: it stands for repeated `onFulfilled` calls as the example tests
  write them, not for a method of the source.
- Influence.LabSetEdgeCount: it assumes the infrastructure edges are disjoint from the
  derived ones. With overlap, the set union counts a shared edge once, as jgrapht does; that
  count is not stated.
- The test `BatchReservationEligibilityUseCaseTest` only checks chosen instances (a
  five-owner rotation, a revoked link). These follow from `ExecuteEligible`'s contract but are
  not restated one by one.

## Findings

| source | as written | input that shows it | evidently intended | confidence | as-written member | corrected member |
|---|---|---|---|---|---|---|
| src/main/java/com/softwarearchetypes/graphs/cycles/math/Graph.java:90-94 | `removeEdge` calls `edges.remove(i)` and then increments `i`, so the edge that moves into position `i` is never examined | add the edge A→B twice (e.g. `markTransferEligible(A, B)` twice), then `removeEdge(A→B)`: one A→B edge remains and `hasEdge(A, B)` is still true | remove every edge from `edge.from` to `edge.to`, so that afterwards `hasEdge` is false and every other link is kept | not executed | GraphMath.WithoutEdgeAfterDuplicate | GraphMath.WithoutAllEdgesUnlinks |

`GraphMath.Graph.RemoveEdge` and `Eligibilities.Eligibility.MarkTransferIneligible` keep the
as-written removal, so they behave as the source does. `GraphMath.Graph.RemoveAllEdges` is the
corrected removal as a method of the graph.
