/** Which owner may hand a slot over to which other owner: a directed graph on
    owner identifiers with no payload on its edges. */
module Eligibilities {
  import opened OwnerIds
  import opened GraphMath

  /** The payload-free edge that records "`from` may transfer to `to`". */
  function TransferEdge(from: OwnerId, to: OwnerId): (e: Edge<OwnerId, ()>)
    ensures e.from == Node(from) && e.to == Node(to)
  {
    Edge(Node(from), Node(to), ())
  }

  /** The permissions recorded by marking the pairs of `marks` in order. */
  function TransferEdges(marks: seq<(OwnerId, OwnerId)>): (edges: seq<Edge<OwnerId, ()>>)
    ensures |edges| == |marks|
    ensures forall i | 0 <= i < |marks| :: edges[i] == TransferEdge(marks[i].0, marks[i].1)
  {
    seq(|marks|, i requires 0 <= i < |marks| => TransferEdge(marks[i].0, marks[i].1))
  }

  /** After marking the pairs of `marks` on a new eligibility, exactly those
      pairs are eligible: in particular marking `a` to `b` says nothing about
      `b` to `a`. */
  lemma {:induction false} MarkedPairsEligible(marks: seq<(OwnerId, OwnerId)>, from: OwnerId, to: OwnerId)
    ensures HasEdgeIn(WithEdges(map[], TransferEdges(marks)), Node(from), Node(to)) <==> (from, to) in marks
  {
    var edges := TransferEdges(marks);
    WithEdgesHasEdge(map[], edges, Node(from), Node(to));
    if (from, to) in marks {
      var i :| 0 <= i < |marks| && marks[i] == (from, to);
      assert edges[i] in edges;
    }
    if exists e | e in edges :: e.from == Node(from) && e.to == Node(to) {
      var e :| e in edges && e.from == Node(from) && e.to == Node(to);
      var i :| 0 <= i < |edges| && edges[i] == e;
      assert marks[i] == (from, to);
    }
  }

  class Eligibility {
    const graph: Graph<OwnerId, ()>

    ghost predicate Valid()
      reads this, graph
    {
      graph.Valid()
    }

    /** A new eligibility allows no transfer. */
    constructor ()
      ensures fresh(graph) && Valid() && graph.adjacency == map[]
      ensures forall f, t :: !IsTransferEligible(f, t)
    {
      graph := new Graph();
    }

    /** Records that `from` may transfer to `to`; every other pair keeps its status. */
    method MarkTransferEligible(from: OwnerId, to: OwnerId)
      requires Valid()
      modifies graph
      ensures Valid()
      ensures graph.adjacency == WithEdge(old(graph.adjacency), TransferEdge(from, to))
      ensures IsTransferEligible(from, to)
      ensures forall f, t | (f, t) != (from, to) ::
                IsTransferEligible(f, t) == old(IsTransferEligible(f, t))
    {
      graph.AddEdge(TransferEdge(from, to));
      forall f, t | (f, t) != (from, to)
        ensures IsTransferEligible(f, t) == old(IsTransferEligible(f, t))
      {
        WithEdgeHasEdge(old(graph.adjacency), TransferEdge(from, to), Node(f), Node(t));
      }
      WithEdgeHasEdge(old(graph.adjacency), TransferEdge(from, to), Node(from), Node(to));
    }

    /** Withdraws the permission from `from` to `to` with the graph's own
        `RemoveEdge`; every other pair keeps its status. The pair is
        guaranteed to become ineligible only when no two consecutive
        entries of its owner's list point at `to`: a permission marked twice
        and withdrawn once stays in force (see `WithoutEdgeAfterDuplicate`). */
    method MarkTransferIneligible(from: OwnerId, to: OwnerId)
      requires Valid()
      modifies graph
      ensures Valid()
      ensures graph.adjacency == WithoutEdge(old(graph.adjacency), TransferEdge(from, to))
      ensures (Node(from) in old(graph.adjacency) ==>
                 NoAdjacentTo(old(graph.adjacency)[Node(from)], Node(to))) ==>
              !IsTransferEligible(from, to)
      ensures forall f, t | (f, t) != (from, to) ::
                IsTransferEligible(f, t) == old(IsTransferEligible(f, t))
    {
      ghost var before := graph.adjacency;
      graph.RemoveEdge(TransferEdge(from, to));
      forall f, t | (f, t) != (from, to)
        ensures IsTransferEligible(f, t) == old(IsTransferEligible(f, t))
      {
        WithoutEdgeOtherPairs(before, TransferEdge(from, to), Node(f), Node(t));
      }
      if Node(from) in before ==> NoAdjacentTo(before[Node(from)], Node(to)) {
        WithoutEdgeUnlinks(before, TransferEdge(from, to));
      }
    }

    /** Whether `from` may currently transfer to `to`. */
    function IsTransferEligible(from: OwnerId, to: OwnerId): (r: bool)
      reads this, graph
      ensures r <==> HasEdgeIn(graph.adjacency, Node(from), Node(to))
    {
      graph.HasEdge(Node(from), Node(to))
    }

    /** The permission graph itself, shared with the caller. */
    function AsGraph(): (g: Graph<OwnerId, ()>)
      ensures g == graph
    {
      graph
    }
  }
}
