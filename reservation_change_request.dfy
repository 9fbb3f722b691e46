/** A request to move a user from one slot to another. */
module Requests {
  import opened OwnerIds
  import opened Slots

  /** `userId` wants to give up `fromSlot` and take `toSlot`. */
  datatype ReservationChangeRequest = ReservationChangeRequest(fromSlot: SlotId, toSlot: SlotId, userId: OwnerId)

  /** The slots that the requests give up. */
  function FromSlots(requests: set<ReservationChangeRequest>): set<SlotId>
  {
    set r | r in requests :: r.fromSlot
  }

  /** The slots that the requests take. */
  function ToSlots(requests: set<ReservationChangeRequest>): set<SlotId>
  {
    set r | r in requests :: r.toSlot
  }

  /** One more request adds its slots to those of the requests handled so far. */
  lemma ToSlotsStep(all: set<ReservationChangeRequest>, done: set<ReservationChangeRequest>, r: ReservationChangeRequest)
    requires r in all
    ensures r.toSlot in ToSlots(all) && r.fromSlot in FromSlots(all)
    ensures ToSlots(done + {r}) == ToSlots(done) + {r.toSlot}
    ensures FromSlots(done + {r}) == FromSlots(done) + {r.fromSlot}
  {
  }

  /** Every slot a set of requests names (`flatMap` of both slots into a set). */
  function SlotIdsOf(requests: set<ReservationChangeRequest>): set<SlotId>
  {
    FromSlots(requests) + ToSlots(requests)
  }

  /** Every slot a list of requests names. */
  function ListSlotIds(requests: seq<ReservationChangeRequest>): set<SlotId>
  {
    (set i | 0 <= i < |requests| :: requests[i].fromSlot) + (set i | 0 <= i < |requests| :: requests[i].toSlot)
  }

  /** A set holding every slot of the list holds both slots of each request. */
  lemma ListSlotIdsCover(requests: seq<ReservationChangeRequest>, ids: set<SlotId>)
    requires ListSlotIds(requests) <= ids
    ensures forall k | 0 <= k < |requests| :: requests[k].fromSlot in ids && requests[k].toSlot in ids
  {
    forall k | 0 <= k < |requests| ensures requests[k].fromSlot in ids && requests[k].toSlot in ids {
      assert requests[k].fromSlot in ListSlotIds(requests) && requests[k].toSlot in ListSlotIds(requests);
    }
  }

  /** No two requests take the same slot. */
  ghost predicate DistinctTargets(requests: set<ReservationChangeRequest>)
  {
    forall p, q | p in requests && q in requests && p.toSlot == q.toSlot :: p == q
  }
}
