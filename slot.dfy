/** Reservable slots: an immutable identifier and a mutable current owner. */
module Slots {
  import opened OwnerIds

  /** A slot identifier, compared by value. */
  datatype SlotId = SlotId(value: string)

  class Slot {
    const slotId: SlotId
    var owner: OwnerId

    constructor (slotId: SlotId, owner: OwnerId)
      ensures this.slotId == slotId && this.owner == owner
    {
      this.slotId := slotId;
      this.owner := owner;
    }

    /** `Slot.create`: a new slot with the given identifier and owner. */
    static method Create(slotId: SlotId, owner: OwnerId) returns (slot: Slot)
      ensures fresh(slot)
      ensures slot.slotId == slotId && slot.owner == owner
    {
      slot := new Slot(slotId, owner);
    }

    /** Frees the slot: its owner becomes the empty identifier. */
    method Release()
      modifies this
      ensures owner == Empty() && IsEmpty(owner)
    {
      owner := Empty();
    }

    /** Hands the slot to `newOwner`, whoever owned it before. */
    method AssignTo(newOwner: OwnerId)
      modifies this
      ensures owner == newOwner
    {
      owner := newOwner;
    }

    /** The current owner: the one given at creation or by the last release or assignment. */
    function GetOwner(): (r: OwnerId)
      reads this
      ensures r == owner
    {
      owner
    }

    /** The identifier, fixed for the life of the slot. */
    function Id(): (r: SlotId)
      ensures r == slotId
    {
      slotId
    }
  }
}
