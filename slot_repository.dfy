/** The in-memory slot store: a map from identifiers to slot objects. */
module SlotRepositories {
  import opened Wrappers
  import opened OwnerIds
  import opened Slots

  /** The store after saving `values` one after the other: each slot is filed
      under its own identifier, a later one replacing an earlier one. */
  function SavedAll(slots: map<SlotId, Slot>, values: seq<Slot>): map<SlotId, Slot>
  {
    if values == [] then slots
    else SavedAll(slots, values[..|values| - 1])[values[|values| - 1].slotId := values[|values| - 1]]
  }

  /** Saving slots with distinct identifiers files each of them under its
      identifier and keeps every other entry, whatever the order. */
  lemma SavedAllDistinct(slots: map<SlotId, Slot>, values: seq<Slot>)
    requires forall i, j | 0 <= i < j < |values| :: values[i].slotId != values[j].slotId
    ensures forall v | v in values :: v.slotId in SavedAll(slots, values) && SavedAll(slots, values)[v.slotId] == v
    ensures forall id | id in slots && (forall v | v in values :: v.slotId != id) ::
              id in SavedAll(slots, values) && SavedAll(slots, values)[id] == slots[id]
    ensures SavedAll(slots, values).Keys == slots.Keys + (set v | v in values :: v.slotId)
  {
    SavedAllFiles(slots, values);
    SavedAllKeepsOthers(slots, values);
    SavedAllKeys(slots, values);
  }

  /** With distinct identifiers, every saved slot ends up under its identifier. */
  lemma {:induction false} SavedAllFiles(slots: map<SlotId, Slot>, values: seq<Slot>)
    requires forall i, j | 0 <= i < j < |values| :: values[i].slotId != values[j].slotId
    ensures forall v | v in values :: v.slotId in SavedAll(slots, values) && SavedAll(slots, values)[v.slotId] == v
  {
    if values != [] {
      var init := values[..|values| - 1];
      var last := values[|values| - 1];
      SavedAllFiles(slots, init);
      forall v | v in values
        ensures v.slotId in SavedAll(slots, values) && SavedAll(slots, values)[v.slotId] == v
      {
        if v != last {
          var k :| 0 <= k < |init| && init[k] == v;
          assert values[k].slotId != values[|values| - 1].slotId;
        }
      }
    }
  }

  /** An identifier that no saved slot carries keeps its entry. */
  lemma {:induction false} SavedAllKeepsOthers(slots: map<SlotId, Slot>, values: seq<Slot>)
    ensures forall id | id in slots && (forall v | v in values :: v.slotId != id) ::
              id in SavedAll(slots, values) && SavedAll(slots, values)[id] == slots[id]
  {
    if values != [] {
      var init := values[..|values| - 1];
      SavedAllKeepsOthers(slots, init);
      assert forall v | v in init :: v in values;
      assert values[|values| - 1] in values;
    }
  }

  /** The saved store holds the old identifiers and those of the saved slots. */
  lemma {:induction false} SavedAllKeys(slots: map<SlotId, Slot>, values: seq<Slot>)
    ensures SavedAll(slots, values).Keys == slots.Keys + (set v | v in values :: v.slotId)
  {
    if values != [] {
      var init := values[..|values| - 1];
      var last := values[|values| - 1];
      SavedAllKeys(slots, init);
      assert forall v | v in values :: v in init || v == last;
      assert (set v | v in values :: v.slotId) == (set v | v in init :: v.slotId) + {last.slotId};
    }
  }

  /** The current owner of every slot of the map. */
  ghost function OwnersOf(slots: map<SlotId, Slot>): (owners: map<SlotId, OwnerId>)
    reads slots.Values
    ensures owners.Keys == slots.Keys
  {
    map id | id in slots :: slots[id].owner
  }

  /** The values of a map whose slots are filed under their own identifiers
      (`Map.values()`), in no particular order, each slot once. */
  method SlotValues(slots: map<SlotId, Slot>) returns (values: seq<Slot>)
    requires forall id | id in slots :: slots[id].slotId == id
    ensures forall i, j | 0 <= i < j < |values| :: values[i].slotId != values[j].slotId
    ensures forall id | id in slots :: slots[id] in values
    ensures forall v | v in values :: v.slotId in slots && slots[v.slotId] == v
  {
    values := [];
    var remaining := slots.Keys;
    while remaining != {}
      invariant remaining <= slots.Keys
      invariant forall i, j | 0 <= i < j < |values| :: values[i].slotId != values[j].slotId
      invariant forall id | id in slots.Keys - remaining :: slots[id] in values
      invariant forall v | v in values :: v.slotId in slots.Keys - remaining && slots[v.slotId] == v
      decreases remaining
    {
      var slotId :| slotId in remaining;
      values := values + [slots[slotId]];
      remaining := remaining - {slotId};
    }
  }

  /** `InMemorySlotRepository`: the concurrent map of the source is a plain map. */
  class InMemorySlotRepository {
    var slots: map<SlotId, Slot>

    /** Every slot is filed under its own identifier. */
    ghost predicate Valid()
      reads this
    {
      forall id | id in slots :: slots[id].slotId == id
    }

    /** The current owner of every stored slot. */
    ghost function Owners(): map<SlotId, OwnerId>
      reads this, slots.Values
    {
      OwnersOf(slots)
    }

    constructor ()
      ensures Valid() && slots == map[]
    {
      slots := map[];
    }

    /** The stored slot object itself, or nothing for an unknown identifier. */
    function FindById(slotId: SlotId): (r: Option<Slot>)
      reads this
      ensures r.Some? <==> slotId in slots
      ensures r.Some? ==> r.value == slots[slotId]
      ensures Valid() && r.Some? ==> r.value.slotId == slotId
    {
      if slotId in slots then Some(slots[slotId]) else None
    }

    /** Files `slot` under its identifier, replacing what was stored there. */
    method Save(slot: Slot)
      requires Valid()
      modifies this
      ensures Valid()
      ensures slots == old(slots)[slot.slotId := slot]
    {
      slots := slots[slot.slotId := slot];
    }

    /** Saves the slots in the order given. */
    method SaveAll(values: seq<Slot>)
      requires Valid()
      modifies this
      ensures Valid()
      ensures slots == SavedAll(old(slots), values)
    {
      var i := 0;
      while i < |values|
        invariant 0 <= i <= |values|
        invariant Valid()
        invariant slots == SavedAll(old(slots), values[..i])
      {
        assert values[..i + 1][..i] == values[..i];
        Save(values[i]);
        i := i + 1;
      }
      assert values[..i] == values;
    }

    /** A fresh copy of every requested slot, with the stored owner, keyed by its
        identifier; a missing identifier yields a null value, which the map
        collector rejects with a `NullPointerException`. The store is not changed. */
    method FindAll(allSlotIds: set<SlotId>) returns (r: Result<map<SlotId, Slot>>)
      requires Valid()
      ensures r.Ok? <==> allSlotIds <= slots.Keys
      ensures r.Thrown? ==> r.exception == NullPointerException
      ensures r.Ok? ==> r.value.Keys == allSlotIds
      ensures r.Ok? ==> forall id | id in allSlotIds ::
                fresh(r.value[id]) && r.value[id].slotId == id && r.value[id].owner == slots[id].owner
    {
      var copies: map<SlotId, Slot> := map[];
      var remaining := allSlotIds;
      while remaining != {}
        invariant remaining <= allSlotIds
        invariant copies.Keys == allSlotIds - remaining
        invariant copies.Keys <= slots.Keys
        invariant forall id | id in copies ::
                    fresh(copies[id]) && copies[id].slotId == id && copies[id].owner == slots[id].owner
        decreases remaining
      {
        var slotId :| slotId in remaining;
        var original := FindById(slotId);
        if original.None? {
          return Thrown(NullPointerException);
        }
        var copy := Slot.Create(original.value.Id(), original.value.GetOwner());
        copies := copies[slotId := copy];
        remaining := remaining - {slotId};
      }
      r := Ok(copies);
    }
  }
}
