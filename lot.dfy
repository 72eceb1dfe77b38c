/**
 * The parking lot object (final.cpp, class ParkingLot): a vector of slot
 * objects, updated in place.  The ghost field `Contents` is the public view
 * of the slots' fields; each method is proved to change it exactly as the
 * matching function of LotState says.
 */
module Lot {
  import opened Wrappers
  import opened Vehicles
  import opened Slots
  import opened LotState

  class ParkingLot {
    // public view: the fields of every slot, in slot order
    ghost var Contents: seq<SlotView>

    // implementation: the slot objects
    var slots: seq<ParkingSlot>

    /** Distinct slot objects whose fields are `Contents`, numbered 1..N, each consistent. */
    ghost predicate Valid()
      reads this, slots
    {
      |slots| == |Contents| &&
      (forall i :: 0 <= i < |slots| ==> slots[i].View() == Contents[i]) &&
      (forall i, j :: 0 <= i < j < |slots| ==> slots[i] != slots[j]) &&
      WellFormed(Contents)
    }

    /** ParkingLot(totalSlots): slots 1..totalSlots, all free. */
    constructor (totalSlots: int)
      ensures Valid() && Contents == Fresh(totalSlots)
      ensures forall i :: 0 <= i < |slots| ==> fresh(slots[i])
    {
      var built: seq<ParkingSlot> := [];
      var i := 1;
      while i <= totalSlots
        invariant 1 <= i <= (if totalSlots > 0 then totalSlots else 0) + 1
        invariant |built| == i - 1
        invariant forall j :: 0 <= j < |built| ==> built[j].View() == SlotView(j + 1, false, None)
        invariant forall j, k :: 0 <= j < k < |built| ==> built[j] != built[k]
        invariant forall j :: 0 <= j < |built| ==> fresh(built[j])
      {
        var slot := new ParkingSlot(i);
        built := built + [slot];
        i := i + 1;
      }
      slots := built;
      Contents := Fresh(totalSlots);
    }

    /** showStatus without the printing: every slot's fields in ascending id order. */
    method Status() returns (report: seq<SlotView>)
      requires Valid()
      ensures report == Contents
      ensures WellFormed(report)
    {
      report := [];
      for i := 0 to |slots|
        invariant report == Contents[..i]
      {
        report := report + [slots[i].View()];
      }
    }

    /**
     * allocateSlot: park `v` in the first free slot and return its id, or
     * return -1 and change nothing when every slot is occupied.
     */
    method AllocateSlot(v: Vehicle) returns (id: int)
      requires Valid()
      modifies this, slots
      ensures Valid() && slots == old(slots)
      ensures (Contents, id) == Allocate(old(Contents), v)
    {
      var i := 0;
      while i < |slots|
        invariant 0 <= i <= |slots|
        invariant forall j :: 0 <= j < i ==> Contents[j].occupied
      {
        if !slots[i].IsOccupied() {
          assert FirstFree(Contents) == Some(i);
          slots[i].ParkVehicle(v);
          Contents := Contents[i := Contents[i].Parked(v)];
          id := slots[i].id;
          return;
        }
        i := i + 1;
      }
      id := -1;
    }

    /**
     * releaseSlot: reject an id outside 1..N or a free slot; otherwise free
     * the slot and report the vehicle, its stay and its fee at `exitTime`.
     */
    method ReleaseSlot(slotId: int, exitTime: int) returns (outcome: ReleaseOutcome)
      requires Valid()
      modifies this, slots
      ensures Valid() && slots == old(slots)
      ensures (Contents, outcome) == Release(old(Contents), slotId, exitTime)
    {
      if slotId <= 0 || slotId > |slots| {
        return InvalidSlot;
      }
      var slot := slots[slotId - 1];
      if !slot.IsOccupied() {
        return SlotAlreadyEmpty;
      }
      var held := slot.ReleaseVehicle();
      Contents := Contents[slotId - 1 := Contents[slotId - 1].Emptied()];
      var v := held.value;
      outcome := Exited(v, Elapsed(v, exitTime), ScaledFee(v, exitTime));
    }
  }
}
