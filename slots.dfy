/**
 * One parking space (final.cpp, class ParkingSlot).
 *
 * `SlotView` is the value of a slot's fields; `ParkingSlot` is the mutable
 * object the lot keeps, whose methods update those fields in place.
 */
module Slots {
  import opened Wrappers
  import opened Vehicles

  datatype SlotView = SlotView(id: int, occupied: bool, vehicle: Option<Vehicle>)
  {
    /** The slot invariant: the flag is set exactly when a vehicle is held. */
    predicate Consistent()
    {
      occupied <==> vehicle.Some?
    }

    /** The fields after parkVehicle(v). */
    function Parked(v: Vehicle): (s: SlotView)
    {
      SlotView(id, true, Some(v))
    }

    /** The fields after releaseVehicle(). */
    function Emptied(): (s: SlotView)
    {
      SlotView(id, false, None)
    }
  }

  /** Parking into a free slot and releasing it again gives back the free slot. */
  lemma ParkThenEmpty(s: SlotView, v: Vehicle)
    requires s.Consistent() && !s.occupied
    ensures s.Parked(v).Emptied() == s
  {
  }

  class ParkingSlot {
    const id: int
    var occupied: bool
    var vehicle: Option<Vehicle>

    function View(): (s: SlotView)
      reads this
    {
      SlotView(id, occupied, vehicle)
    }

    predicate Valid()
      reads this
    {
      View().Consistent()
    }

    /** A new slot with the given id, free and holding nothing. */
    constructor (slotId: int)
      ensures View() == SlotView(slotId, false, None) && Valid()
    {
      id := slotId;
      occupied := false;
      vehicle := None;
    }

    /** isOccupied: under the invariant, whether a vehicle is held. */
    function IsOccupied(): (b: bool)
      reads this
      requires Valid()
      ensures b <==> vehicle.Some?
    {
      occupied
    }

    /**
     * parkVehicle: store `v` and set the flag.  Like the source it does not
     * check whether the slot was already occupied.
     */
    method ParkVehicle(v: Vehicle)
      modifies this
      ensures View() == old(View()).Parked(v) && Valid()
    {
      vehicle := Some(v);
      occupied := true;
    }

    /** releaseVehicle: hand back whatever was held and clear the slot. */
    method ReleaseVehicle() returns (v: Option<Vehicle>)
      modifies this
      ensures v == old(vehicle)
      ensures View() == old(View()).Emptied() && Valid()
    {
      occupied := false;
      v := vehicle;
      vehicle := None;
    }
  }
}
