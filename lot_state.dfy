/**
 * The parking lot as a value: the sequence of its slots' fields, and what
 * final.cpp's ParkingLot operations do to it.  The class in lot.dfy is
 * proved to follow these functions; the lemmas here state what they mean.
 */
module LotState {
  import opened Wrappers
  import opened Vehicles
  import opened Slots

  /** Slot i carries id i + 1 and every slot keeps its invariant. */
  predicate WellFormed(s: seq<SlotView>)
  {
    forall i :: 0 <= i < |s| ==> s[i].id == i + 1 && s[i].Consistent()
  }

  /** The slots the constructor builds for `totalSlots` (none when it is not positive). */
  function Fresh(totalSlots: int): (s: seq<SlotView>)
  {
    seq(if totalSlots > 0 then totalSlots else 0, i => SlotView(i + 1, false, None))
  }

  /** The index at which the first-fit scan of allocateSlot stops, if any. */
  function FirstFree(s: seq<SlotView>): (r: Option<nat>)
    ensures r.Some? ==> r.value < |s| && !s[r.value].occupied
    ensures r.Some? ==> forall j :: 0 <= j < r.value ==> s[j].occupied
    ensures r.None? ==> forall j :: 0 <= j < |s| ==> s[j].occupied
  {
    if |s| == 0 then None
    else if !s[0].occupied then Some(0)
    else match FirstFree(s[1..])
      case None => None
      case Some(k) => Some(k + 1)
  }

  /** allocateSlot: the new slots and the returned id (-1 when the lot is full). */
  function Allocate(s: seq<SlotView>, v: Vehicle): (r: (seq<SlotView>, int))
  {
    match FirstFree(s)
    case None => (s, -1)
    case Some(k) => (s[k := s[k].Parked(v)], s[k].id)
  }

  /** What releaseSlot reports; the source prints it, this model returns it. */
  datatype ReleaseOutcome =
    | InvalidSlot
    | SlotAlreadyEmpty
    | Exited(vehicle: Vehicle, elapsed: int, scaledFee: int)

  /** releaseSlot: the new slots and the outcome, billing at `exitTime`. */
  function Release(s: seq<SlotView>, slotId: int, exitTime: int): (r: (seq<SlotView>, ReleaseOutcome))
    requires WellFormed(s)
  {
    if slotId <= 0 || slotId > |s| then (s, InvalidSlot)
    else
      var k := slotId - 1;
      if !s[k].occupied then (s, SlotAlreadyEmpty)
      else
        var v := s[k].vehicle.value;
        (s[k := s[k].Emptied()], Exited(v, Elapsed(v, exitTime), ScaledFee(v, exitTime)))
  }

  /** A new lot of N slots has N slots numbered 1..N, all free and empty. */
  lemma FreshLot(totalSlots: int)
    ensures |Fresh(totalSlots)| == if totalSlots > 0 then totalSlots else 0
    ensures WellFormed(Fresh(totalSlots))
    ensures forall i :: 0 <= i < |Fresh(totalSlots)| ==>
              !Fresh(totalSlots)[i].occupied && Fresh(totalSlots)[i].vehicle == None
  {
  }

  /**
   * With a free slot, allocation succeeds with the id of the lowest free slot,
   * parks the vehicle there and changes no other slot.
   */
  lemma AllocateFirstFit(s: seq<SlotView>, v: Vehicle)
    requires WellFormed(s)
    requires exists j :: 0 <= j < |s| && !s[j].occupied
    ensures var (t, id) := Allocate(s, v);
      1 <= id <= |s| && !s[id - 1].occupied &&
      (forall j :: 0 <= j < id - 1 ==> s[j].occupied) &&
      |t| == |s| && t[id - 1] == SlotView(id, true, Some(v)) &&
      (forall j :: 0 <= j < |s| && j != id - 1 ==> t[j] == s[j])
  {
  }

  /** With every slot occupied, allocation returns -1 and changes nothing. */
  lemma AllocateWhenFull(s: seq<SlotView>, v: Vehicle)
    requires forall j :: 0 <= j < |s| ==> s[j].occupied
    ensures Allocate(s, v) == (s, -1)
  {
  }

  /** Allocation reports -1 exactly when every slot is occupied. */
  lemma AllocateFailsIffFull(s: seq<SlotView>, v: Vehicle)
    requires WellFormed(s)
    ensures Allocate(s, v).1 == -1 <==> forall j :: 0 <= j < |s| ==> s[j].occupied
  {
  }

  /** Allocation keeps slot numbering and every slot's invariant. */
  lemma AllocatePreservesWellFormed(s: seq<SlotView>, v: Vehicle)
    requires WellFormed(s)
    ensures WellFormed(Allocate(s, v).0)
  {
  }

  /** An id outside 1..N is reported and changes nothing. */
  lemma ReleaseOutOfRange(s: seq<SlotView>, slotId: int, exitTime: int)
    requires WellFormed(s)
    requires slotId <= 0 || slotId > |s|
    ensures Release(s, slotId, exitTime) == (s, InvalidSlot)
  {
  }

  /** Releasing a slot that is in range but free is reported and changes nothing. */
  lemma ReleaseEmptySlot(s: seq<SlotView>, slotId: int, exitTime: int)
    requires WellFormed(s)
    requires 1 <= slotId <= |s| && !s[slotId - 1].occupied
    ensures Release(s, slotId, exitTime) == (s, SlotAlreadyEmpty)
  {
  }

  /**
   * Releasing an occupied slot frees it, hands back the vehicle it held with
   * the elapsed time and the fee, and changes no other slot.
   */
  lemma ReleaseOccupied(s: seq<SlotView>, slotId: int, exitTime: int)
    requires WellFormed(s)
    requires 1 <= slotId <= |s| && s[slotId - 1].occupied
    ensures var (t, outcome) := Release(s, slotId, exitTime);
      s[slotId - 1].vehicle.Some? &&
      var v := s[slotId - 1].vehicle.value;
      outcome == Exited(v, exitTime - v.entryTime, RatePerHour(v.category) * (exitTime - v.entryTime)) &&
      |t| == |s| && t[slotId - 1] == SlotView(slotId, false, None) &&
      (forall j :: 0 <= j < |s| && j != slotId - 1 ==> t[j] == s[j])
  {
  }

  /** Releasing keeps slot numbering and every slot's invariant. */
  lemma ReleasePreservesWellFormed(s: seq<SlotView>, slotId: int, exitTime: int)
    requires WellFormed(s)
    ensures WellFormed(Release(s, slotId, exitTime).0)
  {
  }

  /**
   * After slot `slotId` is released, the next allocation returns `slotId`
   * whenever every slot before it is occupied.
   */
  lemma ReleaseThenAllocate(s: seq<SlotView>, slotId: int, exitTime: int, v: Vehicle)
    requires WellFormed(s)
    requires 1 <= slotId <= |s| && s[slotId - 1].occupied
    requires forall j :: 0 <= j < slotId - 1 ==> s[j].occupied
    ensures Allocate(Release(s, slotId, exitTime).0, v).1 == slotId
  {
    var t := Release(s, slotId, exitTime).0;
    assert !t[slotId - 1].occupied;
  }

  /**
   * Parking a vehicle and releasing the slot it was given restores the lot
   * exactly and bills that same vehicle.
   */
  lemma AllocateThenRelease(s: seq<SlotView>, v: Vehicle, exitTime: int)
    requires WellFormed(s)
    requires exists j :: 0 <= j < |s| && !s[j].occupied
    ensures WellFormed(Allocate(s, v).0)
    ensures var (t, id) := Allocate(s, v);
      Release(t, id, exitTime) == (s, Exited(v, Elapsed(v, exitTime), ScaledFee(v, exitTime)))
  {
    AllocateFirstFit(s, v);
    var (t, id) := Allocate(s, v);
    assert t[id - 1 := t[id - 1].Emptied()] == s;
  }
}
