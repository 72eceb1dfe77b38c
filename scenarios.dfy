/**
 * Client runs that use only the contracts of the lot's methods: the demo
 * sequence of final.cpp's main, and a two-slot lot that fills up, rejects
 * a third vehicle and reuses the freed slot.
 */
module Scenarios {
  import opened Wrappers
  import opened Vehicles
  import opened Slots
  import opened LotState
  import opened Lot

  /**
   * main: a lot of 4, a car and a bike parked at `start`, slot 1 released
   * three seconds later.
   */
  method DemoRun(start: int)
    returns (carSlot: int, bikeSlot: int, parkedReport: seq<SlotView>, exit: ReleaseOutcome, finalReport: seq<SlotView>)
    ensures carSlot == 1 && bikeSlot == 2
    ensures parkedReport == [SlotView(1, true, Some(Vehicle("OD02A1234", Car, start))),
                             SlotView(2, true, Some(Vehicle("OD33B9876", Bike, start))),
                             SlotView(3, false, None), SlotView(4, false, None)]
    ensures exit == Exited(Vehicle("OD02A1234", Car, start), 3, 60)
    ensures finalReport == [SlotView(1, false, None),
                            SlotView(2, true, Some(Vehicle("OD33B9876", Bike, start))),
                            SlotView(3, false, None), SlotView(4, false, None)]
  {
    var lot := new ParkingLot(4);
    var car := Vehicle("OD02A1234", Car, start);
    var bike := Vehicle("OD33B9876", Bike, start);
    ghost var free := SlotView(3, false, None);
    ghost var last := SlotView(4, false, None);
    assert lot.Contents == [SlotView(1, false, None), SlotView(2, false, None), free, last];
    carSlot := lot.AllocateSlot(car);
    assert lot.Contents == [SlotView(1, true, Some(car)), SlotView(2, false, None), free, last];
    assert FirstFree(lot.Contents) == Some(1);
    bikeSlot := lot.AllocateSlot(bike);
    assert lot.Contents == [SlotView(1, true, Some(car)), SlotView(2, true, Some(bike)), free, last];
    parkedReport := lot.Status();
    assert ScaledFee(car, start + 3) == 60;
    ReleaseOccupied(lot.Contents, 1, start + 3);
    exit := lot.ReleaseSlot(1, start + 3);
    assert exit == Exited(car, 3, 60);
    assert lot.Contents == [SlotView(1, false, None), SlotView(2, true, Some(bike)), free, last];
    finalReport := lot.Status();
  }

  /**
   * Two slots: A1 gets 1, B1 gets 2, C1 is turned away, releasing slot 1
   * after one hour bills A1 at the car rate, and C1, still held by the
   * caller with its original entry time, then gets slot 1.
   */
  method TwoSlotRun(t: int)
    returns (a: int, b: int, full: int, exit: ReleaseOutcome, again: int, bad: ReleaseOutcome, report: seq<SlotView>)
    ensures a == 1 && b == 2 && full == -1 && again == 1
    ensures report == [SlotView(1, true, Some(Vehicle("C1", Car, t))), SlotView(2, true, Some(Vehicle("B1", Bike, t)))]
    ensures exit == Exited(Vehicle("A1", Car, t), SecondsPerHour, SecondsPerHour * 20)
    ensures bad == InvalidSlot
  {
    var lot := new ParkingLot(2);
    var carA := Vehicle("A1", Car, t);
    var carC := Vehicle("C1", Car, t);
    var bikeB := Vehicle("B1", Bike, t);
    assert lot.Contents == [SlotView(1, false, None), SlotView(2, false, None)];
    a := lot.AllocateSlot(carA);
    assert lot.Contents == [SlotView(1, true, Some(carA)), SlotView(2, false, None)];
    b := lot.AllocateSlot(bikeB);
    assert lot.Contents == [SlotView(1, true, Some(carA)), SlotView(2, true, Some(bikeB))];
    AllocateWhenFull(lot.Contents, carC);
    full := lot.AllocateSlot(carC);
    assert lot.Contents == [SlotView(1, true, Some(carA)), SlotView(2, true, Some(bikeB))];
    assert ScaledFee(carA, t + SecondsPerHour) == SecondsPerHour * 20 by {
      WholeHoursFee(carA, 1);
    }
    ReleaseOccupied(lot.Contents, 1, t + SecondsPerHour);
    exit := lot.ReleaseSlot(1, t + SecondsPerHour);
    assert exit == Exited(carA, SecondsPerHour, SecondsPerHour * 20);
    assert lot.Contents == [SlotView(1, false, None), SlotView(2, true, Some(bikeB))];
    again := lot.AllocateSlot(carC);
    assert lot.Contents == [SlotView(1, true, Some(carC)), SlotView(2, true, Some(bikeB))];
    ReleaseOutOfRange(lot.Contents, 3, t + SecondsPerHour);
    bad := lot.ReleaseSlot(3, t + SecondsPerHour);
    report := lot.Status();
  }
}
