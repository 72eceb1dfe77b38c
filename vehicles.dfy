/**
 * Vehicles and their fee rule (final.cpp, classes Vehicle, Car and Bike).
 *
 * The two subclasses of the source become the closed variant `Category`.
 * The entry time, read from the wall clock in the source's constructor,
 * is an ordinary integer number of seconds supplied by the caller.
 *
 * Fees are exact integers in "unit-seconds": the source computes
 * `rate * (exit - entry) / 3600.0` as a double, and `ScaledFee` is that
 * amount multiplied by 3600, so no floating-point rounding is involved.
 */
module Vehicles {

  datatype Category = Car | Bike

  datatype Vehicle = Vehicle(number: string, category: Category, entryTime: int)

  const SecondsPerHour: nat := 3600

  /** The per-hour rate that Car::calculateFee and Bike::calculateFee apply. */
  function RatePerHour(c: Category): (rate: nat)
  {
    match c
    case Car => 20
    case Bike => 10
  }

  /** Seconds between entry and exit; negative when the exit is earlier (no clamping). */
  function Elapsed(v: Vehicle, exitTime: int): (seconds: int)
  {
    exitTime - v.entryTime
  }

  /**
   * The fee for leaving at `exitTime`, times 3600.  Like the source it is not
   * clamped: an exit before the entry gives a negative fee.
   */
  function ScaledFee(v: Vehicle, exitTime: int): (f: int)
    ensures f >= 0 <==> exitTime >= v.entryTime
    ensures f == 0 <==> exitTime == v.entryTime
  {
    RatePerHour(v.category) * Elapsed(v, exitTime)
  }

  /** A stay of exactly `h` whole hours costs `h` times the hourly rate. */
  lemma WholeHoursFee(v: Vehicle, h: int)
    ensures ScaledFee(v, v.entryTime + h * SecondsPerHour) == SecondsPerHour * (RatePerHour(v.category) * h)
  {
  }

  /** The hourly rates: Car 20, Bike 10. */
  lemma RateTable()
    ensures RatePerHour(Car) == 20 && RatePerHour(Bike) == 10
  {
  }

  /** For a fixed vehicle the fee never decreases as the exit time grows. */
  lemma FeeMonotone(v: Vehicle, t1: int, t2: int)
    requires t1 <= t2
    ensures ScaledFee(v, t1) <= ScaledFee(v, t2)
  {
  }

  /** Over the same interval a car pays exactly twice what a bike pays. */
  lemma CarPaysTwiceBike(carNumber: string, bikeNumber: string, entry: int, exitTime: int)
    ensures ScaledFee(Vehicle(carNumber, Car, entry), exitTime)
         == 2 * ScaledFee(Vehicle(bikeNumber, Bike, entry), exitTime)
  {
  }
}
