# Parking lot model

A Dafny model of the parking-lot program in `final.cpp`. The program has
three parts. A **vehicle** has a number, a category (car or bike) and an
entry time, and a per-category fee rule. A **parking slot** has an id, an
`occupied` flag and the vehicle it holds. A **parking lot** is a vector of
slots numbered 1..N. The lot allocates the first free slot to a vehicle,
and it releases a slot by id, billing the vehicle for the time since entry.

Modules, one per component:

- `Wrappers` (`wrappers.dfy`): `Option`, which stands in for the nullable `Vehicle*`.
- `Vehicles` (`vehicles.dfy`): `Category`, `Vehicle`, the rate table and the fee.
- `Slots` (`slots.dfy`): `SlotView`, the value of a slot's fields, and the class
  `ParkingSlot`, whose methods update those fields in place.
- `LotState` (`lot_state.dfy`): the lot as a sequence of `SlotView`s. It holds
  the first-fit scan, allocation and release as functions, and the lemmas
  about them.
- `Lot` (`lot.dfy`): the class `ParkingLot`. It keeps a sequence of slot
  objects and a ghost field `Contents`, which is the view of their fields.
  Each method is proved to change `Contents` exactly as the matching
  `LotState` function does.
- `Scenarios` (`scenarios.dfy`): two client runs that use only the class
  contracts. One is the demo sequence in `main`. The other is a two-slot lot
  that fills up, turns a vehicle away and reuses a freed slot.

Modelling decisions:

- Time is an integer number of seconds passed in by the caller. The source
  reads the wall clock instead.
- The fee is exact. The source computes `rate * difftime(exit, entry) / 3600.0`
  as a double. `ScaledFee` is 3600 times that amount, `rate * (exit - entry)`,
  in currency-unit-seconds.
- `releaseSlot` returns `void` in the source and prints what happened. The
  model returns a `ReleaseOutcome`, one of `InvalidSlot`, `SlotAlreadyEmpty`
  or `Exited(vehicle, elapsed seconds, scaled fee)`.
- `getSlotId` is the immutable field `ParkingSlot.id`, and `getType` is
  the vehicle's `category`.

Behaviour of final.cpp worth noting, which the model keeps:

- `parkVehicle` does not check whether the slot is already occupied. It
  overwrites the slot.
- `releaseVehicle` does not check whether the slot is free. Only
  `releaseSlot` checks that.
- The fee is not clamped at zero. An exit before the entry gives a negative fee.
- An empty vehicle number is accepted.
- A non-positive slot count builds an empty lot.

The range check `slotId > slots.size()` compares a signed id with an unsigned
size. The `slotId <= 0` test runs first, so the conversion never changes the
value, and the model compares integers.

## Model

| member | source | states |
|---|---|---|
| `Vehicles.ScaledFee` | final.cpp:40-53 | The fee is non-negative exactly when the exit is not before the entry, and it is zero exactly when they are equal. There is no clamping. |
| `Vehicles.WholeHoursFee` | final.cpp:40-53 | A stay of `h` whole hours costs `h` times the category's hourly rate, up to the factor 3600. |
| `Vehicles.RateTable` | final.cpp:36-54 | The hourly rate is 20 for a car and 10 for a bike. |
| `Vehicles.FeeMonotone` | final.cpp:40-53 | For a fixed vehicle, the fee does not decrease as the exit time grows. |
| `Vehicles.CarPaysTwiceBike` | final.cpp:40-53 | Over the same interval, a car's fee is exactly twice a bike's. |
| `Slots.ParkThenEmpty` | final.cpp:68-78 | Parking in a free, consistent slot and then releasing it gives back the same slot. |
| `Slots.ParkingSlot.constructor` | final.cpp:63 | A new slot has the given id, is not occupied, holds no vehicle and satisfies the slot invariant. |
| `Slots.ParkingSlot.IsOccupied` | final.cpp:65 | Under the slot invariant, the flag is true exactly when a vehicle is held. |
| `Slots.ParkingSlot.ParkVehicle` | final.cpp:68-71 | Any slot ends up occupied, holding the given vehicle, with its id unchanged. The invariant is re-established. |
| `Slots.ParkingSlot.ReleaseVehicle` | final.cpp:73-78 | Returns what the slot held and leaves it unoccupied and empty, with its id unchanged. The invariant is re-established. |
| `LotState.FreshLot` | final.cpp:95-98 | A lot built for N slots has max(N, 0) slots. Slot i has id i+1, and every slot is free and empty. |
| `LotState.FirstFree` | final.cpp:100-106 | The scan stops at a free slot with every earlier slot occupied. It stops nowhere exactly when all slots are occupied. |
| `LotState.AllocateFirstFit` | final.cpp:100-106 | With a free slot available, allocation returns the id of the lowest free slot, parks the vehicle there and leaves every other slot unchanged. |
| `LotState.AllocateWhenFull` | final.cpp:100-110 | With every slot occupied, allocation returns -1 and the slots are unchanged. |
| `LotState.AllocateFailsIffFull` | final.cpp:100-110 | Allocation returns -1 if and only if every slot is occupied. |
| `LotState.AllocatePreservesWellFormed` | final.cpp:100-106 | After allocation, ids are still 1..N and every slot is still consistent. |
| `LotState.ReleaseOutOfRange` | final.cpp:112-116 | An id of at most 0 or above N is reported as invalid and changes nothing. |
| `LotState.ReleaseEmptySlot` | final.cpp:117-121 | An in-range id of a free slot is reported as already empty and changes nothing. |
| `LotState.ReleaseOccupied` | final.cpp:117-125 | Releasing an occupied slot frees and empties it and leaves the other slots unchanged. It reports the vehicle that was held, the elapsed time and rate × elapsed time. |
| `LotState.ReleasePreservesWellFormed` | final.cpp:112-134 | After any release, ids are still 1..N and every slot is still consistent. |
| `LotState.ReleaseThenAllocate` | final.cpp:100-123 | After releasing slot k, when every slot before k is occupied, the next allocation returns k. |
| `LotState.AllocateThenRelease` | final.cpp:100-125 | Allocating a vehicle and then releasing the slot it got restores the lot exactly and bills that same vehicle. |
| `Lot.ParkingLot.constructor` | final.cpp:95-98 | Builds distinct, freshly allocated slot objects whose fields are the fresh lot of `totalSlots` slots. |
| `Lot.ParkingLot.Status` | final.cpp:136-140 | Returns every slot's fields in ascending id order, a well-formed sequence, and changes nothing. |
| `Lot.ParkingLot.AllocateSlot` | final.cpp:100-110 | Updates the slot objects in place as first-fit allocation does, returns its id or -1, and keeps the lot invariant. |
| `Lot.ParkingLot.ReleaseSlot` | final.cpp:112-134 | Updates the slot objects in place as release does: invalid id, already empty, or freed and billed. Keeps the lot invariant. |
| `Scenarios.DemoRun` | final.cpp:144-164 | In a lot of 4, the car gets slot 1 and the bike slot 2. The first status report shows both parked and slots 3 and 4 free. Releasing slot 1 three seconds later bills the car 60 unit-seconds, that is 20 × 3 / 3600 units. The second report shows slot 1 free again and only the bike parked. |
| `Scenarios.TwoSlotRun` | final.cpp:100-134 | In a lot of 2, A1 gets slot 1 and B1 slot 2, and C1 gets -1. Releasing slot 1 after one hour bills A1 at the car rate. Offering the same C1, with its original entry time, then gives slot 1. Releasing slot 3 is invalid, and the final report shows C1 in slot 1 and B1 in slot 2. |

## Left out

- Console output: `display`, `displayStatus`, the formatting in `showStatus` and
  the messages of `allocateSlot` and `releaseSlot`. This is I/O. `Status`
  returns the slot sequence instead, and `ReleaseSlot` returns what would be printed.
- The wall clock (`time(nullptr)`) and the `_sleep` delay in `main`. These are
  system calls. Entry and exit times are parameters.
- Floating point: `difftime(...) / 3600.0` and the minutes shown on exit. The fee
  is the exact integer `ScaledFee`, 3600 times the source's value, and the elapsed
  time is in whole seconds rather than fractional minutes.
- `new` / `delete` and raw-pointer ownership. This is memory management. The held
  vehicle is an `Option` value that moves out on release. When the lot is full,
  the vehicle simply stays with the caller. The undefined-behaviour paths of the
  source have no counterpart: the same `Vehicle*` allocated into two slots makes
  the second release use a deleted object, while the model bills the same value
  again; and `allocateSlot(nullptr)` sets `occupied` with no vehicle and then
  dereferences the null pointer (final.cpp:104), while the model always parks a
  vehicle value.
- The `Car` / `Bike` class hierarchy and its virtual dispatch are the variant
  `Category` and the rate table `RatePerHour`. The string `vehicleType` is not
  stored separately.
