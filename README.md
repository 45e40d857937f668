# Parking lot service, modelled in Dafny

This project models the core of a small parking-lot system. The lot has a
fixed row of slots. Each slot has a size class (Small 0, Medium 1, Large 2)
and one distance per entry point.

A vehicle that arrives through an entry point gets a slot:

- a new vehicle takes the free, large-enough slot nearest to that entry point;
- a known vehicle first takes back a free slot it last left, and otherwise the
  nearest one.

A known vehicle keeps its original entry time if it is back within three hours
of entry and within one hour of its last exit. Otherwise its billing clock
restarts.

When a vehicle leaves, its slot is freed and stamped with the vehicle's id. The
vehicle is charged:

- a base rate of 40 that covers the first three hours;
- an hourly rate by size class (20, 60 or 100) after that;
- one extra hour for any leftover minutes;
- the daily rate, 5000 per day, for stays of a day or more.

The model has three layers:

- **Values and pure logic.**
  - `Billing`: the fee.
  - `Allocation`: slot choice. It filters the free, large-enough slots and
    stable-sorts them by distance. It also finds the previously used slot.
  - `Tenancy`: the lot as a value (`Lot`: slot states and the registry of
    vehicle records). It defines what parking and unparking do to that value
    and the invariant `Inv` those operations preserve.
- **Properties.**
  - `TenancyProperties` states what parking and unparking promise for all lots.
  - `Scenarios` replays the repository's own test scenarios on its four-slot
    lot.
- **Objects.**
  - `SlotModel.ParkingSlot` and `VehicleModel.Vehicle` are the mutable records.
  - `ParkingService.ParkingLotService` is the service class, working over those
    objects. A vehicle refers to its slot object, and the service flips fields
    in place.
  - Every state-changing method is proved to act on `Abstract()` exactly as the
    matching `Tenancy` function does.

Times are integers in milliseconds. The wall clock is a parameter `now`.

The model follows the code on these points:

- A returning vehicle's previous slot is found through the slot-side stamp
  `lastVehicleId`. The vehicle-side `lastParkingSlotId` is never written.
- An absent entry or exit time reads as the epoch, which is what `new Date(null)`
  gives. The grace-window test is evaluated with that value.
- The exit time stored on the vehicle is always `now`. The fee uses the optional
  override exit time.
- Parking a vehicle that is still parked seats it in a second slot and leaves
  the first one occupied. `TenancyProperties.ParkWhileParkedStrandsSlot` states
  this.
- A known vehicle may find neither a previous slot nor a suitable one. The
  source then sets the vehicle's slot to null and indexes slot -1, which throws.
  This is `ParkOutcome.SlotLookupFailure`, and the state changes made before the
  throw are kept.

## Model

| member | source | states |
|---|---|---|
| SlotModel.ParkingSlot.constructor | src/modules/parking/models/parking-slot.model.ts:7-12 | a new slot keeps its id, size and distances and starts free with no stamp |
| VehicleModel.Vehicle.constructor | src/modules/parking/models/vehicle.model.ts:11-18 | a new vehicle has its id and size, no entry or exit time, no slot and no previous slot id |
| Billing.Ceil | src/modules/parking/services/parking.service.ts:162-164 | `Math.ceil`: the result is the least integer not below the argument |
| Billing.JsRemainder | src/modules/parking/services/parking.service.ts:148 | JavaScript `%`: for a non-negative dividend it is the Euclidean remainder; for a negative one it is minus the remainder of the negated dividend, which lies in (-b, 0] |
| Billing.CalculateFee | src/modules/parking/services/parking.service.ts:135-183 | the fee is never below the base rate of 40 |
| Billing.FeeByMinutes | src/modules/parking/services/parking.service.ts:143-182 | for any stay that does not end before it starts, the fee is the tariff of its whole hours and leftover minutes. The day branch's remaining-hours term is exactly zero, so a day or more costs 5000 per day (fractional days included) plus the minute surcharge, with no base rate |
| Billing.FeeFollowsTariff | src/modules/parking/services/parking.service.ts:143-182 | a stay of h hours, m minutes and any seconds costs the tariff of (h, m): the seconds are dropped |
| Billing.TestedFees | src/modules/parking/services/parking.service.ts:153-182 | the repository's expected amounts: 0 h costs 40; 24 h costs 5000 for any size; for a small car, 5 h costs 80, 4 h costs 60, and 3 h 30 min costs 60 |
| Billing.FeeBeforeEntry | src/modules/parking/services/parking.service.ts:143-148 | an exit before the entry gives a negative minute count and costs exactly the base rate |
| Billing.FeeDropsAtFreeWindowEnd | src/modules/parking/services/parking.service.ts:163-170 | leftover minutes are charged inside the free window as well, so 2 h 30 min costs 60 while 3 h costs 40 |
| Billing.TariffStep | src/modules/parking/services/parking.service.ts:163-170 | from three hours on, any h hours and m minutes cost no more than h+1 whole hours |
| Billing.TariffGrowsWithHours | src/modules/parking/services/parking.service.ts:163-164 | from three hours on, the whole-hour tariff does not decrease |
| Billing.FeeMonotoneAfterFreeWindow | src/modules/parking/services/parking.service.ts:143-182 | once a stay has reached three hours, a later exit never costs less |
| Allocation.SuitableBelow | src/modules/parking/services/parking.service.ts:31-33 | the filter: exactly the free slots large enough for the vehicle, in slot order |
| Allocation.Insert | src/modules/parking/services/parking.service.ts:36-38 | insertion adds exactly one element to the multiset and keeps indices in range |
| Allocation.StableSort | src/modules/parking/services/parking.service.ts:36-38 | the sort is a permutation of its input |
| Allocation.InsertKeepsOrder | src/modules/parking/services/parking.service.ts:36-38 | insertion into a list sorted by distance keeps it sorted |
| Allocation.StableSortIsSorted | src/modules/parking/services/parking.service.ts:36-38 | the sort's output is ordered by distance to the entry point |
| Allocation.HeadIsNewElement | src/modules/parking/services/parking.service.ts:36-38 | an element at least as near as the nearest of a list is nearest of that list with it put in front |
| Allocation.OldHeadStaysNearest | src/modules/parking/services/parking.service.ts:36-38 | the old front stays nearest when an element further away is inserted |
| Allocation.OldHeadStaysEarliest | src/modules/parking/services/parking.service.ts:36-38 | stability: the front still has no equally near element before it once one more element is put ahead |
| Allocation.StableSortHead | src/modules/parking/services/parking.service.ts:36-41 | the sorted front comes from a position of the input where it is nearest, and no input element before it is equally near |
| Allocation.NearestComesFirst | src/modules/parking/services/parking.service.ts:29-41 | the front of the sorted filter is suitable and nearest, and the lowest-numbered among the equally near |
| Allocation.HeadIsNearestSuitable | src/modules/parking/services/parking.service.ts:36-41 | nearest among the filtered slots means nearest among all suitable slots |
| Allocation.HeadIsEarliestSuitable | src/modules/parking/services/parking.service.ts:36-41 | earliest on ties in the filter means lowest slot number on ties |
| Allocation.FindNearestSlot | src/modules/parking/services/parking.service.ts:29-42 | the result is null iff no slot is free and large enough; otherwise a suitable slot at least distance, with no suitable slot before it equally near |
| Allocation.FindNearestSlotIsUnique | src/modules/parking/services/parking.service.ts:29-42 | any suitable, nearest slot with no equally near suitable slot before it is the one chosen |
| Allocation.PreviousSlotFrom | src/modules/parking/services/parking.service.ts:83-86 | `find`: none iff no free slot carries the vehicle's stamp; otherwise the first such slot |
| Tenancy.Initial | src/modules/parking/services/parking.service.ts:14-27 | the initial lot: at least three entry points, exactly max(3, n) of them; slot i is built from the i-th distances and size and starts free; no vehicles; the invariant holds |
| Tenancy.SeatOverridesRecord | src/modules/parking/services/parking.service.ts:99-107 | seating a vehicle overwrites whatever record was just registered under its id |
| Tenancy.SeatKeepsInv | src/modules/parking/services/parking.service.ts:87-93 | seating a well-formed record in a free slot keeps the invariant and the layout |
| Tenancy.RegisterKeepsInv | src/modules/parking/services/parking.service.ts:99-101 | registering an unparked, well-formed record keeps the invariant |
| Tenancy.ReleaseKeepsInv | src/modules/parking/services/parking.service.ts:119-128 | freeing and stamping a parked vehicle's slot and recording its exit keeps the invariant |
| Tenancy.RetimeKeepsInv | src/modules/parking/services/parking.service.ts:78-79 | restarting a registered vehicle's clock keeps the invariant |
| Tenancy.Park | src/modules/parking/services/parking.service.ts:46-110 | `parkVehicle` keeps the invariant, the layout and the entry-point count, and registers the id if it was unknown |
| Tenancy.ParkReturning | src/modules/parking/services/parking.service.ts:56-97 | the known-vehicle branch keeps the invariant and layout and registers no one |
| Tenancy.Reclock | src/modules/parking/services/parking.service.ts:56-80 | settling the clock keeps the invariant, the slots and the registry keys |
| Tenancy.Reseat | src/modules/parking/services/parking.service.ts:82-96 | taking a slot keeps the invariant, the layout and the registry keys |
| Tenancy.ParkNew | src/modules/parking/services/parking.service.ts:99-109 | the new-vehicle branch keeps the invariant and layout and adds exactly the new id |
| Tenancy.Fees | src/modules/parking/services/parking.service.ts:135-140 | `calculateFees` is never below the base rate |
| Tenancy.Unpark | src/modules/parking/services/parking.service.ts:113-133 | `unparkVehicle` keeps the invariant, the layout and the registry keys |
| TenancyProperties.ParkNewVehicle | src/modules/parking/services/parking.service.ts:99-109 | an unknown id is always registered with entry time `now` and its size. It never fails, and it gets null iff no slot is suitable, changing no slot then. Otherwise it takes a suitable, nearest slot, and exactly that slot becomes occupied. Other vehicles are untouched |
| TenancyProperties.NewVehicleTakesNearest | src/modules/parking/services/parking.service.ts:99-109 | the nearest suitable slot, earliest on ties, is exactly where a new vehicle is seated |
| TenancyProperties.ParkReturningClock | src/modules/parking/services/parking.service.ts:56-80 | a known vehicle keeps its entry time iff now is within 3 h of entry and 1 h of the last exit (absent stamps read as epoch); otherwise the entry time becomes now. Its exit time and size are unchanged |
| TenancyProperties.ParkReturningSlot | src/modules/parking/services/parking.service.ts:56-96 | a known vehicle, whatever happens to its clock, takes the first free slot stamped with its id, even one too small. Failing that, it takes the nearest suitable slot, earliest on ties, and the call fails iff no slot is suitable. The answer is never null. Exactly the chosen slot becomes occupied; on failure the vehicle's slot is cleared and no slot changes. Other vehicles are untouched |
| TenancyProperties.ReseatSlot | src/modules/parking/services/parking.service.ts:82-96 | the same promise as ParkReturningSlot, for the slot-taking step on its own |
| TenancyProperties.ReseatPrefersPrevious | src/modules/parking/services/parking.service.ts:83-86 | the first free slot stamped with the vehicle's id, when there is one, is the one taken |
| TenancyProperties.ReseatFallsBackToNearest | src/modules/parking/services/parking.service.ts:83-86 | with no such slot, the call fails iff no slot is suitable; otherwise it takes a suitable slot at least distance, with no suitable slot before it equally near |
| TenancyProperties.ReseatEffect | src/modules/parking/services/parking.service.ts:87-93 | the answer is never null; exactly the chosen slot, which was free, becomes occupied and the vehicle refers to it; a failure clears the vehicle's slot and changes no slot; other vehicles are untouched |
| TenancyProperties.ReturningTakesPrevious | src/modules/parking/services/parking.service.ts:56-96 | inside the grace window, a vehicle whose first reclaimable slot is i is seated exactly at i with its record otherwise unchanged |
| TenancyProperties.ParkWhileParkedStrandsSlot | src/modules/parking/services/parking.service.ts:82-93 | re-parking a vehicle that is still parked gives it a different slot; the old one stays occupied and no vehicle refers to it |
| TenancyProperties.UnparkNotParked | src/modules/parking/services/parking.service.ts:113-117 | an unknown or unparked id gives null and changes nothing |
| TenancyProperties.UnparkParked | src/modules/parking/services/parking.service.ts:119-132 | for a parked vehicle, exactly its slot is freed and stamped with its id, and its exit is recorded at now with its slot cleared. The fee runs from entry to the override exit, or to now |
| TenancyProperties.ParkThenUnpark | src/modules/parking/services/parking.service.ts:99-133 | parking a new vehicle and unparking it restores every slot but the stamp on the one used, charges from the park time, and leaves other vehicles untouched |
| TenancyProperties.ReparkWithinGrace | src/modules/parking/services/parking.service.ts:56-96 | leaving and returning within the grace window gives back the same slot and the original entry time, so a later exit is charged from the first entry |
| Scenarios.TestLot | tests/parking-lot.service.test.ts:5-15 | the scenarios' lot satisfies the invariant, reaches entry point 0 and has four slots |
| Scenarios.FirstSmallCarGetsSlotZero | tests/parking-lot.service.test.ts:17-19 | the first small car at entry 0 gets slot 0 |
| Scenarios.LeaveAtOnce | tests/parking-lot.service.test.ts:17-23 | parking and leaving at once costs 40 |
| Scenarios.ReparkScenario | tests/parking-lot.service.test.ts:36-53 | after leaving, Car3 gets the same slot back, and four hours in all cost 60 |
| Scenarios.FirstMediumCarGetsSlotTwo | tests/parking-lot.service.test.ts:90-92 | a medium car at entry 0 of the empty lot gets slot 2 |
| Scenarios.LeaveAndReturn | tests/parking-lot.service.test.ts:94-100 | a car leaving and returning at once gets its slot back and keeps holding it since the same entry time |
| Scenarios.LeaveAfterAnHour | tests/parking-lot.service.test.ts:110-114 | leaving an hour after entry costs 40 |
| Scenarios.MediumCarParks | tests/parking-lot.service.test.ts:90-92 | Car10 parks in slot 2 and holds it since now |
| Scenarios.RepeatedReparks | tests/parking-lot.service.test.ts:90-115 | Car10 leaves and returns twice, gets slot 2 each time, and then pays 40 |
| Scenarios.TestLotLayout | tests/parking-lot.service.test.ts:5-15 | the scenarios' lot has the expected layout, all slots free, and no vehicles |
| Scenarios.SeatArrival | src/modules/parking/services/parking.service.ts:99-107 | seating a new car in a free slot of the scenarios' layout marks exactly that slot |
| Scenarios.FirstSmallCar | tests/parking-lot.service.test.ts:67 | on the empty layout a small car takes slot 0 |
| Scenarios.SecondSmallCar | tests/parking-lot.service.test.ts:68 | with slot 0 taken, a small car takes slot 2 |
| Scenarios.ThirdSmallCar | tests/parking-lot.service.test.ts:69 | with slots 0 and 2 taken, a small car takes slot 1 |
| Scenarios.FourthCar | tests/parking-lot.service.test.ts:76-83 | with three slots taken, a car of any size takes the large slot 3 |
| Scenarios.FullLot | tests/parking-lot.service.test.ts:72-73 | on a full lot a new car gets null and no slot changes |
| Scenarios.ScenarioCar5 | tests/parking-lot.service.test.ts:67 | Car5 takes slot 0 |
| Scenarios.ScenarioCar6 | tests/parking-lot.service.test.ts:68 | Car6 takes slot 2 |
| Scenarios.ScenarioCar7 | tests/parking-lot.service.test.ts:69 | Car7 takes slot 1 |
| Scenarios.ScenarioCar8 | tests/parking-lot.service.test.ts:70 | Car8 takes slot 3, whether small or large |
| Scenarios.ScenarioCar9 | tests/parking-lot.service.test.ts:72-73 | Car9 finds the lot full and gets null |
| ParkingService.StatesOf | src/modules/parking/services/parking.service.ts:7 | the slot values are read off the slot objects in order |
| ParkingService.ParkingLotService.constructor | src/modules/parking/services/parking.service.ts:14-27 | the service builds its slot objects so that its lot is `Tenancy.Initial` and the object graph is valid |
| ParkingService.ParkingLotService.MarkOccupied | src/modules/parking/services/parking.service.ts:93 | exactly one slot becomes occupied; the registry is unchanged |
| ParkingService.ParkingLotService.MarkVacated | src/modules/parking/services/parking.service.ts:122-125 | exactly one slot is freed and stamped; the registry is unchanged |
| ParkingService.ParkingLotService.AttachSlot | src/modules/parking/services/parking.service.ts:107 | exactly one vehicle now refers to the slot; the slots are unchanged |
| ParkingService.ParkingLotService.DetachSlot | src/modules/parking/services/parking.service.ts:87 | exactly one vehicle's slot reference is cleared |
| ParkingService.ParkingLotService.RestartClock | src/modules/parking/services/parking.service.ts:78-79 | exactly one vehicle's entry time becomes now |
| ParkingService.ParkingLotService.RecordExit | src/modules/parking/services/parking.service.ts:127-128 | exactly one vehicle's exit becomes now and its slot is cleared |
| ParkingService.ParkingLotService.SeatVehicle | src/modules/parking/services/parking.service.ts:87-93 | the object graph changes as `Tenancy.Seat` describes |
| ParkingService.ParkingLotService.Register | src/modules/parking/services/parking.service.ts:99-101 | a fresh vehicle object with entry time now is registered under the new id |
| ParkingService.ParkingLotService.NewVehicle | src/modules/parking/services/parking.service.ts:99-100 | a fresh, unparked vehicle object with entry time now |
| ParkingService.ParkingLotService.Enrol | src/modules/parking/services/parking.service.ts:101 | the registry gains exactly the new id, bound to the given object |
| ParkingService.ParkingLotService.ParkVehicle | src/modules/parking/services/parking.service.ts:46-110 | `parkVehicle` on the objects gives the outcome and new lot that `Tenancy.Park` gives |
| ParkingService.ParkingLotService.ParkReturning | src/modules/parking/services/parking.service.ts:56-97 | the known-vehicle branch on the objects, as `Tenancy.ParkReturning` |
| ParkingService.ParkingLotService.SettleClock | src/modules/parking/services/parking.service.ts:56-80 | the clock step on the objects, as `Tenancy.Reclock` |
| ParkingService.ParkingLotService.Reseat | src/modules/parking/services/parking.service.ts:82-96 | the slot step on the objects, as `Tenancy.Reseat` |
| ParkingService.ParkingLotService.ParkNew | src/modules/parking/services/parking.service.ts:99-109 | the new-vehicle branch on the objects, as `Tenancy.ParkNew` |
| ParkingService.ParkingLotService.UnparkVehicle | src/modules/parking/services/parking.service.ts:113-133 | `unparkVehicle` on the objects gives the fee and new lot that `Tenancy.Unpark` gives |
| ParkingService.ParkingLotService.CalculateFees | src/modules/parking/services/parking.service.ts:135-183 | `calculateFees` on the objects is `Tenancy.Fees` of the lot they stand for |

## Left out

- The static `execute` example (src/modules/parking/services/parking.service.ts:185-205) is a usage demonstration, so it is not modelled. The same holds for src/index.ts.
- src/utils/math.util.ts is only referenced from commented-out code, so it is not part of this model.
- The wall clock is the parameter `now`, in milliseconds.
- Adding hours with `setHours` is modelled as adding 3 600 000 ms per hour. Daylight-saving transitions are not modelled.
- Fees are exact reals, so IEEE-754 rounding of `hours / 24` and of the products is not modelled.
- Dates before the epoch are modelled. Invalid dates are not.
- Vehicle sizes are restricted to 0..2 (`SizeClass`). For any other size, the source's fee is `NaN` whenever the hourly rate is read: for more than 3 h, for any leftover minutes, or for a day or more. A stay of at most 3 h with no leftover minutes still costs 40.
- ParkingService.ParkingLotService.constructor: requires at least as many slot sizes as distance vectors. The source would build slots of undefined size.
- Tenancy.Park: requires every slot to have a distance for the entry point (`Allocation.Reaches`). With a missing distance, the source sorts on `NaN`, and the order it produces is not modelled.
- ParkingService.ParkingLotService.CalculateFees: requires a registered id. The source throws on an unknown id, and when called from `unparkVehicle` the id is always registered.
- `findIndex` by slot id becomes direct indexing. The constructor numbers slots by position, so the two agree.
- Vehicle ids such as `__proto__`, which collide with JavaScript object-prototype keys, are not modelled. The registry is a plain map.
- The thrown `TypeError` of a failed returning lookup is the outcome `SlotLookupFailure`. Exception propagation is not modelled beyond that.
- Slot distances are integers (`seq<int>`). The source accepts any number, fractions included. Slot choice only compares distances, so integers lose no behaviour for integer inputs, but fractional distances are not modelled.
