/**
 * The lot as a value, and what parking and unparking do to it. The slot
 * vector is indexed by slot id; the registry maps vehicle ids to vehicle
 * records and is never shrunk. `now` is the wall-clock time of the call in
 * milliseconds.
 */
module Tenancy {
  import opened Wrappers
  import opened SlotModel
  import opened VehicleModel
  import Billing
  import Allocation

  const HOUR_MS: int := Billing.HOUR_MS

  datatype Lot = Lot(numEntryPoints: int, slots: seq<SlotState>, vehicles: map<string, VehicleState>)

  /** What `parkVehicle` gives back: a slot id, null, or the TypeError of indexing slot -1. */
  datatype ParkOutcome = Parked(slotId: nat) | NoSlot | SlotLookupFailure

  /** A registered vehicle's record is keyed by its id, has an entry time, and holds an occupied slot when parked. */
  predicate WellRegistered(lot: Lot, vehicleId: string)
    requires vehicleId in lot.vehicles
  {
    var v := lot.vehicles[vehicleId];
    && v.vehicleId == vehicleId
    && v.entryTime.Some?
    && v.lastParkingSlotId.None?
    && (v.slot.Some? ==> v.slot.value < |lot.slots| && lot.slots[v.slot.value].isOccupied)
  }

  /** What every reachable lot satisfies: slot ids are indices, records are well formed, and no slot is held twice. */
  predicate Inv(lot: Lot)
  {
    && (forall i :: 0 <= i < |lot.slots| ==> lot.slots[i].slotId == i)
    && (forall id :: id in lot.vehicles ==> WellRegistered(lot, id))
    && (forall a, b :: a in lot.vehicles && b in lot.vehicles && a != b && lot.vehicles[a].slot.Some? ==>
          lot.vehicles[a].slot != lot.vehicles[b].slot)
  }

  /** Slot ids, sizes and distance vectors agree: only occupancy and stamps may differ. */
  predicate SameLayout(a: seq<SlotState>, b: seq<SlotState>)
  {
    |a| == |b| &&
    forall i :: 0 <= i < |a| ==> a[i].slotId == b[i].slotId && a[i].size == b[i].size && a[i].distances == b[i].distances
  }

  lemma LayoutKeepsReach(a: seq<SlotState>, b: seq<SlotState>, entryPoint: nat)
    requires SameLayout(a, b) && Allocation.Reaches(b, entryPoint)
    ensures Allocation.Reaches(a, entryPoint)
  {
  }

  /** The lot the constructor builds: slot `i` from `slotsInfo[i]` and `slotSizes[i]`, free, and no vehicles. */
  function Initial(numEntryPoints: int, slotsInfo: seq<seq<int>>, slotSizes: seq<int>): (lot: Lot)
    requires |slotSizes| >= |slotsInfo|
    ensures Inv(lot)
    ensures lot.numEntryPoints >= 3 && lot.numEntryPoints >= numEntryPoints
    ensures lot.numEntryPoints == 3 || lot.numEntryPoints == numEntryPoints
    ensures |lot.slots| == |slotsInfo| && lot.vehicles == map[]
    ensures forall i :: 0 <= i < |slotsInfo| ==> lot.slots[i] == SlotState(i, slotSizes[i], slotsInfo[i], false, None)
  {
    Lot(if numEntryPoints > 3 then numEntryPoints else 3,
        seq(|slotsInfo|, i requires 0 <= i < |slotsInfo| => SlotState(i, slotSizes[i], slotsInfo[i], false, None)),
        map[])
  }

  /** An absent time stamp goes through `new Date(null)`, which is the epoch. */
  function OrEpoch(t: Option<int>): int
  {
    t.GetOr(0)
  }

  /** A returning vehicle keeps its entry time when it is back within 3 h of entry and 1 h of its last exit. */
  predicate KeepsBillingClock(v: VehicleState, now: int)
  {
    now <= OrEpoch(v.entryTime) + 3 * HOUR_MS && now <= OrEpoch(v.lastExitTime) + HOUR_MS
  }

  /** Marks slot `i` occupied and records `v`, parked there, under `vehicleId`. */
  function Seat(lot: Lot, vehicleId: string, v: VehicleState, i: nat): Lot
    requires i < |lot.slots|
  {
    lot.(slots := lot.slots[i := lot.slots[i].(isOccupied := true)],
         vehicles := lot.vehicles[vehicleId := v.(slot := Some(i))])
  }

  /** Seating a vehicle overrides whatever record it was registered with. */
  lemma SeatOverridesRecord(lot: Lot, vehicleId: string, v: VehicleState, w: VehicleState, i: nat)
    requires i < |lot.slots|
    ensures Seat(lot.(vehicles := lot.vehicles[vehicleId := w]), vehicleId, v, i) == Seat(lot, vehicleId, v, i)
  {
    assert lot.vehicles[vehicleId := w][vehicleId := v.(slot := Some(i))] == lot.vehicles[vehicleId := v.(slot := Some(i))];
  }

  lemma SeatKeepsInv(lot: Lot, vehicleId: string, v: VehicleState, i: nat)
    requires Inv(lot) && i < |lot.slots| && !lot.slots[i].isOccupied
    requires v.vehicleId == vehicleId && v.entryTime.Some? && v.lastParkingSlotId.None?
    ensures Inv(Seat(lot, vehicleId, v, i)) && SameLayout(Seat(lot, vehicleId, v, i).slots, lot.slots)
  {
    var lot' := Seat(lot, vehicleId, v, i);
    forall id | id in lot'.vehicles ensures WellRegistered(lot', id) {
      if id != vehicleId {
        assert WellRegistered(lot, id);
        assert lot.vehicles[id].slot != Some(i);
      }
    }
    forall a, b | a in lot'.vehicles && b in lot'.vehicles && a != b && lot'.vehicles[a].slot.Some?
      ensures lot'.vehicles[a].slot != lot'.vehicles[b].slot
    {
      if a == vehicleId {
        assert WellRegistered(lot, b);
      } else if b == vehicleId {
        assert WellRegistered(lot, a);
      }
    }
  }

  /** Recording an unparked vehicle keeps the invariant. */
  lemma RegisterKeepsInv(lot: Lot, vehicleId: string, v: VehicleState)
    requires Inv(lot) && v.slot.None?
    requires v.vehicleId == vehicleId && v.entryTime.Some? && v.lastParkingSlotId.None?
    ensures Inv(lot.(vehicles := lot.vehicles[vehicleId := v]))
  {
    var lot' := lot.(vehicles := lot.vehicles[vehicleId := v]);
    forall id | id in lot'.vehicles ensures WellRegistered(lot', id) {
      if id != vehicleId {
        assert WellRegistered(lot, id);
      }
    }
  }

  lemma ReleaseKeepsInv(lot: Lot, vehicleId: string, now: int)
    requires Inv(lot) && vehicleId in lot.vehicles && lot.vehicles[vehicleId].slot.Some?
    ensures var v := lot.vehicles[vehicleId];
            var i := v.slot.value;
            i < |lot.slots| &&
            Inv(lot.(slots := lot.slots[i := lot.slots[i].(isOccupied := false, lastVehicleId := Some(v.vehicleId))],
                     vehicles := lot.vehicles[vehicleId := v.(lastExitTime := Some(now), slot := None)]))
  {
    var v := lot.vehicles[vehicleId];
    assert WellRegistered(lot, vehicleId);
    var i := v.slot.value;
    var lot' := lot.(slots := lot.slots[i := lot.slots[i].(isOccupied := false, lastVehicleId := Some(v.vehicleId))],
                     vehicles := lot.vehicles[vehicleId := v.(lastExitTime := Some(now), slot := None)]);
    forall id | id in lot'.vehicles ensures WellRegistered(lot', id) {
      if id != vehicleId {
        assert WellRegistered(lot, id);
        assert lot.vehicles[id].slot != Some(i);
      }
    }
  }

  /**
   * `parkVehicle`. A known id first settles its billing clock, then takes the
   * first free slot it last vacated or else the nearest suitable one; with
   * neither, the source indexes slot -1 and throws after clearing the
   * vehicle's slot. An unknown id is registered with entry time `now` whether
   * or not a slot is found.
   */
  function Park(lot: Lot, vehicleId: string, vehicleSize: SizeClass, entryPoint: nat, now: int): (res: (Lot, ParkOutcome))
    requires Inv(lot) && Allocation.Reaches(lot.slots, entryPoint)
    ensures Inv(res.0)
    ensures res.0.numEntryPoints == lot.numEntryPoints && SameLayout(res.0.slots, lot.slots)
    ensures res.0.vehicles.Keys == lot.vehicles.Keys + {vehicleId}
  {
    if vehicleId in lot.vehicles then ParkReturning(lot, vehicleId, vehicleSize, entryPoint, now)
    else ParkNew(lot, vehicleId, vehicleSize, entryPoint, now)
  }

  /** The known-vehicle branch: settle the billing clock, then take a slot. */
  function ParkReturning(lot: Lot, vehicleId: string, vehicleSize: SizeClass, entryPoint: nat, now: int): (res: (Lot, ParkOutcome))
    requires Inv(lot) && Allocation.Reaches(lot.slots, entryPoint) && vehicleId in lot.vehicles
    ensures Inv(res.0)
    ensures res.0.numEntryPoints == lot.numEntryPoints && SameLayout(res.0.slots, lot.slots)
    ensures res.0.vehicles.Keys == lot.vehicles.Keys
  {
    Reseat(Reclock(lot, vehicleId, now), vehicleId, vehicleSize, entryPoint)
  }

  /** A returning vehicle keeps its entry time inside the grace window; otherwise the clock restarts at `now`. */
  function Reclock(lot: Lot, vehicleId: string, now: int): (lot': Lot)
    requires Inv(lot) && vehicleId in lot.vehicles
    ensures Inv(lot') && lot'.numEntryPoints == lot.numEntryPoints && lot'.slots == lot.slots
    ensures lot'.vehicles.Keys == lot.vehicles.Keys
  {
    var v := lot.vehicles[vehicleId];
    if KeepsBillingClock(v, now) then lot
    else
      RetimeKeepsInv(lot, vehicleId, now);
      lot.(vehicles := lot.vehicles[vehicleId := v.(entryTime := Some(now))])
  }

  lemma RetimeKeepsInv(lot: Lot, vehicleId: string, now: int)
    requires Inv(lot) && vehicleId in lot.vehicles
    ensures Inv(lot.(vehicles := lot.vehicles[vehicleId := lot.vehicles[vehicleId].(entryTime := Some(now))]))
  {
    var lot' := lot.(vehicles := lot.vehicles[vehicleId := lot.vehicles[vehicleId].(entryTime := Some(now))]);
    forall id | id in lot'.vehicles ensures WellRegistered(lot', id) {
      assert WellRegistered(lot, id);
    }
  }

  /**
   * A returning vehicle takes the first free slot it last vacated, or else the
   * nearest suitable one; with neither, the source indexes slot -1 and throws
   * after clearing the vehicle's slot.
   */
  function Reseat(lot: Lot, vehicleId: string, vehicleSize: SizeClass, entryPoint: nat): (res: (Lot, ParkOutcome))
    requires Inv(lot) && Allocation.Reaches(lot.slots, entryPoint) && vehicleId in lot.vehicles
    ensures Inv(res.0)
    ensures res.0.numEntryPoints == lot.numEntryPoints && SameLayout(res.0.slots, lot.slots)
    ensures res.0.vehicles.Keys == lot.vehicles.Keys
  {
    var v := lot.vehicles[vehicleId];
    var previous := Allocation.PreviousSlot(lot.slots, v.vehicleId);
    var choice := if previous.Some? then previous else Allocation.FindNearestSlot(lot.slots, vehicleSize, entryPoint);
    assert WellRegistered(lot, vehicleId);
    if choice.None? then
      RegisterKeepsInv(lot, vehicleId, v.(slot := None));
      (lot.(vehicles := lot.vehicles[vehicleId := v.(slot := None)]), SlotLookupFailure)
    else
      var i := choice.value;
      SeatKeepsInv(lot, vehicleId, v, i);
      (Seat(lot, vehicleId, v, i), Parked(lot.slots[i].slotId))
  }

  function ParkNew(lot: Lot, vehicleId: string, vehicleSize: SizeClass, entryPoint: nat, now: int): (res: (Lot, ParkOutcome))
    requires Inv(lot) && Allocation.Reaches(lot.slots, entryPoint) && vehicleId !in lot.vehicles
    ensures Inv(res.0)
    ensures res.0.numEntryPoints == lot.numEntryPoints && SameLayout(res.0.slots, lot.slots)
    ensures res.0.vehicles.Keys == lot.vehicles.Keys + {vehicleId}
  {
    var v := VehicleState(vehicleId, vehicleSize, Some(now), None, None, None);
    var nearest := Allocation.FindNearestSlot(lot.slots, vehicleSize, entryPoint);
    if nearest.None? then
      RegisterKeepsInv(lot, vehicleId, v);
      (lot.(vehicles := lot.vehicles[vehicleId := v]), NoSlot)
    else
      var i := nearest.value;
      SeatKeepsInv(lot, vehicleId, v, i);
      (Seat(lot, vehicleId, v, i), Parked(lot.slots[i].slotId))
  }

  /** `calculateFees`: entry to the override exit time, or else to the recorded exit, at the registered size. */
  function Fees(lot: Lot, vehicleId: string, fakeLastExitTime: Option<int>): (fee: real)
    requires vehicleId in lot.vehicles
    ensures fee >= Billing.BASE_RATE as real
  {
    var v := lot.vehicles[vehicleId];
    Billing.CalculateFee(OrEpoch(v.entryTime), fakeLastExitTime.GetOr(OrEpoch(v.lastExitTime)), v.size)
  }

  /**
   * `unparkVehicle`: null for an unknown or unparked id; otherwise frees and
   * stamps the slot, records the exit at `now`, and charges the stay.
   */
  function Unpark(lot: Lot, vehicleId: string, fakeLastExitTime: Option<int>, now: int): (res: (Lot, Option<real>))
    requires Inv(lot)
    ensures Inv(res.0)
    ensures res.0.numEntryPoints == lot.numEntryPoints && SameLayout(res.0.slots, lot.slots)
    ensures res.0.vehicles.Keys == lot.vehicles.Keys
  {
    if vehicleId !in lot.vehicles || lot.vehicles[vehicleId].slot.None? then
      (lot, None)
    else
      var v := lot.vehicles[vehicleId];
      ReleaseKeepsInv(lot, vehicleId, now);
      var i := v.slot.value;
      var lot' := lot.(slots := lot.slots[i := lot.slots[i].(isOccupied := false, lastVehicleId := Some(v.vehicleId))],
                       vehicles := lot.vehicles[vehicleId := v.(lastExitTime := Some(now), slot := None)]);
      (lot', Some(Fees(lot', vehicleId, fakeLastExitTime)))
  }
}
