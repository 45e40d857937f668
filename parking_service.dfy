/**
 * The lot service as an object: it owns its slot objects and a registry of
 * vehicle objects, and its operations change their fields in place.  Each
 * operation is proved to do to the abstract lot exactly what the value-level
 * operation of `Tenancy` does, so every property proved there holds here.
 * The wall clock is the `now` parameter, in milliseconds.
 */
module ParkingService {
  import opened Wrappers
  import opened SlotModel
  import opened VehicleModel
  import Allocation
  import Billing
  import Tenancy
  import TenancyProperties

  /** The values the slot objects `s` hold, in order. */
  function StatesOf(s: seq<ParkingSlot>): (r: seq<SlotState>)
    reads s
    ensures |r| == |s|
    ensures forall i :: 0 <= i < |s| ==> r[i] == s[i].State()
  {
    if s == [] then [] else StatesOf(s[..|s| - 1]) + [s[|s| - 1].State()]
  }

  /** A map that agrees with `m` on every key but `k`, and holds `v` at `k`, is `m` updated at `k`. */
  lemma UpdatedAt<K, V>(m: map<K, V>, m': map<K, V>, k: K, v: V)
    requires m'.Keys == m.Keys + {k} && m'[k] == v
    requires forall j :: j in m && j != k ==> m'[j] == m[j]
    ensures m' == m[k := v]
  {
  }

  class ParkingLotService {
    const numEntryPoints: int
    const slots: seq<ParkingSlot>
    var vehicles: map<string, Vehicle>
    /** The vehicle objects the registry has held. */
    ghost var fleet: set<Vehicle>

    /**
     * Slot `i` is the `i`th object and no object appears twice; each id has
     * its own vehicle object; a parked vehicle refers to one of the lot's
     * slots.
     */
    ghost predicate Linked()
      reads this, slots, fleet
    {
      && (forall i :: 0 <= i < |slots| ==> slots[i].slotId == i)
      && (forall i, j :: 0 <= i < j < |slots| ==> slots[i] != slots[j])
      && (forall id :: id in vehicles ==> vehicles[id] in fleet)
      && (forall a, b :: a in vehicles && b in vehicles && a != b ==> vehicles[a] != vehicles[b])
      && (forall id :: id in vehicles && vehicles[id].slot != null ==>
            vehicles[id].slot.slotId < |slots| && vehicles[id].slot == slots[vehicles[id].slot.slotId])
    }

    /** The objects are linked up, and the lot they stand for satisfies the tenancy invariant. */
    ghost predicate Valid()
      reads this, slots, fleet
    {
      Linked() && Tenancy.Inv(Abstract())
    }

    function SlotStates(): (r: seq<SlotState>)
      reads this, slots
      ensures |r| == |slots|
      ensures forall i :: 0 <= i < |slots| ==> r[i] == slots[i].State()
    {
      StatesOf(slots)
    }

    ghost function VehicleStates(): (r: map<string, VehicleState>)
      reads this, fleet
      ensures forall id :: id in r <==> id in vehicles && vehicles[id] in fleet
      ensures forall id :: id in r ==> r[id] == vehicles[id].State()
    {
      map id | id in vehicles && vehicles[id] in fleet :: vehicles[id].State()
    }

    /** The lot this object stands for. */
    ghost function Abstract(): Tenancy.Lot
      reads this, slots, fleet
    {
      Tenancy.Lot(numEntryPoints, SlotStates(), VehicleStates())
    }

    /** Builds slot `i` from `slotsInfo[i]` and `slotSizes[i]`, with at least three entry points and no vehicles. */
    constructor(numEntryPoints: int, slotsInfo: seq<seq<int>>, slotSizes: seq<int>)
      requires |slotSizes| >= |slotsInfo|
      ensures Valid()
      ensures Abstract() == Tenancy.Initial(numEntryPoints, slotsInfo, slotSizes)
    {
      var built: seq<ParkingSlot> := [];
      var i := 0;
      while i < |slotsInfo|
        invariant 0 <= i <= |slotsInfo| && |built| == i
        invariant forall k :: 0 <= k < i ==> built[k].State() == SlotState(k, slotSizes[k], slotsInfo[k], false, None)
        invariant forall k, l :: 0 <= k < l < i ==> built[k] != built[l]
      {
        var slot := new ParkingSlot(i, slotSizes[i], slotsInfo[i]);
        built := built + [slot];
        i := i + 1;
      }
      this.numEntryPoints := if numEntryPoints > 3 then numEntryPoints else 3;
      this.slots := built;
      this.vehicles := map[];
      this.fleet := {};
      new;
      assert SlotStates() == Tenancy.Initial(numEntryPoints, slotsInfo, slotSizes).slots;
    }

    /** Sets the occupancy flag of slot `index`; nothing else changes. */
    method MarkOccupied(index: nat)
      requires Linked() && index < |slots|
      modifies slots[index]
      ensures Linked()
      ensures SlotStates() == old(SlotStates()[index := SlotStates()[index].(isOccupied := true)])
      ensures VehicleStates() == old(VehicleStates())
    {
      slots[index].isOccupied := true;
      forall i | 0 <= i < |slots| && i != index ensures slots[i].State() == old(slots[i].State()) {
        assert slots[i] != slots[index];
      }
    }

    /** Frees slot `index` and stamps it with the id of the vehicle leaving it; nothing else changes. */
    method MarkVacated(index: nat, vehicleId: string)
      requires Linked() && index < |slots|
      modifies slots[index]
      ensures Linked()
      ensures SlotStates() == old(SlotStates()[index := SlotStates()[index].(isOccupied := false, lastVehicleId := Some(vehicleId))])
      ensures VehicleStates() == old(VehicleStates())
    {
      slots[index].isOccupied := false;
      slots[index].lastVehicleId := Some(vehicleId);
      forall i | 0 <= i < |slots| && i != index ensures slots[i].State() == old(slots[i].State()) {
        assert slots[i] != slots[index];
      }
    }

    /** Points the vehicle registered under `vehicleId` at slot `index`; nothing else changes. */
    method AttachSlot(vehicleId: string, index: nat)
      requires Linked() && vehicleId in vehicles && index < |slots|
      modifies vehicles[vehicleId]
      ensures Linked()
      ensures VehicleStates() == old(VehicleStates()[vehicleId := VehicleStates()[vehicleId].(slot := Some(index))])
      ensures SlotStates() == old(SlotStates())
    {
      ghost var before := VehicleStates();
      var vehicle := vehicles[vehicleId];
      vehicle.slot := slots[index];
      forall id | id in vehicles && id != vehicleId
        ensures vehicles[id].State() == old(vehicles[id].State()) && vehicles[id].slot == old(vehicles[id].slot)
      {
        assert vehicles[id] != vehicle;
      }
      UpdatedAt(before, VehicleStates(), vehicleId, before[vehicleId].(slot := Some(index)));
    }

    /** Clears the slot reference of the vehicle registered under `vehicleId`; nothing else changes. */
    method DetachSlot(vehicleId: string)
      requires Linked() && vehicleId in vehicles
      modifies vehicles[vehicleId]
      ensures Linked()
      ensures VehicleStates() == old(VehicleStates()[vehicleId := VehicleStates()[vehicleId].(slot := None)])
      ensures SlotStates() == old(SlotStates())
    {
      ghost var before := VehicleStates();
      var vehicle := vehicles[vehicleId];
      vehicle.slot := null;
      forall id | id in vehicles && id != vehicleId
        ensures vehicles[id].State() == old(vehicles[id].State()) && vehicles[id].slot == old(vehicles[id].slot)
      {
        assert vehicles[id] != vehicle;
      }
      UpdatedAt(before, VehicleStates(), vehicleId, before[vehicleId].(slot := None));
    }

    /** Restarts the billing clock of the vehicle registered under `vehicleId`; nothing else changes. */
    method RestartClock(vehicleId: string, now: int)
      requires Linked() && vehicleId in vehicles
      modifies vehicles[vehicleId]
      ensures Linked()
      ensures VehicleStates() == old(VehicleStates()[vehicleId := VehicleStates()[vehicleId].(entryTime := Some(now))])
      ensures SlotStates() == old(SlotStates())
    {
      ghost var before := VehicleStates();
      var vehicle := vehicles[vehicleId];
      vehicle.entryTime := Some(now);
      forall id | id in vehicles && id != vehicleId
        ensures vehicles[id].State() == old(vehicles[id].State()) && vehicles[id].slot == old(vehicles[id].slot)
      {
        assert vehicles[id] != vehicle;
      }
      UpdatedAt(before, VehicleStates(), vehicleId, before[vehicleId].(entryTime := Some(now)));
    }

    /** Records the exit of the vehicle registered under `vehicleId` and clears its slot; nothing else changes. */
    method RecordExit(vehicleId: string, now: int)
      requires Linked() && vehicleId in vehicles
      modifies vehicles[vehicleId]
      ensures Linked()
      ensures VehicleStates() == old(VehicleStates()[vehicleId := VehicleStates()[vehicleId].(lastExitTime := Some(now), slot := None)])
      ensures SlotStates() == old(SlotStates())
    {
      ghost var before := VehicleStates();
      var vehicle := vehicles[vehicleId];
      vehicle.lastExitTime := Some(now);
      vehicle.slot := null;
      forall id | id in vehicles && id != vehicleId
        ensures vehicles[id].State() == old(vehicles[id].State()) && vehicles[id].slot == old(vehicles[id].slot)
      {
        assert vehicles[id] != vehicle;
      }
      UpdatedAt(before, VehicleStates(), vehicleId, before[vehicleId].(lastExitTime := Some(now), slot := None));
    }

    /**
     * Marks slot `index` occupied and points the vehicle registered under
     * `vehicleId` at it: the lot becomes `Tenancy.Seat` of the old one.
     */
    method SeatVehicle(vehicleId: string, index: nat)
      requires Linked() && vehicleId in vehicles && index < |slots|
      modifies slots[index], vehicles[vehicleId]
      ensures Linked()
      ensures Abstract() == Tenancy.Seat(old(Abstract()), vehicleId, old(Abstract()).vehicles[vehicleId], index)
    {
      ghost var before := Abstract();
      MarkOccupied(index);
      AttachSlot(vehicleId, index);
      assert SlotStates() == Tenancy.Seat(before, vehicleId, before.vehicles[vehicleId], index).slots;
      assert VehicleStates() == Tenancy.Seat(before, vehicleId, before.vehicles[vehicleId], index).vehicles;
    }

    /** Registers a new, unparked vehicle under a fresh id, with entry time `now`. */
    method Register(vehicleId: string, vehicleSize: SizeClass, now: int)
      requires Linked() && vehicleId !in vehicles
      modifies this
      ensures Linked()
      ensures vehicleId in vehicles && fresh(vehicles[vehicleId])
      ensures Abstract() == old(Abstract()).(vehicles := old(Abstract()).vehicles[vehicleId := VehicleState(vehicleId, vehicleSize, Some(now), None, None, None)])
    {
      var vehicle := NewVehicle(vehicleId, vehicleSize, now);
      Enrol(vehicleId, vehicle);
    }

    /** A new vehicle object with its entry time set to `now`, not parked. */
    static method NewVehicle(vehicleId: string, vehicleSize: SizeClass, now: int) returns (vehicle: Vehicle)
      ensures fresh(vehicle)
      ensures vehicle.State() == VehicleState(vehicleId, vehicleSize, Some(now), None, None, None)
      ensures vehicle.slot == null
    {
      vehicle := new Vehicle(vehicleId, vehicleSize);
      vehicle.entryTime := Some(now);
    }

    /** Adds an unparked vehicle object, not yet in the registry, under a new id. */
    method Enrol(vehicleId: string, vehicle: Vehicle)
      requires Linked() && vehicleId !in vehicles && vehicle !in fleet && vehicle.slot == null
      modifies this
      ensures Linked()
      ensures vehicleId in vehicles && vehicles[vehicleId] == vehicle
      ensures Abstract() == old(Abstract()).(vehicles := old(Abstract()).vehicles[vehicleId := vehicle.State()])
    {
      ghost var before := VehicleStates();
      vehicles := vehicles[vehicleId := vehicle];
      fleet := fleet + {vehicle};
      forall a, b | a in vehicles && b in vehicles && a != b ensures vehicles[a] != vehicles[b] {
        if a == vehicleId {
          assert vehicles[b] in old(fleet);
        } else if b == vehicleId {
          assert vehicles[a] in old(fleet);
        }
      }
      assert SlotStates() == old(SlotStates());
      assert VehicleStates().Keys == before.Keys + {vehicleId};
      UpdatedAt(before, VehicleStates(), vehicleId, vehicle.State());
    }

    /**
     * `parkVehicle`, proved to act on the lot as `Tenancy.Park` does: the same
     * outcome and the same new slots and registry.
     */
    method ParkVehicle(vehicleId: string, vehicleSize: SizeClass, entryPoint: nat, now: int) returns (r: Tenancy.ParkOutcome)
      requires Valid() && Allocation.Reaches(SlotStates(), entryPoint)
      modifies this, slots, fleet
      ensures Valid()
      ensures (Abstract(), r) == Tenancy.Park(old(Abstract()), vehicleId, vehicleSize, entryPoint, now)
    {
      if vehicleId in vehicles {
        r := ParkReturning(vehicleId, vehicleSize, entryPoint, now);
      } else {
        r := ParkNew(vehicleId, vehicleSize, entryPoint, now);
      }
    }

    /** The known-vehicle branch of `parkVehicle`, as `Tenancy.ParkReturning`. */
    method ParkReturning(vehicleId: string, vehicleSize: SizeClass, entryPoint: nat, now: int) returns (r: Tenancy.ParkOutcome)
      requires Valid() && Allocation.Reaches(SlotStates(), entryPoint) && vehicleId in vehicles
      modifies slots, vehicles[vehicleId]
      ensures Valid()
      ensures (Abstract(), r) == Tenancy.ParkReturning(old(Abstract()), vehicleId, vehicleSize, entryPoint, now)
    {
      SettleClock(vehicleId, now);
      r := Reseat(vehicleId, vehicleSize, entryPoint);
    }

    /** Keeps or restarts the billing clock of a returning vehicle, as `Tenancy.Reclock`. */
    method SettleClock(vehicleId: string, now: int)
      requires Valid() && vehicleId in vehicles
      modifies vehicles[vehicleId]
      ensures Valid()
      ensures Abstract() == Tenancy.Reclock(old(Abstract()), vehicleId, now)
    {
      ghost var before := Abstract();
      var vehicle := vehicles[vehicleId];
      if !Tenancy.KeepsBillingClock(vehicle.State(), now) {
        RestartClock(vehicleId, now);
        assert Abstract() == before.(vehicles := before.vehicles[vehicleId := before.vehicles[vehicleId].(entryTime := Some(now))]);
      }
      assert Abstract() == Tenancy.Reclock(before, vehicleId, now);
    }

    /** Seats a returning vehicle in its previous or the nearest slot, as `Tenancy.Reseat`. */
    method Reseat(vehicleId: string, vehicleSize: SizeClass, entryPoint: nat) returns (r: Tenancy.ParkOutcome)
      requires Valid() && Allocation.Reaches(SlotStates(), entryPoint) && vehicleId in vehicles
      modifies slots, vehicles[vehicleId]
      ensures Valid()
      ensures (Abstract(), r) == Tenancy.Reseat(old(Abstract()), vehicleId, vehicleSize, entryPoint)
    {
      ghost var before := Abstract();
      var vehicle := vehicles[vehicleId];
      var previous := Allocation.PreviousSlot(SlotStates(), vehicle.vehicleId);
      var choice := if previous.Some? then previous else Allocation.FindNearestSlot(SlotStates(), vehicleSize, entryPoint);
      if choice.None? {
        DetachSlot(vehicleId);
        r := Tenancy.SlotLookupFailure;
        assert Abstract() == before.(vehicles := before.vehicles[vehicleId := before.vehicles[vehicleId].(slot := None)]);
      } else {
        var index := choice.value;
        var slot := slots[index];
        SeatVehicle(vehicleId, index);
        r := Tenancy.Parked(slot.slotId);
      }
      assert (Abstract(), r) == Tenancy.Reseat(before, vehicleId, vehicleSize, entryPoint);
    }

    /** The new-vehicle branch of `parkVehicle`, as `Tenancy.ParkNew`. */
    method ParkNew(vehicleId: string, vehicleSize: SizeClass, entryPoint: nat, now: int) returns (r: Tenancy.ParkOutcome)
      requires Valid() && Allocation.Reaches(SlotStates(), entryPoint) && vehicleId !in vehicles
      modifies this, slots
      ensures Valid()
      ensures (Abstract(), r) == Tenancy.ParkNew(old(Abstract()), vehicleId, vehicleSize, entryPoint, now)
    {
      ghost var lot := Abstract();
      ghost var v := VehicleState(vehicleId, vehicleSize, Some(now), None, None, None);
      Register(vehicleId, vehicleSize, now);
      ghost var registered := Abstract();
      var nearest := Allocation.FindNearestSlot(SlotStates(), vehicleSize, entryPoint);
      if nearest.None? {
        r := Tenancy.NoSlot;
        Tenancy.RegisterKeepsInv(lot, vehicleId, v);
      } else {
        var index := nearest.value;
        var slot := slots[index];
        SeatVehicle(vehicleId, index);
        r := Tenancy.Parked(slot.slotId);
        Tenancy.SeatKeepsInv(lot, vehicleId, v, index);
        Tenancy.SeatOverridesRecord(lot, vehicleId, v, v, index);
      }
    }

    /**
     * `unparkVehicle`, proved to act on the lot as `Tenancy.Unpark` does: the
     * same fee, or none, and the same new slots and registry.
     */
    method UnparkVehicle(vehicleId: string, fakeLastExitTime: Option<int>, now: int) returns (fee: Option<real>)
      requires Valid()
      modifies slots, fleet
      ensures Valid()
      ensures (Abstract(), fee) == Tenancy.Unpark(old(Abstract()), vehicleId, fakeLastExitTime, now)
    {
      ghost var lot := Abstract();
      if vehicleId !in vehicles || vehicles[vehicleId].slot == null {
        TenancyProperties.UnparkNotParked(lot, vehicleId, fakeLastExitTime, now);
        return None;
      }
      var vehicle := vehicles[vehicleId];
      TenancyProperties.UnparkParked(lot, vehicleId, fakeLastExitTime, now);
      MarkVacated(vehicle.slot.slotId, vehicle.vehicleId);
      RecordExit(vehicleId, now);
      var total := CalculateFees(vehicleId, fakeLastExitTime);
      fee := Some(total);
    }

    /** `calculateFees` on the recorded state; the source throws for an unknown id. */
    function CalculateFees(vehicleId: string, fakeLastExitTime: Option<int>): (fee: real)
      reads this, slots, fleet
      requires Linked() && vehicleId in vehicles
      ensures fee == Tenancy.Fees(Abstract(), vehicleId, fakeLastExitTime)
    {
      var vehicle := vehicles[vehicleId];
      Billing.CalculateFee(Tenancy.OrEpoch(vehicle.entryTime),
                           fakeLastExitTime.GetOr(Tenancy.OrEpoch(vehicle.lastExitTime)), vehicle.size)
    }
  }
}
