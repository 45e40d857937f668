/** What parking and unparking promise, stated over the lot value. */
module TenancyProperties {
  import opened Wrappers
  import opened SlotModel
  import opened VehicleModel
  import opened Tenancy
  import Billing
  import Allocation

  /**
   * Parking an unknown id always registers it with entry time `now`. It gets
   * the nearest suitable slot, earliest on ties, and exactly that slot becomes
   * occupied; with no suitable slot the result is null and no slot changes.
   * Other vehicles are untouched.
   */
  lemma ParkNewVehicle(lot: Lot, vehicleId: string, vehicleSize: SizeClass, entryPoint: nat, now: int)
    requires Inv(lot) && Allocation.Reaches(lot.slots, entryPoint) && vehicleId !in lot.vehicles
    ensures var (lot', r) := Park(lot, vehicleId, vehicleSize, entryPoint, now);
            && vehicleId in lot'.vehicles
            && lot'.vehicles[vehicleId].entryTime == Some(now)
            && lot'.vehicles[vehicleId].lastExitTime == None
            && lot'.vehicles[vehicleId].size == vehicleSize
            && (forall id :: id in lot.vehicles ==> lot'.vehicles[id] == lot.vehicles[id])
            && r != SlotLookupFailure
            && (r == NoSlot <==> forall j :: 0 <= j < |lot.slots| ==> !Allocation.Suitable(lot.slots[j], vehicleSize))
            && (r == NoSlot ==> lot'.slots == lot.slots && lot'.vehicles[vehicleId].slot == None)
            && (r.Parked? ==>
                  && r.slotId < |lot.slots|
                  && Allocation.Suitable(lot.slots[r.slotId], vehicleSize)
                  && (forall j :: 0 <= j < |lot.slots| && Allocation.Suitable(lot.slots[j], vehicleSize) ==>
                        Allocation.Distance(lot.slots, entryPoint, r.slotId) <= Allocation.Distance(lot.slots, entryPoint, j))
                  && lot'.slots == lot.slots[r.slotId := lot.slots[r.slotId].(isOccupied := true)]
                  && lot'.vehicles[vehicleId].slot == Some(r.slotId))
  {
  }

  /**
   * When slot `i` is suitable, nearest, and no suitable slot before it is as
   * near, a new vehicle is seated exactly there.
   */
  lemma NewVehicleTakesNearest(lot: Lot, vehicleId: string, vehicleSize: SizeClass, entryPoint: nat, now: int, i: nat)
    requires Inv(lot) && Allocation.Reaches(lot.slots, entryPoint) && vehicleId !in lot.vehicles
    requires i < |lot.slots| && Allocation.Suitable(lot.slots[i], vehicleSize)
    requires forall j :: 0 <= j < |lot.slots| && Allocation.Suitable(lot.slots[j], vehicleSize) ==>
               Allocation.Distance(lot.slots, entryPoint, i) <= Allocation.Distance(lot.slots, entryPoint, j)
    requires forall j :: 0 <= j < i && Allocation.Suitable(lot.slots[j], vehicleSize) ==>
               Allocation.Distance(lot.slots, entryPoint, i) < Allocation.Distance(lot.slots, entryPoint, j)
    ensures Park(lot, vehicleId, vehicleSize, entryPoint, now)
            == (Seat(lot, vehicleId, VehicleState(vehicleId, vehicleSize, Some(now), None, None, None), i), Parked(i))
  {
    Allocation.FindNearestSlotIsUnique(lot.slots, vehicleSize, entryPoint, i);
  }

  /**
   * A returning vehicle keeps its entry time exactly when it is back within
   * three hours of that entry and one hour of its last exit (an absent exit
   * reads as the epoch); otherwise the clock restarts at `now`. Nothing else
   * on its record changes but the slot.
   */
  lemma ParkReturningClock(lot: Lot, vehicleId: string, vehicleSize: SizeClass, entryPoint: nat, now: int)
    requires Inv(lot) && Allocation.Reaches(lot.slots, entryPoint) && vehicleId in lot.vehicles
    ensures var v := lot.vehicles[vehicleId];
            var v' := Park(lot, vehicleId, vehicleSize, entryPoint, now).0.vehicles[vehicleId];
            && v'.entryTime == (if now <= OrEpoch(v.entryTime) + 3 * HOUR_MS && now <= OrEpoch(v.lastExitTime) + HOUR_MS
                                then v.entryTime else Some(now))
            && v'.lastExitTime == v.lastExitTime
            && v'.size == v.size
  {
  }

  /**
   * What taking a slot promises for a returning vehicle `vehicleId` on the
   * slots `slots`, with `others` the records of every other vehicle: the
   * first free slot stamped with its id is taken, even one too small for the
   * size it now gives; failing that, the nearest suitable slot, earliest on
   * ties; failing both, the call fails and the vehicle is left unparked. The
   * answer is never null, exactly the chosen slot becomes occupied, and the
   * other vehicles are untouched.
   */
  predicate TakesSlot(slots: seq<SlotState>, others: map<string, VehicleState>, vehicleId: string,
                      vehicleSize: SizeClass, entryPoint: nat, lot': Lot, r: ParkOutcome)
    requires Allocation.Reaches(slots, entryPoint)
  {
    && r != NoSlot
    && (forall j ::
          (0 <= j < |slots| && Allocation.Reclaimable(slots[j], vehicleId) &&
           forall k :: 0 <= k < j ==> !Allocation.Reclaimable(slots[k], vehicleId))
          ==> r == Parked(j))
    && ((forall j :: 0 <= j < |slots| ==> !Allocation.Reclaimable(slots[j], vehicleId)) ==>
          && (r == SlotLookupFailure <==> forall j :: 0 <= j < |slots| ==> !Allocation.Suitable(slots[j], vehicleSize))
          && (r.Parked? ==>
                && r.slotId < |slots| && Allocation.Suitable(slots[r.slotId], vehicleSize)
                && (forall j :: 0 <= j < |slots| && Allocation.Suitable(slots[j], vehicleSize) ==>
                      Allocation.Distance(slots, entryPoint, r.slotId) <= Allocation.Distance(slots, entryPoint, j))
                && (forall j :: 0 <= j < r.slotId && Allocation.Suitable(slots[j], vehicleSize) ==>
                      Allocation.Distance(slots, entryPoint, r.slotId) < Allocation.Distance(slots, entryPoint, j))))
    && vehicleId in lot'.vehicles
    && (r.Parked? ==>
          && r.slotId < |slots| && !slots[r.slotId].isOccupied
          && lot'.slots == slots[r.slotId := slots[r.slotId].(isOccupied := true)]
          && lot'.vehicles[vehicleId].slot == Some(r.slotId))
    && (r == SlotLookupFailure ==> lot'.slots == slots && lot'.vehicles[vehicleId].slot == None)
    && (forall id :: id in others ==> id in lot'.vehicles && lot'.vehicles[id] == others[id])
  }

  /** A returning vehicle, whatever happens to its clock, takes a slot as `TakesSlot` says. */
  lemma ParkReturningSlot(lot: Lot, vehicleId: string, vehicleSize: SizeClass, entryPoint: nat, now: int)
    requires Inv(lot) && Allocation.Reaches(lot.slots, entryPoint) && vehicleId in lot.vehicles
    ensures var (lot', r) := Park(lot, vehicleId, vehicleSize, entryPoint, now);
            TakesSlot(lot.slots, lot.vehicles - {vehicleId}, vehicleId, vehicleSize, entryPoint, lot', r)
  {
    var l1 := Reclock(lot, vehicleId, now);
    assert Park(lot, vehicleId, vehicleSize, entryPoint, now) == Reseat(l1, vehicleId, vehicleSize, entryPoint);
    assert l1.vehicles - {vehicleId} == lot.vehicles - {vehicleId};
    ReseatSlot(l1, vehicleId, vehicleSize, entryPoint);
  }

  /** `ParkReturningSlot`, for the slot-taking step alone. */
  lemma ReseatSlot(lot: Lot, vehicleId: string, vehicleSize: SizeClass, entryPoint: nat)
    requires Inv(lot) && Allocation.Reaches(lot.slots, entryPoint) && vehicleId in lot.vehicles
    ensures var (lot', r) := Reseat(lot, vehicleId, vehicleSize, entryPoint);
            TakesSlot(lot.slots, lot.vehicles - {vehicleId}, vehicleId, vehicleSize, entryPoint, lot', r)
  {
    ReseatPrefersPrevious(lot, vehicleId, vehicleSize, entryPoint);
    if forall j :: 0 <= j < |lot.slots| ==> !Allocation.Reclaimable(lot.slots[j], vehicleId) {
      ReseatFallsBackToNearest(lot, vehicleId, vehicleSize, entryPoint);
    }
    ReseatEffect(lot, vehicleId, vehicleSize, entryPoint);
  }

  /** The first reclaimable slot, when there is one, is the one taken. */
  lemma ReseatPrefersPrevious(lot: Lot, vehicleId: string, vehicleSize: SizeClass, entryPoint: nat)
    requires Inv(lot) && Allocation.Reaches(lot.slots, entryPoint) && vehicleId in lot.vehicles
    ensures forall j ::
              (0 <= j < |lot.slots| && Allocation.Reclaimable(lot.slots[j], vehicleId) &&
               forall k :: 0 <= k < j ==> !Allocation.Reclaimable(lot.slots[k], vehicleId))
              ==> Reseat(lot, vehicleId, vehicleSize, entryPoint).1 == Parked(j)
  {
    assert WellRegistered(lot, vehicleId);
    forall j | 0 <= j < |lot.slots| && Allocation.Reclaimable(lot.slots[j], vehicleId) &&
               (forall k :: 0 <= k < j ==> !Allocation.Reclaimable(lot.slots[k], vehicleId))
      ensures Allocation.PreviousSlot(lot.slots, vehicleId) == Some(j)
    {
      var p := Allocation.PreviousSlot(lot.slots, vehicleId);
      assert p.Some?;
      assert !(p.value < j) && !(j < p.value);
    }
  }

  /**
   * With no reclaimable slot, the vehicle takes the nearest suitable slot,
   * earliest on ties, and the call fails exactly when no slot is suitable.
   */
  lemma ReseatFallsBackToNearest(lot: Lot, vehicleId: string, vehicleSize: SizeClass, entryPoint: nat)
    requires Inv(lot) && Allocation.Reaches(lot.slots, entryPoint) && vehicleId in lot.vehicles
    requires forall j :: 0 <= j < |lot.slots| ==> !Allocation.Reclaimable(lot.slots[j], vehicleId)
    ensures var r := Reseat(lot, vehicleId, vehicleSize, entryPoint).1;
            && (r == SlotLookupFailure <==> forall j :: 0 <= j < |lot.slots| ==> !Allocation.Suitable(lot.slots[j], vehicleSize))
            && (r.Parked? ==>
                  && r.slotId < |lot.slots| && Allocation.Suitable(lot.slots[r.slotId], vehicleSize)
                  && (forall j :: 0 <= j < |lot.slots| && Allocation.Suitable(lot.slots[j], vehicleSize) ==>
                        Allocation.Distance(lot.slots, entryPoint, r.slotId) <= Allocation.Distance(lot.slots, entryPoint, j))
                  && (forall j :: 0 <= j < r.slotId && Allocation.Suitable(lot.slots[j], vehicleSize) ==>
                        Allocation.Distance(lot.slots, entryPoint, r.slotId) < Allocation.Distance(lot.slots, entryPoint, j)))
  {
    assert WellRegistered(lot, vehicleId);
  }

  /**
   * Taking a slot never answers null; exactly the chosen slot, which was
   * free, becomes occupied; a failure clears the vehicle's slot and changes no
   * slot; other vehicles are untouched.
   */
  lemma ReseatEffect(lot: Lot, vehicleId: string, vehicleSize: SizeClass, entryPoint: nat)
    requires Inv(lot) && Allocation.Reaches(lot.slots, entryPoint) && vehicleId in lot.vehicles
    ensures var (lot', r) := Reseat(lot, vehicleId, vehicleSize, entryPoint);
            && r != NoSlot
            && (r.Parked? ==>
                  && r.slotId < |lot.slots| && !lot.slots[r.slotId].isOccupied
                  && lot'.slots == lot.slots[r.slotId := lot.slots[r.slotId].(isOccupied := true)]
                  && lot'.vehicles[vehicleId].slot == Some(r.slotId))
            && (r == SlotLookupFailure ==> lot'.slots == lot.slots && lot'.vehicles[vehicleId].slot == None)
            && (forall id :: id in lot.vehicles && id != vehicleId ==> lot'.vehicles[id] == lot.vehicles[id])
  {
    assert WellRegistered(lot, vehicleId);
  }

  /**
   * A returning vehicle inside its grace window whose first reclaimable slot
   * is `i` is seated exactly there, with its record unchanged but the slot.
   */
  lemma ReturningTakesPrevious(lot: Lot, vehicleId: string, vehicleSize: SizeClass, entryPoint: nat, now: int, i: nat)
    requires Inv(lot) && Allocation.Reaches(lot.slots, entryPoint) && vehicleId in lot.vehicles
    requires i < |lot.slots| && Allocation.Reclaimable(lot.slots[i], vehicleId)
    requires forall k :: 0 <= k < i ==> !Allocation.Reclaimable(lot.slots[k], vehicleId)
    requires KeepsBillingClock(lot.vehicles[vehicleId], now)
    ensures Park(lot, vehicleId, vehicleSize, entryPoint, now) == (Seat(lot, vehicleId, lot.vehicles[vehicleId], i), Parked(i))
  {
    assert WellRegistered(lot, vehicleId);
    var p := Allocation.PreviousSlot(lot.slots, vehicleId);
    assert p.Some?;
    assert !(p.value < i) && !(i < p.value);
  }

  /**
   * Parking a vehicle that is still parked seats it a second time: the new
   * slot differs from the one it holds, and that one stays occupied with no
   * vehicle referring to it.
   */
  lemma ParkWhileParkedStrandsSlot(lot: Lot, vehicleId: string, vehicleSize: SizeClass, entryPoint: nat, now: int)
    requires Inv(lot) && Allocation.Reaches(lot.slots, entryPoint)
    requires vehicleId in lot.vehicles && lot.vehicles[vehicleId].slot.Some?
    ensures var (lot', r) := Park(lot, vehicleId, vehicleSize, entryPoint, now);
            var held := lot.vehicles[vehicleId].slot.value;
            r.Parked? ==>
              && r.slotId != held
              && held < |lot'.slots| && lot'.slots[held].isOccupied
              && forall id :: id in lot'.vehicles ==> lot'.vehicles[id].slot != Some(held)
  {
    var held := lot.vehicles[vehicleId].slot.value;
    assert WellRegistered(lot, vehicleId);
    ParkReturningSlot(lot, vehicleId, vehicleSize, entryPoint, now);
    var (lot', r) := Park(lot, vehicleId, vehicleSize, entryPoint, now);
    if r.Parked? {
      forall id | id in lot'.vehicles ensures lot'.vehicles[id].slot != Some(held) {
        if id != vehicleId {
          assert lot'.vehicles[id] == lot.vehicles[id];
        }
      }
    }
  }

  /** Unparking an unknown or unparked id returns null and changes nothing. */
  lemma UnparkNotParked(lot: Lot, vehicleId: string, fakeLastExitTime: Option<int>, now: int)
    requires Inv(lot)
    requires vehicleId !in lot.vehicles || lot.vehicles[vehicleId].slot.None?
    ensures Unpark(lot, vehicleId, fakeLastExitTime, now) == (lot, None)
  {
  }

  /**
   * Unparking a parked vehicle frees exactly its slot and stamps it with the
   * vehicle's id, records the exit at `now` and clears the vehicle's slot; the
   * fee runs from the entry time to the override exit time when one is given
   * and to `now` otherwise.
   */
  lemma UnparkParked(lot: Lot, vehicleId: string, fakeLastExitTime: Option<int>, now: int)
    requires Inv(lot) && vehicleId in lot.vehicles && lot.vehicles[vehicleId].slot.Some?
    ensures var v := lot.vehicles[vehicleId];
            var i := v.slot.value;
            var (lot', fee) := Unpark(lot, vehicleId, fakeLastExitTime, now);
            && i < |lot.slots| && lot.slots[i].isOccupied
            && lot'.slots == lot.slots[i := lot.slots[i].(isOccupied := false, lastVehicleId := Some(vehicleId))]
            && lot'.vehicles == lot.vehicles[vehicleId := v.(lastExitTime := Some(now), slot := None)]
            && fee == Some(Billing.CalculateFee(OrEpoch(v.entryTime), fakeLastExitTime.GetOr(now), v.size))
  {
    assert WellRegistered(lot, vehicleId);
  }

  /**
   * Parking a new vehicle and unparking it leaves every slot as it was except
   * for the stamp on the one it used, and charges the stay from the park
   * call to the exit.
   */
  lemma ParkThenUnpark(lot: Lot, vehicleId: string, vehicleSize: SizeClass, entryPoint: nat,
                       parkedAt: int, fakeLastExitTime: Option<int>, leftAt: int)
    requires Inv(lot) && Allocation.Reaches(lot.slots, entryPoint) && vehicleId !in lot.vehicles
    requires Park(lot, vehicleId, vehicleSize, entryPoint, parkedAt).1.Parked?
    ensures var (lot1, r) := Park(lot, vehicleId, vehicleSize, entryPoint, parkedAt);
            var (lot2, fee) := Unpark(lot1, vehicleId, fakeLastExitTime, leftAt);
            && r.slotId < |lot.slots|
            && lot2.slots == lot.slots[r.slotId := lot.slots[r.slotId].(lastVehicleId := Some(vehicleId))]
            && fee == Some(Billing.CalculateFee(parkedAt, fakeLastExitTime.GetOr(leftAt), vehicleSize))
            && (forall id :: id in lot.vehicles ==> lot2.vehicles[id] == lot.vehicles[id])
  {
    ParkNewVehicle(lot, vehicleId, vehicleSize, entryPoint, parkedAt);
    var (lot1, r) := Park(lot, vehicleId, vehicleSize, entryPoint, parkedAt);
    UnparkParked(lot1, vehicleId, fakeLastExitTime, leftAt);
    var lot2 := Unpark(lot1, vehicleId, fakeLastExitTime, leftAt).0;
    assert lot2.slots == lot.slots[r.slotId := lot.slots[r.slotId].(lastVehicleId := Some(vehicleId))];
  }

  /**
   * Leaving and coming back within an hour of the exit and three hours of the
   * entry gives back the same slot (when no earlier free slot carries this
   * vehicle's stamp) and keeps the entry time, so a later exit is charged
   * for the whole stay since the first entry.
   */
  lemma ReparkWithinGrace(lot: Lot, vehicleId: string, vehicleSize: SizeClass, entryPoint: nat,
                          leftAt: int, fakeLastExitTime: Option<int>, backAt: int)
    requires Inv(lot) && Allocation.Reaches(lot.slots, entryPoint)
    requires vehicleId in lot.vehicles && lot.vehicles[vehicleId].slot.Some?
    requires forall k :: 0 <= k < lot.vehicles[vehicleId].slot.value ==> !Allocation.Reclaimable(lot.slots[k], vehicleId)
    requires backAt <= leftAt + HOUR_MS && backAt <= OrEpoch(lot.vehicles[vehicleId].entryTime) + 3 * HOUR_MS
    ensures var v := lot.vehicles[vehicleId];
            var lot1 := Unpark(lot, vehicleId, fakeLastExitTime, leftAt).0;
            var (lot2, r) := Park(lot1, vehicleId, vehicleSize, entryPoint, backAt);
            && r == Parked(v.slot.value)
            && lot2.vehicles[vehicleId].entryTime == v.entryTime
            && forall exit :: Unpark(lot2, vehicleId, Some(exit), backAt).1
                                == Some(Billing.CalculateFee(OrEpoch(v.entryTime), exit, v.size))
  {
    var v := lot.vehicles[vehicleId];
    var i := v.slot.value;
    UnparkParked(lot, vehicleId, fakeLastExitTime, leftAt);
    var lot1 := Unpark(lot, vehicleId, fakeLastExitTime, leftAt).0;
    assert Allocation.Reclaimable(lot1.slots[i], vehicleId);
    forall k | 0 <= k < i ensures !Allocation.Reclaimable(lot1.slots[k], vehicleId) {
      assert lot1.slots[k] == lot.slots[k];
    }
    ParkReturningSlot(lot1, vehicleId, vehicleSize, entryPoint, backAt);
    ParkReturningClock(lot1, vehicleId, vehicleSize, entryPoint, backAt);
    var (lot2, r) := Park(lot1, vehicleId, vehicleSize, entryPoint, backAt);
    forall exit ensures Unpark(lot2, vehicleId, Some(exit), backAt).1
                        == Some(Billing.CalculateFee(OrEpoch(v.entryTime), exit, v.size))
    {
      UnparkParked(lot2, vehicleId, Some(exit), backAt);
    }
  }
}
