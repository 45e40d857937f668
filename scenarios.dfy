/**
 * The repository's own scenarios, replayed on its four-slot lot: distances
 * [1,4,5], [3,2,3], [2,3,2], [5,5,1] and sizes Small, Medium, Medium, Large.
 * Every call happens at the same instant `t`; later exits are override
 * times, as in the scenarios.
 */
module Scenarios {
  import opened Wrappers
  import opened Tenancy
  import Billing
  import Allocation
  import TenancyProperties

  function TestLot(): (lot: Lot)
    ensures Inv(lot) && Allocation.Reaches(lot.slots, 0) && |lot.slots| == 4
  {
    Initial(3, [[1, 4, 5], [3, 2, 3], [2, 3, 2], [5, 5, 1]], [0, 1, 1, 2])
  }

  /** A small car entering at point 0 of the empty lot gets slot 0, the nearest. */
  lemma FirstSmallCarGetsSlotZero(vehicleId: string, t: int)
    ensures Park(TestLot(), vehicleId, 0, 0, t).1 == Parked(0)
  {
    var l0 := TestLot();
    Allocation.FindNearestSlotIsUnique(l0.slots, 0, 0, 0);
    TenancyProperties.ParkNewVehicle(l0, vehicleId, 0, 0, t);
  }

  /** Leaving at once costs the base rate. */
  lemma LeaveAtOnce(vehicleId: string, t: int)
    ensures var l1 := Park(TestLot(), vehicleId, 0, 0, t).0;
            vehicleId in l1.vehicles && l1.vehicles[vehicleId].slot == Some(0)
            && Unpark(l1, vehicleId, None, t).1 == Some(40.0)
  {
    var l0 := TestLot();
    FirstSmallCarGetsSlotZero(vehicleId, t);
    TenancyProperties.ParkNewVehicle(l0, vehicleId, 0, 0, t);
    var l1 := Park(l0, vehicleId, 0, 0, t).0;
    TenancyProperties.UnparkParked(l1, vehicleId, None, t);
    Billing.TestedFees(t, 0);
  }

  /**
   * A small car leaves at once and pays the base rate; back within the grace
   * window it gets its slot again and pays 60 for four hours in all.
   */
  lemma ReparkScenario(t: int)
    ensures var l1 := Park(TestLot(), "Car3", 0, 0, t).0;
            var l2 := Unpark(l1, "Car3", None, t).0;
            Allocation.Reaches(l2.slots, 0) && Inv(l2)
            && Park(l2, "Car3", 0, 0, t).1 == Parked(0)
            && Unpark(Park(l2, "Car3", 0, 0, t).0, "Car3", Some(t + 4 * HOUR_MS), t).1 == Some(60.0)
  {
    var l0 := TestLot();
    FirstSmallCarGetsSlotZero("Car3", t);
    LeaveAtOnce("Car3", t);
    var l1 := Park(l0, "Car3", 0, 0, t).0;
    LayoutKeepsReach(l1.slots, l0.slots, 0);
    var l2 := Unpark(l1, "Car3", None, t).0;
    LayoutKeepsReach(l2.slots, l1.slots, 0);
    TenancyProperties.ReparkWithinGrace(l1, "Car3", 0, 0, t, None, t);
    Billing.TestedFees(t, 0);
  }

  /** A medium car entering the empty lot at point 0 gets slot 2, the nearest medium slot. */
  lemma FirstMediumCarGetsSlotTwo(vehicleId: string, t: int)
    ensures Park(TestLot(), vehicleId, 1, 0, t).1 == Parked(2)
  {
    var l0 := TestLot();
    forall j | 0 <= j < 4 && Allocation.Suitable(l0.slots[j], 1)
      ensures Allocation.Distance(l0.slots, 0, 2) <= Allocation.Distance(l0.slots, 0, j)
    {
      assert j != 0;
    }
    Allocation.FindNearestSlotIsUnique(l0.slots, 1, 0, 2);
    TenancyProperties.ParkNewVehicle(l0, vehicleId, 1, 0, t);
  }

  /**
   * `vehicleId` has held slot `i` since `t`, and no slot before `i` is one it
   * left free.
   */
  predicate HeldSince(lot: Lot, vehicleId: string, size: VehicleModel.SizeClass, i: nat, t: int)
  {
    && Inv(lot) && Allocation.Reaches(lot.slots, 0) && vehicleId in lot.vehicles
    && lot.vehicles[vehicleId].slot == Some(i) && lot.vehicles[vehicleId].entryTime == Some(t)
    && lot.vehicles[vehicleId].size == size
    && forall k :: 0 <= k < i ==> !Allocation.Reclaimable(lot.slots[k], vehicleId)
  }

  /**
   * A car that has held its slot since `t`, leaves at `t` and comes back at
   * once gets the same slot and keeps its entry time.
   */
  lemma LeaveAndReturn(lot: Lot, vehicleId: string, size: VehicleModel.SizeClass, i: nat, t: int)
    requires HeldSince(lot, vehicleId, size, i, t)
    ensures var l1 := Unpark(lot, vehicleId, None, t).0;
            && Inv(l1) && Allocation.Reaches(l1.slots, 0)
            && Park(l1, vehicleId, size, 0, t).1 == Parked(i)
            && HeldSince(Park(l1, vehicleId, size, 0, t).0, vehicleId, size, i, t)
  {
    var v := lot.vehicles[vehicleId];
    TenancyProperties.UnparkParked(lot, vehicleId, None, t);
    var l1 := Unpark(lot, vehicleId, None, t).0;
    var v1 := v.(lastExitTime := Some(t), slot := None);
    assert l1.vehicles[vehicleId] == v1;
    assert forall k :: 0 <= k < i ==> l1.slots[k] == lot.slots[k];
    LayoutKeepsReach(l1.slots, lot.slots, 0);
    TenancyProperties.ReturningTakesPrevious(l1, vehicleId, size, 0, t, i);
    var l2 := Seat(l1, vehicleId, v1, i);
    LayoutKeepsReach(l2.slots, l1.slots, 0);
    assert forall k :: 0 <= k < i ==> l2.slots[k] == lot.slots[k];
  }

  /** A car that has held its slot since `t` and leaves an hour later pays the base rate only. */
  lemma LeaveAfterAnHour(lot: Lot, vehicleId: string, size: VehicleModel.SizeClass, i: nat, t: int)
    requires HeldSince(lot, vehicleId, size, i, t)
    ensures Unpark(lot, vehicleId, Some(t + HOUR_MS), t).1 == Some(40.0)
  {
    TenancyProperties.UnparkParked(lot, vehicleId, Some(t + HOUR_MS), t);
    Billing.FeeFollowsTariff(t, 1, 0, 0, size);
  }

  /** A medium car parks on the empty lot in slot 2. */
  lemma MediumCarParks(t: int)
    ensures Park(TestLot(), "Car10", 1, 0, t).1 == Parked(2)
    ensures HeldSince(Park(TestLot(), "Car10", 1, 0, t).0, "Car10", 1, 2, t)
  {
    var l0 := TestLot();
    FirstMediumCarGetsSlotTwo("Car10", t);
    TenancyProperties.ParkNewVehicle(l0, "Car10", 1, 0, t);
    var l1 := Park(l0, "Car10", 1, 0, t).0;
    LayoutKeepsReach(l1.slots, l0.slots, 0);
    assert forall k :: 0 <= k < 2 ==> l1.slots[k] == l0.slots[k];
  }

  /**
   * Then it leaves and comes back twice within the grace window, gets slot 2
   * every time, and leaving an hour after the first entry costs the base
   * rate only.
   */
  lemma RepeatedReparks(l1: Lot, t: int)
    requires HeldSince(l1, "Car10", 1, 2, t)
    ensures var l2 := Unpark(l1, "Car10", None, t).0;
            && Inv(l2) && Allocation.Reaches(l2.slots, 0)
            && var (l3, r3) := Park(l2, "Car10", 1, 0, t);
               var l4 := Unpark(l3, "Car10", None, t).0;
               && r3 == Parked(2) && Inv(l3) && Inv(l4) && Allocation.Reaches(l4.slots, 0)
               && var (l5, r5) := Park(l4, "Car10", 1, 0, t);
                  && r5 == Parked(2) && Inv(l5)
                  && Unpark(l5, "Car10", Some(t + HOUR_MS), t).1 == Some(40.0)
  {
    LeaveAndReturn(l1, "Car10", 1, 2, t);
    var l3 := Park(Unpark(l1, "Car10", None, t).0, "Car10", 1, 0, t).0;
    LeaveAndReturn(l3, "Car10", 1, 2, t);
    var l5 := Park(Unpark(l3, "Car10", None, t).0, "Car10", 1, 0, t).0;
    LeaveAfterAnHour(l5, "Car10", 1, 2, t);
  }

  /**
   * A lot laid out as the scenarios' lot, with slot `i` occupied exactly when
   * `o<i>` holds; stated field by field so that the scenarios below reason
   * about it symbolically.
   */
  predicate TestLayout(lot: Lot, o0: bool, o1: bool, o2: bool, o3: bool)
  {
    && Inv(lot) && |lot.slots| == 4
    && (forall i :: 0 <= i < 4 ==> |lot.slots[i].distances| == 3)
    && lot.slots[0].isOccupied == o0 && lot.slots[1].isOccupied == o1
    && lot.slots[2].isOccupied == o2 && lot.slots[3].isOccupied == o3
    && lot.slots[0].size == 0 && lot.slots[1].size == 1 && lot.slots[2].size == 1 && lot.slots[3].size == 2
    && lot.slots[0].distances[0] == 1 && lot.slots[1].distances[0] == 3
    && lot.slots[2].distances[0] == 2 && lot.slots[3].distances[0] == 5
  }

  lemma TestLotLayout()
    ensures TestLayout(TestLot(), false, false, false, false) && TestLot().vehicles == map[]
  {
  }

  /** The vehicle record of a car that has just entered at `t`. */
  function Arrival(vehicleId: string, vehicleSize: VehicleModel.SizeClass, t: int): VehicleModel.VehicleState
  {
    VehicleModel.VehicleState(vehicleId, vehicleSize, Some(t), None, None, None)
  }

  /** Seating a newly arrived car keeps the layout and marks its slot. */
  lemma SeatArrival(lot: Lot, o0: bool, o1: bool, o2: bool, o3: bool,
                     vehicleId: string, vehicleSize: VehicleModel.SizeClass, t: int, i: nat)
    requires TestLayout(lot, o0, o1, o2, o3) && i < 4 && !lot.slots[i].isOccupied
    ensures TestLayout(Seat(lot, vehicleId, Arrival(vehicleId, vehicleSize, t), i),
                       o0 || i == 0, o1 || i == 1, o2 || i == 2, o3 || i == 3)
    ensures Allocation.Reaches(Seat(lot, vehicleId, Arrival(vehicleId, vehicleSize, t), i).slots, 0)
    ensures Seat(lot, vehicleId, Arrival(vehicleId, vehicleSize, t), i).vehicles.Keys == lot.vehicles.Keys + {vehicleId}
  {
    SeatKeepsInv(lot, vehicleId, Arrival(vehicleId, vehicleSize, t), i);
  }

  /** The first small car of the day takes slot 0. */
  lemma FirstSmallCar(lot: Lot, vehicleId: string, t: int)
    requires TestLayout(lot, false, false, false, false) && vehicleId !in lot.vehicles
    ensures Allocation.Reaches(lot.slots, 0)
    ensures Park(lot, vehicleId, 0, 0, t) == (Seat(lot, vehicleId, Arrival(vehicleId, 0, t), 0), Parked(0))
  {
    TenancyProperties.NewVehicleTakesNearest(lot, vehicleId, 0, 0, t, 0);
  }

  /** With slot 0 taken, a small car takes slot 2, nearer than slot 1. */
  lemma SecondSmallCar(lot: Lot, vehicleId: string, t: int)
    requires TestLayout(lot, true, false, false, false) && vehicleId !in lot.vehicles
    ensures Allocation.Reaches(lot.slots, 0)
    ensures Park(lot, vehicleId, 0, 0, t) == (Seat(lot, vehicleId, Arrival(vehicleId, 0, t), 2), Parked(2))
  {
    forall j | 0 <= j < 4 && Allocation.Suitable(lot.slots[j], 0)
      ensures Allocation.Distance(lot.slots, 0, 2) <= Allocation.Distance(lot.slots, 0, j)
    {
      assert j != 0;
    }
    TenancyProperties.NewVehicleTakesNearest(lot, vehicleId, 0, 0, t, 2);
  }

  /** With slots 0 and 2 taken, a small car takes slot 1. */
  lemma ThirdSmallCar(lot: Lot, vehicleId: string, t: int)
    requires TestLayout(lot, true, false, true, false) && vehicleId !in lot.vehicles
    ensures Allocation.Reaches(lot.slots, 0)
    ensures Park(lot, vehicleId, 0, 0, t) == (Seat(lot, vehicleId, Arrival(vehicleId, 0, t), 1), Parked(1))
  {
    forall j | 0 <= j < 4 && Allocation.Suitable(lot.slots[j], 0)
      ensures Allocation.Distance(lot.slots, 0, 1) <= Allocation.Distance(lot.slots, 0, j)
    {
      assert j != 0 && j != 2;
    }
    TenancyProperties.NewVehicleTakesNearest(lot, vehicleId, 0, 0, t, 1);
  }

  /** With slots 0, 1 and 2 taken, any car takes the large slot 3. */
  lemma FourthCar(lot: Lot, vehicleId: string, vehicleSize: VehicleModel.SizeClass, t: int)
    requires TestLayout(lot, true, true, true, false) && vehicleId !in lot.vehicles
    ensures Allocation.Reaches(lot.slots, 0)
    ensures Park(lot, vehicleId, vehicleSize, 0, t) == (Seat(lot, vehicleId, Arrival(vehicleId, vehicleSize, t), 3), Parked(3))
  {
    forall j | 0 <= j < 4 && Allocation.Suitable(lot.slots[j], vehicleSize)
      ensures Allocation.Distance(lot.slots, 0, 3) <= Allocation.Distance(lot.slots, 0, j)
    {
      assert j == 3;
    }
    TenancyProperties.NewVehicleTakesNearest(lot, vehicleId, vehicleSize, 0, t, 3);
  }

  /** On a full lot a new car is turned away and nothing changes. */
  lemma FullLot(lot: Lot, vehicleId: string, vehicleSize: VehicleModel.SizeClass, t: int)
    requires TestLayout(lot, true, true, true, true) && vehicleId !in lot.vehicles
    ensures Allocation.Reaches(lot.slots, 0)
    ensures Park(lot, vehicleId, vehicleSize, 0, t).1 == NoSlot
    ensures Park(lot, vehicleId, vehicleSize, 0, t).0.slots == lot.slots
  {
    TenancyProperties.ParkNewVehicle(lot, vehicleId, vehicleSize, 0, t);
  }

  /** Every registered id is a four-character name whose last character comes before `n`. */
  predicate RegisteredBefore(lot: Lot, n: char)
  {
    forall id :: id in lot.vehicles ==> |id| == 4 && id[3] < n
  }

  /**
   * The capacity scenario, one car at a time.  Car 5, small, entering the
   * empty lot at point 0 takes slot 0.  Stated for any lot laid out as the
   * scenarios' lot, `TestLot()` among them (`TestLotLayout`).
   */
  lemma ScenarioCar5(l0: Lot, t: int)
    requires TestLayout(l0, false, false, false, false) && l0.vehicles == map[]
    ensures var l1 := Seat(l0, "Car5", Arrival("Car5", 0, t), 0);
            && Allocation.Reaches(l0.slots, 0) && Park(l0, "Car5", 0, 0, t) == (l1, Parked(0))
            && TestLayout(l1, true, false, false, false) && RegisteredBefore(l1, '6')
  {
    FirstSmallCar(l0, "Car5", t);
    SeatArrival(l0, false, false, false, false, "Car5", 0, t, 0);
  }

  /** Then car 6, small, takes slot 2. */
  lemma ScenarioCar6(l1: Lot, t: int)
    requires TestLayout(l1, true, false, false, false) && RegisteredBefore(l1, '6')
    ensures var l2 := Seat(l1, "Car6", Arrival("Car6", 0, t), 2);
            && Allocation.Reaches(l1.slots, 0) && Park(l1, "Car6", 0, 0, t) == (l2, Parked(2))
            && TestLayout(l2, true, false, true, false) && RegisteredBefore(l2, '7')
  {
    assert "Car6"[3] == '6';
    SecondSmallCar(l1, "Car6", t);
    SeatArrival(l1, true, false, false, false, "Car6", 0, t, 2);
  }

  /** Then car 7, small, takes slot 1. */
  lemma ScenarioCar7(l2: Lot, t: int)
    requires TestLayout(l2, true, false, true, false) && RegisteredBefore(l2, '7')
    ensures var l3 := Seat(l2, "Car7", Arrival("Car7", 0, t), 1);
            && Allocation.Reaches(l2.slots, 0) && Park(l2, "Car7", 0, 0, t) == (l3, Parked(1))
            && TestLayout(l3, true, true, true, false) && RegisteredBefore(l3, '8')
  {
    assert "Car7"[3] == '7';
    ThirdSmallCar(l2, "Car7", t);
    SeatArrival(l2, true, false, true, false, "Car7", 0, t, 1);
  }

  /** Then car 8 takes slot 3, whether it is large or small. */
  lemma ScenarioCar8(l3: Lot, size8: VehicleModel.SizeClass, t: int)
    requires TestLayout(l3, true, true, true, false) && RegisteredBefore(l3, '8')
    ensures var l4 := Seat(l3, "Car8", Arrival("Car8", size8, t), 3);
            && Allocation.Reaches(l3.slots, 0) && Park(l3, "Car8", size8, 0, t) == (l4, Parked(3))
            && TestLayout(l4, true, true, true, true) && RegisteredBefore(l4, '9')
  {
    assert "Car8"[3] == '8';
    FourthCar(l3, "Car8", size8, t);
    SeatArrival(l3, true, true, true, false, "Car8", size8, t, 3);
  }

  /** Then car 9 finds the lot full. */
  lemma ScenarioCar9(l4: Lot, t: int)
    requires TestLayout(l4, true, true, true, true) && RegisteredBefore(l4, '9')
    ensures Allocation.Reaches(l4.slots, 0) && Park(l4, "Car9", 0, 0, t).1 == NoSlot
  {
    assert "Car9"[3] == '9';
    FullLot(l4, "Car9", 0, t);
  }
}
