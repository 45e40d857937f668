/**
 * The vehicle record, keyed by its caller-supplied id. The lot service
 * overwrites `entryTime`, `lastExitTime` and `slot` in place; `slot` refers
 * to the slot object itself. Times are milliseconds since the epoch.
 */
module VehicleModel {
  import opened Wrappers
  import opened SlotModel

  /** 0: Small, 1: Medium, 2: Large — the sizes the hourly rate table covers. */
  type SizeClass = s: int | 0 <= s <= 2

  /** The value a vehicle holds at one moment; `slot` is the id of the referenced slot. */
  datatype VehicleState = VehicleState(
    vehicleId: string,
    size: SizeClass,
    entryTime: Option<int>,
    lastExitTime: Option<int>,
    slot: Option<nat>,
    lastParkingSlotId: Option<nat>)

  class Vehicle {
    const vehicleId: string
    const size: SizeClass
    var entryTime: Option<int>
    var lastExitTime: Option<int>
    var slot: ParkingSlot?
    var lastParkingSlotId: Option<nat>

    /** A new vehicle has its id and size, no time stamps, and is not parked. */
    constructor(vehicleId: string, size: SizeClass)
      ensures State() == VehicleState(vehicleId, size, None, None, None, None)
      ensures slot == null
    {
      this.vehicleId := vehicleId;
      this.size := size;
      this.entryTime := None;
      this.lastExitTime := None;
      this.slot := null;
      this.lastParkingSlotId := None;
    }

    function State(): VehicleState
      reads this
    {
      VehicleState(vehicleId, size, entryTime, lastExitTime,
                   if slot == null then None else Some(slot.slotId),
                   lastParkingSlotId)
    }
  }
}
