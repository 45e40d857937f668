/**
 * The parking slot record. Its identity, size class and distance vector are
 * fixed at construction; the lot service flips `isOccupied` and stamps
 * `lastVehicleId` in place (the stamp is a field the service attaches to the
 * record, so it is declared here).
 */
module SlotModel {
  import opened Wrappers

  /** The value a slot holds at one moment. */
  datatype SlotState = SlotState(
    slotId: nat,
    size: int,              // 0: Small, 1: Medium, 2: Large
    distances: seq<int>,    // one distance per entry point
    isOccupied: bool,
    lastVehicleId: Option<string>)

  class ParkingSlot {
    const slotId: nat
    const size: int
    const distances: seq<int>
    var isOccupied: bool
    var lastVehicleId: Option<string>

    /** A new slot keeps the given id, size and distances and starts free and unstamped. */
    constructor(slotId: nat, size: int, distances: seq<int>)
      ensures State() == SlotState(slotId, size, distances, false, None)
    {
      this.slotId := slotId;
      this.size := size;
      this.distances := distances;
      this.isOccupied := false;
      this.lastVehicleId := None;
    }

    function State(): SlotState
      reads this
    {
      SlotState(slotId, size, distances, isOccupied, lastVehicleId)
    }
  }
}
