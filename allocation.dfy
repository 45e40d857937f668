/**
 * Slot selection, read-only over a snapshot of the slots. `FindNearestSlot`
 * filters the free slots that are large enough and stable-sorts them by their
 * distance to the entry point; the head of that order is the answer. Any
 * stable sort gives the same order, so insertion sort stands in for the
 * runtime's. `PreviousSlot` is the scan for a free slot this vehicle last
 * vacated.
 */
module Allocation {
  import opened Wrappers
  import opened SlotModel

  /** A slot that may take a vehicle of `vehicleSize`. */
  predicate Suitable(slot: SlotState, vehicleSize: int)
  {
    !slot.isOccupied && slot.size >= vehicleSize
  }

  /** Every slot has a distance for `entryPoint`. */
  predicate Reaches(slots: seq<SlotState>, entryPoint: nat)
  {
    forall i :: 0 <= i < |slots| ==> entryPoint < |slots[i].distances|
  }

  predicate Indices(slots: seq<SlotState>, c: seq<nat>)
  {
    forall k :: 0 <= k < |c| ==> c[k] < |slots|
  }

  function Distance(slots: seq<SlotState>, entryPoint: nat, i: nat): int
    requires Reaches(slots, entryPoint) && i < |slots|
  {
    slots[i].distances[entryPoint]
  }

  /** The suitable slots among the first `n`, in slot order. */
  function SuitableBelow(slots: seq<SlotState>, vehicleSize: int, n: nat): (r: seq<nat>)
    requires n <= |slots|
    ensures forall k :: 0 <= k < |r| ==> r[k] < n && Suitable(slots[r[k]], vehicleSize)
    ensures forall i :: 0 <= i < n && Suitable(slots[i], vehicleSize) ==> i in r
    ensures forall k, l :: 0 <= k < l < |r| ==> r[k] < r[l]
  {
    if n == 0 then []
    else
      var prefix := SuitableBelow(slots, vehicleSize, n - 1);
      if Suitable(slots[n - 1], vehicleSize) then prefix + [n - 1] else prefix
  }

  /** Places `x` before the first element that is not nearer than it. */
  function Insert(slots: seq<SlotState>, entryPoint: nat, x: nat, sorted: seq<nat>): (r: seq<nat>)
    requires Reaches(slots, entryPoint) && x < |slots| && Indices(slots, sorted)
    ensures multiset(r) == multiset(sorted) + multiset{x}
    ensures |r| == |sorted| + 1 && Indices(slots, r)
  {
    if sorted == [] || Distance(slots, entryPoint, x) <= Distance(slots, entryPoint, sorted[0]) then
      [x] + sorted
    else
      assert sorted == [sorted[0]] + sorted[1..];
      [sorted[0]] + Insert(slots, entryPoint, x, sorted[1..])
  }

  /** Orders slot indices by distance to `entryPoint`, keeping ties in input order. */
  function StableSort(slots: seq<SlotState>, entryPoint: nat, c: seq<nat>): (r: seq<nat>)
    requires Reaches(slots, entryPoint) && Indices(slots, c)
    ensures multiset(r) == multiset(c)
    ensures |r| == |c| && Indices(slots, r)
  {
    if c == [] then []
    else
      assert c == [c[0]] + c[1..];
      Insert(slots, entryPoint, c[0], StableSort(slots, entryPoint, c[1..]))
  }

  predicate SortedByDistance(slots: seq<SlotState>, entryPoint: nat, r: seq<nat>)
    requires Reaches(slots, entryPoint) && Indices(slots, r)
  {
    forall k, l :: 0 <= k < l < |r| ==> Distance(slots, entryPoint, r[k]) <= Distance(slots, entryPoint, r[l])
  }

  lemma {:induction false} InsertKeepsOrder(slots: seq<SlotState>, entryPoint: nat, x: nat, sorted: seq<nat>)
    requires Reaches(slots, entryPoint) && x < |slots| && Indices(slots, sorted)
    requires SortedByDistance(slots, entryPoint, sorted)
    ensures SortedByDistance(slots, entryPoint, Insert(slots, entryPoint, x, sorted))
    decreases |sorted|
  {
    if sorted != [] && Distance(slots, entryPoint, x) > Distance(slots, entryPoint, sorted[0]) {
      var tail := Insert(slots, entryPoint, x, sorted[1..]);
      InsertKeepsOrder(slots, entryPoint, x, sorted[1..]);
      forall k | 0 <= k < |tail|
        ensures Distance(slots, entryPoint, sorted[0]) <= Distance(slots, entryPoint, tail[k])
      {
        assert tail[k] in multiset(sorted[1..]) + multiset{x};
        if tail[k] != x {
          assert tail[k] in sorted[1..];
        }
      }
    }
  }

  /** The stable sort yields slots in non-decreasing distance. */
  lemma {:induction false} StableSortIsSorted(slots: seq<SlotState>, entryPoint: nat, c: seq<nat>)
    requires Reaches(slots, entryPoint) && Indices(slots, c)
    ensures SortedByDistance(slots, entryPoint, StableSort(slots, entryPoint, c))
    decreases |c|
  {
    if c != [] {
      StableSortIsSorted(slots, entryPoint, c[1..]);
      InsertKeepsOrder(slots, entryPoint, c[0], StableSort(slots, entryPoint, c[1..]));
    }
  }

  /** `h` is at least as near as every element of `c`. */
  predicate NearestOf(slots: seq<SlotState>, entryPoint: nat, h: nat, c: seq<nat>)
    requires Reaches(slots, entryPoint) && h < |slots| && Indices(slots, c)
  {
    forall k :: 0 <= k < |c| ==> Distance(slots, entryPoint, h) <= Distance(slots, entryPoint, c[k])
  }

  /** Every element of `c` before position `p` is strictly farther than `c[p]`. */
  predicate EarliestAt(slots: seq<SlotState>, entryPoint: nat, c: seq<nat>, p: nat)
    requires Reaches(slots, entryPoint) && Indices(slots, c) && p < |c|
  {
    forall k :: 0 <= k < p ==> Distance(slots, entryPoint, c[p]) < Distance(slots, entryPoint, c[k])
  }

  lemma HeadIsNewElement(slots: seq<SlotState>, entryPoint: nat, x: nat, rest: seq<nat>, h: nat)
    requires Reaches(slots, entryPoint) && x < |slots| && h < |slots| && Indices(slots, rest)
    requires NearestOf(slots, entryPoint, h, rest)
    requires Distance(slots, entryPoint, x) <= Distance(slots, entryPoint, h)
    ensures NearestOf(slots, entryPoint, x, [x] + rest)
  {
    var c := [x] + rest;
    forall k | 1 <= k < |c|
      ensures Distance(slots, entryPoint, x) <= Distance(slots, entryPoint, c[k])
    {
      assert c[k] == rest[k - 1];
    }
  }

  lemma OldHeadStaysNearest(slots: seq<SlotState>, entryPoint: nat, x: nat, rest: seq<nat>, h: nat)
    requires Reaches(slots, entryPoint) && x < |slots| && h < |slots| && Indices(slots, rest)
    requires NearestOf(slots, entryPoint, h, rest)
    requires Distance(slots, entryPoint, x) > Distance(slots, entryPoint, h)
    ensures NearestOf(slots, entryPoint, h, [x] + rest)
  {
    var c := [x] + rest;
    forall k | 1 <= k < |c|
      ensures Distance(slots, entryPoint, h) <= Distance(slots, entryPoint, c[k])
    {
      assert c[k] == rest[k - 1];
    }
  }

  lemma OldHeadStaysEarliest(slots: seq<SlotState>, entryPoint: nat, x: nat, rest: seq<nat>, p: nat)
    requires Reaches(slots, entryPoint) && x < |slots| && Indices(slots, rest) && p < |rest|
    requires EarliestAt(slots, entryPoint, rest, p)
    requires Distance(slots, entryPoint, x) > Distance(slots, entryPoint, rest[p])
    ensures EarliestAt(slots, entryPoint, [x] + rest, p + 1)
  {
    var c := [x] + rest;
    forall k | 1 <= k < p + 1
      ensures Distance(slots, entryPoint, c[p + 1]) < Distance(slots, entryPoint, c[k])
    {
      assert c[k] == rest[k - 1] && c[p + 1] == rest[p];
    }
  }

  /**
   * The head of the stable sort is nearest of all and stands at position `p`
   * of `c`, before which every element is strictly farther.
   */
  lemma {:induction false} StableSortHead(slots: seq<SlotState>, entryPoint: nat, c: seq<nat>) returns (p: nat)
    requires Reaches(slots, entryPoint) && Indices(slots, c) && c != []
    ensures p < |c| && c[p] == StableSort(slots, entryPoint, c)[0]
    ensures NearestOf(slots, entryPoint, c[p], c)
    ensures EarliestAt(slots, entryPoint, c, p)
    decreases |c|
  {
    var r := StableSort(slots, entryPoint, c);
    var x, rest := c[0], c[1..];
    assert c == [x] + rest;
    if rest == [] {
      assert r == [x];
      HeadIsNewElement(slots, entryPoint, x, rest, x);
      p := 0;
    } else {
      var q := StableSortHead(slots, entryPoint, rest);
      var h := rest[q];
      if Distance(slots, entryPoint, x) <= Distance(slots, entryPoint, h) {
        assert r[0] == x;
        HeadIsNewElement(slots, entryPoint, x, rest, h);
        p := 0;
      } else {
        assert r[0] == h;
        OldHeadStaysNearest(slots, entryPoint, x, rest, h);
        OldHeadStaysEarliest(slots, entryPoint, x, rest, q);
        p := q + 1;
      }
    }
  }

  /**
   * `findNearestSlot`: none exactly when no slot is free and large enough;
   * otherwise a suitable slot at the least distance, and no suitable slot
   * before it is as near.
   */
  function FindNearestSlot(slots: seq<SlotState>, vehicleSize: int, entryPoint: nat): (r: Option<nat>)
    requires Reaches(slots, entryPoint)
    ensures r.None? <==> forall i :: 0 <= i < |slots| ==> !Suitable(slots[i], vehicleSize)
    ensures r.Some? ==> r.value < |slots| && Suitable(slots[r.value], vehicleSize)
    ensures r.Some? ==> forall i :: 0 <= i < |slots| && Suitable(slots[i], vehicleSize) ==>
                          Distance(slots, entryPoint, r.value) <= Distance(slots, entryPoint, i)
    ensures r.Some? ==> forall i :: 0 <= i < r.value && Suitable(slots[i], vehicleSize) ==>
                          Distance(slots, entryPoint, r.value) < Distance(slots, entryPoint, i)
  {
    var suitable := SuitableBelow(slots, vehicleSize, |slots|);
    var sorted := StableSort(slots, entryPoint, suitable);
    if |sorted| > 0 then
      NearestComesFirst(slots, vehicleSize, entryPoint);
      Some(sorted[0])
    else
      None
  }

  lemma NearestComesFirst(slots: seq<SlotState>, vehicleSize: int, entryPoint: nat)
    requires Reaches(slots, entryPoint)
    requires StableSort(slots, entryPoint, SuitableBelow(slots, vehicleSize, |slots|)) != []
    ensures var c := SuitableBelow(slots, vehicleSize, |slots|);
            var h := StableSort(slots, entryPoint, c)[0];
            && h < |slots| && Suitable(slots[h], vehicleSize)
            && (forall i :: 0 <= i < |slots| && Suitable(slots[i], vehicleSize) ==>
                  Distance(slots, entryPoint, h) <= Distance(slots, entryPoint, i))
            && (forall i :: 0 <= i < h && Suitable(slots[i], vehicleSize) ==>
                  Distance(slots, entryPoint, h) < Distance(slots, entryPoint, i))
  {
    var c := SuitableBelow(slots, vehicleSize, |slots|);
    var p := StableSortHead(slots, entryPoint, c);
    HeadIsNearestSuitable(slots, vehicleSize, entryPoint, c, p);
    HeadIsEarliestSuitable(slots, vehicleSize, entryPoint, c, p);
  }

  lemma HeadIsNearestSuitable(slots: seq<SlotState>, vehicleSize: int, entryPoint: nat, c: seq<nat>, p: nat)
    requires Reaches(slots, entryPoint) && c == SuitableBelow(slots, vehicleSize, |slots|)
    requires p < |c| && NearestOf(slots, entryPoint, c[p], c)
    ensures forall i :: 0 <= i < |slots| && Suitable(slots[i], vehicleSize) ==>
              Distance(slots, entryPoint, c[p]) <= Distance(slots, entryPoint, i)
  {
    forall i | 0 <= i < |slots| && Suitable(slots[i], vehicleSize)
      ensures Distance(slots, entryPoint, c[p]) <= Distance(slots, entryPoint, i)
    {
      var k :| 0 <= k < |c| && c[k] == i;
    }
  }

  lemma HeadIsEarliestSuitable(slots: seq<SlotState>, vehicleSize: int, entryPoint: nat, c: seq<nat>, p: nat)
    requires Reaches(slots, entryPoint) && c == SuitableBelow(slots, vehicleSize, |slots|)
    requires p < |c| && EarliestAt(slots, entryPoint, c, p)
    ensures forall i :: 0 <= i < c[p] && Suitable(slots[i], vehicleSize) ==>
              Distance(slots, entryPoint, c[p]) < Distance(slots, entryPoint, i)
  {
    forall i | 0 <= i < c[p] && Suitable(slots[i], vehicleSize)
      ensures Distance(slots, entryPoint, c[p]) < Distance(slots, entryPoint, i)
    {
      var k :| 0 <= k < |c| && c[k] == i;
      IncreasingPositions(c, k, p);
    }
  }

  /** In a strictly increasing list, a smaller element stands earlier. */
  lemma IncreasingPositions(c: seq<nat>, k: nat, p: nat)
    requires forall a, b :: 0 <= a < b < |c| ==> c[a] < c[b]
    requires k < |c| && p < |c| && c[k] < c[p]
    ensures k < p
  {
  }

  /**
   * Any suitable slot that is nearest and has no equally near suitable slot
   * before it is the one `FindNearestSlot` picks.
   */
  lemma FindNearestSlotIsUnique(slots: seq<SlotState>, vehicleSize: int, entryPoint: nat, i: nat)
    requires Reaches(slots, entryPoint) && i < |slots| && Suitable(slots[i], vehicleSize)
    requires forall j :: 0 <= j < |slots| && Suitable(slots[j], vehicleSize) ==>
               Distance(slots, entryPoint, i) <= Distance(slots, entryPoint, j)
    requires forall j :: 0 <= j < i && Suitable(slots[j], vehicleSize) ==>
               Distance(slots, entryPoint, i) < Distance(slots, entryPoint, j)
    ensures FindNearestSlot(slots, vehicleSize, entryPoint) == Some(i)
  {
  }

  /** A slot this vehicle left that nobody has taken since. */
  predicate Reclaimable(slot: SlotState, vehicleId: string)
  {
    slot.lastVehicleId == Some(vehicleId) && !slot.isOccupied
  }

  /** The first reclaimable slot at index `from` or later. */
  function PreviousSlotFrom(slots: seq<SlotState>, vehicleId: string, from: nat): (r: Option<nat>)
    requires from <= |slots|
    ensures r.None? <==> forall i :: from <= i < |slots| ==> !Reclaimable(slots[i], vehicleId)
    ensures r.Some? ==> from <= r.value < |slots| && Reclaimable(slots[r.value], vehicleId)
    ensures r.Some? ==> forall i :: from <= i < r.value ==> !Reclaimable(slots[i], vehicleId)
    decreases |slots| - from
  {
    if from == |slots| then None
    else if Reclaimable(slots[from], vehicleId) then Some(from)
    else PreviousSlotFrom(slots, vehicleId, from + 1)
  }

  /** `slots.find(slot => slot.lastVehicleId === vehicleId && !slot.isOccupied)`, as an index. */
  function PreviousSlot(slots: seq<SlotState>, vehicleId: string): Option<nat>
  {
    PreviousSlotFrom(slots, vehicleId, 0)
  }
}
