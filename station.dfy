/** A docking station of the station service (station-microservice
    `domain/model/Station.java`): a fixed capacity and the set of ids of the
    bikes docked there. */
module Stations {
  import opened Common
  import Bikes

  const StationFull: string := "Station full"
  const AlreadyDocked: string := "Bike is already docked"
  const NotDockedHere: string := "Bike not docked here"

  /** The docking rule on the docked set: a full station refuses first, then
      a bike already docked; otherwise the id is added. */
  function Dock(docked: set<string>, capacity: int, bikeId: string): (r: Result<set<string>>)
  {
    if |docked| >= capacity then Err(StationFull)
    else if bikeId in docked then Err(AlreadyDocked)
    else Ok(docked + {bikeId})
  }

  /** The release rule on the docked set. */
  function Release(docked: set<string>, bikeId: string): (r: Result<set<string>>)
  {
    if bikeId !in docked then Err(NotDockedHere) else Ok(docked - {bikeId})
  }

  /** The station's invariant: never more bikes than its capacity (a station
      built with a negative capacity stays empty). */
  predicate WithinCapacity(docked: set<string>, capacity: int)
  {
    docked == {} || |docked| <= capacity
  }

  /** Docking succeeds exactly when there is a free slot and the bike is not
      there yet; it then adds that one id and keeps the capacity bound, and
      on failure the set is left as it was (the error is all that is returned). */
  lemma DockOutcome(docked: set<string>, capacity: int, bikeId: string)
    requires WithinCapacity(docked, capacity)
    ensures Dock(docked, capacity, bikeId).Ok? <==> |docked| < capacity && bikeId !in docked
    ensures |docked| >= capacity ==> Dock(docked, capacity, bikeId) == Err(StationFull)
    ensures |docked| < capacity && bikeId in docked ==> Dock(docked, capacity, bikeId) == Err(AlreadyDocked)
    ensures Dock(docked, capacity, bikeId).Ok? ==>
              var d := Dock(docked, capacity, bikeId).value;
              && bikeId in d && d - {bikeId} == docked && |d| == |docked| + 1
              && WithinCapacity(d, capacity)
  {
    if Dock(docked, capacity, bikeId).Ok? {
      var d := docked + {bikeId};
      assert d - {bikeId} == docked;
    }
  }

  /** Releasing succeeds exactly for a docked bike, removes only that id and
      keeps the capacity bound. */
  lemma ReleaseOutcome(docked: set<string>, capacity: int, bikeId: string)
    requires WithinCapacity(docked, capacity)
    ensures Release(docked, bikeId).Ok? <==> bikeId in docked
    ensures Release(docked, bikeId).Err? ==> Release(docked, bikeId).msg == NotDockedHere
    ensures Release(docked, bikeId).Ok? ==>
              var d := Release(docked, bikeId).value;
              && bikeId !in d && d + {bikeId} == docked && |d| == |docked| - 1
              && WithinCapacity(d, capacity)
  {
    if bikeId in docked {
      var d := docked - {bikeId};
      assert d + {bikeId} == docked;
    }
  }

  /** Docking a bike and releasing it again restores the docked set, and
      releasing a docked bike frees a slot that docking it again takes back. */
  lemma DockReleaseRoundTrip(docked: set<string>, capacity: int, bikeId: string)
    requires Dock(docked, capacity, bikeId).Ok?
    ensures Release(Dock(docked, capacity, bikeId).value, bikeId) == Ok(docked)
  {
    assert (docked + {bikeId}) - {bikeId} == docked;
  }

  lemma ReleaseDockRoundTrip(docked: set<string>, capacity: int, bikeId: string)
    requires WithinCapacity(docked, capacity) && bikeId in docked
    ensures Release(docked, bikeId).Ok?
    ensures Dock(Release(docked, bikeId).value, capacity, bikeId) == Ok(docked)
  {
    var d := docked - {bikeId};
    assert |d| == |docked| - 1;
    assert d + {bikeId} == docked;
  }

  class Station {
    const id: string
    const location: Bikes.P2d
    const capacity: Int32
    /** `dockedBikes`. */
    var docked: set<string>

    ghost predicate Valid()
      reads this
    {
      WithinCapacity(docked, capacity)
    }

    /** A new station has no bike docked. */
    constructor (id: string, location: Bikes.P2d, capacity: Int32)
      ensures Valid()
      ensures this.id == id && this.location == location && this.capacity == capacity
      ensures docked == {}
    {
      this.id := id;
      this.location := location;
      this.capacity := capacity;
      docked := {};
    }

    /** `getAvailableCapacity`: the free slots; under the invariant the
        32-bit subtraction never wraps. */
    function AvailableCapacity(): (r: Int32)
      reads this
      requires Valid()
      ensures r + |docked| == capacity
      ensures capacity >= 0 ==> r >= 0
      ensures forall b :: r > 0 <==> Dock(docked, capacity, b) != Err(StationFull)
    {
      capacity - |docked|
    }

    /** `dockBike`: the new docked set is the one the docking rule gives, and
        an error leaves it unchanged. */
    method DockBike(bikeId: string) returns (r: Result<()>)
      requires Valid()
      modifies this
      ensures Valid()
      ensures Dock(old(docked), capacity, bikeId).Ok? ==> r == Ok(()) && docked == Dock(old(docked), capacity, bikeId).value
      ensures Dock(old(docked), capacity, bikeId).Err? ==> r == Err(Dock(old(docked), capacity, bikeId).msg) && docked == old(docked)
    {
      if |docked| >= capacity {
        return Err(StationFull);
      }
      if bikeId in docked {
        return Err(AlreadyDocked);
      }
      docked := docked + {bikeId};
      r := Ok(());
    }

    /** `releaseBike`. */
    method ReleaseBike(bikeId: string) returns (r: Result<()>)
      requires Valid()
      modifies this
      ensures Valid()
      ensures Release(old(docked), bikeId).Ok? ==> r == Ok(()) && docked == Release(old(docked), bikeId).value
      ensures Release(old(docked), bikeId).Err? ==> r == Err(NotDockedHere) && docked == old(docked)
    {
      if bikeId !in docked {
        return Err(NotDockedHere);
      }
      docked := docked - {bikeId};
      r := Ok(());
    }
  }

  /** A new station of capacity one takes one bike and then refuses another
      as full; releasing a bike that is not docked is refused, releasing the
      docked one succeeds and frees the slot again. */
  method DockingScenario(a: string, b: string) returns (r1: Result<()>, r2: Result<()>, r3: Result<()>, r4: Result<()>, free: Int32)
    requires a != b
    ensures r1 == Ok(()) && r2 == Err(StationFull) && r3 == Err(NotDockedHere) && r4 == Ok(())
    ensures free == 1
  {
    var s := new Station("s1", Bikes.P2d(0.0, 0.0), 1);
    r1 := s.DockBike(a);
    r2 := s.DockBike(b);
    r3 := s.ReleaseBike(b);
    r4 := s.ReleaseBike(a);
    free := s.AvailableCapacity();
  }
}
