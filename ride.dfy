/** The ride service's domain objects (ride-microservice `domain/model/EBike.java`
    and `domain/model/Ride.java` under p-3): an e-bike whose battery drains
    during a ride, and a ride that is started once and ended at most once. */
module RideDomain {
  import opened Common
  import Bikes
  import RideProjectionP3

  /** `V2d`: a direction, only stored and copied. */
  datatype V2d = V2d(x: real, y: real)

  /** `Math.max(battery - amount, 0)` on Java `int`s. */
  function Drained(battery: Int32, amount: Int32): (r: Int32)
    ensures r >= 0
    ensures 0 <= battery && 0 <= amount ==> r == if battery - amount > 0 then battery - amount else 0
    ensures 0 <= battery && 0 <= amount ==> r <= battery
  {
    var d := Wrap32(battery - amount);
    if d > 0 then d else 0
  }

  /** Draining in two steps drains as much as draining by the sum at once. */
  lemma DrainedTwice(battery: Int32, a1: Int32, a2: Int32)
    requires 0 <= battery && 0 <= a1 && 0 <= a2 && a1 + a2 <= IntMax
    ensures Drained(Drained(battery, a1), a2) == Drained(battery, a1 + a2)
  {
  }

  /** Draining by nothing changes nothing, and an empty battery stays empty. */
  lemma DrainedFixpoints(battery: Int32, amount: Int32)
    requires 0 <= battery && 0 <= amount
    ensures Drained(battery, 0) == battery
    ensures battery == 0 ==> Drained(battery, amount) == 0
  {
  }

  /** The ride service's `EBike`. */
  class EBike {
    const id: string
    var state: Bikes.BikeState
    var location: Bikes.P2d
    var direction: V2d
    var speed: real
    var battery: Int32

    /** A new e-bike points along the x axis and stands still. */
    constructor (id: string, x: real, y: real, state: Bikes.BikeState, battery: Int32)
      ensures this.id == id && this.state == state && location == Bikes.P2d(x, y)
      ensures direction == V2d(1.0, 0.0) && speed == 0.0 && this.battery == battery
    {
      this.id := id;
      this.state := state;
      location := Bikes.P2d(x, y);
      direction := V2d(1.0, 0.0);
      speed := 0.0;
      this.battery := battery;
    }

    method SetState(s: Bikes.BikeState)
      modifies this
      ensures state == s
      ensures location == old(location) && direction == old(direction) && speed == old(speed) && battery == old(battery)
    {
      state := s;
    }

    method SetLocation(p: Bikes.P2d)
      modifies this
      ensures location == p
      ensures state == old(state) && direction == old(direction) && speed == old(speed) && battery == old(battery)
    {
      location := p;
    }

    method SetDirection(d: V2d)
      modifies this
      ensures direction == d
      ensures state == old(state) && location == old(location) && speed == old(speed) && battery == old(battery)
    {
      direction := d;
    }

    /** `getType()`. */
    function TypeName(): (t: string)
      ensures t == Bikes.EBikeType
    {
      Bikes.EBikeType
    }

    /** `decreaseBattery`: the battery drains to at least 0; an empty battery
        sends the bike to MAINTENANCE, otherwise the state is kept; nothing
        else changes. */
    method DecreaseBattery(amount: Int32)
      modifies this
      ensures battery == Drained(old(battery), amount) && battery >= 0
      ensures battery == 0 ==> state == Bikes.Maintenance
      ensures battery > 0 ==> state == old(state)
      ensures location == old(location) && direction == old(direction) && speed == old(speed)
    {
      var d := Wrap32(battery - amount);
      battery := if d > 0 then d else 0;
      if battery == 0 {
        state := Bikes.Maintenance;
      }
    }
  }

  /** The ride service's `Ride`. */
  class Ride {
    const id: string
    const user: RideProjectionP3.RideUser
    const bike: EBike
    /** `startTime` and `endTime`, as the clock's readings. */
    const startTime: string
    var endTime: Option<string>
    var ongoing: bool

    /** A new ride is not ongoing and has no end time. */
    constructor (id: string, user: RideProjectionP3.RideUser, bike: EBike, now: string)
      ensures this.id == id && this.user == user && this.bike == bike && startTime == now
      ensures endTime == None && !ongoing
    {
      this.id := id;
      this.user := user;
      this.bike := bike;
      startTime := now;
      endTime := None;
      ongoing := false;
    }

    /** `start`: the ride is ongoing and its bike IN_USE. */
    method Start()
      modifies this, bike
      ensures ongoing && bike.state == Bikes.InUse
      ensures endTime == old(endTime)
      ensures bike.battery == old(bike.battery) && bike.location == old(bike.location)
      ensures bike.direction == old(bike.direction) && bike.speed == old(bike.speed)
    {
      ongoing := true;
      bike.SetState(Bikes.InUse);
    }

    /** `end`: an ongoing ride records its end time and stops; a ride that is
        not ongoing is left as it is. */
    method End(now: string)
      modifies this
      ensures old(ongoing) ==> endTime == Some(now) && !ongoing
      ensures !old(ongoing) ==> endTime == old(endTime) && ongoing == old(ongoing)
    {
      if ongoing {
        endTime := Some(now);
        ongoing := false;
      }
    }
  }

  /** A ride started and ended keeps its first end time when ended again,
      and its bike stays IN_USE. */
  method RideLifecycle(user: RideProjectionP3.RideUser, t0: string, t1: string, t2: string)
      returns (before: bool, during: bool, after: bool, end1: Option<string>, end2: Option<string>, state: Bikes.BikeState)
    ensures !before && during && !after
    ensures end1 == Some(t1) && end2 == Some(t1)
    ensures state == Bikes.InUse
  {
    var b := new EBike("b1", 0.0, 0.0, Bikes.Available, 100);
    var r := new Ride("ride-" + user.username + "-b1", user, b, t0);
    before := r.ongoing;
    r.Start();
    during := r.ongoing;
    r.End(t1);
    end1 := r.endTime;
    r.End(t2);
    end2 := r.endTime;
    after := r.ongoing;
    state := b.state;
  }

  /** Draining a full battery by 60 keeps the bike's state; draining the
      remaining 40 by 50 stops at 0 and sends the bike to MAINTENANCE. */
  method DrainScenario() returns (b1: Int32, s1: Bikes.BikeState, b2: Int32, s2: Bikes.BikeState)
    ensures b1 == 40 && s1 == Bikes.InUse
    ensures b2 == 0 && s2 == Bikes.Maintenance
  {
    var b := new EBike("b1", 0.0, 0.0, Bikes.InUse, 100);
    b.DecreaseBattery(60);
    b1, s1 := b.battery, b.state;
    b.DecreaseBattery(50);
    b2, s2 := b.battery, b.state;
  }
}
