/** The ride service's admission rules (ride-microservice
    `application/RestRideServiceAPIImpl.java` under p-3): a ride start is
    checked against the projected bike and user in a fixed order, and only a
    start that passes every check registers a ride and is published. */
module RideService {
  import opened Common
  import Bikes
  import opened RideProjectionP3

  /** The events the service is handed. */
  datatype RideEvent =
    | RideStart(username: string, bikeId: string, bikeType: string, ts: string)
    | RideStop(username: string, bikeId: string, bikeType: string, ts: string)
    | RequestRideEnd(username: string, ts: string)
    | OtherEvent

  /** A registered ride: its user and its bike's id and kind. */
  datatype ActiveRide = ActiveRide(username: string, bikeId: string, bikeType: string)

  const InvalidEventType: string := "Invalid event type"
  const BikeNotFound: string := "Bike not found"
  const UserNotFound: string := "User not found"
  const EBikeNotAvailable: string := "EBike is not available"
  const ABikeNotMoving: string := "ABike is not in AUTHONOMOUS_MOVING state"
  const UnknownBikeType: string := "Unknown bike type"
  const NoCredit: string := "User has no credit"
  const NoBattery: string := "Bike has no battery"
  const NoActiveRide: string := "No active ride found"

  /** The id `startRide` gives a ride. */
  function RideId(username: string, bikeId: string): string
  {
    "ride-" + username + "-" + bikeId
  }

  /** The state a bike of each kind must be in to start a ride. */
  predicate Startable(b: Bikes.Bike)
  {
    if b.EBike? then b.state == Bikes.Available else b.state == Bikes.AutonomousMoving
  }

  /** The checks of `startRide`, in the source's order, on the bike and user
      the projections returned for the event's bike id, type and username;
      success yields the new ride's id. */
  function Admit(e: RideEvent, bike: Option<Bikes.Bike>, user: Option<RideUser>): Result<string>
  {
    if !e.RideStart? then Err(InvalidEventType)
    else if bike.None? then Err(BikeNotFound)
    else if user.None? then Err(UserNotFound)
    else
      var b := bike.value;
      var kind := Bikes.TypeOf(b);
      if EqualsIgnoreCase(Bikes.EBikeType, kind) && b.state != Bikes.Available then Err(EBikeNotAvailable)
      else if !EqualsIgnoreCase(Bikes.EBikeType, kind) && EqualsIgnoreCase(Bikes.ABikeType, kind)
              && b.state != Bikes.AutonomousMoving then Err(ABikeNotMoving)
      else if !EqualsIgnoreCase(Bikes.EBikeType, kind) && !EqualsIgnoreCase(Bikes.ABikeType, kind) then Err(UnknownBikeType)
      else if user.value.credit == 0 then Err(NoCredit)
      else if b.battery == 0 then Err(NoBattery)
      else Ok(RideId(e.username, e.bikeId))
  }

  /** What `startRide` answers: a ride id exactly when every check passes,
      otherwise the message of the first check that fails; the unknown-type
      branch is never reached, since every bike is of one of the two kinds. */
  lemma AdmitOutcome(e: RideEvent, bike: Option<Bikes.Bike>, user: Option<RideUser>)
    ensures Admit(e, bike, user).Ok? <==> (e.RideStart? && bike.Some? && user.Some? && Startable(bike.value)
                                           && user.value.credit != 0 && bike.value.battery != 0)
    ensures Admit(e, bike, user).Ok? ==> Admit(e, bike, user).value == RideId(e.username, e.bikeId)
    ensures !e.RideStart? ==> Admit(e, bike, user) == Err(InvalidEventType)
    ensures e.RideStart? && bike.None? ==> Admit(e, bike, user) == Err(BikeNotFound)
    ensures e.RideStart? && bike.Some? && user.None? ==> Admit(e, bike, user) == Err(UserNotFound)
    ensures e.RideStart? && bike.Some? && user.Some? && !Startable(bike.value) ==>
              Admit(e, bike, user) == Err(if bike.value.EBike? then EBikeNotAvailable else ABikeNotMoving)
    ensures e.RideStart? && bike.Some? && user.Some? && Startable(bike.value) && user.value.credit == 0 ==>
              Admit(e, bike, user) == Err(NoCredit)
    ensures (e.RideStart? && bike.Some? && user.Some? && Startable(bike.value) && user.value.credit != 0
             && bike.value.battery == 0) ==> Admit(e, bike, user) == Err(NoBattery)
    ensures Admit(e, bike, user).Err? ==> Admit(e, bike, user).msg != UnknownBikeType
  {
  }

  /** Only a zero credit is refused: a negative credit passes the check. */
  lemma NegativeCreditAdmitted(e: RideEvent, b: Bikes.Bike, u: RideUser)
    requires e.RideStart? && Startable(b) && b.battery != 0 && u.credit < 0
    ensures Admit(e, Some(b), Some(u)).Ok?
  {
  }

  class RideService {
    /** The projections the checks read. */
    const projection: Projection
    /** The ride repository: ride id to ride. */
    var rides: map<string, ActiveRide>
    /** The ride events published, in order. */
    var published: seq<RideEvent>

    constructor (projection: Projection)
      ensures this.projection == projection && rides == map[] && published == []
    {
      this.projection := projection;
      rides := map[];
      published := [];
    }

    /** The checks of `startRide` on the bike and the user the projections
        hold for the event. */
    function Admission(e: RideEvent): Result<string>
      reads projection
      requires projection.Valid()
    {
      if e.RideStart? then Admit(e, projection.GetBike(e.bikeId, e.bikeType), projection.GetUser(e.username))
      else Admit(e, None, None)
    }

    /** The ride an admitted start registers. */
    function Started(e: RideEvent): ActiveRide
      reads projection
      requires projection.Valid()
      requires Admission(e).Ok?
    {
      ActiveRide(e.username, e.bikeId, Bikes.TypeOf(projection.GetBike(e.bikeId, e.bikeType).value))
    }

    /** `startRide`: the checks on the projected bike and user; on success
        the ride is registered under its id and the start event published;
        on failure nothing changes. */
    method StartRide(e: RideEvent) returns (r: Result<()>)
      requires projection.Valid()
      modifies this
      ensures old(Admission(e)).Err? ==>
                r == Err(old(Admission(e)).msg) && rides == old(rides) && published == old(published)
      ensures old(Admission(e)).Ok? ==>
                && r == Ok(())
                && rides == old(rides)[old(Admission(e)).value := old(Started(e))]
                && published == old(published) + [e]
    {
      var a := Admission(e);
      if a.Err? {
        r := Err(a.msg);
      } else {
        var ride := Started(e);
        rides := rides[a.value := ride];
        published := published + [e];
        r := Ok(());
      }
    }

    /** `stopRide`: an end request for a user with a registered ride
        publishes the stop of that ride; the ride leaves the repository only
        when its simulation completes. */
    method StopRide(e: RideEvent, now: string) returns (r: Result<()>)
      modifies this
      ensures rides == old(rides)
      ensures !e.RequestRideEnd? ==> r == Err(InvalidEventType) && published == old(published)
      ensures e.RequestRideEnd? && (forall id :: id in rides ==> rides[id].username != e.username) ==>
                r == Err(NoActiveRide) && published == old(published)
      ensures e.RequestRideEnd? && (exists id :: id in rides && rides[id].username == e.username) ==>
                && r == Ok(())
                && exists id :: id in rides && rides[id].username == e.username
                     && published == old(published) + [RideStop(e.username, rides[id].bikeId, rides[id].bikeType, now)]
    {
      if !e.RequestRideEnd? {
        return Err(InvalidEventType);
      }
      if forall id :: id in rides ==> rides[id].username != e.username {
        return Err(NoActiveRide);
      }
      var id :| id in rides && rides[id].username == e.username;
      published := published + [RideStop(e.username, rides[id].bikeId, rides[id].bikeType, now)];
      r := Ok(());
    }
  }
}
