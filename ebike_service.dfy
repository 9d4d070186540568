/** The e-bike service of the first iteration (ebike-microservice
    `application/EBikeServiceImpl.java`): creating, recharging and updating an
    e-bike in answer to an event. The repository is the map from bike id to
    the stored bike, read before the call; what the service hands back is
    also what it writes to the repository and publishes as an update. */
module EBikeService {
  import opened Common
  import Bikes

  /** The e-bike states the service names. */
  datatype EBikeState = Available | InUse | Maintenance

  /** `Enum.name()`. */
  function Name(s: EBikeState): string
  {
    match s
    case Available => "AVAILABLE"
    case InUse => "IN_USE"
    case Maintenance => "MAINTENANCE"
  }

  /** The e-bike as the service stores it. */
  datatype EBike = EBike(id: string, location: Bikes.P2d, state: EBikeState, batteryLevel: Int32)

  /** The events the service is handed; any other event type is `OtherEvent`. */
  datatype Event =
    | EBikeCreate(ebikeId: string, x: real, y: real)
    | EBikeRecharge(ebikeId: string)
    | RequestEBikeUpdate(bikeId: string, bikeX: real, bikeY: real, bikeState: string, bikeBattery: Int32)
    | OtherEvent

  const TypeMismatch: string := "Event type mismatch"
  const NotFound: string := "eBike not found"
  const FullBattery: Int32 := 100

  /** The message of the exception `EBikeState.valueOf` throws for a name that
      is not a constant. */
  function NoConstant(name: string): string
  {
    "No enum constant domain.model.EBikeState." + name
  }

  /** `EBikeState.valueOf`: the constant whose name is exactly `name`. */
  function ParseState(name: string): (r: Result<EBikeState>)
    ensures r.Ok? <==> exists s :: Name(s) == name
    ensures r.Ok? ==> Name(r.value) == name
    ensures r.Err? ==> r.msg == NoConstant(name)
  {
    if name == Name(Available) then Ok(Available)
    else if name == Name(InUse) then Ok(InUse)
    else if name == Name(Maintenance) then Ok(Maintenance)
    else Err(NoConstant(name))
  }

  /** `valueOf` inverts `name()`. */
  lemma ParseName(s: EBikeState)
    ensures ParseState(Name(s)) == Ok(s)
  {
  }

  /** Two states never share a name. */
  lemma NameInjective(s: EBikeState, t: EBikeState)
    ensures Name(s) == Name(t) <==> s == t
  {
  }

  /** A repository keyed by `_id`: each bike is stored under its own id. */
  predicate KeyedById(stored: map<string, EBike>)
  {
    forall k :: k in stored ==> stored[k].id == k
  }

  /** `createEBike`: a new bike, available and fully charged, at the
      requested coordinates. */
  function CreateEBike(e: Event): (r: Result<EBike>)
    ensures r.Err? <==> !e.EBikeCreate?
    ensures r.Err? ==> r.msg == TypeMismatch
    ensures r.Ok? ==> r.value.id == e.ebikeId && r.value.location == Bikes.P2d(e.x, e.y)
    ensures r.Ok? ==> r.value.state == Available && r.value.batteryLevel == FullBattery
  {
    match e
    case EBikeCreate(id, x, y) => Ok(EBike(id, Bikes.P2d(x, y), Available, FullBattery))
    case _ => Err(TypeMismatch)
  }

  /** `rechargeEBike`: the stored bike, where it stands, made available and
      fully charged. */
  function RechargeEBike(e: Event, stored: map<string, EBike>): (r: Result<EBike>)
    ensures !e.EBikeRecharge? ==> r == Err(TypeMismatch)
    ensures e.EBikeRecharge? && e.ebikeId !in stored ==> r == Err(NotFound)
    ensures r.Ok? <==> e.EBikeRecharge? && e.ebikeId in stored
    ensures r.Ok? ==> r.value.id == stored[e.ebikeId].id
                      && r.value.location == stored[e.ebikeId].location
                      && r.value.state == Available && r.value.batteryLevel == FullBattery
  {
    match e
    case EBikeRecharge(id) =>
      if id !in stored then Err(NotFound)
      else
        var bike := stored[id];
        Ok(EBike(bike.id, bike.location, Available, FullBattery))
    case _ => Err(TypeMismatch)
  }

  /** `updateEBike`: the requested state is parsed before the bike is looked
      up; the stored bike keeps its id and takes the requested location and
      battery level, and a battery of 0 forces MAINTENANCE whatever state was
      requested. */
  function UpdateEBike(e: Event, stored: map<string, EBike>): (r: Result<EBike>)
    ensures !e.RequestEBikeUpdate? ==> r == Err(TypeMismatch)
    ensures e.RequestEBikeUpdate? && ParseState(e.bikeState).Err? ==> r == Err(NoConstant(e.bikeState))
    ensures e.RequestEBikeUpdate? && ParseState(e.bikeState).Ok? && e.bikeId !in stored ==> r == Err(NotFound)
    ensures r.Ok? <==> e.RequestEBikeUpdate? && ParseState(e.bikeState).Ok? && e.bikeId in stored
    ensures r.Ok? ==> r.value.id == stored[e.bikeId].id
                      && r.value.location == Bikes.P2d(e.bikeX, e.bikeY)
                      && r.value.batteryLevel == e.bikeBattery
    ensures r.Ok? && e.bikeBattery == 0 ==> r.value.state == Maintenance
    ensures r.Ok? && e.bikeBattery != 0 ==> Name(r.value.state) == e.bikeState
  {
    match e
    case RequestEBikeUpdate(id, x, y, stateName, battery) =>
      var requested := ParseState(stateName);
      if requested.Err? then Err(requested.msg)
      else if id !in stored then Err(NotFound)
      else
        var state := if battery == 0 then Maintenance else requested.value;
        Ok(EBike(stored[id].id, Bikes.P2d(x, y), state, battery))
    case _ => Err(TypeMismatch)
  }

  /** The repository after a successful operation: the bike is written under
      its id. */
  function Stored(stored: map<string, EBike>, bike: EBike): (s: map<string, EBike>)
    ensures KeyedById(stored) ==> KeyedById(s)
    ensures bike.id in s && s[bike.id] == bike
    ensures forall k :: k in stored && k != bike.id ==> k in s && s[k] == stored[k]
  {
    stored[bike.id := bike]
  }

  /** In a repository keyed by id, recharge and update return the bike with
      the id the event names, so writing it back replaces that bike. */
  lemma ResultKeepsRequestedId(e: Event, stored: map<string, EBike>)
    requires KeyedById(stored)
    ensures RechargeEBike(e, stored).Ok? ==> RechargeEBike(e, stored).value.id == e.ebikeId
    ensures UpdateEBike(e, stored).Ok? ==> UpdateEBike(e, stored).value.id == e.bikeId
  {
  }

  /** Recharging twice leaves the repository as recharging once. */
  lemma RechargeIdempotent(id: string, stored: map<string, EBike>)
    requires KeyedById(stored)
    requires id in stored
    ensures var once := Stored(stored, RechargeEBike(EBikeRecharge(id), stored).value);
            RechargeEBike(EBikeRecharge(id), once) == RechargeEBike(EBikeRecharge(id), stored)
            && Stored(once, RechargeEBike(EBikeRecharge(id), once).value) == once
  {
    var once := Stored(stored, RechargeEBike(EBikeRecharge(id), stored).value);
    assert RechargeEBike(EBikeRecharge(id), stored).value.id == id;
    assert once[id] == RechargeEBike(EBikeRecharge(id), stored).value;
  }

  /** After any successful update, even one that drained the battery to 0
      and forced MAINTENANCE, a recharge puts the bike back in service, fully
      charged and where the update left it. */
  lemma UpdateThenRecharge(e: Event, stored: map<string, EBike>)
    requires KeyedById(stored)
    requires UpdateEBike(e, stored).Ok?
    ensures var after := Stored(stored, UpdateEBike(e, stored).value);
            var r := RechargeEBike(EBikeRecharge(e.bikeId), after);
            r.Ok? && r.value.id == e.bikeId && r.value.location == Bikes.P2d(e.bikeX, e.bikeY)
            && r.value.state == Available && r.value.batteryLevel == FullBattery
  {
    var u := UpdateEBike(e, stored).value;
    assert u.id == e.bikeId;
    var after := Stored(stored, u);
    assert after[e.bikeId] == u;
  }

  /** A created bike can be recharged and updated afterwards: the repository
      finds it under the id the create event named. */
  lemma CreateThenUpdate(id: string, x: real, y: real, stored: map<string, EBike>, request: Event)
    requires request.RequestEBikeUpdate? && request.bikeId == id
    requires ParseState(request.bikeState).Ok?
    ensures var after := Stored(stored, CreateEBike(EBikeCreate(id, x, y)).value);
            UpdateEBike(request, after).Ok? && UpdateEBike(request, after).value.id == id
            && RechargeEBike(EBikeRecharge(id), after).Ok?
  {
    var created := CreateEBike(EBikeCreate(id, x, y)).value;
    assert created.id == id;
    var after := Stored(stored, created);
    assert id in after && after[id] == created;
  }

  /** The map service's view of an e-bike state. */
  function AsMapState(s: EBikeState): (t: Bikes.BikeState)
    ensures t != Bikes.AutonomousMoving
  {
    match s
    case Available => Bikes.Available
    case InUse => Bikes.InUse
    case Maintenance => Bikes.Maintenance
  }

  /** Every bike this service produces is one the map service's `EBike`
      constructor accepts, with the same id, state and battery. */
  lemma MapServiceAccepts(b: EBike)
    ensures var m := Bikes.NewEBike(b.id, b.location, AsMapState(b.state), b.batteryLevel);
            m.Ok? && m.value.id == b.id && m.value.battery == b.batteryLevel
            && m.value.state == AsMapState(b.state)
  {
  }
}
