/** The bike value objects of the map service: the two kinds of bike, their
    states, and the guards their constructors apply
    (map-microservice `domain/model/ABike.java` and `EBike.java`). */
module Bikes {
  import opened Common

  /** `BikeState`. */
  datatype BikeState = Available | InUse | Maintenance | AutonomousMoving

  /** `P2d`: a position, only stored and copied. */
  datatype P2d = P2d(x: real, y: real)

  /** The `Bike` implementations the map service stores. */
  datatype Bike =
    | EBike(id: string, position: P2d, state: BikeState, battery: Int32)
    | ABike(id: string, position: P2d, battery: Int32, state: BikeState)

  const EBikeType: string := "ebike"
  const ABikeType: string := "abike"

  /** `getType()`. */
  function TypeOf(b: Bike): (t: string)
    ensures t == EBikeType <==> b.EBike?
    ensures t == ABikeType <==> b.ABike?
  {
    if b.EBike? then EBikeType else ABikeType
  }

  const IdMessage: string := "ID cannot be null or empty"
  const BatteryMessage: string := "Battery level must be between 0 and 100"
  const StateMessage: string := "State cannot be null"
  const AutonomousEBikeMessage: string := "EBike cannot be in AUTONOMOUS_MOVING state"

  /** What the `ABike` constructor guarantees of every instance. */
  predicate ValidABike(b: Bike)
  {
    b.ABike? && !IsBlank(b.id) && 0 <= b.battery <= 100
  }

  /** The `ABike` constructor: `null` id and `null` state are `None`; the
      three guards are tried in order and the first that fails is thrown. */
  function NewABike(id: Option<string>, position: P2d, battery: Int32, state: Option<BikeState>): (r: Result<Bike>)
    ensures r.Ok? <==> id.Some? && !IsBlank(id.value) && 0 <= battery <= 100 && state.Some?
    ensures r.Ok? ==> ValidABike(r.value) && r.value.id == id.value && r.value.position == position
                      && r.value.battery == battery && r.value.state == state.value
    ensures (id.None? || IsBlank(id.value)) ==> r == Err(IdMessage)
    ensures id.Some? && !IsBlank(id.value) && !(0 <= battery <= 100) ==> r == Err(BatteryMessage)
    ensures id.Some? && !IsBlank(id.value) && 0 <= battery <= 100 && state.None? ==> r == Err(StateMessage)
  {
    if id.None? || IsBlank(id.value) then Err(IdMessage)
    else if battery < 0 || battery > 100 then Err(BatteryMessage)
    else if state.None? then Err(StateMessage)
    else Ok(ABike(id.value, position, battery, state.value))
  }

  /** Every valid a-bike is exactly what the constructor builds from its own fields. */
  lemma NewABikeRoundTrip(b: Bike)
    requires ValidABike(b)
    ensures NewABike(Some(b.id), b.position, b.battery, Some(b.state)) == Ok(b)
  {
  }

  /** The `EBike` constructor of the map service: only AUTONOMOUS_MOVING is
      refused; every other state stores the fields as given. */
  function NewEBike(bikeName: string, position: P2d, state: BikeState, battery: Int32): (r: Result<Bike>)
    ensures r.Ok? <==> state != AutonomousMoving
    ensures r.Err? ==> r.msg == AutonomousEBikeMessage
    ensures r.Ok? ==> r.value.EBike? && r.value.id == bikeName && r.value.position == position
                      && r.value.state == state && r.value.battery == battery
  {
    if state == AutonomousMoving then Err(AutonomousEBikeMessage)
    else Ok(EBike(bikeName, position, state, battery))
  }

  /** `getId()` of an e-bike is its `bikeName`, and its `getType()` is "ebike". */
  lemma NewEBikeIdAndType(bikeName: string, position: P2d, state: BikeState, battery: Int32)
    requires state != AutonomousMoving
    ensures NewEBike(bikeName, position, state, battery).Ok?
    ensures NewEBike(bikeName, position, state, battery).value.id == bikeName
    ensures TypeOf(NewEBike(bikeName, position, state, battery).value) == EBikeType
  {
  }
}
