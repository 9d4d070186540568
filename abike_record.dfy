/** The a-bike record of the a-bike service (abike-microservice
    `domain/model/ABike.java`): a record whose compact constructor applies the
    same three guards as the map service's `ABike`. */
module ABikeRecord {
  import opened Common
  import Bikes

  /** `record ABike(String id, P2d position, int batteryLevel, ABikeState state)`. */
  datatype ABike = ABike(id: string, position: Bikes.P2d, batteryLevel: Int32, state: Bikes.BikeState)

  /** The compact constructor: `null` id and `null` state are `None`. */
  function NewABike(id: Option<string>, position: Bikes.P2d, batteryLevel: Int32, state: Option<Bikes.BikeState>): (r: Result<ABike>)
    ensures r.Ok? <==> id.Some? && !IsBlank(id.value) && 0 <= batteryLevel <= 100 && state.Some?
    ensures r.Ok? ==> r.value == ABike(id.value, position, batteryLevel, state.value)
    ensures (id.None? || IsBlank(id.value)) ==> r == Err(Bikes.IdMessage)
    ensures id.Some? && !IsBlank(id.value) && !(0 <= batteryLevel <= 100) ==> r == Err(Bikes.BatteryMessage)
    ensures id.Some? && !IsBlank(id.value) && 0 <= batteryLevel <= 100 && state.None? ==> r == Err(Bikes.StateMessage)
  {
    if id.None? || IsBlank(id.value) then Err(Bikes.IdMessage)
    else if batteryLevel < 0 || batteryLevel > 100 then Err(Bikes.BatteryMessage)
    else if state.None? then Err(Bikes.StateMessage)
    else Ok(ABike(id.value, position, batteryLevel, state.value))
  }

  /** `getId()`. */
  function GetId(b: ABike): string
  {
    b.id
  }

  /** The two services validate a-bikes identically: the record is accepted
      exactly when the map service's `ABike` is, with the same error and,
      on success, the same id, position, battery and state; and the id the
      record reports is the one it was built with. */
  lemma SameValidationAsMapService(id: Option<string>, position: Bikes.P2d, batteryLevel: Int32, state: Option<Bikes.BikeState>)
    ensures NewABike(id, position, batteryLevel, state).Ok? == Bikes.NewABike(id, position, batteryLevel, state).Ok?
    ensures NewABike(id, position, batteryLevel, state).Err? ==>
              NewABike(id, position, batteryLevel, state).msg == Bikes.NewABike(id, position, batteryLevel, state).msg
    ensures NewABike(id, position, batteryLevel, state).Ok? ==>
              var r, b := NewABike(id, position, batteryLevel, state).value, Bikes.NewABike(id, position, batteryLevel, state).value;
              GetId(r) == b.id == id.value && r.position == b.position && r.batteryLevel == b.battery && r.state == b.state
  {
  }
}
