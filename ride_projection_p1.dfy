/** The ride service's local projections, first iteration (ride-microservice
    `infrastructure/repository/LocalProjectionRepository.java` under p-1):
    user updates per username and e-bike updates per bare bike id; the
    current state is the update with the greatest timestamp. */
module RideProjectionP1 {
  import opened Common
  import Bikes
  import opened RideProjectionP3

  /** The e-bike a list of e-bike updates shows: none for an empty list,
      else the fields of the first update with the greatest timestamp. */
  function EBikeView(events: seq<BikeUpdate>): (r: Option<Bikes.Bike>)
    ensures r.None? <==> events == []
    ensures r.Some? ==> r.value.EBike?
    ensures r.Some? ==> exists i :: 0 <= i < |events|
                          && (forall j :: 0 <= j < |events| ==> StrLe(events[j].ts, events[i].ts))
                          && r.value == Bikes.EBike(events[i].bikeId, events[i].location, events[i].state, events[i].battery)
  {
    if events == [] then None
    else
      var latest := LatestBike(events);
      Some(Bikes.EBike(latest.bikeId, latest.location, latest.state, latest.battery))
  }

  /** On lists of e-bike updates this version's `getEBike` and the last
      version's `getBike(id, "ebike")` show the same bike. */
  lemma EBikeViewAgreesWithP3(events: seq<BikeUpdate>, bikeType: string)
    requires forall i :: 0 <= i < |events| ==> events[i].EBikeUpdate?
    requires EqualsIgnoreCase(Bikes.EBikeType, bikeType)
    ensures EBikeView(events) == BikeView(events, bikeType)
  {
  }

  class Projection {
    /** `userEvents`: username to the updates received about that user. */
    var userEvents: map<string, seq<UserUpdate>>
    /** `ebikeEvents`: bike id to the e-bike updates received about it. */
    var ebikeEvents: map<string, seq<BikeUpdate>>

    ghost predicate Valid()
      reads this
    {
      && (forall u :: u in userEvents ==> forall i :: 0 <= i < |userEvents[u]| ==> userEvents[u][i].username == u)
      && (forall k :: k in ebikeEvents ==> forall i :: 0 <= i < |ebikeEvents[k]| ==>
            ebikeEvents[k][i].EBikeUpdate? && ebikeEvents[k][i].bikeId == k)
    }

    constructor ()
      ensures Valid() && userEvents == map[] && ebikeEvents == map[]
    {
      userEvents := map[];
      ebikeEvents := map[];
    }

    function UserList(username: string): seq<UserUpdate>
      reads this
    {
      if username in userEvents then userEvents[username] else []
    }

    function EBikeList(bikeId: string): seq<BikeUpdate>
      reads this
    {
      if bikeId in ebikeEvents then ebikeEvents[bikeId] else []
    }

    /** `appendUserEvent`. */
    method AppendUserEvent(e: UserUpdate)
      requires Valid()
      modifies this
      ensures Valid()
      ensures userEvents == old(userEvents)[e.username := old(UserList(e.username)) + [e]]
      ensures ebikeEvents == old(ebikeEvents)
    {
      userEvents := userEvents[e.username := UserList(e.username) + [e]];
    }

    /** `appendEBikeEvent`: keyed by the bare bike id. */
    method AppendEBikeEvent(e: BikeUpdate)
      requires Valid() && e.EBikeUpdate?
      modifies this
      ensures Valid()
      ensures ebikeEvents == old(ebikeEvents)[e.bikeId := old(EBikeList(e.bikeId)) + [e]]
      ensures userEvents == old(userEvents)
    {
      ebikeEvents := ebikeEvents[e.bikeId := EBikeList(e.bikeId) + [e]];
    }

    /** `getUser`: as in the last version. */
    function GetUser(username: string): (r: Option<RideUser>)
      reads this
      requires Valid()
      ensures r.None? <==> UserList(username) == []
      ensures r.Some? ==> r.value.username == username
      ensures r.Some? ==> exists i :: 0 <= i < |UserList(username)| && r.value.credit == UserList(username)[i].credit
                            && forall j :: 0 <= j < |UserList(username)| ==> StrLe(UserList(username)[j].ts, UserList(username)[i].ts)
    {
      LatestUser(UserList(username))
    }

    /** `getEBike`: the e-bike the id's updates show, with that id. */
    function GetEBike(bikeId: string): (r: Option<Bikes.Bike>)
      reads this
      requires Valid()
      ensures r.None? <==> EBikeList(bikeId) == []
      ensures r.Some? ==> r.value.EBike? && r.value.id == bikeId
    {
      EBikeView(EBikeList(bikeId))
    }
  }
}
