/** The ride service's local projections, last iteration (ride-microservice
    `infrastructure/repository/LocalProjectionRepository.java` under p-3):
    the user and bike update events it has received, listed per username and
    per "id:type" key; the current state is the event with the greatest
    timestamp. */
module RideProjectionP3 {
  import opened Common
  import Bikes
  import BikeRepositoryP3

  /** `UserUpdateEvent` as the ride service receives it. */
  datatype UserUpdate = UserUpdate(username: string, credit: Int32, ts: string)

  /** `EBikeUpdateEvent` and `ABikeUpdateEvent`, the only objects ever put in
      a bike list (so the comparator's "0" fallback is never reached). */
  datatype BikeUpdate =
    | EBikeUpdate(bikeId: string, state: Bikes.BikeState, location: Bikes.P2d, battery: Int32, ts: string)
    | ABikeUpdate(bikeId: string, state: Bikes.BikeState, location: Bikes.P2d, battery: Int32, ts: string)

  /** The ride service's `User(username, credit)`. */
  datatype RideUser = RideUser(username: string, credit: Int32)

  /** `bikeKey(id, type)`. */
  function BikeKey(id: string, bikeType: string): string
  {
    id + ":" + ToLower(bikeType)
  }

  /** The ride service keys bikes exactly as the map service does. */
  lemma BikeKeyAgreesWithMap(id: string, bikeType: string)
    ensures BikeKey(id, bikeType) == BikeRepositoryP3.Key(id, bikeType)
  {
  }

  /** E-bike and a-bike lists never share a key, and two bikes of one kind
      share a list only when their ids are equal. */
  lemma KindsKeptApart(id1: string, id2: string)
    ensures BikeKey(id1, Bikes.EBikeType) != BikeKey(id2, Bikes.ABikeType)
    ensures BikeKey(id1, Bikes.EBikeType) == BikeKey(id2, Bikes.EBikeType) <==> id1 == id2
    ensures BikeKey(id1, Bikes.ABikeType) == BikeKey(id2, Bikes.ABikeType) <==> id1 == id2
  {
    BikeRepositoryP3.LowerCaseTypeNames();
    if BikeKey(id1, Bikes.EBikeType) == BikeKey(id2, Bikes.ABikeType) {
      BikeRepositoryP3.KeySplits(id1, Bikes.EBikeType, id2, Bikes.ABikeType);
    }
    if BikeKey(id1, Bikes.EBikeType) == BikeKey(id2, Bikes.EBikeType) {
      BikeRepositoryP3.KeySplits(id1, Bikes.EBikeType, id2, Bikes.EBikeType);
    }
    if BikeKey(id1, Bikes.ABikeType) == BikeKey(id2, Bikes.ABikeType) {
      BikeRepositoryP3.KeySplits(id1, Bikes.ABikeType, id2, Bikes.ABikeType);
    }
  }

  function UserTimestamps(events: seq<UserUpdate>): (ts: seq<string>)
    ensures |ts| == |events| && forall i :: 0 <= i < |events| ==> ts[i] == events[i].ts
  {
    seq(|events|, i requires 0 <= i < |events| => events[i].ts)
  }

  function BikeTimestamps(events: seq<BikeUpdate>): (ts: seq<string>)
    ensures |ts| == |events| && forall i :: 0 <= i < |events| ==> ts[i] == events[i].ts
  {
    seq(|events|, i requires 0 <= i < |events| => events[i].ts)
  }

  /** The user a list of updates projects to: none for an empty list, else
      the username and credit of the first update with the greatest
      timestamp. */
  function LatestUser(events: seq<UserUpdate>): (r: Option<RideUser>)
    ensures r.None? <==> events == []
    ensures r.Some? ==> exists i :: 0 <= i < |events| && r.value == RideUser(events[i].username, events[i].credit)
                         && (forall j :: 0 <= j < |events| ==> StrLe(events[j].ts, events[i].ts))
                         && (forall j :: 0 <= j < i ==> !StrLe(events[i].ts, events[j].ts))
  {
    if events == [] then None
    else
      var i := LatestIndex(UserTimestamps(events));
      Some(RideUser(events[i].username, events[i].credit))
  }

  /** An update strictly later than every earlier one becomes the projected
      user; one that is not leaves the projection as it was. */
  lemma LatestUserAppend(events: seq<UserUpdate>, e: UserUpdate)
    ensures (forall j :: 0 <= j < |events| ==> !StrLe(e.ts, events[j].ts)) ==>
              LatestUser(events + [e]) == Some(RideUser(e.username, e.credit))
    ensures !(forall j :: 0 <= j < |events| ==> !StrLe(e.ts, events[j].ts)) ==>
              LatestUser(events + [e]) == LatestUser(events)
  {
    if events != [] {
      var ts := UserTimestamps(events);
      assert UserTimestamps(events + [e]) == ts + [e.ts];
      LatestIndexAppend(ts, e.ts);
      assert (events + [e])[|events|] == e;
      var k := LatestIndex(ts);
      assert (events + [e])[k] == events[k];
    } else {
      assert events + [e] == [e];
    }
  }

  class Projection {
    /** `userEvents`: username to the updates received about that user. */
    var userEvents: map<string, seq<UserUpdate>>
    /** `bikeEvents`: "id:type" to the updates received about that bike. */
    var bikeEvents: map<string, seq<BikeUpdate>>

    /** Every list holds only events about its key. */
    ghost predicate Valid()
      reads this
    {
      && (forall u :: u in userEvents ==> forall i :: 0 <= i < |userEvents[u]| ==> userEvents[u][i].username == u)
      && (forall k :: k in bikeEvents ==> forall i :: 0 <= i < |bikeEvents[k]| ==> k == KeyOfUpdate(bikeEvents[k][i]))
    }

    constructor ()
      ensures Valid() && userEvents == map[] && bikeEvents == map[]
    {
      userEvents := map[];
      bikeEvents := map[];
    }

    /** The updates received about `username`. */
    function UserList(username: string): seq<UserUpdate>
      reads this
    {
      if username in userEvents then userEvents[username] else []
    }

    function BikeList(key: string): seq<BikeUpdate>
      reads this
    {
      if key in bikeEvents then bikeEvents[key] else []
    }

    /** `appendUserEvent`: only that username's list grows, by that event. */
    method AppendUserEvent(e: UserUpdate)
      requires Valid()
      modifies this
      ensures Valid()
      ensures userEvents == old(userEvents)[e.username := old(UserList(e.username)) + [e]]
      ensures bikeEvents == old(bikeEvents)
    {
      userEvents := userEvents[e.username := UserList(e.username) + [e]];
    }

    /** `appendEBikeEvent` and `appendABikeEvent`: the event joins the list
        of its bike id and kind. */
    method AppendBikeEvent(e: BikeUpdate)
      requires Valid()
      modifies this
      ensures Valid()
      ensures bikeEvents == old(bikeEvents)[KeyOfUpdate(e) := old(BikeList(KeyOfUpdate(e))) + [e]]
      ensures userEvents == old(userEvents)
    {
      var k := KeyOfUpdate(e);
      bikeEvents := bikeEvents[k := BikeList(k) + [e]];
    }

    /** `getUser`: the projected user of the username's updates. */
    function GetUser(username: string): (r: Option<RideUser>)
      reads this
      requires Valid()
      ensures r.None? <==> UserList(username) == []
      ensures r.Some? ==> r.value.username == username
      ensures r.Some? ==> exists i :: 0 <= i < |UserList(username)| && r.value.credit == UserList(username)[i].credit
                            && forall j :: 0 <= j < |UserList(username)| ==> StrLe(UserList(username)[j].ts, UserList(username)[i].ts)
    {
      LatestUser(UserList(username))
    }

    /** `getBike(id, type)`: the latest update under the key, turned into a
        bike of the requested kind when it is an update of that kind. */
    function GetBike(bikeId: string, bikeType: string): (r: Option<Bikes.Bike>)
      reads this
      requires Valid()
      ensures BikeList(BikeKey(bikeId, bikeType)) == [] ==> r.None?
      ensures r.Some? ==> r.value.id == bikeId
      ensures r.Some? ==> (r.value.EBike? ==> EqualsIgnoreCase(Bikes.EBikeType, bikeType))
                          && (r.value.ABike? ==> EqualsIgnoreCase(Bikes.ABikeType, bikeType))
    {
      var events := BikeList(BikeKey(bikeId, bikeType));
      var r := BikeView(events, bikeType);
      BikeViewNamesBike(events, bikeId, bikeType);
      r
    }
  }

  /** The key an update is listed under. */
  function KeyOfUpdate(e: BikeUpdate): string
  {
    BikeKey(e.bikeId, if e.EBikeUpdate? then Bikes.EBikeType else Bikes.ABikeType)
  }

  /** The update `Stream.max` picks: the first with the greatest timestamp. */
  function LatestBike(events: seq<BikeUpdate>): (latest: BikeUpdate)
    requires events != []
    ensures exists i :: 0 <= i < |events| && latest == events[i]
                        && (forall j :: 0 <= j < |events| ==> StrLe(events[j].ts, events[i].ts))
  {
    events[LatestIndex(BikeTimestamps(events))]
  }

  /** The bike an update shows when it is of the kind the type names
      (compared ignoring case). */
  function Shown(latest: BikeUpdate, bikeType: string): (r: Option<Bikes.Bike>)
    ensures r.Some? ==> r.value.id == latest.bikeId && r.value.state == latest.state
                        && r.value.position == latest.location && r.value.battery == latest.battery
                        && (r.value.EBike? <==> latest.EBikeUpdate?)
    ensures r.Some? <==> (latest.EBikeUpdate? && EqualsIgnoreCase(Bikes.EBikeType, bikeType))
                         || (latest.ABikeUpdate? && EqualsIgnoreCase(Bikes.ABikeType, bikeType))
  {
    if EqualsIgnoreCase(Bikes.EBikeType, bikeType) && latest.EBikeUpdate? then
      Some(Bikes.EBike(latest.bikeId, latest.location, latest.state, latest.battery))
    else if EqualsIgnoreCase(Bikes.ABikeType, bikeType) && latest.ABikeUpdate? then
      Some(Bikes.ABike(latest.bikeId, latest.location, latest.battery, latest.state))
    else None
  }

  /** The bike the latest update of a list shows, if it is of the kind the
      type names. */
  function BikeView(events: seq<BikeUpdate>, bikeType: string): (r: Option<Bikes.Bike>)
    ensures events == [] ==> r.None?
    ensures r.Some? ==> exists i :: 0 <= i < |events|
                          && (forall j :: 0 <= j < |events| ==> StrLe(events[j].ts, events[i].ts))
                          && r.value.id == events[i].bikeId && r.value.state == events[i].state
                          && r.value.position == events[i].location && r.value.battery == events[i].battery
                          && (r.value.EBike? <==> events[i].EBikeUpdate?)
    ensures r.Some? && r.value.EBike? ==> EqualsIgnoreCase(Bikes.EBikeType, bikeType)
    ensures r.Some? && r.value.ABike? ==> EqualsIgnoreCase(Bikes.ABikeType, bikeType)
  {
    if events == [] then None else Shown(LatestBike(events), bikeType)
  }

  /** Under the projection's invariant the bike shown is the one asked for:
      a list keyed by (id, type) holds only updates of that id. */
  lemma BikeViewNamesBike(events: seq<BikeUpdate>, bikeId: string, bikeType: string)
    requires forall i :: 0 <= i < |events| ==> KeyOfUpdate(events[i]) == BikeKey(bikeId, bikeType)
    ensures BikeView(events, bikeType).Some? ==> BikeView(events, bikeType).value.id == bikeId
  {
    if events != [] && Shown(LatestBike(events), bikeType).Some? {
      var latest := LatestBike(events);
      var kind := if latest.EBikeUpdate? then Bikes.EBikeType else Bikes.ABikeType;
      assert KeyOfUpdate(latest) == BikeKey(bikeId, bikeType);
      BikeRepositoryP3.LowerCaseTypeNames();
      assert ToLower(bikeType) == ToLower(kind) == kind;
      BikeRepositoryP3.KeySplits(latest.bikeId, kind, bikeId, ToLower(bikeType));
    }
  }

  /** The bike the latest update shows: `getBike` finds a bike exactly when
      the latest update under the key is of the kind the type names. */
  lemma BikeViewIff(events: seq<BikeUpdate>, bikeType: string)
    requires events != []
    ensures var latest := LatestBike(events);
      BikeView(events, bikeType).Some? <==>
        (latest.EBikeUpdate? && EqualsIgnoreCase(Bikes.EBikeType, bikeType))
        || (latest.ABikeUpdate? && EqualsIgnoreCase(Bikes.ABikeType, bikeType))
  {
  }

  /** A bike update strictly later than every earlier one decides the bike
      shown; one that is not leaves it as it was. */
  lemma LatestBikeAppend(events: seq<BikeUpdate>, e: BikeUpdate, bikeType: string)
    requires events != []
    ensures (forall j :: 0 <= j < |events| ==> !StrLe(e.ts, events[j].ts)) ==>
              BikeView(events + [e], bikeType) == BikeView([e], bikeType)
    ensures !(forall j :: 0 <= j < |events| ==> !StrLe(e.ts, events[j].ts)) ==>
              BikeView(events + [e], bikeType) == BikeView(events, bikeType)
  {
    var ts := BikeTimestamps(events);
    assert BikeTimestamps(events + [e]) == ts + [e.ts];
    LatestIndexAppend(ts, e.ts);
    assert (events + [e])[|events|] == e;
    var k := LatestIndex(ts);
    assert (events + [e])[k] == events[k];
    assert LatestBike([e]) == e by {
      assert BikeTimestamps([e]) == [e.ts];
    }
  }
}
