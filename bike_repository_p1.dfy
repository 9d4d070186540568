/** The map service's bike registry, first iteration (map-microservice
    `domain/model/BikeRepositoryImpl.java` under p-1): bikes stored under
    their bare id, and a user-to-bike-id assignment map in which a bike id is
    assigned to at most one user. */
module BikeRepositoryP1 {
  import opened Common
  import opened Bikes

  const BikeNotFound: string := "Bike not found"
  const BikeNotInRepository: string := "Bike not found in repository"
  const AlreadyAssigned: string := "Bike is already assigned to another user"
  const NoBikeAssigned: string := "User does not have any bike assigned"
  const NotAssignedToUser: string := "Bike is not assigned to the user"

  /** One user's entry of `getUsersWithAssignedAndAvailableBikes`: the list
      is `own` (the bikes whose id is the assigned one) followed by
      `available` (in map iteration order). */
  datatype UserBikes = UserBikes(own: seq<Bike>, available: set<Bike>)

  class BikeRepository {
    /** `bikes`: bike id to bike. */
    var bikes: map<string, Bike>
    /** `bikeAssignments`: username to assigned bike id. */
    var assignments: map<string, string>

    /** Every bike sits under its own id; no bike id is assigned to two users;
        every assigned id is stored. */
    ghost predicate Valid()
      reads this
    {
      && (forall k :: k in bikes ==> bikes[k].id == k)
      && (forall u, v :: u in assignments && v in assignments && u != v ==> assignments[u] != assignments[v])
      && (forall u :: u in assignments ==> assignments[u] in bikes)
    }

    constructor ()
      ensures Valid() && bikes == map[] && assignments == map[]
    {
      bikes := map[];
      assignments := map[];
    }

    /** `saveBike`: a bike with an id already stored replaces it. */
    method SaveBike(b: Bike)
      requires Valid()
      modifies this
      ensures Valid()
      ensures bikes == old(bikes)[b.id := b]
      ensures assignments == old(assignments)
    {
      bikes := bikes[b.id := b];
    }

    /** `getBike(bikeName)`. */
    function GetBike(bikeName: string): (r: Result<Bike>)
      reads this
      requires Valid()
      ensures r.Ok? <==> bikeName in bikes
      ensures r.Err? ==> r.msg == BikeNotFound
      ensures r.Ok? ==> r.value.id == bikeName && r.value in bikes.Values
    {
      if bikeName in bikes then Ok(bikes[bikeName]) else Err(BikeNotFound)
    }

    /** `assignBikeToUser`: the bike must be stored and its id not yet
        assigned; the user's previous assignment is replaced. */
    method AssignBikeToUser(user: string, b: Bike) returns (r: Result<()>)
      requires Valid()
      modifies this
      ensures Valid()
      ensures bikes == old(bikes)
      ensures b.id !in bikes ==> r == Err(BikeNotInRepository) && assignments == old(assignments)
      ensures b.id in bikes && b.id in old(assignments).Values ==>
                r == Err(AlreadyAssigned) && assignments == old(assignments)
      ensures b.id in bikes && b.id !in old(assignments).Values ==>
                r == Ok(()) && assignments == old(assignments)[user := b.id]
    {
      if b.id !in bikes {
        return Err(BikeNotInRepository);
      }
      if b.id in assignments.Values {
        return Err(AlreadyAssigned);
      }
      assignments := assignments[user := b.id];
      r := Ok(());
    }

    /** `unassignBikeFromUser`. */
    method UnassignBikeFromUser(user: string, b: Bike) returns (r: Result<()>)
      requires Valid()
      modifies this
      ensures Valid()
      ensures bikes == old(bikes)
      ensures user !in old(assignments) ==> r == Err(NoBikeAssigned) && assignments == old(assignments)
      ensures user in old(assignments) && old(assignments)[user] != b.id ==>
                r == Err(NotAssignedToUser) && assignments == old(assignments)
      ensures user in old(assignments) && old(assignments)[user] == b.id ==>
                r == Ok(()) && assignments == old(assignments) - {user}
    {
      if user !in assignments {
        return Err(NoBikeAssigned);
      }
      if assignments[user] != b.id {
        return Err(NotAssignedToUser);
      }
      assignments := assignments - {user};
      r := Ok(());
    }

    /** `isBikeAssigned`: the loop over the assignment entries. */
    method IsBikeAssigned(b: Bike) returns (r: Option<string>)
      requires Valid()
      ensures r.Some? ==> r.value in assignments && assignments[r.value] == b.id
      ensures r.Some? ==> forall u :: u in assignments && assignments[u] == b.id ==> u == r.value
      ensures r.None? <==> b.id !in assignments.Values
    {
      var pending := assignments.Keys;
      while pending != {}
        invariant pending <= assignments.Keys
        invariant forall u :: u in assignments && u !in pending ==> assignments[u] != b.id
        decreases |pending|
      {
        var u :| u in pending;
        if assignments[u] == b.id {
          return Some(u);
        }
        pending := pending - {u};
      }
      return None;
    }

    /** `getAvailableBikes`: every stored bike in state AVAILABLE, of either kind. */
    function AvailableBikes(): (r: set<Bike>)
      reads this
      ensures forall b :: b in r <==> b in bikes.Values && b.state == Available
    {
      set b | b in bikes.Values && b.state == Available
    }

    /** `getUsersWithAssignedAndAvailableBikes`: one entry per assigned user,
        holding the user's own bike followed by every available bike. */
    function UsersWithAssignedAndAvailableBikes(): (r: map<string, UserBikes>)
      reads this
      requires Valid()
      ensures r.Keys == assignments.Keys
      ensures forall u :: u in r ==>
                && r[u].own == [bikes[assignments[u]]]
                && r[u].own[0].id == assignments[u]
                && r[u].available == AvailableBikes()
    {
      map u | u in assignments :: UserBikes(if assignments[u] in bikes then [bikes[assignments[u]]] else [], AvailableBikes())
    }
  }

  /** The repository test: saving two bikes both named "Bike1" keeps one, so
      exactly one bike is available, and it is the one saved last. */
  method SaveSameIdTwice(first: Bike, second: Bike) returns (available: set<Bike>)
    requires first.id == second.id && second.state == Available
    ensures available == {second}
  {
    var repo := new BikeRepository();
    repo.SaveBike(first);
    repo.SaveBike(second);
    assert repo.bikes == map[second.id := second];
    assert repo.bikes[second.id] == second;
    forall v | v in repo.bikes.Values ensures v == second {
      var k :| k in repo.bikes && repo.bikes[k] == v;
    }
    available := repo.AvailableBikes();
  }

  /** The repository tests: assign then `isBikeAssigned` reports the user;
      unassign then it reports nobody; an unknown name is not found. */
  method AssignUnassignScenario(b: Bike, user: string, unknown: string)
      returns (found: Result<Bike>, missing: Result<Bike>, afterAssign: Option<string>, afterUnassign: Option<string>)
    requires unknown != b.id
    ensures found == Ok(b) && missing == Err(BikeNotFound)
    ensures afterAssign == Some(user) && afterUnassign == None
  {
    var repo := new BikeRepository();
    repo.SaveBike(b);
    found := repo.GetBike(b.id);
    missing := repo.GetBike(unknown);
    var r := repo.AssignBikeToUser(user, b);
    afterAssign := repo.IsBikeAssigned(b);
    var s := repo.UnassignBikeFromUser(user, b);
    afterUnassign := repo.IsBikeAssigned(b);
  }
}
