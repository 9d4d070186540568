/** The map service's bike registry, third iteration (map-microservice
    `domain/model/BikeRepositoryImpl.java` under p-3): bikes stored under
    "id:type", and a user-to-bike-id assignment map in which a bike id is
    assigned to at most one user. */
module BikeRepositoryP3 {
  import opened Common
  import opened Bikes

  /** `bikeKey(id, type)`. */
  function Key(id: string, bikeType: string): string
  {
    id + ":" + ToLower(bikeType)
  }

  /** The key `saveBike` and `assignBikeToUser` compute for a bike. */
  function KeyOf(b: Bike): string
  {
    Key(b.id, if b.ABike? then ABikeType else EBikeType)
  }

  lemma LowerCaseTypeNames()
    ensures ToLower(EBikeType) == EBikeType && ToLower(ABikeType) == ABikeType
  {
    assert ToLower(EBikeType) == EBikeType by {
      forall i | 0 <= i < |EBikeType| ensures ToLower(EBikeType)[i] == EBikeType[i] { }
    }
    assert ToLower(ABikeType) == ABikeType by {
      forall i | 0 <= i < |ABikeType| ensures ToLower(ABikeType)[i] == ABikeType[i] { }
    }
  }

  /** A key splits back into its id and type when the type's length is known. */
  lemma KeySplits(id1: string, t1: string, id2: string, t2: string)
    requires id1 + ":" + t1 == id2 + ":" + t2 && |t1| == |t2|
    ensures id1 == id2 && t1 == t2
  {
    var s := id1 + ":" + t1;
    assert id1 == s[..|id1|] == id2;
    assert t1 == s[|id1| + 1..] == t2;
  }

  /** Two bikes share a storage key exactly when they have the same id and the
      same kind: an e-bike and an a-bike with one id are stored apart. */
  lemma KeyOfInjective(a: Bike, b: Bike)
    ensures KeyOf(a) == KeyOf(b) <==> a.id == b.id && TypeOf(a) == TypeOf(b)
  {
    LowerCaseTypeNames();
    if KeyOf(a) == KeyOf(b) {
      KeySplits(a.id, TypeOf(a), b.id, TypeOf(b));
    }
  }

  /** A lookup key built from a bike type name reaches only the bike with
      that id and kind. */
  lemma LookupKeyNamesBike(id: string, bikeType: string, b: Bike)
    ensures Key(id, bikeType) == KeyOf(b) && ToLower(bikeType) in {EBikeType, ABikeType} ==>
              b.id == id && TypeOf(b) == ToLower(bikeType)
  {
    LowerCaseTypeNames();
    if Key(id, bikeType) == KeyOf(b) && ToLower(bikeType) in {EBikeType, ABikeType} {
      KeySplits(id, ToLower(bikeType), b.id, TypeOf(b));
    }
  }

  /** The key `getBike(id, type)` looks up for a bike's own id and type is
      the key the bike was saved under, whatever the case of the type. */
  lemma GetKeyMatchesSaveKey(b: Bike, bikeType: string)
    requires ToLower(bikeType) == TypeOf(b)
    ensures Key(b.id, bikeType) == KeyOf(b)
  {
    LowerCaseTypeNames();
  }

  const BikeNotFound: string := "Bike not found"
  const BikeNotInRepository: string := "Bike not found in repository"
  const AlreadyAssigned: string := "Bike is already assigned to another user"
  const NoBikeAssigned: string := "User does not have any bike assigned"
  const NotAssignedToUser: string := "Bike is not assigned to the user"

  class BikeRepository {
    /** `bikes`: storage key to bike. */
    var bikes: map<string, Bike>
    /** `bikeAssignments`: username to assigned bike id. */
    var assignments: map<string, string>

    /** Every bike sits under its own key; no bike id is assigned to two
        users; every assigned id is the id of a stored bike. */
    ghost predicate Valid()
      reads this
    {
      && (forall k :: k in bikes ==> k == KeyOf(bikes[k]))
      && (forall u, v :: u in assignments && v in assignments && u != v ==> assignments[u] != assignments[v])
      && (forall u :: u in assignments ==>
            Key(assignments[u], EBikeType) in bikes || Key(assignments[u], ABikeType) in bikes)
    }

    constructor ()
      ensures Valid() && bikes == map[] && assignments == map[]
    {
      bikes := map[];
      assignments := map[];
    }

    /** `saveBike`: store (or replace) the bike under its key. */
    method SaveBike(b: Bike)
      requires Valid()
      modifies this
      ensures Valid()
      ensures bikes == old(bikes)[KeyOf(b) := b]
      ensures assignments == old(assignments)
    {
      bikes := bikes[KeyOf(b) := b];
    }

    /** `getBike(id, type)`. */
    function GetBike(id: string, bikeType: string): (r: Result<Bike>)
      reads this
      requires Valid()
      ensures r.Ok? <==> Key(id, bikeType) in bikes
      ensures r.Err? ==> r.msg == BikeNotFound
      ensures r.Ok? ==> r.value in bikes.Values && KeyOf(r.value) == Key(id, bikeType)
      ensures r.Ok? && ToLower(bikeType) in {EBikeType, ABikeType} ==>
                r.value.id == id && TypeOf(r.value) == ToLower(bikeType)
    {
      var k := Key(id, bikeType);
      if k in bikes then
        LookupKeyNamesBike(id, bikeType, bikes[k]);
        Ok(bikes[k])
      else Err(BikeNotFound)
    }

    /** `assignBikeToUser`: the bike must be stored and its id not yet
        assigned to anybody; the user's previous assignment is replaced. */
    method AssignBikeToUser(user: string, b: Bike) returns (r: Result<()>)
      requires Valid()
      modifies this
      ensures Valid()
      ensures bikes == old(bikes)
      ensures KeyOf(b) !in bikes ==> r == Err(BikeNotInRepository) && assignments == old(assignments)
      ensures KeyOf(b) in bikes && b.id in old(assignments).Values ==>
                r == Err(AlreadyAssigned) && assignments == old(assignments)
      ensures KeyOf(b) in bikes && b.id !in old(assignments).Values ==>
                r == Ok(()) && assignments == old(assignments)[user := b.id]
    {
      var key := KeyOf(b);
      if key !in bikes {
        return Err(BikeNotInRepository);
      }
      if b.id in assignments.Values {
        return Err(AlreadyAssigned);
      }
      LowerCaseTypeNames();
      assignments := assignments[user := b.id];
      r := Ok(());
    }

    /** `unassignBikeFromUser`: only the user's own assignment of exactly this
        bike is removed. */
    method UnassignBikeFromUser(user: string, b: Bike) returns (r: Result<()>)
      requires Valid()
      modifies this
      ensures Valid()
      ensures bikes == old(bikes)
      ensures user !in old(assignments) ==> r == Err(NoBikeAssigned) && assignments == old(assignments)
      ensures user in old(assignments) && old(assignments)[user] != b.id ==>
                r == Err(NotAssignedToUser) && assignments == old(assignments)
      ensures user in old(assignments) && old(assignments)[user] == b.id ==>
                r == Ok(()) && assignments == old(assignments) - {user}
    {
      if user !in assignments {
        return Err(NoBikeAssigned);
      }
      if assignments[user] != b.id {
        return Err(NotAssignedToUser);
      }
      assignments := assignments - {user};
      r := Ok(());
    }

    /** `isBikeAssigned`: the loop over the assignment entries. Since no id is
        assigned twice, the user it finds is the only one. */
    method IsBikeAssigned(b: Bike) returns (r: Option<string>)
      requires Valid()
      ensures r.Some? ==> r.value in assignments && assignments[r.value] == b.id
      ensures r.Some? ==> forall u :: u in assignments && assignments[u] == b.id ==> u == r.value
      ensures r.None? <==> b.id !in assignments.Values
    {
      var pending := assignments.Keys;
      while pending != {}
        invariant pending <= assignments.Keys
        invariant forall u :: u in assignments && u !in pending ==> assignments[u] != b.id
        decreases |pending|
      {
        var u :| u in pending;
        if assignments[u] == b.id {
          assert assignments[u] in assignments.Values;
          return Some(u);
        }
        pending := pending - {u};
      }
      forall v | v in assignments.Values
        ensures v != b.id
      {
        var u :| u in assignments && assignments[u] == v;
      }
      return None;
    }

    /** `getAvailableBikes`: the e-bikes in state AVAILABLE. */
    function AvailableBikes(): (r: set<Bike>)
      reads this
      ensures forall b :: b in r <==> b in bikes.Values && b.EBike? && b.state == Available
    {
      set b | b in bikes.Values && b.EBike? && b.state == Available
    }

    /** `getAllBikes()`: everything except the a-bikes waiting AVAILABLE. */
    function AllBikes(): (r: set<Bike>)
      reads this
      ensures forall b :: b in r <==> b in bikes.Values && !(b.ABike? && b.state == Available)
    {
      set b | b in bikes.Values && !(b.ABike? && b.state == Available)
    }

    /** `getAllBikes(username)`: the bikes carrying the id the user is
        assigned (an e-bike and an a-bike may share it), except a-bikes
        waiting AVAILABLE; nothing for a user without an assignment. */
    function AllBikesOf(user: string): (r: set<Bike>)
      reads this
      ensures user !in assignments ==> r == {}
      ensures forall b :: b in r <==> b in AllBikes() && user in assignments && b.id == assignments[user]
    {
      set b | b in bikes.Values && user in assignments && b.id == assignments[user]
                && !(b.ABike? && b.state == Available)
    }

    /** `getAllMovingAbikes`: the a-bikes not in state AVAILABLE. */
    function MovingABikes(): (r: set<Bike>)
      reads this
      ensures forall b :: b in r <==> b in bikes.Values && b.ABike? && b.state != Available
    {
      set b | b in bikes.Values && b.ABike? && b.state != Available
    }

    /** `getAssignedABike`: at most one bike, and only the a-bike stored under
        the id the user is assigned. */
    function AssignedABike(user: string): (r: seq<Bike>)
      reads this
      requires Valid()
      ensures |r| <= 1
      ensures r != [] ==> user in assignments && r[0].ABike? && r[0].id == assignments[user] && r[0] in bikes.Values
      ensures r == [] <==> user !in assignments || Key(assignments[user], ABikeType) !in bikes
    {
      if user !in assignments then []
      else
        var k := Key(assignments[user], ABikeType);
        StoredUnderOwnKey(assignments[user], ABikeType);
        if k in bikes && bikes[k].ABike? then [bikes[k]] else []
    }

    /** Under a key built from an id and a type name sits only a bike with
        that id and that kind. */
    lemma StoredUnderOwnKey(id: string, bikeType: string)
      requires Valid() && bikeType in {EBikeType, ABikeType}
      ensures Key(id, bikeType) in bikes ==>
                bikes[Key(id, bikeType)].id == id && TypeOf(bikes[Key(id, bikeType)]) == bikeType
    {
      LowerCaseTypeNames();
      if Key(id, bikeType) in bikes {
        LookupKeyNamesBike(id, bikeType, bikes[Key(id, bikeType)]);
      }
    }

    /** The three listings partition the stored bikes: `getAllBikes` and the
        waiting a-bikes cover them, the moving a-bikes are among `getAllBikes`,
        and no available e-bike is a moving a-bike. */
    lemma ListingsPartition()
      ensures AllBikes() + (set b | b in bikes.Values && b.ABike? && b.state == Available) == bikes.Values
      ensures MovingABikes() <= AllBikes() && AvailableBikes() <= AllBikes()
      ensures MovingABikes() !! AvailableBikes()
    {
    }
  }

  /** A saved bike is found again under its id and type, and the stored bike
      with the same id but the other kind is untouched. */
  method SaveThenGet(repo: BikeRepository, b: Bike, other: Bike) returns (found: Result<Bike>, kept: Result<Bike>)
    requires repo.Valid()
    requires other.id == b.id && TypeOf(other) != TypeOf(b)
    modifies repo
    ensures found == Ok(b)
    ensures kept == old(repo.GetBike(other.id, TypeOf(other)))
  {
    ghost var before := repo.GetBike(other.id, TypeOf(other));
    repo.SaveBike(b);
    LowerCaseTypeNames();
    GetKeyMatchesSaveKey(b, TypeOf(b));
    GetKeyMatchesSaveKey(other, TypeOf(other));
    KeyOfInjective(b, other);
    found := repo.GetBike(b.id, TypeOf(b));
    kept := repo.GetBike(other.id, TypeOf(other));
  }

  /** Assigning a stored, unassigned bike makes `isBikeAssigned` report the
      user; unassigning it again makes it report nobody. */
  method AssignThenUnassign(repo: BikeRepository, user: string, b: Bike) returns (afterAssign: Option<string>, afterUnassign: Option<string>)
    requires repo.Valid()
    requires KeyOf(b) in repo.bikes && b.id !in repo.assignments.Values
    modifies repo
    ensures afterAssign == Some(user)
    ensures afterUnassign == None
    ensures repo.bikes == old(repo.bikes)
  {
    var r := repo.AssignBikeToUser(user, b);
    afterAssign := repo.IsBikeAssigned(b);
    var s := repo.UnassignBikeFromUser(user, b);
    afterUnassign := repo.IsBikeAssigned(b);
  }
}
