# Bike-sharing microservices: a Dafny model of the domain cores

This project models the domain logic of the bike-sharing system's microservices, in two of its
iterations ("p-1" and "p-3"). It covers:

- **Bike records.** Validation of the `ABike` and `EBike` value objects (modules `Bikes`, `ABikeRecord`).
- **Bike assignment registries of the map service.** Bikes stored by key, plus a user-to-bike assignment map (modules `BikeRepositoryP3`, `BikeRepositoryP1`). They are classes whose methods update the maps, and the invariant they keep is that no bike id is assigned to two users.
- **Stations.** The docked-bike set bounded by capacity (`Stations`), and the map service's replace-by-id station list (`StationRepository`).
- **The ride service.**
  - The `Ride` and `EBike` entities: start and end, and the battery drain that clamps at 0 and forces MAINTENANCE (`RideDomain`).
  - The local projections, where the current user or bike is the update with the greatest timestamp (`RideProjectionP3`, `RideProjectionP1`).
  - The ordered admission checks of `startRide`, and `stopRide` (`RideService`).
- **The e-bike service.** Create, recharge and update rules, with "battery 0 forces MAINTENANCE" (`EBikeService`).
- **The Ditto adapter.** The message builders (`DittoFactory`) and the translator service. The translator keeps a set of known thing ids, which decides when a create command precedes a modify command (`DittoTranslator`).
- **The event-sourced user service.** A left fold over a user's stored events rebuilds the user and its credit. Sign-up, sign-in, credit updates, recharges, a-bike requests and the listing of all users are built on it (`UserEvents`, `UserServiceP3`, `UserServiceP1`).

Shared pieces live in `Common`:

- `Result` stands for a `CompletableFuture` that completes normally or exceptionally, with the source's message.
- `Option` stands for a nullable or `Optional` value.
- Java `int` wrap-around is modelled explicitly.
- ASCII lower-casing models `toLowerCase`.
- The lexicographic `String.compareTo` order orders the ISO-8601 timestamps.
- `Stream.max` keeps the first of several maximal elements.

Every future is read as completing at once. Every `ConcurrentHashMap`, `CopyOnWriteArrayList` and
`synchronized` block is read sequentially.

Where the code mutates state, the model is a class with `modifies` clauses. Examples are the
registries, the station, the ride, the projections, the translator and the user service, whose
event store and published users are sequences. Each method is proved against a function or
predicate on values, and the properties are proved about those functions.

The code has no per-bike sequence numbers, no schema validator, and no reservation or
cancellation states for bikes or rides, so none of these are modelled.

## Model

| member | source | states |
|---|---|---|
| Common.Wrap32 | src/p-3/microservices/user-microservice/app/src/main/java/application/UserServiceImpl.java:36-39 | Java `int` arithmetic on credit: a result in range is unchanged |
| Common.Wrap32Congruent | src/p-3/microservices/user-microservice/app/src/main/java/application/UserServiceImpl.java:36-39 | a wrapped value differs from the exact one by a multiple of 2^32 |
| Common.Wrap32Overflow | src/p-3/microservices/user-microservice/app/src/main/java/application/UserServiceImpl.java:39 | one past the largest `int` wraps to the smallest, and one below the smallest to the largest |
| Common.LowerChar | src/p-3/microservices/map-microservice/app/src/main/java/domain/model/BikeRepositoryImpl.java:20 | `toLowerCase` maps an ASCII capital to its small letter and leaves every other character alone |
| Common.ToLower | src/p-3/microservices/map-microservice/app/src/main/java/domain/model/BikeRepositoryImpl.java:20 | `toLowerCase` keeps the length and lowers each character |
| Common.StrLeReflexive | src/p-3/microservices/ride-microservice/app/src/main/java/infrastructure/repository/LocalProjectionRepository.java:52 | the `String` order compared by timestamps is reflexive |
| Common.StrLeTotal | src/p-3/microservices/ride-microservice/app/src/main/java/infrastructure/repository/LocalProjectionRepository.java:52 | any two timestamps are comparable |
| Common.StrLeAntisymmetric | src/p-3/microservices/ride-microservice/app/src/main/java/infrastructure/repository/LocalProjectionRepository.java:52 | two timestamps each at most the other are equal |
| Common.StrLeTransitive | src/p-3/microservices/ride-microservice/app/src/main/java/infrastructure/repository/LocalProjectionRepository.java:52 | the timestamp order is transitive |
| Common.LatestIndex | src/p-3/microservices/ride-microservice/app/src/main/java/infrastructure/repository/LocalProjectionRepository.java:50-53 | `Stream.max` by timestamp picks an event no older than any other, and the first such one |
| Common.LatestIndexAppend | src/p-3/microservices/ride-microservice/app/src/main/java/infrastructure/repository/LocalProjectionRepository.java:50-53 | an appended event becomes the latest exactly when it is strictly newer than every earlier one; otherwise the latest is unchanged |
| Bikes.TypeOf | src/p-3/microservices/map-microservice/app/src/main/java/domain/model/ABike.java:37-40 | `getType` is "abike" exactly for an a-bike and "ebike" exactly for an e-bike |
| Bikes.NewABike | src/p-3/microservices/map-microservice/app/src/main/java/domain/model/ABike.java:12-20 | the map service's `ABike` constructor accepts exactly a non-blank id, a battery in 0..100 and a state, reports the first failing guard with its message, and stores the fields unchanged |
| Bikes.NewABikeRoundTrip | src/p-3/microservices/map-microservice/app/src/main/java/domain/model/ABike.java:12-20 | every a-bike satisfying the constructor's guards is exactly what the constructor builds from its own fields |
| Bikes.NewEBike | src/p-1/microservices/map-microservice/app/src/main/java/domain/model/EBike.java:13-21 | the map service's `EBike` constructor refuses exactly AUTONOMOUS_MOVING, with its message, and otherwise stores the fields unchanged |
| Bikes.NewEBikeIdAndType | src/p-1/microservices/map-microservice/app/src/main/java/domain/model/EBike.java:28-30 | an e-bike's `getId` is its `bikeName` and its `getType` is "ebike" |
| ABikeRecord.NewABike | src/p-1/microservices/abike-microservice/app/src/main/java/domain/model/ABike.java:9-19 | the a-bike record's compact constructor accepts exactly a non-blank id, a battery in 0..100 and a state, and reports the first failing guard |
| ABikeRecord.SameValidationAsMapService | src/p-1/microservices/abike-microservice/app/src/main/java/domain/model/ABike.java:9-24 | the record and the map service's `ABike` accept the same inputs, fail with the same message, and agree on id (`getId`), position, battery and state |
| Stations.DockOutcome | src/p-3/microservices/station-microservice/app/src/main/java/domain/model/Station.java:23-30 | docking succeeds exactly when the station has a free slot and the bike is not docked; "Station full" is checked before "Bike is already docked"; success adds exactly that id and keeps the docked count within capacity |
| Stations.ReleaseOutcome | src/p-3/microservices/station-microservice/app/src/main/java/domain/model/Station.java:32-36 | releasing succeeds exactly for a docked bike, otherwise fails with "Bike not docked here"; success removes exactly that id and keeps the capacity bound |
| Stations.DockReleaseRoundTrip | src/p-3/microservices/station-microservice/app/src/main/java/domain/model/Station.java:23-36 | docking a bike and then releasing it restores the docked set |
| Stations.ReleaseDockRoundTrip | src/p-3/microservices/station-microservice/app/src/main/java/domain/model/Station.java:23-36 | releasing a docked bike and docking it again restores the docked set |
| Stations.Station.constructor | src/p-3/microservices/station-microservice/app/src/main/java/domain/model/Station.java:13-17 | a new station has the given id, location and capacity and no docked bike |
| Stations.Station.AvailableCapacity | src/p-3/microservices/station-microservice/app/src/main/java/domain/model/Station.java:22 | the free slots plus the docked count equal the capacity, are never negative for a non-negative capacity, and are positive exactly when docking is not refused as full |
| Stations.Station.DockBike | src/p-3/microservices/station-microservice/app/src/main/java/domain/model/Station.java:23-30 | the docked set becomes what the docking rule gives, an error leaves it unchanged, and the capacity bound is kept |
| Stations.Station.ReleaseBike | src/p-3/microservices/station-microservice/app/src/main/java/domain/model/Station.java:32-36 | the docked set becomes what the release rule gives, an error leaves it unchanged, and the capacity bound is kept |
| Stations.DockingScenario | src/p-3/microservices/station-microservice/app/src/main/java/domain/model/Station.java:13-36 | on a capacity-one station: dock succeeds, a second dock fails as full, releasing an undocked bike fails, releasing the docked one succeeds and one slot is free again |
| StationRepository.WithoutId | src/p-3/microservices/map-microservice/app/src/main/java/infrastructure/adapter/persistence/StationRepositoryImpl.java:15 | `removeIf` keeps only stations with another id, all taken from the list |
| StationRepository.SaveReplaces | src/p-3/microservices/map-microservice/app/src/main/java/infrastructure/adapter/persistence/StationRepositoryImpl.java:14-18 | after a save exactly one station has the saved id and it is last; every other id keeps its stations in order |
| StationRepository.SaveIdempotent | src/p-3/microservices/map-microservice/app/src/main/java/infrastructure/adapter/persistence/StationRepositoryImpl.java:14-18 | saving the same station twice gives the same list as saving it once |
| StationRepository.SaveKeepsUniqueIds | src/p-3/microservices/map-microservice/app/src/main/java/infrastructure/adapter/persistence/StationRepositoryImpl.java:14-18 | a save keeps the ids in the list unique |
| StationRepository.WithoutIdSelects | src/p-3/microservices/map-microservice/app/src/main/java/infrastructure/adapter/persistence/StationRepositoryImpl.java:15 | the removal leaves nothing under the removed id and keeps every other id's stations |
| StationRepository.StationStore.constructor | src/p-3/microservices/map-microservice/app/src/main/java/infrastructure/adapter/persistence/StationRepositoryImpl.java:11 | the repository starts with an empty list |
| StationRepository.StationStore.SaveStation | src/p-3/microservices/map-microservice/app/src/main/java/infrastructure/adapter/persistence/StationRepositoryImpl.java:14-18 | the list becomes the old list without the saved id, followed by the saved station |
| StationRepository.StationStore.AllStations | src/p-3/microservices/map-microservice/app/src/main/java/infrastructure/adapter/persistence/StationRepositoryImpl.java:21-23 | `getAllStations` returns the current list, in order |
| StationRepository.ReplaceScenario | src/p-3/microservices/map-microservice/app/src/main/java/infrastructure/adapter/persistence/StationRepositoryImpl.java:14-23 | saving a, then b, then a replacement for a leaves b followed by the replacement |
| BikeRepositoryP3.KeyOfInjective | src/p-3/microservices/map-microservice/app/src/main/java/domain/model/BikeRepositoryImpl.java:19-25 | two bikes share a storage key exactly when they have the same id and the same kind, so an e-bike and an a-bike with one id are stored apart |
| BikeRepositoryP3.LookupKeyNamesBike | src/p-3/microservices/map-microservice/app/src/main/java/domain/model/BikeRepositoryImpl.java:19-21 | a lookup key built from an id and a bike type name reaches only the bike with that id and kind |
| BikeRepositoryP3.GetKeyMatchesSaveKey | src/p-3/microservices/map-microservice/app/src/main/java/domain/model/BikeRepositoryImpl.java:19-33 | the key `getBike` builds from a bike's id and its type in any letter case is the key `saveBike` stored the bike under |
| BikeRepositoryP3.BikeRepository.constructor | src/p-3/microservices/map-microservice/app/src/main/java/domain/model/BikeRepositoryImpl.java:14-15 | a new registry holds no bikes and no assignments |
| BikeRepositoryP3.BikeRepository.SaveBike | src/p-3/microservices/map-microservice/app/src/main/java/domain/model/BikeRepositoryImpl.java:23-29 | the bike is stored or replaced under its id and kind; assignments are untouched; no bike id becomes assigned twice |
| BikeRepositoryP3.BikeRepository.GetBike | src/p-3/microservices/map-microservice/app/src/main/java/domain/model/BikeRepositoryImpl.java:31-40 | the lookup succeeds exactly when a bike is stored under the key, fails with "Bike not found" otherwise, and returns the bike with the requested id and kind |
| BikeRepositoryP3.BikeRepository.AssignBikeToUser | src/p-3/microservices/map-microservice/app/src/main/java/domain/model/BikeRepositoryImpl.java:83-97 | fails with "Bike not found in repository" for an unstored bike, then with "Bike is already assigned to another user" if any user holds that id; otherwise sets only this user's assignment; no id is ever assigned to two users |
| BikeRepositoryP3.BikeRepository.UnassignBikeFromUser | src/p-3/microservices/map-microservice/app/src/main/java/domain/model/BikeRepositoryImpl.java:99-114 | fails when the user has no assignment or holds another bike, with the two messages; otherwise removes only this user's entry |
| BikeRepositoryP3.BikeRepository.IsBikeAssigned | src/p-3/microservices/map-microservice/app/src/main/java/domain/model/BikeRepositoryImpl.java:123-133 | the loop returns the one user holding the bike's id, or nothing exactly when no user holds it |
| BikeRepositoryP3.BikeRepository.AvailableBikes | src/p-3/microservices/map-microservice/app/src/main/java/domain/model/BikeRepositoryImpl.java:116-121 | `getAvailableBikes` lists exactly the stored e-bikes in state AVAILABLE |
| BikeRepositoryP3.BikeRepository.AllBikes | src/p-3/microservices/map-microservice/app/src/main/java/domain/model/BikeRepositoryImpl.java:64-69 | `getAllBikes()` lists exactly the stored bikes other than a-bikes in state AVAILABLE |
| BikeRepositoryP3.BikeRepository.AllBikesOf | src/p-3/microservices/map-microservice/app/src/main/java/domain/model/BikeRepositoryImpl.java:72-81 | `getAllBikes(username)` lists exactly the bikes of `getAllBikes()` that carry the user's assigned id, and nothing for a user without an assignment |
| BikeRepositoryP3.BikeRepository.MovingABikes | src/p-3/microservices/map-microservice/app/src/main/java/domain/model/BikeRepositoryImpl.java:148-153 | `getAllMovingAbikes` lists exactly the stored a-bikes not in state AVAILABLE |
| BikeRepositoryP3.BikeRepository.AssignedABike | src/p-3/microservices/map-microservice/app/src/main/java/domain/model/BikeRepositoryImpl.java:135-146 | `getAssignedABike` returns at most one bike, the a-bike stored under the user's assigned id, and nothing exactly when the user has no assignment or no such a-bike is stored |
| BikeRepositoryP3.BikeRepository.StoredUnderOwnKey | src/p-3/microservices/map-microservice/app/src/main/java/domain/model/BikeRepositoryImpl.java:19-25 | under a key built from an id and a type name sits only a bike with that id and kind |
| BikeRepositoryP3.BikeRepository.ListingsPartition | src/p-3/microservices/map-microservice/app/src/main/java/domain/model/BikeRepositoryImpl.java:64-69 | `getAllBikes()` and the waiting a-bikes together are all stored bikes; the moving a-bikes and the available e-bikes lie within `getAllBikes()` and are disjoint |
| BikeRepositoryP3.SaveThenGet | src/p-3/microservices/map-microservice/app/src/main/java/domain/model/BikeRepositoryImpl.java:23-40 | a saved bike is found again under its id and type, and a bike with the same id but the other kind is unaffected |
| BikeRepositoryP3.AssignThenUnassign | src/p-3/microservices/map-microservice/app/src/main/java/domain/model/BikeRepositoryImpl.java:83-133 | assigning a stored, unassigned bike makes `isBikeAssigned` report the user; unassigning it makes it report nobody |
| BikeRepositoryP1.BikeRepository.constructor | src/p-1/microservices/map-microservice/app/src/main/java/domain/model/BikeRepositoryImpl.java:13-14 | a new registry holds no bikes and no assignments |
| BikeRepositoryP1.BikeRepository.SaveBike | src/p-1/microservices/map-microservice/app/src/main/java/domain/model/BikeRepositoryImpl.java:16-20 | the bike is stored under its bare id, replacing any bike with that id; assignments are untouched |
| BikeRepositoryP1.BikeRepository.GetBike | src/p-1/microservices/map-microservice/app/src/main/java/domain/model/BikeRepositoryImpl.java:22-30 | the lookup succeeds exactly for a stored name and returns the bike of that name; otherwise it fails with "Bike not found" |
| BikeRepositoryP1.BikeRepository.AssignBikeToUser | src/p-1/microservices/map-microservice/app/src/main/java/domain/model/BikeRepositoryImpl.java:68-81 | fails for an unstored bike, then for a bike id some user holds; otherwise sets only this user's assignment; no id is assigned to two users |
| BikeRepositoryP1.BikeRepository.UnassignBikeFromUser | src/p-1/microservices/map-microservice/app/src/main/java/domain/model/BikeRepositoryImpl.java:83-96 | fails when the user has no assignment or holds another bike; otherwise removes only this user's entry |
| BikeRepositoryP1.BikeRepository.IsBikeAssigned | src/p-1/microservices/map-microservice/app/src/main/java/domain/model/BikeRepositoryImpl.java:105-115 | the loop returns the one user holding the bike's id, or nothing exactly when no user holds it |
| BikeRepositoryP1.BikeRepository.AvailableBikes | src/p-1/microservices/map-microservice/app/src/main/java/domain/model/BikeRepositoryImpl.java:98-103 | `getAvailableBikes` lists exactly the stored bikes of either kind in state AVAILABLE |
| BikeRepositoryP1.BikeRepository.UsersWithAssignedAndAvailableBikes | src/p-1/microservices/map-microservice/app/src/main/java/domain/model/BikeRepositoryImpl.java:32-51 | one entry per assigned user: the user's own bike followed by every available bike |
| BikeRepositoryP1.SaveSameIdTwice | src/p-3/microservices/map-microservice/app/src/test/java/it/unibo/EBikeUnitRepositoryTest.java:62-70 | saving two bikes with one name keeps one, the last saved, so exactly one bike is available |
| BikeRepositoryP1.AssignUnassignScenario | src/p-3/microservices/map-microservice/app/src/test/java/it/unibo/EBikeUnitRepositoryTest.java:28-60 | a saved bike is found, an unknown name is not, assign makes `isBikeAssigned` report the user, and unassign makes it report nobody |
| RideDomain.Drained | src/p-3/microservices/ride-microservice/app/src/main/java/domain/model/EBike.java:48-49 | `Math.max(battery - amount, 0)` on 32-bit ints is never negative, is the clamped difference for non-negative inputs, and never exceeds the old battery |
| RideDomain.DrainedTwice | src/p-3/microservices/ride-microservice/app/src/main/java/domain/model/EBike.java:48-49 | draining in two steps drains as much as draining by the sum at once |
| RideDomain.DrainedFixpoints | src/p-3/microservices/ride-microservice/app/src/main/java/domain/model/EBike.java:48-49 | draining by nothing changes nothing, and an empty battery stays empty |
| RideDomain.EBike.constructor | src/p-3/microservices/ride-microservice/app/src/main/java/domain/model/EBike.java:15-22 | a new e-bike has the given id, state, location and battery, direction (1, 0) and speed 0 |
| RideDomain.EBike.SetState | src/p-3/microservices/ride-microservice/app/src/main/java/domain/model/EBike.java:30 | sets the state and nothing else |
| RideDomain.EBike.SetLocation | src/p-3/microservices/ride-microservice/app/src/main/java/domain/model/EBike.java:34 | sets the location and nothing else |
| RideDomain.EBike.SetDirection | src/p-3/microservices/ride-microservice/app/src/main/java/domain/model/EBike.java:38 | sets the direction and nothing else |
| RideDomain.EBike.TypeName | src/p-3/microservices/ride-microservice/app/src/main/java/domain/model/EBike.java:43-45 | `getType` is always "ebike" |
| RideDomain.EBike.DecreaseBattery | src/p-3/microservices/ride-microservice/app/src/main/java/domain/model/EBike.java:48-53 | the battery becomes the clamped drain and is never negative; reaching 0 sets MAINTENANCE, otherwise the state is kept; id, location, direction and speed are unchanged |
| RideDomain.Ride.constructor | src/p-3/microservices/ride-microservice/app/src/main/java/domain/model/Ride.java:16-23 | a new ride has its id, user and bike, is not ongoing and has no end time |
| RideDomain.Ride.Start | src/p-3/microservices/ride-microservice/app/src/main/java/domain/model/Ride.java:32-35 | the ride becomes ongoing and its bike IN_USE; the end time and the bike's battery, location, direction and speed are kept |
| RideDomain.Ride.End | src/p-3/microservices/ride-microservice/app/src/main/java/domain/model/Ride.java:37-42 | an ongoing ride records the end time and stops; a ride that is not ongoing is left unchanged |
| RideDomain.RideLifecycle | src/p-3/microservices/ride-microservice/app/src/main/java/domain/model/Ride.java:16-42 | a new ride is not ongoing, is ongoing after `start`, and after `end` is stopped with its end time; a second `end` keeps the first end time |
| RideDomain.DrainScenario | src/p-3/microservices/ride-microservice/app/src/main/java/domain/model/EBike.java:48-53 | draining 100 by 60 gives 40 and keeps the state; draining 40 by 50 stops at 0 and sets MAINTENANCE |
| RideProjectionP3.BikeKeyAgreesWithMap | src/p-3/microservices/ride-microservice/app/src/main/java/infrastructure/repository/LocalProjectionRepository.java:23-25 | the ride service builds bike keys exactly as the map service does |
| RideProjectionP3.KindsKeptApart | src/p-3/microservices/ride-microservice/app/src/main/java/infrastructure/repository/LocalProjectionRepository.java:34-44 | e-bike and a-bike updates never share a list, and two bikes of one kind share a list only when their ids are equal |
| RideProjectionP3.LatestUser | src/p-3/microservices/ride-microservice/app/src/main/java/infrastructure/repository/LocalProjectionRepository.java:49-55 | no user for an empty list; otherwise the username and credit of an update whose timestamp is the greatest, and the first such update |
| RideProjectionP3.LatestUserAppend | src/p-3/microservices/ride-microservice/app/src/main/java/infrastructure/repository/LocalProjectionRepository.java:51-53 | an update strictly later than all earlier ones becomes the projected user; any other update leaves the projection unchanged |
| RideProjectionP3.Projection.constructor | src/p-3/microservices/ride-microservice/app/src/main/java/infrastructure/repository/LocalProjectionRepository.java:19-21 | a new projection holds no user lists and no bike lists |
| RideProjectionP3.Projection.AppendUserEvent | src/p-3/microservices/ride-microservice/app/src/main/java/infrastructure/repository/LocalProjectionRepository.java:27-32 | only the username's list changes, by appending the event; the bike lists are untouched; every list holds only events about its key |
| RideProjectionP3.Projection.AppendBikeEvent | src/p-3/microservices/ride-microservice/app/src/main/java/infrastructure/repository/LocalProjectionRepository.java:34-44 | the event is appended to the list of its id and kind ("id:ebike" or "id:abike") and nothing else changes; every list holds only events about its key |
| RideProjectionP3.Projection.GetUser | src/p-3/microservices/ride-microservice/app/src/main/java/infrastructure/repository/LocalProjectionRepository.java:46-57 | no user exactly when the username has no updates; otherwise the user carries that username and the credit of a latest update |
| RideProjectionP3.Projection.GetBike | src/p-3/microservices/ride-microservice/app/src/main/java/infrastructure/repository/LocalProjectionRepository.java:59-94 | no bike when the key has no updates; a bike found has the requested id and is of the kind the type names |
| RideProjectionP3.LatestBike | src/p-3/microservices/ride-microservice/app/src/main/java/infrastructure/repository/LocalProjectionRepository.java:64-73 | the update `Stream.max` picks is one of the list with the greatest timestamp |
| RideProjectionP3.Shown | src/p-3/microservices/ride-microservice/app/src/main/java/infrastructure/repository/LocalProjectionRepository.java:75-92 | a bike is built exactly when the update is of the kind the type names, ignoring case, and it carries the update's id, state, location and battery |
| RideProjectionP3.BikeView | src/p-3/microservices/ride-microservice/app/src/main/java/infrastructure/repository/LocalProjectionRepository.java:62-93 | nothing for an empty list; a bike shown carries the fields of a latest update and is of the kind the type names |
| RideProjectionP3.BikeViewNamesBike | src/p-3/microservices/ride-microservice/app/src/main/java/infrastructure/repository/LocalProjectionRepository.java:62-93 | on a list keyed by (id, type) the bike shown has that id |
| RideProjectionP3.BikeViewIff | src/p-3/microservices/ride-microservice/app/src/main/java/infrastructure/repository/LocalProjectionRepository.java:74-92 | a bike is found exactly when the latest update is of the kind the type names |
| RideProjectionP3.LatestBikeAppend | src/p-3/microservices/ride-microservice/app/src/main/java/infrastructure/repository/LocalProjectionRepository.java:64-73 | an update strictly later than all earlier ones decides the bike shown; any other update leaves it unchanged |
| RideProjectionP1.EBikeView | src/p-1/microservices/ride-microservice/app/src/main/java/infrastructure/repository/LocalProjectionRepository.java:55-67 | no e-bike exactly for an empty list; otherwise the e-bike built from the fields of an update with the greatest timestamp |
| RideProjectionP1.EBikeViewAgreesWithP3 | src/p-1/microservices/ride-microservice/app/src/main/java/infrastructure/repository/LocalProjectionRepository.java:52-69 | on e-bike updates this version's `getEBike` shows the same bike as the later version's `getBike(id, "ebike")` |
| RideProjectionP1.Projection.constructor | src/p-1/microservices/ride-microservice/app/src/main/java/infrastructure/repository/LocalProjectionRepository.java:21-23 | a new projection holds no user lists and no e-bike lists |
| RideProjectionP1.Projection.AppendUserEvent | src/p-1/microservices/ride-microservice/app/src/main/java/infrastructure/repository/LocalProjectionRepository.java:25-30 | only the username's list changes, by appending the event; every list holds only events about its key |
| RideProjectionP1.Projection.AppendEBikeEvent | src/p-1/microservices/ride-microservice/app/src/main/java/infrastructure/repository/LocalProjectionRepository.java:32-37 | only the bare bike id's list changes, by appending the event; every list holds only events about its key |
| RideProjectionP1.Projection.GetUser | src/p-1/microservices/ride-microservice/app/src/main/java/infrastructure/repository/LocalProjectionRepository.java:39-50 | no user exactly when the username has no updates; otherwise that username with the credit of a latest update |
| RideProjectionP1.Projection.GetEBike | src/p-1/microservices/ride-microservice/app/src/main/java/infrastructure/repository/LocalProjectionRepository.java:52-69 | no e-bike exactly when the id has no updates; otherwise an e-bike with that id |
| RideService.AdmitOutcome | src/p-3/microservices/ride-microservice/app/src/main/java/application/RestRideServiceAPIImpl.java:39-96 | a start is admitted exactly when it is a `RideStartEvent`, the bike and the user are found, the bike is in its kind's starting state, the credit is not 0 and the battery is not 0; each refusal carries the message of the first failing check, in the source's order, and "Unknown bike type" never occurs |
| RideService.NegativeCreditAdmitted | src/p-3/microservices/ride-microservice/app/src/main/java/application/RestRideServiceAPIImpl.java:85-88 | only a credit of exactly 0 is refused, so a negative credit is admitted |
| RideService.RideService.constructor | src/p-3/microservices/ride-microservice/app/src/main/java/application/RestRideServiceAPIImpl.java:24-35 | a new service has no rides and has published nothing |
| RideService.RideService.StartRide | src/p-3/microservices/ride-microservice/app/src/main/java/application/RestRideServiceAPIImpl.java:39-111 | a refused start changes nothing and returns the refusal; an admitted start registers the ride under "ride-" + user + "-" + bike with its user, bike id and kind, publishes the start event once, and succeeds |
| RideService.RideService.StopRide | src/p-3/microservices/ride-microservice/app/src/main/java/application/RestRideServiceAPIImpl.java:115-135 | a wrong event type fails with "Invalid event type"; a user without a ride fails with "No active ride found"; otherwise the stop of that user's ride is published; the ride repository is unchanged |
| EBikeService.ParseState | src/p-1/microservices/ebike-microservice/app/src/main/java/application/EBikeServiceImpl.java:87 | `EBikeState.valueOf` succeeds exactly for the name of a state and returns that state; any other name fails with the enum's "No enum constant" message |
| EBikeService.ParseName | src/p-1/microservices/ebike-microservice/app/src/main/java/application/EBikeServiceImpl.java:87 | `valueOf` inverts `name()` |
| EBikeService.NameInjective | src/p-1/microservices/ebike-microservice/app/src/main/java/application/EBikeServiceImpl.java:87 | two states never share a name |
| EBikeService.CreateEBike | src/p-1/microservices/ebike-microservice/app/src/main/java/application/EBikeServiceImpl.java:29-46 | any event but a create fails with "Event type mismatch"; a create yields a bike with the requested id and coordinates, AVAILABLE, with battery 100 |
| EBikeService.RechargeEBike | src/p-1/microservices/ebike-microservice/app/src/main/java/application/EBikeServiceImpl.java:49-75 | any event but a recharge fails with "Event type mismatch"; an unknown id fails with "eBike not found"; otherwise the stored bike keeps its id and location and becomes AVAILABLE with battery 100 |
| EBikeService.UpdateEBike | src/p-1/microservices/ebike-microservice/app/src/main/java/application/EBikeServiceImpl.java:78-111 | any event but an update request fails with "Event type mismatch"; an unknown state name fails before the lookup; an unknown id fails with "eBike not found"; otherwise the stored bike's id with the requested location and battery, MAINTENANCE when the battery is 0 and the requested state otherwise |
| EBikeService.Stored | src/p-1/microservices/ebike-microservice/app/src/main/java/application/EBikeServiceImpl.java:41-45 | writing a bike back puts it under its id, leaves every other bike as it was, and keeps the repository keyed by id |
| EBikeService.ResultKeepsRequestedId | src/p-1/microservices/ebike-microservice/app/src/main/java/application/EBikeServiceImpl.java:63-105 | in a repository keyed by id, recharge and update return the bike with the id the event names |
| EBikeService.RechargeIdempotent | src/p-1/microservices/ebike-microservice/app/src/main/java/application/EBikeServiceImpl.java:49-75 | recharging twice leaves the repository as recharging once |
| EBikeService.UpdateThenRecharge | src/p-1/microservices/ebike-microservice/app/src/main/java/application/EBikeServiceImpl.java:49-111 | after any successful update, even one that forced MAINTENANCE, a recharge returns the bike to AVAILABLE with battery 100 where the update left it |
| EBikeService.CreateThenUpdate | src/p-1/microservices/ebike-microservice/app/src/main/java/application/EBikeServiceImpl.java:29-111 | a created bike is found by a later update and recharge of its id |
| EBikeService.AsMapState | src/p-1/microservices/ebike-microservice/app/src/main/java/application/EBikeServiceImpl.java:35-40 | the e-bike service's states map to map-service states other than AUTONOMOUS_MOVING |
| EBikeService.MapServiceAccepts | src/p-1/microservices/map-microservice/app/src/main/java/domain/model/EBike.java:13-21 | every bike this service produces is accepted by the map service's `EBike` constructor with the same id, state and battery |
| DittoFactory.ToDittoMessage | src/p-3/microservices/ditto-kafka-adapter/app/src/main/java/domain/model/DittoEventFactory.java:20-55 | a station or a-bike update becomes a message with exactly topic `org.eclipse.ditto/<id>/things/twin/commands/modify`, empty headers, path "/features" and a value; any other class fails with "Unsupported event type: class <name>" |
| DittoFactory.ToDittoCreateMessage | src/p-3/microservices/ditto-kafka-adapter/app/src/main/java/domain/model/DittoEventFactory.java:57-90 | a station or a-bike update becomes a message with exactly topic `.../commands/create`, empty headers, path "/" and a value; any other class fails with the same message |
| DittoFactory.ToDittoResponseMessage | src/p-3/microservices/ditto-kafka-adapter/app/src/main/java/domain/model/DittoEventFactory.java:93-114 | the reply has exactly type "response", status 200, the correlation id as header, path "/outbox/messages/response" and the payload |
| DittoFactory.ResponseIgnoresThingAndStatus | src/p-3/microservices/ditto-kafka-adapter/app/src/main/java/domain/model/DittoEventFactory.java:93-114 | the reply does not depend on the thing id or on the status it is given |
| DittoFactory.ModifyRoundTrip | src/p-3/microservices/ditto-kafka-adapter/app/src/main/java/domain/model/DittoEventFactory.java:30-55 | the modify command carries the whole update: exactly one feature, named "station" or "abike", whose properties read back as the event |
| DittoFactory.CreateRoundTrip | src/p-3/microservices/ditto-kafka-adapter/app/src/main/java/domain/model/DittoEventFactory.java:67-90 | the create command carries the whole update under "features" and names the default policy "org.eclipse.ditto:default-policy" |
| DittoFactory.CreateAndModifyAgree | src/p-3/microservices/ditto-kafka-adapter/app/src/main/java/domain/model/DittoEventFactory.java:20-90 | the create and the modify command of one update carry the same update and have different topics |
| DittoFactory.SlashIndex | src/p-3/microservices/ditto-kafka-adapter/app/src/main/java/infrastructure/adapter/kafka/EventConsumer.java:32 | the first '/' of a string, or its length when there is none |
| DittoFactory.TopicRoundTrip | src/p-3/microservices/ditto-kafka-adapter/app/src/main/java/infrastructure/adapter/kafka/EventConsumer.java:31-33 | a thing id without '/' is recovered exactly by the adapter's consumer from a topic the factory built |
| DittoFactory.TopicCutsIdAtSlash | src/p-3/microservices/ditto-kafka-adapter/app/src/main/java/infrastructure/adapter/kafka/EventConsumer.java:31-33 | an id containing '/' is cut at it when read back from the topic, so "a/b" is read as "a" |
| DittoFactory.TopicInjective | src/p-3/microservices/ditto-kafka-adapter/app/src/main/java/domain/model/DittoEventFactory.java:32-82 | topics built with the two verbs are equal exactly when their ids and verbs are equal |
| DittoTranslator.ExtractKey | src/p-3/microservices/ditto-kafka-adapter/app/src/main/java/application/DittoTranslatorService.java:63-70 | the key is the station's id, the a-bike's id, or "unknown" for anything else |
| DittoTranslator.SentFor | src/p-3/microservices/ditto-kafka-adapter/app/src/main/java/application/DittoTranslatorService.java:26-48 | for a supported event: a create message first exactly when the id is new, then one modify message, all under the event's key; nothing for any other event |
| DittoTranslator.SupportedKeysAppend | src/p-3/microservices/ditto-kafka-adapter/app/src/main/java/application/DittoTranslatorService.java:26-48 | the keys of the supported events grow only by the key of a supported event |
| DittoTranslator.AllKeysAppend | src/p-3/microservices/ditto-kafka-adapter/app/src/main/java/application/DittoTranslatorService.java:26-48 | the keys of all events grow by the key of each event |
| DittoTranslator.RunKnowsSupportedKeys | src/p-3/microservices/ditto-kafka-adapter/app/src/main/java/application/DittoTranslatorService.java:26-48 | with the corrected rule, the known ids from a fresh service are exactly the keys of the station and a-bike updates handled |
| DittoTranslator.RunAsWrittenKnowsAllKeys | src/p-3/microservices/ditto-kafka-adapter/app/src/main/java/application/DittoTranslatorService.java:29-32 | as written, the known ids are the keys of all events handled, "unknown" included once an unsupported event has arrived |
| DittoTranslator.FirstUpdateCreates | src/p-3/microservices/ditto-kafka-adapter/app/src/main/java/application/DittoTranslatorService.java:29-45 | an update sends a create message exactly when no earlier update named its id |
| DittoTranslator.RunGrows | src/p-3/microservices/ditto-kafka-adapter/app/src/main/java/application/DittoTranslatorService.java:31 | the known ids only grow |
| DittoTranslator.UnknownIdPoisoned | src/p-3/microservices/ditto-kafka-adapter/app/src/main/java/application/DittoTranslatorService.java:29-32 | as written, after an unsupported event a station with id "unknown" gets one message and no create command; with the correction it gets two |
| DittoTranslator.TranslatorService.constructor | src/p-3/microservices/ditto-kafka-adapter/app/src/main/java/application/DittoTranslatorService.java:13-23 | a new service knows no ids and has sent nothing |
| DittoTranslator.TranslatorService.HandleEventAsWritten | src/p-3/microservices/ditto-kafka-adapter/app/src/main/java/application/DittoTranslatorService.java:26-48 | as written: an unsupported event fails with the factory's message; the id is known afterwards even then; what is sent is what the event sends |
| DittoTranslator.TranslatorService.HandleEvent | src/p-3/microservices/ditto-kafka-adapter/app/src/main/java/application/DittoTranslatorService.java:26-48 | with the correction: an unsupported event fails and changes no known id; what is sent is what the event sends |
| DittoTranslator.TranslatorService.SendDittoResponse | src/p-3/microservices/ditto-kafka-adapter/app/src/main/java/application/DittoTranslatorService.java:50-61 | the reply is appended to the response producer's records under the correlation id; nothing else changes |
| DittoTranslator.TwoUpdatesScenario | src/p-3/microservices/ditto-kafka-adapter/app/src/main/java/application/DittoTranslatorService.java:26-48 | two updates of one station from a fresh service send create, modify, modify, all keyed by the station's id |
| UserEvents.EventsOf | src/p-3/microservices/user-microservice/app/src/main/java/infrastructure/persistence/MongoUserEventStoreRepository.java:56-78 | `getEventsByUsername` returns only stored events about the username, taken from the store |
| UserEvents.EventsOfAppend | src/p-3/microservices/user-microservice/app/src/main/java/infrastructure/persistence/MongoUserEventStoreRepository.java:56-78 | the events of a username in two stretches of the store are the events of each stretch, in order |
| UserEvents.EventsOfSaved | src/p-3/microservices/user-microservice/app/src/main/java/infrastructure/persistence/MongoUserEventStoreRepository.java:29-53 | saving an event appends it to the events of its subject |
| UserEvents.EventsOfOthers | src/p-3/microservices/user-microservice/app/src/main/java/infrastructure/persistence/MongoUserEventStoreRepository.java:29-78 | saving events about other users does not change a user's events |
| UserEvents.EventsOfNone | src/p-3/microservices/user-microservice/app/src/main/java/infrastructure/persistence/MongoUserEventStoreRepository.java:56-78 | a store with no event about a username yields no events for it |
| UserEvents.InsertByTs | src/p-3/microservices/user-microservice/app/src/main/java/application/UserServiceImpl.java:215 | inserting into the sorted list adds exactly one element |
| UserEvents.SortByTs | src/p-3/microservices/user-microservice/app/src/main/java/application/UserServiceImpl.java:215 | the sort keeps the length |
| UserEvents.SortSortsAndPermutes | src/p-3/microservices/user-microservice/app/src/main/java/application/UserServiceImpl.java:215 | `sort(Comparator.comparing(Event::getTimestamp))` returns its input in timestamp order, as a permutation |
| UserEvents.SortSorts | src/p-3/microservices/user-microservice/app/src/main/java/application/UserServiceImpl.java:215 | the sort's result is in timestamp order |
| UserEvents.SortPermutes | src/p-3/microservices/user-microservice/app/src/main/java/application/UserServiceImpl.java:215 | the sort's result is a permutation of its input |
| UserEvents.InsertPermutes | src/p-3/microservices/user-microservice/app/src/main/java/application/UserServiceImpl.java:215 | an insertion adds exactly the inserted event to the multiset |
| UserEvents.InsertKeepsSorted | src/p-3/microservices/user-microservice/app/src/main/java/application/UserServiceImpl.java:215 | inserting into a sorted list keeps it sorted |
| UserEvents.InsertStable | src/p-3/microservices/user-microservice/app/src/main/java/application/UserServiceImpl.java:215 | an insertion places the event after all events with its timestamp |
| UserEvents.SortStable | src/p-3/microservices/user-microservice/app/src/main/java/application/UserServiceImpl.java:215 | the sort is stable: the events that share a timestamp keep their order |
| UserEvents.SortKeepsSorted | src/p-3/microservices/user-microservice/app/src/main/java/application/UserServiceImpl.java:215 | a list already in timestamp order is left as it is |
| UserEvents.StableSortUnique | src/p-3/microservices/user-microservice/app/src/main/java/application/UserServiceImpl.java:215 | two timestamp-ordered lists that agree on the events of every timestamp are equal, so any stable sort by timestamp, the JDK's included, returns the same list as `SortByTs` |
| UserEvents.WithTsAppend | src/p-3/microservices/user-microservice/app/src/main/java/application/UserServiceImpl.java:215 | the events with a timestamp in two lists joined are those of each list, in order |
| UserEvents.WithTsMembers | src/p-3/microservices/user-microservice/app/src/main/java/application/UserServiceImpl.java:215 | the events with a timestamp are exactly the members carrying it |
| UserEvents.SameLastTs | src/p-3/microservices/user-microservice/app/src/main/java/application/UserServiceImpl.java:215 | two sorted lists that agree on every timestamp end with the same timestamp |
| UserEvents.SameLast | src/p-3/microservices/user-microservice/app/src/main/java/application/UserServiceImpl.java:215 | such lists end with the same event, and their fronts again agree on every timestamp |
| UserServiceP3.FoldAppend | src/p-3/microservices/user-microservice/app/src/main/java/application/UserServiceImpl.java:31-43 | folding one more event is one more step of the `rebuildUserState` loop |
| UserServiceP3.FoldConcat | src/p-3/microservices/user-microservice/app/src/main/java/application/UserServiceImpl.java:31-43 | folding two stretches of events is folding the second from the state the first leaves |
| UserServiceP3.RebuildUserState | src/p-3/microservices/user-microservice/app/src/main/java/application/UserServiceImpl.java:29-46 | the loop over the events computes the fold from `null`: creation restarts at 100 credits, an a-bike request costs 5, a recharge adds its amount, an update replaces the user, each only once a user exists |
| UserServiceP3.FoldPresence | src/p-3/microservices/user-microservice/app/src/main/java/application/UserServiceImpl.java:31-43 | once a user exists the fold never loses it; from `null` a user appears exactly when some event is a creation |
| UserServiceP3.RebuildPresence | src/p-3/microservices/user-microservice/app/src/main/java/application/UserServiceImpl.java:29-46 | a rebuilt user exists if and only if some event is a `UserCreatedEvent` |
| UserServiceP3.RebuildFromCreation | src/p-3/microservices/user-microservice/app/src/main/java/application/UserServiceImpl.java:33-34 | events before a creation play no part in the rebuilt user |
| UserServiceP3.RebuildStep | src/p-3/microservices/user-microservice/app/src/main/java/application/UserServiceImpl.java:33-42 | appending one event to an existing user: creation resets to 100, a-bike request subtracts 5, recharge adds the amount, update replaces, sign-in and update requests leave it unchanged |
| UserServiceP3.RebuildSaved | src/p-3/microservices/user-microservice/app/src/main/java/application/UserServiceImpl.java:29-46 | saving an event advances the rebuilt state of its subject by exactly one fold step |
| UserServiceP3.FoldKeepsUsername | src/p-3/microservices/user-microservice/app/src/main/java/application/UserServiceImpl.java:33-42 | folding events about one username keeps the user's id equal to it |
| UserServiceP3.RebuiltUsername | src/p-3/microservices/user-microservice/app/src/main/java/application/UserServiceImpl.java:29-46 | the user rebuilt from a username's events carries that username |
| UserServiceP3.Classify | src/p-3/microservices/user-microservice/app/src/main/java/application/UserServiceImpl.java:196-207 | the grouping key is defined exactly for creations, updates and recharges, and is then the event's subject |
| UserServiceP3.Group | src/p-3/microservices/user-microservice/app/src/main/java/application/UserServiceImpl.java:195-208 | every member of a group is a stored event with that key |
| UserServiceP3.GroupMembers | src/p-3/microservices/user-microservice/app/src/main/java/application/UserServiceImpl.java:195-208 | an event is in the group of a key if and only if it is stored and classified under that key |
| UserServiceP3.HasCreatedMembers | src/p-3/microservices/user-microservice/app/src/main/java/application/UserServiceImpl.java:33-34 | a sequence holds a creation if and only if some element is a creation |
| UserServiceP3.GroupCreated | src/p-3/microservices/user-microservice/app/src/main/java/application/UserServiceImpl.java:195-208 | a group holds a creation if and only if a stored creation is for that username |
| UserServiceP3.SortedHasCreated | src/p-3/microservices/user-microservice/app/src/main/java/application/UserServiceImpl.java:215 | sorting a group by timestamp keeps whether it holds a creation |
| UserServiceP3.AllUsersListsCreated | src/p-3/microservices/user-microservice/app/src/main/java/application/UserServiceImpl.java:185-224 | the users listed are exactly the usernames some stored event creates, each listed under its own username |
| UserServiceP3.AsWrittenAgreesWhenClassified | src/p-3/microservices/user-microservice/app/src/main/java/application/UserServiceImpl.java:195-228 | when every stored event has a grouping key, the listing as written equals the intended one |
| UserServiceP3.AsWrittenDropsEveryone | src/p-3/microservices/user-microservice/app/src/main/java/application/UserServiceImpl.java:204-207 | one stored a-bike request makes the listing as written empty while the intended listing holds the user |
| UserServiceP3.UpdateAsWrittenForgetsCredit | src/p-3/microservices/user-microservice/app/src/main/java/application/UserServiceImpl.java:142-143 | saving only the update request leaves the rebuilt user unchanged, so the published credit is not the stored one |
| UserServiceP3.UpdateAsWrittenCounterexample | src/p-3/microservices/user-microservice/app/src/main/java/application/UserServiceImpl.java:142-143 | a concrete store where the credit set by `updateUser` is lost on the next rebuild |
| UserServiceP3.UpdateKeepsCredit | src/p-3/microservices/user-microservice/app/src/main/java/application/UserServiceImpl.java:127-152 | saving the request and then the `UserUpdateEvent` makes the rebuilt user carry the requested credit |
| UserServiceP3.SignUpRebuild | src/p-3/microservices/user-microservice/app/src/main/java/application/UserServiceImpl.java:69-92 | after sign-up on a fresh username the rebuilt user is the returned one with 100 credits |
| UserServiceP3.UpdateRebuild | src/p-3/microservices/user-microservice/app/src/main/java/application/UserServiceImpl.java:40-41 | saving an update about an existing user makes the rebuilt user the one it carries |
| UserServiceP3.UpdateAfter | src/p-3/microservices/user-microservice/app/src/main/java/application/UserServiceImpl.java:172-173 | saving an event and then an update leaves the update's user as the rebuilt one |
| UserServiceP3.RechargeApplied | src/p-3/microservices/user-microservice/app/src/main/java/application/UserServiceImpl.java:37-39 | saving a recharge adds its amount to the rebuilt credit, as a Java `int` |
| UserServiceP3.RechargeRebuild | src/p-3/microservices/user-microservice/app/src/main/java/application/UserServiceImpl.java:156-182 | after `rechargeCredit` the rebuilt user is the returned one: old credit plus amount |
| UserServiceP3.AbikeRequestRebuild | src/p-3/microservices/user-microservice/app/src/main/java/application/UserServiceImpl.java:100-125 | after `abikeRequested` the published rebuilt user has 5 credits less |
| UserServiceP3.SignInKeepsUser | src/p-3/microservices/user-microservice/app/src/main/java/application/UserServiceImpl.java:48-67 | a successful sign-in saves an event that does not change the user's state |
| UserServiceP3.UserService.constructor | src/p-3/microservices/user-microservice/app/src/main/java/application/UserServiceImpl.java:29-229 | the service starts on a given store with nothing published |
| UserServiceP3.UserService.SignIn | src/p-3/microservices/user-microservice/app/src/main/java/application/UserServiceImpl.java:48-67 | a known user is returned and the sign-in saved; an unknown one fails with "User not found for username: …" and nothing is saved |
| UserServiceP3.UserService.SignUp | src/p-3/microservices/user-microservice/app/src/main/java/application/UserServiceImpl.java:69-92 | refused with "User already exists" when any event is about the username; otherwise the creation and an update to 100 credits are saved and that user published |
| UserServiceP3.UserService.GetUserByUsername | src/p-3/microservices/user-microservice/app/src/main/java/application/UserServiceImpl.java:94-98 | the user is present exactly when an event creates it, and then carries the username asked for |
| UserServiceP3.UserService.AbikeRequested | src/p-3/microservices/user-microservice/app/src/main/java/application/UserServiceImpl.java:100-125 | other events do nothing; a request is saved and the rebuilt user, if any, is published |
| UserServiceP3.UserService.UpdateUserAsWritten | src/p-3/microservices/user-microservice/app/src/main/java/application/UserServiceImpl.java:127-152 | other events complete with null; an unknown user fails with "User not found"; otherwise only the request is saved and the user with the requested credit is published and returned |
| UserServiceP3.UserService.UpdateUser | src/p-3/microservices/user-microservice/app/src/main/java/application/UserServiceImpl.java:127-152 | as written, but the update event is saved after the request, and the rebuilt user then equals the returned one |
| UserServiceP3.UserService.RechargeCredit | src/p-3/microservices/user-microservice/app/src/main/java/application/UserServiceImpl.java:156-182 | an unknown user fails with "User not found"; otherwise the recharge and an update to old credit plus amount are saved, and that user published and returned |
| UserServiceP3.UserService.GetAllUsersAsWritten | src/p-3/microservices/user-microservice/app/src/main/java/application/UserServiceImpl.java:185-229 | as written: the listing is empty as soon as one stored event has no grouping key; otherwise it holds exactly the users created in the store, each under its own username |
| UserServiceP3.UserService.GetAllUsers | src/p-3/microservices/user-microservice/app/src/main/java/application/UserServiceImpl.java:185-229 | corrected, with unclassified events left out of the grouping: the users listed are exactly those created in the store, each under its own username |
| UserServiceP1.FoldAppend | src/p-1/microservices/user-microservice/app/src/main/java/application/UserServiceImpl.java:31-41 | folding one more event is one more step of this version's loop |
| UserServiceP1.RebuildUserState | src/p-1/microservices/user-microservice/app/src/main/java/application/UserServiceImpl.java:29-44 | the loop computes the fold from `null`: creation restarts at 100 credits, an update replaces the user, a recharge adds its amount once a user exists, anything else is skipped |
| UserServiceP1.FoldsAgree | src/p-1/microservices/user-microservice/app/src/main/java/application/UserServiceImpl.java:31-41 | on events without a-bike requests this version's fold equals the later one from any start |
| UserServiceP1.RebuildAgreesWithP3 | src/p-1/microservices/user-microservice/app/src/main/java/application/UserServiceImpl.java:29-44 | on events without a-bike requests both versions rebuild the same user |
| UserServiceP1.AbikeRequestSkipped | src/p-1/microservices/user-microservice/app/src/main/java/application/UserServiceImpl.java:32-41 | an a-bike request is skipped by this version's fold |
| UserServiceP1.RebuildPresence | src/p-1/microservices/user-microservice/app/src/main/java/application/UserServiceImpl.java:29-44 | a rebuilt user exists if and only if some event is a `UserCreatedEvent` |
| UserServiceP1.FoldPresenceAgree | src/p-1/microservices/user-microservice/app/src/main/java/application/UserServiceImpl.java:31-41 | whether a user exists after the fold is the same in both versions |
| UserServiceP1.FoldPresenceSameStart | src/p-1/microservices/user-microservice/app/src/main/java/application/UserServiceImpl.java:31-41 | whether a user exists after the later fold depends only on whether the start had one |
| UserServiceP1.UpdateAsWrittenForgetsCredit | src/p-1/microservices/user-microservice/app/src/main/java/application/UserServiceImpl.java:110-111 | saving only the update request leaves the rebuilt user unchanged |
| UserServiceP1.UpdateKeepsCredit | src/p-1/microservices/user-microservice/app/src/main/java/application/UserServiceImpl.java:98-120 | saving the request and then the `UserUpdateEvent` makes the rebuilt user the published one |
| UserServiceP1.UserService.constructor | src/p-1/microservices/user-microservice/app/src/main/java/application/UserServiceImpl.java:29-148 | the service starts on a given store with nothing published |
| UserServiceP1.UserService.SignIn | src/p-1/microservices/user-microservice/app/src/main/java/application/UserServiceImpl.java:46-65 | a known user is returned and the sign-in saved; an unknown one fails with "User not found for username: …" and nothing is saved |
| UserServiceP1.UserService.SignUp | src/p-1/microservices/user-microservice/app/src/main/java/application/UserServiceImpl.java:67-90 | refused with "User already exists" when any event is about the username; otherwise the creation and an update to 100 credits are saved and that user published |
| UserServiceP1.UserService.UpdateUserAsWritten | src/p-1/microservices/user-microservice/app/src/main/java/application/UserServiceImpl.java:98-120 | the request's id is looked up; an unknown user fails with "User not found"; otherwise only the request is saved and the user with the requested credit is published and returned |
| UserServiceP1.UserService.UpdateUser | src/p-1/microservices/user-microservice/app/src/main/java/application/UserServiceImpl.java:98-120 | as written, but the update event is saved as well, and the rebuilt user then equals the returned one |
| UserServiceP1.UserService.RechargeCredit | src/p-1/microservices/user-microservice/app/src/main/java/application/UserServiceImpl.java:122-148 | an unknown user fails with "User not found"; otherwise the recharge and an update to old credit plus amount are saved, and that user published and returned |

## Left out

- Kafka, MQTT and websocket sends: every send is modelled as an append to a sequence of records (published users, Ditto messages, ride events). Serialisation with Jackson or Avro, and its exceptions, are not modelled.
- Mongo persistence: a failed save or query is not modelled. The events of a username are the stored events whose subject is that username, as the store's port documents ("all events associated with a specific username", src/p-1/microservices/user-microservice/app/src/main/java/application/ports/UserEventStoreRepository.java:22-28). A `UserUpdateEvent` counts as an event of its user's name.
- The Mongo adapter's own query is not modelled. It matches a top-level `username` field (src/p-3/microservices/user-microservice/app/src/main/java/infrastructure/persistence/MongoUserEventStoreRepository.java:58). A saved `UserUpdateEvent` holds the name only under `user` (same file, 33-44), so that query never returns one. Every property here that involves a saved `UserUpdateEvent` therefore holds for the port's contract, not for the Mongo adapter. This covers `UserServiceP3.UpdateKeepsCredit`, `UserServiceP3.SignUpRebuild`, `UserServiceP3.RechargeRebuild` and the corrected `UpdateUser` methods. The `UserSingInEvent` class name is not modelled either.
- The source casts the event to the expected class without a check in `signIn`, `signUp` and `rechargeCredit` of both user services, and in the p-1 `updateUser`; a wrong class would throw `ClassCastException`. These casts are assumed to succeed: `UserServiceP3.UserService.SignIn`, `SignUp` and `RechargeCredit`, and `UserServiceP1.UserService.SignIn`, `SignUp`, `UpdateUserAsWritten`, `UpdateUser` and `RechargeCredit` require an event of the cast's kind.
- `extractKey` tests the classes `domain.model.StationUpdateEvent` and `domain.model.ABikeUpdateEvent`, while the factory tests the `domain.event` classes of the same names. The model treats them as one pair of types.
- `EBikeService`: the `EBikeState` enum, the `EBike` class and `EBikeRechargeEvent` of the p-1 e-bike service are not part of this model. The states are taken to be AVAILABLE, IN_USE and MAINTENANCE. `valueOf` on an unknown name is modelled as a failed future, though Java throws it synchronously.
- Ride simulations (`RideSimulation`) are not part of this model. A ride registered by `RideService.RideService.StartRide` stands for the ride and the simulation started for it.
- RideService.RideService.StopRide: publishes only the `RideStopEvent` that `stopRide` itself publishes (src/p-3/microservices/ride-microservice/app/src/main/java/application/RestRideServiceAPIImpl.java:129), and leaves the registered rides unchanged. It does not model what `stopSimulationManually` does before that: ending the ride, putting an IN_USE bike back to AVAILABLE, and stopping the simulation.
- The simulation's completion handler in `startRide` (src/p-3/microservices/ride-microservice/app/src/main/java/application/RestRideServiceAPIImpl.java:101-109) is not modelled: the second `RideStopEvent` it publishes, and the removal of the ride from the repository.
- RideDomain.Ride: a ride holds an e-bike only. The source's `Ride` holds any `Bike`, and `startRide` admits a-bikes too, so starting and ending a ride on an a-bike is not modelled.
- ABikeRecord.NewABike: the record's `ABikeState` enum is not part of this model. The map service's bike states stand in for it.
- Random UUIDs and the clock are parameters (`now`, timestamps). Coordinates and speeds are `real`, only stored and copied.
- Map iteration order: the listings the source builds from `HashMap` values are sets or maps, because the source leaves their order unspecified.
- `toLowerCase` is modelled on ASCII letters only. `String.compareTo` is modelled on code points, which equals Java's UTF-16 order below U+E000.
- `RideService`: the bike looked up through the map service is the map service's `Bike` datatype.
- `init` of the user service only republishes `getAllUsers`, so it is not modelled.
- `getUsersWithAssignedAndAvailableBikes` of the p-3 registry has the shape of the p-1 one, which is modelled, so it is not modelled again. The two `getAllBikes` of the p-1 registry are not modelled either: they repeat the p-3 filters.
- The duplicate-insert failure of the Mongo stores is not modelled.
- RideProjectionP3.Projection.GetBike: states only the id and kind of a bike found. The fields it carries are stated by `RideProjectionP3.BikeView` and `RideProjectionP3.BikeViewIff`.
- RideProjectionP1.Projection.GetEBike: states only the id of an e-bike found. Its fields are stated by `RideProjectionP1.EBikeView`.

## Findings

| source | as written | input that shows it | evidently intended | confidence | as-written member | corrected member |
|---|---|---|---|---|---|---|
| src/p-3/microservices/user-microservice/app/src/main/java/application/UserServiceImpl.java:142-143 | `updateUser` builds a `UserUpdateEvent` with the new credit but saves the request event, which the fold skips | a store of alice's creation and an update to 100 credits, then a request to set 50: the user returned has 50, the next rebuild still has 100 | save the `UserUpdateEvent` after the request, as `signUp` and `rechargeCredit` do. The correction is proved against the store port's contract, where a `UserUpdateEvent` is an event of its user's name. With the Mongo adapter, whose query matches only a top-level `username`, the store's query would also have to match `user.username` | high (not executed) | UserServiceP3.UpdateAsWrittenCounterexample | UserServiceP3.UpdateKeepsCredit |
| src/p-3/microservices/user-microservice/app/src/main/java/application/UserServiceImpl.java:195-228 | the `groupingBy` classifier returns `null` for sign-in, a-bike request and update-request events, `groupingBy` then throws, and `exceptionally` returns an empty list. The sign-in case follows the store port's contract: the Mongo adapter reads sign-ins back only under the class name `UserSingInEvent` (MongoUserEventStoreRepository.java:114), so with it only a-bike and update requests trigger the failure | alice's creation followed by alice's a-bike request: the listing is empty | leave unclassified events out of the grouping and list alice | high (not executed) | UserServiceP3.AsWrittenDropsEveryone | UserServiceP3.AllUsersListsCreated |
| src/p-3/microservices/ditto-kafka-adapter/app/src/main/java/application/DittoTranslatorService.java:29-32 | the key is added to `knownIds` before the factory rejects an unsupported event, so "unknown" becomes known | an unsupported event, then an update of a station whose id is "unknown": no create command is sent for it. No caller in the source passes an unsupported class: `EventConsumer` hands over only a-bike and station updates (EventConsumer.java:17-22), so the fault is latent. If the `domain.model` and `domain.event` classes are taken as distinct, the factory rejects every event the consumer delivers, and the code as written marks each real id as known before that rejection | add the key only once the messages for a supported event are built | medium (not executed) | DittoTranslator.UnknownIdPoisoned | DittoTranslator.RunKnowsSupportedKeys |
