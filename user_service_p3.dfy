/** The user service, last iteration (user-microservice
    `application/UserServiceImpl.java` under p-3): a user's state is rebuilt
    by folding the events stored about the user, and every operation reads
    that state, saves its events and publishes the resulting user. */
module UserServiceP3 {
  import opened Common
  import opened UserEvents

  const InitialCredit: Int32 := 100
  const AbikeCost: int := 5
  const UserAlreadyExists: string := "User already exists"
  const UserNotFound: string := "User not found"

  function NotFoundFor(username: string): string
  {
    "User not found for username: " + username
  }

  /** One iteration of the `rebuildUserState` loop: a creation (re)starts the
      user with 100 credits; an a-bike request costs 5, a recharge adds its
      amount and an update replaces the user, each only once a user exists;
      every other event is skipped. Credit arithmetic is Java `int`. */
  function Step(user: Option<User>, e: Event): Option<User>
  {
    match e
    case Created(username, userType, _) => Some(User(username, userType, InitialCredit))
    case RequestedAbike(_, _) =>
      if user.Some? then Some(User(user.value.username, user.value.userType, Wrap32(user.value.credit - AbikeCost))) else user
    case Recharge(_, amount, _) =>
      if user.Some? then Some(User(user.value.username, user.value.userType, Wrap32(user.value.credit + amount))) else user
    case Update(u, _) => if user.Some? then Some(u) else user
    case _ => user
  }

  /** The loop from a given starting user. */
  function Fold(user: Option<User>, events: seq<Event>): Option<User>
    decreases |events|
  {
    if events == [] then user else Fold(Step(user, events[0]), events[1..])
  }

  /** `rebuildUserState`: the loop starts from `null`. */
  function Rebuild(events: seq<Event>): Option<User>
  {
    Fold(None, events)
  }

  lemma {:induction false} FoldAppend(user: Option<User>, events: seq<Event>, e: Event)
    ensures Fold(user, events + [e]) == Step(Fold(user, events), e)
    decreases |events|
  {
    if events == [] {
      assert events + [e] == [e];
    } else {
      assert (events + [e])[1..] == events[1..] + [e];
      FoldAppend(Step(user, events[0]), events[1..], e);
    }
  }

  lemma {:induction false} FoldConcat(user: Option<User>, a: seq<Event>, b: seq<Event>)
    ensures Fold(user, a + b) == Fold(Fold(user, a), b)
    decreases |a|
  {
    if a == [] {
      assert a + b == b;
    } else {
      assert (a + b)[1..] == a[1..] + b;
      FoldConcat(Step(user, a[0]), a[1..], b);
    }
  }

  /** The loop of `rebuildUserState`, proved to compute the fold. */
  method RebuildUserState(events: seq<Event>) returns (user: Option<User>)
    ensures user == Rebuild(events)
  {
    user := None;
    var i := 0;
    while i < |events|
      invariant 0 <= i <= |events|
      invariant user == Fold(None, events[..i])
    {
      FoldAppend(None, events[..i], events[i]);
      assert events[..i + 1] == events[..i] + [events[i]];
      user := Step(user, events[i]);
      i := i + 1;
    }
    assert events[..i] == events;
  }

  /** Whether some event is a creation. */
  predicate HasCreated(events: seq<Event>)
  {
    exists i :: 0 <= i < |events| && events[i].Created?
  }

  /** The fold yields a user exactly when some event creates one, whatever
      the starting user was, once a creation has been seen. */
  lemma {:induction false} FoldPresence(user: Option<User>, events: seq<Event>)
    ensures user.Some? ==> Fold(user, events).Some?
    ensures user.None? ==> (Fold(user, events).Some? <==> HasCreated(events))
    decreases |events|
  {
    if events != [] {
      FoldPresence(Step(user, events[0]), events[1..]);
      if user.None? && !events[0].Created? {
        assert HasCreated(events[1..]) <==> HasCreated(events) by {
          if HasCreated(events) {
            var i :| 0 <= i < |events| && events[i].Created?;
            assert events[1..][i - 1] == events[i];
          }
          if HasCreated(events[1..]) {
            var i :| 0 <= i < |events[1..]| && events[1..][i].Created?;
            assert events[i + 1].Created?;
          }
        }
      }
    }
  }

  /** No user without a `UserCreatedEvent`, and a user as soon as there is one. */
  lemma RebuildPresence(events: seq<Event>)
    ensures Rebuild(events).Some? <==> HasCreated(events)
  {
    FoldPresence(None, events);
  }

  /** Events before a creation play no part: the state is the one rebuilt
      from that creation on. */
  lemma RebuildFromCreation(events: seq<Event>, k: nat)
    requires k < |events| && events[k].Created?
    ensures Rebuild(events) == Rebuild(events[k..])
  {
    assert events == events[..k] + events[k..];
    FoldConcat(None, events[..k], events[k..]);
    var rest := events[k..];
    assert rest == [rest[0]] + rest[1..];
  }

  /** What appending one event does to a rebuilt user that exists. */
  lemma RebuildStep(events: seq<Event>, e: Event)
    requires Rebuild(events).Some?
    ensures var u, r := Rebuild(events).value, Rebuild(events + [e]);
      && (e.Created? ==> r == Some(User(e.username, e.userType, 100)))
      && (e.RequestedAbike? ==> r == Some(User(u.username, u.userType, Wrap32(u.credit - 5))))
      && (e.Recharge? ==> r == Some(User(u.username, u.userType, Wrap32(u.credit + e.amount))))
      && (e.Update? ==> r == Some(e.user))
      && (e.RequestUpdate? || e.SignIn? ==> r == Some(u))
  {
    FoldAppend(None, events, e);
  }

  /** Saving an event advances the rebuilt state of its subject by one
      step of the fold. */
  lemma RebuildSaved(store: seq<Event>, e: Event)
    ensures Rebuild(EventsOf(store + [e], Subject(e))) == Step(Rebuild(EventsOf(store, Subject(e))), e)
  {
    EventsOfSaved(store, e);
    FoldAppend(None, EventsOf(store, Subject(e)), e);
  }

  /** Every event about `username` keeps the rebuilt user's id equal to it
      (an update carries the user it is about). */
  predicate AboutUser(events: seq<Event>, username: string)
  {
    forall i :: 0 <= i < |events| ==> Subject(events[i]) == username
  }

  lemma {:induction false} FoldKeepsUsername(user: Option<User>, events: seq<Event>, username: string)
    requires AboutUser(events, username)
    requires user.Some? ==> user.value.username == username
    ensures Fold(user, events).Some? ==> Fold(user, events).value.username == username
    decreases |events|
  {
    if events != [] {
      FoldKeepsUsername(Step(user, events[0]), events[1..], username);
    }
  }

  /** The user rebuilt from a username's events carries that username. */
  lemma RebuiltUsername(store: seq<Event>, username: string)
    ensures Rebuild(EventsOf(store, username)).Some? ==> Rebuild(EventsOf(store, username)).value.username == username
  {
    FoldKeepsUsername(None, EventsOf(store, username), username);
  }

  /** The `groupingBy` classifier of `getAllUsers`: creations and recharges
      by username, updates by the user's id; any other event yields `null`,
      which `groupingBy` refuses by throwing. */
  function Classify(e: Event): (k: Option<string>)
    ensures k.Some? <==> e.Created? || e.Update? || e.Recharge?
    ensures k.Some? ==> k.value == Subject(e)
  {
    match e
    case Created(username, _, _) => Some(username)
    case Update(user, _) => Some(user.username)
    case Recharge(username, _, _) => Some(username)
    case _ => None
  }

  /** The group of key `k`, in the order of the store. */
  function Group(events: seq<Event>, k: string): (r: seq<Event>)
    ensures forall i :: 0 <= i < |r| ==> Classify(r[i]) == Some(k) && r[i] in events
  {
    if events == [] then []
    else if Classify(events[0]) == Some(k) then [events[0]] + Group(events[1..], k)
    else Group(events[1..], k)
  }

  /** The keys of the grouping. */
  function Keys(events: seq<Event>): set<string>
  {
    set e | e in events && Classify(e).Some? :: Classify(e).value
  }

  predicate AllClassified(events: seq<Event>)
  {
    forall i :: 0 <= i < |events| ==> Classify(events[i]).Some?
  }

  /** Each group sorted by timestamp and folded; the users that exist, by
      group key (the list the source returns is in `HashMap` order). */
  function UsersByKey(events: seq<Event>): map<string, User>
  {
    map k | k in Keys(events) && Rebuild(SortByTs(Group(events, k))).Some? :: Rebuild(SortByTs(Group(events, k))).value
  }

  /** `getAllUsers` as written: one unclassifiable event aborts the grouping
      and `exceptionally` turns the failure into an empty list. */
  function AllUsersAsWritten(events: seq<Event>): map<string, User>
  {
    if AllClassified(events) then UsersByKey(events) else map[]
  }

  /** `getAllUsers` as evidently intended: events the classifier does not
      know are logged and left out of every group. */
  function AllUsers(events: seq<Event>): map<string, User>
  {
    UsersByKey(events)
  }

  lemma {:induction false} GroupMembers(events: seq<Event>, k: string)
    ensures forall e :: e in Group(events, k) <==> e in events && Classify(e) == Some(k)
  {
    if events != [] {
      GroupMembers(events[1..], k);
      assert events == [events[0]] + events[1..];
    }
  }

  lemma HasCreatedMembers(s: seq<Event>)
    ensures HasCreated(s) <==> exists e :: e in s && e.Created?
  {
    if exists e :: e in s && e.Created? {
      var e :| e in s && e.Created?;
      var i :| 0 <= i < |s| && s[i] == e;
    }
  }

  lemma GroupCreated(events: seq<Event>, k: string)
    ensures HasCreated(Group(events, k)) <==> exists e :: e in events && e.Created? && e.username == k
  {
    GroupMembers(events, k);
    HasCreatedMembers(Group(events, k));
    if exists e :: e in events && e.Created? && e.username == k {
      var e :| e in events && e.Created? && e.username == k;
      assert e in Group(events, k);
    }
  }

  lemma SortedHasCreated(s: seq<Event>)
    ensures HasCreated(SortByTs(s)) <==> HasCreated(s)
  {
    SortSortsAndPermutes(s);
    var r := SortByTs(s);
    if HasCreated(s) {
      var i :| 0 <= i < |s| && s[i].Created?;
      assert s[i] in multiset(r);
    }
    if HasCreated(r) {
      var i :| 0 <= i < |r| && r[i].Created?;
      assert r[i] in multiset(s);
    }
  }

  /** The users listed are exactly the usernames some stored event creates,
      each listed under its own username; nothing else is listed. */
  lemma AllUsersListsCreated(events: seq<Event>)
    ensures forall k :: k in AllUsers(events) <==> exists e :: e in events && e.Created? && e.username == k
    ensures forall k :: k in AllUsers(events) ==> AllUsers(events)[k].username == k
  {
    forall k ensures k in AllUsers(events) <==> exists e :: e in events && e.Created? && e.username == k {
      var g := Group(events, k);
      GroupCreated(events, k);
      SortedHasCreated(g);
      RebuildPresence(SortByTs(g));
      if exists e :: e in events && e.Created? && e.username == k {
        var e :| e in events && e.Created? && e.username == k;
        assert Classify(e) == Some(k);
      }
    }
    forall k | k in AllUsers(events) ensures AllUsers(events)[k].username == k {
      var g := SortByTs(Group(events, k));
      SortSortsAndPermutes(Group(events, k));
      forall i | 0 <= i < |g| ensures Subject(g[i]) == k {
        assert g[i] in multiset(Group(events, k));
      }
      FoldKeepsUsername(None, g, k);
    }
  }

  /** The two readings agree whenever the classifier knows every event. */
  lemma AsWrittenAgreesWhenClassified(events: seq<Event>)
    requires AllClassified(events)
    ensures AllUsersAsWritten(events) == AllUsers(events)
  {
  }

  /** A stored a-bike request empties the listing as written, where the
      intended listing still holds the user it is about. */
  lemma AsWrittenDropsEveryone()
    ensures var events := [Created("alice", Regular, "2024-01-01T00:00:00Z"), RequestedAbike("alice", "2024-01-01T00:01:00Z")];
      && AllUsersAsWritten(events) == map[]
      && AllUsers(events) == map["alice" := User("alice", Regular, 100)]
  {
    var events := [Created("alice", Regular, "2024-01-01T00:00:00Z"), RequestedAbike("alice", "2024-01-01T00:01:00Z")];
    assert !Classify(events[1]).Some?;
    var g := Group(events, "alice");
    assert g == [events[0]];
    assert SortByTs(g) == g;
    assert g[1..] == [];
    assert Rebuild(g) == Fold(Step(None, g[0]), []) == Some(User("alice", Regular, 100));
    assert Keys(events) == {"alice"} by {
      assert Classify(events[0]).value == "alice";
    }
  }

  /** What `updateUser` saves as written: only the request, which the fold
      skips, so the rebuilt user keeps its old credit while the published
      one carries the new credit. */
  lemma UpdateAsWrittenForgetsCredit(store: seq<Event>, request: Event)
    requires request.RequestUpdate? && Rebuild(EventsOf(store, request.username)).Some?
    ensures Rebuild(EventsOf(store + [request], request.username)) == Rebuild(EventsOf(store, request.username))
  {
    assert Subject(request) == request.username;
    RebuildSaved(store, request);
  }

  /** A concrete store on which the credit set by `updateUser` is lost. */
  lemma UpdateAsWrittenCounterexample()
    ensures var store := [Created("alice", Regular, "t1"), Update(User("alice", Regular, 100), "t1")];
      var request := RequestUpdate("r1", "alice", 50, "t2");
      && Rebuild(EventsOf(store, "alice")) == Some(User("alice", Regular, 100))
      && Rebuild(EventsOf(store + [request], "alice")) == Some(User("alice", Regular, 100))
      && Rebuild(EventsOf(store + [request], "alice")) != Some(User("alice", Regular, 50))
  {
    var store := [Created("alice", Regular, "t1"), Update(User("alice", Regular, 100), "t1")];
    var request := RequestUpdate("r1", "alice", 50, "t2");
    SignUpRebuild([], "alice", Regular, "t1", "t1");
    assert [] + [Created("alice", Regular, "t1"), Update(User("alice", Regular, 100), "t1")] == store;
    UpdateAsWrittenForgetsCredit(store, request);
  }

  /** Saving the `UserUpdateEvent` after the request, as `signUp` and
      `rechargeCredit` do, makes the rebuilt user the published one. */
  lemma UpdateKeepsCredit(store: seq<Event>, request: Event, now: string)
    requires request.RequestUpdate? && Rebuild(EventsOf(store, request.username)).Some?
    ensures var u := Rebuild(EventsOf(store, request.username)).value;
      var updated := User(u.username, u.userType, request.credit);
      Rebuild(EventsOf(store + [request, Update(updated, now)], request.username)) == Some(updated)
  {
    var name := request.username;
    var u := Rebuild(EventsOf(store, name)).value;
    var updated := User(u.username, u.userType, request.credit);
    RebuiltUsername(store, name);
    assert store + [request, Update(updated, now)] == (store + [request]) + [Update(updated, now)];
    EventsOfSaved(store + [request], Update(updated, now));
    UpdateAsWrittenForgetsCredit(store, request);
    RebuildStep(EventsOf(store + [request], name), Update(updated, now));
  }

  /** After `signUp` on a fresh username the rebuilt user is the one returned:
      the username, the type and 100 credits. */
  lemma SignUpRebuild(store: seq<Event>, username: string, userType: UserType, ts: string, now: string)
    requires EventsOf(store, username) == []
    ensures Rebuild(EventsOf(store + [Created(username, userType, ts), Update(User(username, userType, 100), now)], username))
            == Some(User(username, userType, 100))
  {
    var created := Created(username, userType, ts);
    var update := Update(User(username, userType, 100), now);
    assert store + [created, update] == (store + [created]) + [update];
    EventsOfSaved(store, created);
    EventsOfSaved(store + [created], update);
    assert EventsOf(store + [created, update], username) == [created] + [update];
    FoldAppend(None, [created], update);
    assert Rebuild([created]) == Some(User(username, userType, 100)) by {
      assert [created][1..] == [];
    }
  }

  /** Saving an update about an existing user makes the rebuilt user the
      one it carries. */
  lemma UpdateRebuild(store: seq<Event>, updated: User, now: string)
    requires Rebuild(EventsOf(store, updated.username)).Some?
    ensures Rebuild(EventsOf(store + [Update(updated, now)], updated.username)) == Some(updated)
  {
    var upd := Update(updated, now);
    assert Subject(upd) == upd.user.username;
    RebuildSaved(store, upd);
  }

  /** Saving an event and then an update about an existing user leaves the
      update's user as the rebuilt one. */
  lemma UpdateAfter(store: seq<Event>, e: Event, updated: User, now: string)
    requires Rebuild(EventsOf(store + [e], updated.username)).Some?
    ensures Rebuild(EventsOf(store + [e, Update(updated, now)], updated.username)) == Some(updated)
  {
    assert store + [e, Update(updated, now)] == (store + [e]) + [Update(updated, now)];
    UpdateRebuild(store + [e], updated, now);
  }

  /** Saving a recharge about an existing user adds the amount to the
      rebuilt credit, as a Java `int`. */
  lemma RechargeApplied(store: seq<Event>, recharge: Event)
    requires recharge.Recharge? && Rebuild(EventsOf(store, recharge.username)).Some?
    ensures var u := Rebuild(EventsOf(store, recharge.username)).value;
      Rebuild(EventsOf(store + [recharge], recharge.username))
      == Some(User(u.username, u.userType, Wrap32(u.credit + recharge.amount)))
  {
    assert Subject(recharge) == recharge.username;
    RebuildSaved(store, recharge);
  }

  /** After `rechargeCredit` the rebuilt user is the one returned: the old
      credit plus the amount, as a Java `int`. */
  lemma RechargeRebuild(store: seq<Event>, recharge: Event, u: User, now: string)
    requires recharge.Recharge? && Rebuild(EventsOf(store, recharge.username)) == Some(u)
    ensures var updated := User(u.username, u.userType, Wrap32(u.credit + recharge.amount));
      && updated.username == recharge.username
      && Rebuild(EventsOf(store + [recharge], recharge.username)) == Some(updated)
      && Rebuild(EventsOf(store + [recharge, Update(updated, now)], recharge.username)) == Some(updated)
  {
    var updated := User(u.username, u.userType, Wrap32(u.credit + recharge.amount));
    var name := recharge.username;
    RebuiltUsername(store, name);
    assert updated.username == name;
    RechargeApplied(store, recharge);
    assert Rebuild(EventsOf(store + [recharge], name)) == Some(updated);
    UpdateAfter(store, recharge, updated, now);
  }

  /** After `abikeRequested` the rebuilt user, which is the one published,
      has 5 credits less. */
  lemma AbikeRequestRebuild(store: seq<Event>, request: Event)
    requires request.RequestedAbike? && Rebuild(EventsOf(store, request.username)).Some?
    ensures var u := Rebuild(EventsOf(store, request.username)).value;
      Rebuild(EventsOf(store + [request], request.username)) == Some(User(u.username, u.userType, Wrap32(u.credit - 5)))
  {
    assert Subject(request) == request.username;
    RebuildSaved(store, request);
  }

  /** A successful sign-in saves an event the fold skips, so the user's
      state is unchanged by it. */
  lemma SignInKeepsUser(store: seq<Event>, signIn: Event)
    requires signIn.SignIn? && Rebuild(EventsOf(store, signIn.username)).Some?
    ensures Rebuild(EventsOf(store + [signIn], signIn.username)) == Rebuild(EventsOf(store, signIn.username))
  {
    assert Subject(signIn) == signIn.username;
    RebuildSaved(store, signIn);
  }

  class UserService {
    /** The event store: every event saved, in order. */
    var store: seq<Event>
    /** The users carried by the `UserUpdateEvent`s published, in order (to
        the websocket publisher and to Kafka alike). */
    var published: seq<User>

    constructor (store: seq<Event>)
      ensures this.store == store && published == []
    {
      this.store := store;
      published := [];
    }

    /** `signIn`: the user rebuilt from the username's events, after saving
        the sign-in event; an unknown user fails and saves nothing. */
    method SignIn(e: Event) returns (r: Result<User>)
      requires e.SignIn?
      modifies this
      ensures var u := Rebuild(EventsOf(old(store), e.username));
        && (u.Some? ==> r == Ok(u.value) && store == old(store) + [e])
        && (u.None? ==> r == Err(NotFoundFor(e.username)) && store == old(store))
      ensures published == old(published)
    {
      var u := RebuildUserState(EventsOf(store, e.username));
      if u.Some? {
        store := store + [e];
        r := Ok(u.value);
      } else {
        r := Err(NotFoundFor(e.username));
      }
    }

    /** `signUp`: refused when any event about the username exists;
        otherwise the creation and an update to 100 credits are saved and the
        new user is published. */
    method SignUp(e: Event, now: string) returns (r: Result<User>)
      requires e.Created?
      modifies this
      ensures EventsOf(old(store), e.username) != [] ==>
                r == Err(UserAlreadyExists) && store == old(store) && published == old(published)
      ensures EventsOf(old(store), e.username) == [] ==>
                var user := User(e.username, e.userType, InitialCredit);
                && r == Ok(user)
                && store == old(store) + [e, Update(user, now)]
                && published == old(published) + [user]
    {
      if EventsOf(store, e.username) != [] {
        return Err(UserAlreadyExists);
      }
      var user := User(e.username, e.userType, InitialCredit);
      store := store + [e, Update(user, now)];
      published := published + [user];
      r := Ok(user);
    }

    /** `abikeRequested`: any other event completes with nothing done; the
        request is saved and the rebuilt user, if any, is published. */
    method AbikeRequested(e: Event)
      modifies this
      ensures !e.RequestedAbike? ==> store == old(store) && published == old(published)
      ensures e.RequestedAbike? ==>
                && store == old(store) + [e]
                && var u := Rebuild(EventsOf(store, e.username));
                   published == old(published) + (if u.Some? then [u.value] else [])
    {
      if !e.RequestedAbike? {
        return;
      }
      store := store + [e];
      var u := RebuildUserState(EventsOf(store, e.username));
      if u.Some? {
        published := published + [u.value];
      }
    }

    /** `updateUser` as written: any other event completes with `null`; an
        unknown user fails; otherwise the REQUEST is saved and the user with
        the requested credit is published and returned. */
    method UpdateUserAsWritten(e: Event) returns (r: Result<Option<User>>)
      modifies this
      ensures !e.RequestUpdate? ==> r == Ok(None) && store == old(store) && published == old(published)
      ensures e.RequestUpdate? ==>
                var u := Rebuild(EventsOf(old(store), e.username));
                && (u.None? ==> r == Err(UserNotFound) && store == old(store) && published == old(published))
                && (u.Some? ==>
                      var updated := User(u.value.username, u.value.userType, e.credit);
                      r == Ok(Some(updated)) && store == old(store) + [e] && published == old(published) + [updated])
    {
      if !e.RequestUpdate? {
        return Ok(None);
      }
      var u := RebuildUserState(EventsOf(store, e.username));
      if u.None? {
        return Err(UserNotFound);
      }
      var updated := User(u.value.username, u.value.userType, e.credit);
      store := store + [e];
      published := published + [updated];
      r := Ok(Some(updated));
    }

    /** `updateUser` corrected: the `UserUpdateEvent` it publishes is saved
        after the request, so the next rebuild sees the new credit. */
    method UpdateUser(e: Event, now: string) returns (r: Result<Option<User>>)
      modifies this
      ensures !e.RequestUpdate? ==> r == Ok(None) && store == old(store) && published == old(published)
      ensures e.RequestUpdate? ==>
                var u := Rebuild(EventsOf(old(store), e.username));
                && (u.None? ==> r == Err(UserNotFound) && store == old(store) && published == old(published))
                && (u.Some? ==>
                      var updated := User(u.value.username, u.value.userType, e.credit);
                      && r == Ok(Some(updated))
                      && store == old(store) + [e, Update(updated, now)]
                      && published == old(published) + [updated]
                      && Rebuild(EventsOf(store, e.username)) == Some(updated))
    {
      if !e.RequestUpdate? {
        return Ok(None);
      }
      var u := RebuildUserState(EventsOf(store, e.username));
      if u.None? {
        return Err(UserNotFound);
      }
      var updated := User(u.value.username, u.value.userType, e.credit);
      UpdateKeepsCredit(store, e, now);
      store := store + [e, Update(updated, now)];
      published := published + [updated];
      r := Ok(Some(updated));
    }

    /** `rechargeCredit`: an unknown user fails; otherwise the recharge and
        an update to the new credit are saved, and that user is published
        and returned. */
    method RechargeCredit(e: Event, now: string) returns (r: Result<User>)
      requires e.Recharge?
      modifies this
      ensures var u := Rebuild(EventsOf(old(store), e.username));
        && (u.None? ==> r == Err(UserNotFound) && store == old(store) && published == old(published))
        && (u.Some? ==>
              var updated := User(u.value.username, u.value.userType, Wrap32(u.value.credit + e.amount));
              && r == Ok(updated)
              && store == old(store) + [e, Update(updated, now)]
              && published == old(published) + [updated])
    {
      var before := store;
      var u := RebuildUserState(EventsOf(before, e.username));
      if u.None? {
        return Err(UserNotFound);
      }
      var updated := User(u.value.username, u.value.userType, Wrap32(u.value.credit + e.amount));
      store := before + [e, Update(updated, now)];
      published := published + [updated];
      r := Ok(updated);
    }

    /** `getUserByUsername`: the user rebuilt from the username's events;
        present exactly when one of them creates it, and then about it. */
    function GetUserByUsername(username: string): (r: Option<User>)
      reads this
      ensures r.Some? <==> HasCreated(EventsOf(store, username))
      ensures r.Some? ==> r.value.username == username
    {
      RebuildPresence(EventsOf(store, username));
      RebuiltUsername(store, username);
      Rebuild(EventsOf(store, username))
    }

    /** `getAllUsers` as written: the listing is empty as soon as one stored
        event has no grouping key; otherwise it is the created users. */
    function GetAllUsersAsWritten(): (r: map<string, User>)
      reads this
      ensures !AllClassified(store) ==> r == map[]
      ensures AllClassified(store) ==> forall k :: k in r <==> exists e :: e in store && e.Created? && e.username == k
      ensures forall k :: k in r ==> r[k].username == k
    {
      AllUsersListsCreated(store);
      if AllClassified(store) then AsWrittenAgreesWhenClassified(store); AllUsersAsWritten(store)
      else AllUsersAsWritten(store)
    }

    /** `getAllUsers` corrected: unknown events are left out of the grouping. */
    function GetAllUsers(): (r: map<string, User>)
      reads this
      ensures forall k :: k in r <==> exists e :: e in store && e.Created? && e.username == k
      ensures forall k :: k in r ==> r[k].username == k
    {
      AllUsersListsCreated(store);
      AllUsers(store)
    }
  }
}
