/** The user service, first iteration (user-microservice
    `application/UserServiceImpl.java` under p-1): the same event-sourced
    user, without a-bike requests; an update request names its user by its
    `id()`. */
module UserServiceP1 {
  import opened Common
  import opened UserEvents
  import P3 = UserServiceP3

  /** One iteration of this version's `rebuildUserState` loop: a creation
      (re)starts the user with 100 credits, an update replaces it and a
      recharge adds its amount once a user exists; every other event is
      skipped. */
  function Step(user: Option<User>, e: Event): Option<User>
  {
    match e
    case Created(username, userType, _) => Some(User(username, userType, P3.InitialCredit))
    case Update(u, _) => if user.Some? then Some(u) else user
    case Recharge(_, amount, _) =>
      if user.Some? then Some(User(user.value.username, user.value.userType, Wrap32(user.value.credit + amount))) else user
    case _ => user
  }

  function Fold(user: Option<User>, events: seq<Event>): Option<User>
    decreases |events|
  {
    if events == [] then user else Fold(Step(user, events[0]), events[1..])
  }

  function Rebuild(events: seq<Event>): Option<User>
  {
    Fold(None, events)
  }

  lemma {:induction false} FoldAppend(user: Option<User>, events: seq<Event>, e: Event)
    ensures Fold(user, events + [e]) == Step(Fold(user, events), e)
    decreases |events|
  {
    if events == [] {
      assert events + [e] == [e];
    } else {
      assert (events + [e])[1..] == events[1..] + [e];
      FoldAppend(Step(user, events[0]), events[1..], e);
    }
  }

  /** The loop of `rebuildUserState`, proved to compute the fold. */
  method RebuildUserState(events: seq<Event>) returns (user: Option<User>)
    ensures user == Rebuild(events)
  {
    user := None;
    var i := 0;
    while i < |events|
      invariant 0 <= i <= |events|
      invariant user == Fold(None, events[..i])
    {
      FoldAppend(None, events[..i], events[i]);
      assert events[..i + 1] == events[..i] + [events[i]];
      user := Step(user, events[i]);
      i := i + 1;
    }
    assert events[..i] == events;
  }

  predicate NoAbikeRequests(events: seq<Event>)
  {
    forall i :: 0 <= i < |events| ==> !events[i].RequestedAbike?
  }

  lemma {:induction false} FoldsAgree(user: Option<User>, events: seq<Event>)
    requires NoAbikeRequests(events)
    ensures Fold(user, events) == P3.Fold(user, events)
    decreases |events|
  {
    if events != [] {
      FoldsAgree(Step(user, events[0]), events[1..]);
    }
  }

  /** The two versions rebuild the same user from any events without an
      a-bike request, which is the one event the first version skips and the
      last one charges 5 credits for. */
  lemma RebuildAgreesWithP3(events: seq<Event>)
    requires NoAbikeRequests(events)
    ensures Rebuild(events) == P3.Rebuild(events)
  {
    FoldsAgree(None, events);
  }

  /** An a-bike request changes nothing in this version, where the last
      version charges it. */
  lemma AbikeRequestSkipped(events: seq<Event>, e: Event)
    requires e.RequestedAbike?
    ensures Rebuild(events + [e]) == Rebuild(events)
  {
    FoldAppend(None, events, e);
  }

  /** A user exists exactly when a `UserCreatedEvent` was seen. */
  lemma RebuildPresence(events: seq<Event>)
    ensures Rebuild(events).Some? <==> P3.HasCreated(events)
  {
    FoldPresenceAgree(None, events);
    P3.RebuildPresence(events);
  }

  lemma {:induction false} FoldPresenceAgree(user: Option<User>, events: seq<Event>)
    ensures Fold(user, events).Some? == P3.Fold(user, events).Some?
    decreases |events|
  {
    if events != [] {
      assert Step(user, events[0]).Some? == P3.Step(user, events[0]).Some?;
      FoldPresenceAgree(Step(user, events[0]), events[1..]);
      FoldPresenceAgree(P3.Step(user, events[0]), events[1..]);
      FoldPresenceSameStart(Step(user, events[0]), P3.Step(user, events[0]), events[1..]);
    }
  }

  /** Whether a user exists after the fold depends only on whether one
      existed before it. */
  lemma {:induction false} FoldPresenceSameStart(u: Option<User>, v: Option<User>, events: seq<Event>)
    requires u.Some? == v.Some?
    ensures P3.Fold(u, events).Some? == P3.Fold(v, events).Some?
    decreases |events|
  {
    if events != [] {
      FoldPresenceSameStart(P3.Step(u, events[0]), P3.Step(v, events[0]), events[1..]);
    }
  }

  /** `updateUser` as written saves the request only: the rebuilt user keeps
      its old credit. */
  lemma UpdateAsWrittenForgetsCredit(store: seq<Event>, request: Event)
    requires request.RequestUpdate? && request.username == request.id
    ensures Rebuild(EventsOf(store + [request], request.id)) == Rebuild(EventsOf(store, request.id))
  {
    EventsOfSaved(store, request);
    FoldAppend(None, EventsOf(store, request.id), request);
  }

  /** Saving the published `UserUpdateEvent` too makes the rebuilt user the
      published one. */
  lemma UpdateKeepsCredit(store: seq<Event>, request: Event, updated: User, now: string)
    requires request.RequestUpdate? && Rebuild(EventsOf(store, updated.username)).Some?
    ensures Rebuild(EventsOf(store + [request, Update(updated, now)], updated.username)) == Some(updated)
  {
    var name := updated.username;
    var upd := Update(updated, now);
    var s1 := store + [request];
    assert store + [request, upd] == s1 + [upd];
    if Subject(request) == name {
      EventsOfSaved(store, request);
      FoldAppend(None, EventsOf(store, name), request);
    } else {
      EventsOfAppend(store, [request], name);
      assert [request][1..] == [];
      assert EventsOf(s1, name) == EventsOf(store, name);
    }
    assert Rebuild(EventsOf(s1, name)).Some?;
    EventsOfSaved(s1, upd);
    FoldAppend(None, EventsOf(s1, name), upd);
  }

  class UserService {
    var store: seq<Event>
    var published: seq<User>

    constructor (store: seq<Event>)
      ensures this.store == store && published == []
    {
      this.store := store;
      published := [];
    }

    /** `signIn`. */
    method SignIn(e: Event) returns (r: Result<User>)
      requires e.SignIn?
      modifies this
      ensures var u := Rebuild(EventsOf(old(store), e.username));
        && (u.Some? ==> r == Ok(u.value) && store == old(store) + [e])
        && (u.None? ==> r == Err(P3.NotFoundFor(e.username)) && store == old(store))
      ensures published == old(published)
    {
      var u := RebuildUserState(EventsOf(store, e.username));
      if u.Some? {
        store := store + [e];
        r := Ok(u.value);
      } else {
        r := Err(P3.NotFoundFor(e.username));
      }
    }

    /** `signUp`. */
    method SignUp(e: Event, now: string) returns (r: Result<User>)
      requires e.Created?
      modifies this
      ensures EventsOf(old(store), e.username) != [] ==>
                r == Err(P3.UserAlreadyExists) && store == old(store) && published == old(published)
      ensures EventsOf(old(store), e.username) == [] ==>
                var user := User(e.username, e.userType, P3.InitialCredit);
                && r == Ok(user)
                && store == old(store) + [e, Update(user, now)]
                && published == old(published) + [user]
    {
      if EventsOf(store, e.username) != [] {
        return Err(P3.UserAlreadyExists);
      }
      var user := User(e.username, e.userType, P3.InitialCredit);
      store := store + [e, Update(user, now)];
      published := published + [user];
      r := Ok(user);
    }

    /** `updateUser` as written: the request is cast without a check, its
        `id()` is taken as the username, and only the request is saved. */
    method UpdateUserAsWritten(e: Event) returns (r: Result<User>)
      requires e.RequestUpdate?
      modifies this
      ensures var u := Rebuild(EventsOf(old(store), e.id));
        && (u.None? ==> r == Err(P3.UserNotFound) && store == old(store) && published == old(published))
        && (u.Some? ==>
              var updated := User(u.value.username, u.value.userType, e.credit);
              r == Ok(updated) && store == old(store) + [e] && published == old(published) + [updated])
    {
      var u := RebuildUserState(EventsOf(store, e.id));
      if u.None? {
        return Err(P3.UserNotFound);
      }
      var updated := User(u.value.username, u.value.userType, e.credit);
      store := store + [e];
      published := published + [updated];
      r := Ok(updated);
    }

    /** `updateUser` corrected: the published update is saved as well. */
    method UpdateUser(e: Event, now: string) returns (r: Result<User>)
      requires e.RequestUpdate?
      modifies this
      ensures var u := Rebuild(EventsOf(old(store), e.id));
        && (u.None? ==> r == Err(P3.UserNotFound) && store == old(store) && published == old(published))
        && (u.Some? ==>
              var updated := User(u.value.username, u.value.userType, e.credit);
              && r == Ok(updated)
              && store == old(store) + [e, Update(updated, now)]
              && published == old(published) + [updated]
              && (u.value.username == e.id ==> Rebuild(EventsOf(store, e.id)) == Some(updated)))
    {
      var u := RebuildUserState(EventsOf(store, e.id));
      if u.None? {
        return Err(P3.UserNotFound);
      }
      var updated := User(u.value.username, u.value.userType, e.credit);
      if u.value.username == e.id {
        UpdateKeepsCredit(store, e, updated, now);
      }
      store := store + [e, Update(updated, now)];
      published := published + [updated];
      r := Ok(updated);
    }

    /** `rechargeCredit`. */
    method RechargeCredit(e: Event, now: string) returns (r: Result<User>)
      requires e.Recharge?
      modifies this
      ensures var u := Rebuild(EventsOf(old(store), e.username));
        && (u.None? ==> r == Err(P3.UserNotFound) && store == old(store) && published == old(published))
        && (u.Some? ==>
              var updated := User(u.value.username, u.value.userType, Wrap32(u.value.credit + e.amount));
              && r == Ok(updated)
              && store == old(store) + [e, Update(updated, now)]
              && published == old(published) + [updated])
    {
      var u := RebuildUserState(EventsOf(store, e.username));
      if u.None? {
        return Err(P3.UserNotFound);
      }
      var updated := User(u.value.username, u.value.userType, Wrap32(u.value.credit + e.amount));
      store := store + [e, Update(updated, now)];
      published := published + [updated];
      r := Ok(updated);
    }
  }
}
