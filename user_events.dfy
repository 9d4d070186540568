/** The user service's vocabulary (user-microservice `domain/model/User.java`
    and the `domain/event` records): users, the events stored about them, the event
    store read as the list of everything saved, and the timestamp sort that
    `getAllUsers` applies to each user's events. */
module UserEvents {
  import opened Common

  datatype UserType = Admin | Regular

  /** `User(username, type, credit)`; `getId()` is the username. */
  datatype User = User(username: string, userType: UserType, credit: Int32)

  /** The stored events. Every event carries its `Instant.toString()`
      timestamp; the UUID ids play no part, except that the first service
      version reads the username of an update request from `id()`. */
  datatype Event =
    | Created(username: string, userType: UserType, ts: string)
    | Update(user: User, ts: string)
    | Recharge(username: string, amount: Int32, ts: string)
    | RequestUpdate(id: string, username: string, credit: Int32, ts: string)
    | RequestedAbike(username: string, ts: string)
    | SignIn(username: string, ts: string)

  /** The username an event is about. */
  function Subject(e: Event): string
  {
    if e.Update? then e.user.username else e.username
  }

  /** `getEventsByUsername`: the stored events about `username`, in the order
      they were saved. */
  function EventsOf(store: seq<Event>, username: string): (r: seq<Event>)
    ensures |r| <= |store|
    ensures forall i :: 0 <= i < |r| ==> Subject(r[i]) == username && r[i] in store
  {
    if store == [] then []
    else if Subject(store[0]) == username then [store[0]] + EventsOf(store[1..], username)
    else EventsOf(store[1..], username)
  }

  lemma {:induction false} EventsOfAppend(a: seq<Event>, b: seq<Event>, username: string)
    ensures EventsOf(a + b, username) == EventsOf(a, username) + EventsOf(b, username)
  {
    if a == [] {
      assert a + b == b;
    } else {
      assert (a + b)[0] == a[0];
      assert (a + b)[1..] == a[1..] + b;
      EventsOfAppend(a[1..], b, username);
    }
  }

  /** Saving an event adds it to the events of its subject. */
  lemma EventsOfSaved(store: seq<Event>, e: Event)
    ensures EventsOf(store + [e], Subject(e)) == EventsOf(store, Subject(e)) + [e]
  {
    EventsOfAppend(store, [e], Subject(e));
    assert [e][1..] == [];
  }

  /** Saving events about other users does not change a user's events. */
  lemma EventsOfOthers(store: seq<Event>, saved: seq<Event>, username: string)
    requires forall i :: 0 <= i < |saved| ==> Subject(saved[i]) != username
    ensures EventsOf(store + saved, username) == EventsOf(store, username)
  {
    EventsOfAppend(store, saved, username);
    EventsOfNone(saved, username);
  }

  lemma {:induction false} EventsOfNone(s: seq<Event>, username: string)
    requires forall i :: 0 <= i < |s| ==> Subject(s[i]) != username
    ensures EventsOf(s, username) == []
  {
    if s != [] {
      EventsOfNone(s[1..], username);
    }
  }

  /** Events in non-decreasing timestamp order. */
  predicate SortedByTs(s: seq<Event>)
  {
    forall i, j :: 0 <= i < j < |s| ==> StrLe(s[i].ts, s[j].ts)
  }

  /** The events with timestamp `t`, in order. */
  function WithTs(s: seq<Event>, t: string): seq<Event>
  {
    if s == [] then []
    else WithTs(s[..|s| - 1], t) + (if s[|s| - 1].ts == t then [s[|s| - 1]] else [])
  }

  /** Inserting into a sorted list after every event that is not later. */
  function InsertByTs(sorted: seq<Event>, e: Event): (r: seq<Event>)
    ensures |r| == |sorted| + 1
  {
    if sorted == [] then [e]
    else if StrLe(sorted[|sorted| - 1].ts, e.ts) then sorted + [e]
    else InsertByTs(sorted[..|sorted| - 1], e) + [sorted[|sorted| - 1]]
  }

  /** `List.sort(Comparator.comparing(Event::getTimestamp))`: a stable sort
      by timestamp. */
  function SortByTs(s: seq<Event>): (r: seq<Event>)
    ensures |r| == |s|
  {
    if s == [] then [] else InsertByTs(SortByTs(s[..|s| - 1]), s[|s| - 1])
  }

  /** Every event of `s` is no later than `t`. */
  predicate NoneLaterThan(s: seq<Event>, t: string)
  {
    forall i :: 0 <= i < |s| ==> StrLe(s[i].ts, t)
  }

  lemma SortedAppend(s: seq<Event>, x: Event)
    requires SortedByTs(s) && NoneLaterThan(s, x.ts)
    ensures SortedByTs(s + [x])
  {
    forall i, j | 0 <= i < j < |s| + 1 ensures StrLe((s + [x])[i].ts, (s + [x])[j].ts) {
      if j < |s| {
        assert (s + [x])[i] == s[i] && (s + [x])[j] == s[j];
      }
    }
  }

  lemma {:induction false} InsertPermutes(sorted: seq<Event>, e: Event)
    ensures multiset(InsertByTs(sorted, e)) == multiset(sorted) + multiset{e}
  {
    if sorted != [] {
      var n := |sorted| - 1;
      assert sorted == sorted[..n] + [sorted[n]];
      if !StrLe(sorted[n].ts, e.ts) {
        InsertPermutes(sorted[..n], e);
      }
    }
  }

  lemma {:induction false} InsertKeepsSorted(sorted: seq<Event>, e: Event)
    requires SortedByTs(sorted)
    ensures SortedByTs(InsertByTs(sorted, e))
  {
    if sorted != [] {
      var n := |sorted| - 1;
      var last := sorted[n];
      if StrLe(last.ts, e.ts) {
        forall i | 0 <= i < |sorted| ensures StrLe(sorted[i].ts, e.ts) {
          if i < n { StrLeTransitive(sorted[i].ts, last.ts, e.ts); }
        }
        SortedAppend(sorted, e);
      } else {
        var front := sorted[..n];
        InsertKeepsSorted(front, e);
        InsertPermutes(front, e);
        var ins := InsertByTs(front, e);
        StrLeTotal(last.ts, e.ts);
        forall i | 0 <= i < |ins| ensures StrLe(ins[i].ts, last.ts) {
          assert ins[i] in multiset(ins);
          if ins[i] != e {
            assert ins[i] in multiset(front);
            var k :| 0 <= k < |front| && front[k] == ins[i];
            assert StrLe(sorted[k].ts, sorted[n].ts);
          }
        }
        SortedAppend(ins, last);
      }
    }
  }

  /** The sort returns its input in timestamp order, as a permutation. */
  lemma {:induction false} SortSortsAndPermutes(s: seq<Event>)
    ensures SortedByTs(SortByTs(s))
    ensures multiset(SortByTs(s)) == multiset(s)
  {
    SortSorts(s);
    SortPermutes(s);
  }

  lemma {:induction false} SortSorts(s: seq<Event>)
    ensures SortedByTs(SortByTs(s))
  {
    if s != [] {
      var n := |s| - 1;
      SortSorts(s[..n]);
      InsertKeepsSorted(SortByTs(s[..n]), s[n]);
    }
  }

  lemma {:induction false} SortPermutes(s: seq<Event>)
    ensures multiset(SortByTs(s)) == multiset(s)
  {
    if s != [] {
      var n := |s| - 1;
      var front, last := s[..n], s[n];
      var sortedFront := SortByTs(front);
      SortPermutes(front);
      InsertPermutes(sortedFront, last);
      assert SortByTs(s) == InsertByTs(sortedFront, last);
      assert s == front + [last];
      assert multiset(s) == multiset(front) + multiset([last]);
    }
  }

  lemma {:induction false} WithTsAppend(a: seq<Event>, b: seq<Event>, t: string)
    ensures WithTs(a + b, t) == WithTs(a, t) + WithTs(b, t)
    decreases |b|
  {
    if b == [] {
      assert a + b == a;
    } else {
      var m := |b| - 1;
      assert (a + b)[..|a + b| - 1] == a + b[..m];
      WithTsAppend(a, b[..m], t);
    }
  }

  lemma {:induction false} InsertStable(sorted: seq<Event>, e: Event, t: string)
    ensures WithTs(InsertByTs(sorted, e), t) == WithTs(sorted, t) + (if e.ts == t then [e] else [])
  {
    if sorted != [] {
      var n := |sorted| - 1;
      var last := sorted[n];
      if StrLe(last.ts, e.ts) {
        assert (sorted + [e])[..|sorted|] == sorted;
      } else {
        StrLeReflexive(e.ts);
        assert last.ts != e.ts;
        InsertStable(sorted[..n], e, t);
        WithTsAppend(InsertByTs(sorted[..n], e), [last], t);
        assert [last][..0] == [];
        assert WithTs([last], t) == (if last.ts == t then [last] else []);
      }
    }
  }

  /** The sort is stable: the events sharing a timestamp keep their order. */
  lemma {:induction false} SortStable(s: seq<Event>, t: string)
    ensures WithTs(SortByTs(s), t) == WithTs(s, t)
  {
    if s != [] {
      var n := |s| - 1;
      SortStable(s[..n], t);
      InsertStable(SortByTs(s[..n]), s[n], t);
    }
  }

  /** A list already in timestamp order is left as it is. */
  lemma {:induction false} SortKeepsSorted(s: seq<Event>)
    requires SortedByTs(s)
    ensures SortByTs(s) == s
  {
    if s != [] {
      var n := |s| - 1;
      assert SortedByTs(s[..n]);
      SortKeepsSorted(s[..n]);
      if n > 0 {
        assert StrLe(s[n - 1].ts, s[n].ts);
      }
      assert s[..n] + [s[n]] == s;
    }
  }
  lemma {:induction false} WithTsMembers(s: seq<Event>, t: string)
    ensures forall x :: x in WithTs(s, t) <==> x in s && x.ts == t
  {
    if s != [] {
      var n := |s| - 1;
      WithTsMembers(s[..n], t);
      assert s == s[..n] + [s[n]];
    }
  }

  lemma LastTsPresent(b: seq<Event>)
    ensures b != [] ==> WithTs(b, b[|b| - 1].ts) != []
  {
  }

  lemma EmptyTogether(a: seq<Event>, b: seq<Event>)
    requires forall t :: WithTs(a, t) == WithTs(b, t)
    ensures a == [] <==> b == []
  {
    LastTsPresent(a);
    LastTsPresent(b);
  }

  /** In a sorted list no member is later than the last one. */
  lemma LastIsLatest(a: seq<Event>, y: Event)
    requires SortedByTs(a) && y in a
    ensures StrLe(y.ts, a[|a| - 1].ts)
  {
    var n := |a| - 1;
    var i :| 0 <= i < |a| && a[i] == y;
    if i < n { assert StrLe(a[i].ts, a[n].ts); } else { StrLeReflexive(y.ts); }
  }

  /** Lists that agree on every timestamp subsequence have the same members. */
  lemma SharedMember(a: seq<Event>, b: seq<Event>, y: Event)
    requires forall t :: WithTs(a, t) == WithTs(b, t)
    requires y in b
    ensures y in a
  {
    WithTsMembers(a, y.ts);
    WithTsMembers(b, y.ts);
    assert y in WithTs(b, y.ts);
    assert WithTs(a, y.ts) == WithTs(b, y.ts);
  }

  /** The last events of two sorted lists that agree on every timestamp
      carry the same timestamp. */
  lemma SameLastTs(a: seq<Event>, b: seq<Event>)
    requires SortedByTs(a) && SortedByTs(b) && a != [] && b != []
    requires forall t :: WithTs(a, t) == WithTs(b, t)
    ensures a[|a| - 1].ts == b[|b| - 1].ts
  {
    var x, y := a[|a| - 1], b[|b| - 1];
    SharedMember(a, b, y);
    SharedMember(b, a, x);
    LastIsLatest(a, y);
    LastIsLatest(b, x);
    StrLeAntisymmetric(x.ts, y.ts);
  }

  lemma SameLast(a: seq<Event>, b: seq<Event>, a0: seq<Event>, b0: seq<Event>)
    requires a != [] && b != [] && a[|a| - 1].ts == b[|b| - 1].ts
    requires a0 == a[..|a| - 1] && b0 == b[..|b| - 1]
    requires forall t :: WithTs(a, t) == WithTs(b, t)
    ensures a[|a| - 1] == b[|b| - 1]
    ensures forall t :: WithTs(a0, t) == WithTs(b0, t)
  {
    var x, y := a[|a| - 1], b[|b| - 1];
    var t0 := x.ts;
    var wa := WithTs(a, t0);
    assert wa == WithTs(a0, t0) + [x];
    assert wa == WithTs(b, t0) == WithTs(b0, t0) + [y];
    assert wa[|wa| - 1] == x && wa[|wa| - 1] == y;
    forall t ensures WithTs(a0, t) == WithTs(b0, t) {
      assert WithTs(a, t) == WithTs(b, t);
      assert WithTs(a, t) == WithTs(a0, t) + (if x.ts == t then [x] else []);
      assert WithTs(b, t) == WithTs(b0, t) + (if y.ts == t then [y] else []);
      if t == t0 {
        assert WithTs(a0, t) == wa[..|wa| - 1];
        assert WithTs(b0, t) == wa[..|wa| - 1];
      } else {
        assert WithTs(a0, t) + [] == WithTs(a0, t) && WithTs(b0, t) + [] == WithTs(b0, t);
      }
    }
  }

  /** Sortedness and stability pin the result down: two timestamp-ordered
      lists that agree on the events of every timestamp are equal, so any
      stable sort by timestamp (such as the JDK's) returns `SortByTs`. */
  lemma {:induction false} StableSortUnique(a: seq<Event>, b: seq<Event>)
    requires SortedByTs(a) && SortedByTs(b)
    requires forall t :: WithTs(a, t) == WithTs(b, t)
    ensures a == b
    decreases |a|
  {
    EmptyTogether(a, b);
    if a != [] {
      var n, m := |a| - 1, |b| - 1;
      SameLastTs(a, b);
      SameLast(a, b, a[..n], b[..m]);
      assert SortedByTs(a[..n]) && SortedByTs(b[..m]);
      StableSortUnique(a[..n], b[..m]);
      assert a == a[..n] + [a[n]] && b == b[..m] + [b[m]];
    }
  }
}
