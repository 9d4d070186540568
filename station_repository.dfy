/** The map service's station store (map-microservice
    `infrastructure/adapter/persistence/StationRepositoryImpl.java`): a list
    of stations in which saving a station replaces every station with the
    same id and appends the new one. */
module StationRepository {
  import Bikes

  /** The map service's `Station` as far as the store looks at it: only the
      id is compared, the rest is carried. */
  datatype StationRecord = StationRecord(id: string, location: Bikes.P2d, capacity: int, docked: set<string>)

  /** `removeIf(s -> s.getId().equals(id))`: the stations with another id,
      in their order. */
  function WithoutId(stations: seq<StationRecord>, id: string): (r: seq<StationRecord>)
    ensures |r| <= |stations|
    ensures forall i :: 0 <= i < |r| ==> r[i].id != id && r[i] in stations
  {
    if stations == [] then []
    else if stations[0].id == id then WithoutId(stations[1..], id)
    else [stations[0]] + WithoutId(stations[1..], id)
  }

  /** The stations stored under `id`, in their order. */
  function WithId(stations: seq<StationRecord>, id: string): (r: seq<StationRecord>)
    ensures forall i :: 0 <= i < |r| ==> r[i].id == id
  {
    if stations == [] then []
    else if stations[0].id == id then [stations[0]] + WithId(stations[1..], id)
    else WithId(stations[1..], id)
  }

  /** `saveStation` on the list. */
  function Saved(stations: seq<StationRecord>, st: StationRecord): (r: seq<StationRecord>)
  {
    WithoutId(stations, st.id) + [st]
  }

  lemma {:induction false} WithIdAppend(a: seq<StationRecord>, b: seq<StationRecord>, id: string)
    ensures WithId(a + b, id) == WithId(a, id) + WithId(b, id)
  {
    if a != [] {
      assert (a + b)[0] == a[0];
      assert (a + b)[1..] == a[1..] + b;
      WithIdAppend(a[1..], b, id);
    } else {
      assert a + b == b;
    }
  }

  lemma {:induction false} WithoutIdAppend(a: seq<StationRecord>, b: seq<StationRecord>, id: string)
    ensures WithoutId(a + b, id) == WithoutId(a, id) + WithoutId(b, id)
  {
    if a != [] {
      assert (a + b)[1..] == a[1..] + b;
      WithoutIdAppend(a[1..], b, id);
    } else {
      assert a + b == b;
    }
  }

  /** Removing an id leaves nothing under it and keeps every other id's
      stations in order. */
  lemma {:induction false} WithoutIdSelects(stations: seq<StationRecord>, id: string, other: string)
    ensures WithId(WithoutId(stations, id), id) == []
    ensures other != id ==> WithId(WithoutId(stations, id), other) == WithId(stations, other)
  {
    if stations != [] {
      WithoutIdSelects(stations[1..], id, other);
      if stations[0].id != id {
        WithIdAppend([stations[0]], WithoutId(stations[1..], id), id);
        WithIdAppend([stations[0]], WithoutId(stations[1..], id), other);
      }
    }
  }

  /** After a save there is exactly one station with the saved id, it is the
      saved one and it is last; the stations of every other id are those
      there were before, in the same order; and what is not under the saved
      id is what was not under it before. */
  lemma SaveReplaces(stations: seq<StationRecord>, st: StationRecord)
    ensures WithId(Saved(stations, st), st.id) == [st]
    ensures forall other :: other != st.id ==> WithId(Saved(stations, st), other) == WithId(stations, other)
    ensures WithoutId(Saved(stations, st), st.id) == WithoutId(stations, st.id)
    ensures Saved(stations, st)[|Saved(stations, st)| - 1] == st
  {
    var w := WithoutId(stations, st.id);
    WithIdAppend(w, [st], st.id);
    WithoutIdSelects(stations, st.id, st.id);
    forall other | other != st.id
      ensures WithId(Saved(stations, st), other) == WithId(stations, other)
    {
      WithIdAppend(w, [st], other);
      WithoutIdSelects(stations, st.id, other);
    }
    WithoutIdAppend(w, [st], st.id);
    WithoutIdIdempotent(stations, st.id);
  }

  lemma {:induction false} WithoutIdIdempotent(stations: seq<StationRecord>, id: string)
    ensures WithoutId(WithoutId(stations, id), id) == WithoutId(stations, id)
  {
    if stations != [] {
      WithoutIdIdempotent(stations[1..], id);
      if stations[0].id != id {
        WithoutIdAppend([stations[0]], WithoutId(stations[1..], id), id);
      }
    }
  }

  /** Saving the same station twice leaves the list as after one save. */
  lemma SaveIdempotent(stations: seq<StationRecord>, st: StationRecord)
    ensures Saved(Saved(stations, st), st) == Saved(stations, st)
  {
    SaveReplaces(stations, st);
  }

  /** The store keeps at most one station per id. */
  predicate UniqueIds(stations: seq<StationRecord>)
  {
    forall i, j :: 0 <= i < j < |stations| ==> stations[i].id != stations[j].id
  }

  /** A save keeps ids unique. */
  lemma SaveKeepsUniqueIds(stations: seq<StationRecord>, st: StationRecord)
    requires UniqueIds(stations)
    ensures UniqueIds(Saved(stations, st))
  {
    var w := WithoutId(stations, st.id);
    WithoutIdUnique(stations, st.id);
  }

  lemma {:induction false} WithoutIdUnique(stations: seq<StationRecord>, id: string)
    requires UniqueIds(stations)
    ensures UniqueIds(WithoutId(stations, id))
  {
    if stations != [] {
      WithoutIdUnique(stations[1..], id);
      if stations[0].id != id {
        var rest := WithoutId(stations[1..], id);
        forall j | 0 <= j < |rest| ensures rest[j].id != stations[0].id {
          var k :| 0 <= k < |stations[1..]| && stations[1..][k] == rest[j];
          assert stations[k + 1] == rest[j];
        }
      }
    }
  }

  class StationStore {
    /** `stations`. */
    var stations: seq<StationRecord>

    constructor ()
      ensures stations == []
    {
      stations := [];
    }

    /** `saveStation`. */
    method SaveStation(st: StationRecord)
      modifies this
      ensures stations == Saved(old(stations), st)
    {
      stations := WithoutId(stations, st.id) + [st];
    }

    /** `getAllStations`: a snapshot of the list, in order. */
    function AllStations(): (r: seq<StationRecord>)
      reads this
      ensures r == stations
    {
      stations
    }
  }

  /** Saving a station, another one, and the first id again leaves two
      stations: the other one, then the replacement. */
  method ReplaceScenario(a: StationRecord, b: StationRecord, a2: StationRecord) returns (all: seq<StationRecord>)
    requires a.id != b.id && a2.id == a.id
    ensures all == [b, a2]
  {
    var store := new StationStore();
    store.SaveStation(a);
    assert store.stations == [a];
    store.SaveStation(b);
    assert WithoutId([a], b.id) == [a] + WithoutId([], b.id);
    assert store.stations == [a, b];
    store.SaveStation(a2);
    assert WithoutId([a, b], a.id) == WithoutId([b], a.id) == [b];
    all := store.AllStations();
  }
}
