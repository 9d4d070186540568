/** The messages the Ditto adapter builds for the Eclipse Ditto digital-twin
    service (ditto-kafka-adapter `domain/model/DittoEventFactory.java`): a
    "modify" command carrying a station's or an a-bike's state as the
    properties of one feature, a "create" command that registers the twin
    first, and the reply to a live message. A message is a JSON object; the
    records it carries are kept whole, as Jackson would serialise them. */
module DittoFactory {
  import opened Common

  /** The adapter's `Location`, only stored and copied. */
  datatype Location = Location(x: real, y: real)

  /** The adapter's `Station` record. */
  datatype Station = Station(id: string, location: Location, capacity: Int32,
                             dockedBikes: seq<string>, availableCapacity: Int32)

  /** The adapter's `ABike` record. */
  datatype ABike = ABike(id: string, position: Location, batteryLevel: Int32, state: string)

  /** What the adapter is handed: a station update, an a-bike update, or an
      object of any other class, named by that class. */
  datatype Event =
    | StationUpdate(station: Station)
    | ABikeUpdate(abike: ABike)
    | Unsupported(className: string)

  /** A JSON value; `JStation` and `JABike` are the records put in as
      properties. */
  datatype Json =
    | JNull
    | JStr(s: string)
    | JNum(n: int)
    | JObj(fields: map<string, Json>)
    | JStation(station: Station)
    | JABike(abike: ABike)

  type Message = map<string, Json>

  const Namespace: string := "org.eclipse.ditto"
  const TwinCommands: string := "/things/twin/commands/"
  const Modify: string := "modify"
  const Create: string := "create"
  const DefaultPolicy: string := "org.eclipse.ditto:default-policy"
  const ResponsePath: string := "/outbox/messages/response"

  /** The message of the `IllegalArgumentException` for another class:
      `Class.toString` prefixes the name with "class ". */
  function UnsupportedMessage(className: string): string
  {
    "Unsupported event type: class " + className
  }

  /** The id of the twin an event updates. */
  function ThingId(e: Event): string
    requires !e.Unsupported?
  {
    if e.StationUpdate? then e.station.id else e.abike.id
  }

  /** The feature the state is put under, and the state itself. */
  function FeatureName(e: Event): string
    requires !e.Unsupported?
  {
    if e.StationUpdate? then "station" else "abike"
  }

  function Properties(e: Event): Json
    requires !e.Unsupported?
  {
    if e.StationUpdate? then JStation(e.station) else JABike(e.abike)
  }

  /** The Ditto protocol topic `<namespace>/<name>/things/twin/commands/<verb>`
      with the adapter's namespace and the thing id as name. */
  function Topic(id: string, verb: string): string
  {
    Namespace + "/" + id + TwinCommands + verb
  }

  /** `toDittoMessage`: a "modify" command on path "/features" whose value
      holds the event's state as the properties of its feature. */
  function ToDittoMessage(e: Event): (r: Result<Message>)
    ensures r.Err? <==> e.Unsupported?
    ensures r.Err? ==> r.msg == UnsupportedMessage(e.className)
    ensures r.Ok? ==> r.value.Keys == {"topic", "headers", "path", "value"}
    ensures r.Ok? ==> r.value["topic"] == JStr(Topic(ThingId(e), Modify))
                      && r.value["headers"] == JObj(map[])
                      && r.value["path"] == JStr("/features")
  {
    if e.Unsupported? then Err(UnsupportedMessage(e.className))
    else
      Ok(map["topic" := JStr(Topic(ThingId(e), Modify)),
             "headers" := JObj(map[]),
             "path" := JStr("/features"),
             "value" := JObj(map[FeatureName(e) := JObj(map["properties" := Properties(e)])])])
  }

  /** `toDittoCreateMessage`: a "create" command on path "/" whose value
      names the default policy and holds the same feature. */
  function ToDittoCreateMessage(e: Event): (r: Result<Message>)
    ensures r.Err? <==> e.Unsupported?
    ensures r.Err? ==> r.msg == UnsupportedMessage(e.className)
    ensures r.Ok? ==> r.value.Keys == {"topic", "headers", "path", "value"}
    ensures r.Ok? ==> r.value["topic"] == JStr(Topic(ThingId(e), Create))
                      && r.value["headers"] == JObj(map[])
                      && r.value["path"] == JStr("/")
  {
    if e.Unsupported? then Err(UnsupportedMessage(e.className))
    else
      Ok(map["topic" := JStr(Topic(ThingId(e), Create)),
             "headers" := JObj(map[]),
             "path" := JStr("/"),
             "value" := JObj(map["policyId" := JStr(DefaultPolicy),
                                 "features" := JObj(map[FeatureName(e) := JObj(map["properties" := Properties(e)])])])])
  }

  /** `toDittoResponseMessage`: a "response" with status 200 whatever status
      it is given, the correlation id as its only header, and the payload. */
  function ToDittoResponseMessage(thingId: string, correlationId: string, status: string, payload: Json): (r: Message)
    ensures r.Keys == {"type", "status", "headers", "path", "value"}
    ensures r["type"] == JStr("response") && r["status"] == JNum(200)
    ensures r["path"] == JStr(ResponsePath)
    ensures CorrelationId(r) == Some(correlationId)
    ensures Payload(r) == Some(payload)
  {
    map["type" := JStr("response"),
        "status" := JNum(200),
        "headers" := JObj(map["correlation-id" := JStr(correlationId)]),
        "path" := JStr(ResponsePath),
        "value" := JObj(map["payload" := payload])]
  }

  /** Reading a reply back: its correlation-id header and its payload. */
  function CorrelationId(m: Message): Option<string>
  {
    if "headers" in m && m["headers"].JObj? && "correlation-id" in m["headers"].fields
       && m["headers"].fields["correlation-id"].JStr?
    then Some(m["headers"].fields["correlation-id"].s)
    else None
  }

  function Payload(m: Message): Option<Json>
  {
    if "value" in m && m["value"].JObj? && "payload" in m["value"].fields
    then Some(m["value"].fields["payload"])
    else None
  }

  /** The reply depends only on the correlation id and the payload. */
  lemma ResponseIgnoresThingAndStatus(t1: string, t2: string, c: string, s1: string, s2: string, p: Json)
    ensures ToDittoResponseMessage(t1, c, s1, p) == ToDittoResponseMessage(t2, c, s2, p)
  {
  }

  /** Reading an update back out of a feature map: exactly one feature,
      named after the kind of record it holds, with that record as its
      properties. */
  function EventOfFeatures(features: Json): Option<Event>
  {
    if features.JObj? && |features.fields.Keys| == 1 && "station" in features.fields
       && features.fields["station"].JObj? && "properties" in features.fields["station"].fields
       && features.fields["station"].fields["properties"].JStation?
    then Some(StationUpdate(features.fields["station"].fields["properties"].station))
    else if features.JObj? && |features.fields.Keys| == 1 && "abike" in features.fields
       && features.fields["abike"].JObj? && "properties" in features.fields["abike"].fields
       && features.fields["abike"].fields["properties"].JABike?
    then Some(ABikeUpdate(features.fields["abike"].fields["properties"].abike))
    else None
  }

  /** What a modify command says: the update its "value" carries. */
  function EventOfModify(m: Message): Option<Event>
  {
    if "value" in m then EventOfFeatures(m["value"]) else None
  }

  /** What a create command says: the update its "value.features" carries. */
  function EventOfCreate(m: Message): Option<Event>
  {
    if "value" in m && m["value"].JObj? && "features" in m["value"].fields
    then EventOfFeatures(m["value"].fields["features"])
    else None
  }

  lemma SingleKey<V>(k: string, v: V)
    ensures |map[k := v].Keys| == 1
  {
    assert map[k := v].Keys == {k};
  }

  /** Both commands carry the whole update: reading it back gives the event. */
  lemma ModifyRoundTrip(e: Event)
    requires !e.Unsupported?
    ensures EventOfModify(ToDittoMessage(e).value) == Some(e)
  {
    SingleKey(FeatureName(e), JObj(map["properties" := Properties(e)]));
  }

  lemma CreateRoundTrip(e: Event)
    requires !e.Unsupported?
    ensures EventOfCreate(ToDittoCreateMessage(e).value) == Some(e)
    ensures ToDittoCreateMessage(e).value["value"].fields["policyId"] == JStr(DefaultPolicy)
  {
    SingleKey(FeatureName(e), JObj(map["properties" := Properties(e)]));
  }

  /** The create and the modify command of one event name the same twin and
      carry the same feature; they differ in verb, path and policy. */
  lemma CreateAndModifyAgree(e: Event)
    requires !e.Unsupported?
    ensures ToDittoMessage(e).Ok? && ToDittoCreateMessage(e).Ok?
    ensures EventOfModify(ToDittoMessage(e).value) == EventOfCreate(ToDittoCreateMessage(e).value)
    ensures ToDittoMessage(e).value["topic"] != ToDittoCreateMessage(e).value["topic"]
  {
    ModifyRoundTrip(e);
    CreateRoundTrip(e);
    TopicInjective(ThingId(e), Modify, ThingId(e), Create);
  }

  /** Position of the first '/' in `s`, or `|s|` when there is none. */
  function SlashIndex(s: string): (i: nat)
    ensures i <= |s|
    ensures i < |s| ==> s[i] == '/'
    ensures forall j :: 0 <= j < i ==> s[j] != '/'
  {
    if s == [] then 0 else if s[0] == '/' then 0 else 1 + SlashIndex(s[1..])
  }

  /** Nothing but '/' characters (or nothing at all). */
  predicate OnlySlashes(s: string)
  {
    s == [] || (s[0] == '/' && OnlySlashes(s[1..]))
  }

  lemma {:induction false} NotOnlySlashes(s: string, k: nat)
    requires k < |s| && s[k] != '/'
    ensures !OnlySlashes(s)
  {
    if k > 0 {
      NotOnlySlashes(s[1..], k - 1);
    }
  }

  /** `topic.split("/")`, then the second part, or `null` when there are
      fewer than two parts: Java drops trailing empty parts, so a string
      whose first '/' is followed only by more '/' has just one. This is how
      the adapter's consumer reads a thing id back out of a Ditto topic. */
  function SecondSegment(s: string): Option<string>
  {
    var i := SlashIndex(s);
    if i == |s| then None
    else
      var rest := s[i + 1..];
      if OnlySlashes(rest) then None
      else Some(rest[..SlashIndex(rest)])
  }

  lemma {:induction false} SlashIndexAfter(a: string, b: string)
    requires '/' !in a
    ensures SlashIndex(a + "/" + b) == |a|
  {
    if a == [] {
      assert (a + "/" + b)[0] == '/';
    } else {
      assert (a + "/" + b)[1..] == a[1..] + "/" + b;
      SlashIndexAfter(a[1..], b);
    }
  }

  /** The second part of `p/id/tail`, for a first part and an id without '/'
      and a tail that does not start with '/', is the id. */
  lemma SecondOfThree(p: string, id: string, tail: string)
    requires '/' !in p && '/' !in id
    requires tail != [] && tail[0] != '/'
    ensures SecondSegment(p + "/" + (id + "/" + tail)) == Some(id)
  {
    var s := p + "/" + (id + "/" + tail);
    SlashIndexAfter(p, id + "/" + tail);
    var rest := s[|p| + 1..];
    assert rest == id + "/" + tail;
    assert rest[|id| + 1] == tail[0];
    NotOnlySlashes(rest, |id| + 1);
    SlashIndexAfter(id, tail);
    assert rest[..|id|] == id;
  }

  /** A thing id without '/' survives the trip through the topic: the
      consumer recovers exactly the id the factory put in. */
  lemma TopicRoundTrip(id: string, verb: string)
    requires '/' !in id
    ensures SecondSegment(Topic(id, verb)) == Some(id)
  {
    assert Topic(id, verb) == Namespace + "/" + (id + "/" + ("things/twin/commands/" + verb));
    SecondOfThree(Namespace, id, "things/twin/commands/" + verb);
  }

  /** An id with a '/' is cut at it: a different twin's id is read back. */
  lemma TopicCutsIdAtSlash()
    ensures SecondSegment(Topic("a/b", Modify)) == Some("a")
  {
    assert Topic("a/b", Modify) == Namespace + "/" + ("a" + "/" + ("b" + TwinCommands + Modify));
    SecondOfThree(Namespace, "a", "b" + TwinCommands + Modify);
  }

  /** Distinct ids or distinct verbs give distinct topics (the two verbs
      have the same length). */
  lemma TopicInjective(a: string, v: string, b: string, w: string)
    requires v in {Modify, Create} && w in {Modify, Create}
    ensures Topic(a, v) == Topic(b, w) <==> a == b && v == w
  {
    if Topic(a, v) == Topic(b, w) {
      var ta := Topic(a, v);
      var tb := Topic(b, w);
      assert |a| == |b|;
      var n := |Namespace| + 1;
      forall i | 0 <= i < |a|
        ensures a[i] == b[i]
      {
        assert ta[n + i] == a[i];
        assert tb[n + i] == b[i];
      }
      var m := n + |a| + |TwinCommands|;
      forall i | 0 <= i < 6
        ensures v[i] == w[i]
      {
        assert ta[m + i] == v[i];
        assert tb[m + i] == w[i];
      }
    }
  }
}
