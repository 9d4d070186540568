/** The Ditto adapter's translator (ditto-kafka-adapter
    `application/DittoTranslatorService.java`): every station or a-bike update
    becomes a Ditto "modify" command, preceded by a "create" command the
    first time the adapter sees the thing's id. The set of known ids lives
    in the service and only grows. What the producers are handed is
    recorded, in order, as (key, message) pairs; the JSON text Jackson makes
    of a message is left to the message values. */
module DittoTranslator {
  import opened Common
  import opened DittoFactory

  /** A record handed to a producer: its Kafka key and its message. */
  datatype Sent = Sent(key: string, message: Message)

  /** `extractKey`: the station's id, the a-bike's id, or "unknown". */
  function ExtractKey(e: Event): (k: string)
    ensures !e.Unsupported? ==> k == ThingId(e)
    ensures e.Unsupported? ==> k == "unknown"
  {
    match e
    case StationUpdate(s) => s.id
    case ABikeUpdate(b) => b.id
    case Unsupported(_) => "unknown"
  }

  /** What one event sends, given the ids known before it: for a supported
      event, a create command when its id is new and then a modify command,
      all under the event's key; for any other event nothing, since both
      builders throw before anything is sent. */
  function SentFor(known: set<string>, e: Event): (out: seq<Sent>)
    ensures e.Unsupported? ==> out == []
    ensures !e.Unsupported? && ExtractKey(e) in known ==> |out| == 1
    ensures !e.Unsupported? && ExtractKey(e) !in known ==> |out| == 2
    ensures forall i :: 0 <= i < |out| ==> out[i].key == ExtractKey(e)
    ensures !e.Unsupported? ==> out[|out| - 1].message == ToDittoMessage(e).value
    ensures !e.Unsupported? && ExtractKey(e) !in known ==> out[0].message == ToDittoCreateMessage(e).value
  {
    if e.Unsupported? then []
    else
      var key := ExtractKey(e);
      (if key in known then [] else [Sent(key, ToDittoCreateMessage(e).value)])
      + [Sent(key, ToDittoMessage(e).value)]
  }

  /** The ids known after an event, as `handleEvent` is written: the key is
      added before the create command is built, so an unsupported event
      adds "unknown". */
  function KnownAfterAsWritten(known: set<string>, e: Event): set<string>
  {
    known + {ExtractKey(e)}
  }

  /** The ids known after an event when an id counts as known only once its
      create command has been sent. */
  function KnownAfter(known: set<string>, e: Event): set<string>
  {
    if e.Unsupported? then known else known + {ExtractKey(e)}
  }

  /** Handling a run of events from a given set of known ids: the final
      set and everything sent. */
  function RunAsWritten(known: set<string>, events: seq<Event>): (set<string>, seq<Sent>)
    decreases |events|
  {
    if events == [] then (known, [])
    else
      var last := events[|events| - 1];
      var (k, out) := RunAsWritten(known, events[..|events| - 1]);
      (KnownAfterAsWritten(k, last), out + SentFor(k, last))
  }

  function Run(known: set<string>, events: seq<Event>): (set<string>, seq<Sent>)
    decreases |events|
  {
    if events == [] then (known, [])
    else
      var last := events[|events| - 1];
      var (k, out) := Run(known, events[..|events| - 1]);
      (KnownAfter(k, last), out + SentFor(k, last))
  }

  /** The keys of the station and a-bike updates among `events`. */
  function SupportedKeys(events: seq<Event>): set<string>
  {
    set i | 0 <= i < |events| && !events[i].Unsupported? :: ExtractKey(events[i])
  }

  /** The keys of all `events`. */
  function AllKeys(events: seq<Event>): set<string>
  {
    set i | 0 <= i < |events| :: ExtractKey(events[i])
  }

  lemma SupportedKeysAppend(events: seq<Event>, e: Event)
    ensures SupportedKeys(events + [e]) == if e.Unsupported? then SupportedKeys(events)
                                          else SupportedKeys(events) + {ExtractKey(e)}
  {
    var all := events + [e];
    forall k | k in SupportedKeys(all)
      ensures k in SupportedKeys(events) || (!e.Unsupported? && k == ExtractKey(e))
    {
      var i :| 0 <= i < |all| && !all[i].Unsupported? && ExtractKey(all[i]) == k;
      if i < |events| {
        assert all[i] == events[i];
      }
    }
    forall k | k in SupportedKeys(events)
      ensures k in SupportedKeys(all)
    {
      var i :| 0 <= i < |events| && !events[i].Unsupported? && ExtractKey(events[i]) == k;
      assert all[i] == events[i];
    }
    if !e.Unsupported? {
      assert all[|events|] == e;
    }
  }

  lemma AllKeysAppend(events: seq<Event>, e: Event)
    ensures AllKeys(events + [e]) == AllKeys(events) + {ExtractKey(e)}
  {
    var all := events + [e];
    forall k | k in AllKeys(all)
      ensures k in AllKeys(events) || k == ExtractKey(e)
    {
      var i :| 0 <= i < |all| && ExtractKey(all[i]) == k;
      if i < |events| {
        assert all[i] == events[i];
      }
    }
    forall k | k in AllKeys(events)
      ensures k in AllKeys(all)
    {
      var i :| 0 <= i < |events| && ExtractKey(events[i]) == k;
      assert all[i] == events[i];
    }
    assert all[|events|] == e;
  }

  /** From a fresh service, the known ids are exactly the keys of the
      station and a-bike updates handled so far. */
  lemma {:induction false} RunKnowsSupportedKeys(events: seq<Event>)
    ensures Run({}, events).0 == SupportedKeys(events)
  {
    if events != [] {
      var front := events[..|events| - 1];
      var last := events[|events| - 1];
      assert events == front + [last];
      RunKnowsSupportedKeys(front);
      SupportedKeysAppend(front, last);
    }
  }

  /** As written, the known ids are the keys of every event handled,
      "unknown" included once any unsupported event has arrived. */
  lemma {:induction false} RunAsWrittenKnowsAllKeys(events: seq<Event>)
    ensures RunAsWritten({}, events).0 == AllKeys(events)
  {
    if events != [] {
      var front := events[..|events| - 1];
      var last := events[|events| - 1];
      assert events == front + [last];
      RunAsWrittenKnowsAllKeys(front);
      AllKeysAppend(front, last);
    }
  }

  /** The twin of every thing is created before it is modified: after any
      history, a station or a-bike update sends a create command exactly
      when no earlier update named its id. */
  lemma FirstUpdateCreates(history: seq<Event>, e: Event)
    requires !e.Unsupported?
    ensures var out := SentFor(Run({}, history).0, e);
            (|out| == 2 && out[0].message == ToDittoCreateMessage(e).value)
            <==> ExtractKey(e) !in SupportedKeys(history)
  {
    RunKnowsSupportedKeys(history);
    CreateAndModifyAgree(e);
  }

  /** The known ids never shrink. */
  lemma {:induction false} RunGrows(known: set<string>, events: seq<Event>)
    ensures known <= Run(known, events).0
    ensures known <= RunAsWritten(known, events).0
  {
    if events != [] {
      RunGrows(known, events[..|events| - 1]);
    }
  }

  /** As written, an unsupported event makes "unknown" a known id, so a
      station whose id is "unknown" never has its twin created: its first
      update sends only a modify command. */
  lemma UnknownIdPoisoned(className: string, st: Station)
    requires st.id == "unknown"
    ensures var history := [Unsupported(className)];
            var e := StationUpdate(st);
            |SentFor(RunAsWritten({}, history).0, e)| == 1
            && |SentFor(Run({}, history).0, e)| == 2
  {
    var history := [Unsupported(className)];
    RunAsWrittenKnowsAllKeys(history);
    RunKnowsSupportedKeys(history);
    assert AllKeys(history) == {"unknown"} by {
      assert ExtractKey(history[0]) == "unknown";
    }
  }

  /** The adapter service: the known ids and what it has handed to the
      command producer and to the response producer, in order. */
  class TranslatorService {
    var knownIds: set<string>
    var sent: seq<Sent>
    var responses: seq<Sent>

    constructor()
      ensures knownIds == {} && sent == [] && responses == []
    {
      knownIds := {};
      sent := [];
      responses := [];
    }

    /** `handleEvent` as written: an unsupported event still marks "unknown"
        as known before the builder throws. */
    method HandleEventAsWritten(e: Event) returns (r: Result<()>)
      modifies this
      ensures r.Err? <==> e.Unsupported?
      ensures r.Err? ==> r.msg == UnsupportedMessage(e.className)
      ensures knownIds == KnownAfterAsWritten(old(knownIds), e)
      ensures sent == old(sent) + SentFor(old(knownIds), e)
      ensures responses == old(responses)
    {
      var id := ExtractKey(e);
      if id !in knownIds {
        knownIds := knownIds + {id};
        var create := ToDittoCreateMessage(e);
        if create.Err? {
          return Err(create.msg);
        }
        sent := sent + [Sent(id, create.value)];
      }
      var command := ToDittoMessage(e);
      if command.Err? {
        return Err(command.msg);
      }
      sent := sent + [Sent(id, command.value)];
      r := Ok(());
    }

    /** `handleEvent` with the id marked known only once its create command
        has been built and sent. */
    method HandleEvent(e: Event) returns (r: Result<()>)
      modifies this
      ensures r.Err? <==> e.Unsupported?
      ensures r.Err? ==> r.msg == UnsupportedMessage(e.className)
      ensures knownIds == KnownAfter(old(knownIds), e)
      ensures sent == old(sent) + SentFor(old(knownIds), e)
      ensures responses == old(responses)
    {
      var id := ExtractKey(e);
      if id !in knownIds {
        var create := ToDittoCreateMessage(e);
        if create.Err? {
          return Err(create.msg);
        }
        sent := sent + [Sent(id, create.value)];
        knownIds := knownIds + {id};
      }
      var command := ToDittoMessage(e);
      if command.Err? {
        return Err(command.msg);
      }
      sent := sent + [Sent(id, command.value)];
      r := Ok(());
    }

    /** `sendDittoResponse`: the reply is keyed by the correlation id. */
    method SendDittoResponse(thingId: string, correlationId: string, status: string, payload: Json)
      modifies this
      ensures responses == old(responses) + [Sent(correlationId, ToDittoResponseMessage(thingId, correlationId, status, payload))]
      ensures knownIds == old(knownIds) && sent == old(sent)
    {
      responses := responses + [Sent(correlationId, ToDittoResponseMessage(thingId, correlationId, status, payload))];
    }
  }

  /** Two updates of one station, from a fresh service: create, modify,
      modify, all keyed by the station's id. */
  method TwoUpdatesScenario(first: Station, second: Station) returns (sent: seq<Sent>)
    requires first.id == second.id
    ensures |sent| == 3
    ensures forall i :: 0 <= i < 3 ==> sent[i].key == first.id
    ensures "topic" in sent[0].message && sent[0].message["topic"] == JStr(Topic(first.id, Create))
    ensures "topic" in sent[1].message && sent[1].message["topic"] == JStr(Topic(first.id, Modify))
    ensures "topic" in sent[2].message && sent[2].message["topic"] == JStr(Topic(first.id, Modify))
  {
    var service := new TranslatorService();
    var r1 := service.HandleEvent(StationUpdate(first));
    var r2 := service.HandleEvent(StationUpdate(second));
    sent := service.sent;
  }
}
