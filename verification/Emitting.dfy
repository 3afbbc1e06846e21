/** emit: how a client prepares and checks a draft before the delivery, and what emitting it twice does. */
module Emitting {
  import opened Options
  import opened GraphModel
  import opened GraphStores
  import opened Coherence
  import opened JsonValues
  import opened Payloads
  import opened Sending = Delivery

  const TOP_LEVEL_FIELDS := ["tenantId", "applicationId", "applicationInstanceId", "environment", "actor", "action", "object", "source"]
  const ACTOR_FIELDS := ["nativeUserId", "userIdType"]
  const ACTION_FIELDS := ["type", "category"]
  const OBJECT_FIELDS := ["objectType", "objectId"]
  const SOURCE_FIELDS := ["connector", "connectorVersion"]
  const MISSING := "missing required field: "

  function Default(d: Fields, key: string, value: string): Fields { if key in d then d else d[key := Text(value)] }

  function Prepare(d: Fields, uuid: string, now: string): Fields {
    Default(Default(Default(d, "schemaVersion", "1.0.0"), "eventId", uuid), "eventTimestamp", now)
  }

  /** Preparing fills in exactly what is missing of three fields. */
  lemma PrepareExact(d: Fields, uuid: string, now: string)
    ensures Prepare(d, uuid, now).Keys == d.Keys + {"schemaVersion", "eventId", "eventTimestamp"}
    ensures forall key :: key in d ==> Prepare(d, uuid, now)[key] == d[key]
    ensures "schemaVersion" !in d ==> Prepare(d, uuid, now)["schemaVersion"] == Text("1.0.0")
    ensures "eventId" !in d ==> Prepare(d, uuid, now)["eventId"] == Text(uuid)
    ensures "eventTimestamp" !in d ==> Prepare(d, uuid, now)["eventTimestamp"] == Text(now)
  {}

  function MissingFrom(d: Fields, required: seq<string>, prefix: string): seq<string> {
    if required == [] then []
    else
      MissingFrom(d, required[..|required| - 1], prefix) +
      if required[|required| - 1] in d then [] else [MISSING + prefix + required[|required| - 1]]
  }

  function NestedErrors(d: Fields, key: string, required: seq<string>): seq<string> {
    if key in d && d[key].Object? then MissingFrom(d[key].fields, required, key + ".") else [MISSING + key]
  }

  function Errors(d: Fields): seq<string> {
    MissingFrom(d, TOP_LEVEL_FIELDS, "") + NestedErrors(d, "actor", ACTOR_FIELDS) + NestedErrors(d, "action", ACTION_FIELDS)
    + NestedErrors(d, "object", OBJECT_FIELDS) + NestedErrors(d, "source", SOURCE_FIELDS)
  }

  predicate HasAll(d: Fields, required: seq<string>) { forall i :: 0 <= i < |required| ==> required[i] in d }

  predicate HasBoth(d: Fields, key: string, first: string, second: string) {
    key in d && d[key].Object? && first in d[key].fields && second in d[key].fields
  }

  /** Everything the client insists on is there. */
  predicate Complete(d: Fields) {
    && "tenantId" in d && "applicationId" in d && "applicationInstanceId" in d && "environment" in d
    && HasBoth(d, "actor", "nativeUserId", "userIdType") && HasBoth(d, "action", "type", "category")
    && HasBoth(d, "object", "objectType", "objectId") && HasBoth(d, "source", "connector", "connectorVersion")
  }

  lemma {:induction false} MissingExact(d: Fields, required: seq<string>, prefix: string)
    ensures MissingFrom(d, required, prefix) == [] <==> HasAll(d, required)
  {
    if required != [] {
      var front := required[..|required| - 1];
      MissingExact(d, front, prefix);
      assert forall i :: 0 <= i < |front| ==> required[i] == front[i];
    }
  }

  lemma {:induction false} MissingNamed(d: Fields, required: seq<string>, prefix: string, i: nat)
    requires i < |required| && required[i] !in d
    ensures MISSING + prefix + required[i] in MissingFrom(d, required, prefix)
  {
    if i < |required| - 1 { MissingNamed(d, required[..|required| - 1], prefix, i); }
  }

  lemma TopLevelListed(d: Fields)
    ensures HasAll(d, TOP_LEVEL_FIELDS) <==>
            && "tenantId" in d && "applicationId" in d && "applicationInstanceId" in d && "environment" in d
            && "actor" in d && "action" in d && "object" in d && "source" in d
  {
    var f := TOP_LEVEL_FIELDS;
    assert f[0] == "tenantId" && f[1] == "applicationId" && f[2] == "applicationInstanceId" && f[3] == "environment";
    assert f[4] == "actor" && f[5] == "action" && f[6] == "object" && f[7] == "source";
    assert forall i :: 0 <= i < 8 ==> f[i] == f[0] || f[i] == f[1] || f[i] == f[2] || f[i] == f[3] || f[i] == f[4] || f[i] == f[5] || f[i] == f[6] || f[i] == f[7];
  }

  lemma NestedListed(d: Fields, key: string, first: string, second: string)
    ensures NestedErrors(d, key, [first, second]) == [] <==> HasBoth(d, key, first, second)
  {
    hide MissingFrom;
    if key in d && d[key].Object? {
      MissingExact(d[key].fields, [first, second], key + ".");
      var f := [first, second];
      assert f[0] == first && f[1] == second;
      assert HasAll(d[key].fields, f) <==> first in d[key].fields && second in d[key].fields;
    }
  }

  /** Local validation passes exactly the complete drafts, and names every top-level field that is missing. */
  lemma ErrorsExact(d: Fields)
    ensures Errors(d) == [] <==> Complete(d)
    ensures forall f :: f !in d && f in {"tenantId", "applicationId", "applicationInstanceId", "environment", "actor", "action", "object", "source"}
              ==> "missing required field: " + f in Errors(d)
  {
    hide MissingFrom, HasAll, NestedErrors, HasBoth;
    MissingExact(d, TOP_LEVEL_FIELDS, "");
    TopLevelListed(d);
    NestedListed(d, "actor", "nativeUserId", "userIdType");
    NestedListed(d, "action", "type", "category");
    NestedListed(d, "object", "objectType", "objectId");
    NestedListed(d, "source", "connector", "connectorVersion");
    BothMeansThere(d);
    NamesMissing(d);
  }

  lemma BothMeansThere(d: Fields)
    ensures forall key, first, second :: HasBoth(d, key, first, second) ==> key in d
  {}

  lemma NamesMissing(d: Fields)
    ensures forall f :: f !in d && f in {"tenantId", "applicationId", "applicationInstanceId", "environment", "actor", "action", "object", "source"}
              ==> "missing required field: " + f in MissingFrom(d, TOP_LEVEL_FIELDS, "")
  {
    hide MissingFrom;
    var t := TOP_LEVEL_FIELDS;
    forall f | f !in d && f in {"tenantId", "applicationId", "applicationInstanceId", "environment", "actor", "action", "object", "source"}
      ensures "missing required field: " + f in MissingFrom(d, t, "")
    {
      var i := if f == t[0] then 0 else if f == t[1] then 1 else if f == t[2] then 2 else if f == t[3] then 3
               else if f == t[4] then 4 else if f == t[5] then 5 else if f == t[6] then 6 else 7;
      assert t[i] == f;
      MissingNamed(d, t, "", i);
      assert MISSING + "" + f == "missing required field: " + f;
    }
  }

  method CollectMissing(d: Fields, required: seq<string>, prefix: string, errors: seq<string>) returns (all: seq<string>)
    ensures all == errors + MissingFrom(d, required, prefix)
  {
    all := errors;
    for i := 0 to |required|
      invariant all == errors + MissingFrom(d, required[..i], prefix)
    {
      assert required[..i + 1][..i] == required[..i];
      if required[i] !in d {
        all := all + [MISSING + prefix + required[i]];
      }
    }
    assert required[..|required|] == required;
  }

  method ValidateNested(d: Fields, key: string, required: seq<string>, errors: seq<string>) returns (all: seq<string>)
    ensures all == errors + NestedErrors(d, key, required)
  {
    if !(key in d && d[key].Object?) {
      return errors + [MISSING + key];
    }
    all := CollectMissing(d[key].fields, required, key + ".", errors);
  }

  method ValidateEvent(d: Fields) returns (errors: seq<string>)
    ensures errors == Errors(d)
    ensures errors == [] <==> Complete(d)
  {
    hide MissingFrom, NestedErrors, Complete;
    ErrorsExact(d);
    errors := CollectMissing(d, TOP_LEVEL_FIELDS, "", []);
    errors := ValidateNested(d, "actor", ACTOR_FIELDS, errors);
    errors := ValidateNested(d, "action", ACTION_FIELDS, errors);
    errors := ValidateNested(d, "object", OBJECT_FIELDS, errors);
    errors := ValidateNested(d, "source", SOURCE_FIELDS, errors);
  }

  /** What the server reads from a prepared draft. */
  function Prepared(d: Fields, uuid: string, now: string, at: string -> int, dumps: Json -> string): Event {
    Unpack(Prepare(d, uuid, now), at, dumps)
  }

  /** A caller's id is kept and a missing one is drawn once; preparing again changes neither. */
  lemma IdIsFixed(d: Fields, uuid: string, now: string, uuid2: string, now2: string, at: string -> int, dumps: Json -> string)
    ensures "eventId" !in d ==> Prepared(d, uuid, now, at, dumps).eventId == uuid
    ensures "eventId" in d ==> Prepared(d, uuid, now, at, dumps).eventId == Prepared(d, uuid2, now2, at, dumps).eventId
    ensures Prepare(Prepare(d, uuid, now), uuid2, now2) == Prepare(d, uuid, now)
  {}

  lemma StoredStaysOne(g: Graph, steps: seq<Step>, id: string)
    requires Consistent(g) && id in EventIds(g.performed)
    ensures id in EventIds(Run(g, steps).performed) && |WithId(Run(g, steps).performed, id)| == 1
  {
    RunKeepsConsistent(g, steps);
    IdsOnlyGrow(g, steps);
    UniqueWithId(Run(g, steps).performed, id);
  }

  /**
   Emitting a draft twice, with any network, any ending and anybody's transactions in
   between. If the id of the second emit is stored by then, the second emit leaves
   only the others' transactions; with the caller's own id that is so once the first
   emit returned. An emit that returns leaves exactly one edge with its id, so with
   generated ids two returned emits leave one edge each.
  */
  lemma EmittingTwice(sdk: Sdk, g: Graph, d: Fields, uuid1: string, uuid2: string, now1: string, now2: string,
                      at: string -> int, dumps: Json -> string, net1: Network, net2: Network, between: seq<Step>, maxRetries: int)
    requires Consistent(g)
    ensures var e1, e2 := Prepared(d, uuid1, now1, at, dumps), Prepared(d, uuid2, now2, at, dumps);
            var r1 := Delivery(sdk, g, e1, net1, maxRetries);
            var h := Run(r1.graph, between);
            var r2 := Delivery(sdk, h, e2, net2, maxRetries);
            && (e2.eventId in EventIds(h.performed) ==> r2.graph == Run(h, Without(Reached(sdk, e2, net2, maxRetries), e2)))
            && ("eventId" in d && r1.ending.Returned? ==> e2.eventId in EventIds(h.performed))
            && (r1.ending.Returned? ==> |WithId(r2.graph.performed, e1.eventId)| == 1)
            && (r2.ending.Returned? ==> |WithId(r2.graph.performed, e2.eventId)| == 1)
  {
    hide Delivery, Prepared, Reached, WithId, Consistent;
    var e1, e2 := Prepared(d, uuid1, now1, at, dumps), Prepared(d, uuid2, now2, at, dumps);
    var r1 := Delivery(sdk, g, e1, net1, maxRetries);
    var h := Run(r1.graph, between);
    IdIsFixed(d, uuid1, now1, uuid2, now2, at, dumps);
    ExactlyOnce(sdk, g, e1, net1, maxRetries);
    RunKeepsConsistent(r1.graph, between);
    ExactlyOnce(sdk, h, e2, net2, maxRetries);
    DeliveryIsRun(sdk, h, e2, net2, maxRetries);
    if r1.ending.Returned? {
      WithIdMembers(r1.graph.performed, e1.eventId);
      StoredStaysOne(r1.graph, between, e1.eventId);
      StoredStaysOne(h, Reached(sdk, e2, net2, maxRetries), e1.eventId);
    }
    if e2.eventId in EventIds(h.performed) { RepeatIsNoOp(sdk, h, e2, net2, maxRetries); }
  }

  /** With nobody else writing: the caller's own id leaves the store as the first emit did, and two new ids add two edges. */
  lemma EmittingTwiceUndisturbed(sdk: Sdk, g: Graph, d: Fields, uuid1: string, uuid2: string, now1: string, now2: string,
                                 at: string -> int, dumps: Json -> string, net1: Network, net2: Network, maxRetries: int)
    ensures var e1, e2 := Prepared(d, uuid1, now1, at, dumps), Prepared(d, uuid2, now2, at, dumps);
            var r1 := Delivery(sdk, g, e1, net1, maxRetries);
            var r2 := Delivery(sdk, r1.graph, e2, net2, maxRetries);
            Quiet(net1) && Quiet(net2) && r1.ending.Returned? && r2.ending.Returned? ==>
              && ("eventId" in d ==> r2.graph == r1.graph)
              && ("eventId" !in d && uuid1 != uuid2 && uuid1 !in EventIds(g.performed) && uuid2 !in EventIds(g.performed) ==>
                    |r2.graph.performed| == |g.performed| + 2)
  {
    hide Delivery, Prepared, Quiet, Write, Accepts;
    var e1, e2 := Prepared(d, uuid1, now1, at, dumps), Prepared(d, uuid2, now2, at, dumps);
    var r1 := Delivery(sdk, g, e1, net1, maxRetries);
    IdIsFixed(d, uuid1, now1, uuid2, now2, at, dumps);
    IdIsFixed(d, uuid2, now2, uuid1, now1, at, dumps);
    QuietReturnIsOneWrite(sdk, g, e1, net1, maxRetries);
    QuietReturnIsOneWrite(sdk, r1.graph, e2, net2, maxRetries);
    TwoWrites(g, e1, e2);
  }

  lemma QuietReturnIsOneWrite(sdk: Sdk, g: Graph, e: Event, net: Network, maxRetries: int)
    ensures var r := Delivery(sdk, g, e, net, maxRetries); Quiet(net) && r.ending.Returned? ==> r.graph == Write(g, e)
  {
    hide Delivery, Quiet;
    if Delivery(sdk, g, e, net, maxRetries).ending.Returned? {
      var before, after := ReturnIsOneWrite(sdk, g, e, net, maxRetries);
    }
  }

  lemma TwoWrites(g: Graph, e1: Event, e2: Event)
    ensures e1.eventId == e2.eventId ==> Write(Write(g, e1), e2) == Write(g, e1)
    ensures e1.eventId != e2.eventId && e1.eventId !in EventIds(g.performed) && e2.eventId !in EventIds(g.performed) ==> |Write(Write(g, e1), e2).performed| == |g.performed| + 2
  {
    var h := Write(g, e1);
    if Accepts(g, e1) {
      assert h.performed == g.performed + [e1.Performed()];
      assert EventIds(h.performed) == EventIds(g.performed) + {e1.eventId};
    }
  }

  lemma PreparedComplete(d: Fields, uuid: string, now: string)
    ensures Complete(Prepare(d, uuid, now)) <==> Complete(d)
  {
    hide Prepare;
    PrepareExact(d, uuid, now);
  }

  /** emit: defaults and local validation first; only a complete draft is sent, with its id fixed before the first attempt. */
  method Emit(sdk: Sdk, store: GraphStore, d: Fields, uuid: string, now: string, at: string -> int, dumps: Json -> string,
              net: Network, maxRetries: int)
    returns (errors: seq<string>, ending: Option<Ending>)
    modifies store
    ensures errors == Errors(Prepare(d, uuid, now))
    ensures errors == [] <==> Complete(d)
    ensures ending.Some? <==> Complete(d)
    ensures ending.None? ==> store.State() == old(store.State())
    ensures ending.Some? ==>
              var r := Delivery(sdk, old(store.State()), Prepared(d, uuid, now, at, dumps), net, maxRetries);
              ending == Some(r.ending) && store.State() == r.graph
  {
    hide Errors, Complete, Prepare, Delivery;
    PreparedComplete(d, uuid, now);
    var prepared := Prepare(d, uuid, now);
    errors := ValidateEvent(prepared);
    if errors != [] {
      return errors, None;
    }
    var e, sleeps;
    if sdk.Python? {
      e, sleeps := PythonSend(store, Unpack(prepared, at, dumps), net, maxRetries);
    } else {
      e, sleeps := NodeSend(store, Unpack(prepared, at, dumps), net, maxRetries);
    }
    ending := Some(e);
  }
}
