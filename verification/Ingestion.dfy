/**
 The ingestion routes behind the tenant check: POST /v1/events and
 POST /v1/events/batch.
*/
module Ingestion {
  import opened Options
  import opened GraphModel
  import opened Counting
  import opened GraphStores
  import opened Isolation
  import opened Reals

  /**
   One submitted JSON value. `event` is its content when the schema validator
   accepts it; tenant and id are the values a dictionary lookup finds. An item
   trips when handling it after validation raises something other than the
   duplicate error: an accepted event whose timestamp the database cannot read,
   or a rejected one whose eventId is neither missing nor a string.
  */
  datatype RawPayload = RawPayload(isObject: bool, tenant: Option<string>, id: Option<string>, event: Option<Event>, trips: bool)

  predicate SchemaHolds(p: RawPayload) {
    p.event.Some? ==>
      p.isObject && p.tenant == Some(p.event.value.tenant) && p.id == Some(p.event.value.eventId) && p.event.value.tenant != ""
  }

  type Payload = p: RawPayload | SchemaHolds(p) witness RawPayload(false, None, None, None, false)

  const MAX_BATCH_SIZE := 100

  datatype ItemResult = ItemResult(eventId: Option<string>, accepted: bool)

  datatype BatchResponse =
    | TooLarge
    | Crashed(done: nat)
    | BatchRejected
    | Processed(results: seq<ItemResult>, acceptedCount: nat, rejectedCount: nat)

  /** The events a batch writes, in order. */
  function ValidEvents(ps: seq<Payload>): seq<Event> {
    if ps == [] then []
    else ValidEvents(ps[..|ps| - 1]) + if ps[|ps| - 1].event.Some? then [ps[|ps| - 1].event.value] else []
  }

  function Writes(es: seq<Event>): seq<Step> { seq(|es|, i requires 0 <= i < |es| => WriteStep(es[i])) }

  function Fails(p: Payload): bool { p.event.None? }

  function IsAccepted(r: ItemResult): bool { r.accepted }

  function Failures(ps: seq<Payload>): nat { Count(ps, Fails) }

  function AcceptedCount(rs: seq<ItemResult>): nat { Count(rs, IsAccepted) }

  /** The items that fail validation, and those that are stored. */
  function Failing(ps: seq<Payload>): set<int> { set i | 0 <= i < |ps| && ps[i].event.None? }

  function Storing(rs: seq<ItemResult>): set<int> { set i | 0 <= i < |rs| && rs[i].accepted }

  lemma CountsExact(ps: seq<Payload>, rs: seq<ItemResult>)
    ensures Failures(ps) == |Failing(ps)| && AcceptedCount(rs) == |Storing(rs)|
  {
    CountIsPositions(ps, Fails);
    CountIsPositions(rs, IsAccepted);
    assert Positions(ps, Fails) == Failing(ps);
    assert Positions(rs, IsAccepted) == Storing(rs);
  }

  predicate AllObjects(ps: seq<Payload>) { forall i :: 0 <= i < |ps| ==> ps[i].isObject }

  /** The first item that trips, or the length. */
  function FirstTrip(ps: seq<Payload>): (r: nat)
    ensures r <= |ps| && (forall i :: 0 <= i < r ==> !ps[i].trips) && (r < |ps| ==> ps[r].trips)
  {
    if ps == [] || ps[0].trips then 0 else 1 + FirstTrip(ps[1..])
  }

  /** More than one event in ten fails validation. */
  predicate TooManyFailures(ps: seq<Payload>) { ps != [] && Failures(ps) as real / |ps| as real > 0.1 }

  /** The store after the first n items have been posted one by one. */
  function Posted(g: Graph, ps: seq<Payload>): Graph { Run(g, Writes(ValidEvents(ps))) }

  /** An item is stored exactly when it is valid, unseen, and not a repeat within the batch. */
  ghost predicate IsFirstUnseen(g: Graph, ps: seq<Payload>, i: nat)
    requires i < |ps|
  {
    && ps[i].event.Some?
    && ps[i].event.value.eventId !in EventIds(g.performed)
    && forall j :: 0 <= j < i && ps[j].event.Some? ==> ps[j].event.value.eventId != ps[i].event.value.eventId
  }

  function IdsOf(es: seq<Event>): set<string> { set e | e in es :: e.eventId }

  lemma PostedSnoc(g: Graph, ps: seq<Payload>, p: Payload)
    ensures Posted(g, ps + [p]) == if p.event.Some? then Write(Posted(g, ps), p.event.value) else Posted(g, ps)
  {
    assert (ps + [p])[..|ps|] == ps;
    var es := ValidEvents(ps);
    if p.event.Some? {
      assert Writes(es + [p.event.value]) == Writes(es) + [WriteStep(p.event.value)];
      RunConcat(g, Writes(es), [WriteStep(p.event.value)]);
      var h := Run(g, Writes(es));
      assert Run(h, [WriteStep(p.event.value)]) == Run(Apply(h, WriteStep(p.event.value)), []);
    } else {
      assert ValidEvents(ps + [p]) == es;
    }
  }

  lemma {:induction false} PostedIds(g: Graph, ps: seq<Payload>)
    ensures EventIds(Posted(g, ps).performed) == EventIds(g.performed) + IdsOf(ValidEvents(ps))
  {
    if ps == [] {
      assert Writes([]) == [];
    } else {
      var front, p := ps[..|ps| - 1], ps[|ps| - 1];
      PostedIds(g, front);
      PostedSnoc(g, front, p);
      assert ps == front + [p];
      if p.event.Some? {
        var h := Posted(g, front);
        assert IdsOf(ValidEvents(ps)) == IdsOf(ValidEvents(front)) + {p.event.value.eventId};
        assert EventIds(Commit(h, p.event.value).performed) == EventIds(h.performed) + {p.event.value.eventId};
      } else {
        assert ValidEvents(ps) == ValidEvents(front);
      }
    }
  }

  lemma {:induction false} ValidEventsMembers(ps: seq<Payload>)
    ensures forall id :: id in IdsOf(ValidEvents(ps)) <==>
                         exists j :: 0 <= j < |ps| && ps[j].event.Some? && ps[j].event.value.eventId == id
  {
    if ps != [] {
      var front, p := ps[..|ps| - 1], ps[|ps| - 1];
      ValidEventsMembers(front);
      assert IdsOf(ValidEvents(ps)) == IdsOf(ValidEvents(front)) + if p.event.Some? then {p.event.value.eventId} else {};
    }
  }

  /** What write_event answers for item i is decided by the batch's earlier items and the initial store. */
  lemma AcceptedExact(g: Graph, ps: seq<Payload>, i: nat)
    requires i < |ps| && ps[i].event.Some?
    ensures Accepts(Posted(g, ps[..i]), ps[i].event.value) <==> IsFirstUnseen(g, ps, i)
  {
    PostedIds(g, ps[..i]);
    ValidEventsMembers(ps[..i]);
    var id := ps[i].event.value.eventId;
    if !IsFirstUnseen(g, ps, i) && id !in EventIds(g.performed) {
      var j :| 0 <= j < i && ps[j].event.Some? && ps[j].event.value.eventId == id;
      assert ps[..i][j] == ps[j];
    }
  }

  method ValidateBatch(ps: seq<Payload>) returns (crashed: bool, validated: seq<(Payload, bool)>, failures: nat)
    ensures crashed <==> !AllObjects(ps)
    ensures !crashed ==> |validated| == |ps| && failures == Failures(ps)
    ensures !crashed ==> forall i :: 0 <= i < |ps| ==> validated[i] == (ps[i], ps[i].event.Some?)
  {
    crashed, validated, failures := false, [], 0;
    for i := 0 to |ps|
      invariant forall j :: 0 <= j < i ==> ps[j].isObject
      invariant |validated| == i && failures == Failures(ps[..i])
      invariant forall j :: 0 <= j < i ==> validated[j] == (ps[j], ps[j].event.Some?)
    {
      if !ps[i].isObject {
        return true, validated, failures;
      }
      assert ps[..i + 1][..i] == ps[..i];
      if ps[i].event.None? {
        failures := failures + 1;
      }
      validated := validated + [(ps[i], ps[i].event.Some?)];
    }
    assert ps[..|ps|] == ps;
  }

  method PersistBatch(store: GraphStore, ps: seq<Payload>, validated: seq<(Payload, bool)>)
    returns (results: seq<ItemResult>)
    requires |validated| == |ps| && forall i :: 0 <= i < |ps| ==> validated[i] == (ps[i], ps[i].event.Some?)
    modifies store
    ensures |results| == FirstTrip(ps)
    ensures store.State() == Posted(old(store.State()), ps[..FirstTrip(ps)])
    ensures forall i :: 0 <= i < FirstTrip(ps) ==>
      results[i].eventId == ps[i].id && (results[i].accepted <==> IsFirstUnseen(old(store.State()), ps, i))
  {
    ghost var g := store.State();
    results := [];
    assert Writes(ValidEvents(ps[..0])) == [];
    for i := 0 to |validated|
      invariant i <= FirstTrip(ps)
      invariant store.State() == Posted(g, ps[..i])
      invariant |results| == i
      invariant forall j :: 0 <= j < i ==>
        results[j].eventId == ps[j].id && (results[j].accepted <==> IsFirstUnseen(g, ps, j))
    {
      if ps[i].trips {
        return;
      }
      assert ps[..i + 1] == ps[..i] + [ps[i]];
      PostedSnoc(g, ps[..i], ps[i]);
      var accepted := false;
      if validated[i].1 {
        AcceptedExact(g, ps, i);
        accepted := store.WriteEvent(validated[i].0.event.value);
      }
      results := results + [ItemResult(ps[i].id, accepted)];
    }
  }

  /** Where a batch that is not turned away as a whole stops, if it does not get through. */
  function CrashPoint(ps: seq<Payload>): nat { if AllObjects(ps) then FirstTrip(ps) else 0 }

  predicate Crashes(ps: seq<Payload>) {
    |ps| <= MAX_BATCH_SIZE && (!AllObjects(ps) || (!TooManyFailures(ps) && FirstTrip(ps) < |ps|))
  }

  /** The whole batch route. */
  method IngestBatch(store: GraphStore, ps: seq<Payload>) returns (response: BatchResponse)
    modifies store
    ensures response.TooLarge? <==> |ps| > 100
    ensures response.BatchRejected? <==> |ps| <= 100 && (forall i :: 0 <= i < |ps| ==> ps[i].isObject) && 10 * |Failing(ps)| > |ps|
    ensures response.Processed? ==> response.acceptedCount == |Storing(response.results)|
    ensures response.BatchRejected? <==> |ps| <= MAX_BATCH_SIZE && AllObjects(ps) && TooManyFailures(ps)
    ensures response.TooLarge? || response.BatchRejected? ==> store.State() == old(store.State())
    ensures response.Crashed? <==> Crashes(ps)
    ensures response.Crashed? ==> response.done == CrashPoint(ps) && store.State() == Posted(old(store.State()), ps[..CrashPoint(ps)])
    ensures response.Processed? ==>
      && store.State() == Posted(old(store.State()), ps)
      && |response.results| == |ps| == response.acceptedCount + response.rejectedCount
      && response.acceptedCount == AcceptedCount(response.results)
      && forall i :: 0 <= i < |ps| ==>
        && response.results[i].eventId == ps[i].id
        && (response.results[i].accepted <==> IsFirstUnseen(old(store.State()), ps, i))
  {
    hide Posted, IsFirstUnseen, Failures, Part;
    if |ps| > MAX_BATCH_SIZE {
      return TooLarge;
    }
    NothingPosted(store.State());
    CountsExact(ps, []);
    ThresholdInIntegers(ps);
    var crashed, validated, failures := ValidateBatch(ps);
    if crashed {
      assert ps[..0] == [];
      return Crashed(0);
    }
    if ps != [] && failures as real / |ps| as real > 0.1 {
      return BatchRejected;
    }
    var results := PersistBatch(store, ps, validated);
    if |results| < |ps| {
      return Crashed(|results|);
    }
    assert ps[..|ps|] == ps;
    var accepted := 0;
    for i := 0 to |results|
      invariant accepted == AcceptedCount(results[..i]) <= i
    {
      assert results[..i + 1][..i] == results[..i];
      if results[i].accepted {
        accepted := accepted + 1;
      }
    }
    assert results[..|results|] == results;
    CountsExact(ps, results);
    response := Processed(results, accepted, |results| - accepted);
  }

  lemma NothingPosted(g: Graph)
    ensures Posted(g, []) == g
  {
    assert Writes([]) == [];
  }

  lemma RatioAbove(f: int, n: int)
    requires n > 0
    ensures f as real / n as real > 0.1 <==> 10 * f > n
  {
    QuotientLess(f as real, n as real, 0.1);
    var x, m := f as real, n as real;
    assert x > 0.1 * m <==> 10.0 * x > m;
    assert 10.0 * x == (10 * f) as real;
  }

  /** The failure threshold in integers: at most one in ten may fail. */
  lemma ThresholdInIntegers(ps: seq<Payload>)
    ensures TooManyFailures(ps) <==> 10 * Failures(ps) > |ps|
  {
    if ps != [] { RatioAbove(Failures(ps), |ps|); }
  }

  /** Resubmitting a processed batch under the same verdicts stores nothing and accepts nothing. */
  lemma ResubmissionAcceptsNone(g: Graph, ps: seq<Payload>, i: nat)
    requires i < |ps|
    ensures !IsFirstUnseen(Posted(g, ps), ps, i)
    ensures Posted(Posted(g, ps), ps) == Posted(g, ps)
  {
    PostedIds(g, ps);
    ValidEventsMembers(ps);
    var h := Posted(g, ps);
    forall e | e in ValidEvents(ps) ensures e.eventId in EventIds(h.performed) {
      assert e.eventId in IdsOf(ValidEvents(ps));
    }
    SeenWritesAreNoOps(h, ValidEvents(ps));
  }

  lemma {:induction false} SeenWritesAreNoOps(g: Graph, es: seq<Event>)
    requires forall e :: e in es ==> e.eventId in EventIds(g.performed)
    ensures Run(g, Writes(es)) == g
  {
    if es == [] {
      assert Writes(es) == [];
    } else {
      assert Writes(es)[1..] == Writes(es[1..]) && Writes(es)[0] == WriteStep(es[0]);
      assert es[0] in es;
      SeenWritesAreNoOps(g, es[1..]);
    }
  }

  /** A processed batch adds exactly its accepted items: the store grows by acceptedCount edges. */
  lemma {:induction false} StoreGrowsByAccepted(g: Graph, ps: seq<Payload>, rs: seq<ItemResult>)
    requires |rs| == |ps| && forall i :: 0 <= i < |ps| ==> (rs[i].accepted <==> IsFirstUnseen(g, ps, i))
    ensures |Posted(g, ps).performed| == |g.performed| + AcceptedCount(rs)
  {
    if ps == [] {
      assert Writes([]) == [];
    } else {
      var front, p := ps[..|ps| - 1], ps[|ps| - 1];
      assert ps == front + [p];
      forall i | 0 <= i < |front| ensures rs[..|front|][i].accepted <==> IsFirstUnseen(g, front, i) {
        assert IsFirstUnseen(g, ps, i) <==> IsFirstUnseen(g, front, i);
      }
      StoreGrowsByAccepted(g, front, rs[..|front|]);
      PostedSnoc(g, front, p);
      if p.event.Some? { AcceptedExact(g, ps, |front|); }
    }
  }

  // The tenant check ------------------------------------------------------------

  datatype Body = Unparsable | NotAnObject | Single(payload: Payload) | Batch(items: seq<Payload>)

  /** The tenant ids the middleware reads from a body. */
  function DeclaredTenants(b: Body): seq<string> {
    match b
    case Unparsable => []
    case NotAnObject => []
    case Single(p) => if p.tenant.Some? && p.tenant.value != "" then [p.tenant.value] else []
    case Batch(ps) => ItemTenants(ps)
  }

  function ItemTenants(ps: seq<Payload>): seq<string> {
    if ps == [] then []
    else ItemTenants(ps[..|ps| - 1]) +
         if ps[|ps| - 1].isObject && ps[|ps| - 1].tenant.Some? then [ps[|ps| - 1].tenant.value] else []
  }

  predicate Forbidden(header: Option<string>, b: Body) {
    header.Some? && exists t :: t in DeclaredTenants(b) && t != header.value
  }

  /** The header and a tenant that the body declares differ. Without a header, or with a matching one, nothing is forbidden. */
  ghost predicate Mismatch(header: Option<string>, b: Body) {
    && header.Some?
    && match b
       case Unparsable => false
       case NotAnObject => false
       case Single(p) => p.tenant.Some? && p.tenant.value != "" && p.tenant.value != header.value
       case Batch(ps) => exists i :: 0 <= i < |ps| && ps[i].isObject && ps[i].tenant.Some? && ps[i].tenant.value != header.value
  }

  lemma {:induction false} ItemTenantsExact(ps: seq<Payload>)
    ensures forall t :: t in ItemTenants(ps) <==> exists i :: 0 <= i < |ps| && ps[i].isObject && ps[i].tenant == Some(t)
  {
    if ps != [] {
      var front, n := ps[..|ps| - 1], |ps| - 1;
      ItemTenantsExact(front);
      assert forall i :: 0 <= i < n ==> front[i] == ps[i];
    }
  }

  lemma ForbiddenExact(header: Option<string>, b: Body)
    ensures Forbidden(header, b) <==> Mismatch(header, b)
  {
    if b.Single? && b.payload.tenant.Some? && b.payload.tenant.value != "" {
      assert b.payload.tenant.value in DeclaredTenants(b);
    }
    if b.Batch? {
      hide ItemTenants;
      var ps := b.items;
      ItemTenantsExact(ps);
      if i :| 0 <= i < |ps| && ps[i].isObject && ps[i].tenant.Some? && header.Some? && ps[i].tenant.value != header.value {
        assert ps[i].tenant.value in ItemTenants(ps);
        assert ps[i].tenant.value in DeclaredTenants(b);
      }
      if Forbidden(header, b) {
        var t :| t in ItemTenants(ps) && t != header.value;
        var i :| 0 <= i < |ps| && ps[i].isObject && ps[i].tenant == Some(t);
      }
    }
  }

  datatype Response = Forbidden403 | BadRequest400 | Created201 | Conflict409 | Error500 | BatchAnswer(batch: BatchResponse)

  method Handle(store: GraphStore, header: Option<string>, b: Body) returns (r: Response)
    modifies store
    ensures r.Forbidden403? <==> Forbidden(header, b)
    ensures r.Forbidden403? <==> Mismatch(header, b)
    ensures r.Forbidden403? || r.BadRequest400? || r.Conflict409? || r.Error500? ==> store.State() == old(store.State())
    ensures !r.Forbidden403? && b.Single? ==>
      if b.payload.event.None? then r.BadRequest400?
      else if b.payload.trips then r.Error500?
      else
        && store.State() == Write(old(store.State()), b.payload.event.value)
        && r == if Accepts(old(store.State()), b.payload.event.value) then Created201 else Conflict409
    ensures !r.Forbidden403? && b.Batch? ==>
      && r.BatchAnswer?
      && (r.batch.Processed? ==> store.State() == Posted(old(store.State()), b.items))
      && (r.batch.Crashed? ==> store.State() == Posted(old(store.State()), b.items[..CrashPoint(b.items)]))
      && (r.batch.TooLarge? || r.batch.BatchRejected? ==> store.State() == old(store.State()))
    ensures b.Unparsable? || b.NotAnObject? ==> store.State() == old(store.State())
    ensures header.Some? ==> forall t :: t != header.value ==> Part(store.State(), t) == Part(old(store.State()), t)
  {
    ghost var g := store.State();
    ForbiddenExact(header, b);
    hide Mismatch;
    var declared := DeclaredTenants(b);
    if header.Some? && exists t :: t in declared && t != header.value {
      return Forbidden403;
    }
    match b
    case Unparsable => r := BadRequest400;
    case NotAnObject => r := BadRequest400;
    case Single(p) =>
      if p.event.None? {
        return BadRequest400;
      }
      if p.trips {
        return Error500;
      }
      var accepted := store.WriteEvent(p.event.value);
      r := if accepted then Created201 else Conflict409;
      HeaderConfinesSingle(g, header, p);
    case Batch(ps) =>
      var answer := IngestBatch(store, ps);
      r := BatchAnswer(answer);
      HeaderConfinesBatch(g, header, ps);
      PrefixAllowed(header, ps, CrashPoint(ps));
      HeaderConfinesBatch(g, header, ps[..CrashPoint(ps)]);
  }

  lemma {:induction false} PrefixTenants(ps: seq<Payload>, n: nat)
    requires n <= |ps|
    ensures forall t :: t in ItemTenants(ps[..n]) ==> t in ItemTenants(ps)
    decreases |ps|
  {
    if n < |ps| {
      PrefixTenants(ps[..|ps| - 1], n);
      assert ps[..|ps| - 1][..n] == ps[..n];
    } else {
      assert ps[..n] == ps;
    }
  }

  lemma PrefixAllowed(header: Option<string>, ps: seq<Payload>, n: nat)
    requires n <= |ps| && !Forbidden(header, Batch(ps))
    ensures !Forbidden(header, Batch(ps[..n]))
  {
    PrefixTenants(ps, n);
    forall t | t in DeclaredTenants(Batch(ps[..n])) ensures t in DeclaredTenants(Batch(ps)) {
      assert t in ItemTenants(ps[..n]);
    }
  }

  lemma HeaderConfinesSingle(g: Graph, header: Option<string>, p: Payload)
    requires !Forbidden(header, Single(p)) && p.event.Some?
    ensures header.Some? ==> forall t :: t != header.value ==> Part(Write(g, p.event.value), t) == Part(g, t)
  {
    if header.Some? {
      assert p.event.value.tenant in DeclaredTenants(Single(p));
      forall t | t != header.value ensures Part(Write(g, p.event.value), t) == Part(g, t) {
        OtherPartsUntouched(g, WriteStep(p.event.value), t);
      }
    }
  }

  lemma {:induction false} ValidTenantsDeclared(ps: seq<Payload>)
    ensures forall e :: e in ValidEvents(ps) ==> e.tenant in ItemTenants(ps)
  {
    if ps != [] { ValidTenantsDeclared(ps[..|ps| - 1]); }
  }

  /** A request that carries header T and passes the check can only change tenant T's part. */
  lemma HeaderConfinesBatch(g: Graph, header: Option<string>, ps: seq<Payload>)
    requires !Forbidden(header, Batch(ps))
    ensures header.Some? ==> forall t :: t != header.value ==> Part(Posted(g, ps), t) == Part(g, t)
  {
    if header.Some? {
      ValidTenantsDeclared(ps);
      var es := ValidEvents(ps);
      forall t | t != header.value ensures Part(Posted(g, ps), t) == Part(g, t) {
        forall i | 0 <= i < |Writes(es)| ensures Writes(es)[i].Tenant() != t {
          assert es[i] in es && es[i].tenant in DeclaredTenants(Batch(ps));
        }
        ForeignStepsInvisible(g, Writes(es), t);
      }
    }
  }
}
