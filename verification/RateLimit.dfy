/**
 The per-tenant rate limiter: a counter table for fixed one-minute windows,
 pruned on every counted request. Times are seconds; `log` is the sequence of
 requests the limiter has seen, in order.
*/
module RateLimit {
  import opened Options
  import opened Counting
  import opened JsonValues

  // Whom a request is charged to -----------------------------------------------------

  /** Malformed text is JSON that does not parse; undecodable bytes raise a different error, which is not caught. */
  datatype Body = EmptyBody | Malformed | Undecodable | Parsed(json: Json)

  datatype Request = Request(path: string, header: Option<string>, body: Body, time: real)

  datatype Bucket = Events | Intent

  datatype Charge = Charge(tenant: string, bucket: Bucket)

  /** Whom to charge, nobody, or the body makes the lookup raise. */
  datatype Lookup = Found(tenant: string) | Nobody | Raises

  function BucketFor(path: string): Option<Bucket> {
    if path == "/v1/events" || path == "/v1/events/batch" then Some(Events)
    else if path == "/v1/resolve-intent" then Some(Intent)
    else None
  }

  function StringField(j: Json): Lookup {
    if j.Object? && "tenantId" in j.fields && j.fields["tenantId"].Text? then Found(j.fields["tenantId"].s) else Nobody
  }

  /** A batch is charged to its first event, if that is an object. */
  function FirstOfBatch(events: Json): Lookup {
    match events
    case Null => Nobody
    case Bool(b) => if b then Raises else Nobody
    case Number(n) => if n != 0 then Raises else Nobody
    case Text(_) => Nobody
    case List(items) => if items == [] then Nobody else StringField(items[0])
    case Object(fields) => if fields == map[] then Nobody else Raises
  }

  function TenantOf(r: Request): Lookup {
    if r.header.Some? && r.header.value != "" then Found(r.header.value)
    else
      match r.body
      case EmptyBody => Nobody
      case Malformed => Nobody
      case Undecodable => Raises
      case Parsed(j) =>
        if !j.Object? then Nobody
        else if r.path == "/v1/events/batch" then
          (if "events" in j.fields then FirstOfBatch(j.fields["events"]) else Nobody)
        else StringField(j)
  }

  function ChargeOf(r: Request): Option<Charge> {
    match BucketFor(r.path)
    case None => None
    case Some(b) => if TenantOf(r).Found? then Some(Charge(TenantOf(r).tenant, b)) else None
  }

  function BucketName(b: Bucket): string { if b.Events? then "events" else "intent" }

  function Key(c: Charge): string { c.tenant + ":" + BucketName(c.bucket) }

  /** Different charges never share a counter, whatever characters a tenant id holds. */
  lemma KeyInjective(c: Charge, d: Charge)
    ensures Key(c) == Key(d) <==> c == d
  {
    var m, n := |c.tenant|, |d.tenant|;
    if Key(c) == Key(d) {
      assert |Key(c)| == m + 7 && |Key(d)| == n + 7;
      assert Key(c)[..m] == c.tenant && Key(d)[..n] == d.tenant;
      assert Key(c)[m + 1] == BucketName(c.bucket)[0] && Key(d)[n + 1] == BucketName(d.bucket)[0];
    }
  }

  function Window(time: real): int { (time / 60.0).Floor }

  // The counter table ------------------------------------------------------------------

  type Table = map<(string, int), int>

  function Get(t: Table, key: (string, int)): int { if key in t then t[key] else 0 }

  function Pruned(t: Table, window: int): Table { map k | k in t && k.1 == window :: t[k] }

  function Bump(t: Table, r: Request): Table {
    if ChargeOf(r).None? then t
    else
      var key := (Key(ChargeOf(r).value), Window(r.time));
      Pruned(t, key.1)[key := Get(Pruned(t, key.1), key) + 1]
  }

  /** The table after a log. */
  function TableAfter(log: seq<Request>): Table {
    if log == [] then map[] else Bump(TableAfter(log[..|log| - 1]), log[|log| - 1])
  }

  datatype Limits = Limits(events: int, intent: int)

  function LimitFor(limits: Limits, b: Bucket): int { if b.Events? then limits.events else limits.intent }

  datatype Outcome = Forwarded | TooMany429 | Error500

  function Decide(t: Table, limits: Limits, r: Request): Outcome {
    if BucketFor(r.path).None? then Forwarded
    else if TenantOf(r).Raises? then Error500
    else if ChargeOf(r).None? then Forwarded
    else
      var c := ChargeOf(r).value;
      if Bump(t, r)[(Key(c), Window(r.time))] > LimitFor(limits, c.bucket) then TooMany429 else Forwarded
  }

  /** The limiter's answer to r after the log. */
  function Decision(limits: Limits, log: seq<Request>, r: Request): Outcome { Decide(TableAfter(log), limits, r) }

  // What the limiter promises, without its tables --------------------------------------------

  predicate EventsPath(path: string) { path == "/v1/events" || path == "/v1/events/batch" }

  predicate IntentPath(path: string) { path == "/v1/resolve-intent" }

  predicate Declares(j: Json, tenant: string) { j.Object? && "tenantId" in j.fields && j.fields["tenantId"] == Text(tenant) }

  /** The tenant of a request: a non-empty header, else the body's tenantId, or the first event's in a batch. */
  predicate SentBy(r: Request, tenant: string) {
    if r.header.Some? && r.header.value != "" then tenant == r.header.value
    else
      && r.body.Parsed? && r.body.json.Object?
      && if r.path != "/v1/events/batch" then Declares(r.body.json, tenant)
         else
           var fields := r.body.json.fields;
           "events" in fields && fields["events"].List? && fields["events"].items != [] && Declares(fields["events"].items[0], tenant)
  }

  /** Looking for the tenant in the body raises: bytes that do not decode, or `events` that is neither falsy nor indexable. */
  predicate LookupFails(r: Request) {
    && !(r.header.Some? && r.header.value != "")
    && (r.body.Undecodable?
        || (r.body.Parsed? && r.body.json.Object? && r.path == "/v1/events/batch" && "events" in r.body.json.fields
            && var events := r.body.json.fields["events"]; Truthy(events) && !events.Text? && !events.List?))
  }

  function MinuteStart(m: int): real { 60.0 * m as real }

  ghost predicate InMinute(t: real, m: int) { MinuteStart(m) <= t < MinuteStart(m) + 60.0 }

  ghost predicate SameMinute(s: real, t: real) { exists m :: InMinute(s, m) && InMinute(t, m) }

  /** Earlier requests of the tenant to the paths of one class, in the minute of time t. */
  ghost function EarlierEvents(log: seq<Request>, tenant: string, t: real): set<int> {
    set i | 0 <= i < |log| && EventsPath(log[i].path) && SentBy(log[i], tenant) && SameMinute(log[i].time, t)
  }

  ghost function EarlierIntents(log: seq<Request>, tenant: string, t: real): set<int> {
    set i | 0 <= i < |log| && IntentPath(log[i].path) && SentBy(log[i], tenant) && SameMinute(log[i].time, t)
  }

  predicate Limited(r: Request) { EventsPath(r.path) || IntentPath(r.path) }

  /** The clock, which is read for limited requests with a tenant only, does not go back. */
  ghost predicate ClockSteady(log: seq<Request>) {
    forall i, j, s, t :: 0 <= i < j < |log| && Limited(log[i]) && SentBy(log[i], s) && Limited(log[j]) && SentBy(log[j], t) ==>
      log[i].time <= log[j].time
  }

  lemma ChargeExact(r: Request, tenant: string)
    ensures ChargeOf(r) == Some(Charge(tenant, Events)) <==> EventsPath(r.path) && SentBy(r, tenant)
    ensures ChargeOf(r) == Some(Charge(tenant, Intent)) <==> IntentPath(r.path) && SentBy(r, tenant)
    ensures ChargeOf(r).Some? ==> Limited(r) && SentBy(r, ChargeOf(r).value.tenant)
  {}

  lemma LookupExact(r: Request)
    ensures TenantOf(r).Raises? <==> LookupFails(r)
    ensures TenantOf(r).Found? ==> SentBy(r, TenantOf(r).tenant)
    ensures BucketFor(r.path).Some? <==> Limited(r)
  {}

  lemma MinuteExact(s: real, t: real)
    ensures Window(s) == Window(t) <==> SameMinute(s, t)
  {
    assert InMinute(s, Window(s)) && InMinute(t, Window(t)) by { OwnMinute(s, Window(s)); OwnMinute(t, Window(t)); }
    if m :| InMinute(s, m) && InMinute(t, m) {
      OwnMinute(s, m);
      OwnMinute(t, m);
    }
  }

  lemma OwnMinute(t: real, m: int)
    ensures InMinute(t, m) <==> m == Window(t)
  {
    var q := t / 60.0;
    assert t == 60.0 * q;
    assert InMinute(t, m) <==> m as real <= q < m as real + 1.0;
  }

  lemma TallyIsEarlier(log: seq<Request>, tenant: string, t: real)
    ensures Tally(log, Charge(tenant, Events), Window(t)) == |EarlierEvents(log, tenant, t)|
    ensures Tally(log, Charge(tenant, Intent), Window(t)) == |EarlierIntents(log, tenant, t)|
  {
    hide ChargeOf, Window, SentBy, SameMinute, EventsPath, IntentPath;
    var c, d := IsCharged(Charge(tenant, Events), Window(t)), IsCharged(Charge(tenant, Intent), Window(t));
    CountIsPositions(log, c);
    CountIsPositions(log, d);
    forall i | 0 <= i < |log|
      ensures c(log[i]) <==> i in EarlierEvents(log, tenant, t)
      ensures d(log[i]) <==> i in EarlierIntents(log, tenant, t)
    {
      ChargeExact(log[i], tenant);
      MinuteExact(log[i].time, t);
    }
    assert Positions(log, c) == EarlierEvents(log, tenant, t);
    assert Positions(log, d) == EarlierIntents(log, tenant, t);
  }

  lemma ClockExact(log: seq<Request>)
    ensures ClockSteady(log) ==> Steady(log)
  {
    hide ChargeOf, SentBy;
    if ClockSteady(log) {
      forall i, j | 0 <= i < j < |log| && ChargeOf(log[i]).Some? && ChargeOf(log[j]).Some? ensures log[i].time <= log[j].time {
        ChargeExact(log[i], "");
        ChargeExact(log[j], "");
      }
    }
  }

  /** What is answered, by path, tenant, minute and the two limits. */
  ghost predicate Answers(limits: Limits, before: seq<Request>, r: Request, o: Outcome) {
    && (!Limited(r) ==> o == Forwarded)
    && (Limited(r) && LookupFails(r) ==> o == Error500)
    && (Limited(r) && !LookupFails(r) && (forall t :: !SentBy(r, t)) ==> o == Forwarded)
    && (forall t :: Limited(r) && SentBy(r, t) ==> o == Forwarded || o == TooMany429)
    && (ClockSteady(before + [r]) ==>
          && (forall t :: EventsPath(r.path) && SentBy(r, t) ==> (o == TooMany429 <==> |EarlierEvents(before, t, r.time)| >= limits.events))
          && (forall t :: IntentPath(r.path) && SentBy(r, t) ==> (o == TooMany429 <==> |EarlierIntents(before, t, r.time)| >= limits.intent)))
  }

  lemma DecisionAnswers(limits: Limits, log: seq<Request>, r: Request)
    ensures Answers(limits, log, r, Decision(limits, log, r))
  {
    var o := Decision(limits, log, r);
    LookupExact(r);
    forall t | Limited(r) && SentBy(r, t) ensures ChargeOf(r).Some? && ChargeOf(r).value.tenant == t && !LookupFails(r) {
      ChargeExact(r, t);
    }
    if ChargeOf(r).Some? {
      var c := ChargeOf(r).value;
      ChargeExact(r, c.tenant);
      ChargedIsDecided(limits, log, r);
      RefinesUnpruned(limits, log, r);
      TallyIsEarlier(log, c.tenant, r.time);
    }
    ClockExact(log + [r]);
    hide Decision, ChargeOf, SentBy, Window, Tally, Steady, ClockSteady, LookupFails;
  }

  class RateLimiter {
    const limits: Limits
    var counts: Table
    /** Every request seen so far. */
    ghost var log: seq<Request>

    ghost predicate Valid() reads this { counts == TableAfter(log) }

    constructor (eventsLimit: int := 1000, intentLimit: int := 100)
      ensures Valid() && log == [] && limits.events == eventsLimit && limits.intent == intentLimit
    {
      limits, counts, log := Limits(eventsLimit, intentLimit), map[], [];
    }

    method Prune(current: int)
      modifies this`counts
      ensures counts == Pruned(old(counts), current)
    {
      var stale := set k | k in counts && k.1 != current;
      ghost var all := stale;
      while stale != {}
        invariant stale <= all
        invariant counts == map k | k in old(counts) && (k !in all || k in stale) :: old(counts)[k]
        decreases |stale|
      {
        var k :| k in stale;
        counts := counts - {k};
        stale := stale - {k};
      }
    }

    /**
     One request. The table follows the log, and while the clock does not go back
     the answer is that of a counter that never forgets: too many exactly when the
     tenant already sent `limit` requests of this class in this minute.
    */
    method Dispatch(r: Request) returns (o: Outcome)
      requires Valid()
      modifies this
      ensures Valid() && log == old(log) + [r]
      ensures o == Decision(limits, old(log), r)
      ensures Answers(limits, old(log), r, o)
      ensures Steady(log) && ChargeOf(r).Some? ==>
        var c := ChargeOf(r).value;
        (o == TooMany429 <==> Tally(old(log), c, Window(r.time)) >= LimitFor(limits, c.bucket))
    {
      assert (log + [r])[..|log|] == log;
      DecisionAnswers(limits, log, r);
      hide Answers;
      if ChargeOf(r).Some? {
        RefinesUnpruned(limits, log, r);
      }
      log := log + [r];
      var bucket := BucketFor(r.path);
      if bucket.None? {
        return Forwarded;
      }
      var tenant := TenantOf(r);
      if tenant.Raises? {
        return Error500;
      }
      if tenant.Nobody? {
        return Forwarded;
      }
      var charge := Charge(tenant.tenant, bucket.value);
      var key := (Key(charge), Window(r.time));
      Prune(key.1);
      counts := counts[key := Get(counts, key) + 1];
      o := if counts[key] > LimitFor(limits, bucket.value) then TooMany429 else Forwarded;
    }
  }

  // What the table remembers -------------------------------------------------------------

  predicate Charged(r: Request, c: Charge, window: int) { ChargeOf(r) == Some(c) && Window(r.time) == window }

  function IsCharged(c: Charge, window: int): Request -> bool { (r: Request) => Charged(r, c, window) }

  /** A counter that is never pruned: all requests charged to c in the window, admitted or not. */
  function Tally(log: seq<Request>, c: Charge, window: int): nat { Count(log, IsCharged(c, window)) }

  /** The requests charged to c since the last counted request of another window. */
  function Recent(log: seq<Request>, c: Charge, window: int): nat {
    if log == [] then 0
    else
      var front, r := log[..|log| - 1], log[|log| - 1];
      if ChargeOf(r).None? then Recent(front, c, window)
      else if Window(r.time) != window then 0
      else Recent(front, c, window) + if ChargeOf(r) == Some(c) then 1 else 0
  }

  lemma RecentStep(log: seq<Request>, r: Request, c: Charge, window: int)
    requires ChargeOf(r).Some?
    ensures Recent(log + [r], c, window) ==
            if Window(r.time) != window then 0 else Recent(log, c, window) + if ChargeOf(r) == Some(c) then 1 else 0
  {
    hide ChargeOf, Window;
    assert (log + [r])[..|log|] == log;
  }

  /** For any clock: the table holds exactly the recent requests. */
  lemma {:induction false} TableExact(log: seq<Request>, c: Charge, window: int)
    ensures Get(TableAfter(log), (Key(c), window)) == Recent(log, c, window)
  {
    hide Key;
    if log != [] {
      var front, r := log[..|log| - 1], log[|log| - 1];
      TableExact(front, c, window);
      if ChargeOf(r).Some? { KeyInjective(ChargeOf(r).value, c); }
    }
  }

  /** A request charged to c in the window came before a counted request of another window. */
  ghost predicate Forgotten(log: seq<Request>, c: Charge, window: int) {
    exists i, j :: 0 <= i < j < |log| && Charged(log[i], c, window) && ChargeOf(log[j]).Some? && Window(log[j].time) != window
  }

  /** For any clock: pruning loses something exactly when a later counted request fell in another window. */
  lemma {:induction false} RecentExact(log: seq<Request>, c: Charge, window: int)
    ensures Recent(log, c, window) <= Tally(log, c, window)
    ensures Recent(log, c, window) == Tally(log, c, window) <==> !Forgotten(log, c, window)
  {
    hide ChargeOf, Window;
    if log != [] {
      var front, r := log[..|log| - 1], log[|log| - 1];
      RecentExact(front, c, window);
      if ChargeOf(r).Some? && Window(r.time) != window {
        TallyPositive(front, c, window);
        if Tally(front, c, window) > 0 {
          var i :| 0 <= i < |front| && Charged(front[i], c, window);
          assert Charged(log[i], c, window) && log[|front|] == r;
          assert Forgotten(log, c, window);
        } else {
          assert forall i :: 0 <= i < |front| ==> log[i] == front[i];
        }
      } else {
        assert Forgotten(log, c, window) <==> Forgotten(front, c, window) by {
          assert forall i :: 0 <= i < |front| ==> log[i] == front[i];
        }
      }
    }
  }

  lemma {:induction false} TallyPositive(log: seq<Request>, c: Charge, window: int)
    ensures Tally(log, c, window) > 0 <==> exists i :: 0 <= i < |log| && Charged(log[i], c, window)
  {
    hide ChargeOf, Window;
    if log != [] {
      var front := log[..|log| - 1];
      TallyPositive(front, c, window);
      assert forall i :: 0 <= i < |front| ==> log[i] == front[i];
    }
  }

  // A clock that does not go back -----------------------------------------------------------

  /** The clock, which is read for charged requests only, does not go back. */
  ghost predicate Steady(log: seq<Request>) {
    forall i, j :: 0 <= i < j < |log| && ChargeOf(log[i]).Some? && ChargeOf(log[j]).Some? ==> log[i].time <= log[j].time
  }

  lemma WindowMonotone(s: real, t: real)
    requires s <= t
    ensures Window(s) <= Window(t)
  {
    assert s / 60.0 <= t / 60.0;
  }

  lemma NothingForgotten(log: seq<Request>, r: Request, c: Charge)
    requires Steady(log + [r]) && ChargeOf(r).Some?
    ensures !Forgotten(log, c, Window(r.time))
  {
    hide ChargeOf, Window;
    var all := log + [r];
    forall j | 0 <= j < |log| && ChargeOf(log[j]).Some? ensures Window(log[j].time) <= Window(r.time) {
      assert all[j] == log[j] && all[|log|] == r;
      WindowMonotone(log[j].time, r.time);
    }
    forall i, j | 0 <= i < j < |log| && ChargeOf(log[i]).Some? && ChargeOf(log[j]).Some?
      ensures Window(log[i].time) <= Window(log[j].time)
    {
      assert all[i] == log[i] && all[j] == log[j];
      WindowMonotone(log[i].time, log[j].time);
    }
  }

  /** The pruned table decides as a counter that never forgets. */
  lemma RefinesUnpruned(limits: Limits, log: seq<Request>, r: Request)
    requires ChargeOf(r).Some?
    ensures var c := ChargeOf(r).value;
            && (Decision(limits, log, r) == TooMany429 <==> Recent(log, c, Window(r.time)) >= LimitFor(limits, c.bucket))
            && (Steady(log + [r]) ==>
                  (Decision(limits, log, r) == TooMany429 <==> Tally(log, c, Window(r.time)) >= LimitFor(limits, c.bucket)))
  {
    hide Key, Window, Recent, Steady, Tally;
    var c := ChargeOf(r).value;
    TableExact(log, c, Window(r.time));
    RecentExact(log, c, Window(r.time));
    if Steady(log + [r]) { NothingForgotten(log, r, c); }
  }

  /** The requests charged to c. */
  function ChargedTo(c: Charge): Request -> bool { (r: Request) => ChargeOf(r) == Some(c) }

  function Only(log: seq<Request>, c: Charge): seq<Request> { Filter(log, ChargedTo(c)) }

  lemma TallySeesOnly(log: seq<Request>, c: Charge, window: int)
    ensures Tally(log, c, window) == Tally(Only(log, c), c, window)
  {
    FilterTwice(log, ChargedTo(c), IsCharged(c, window));
    CountIsFilter(log, IsCharged(c, window));
    CountIsFilter(Only(log, c), IsCharged(c, window));
  }

  /** Other tenants' traffic, and the tenant's own of the other class, never changes a decision. */
  lemma OthersNeverMatter(limits: Limits, log: seq<Request>, other: seq<Request>, r: Request)
    requires Steady(log + [r]) && Steady(other + [r]) && ChargeOf(r).Some?
    requires Only(log, ChargeOf(r).value) == Only(other, ChargeOf(r).value)
    ensures Decision(limits, log, r) == Decision(limits, other, r)
  {
    hide Key, Window, Steady, Tally, Only, Bump;
    var c := ChargeOf(r).value;
    TallySeesOnly(log, c, Window(r.time));
    TallySeesOnly(other, c, Window(r.time));
    RefinesUnpruned(limits, log, r);
    RefinesUnpruned(limits, other, r);
  }

  /**
   With a clock that goes back, another tenant's request does change a decision: it
   empties the table, and a tenant over its limit is admitted again.
  */
  lemma ClockGoingBackForgets(limits: Limits, c: Charge) returns (log: seq<Request>, foreign: Request, r: Request)
    requires LimitFor(limits, c.bucket) > 0 && c.tenant != ""
    ensures ChargeOf(r) == Some(c) && ChargeOf(foreign).Some? && ChargeOf(foreign).value.tenant != c.tenant
    ensures Decision(limits, log, r) == TooMany429 && Decision(limits, log + [foreign], r) == Forwarded
  {
    hide Tally, Window, Decision, ChargeOf, Recent;
    r := Sent(c, 30.0);
    foreign := Sent(Charge(c.tenant + "b", Events), 90.0);
    SentIsCharged(c, 30.0);
    SentIsCharged(Charge(c.tenant + "b", Events), 90.0);
    assert |c.tenant + "b"| != |c.tenant|;
    MinuteOf(30.0);
    MinuteOf(90.0);
    log := Same(r, LimitFor(limits, c.bucket));
    TallySame(r, |log|, c, 0);
    RecentStep(log, foreign, c, 0);
    RefinesUnpruned(limits, log, r);
    RefinesUnpruned(limits, log + [foreign], r);
    ChargedIsDecided(limits, log + [foreign], r);
  }

  lemma MinuteOf(t: real)
    ensures 0.0 <= t < 60.0 ==> Window(t) == 0
    ensures 60.0 <= t < 120.0 ==> Window(t) == 1
  {
    assert 0.0 <= t < 60.0 ==> 0.0 <= t / 60.0 < 1.0;
    assert 60.0 <= t < 120.0 ==> 1.0 <= t / 60.0 < 2.0;
  }

  /** A request of one class that carries its tenant in the header. */
  function Sent(c: Charge, t: real): Request {
    Request(if c.bucket.Events? then "/v1/events" else "/v1/resolve-intent", Some(c.tenant), EmptyBody, t)
  }

  lemma SentIsCharged(c: Charge, t: real)
    requires c.tenant != ""
    ensures ChargeOf(Sent(c, t)) == Some(c)
  {}

  // How many get through ------------------------------------------------------------------------

  /** The admitted requests charged to c that satisfy p. */
  function Admitted(limits: Limits, log: seq<Request>, c: Charge, p: Request -> bool): nat {
    if log == [] then 0
    else
      var front, r := log[..|log| - 1], log[|log| - 1];
      Admitted(limits, front, c, p) + if ChargeOf(r) == Some(c) && p(r) && Decision(limits, front, r) == Forwarded then 1 else 0
  }

  function InWindow(window: int): Request -> bool { (r: Request) => Window(r.time) == window }

  function AtMost(n: int, cap: int): int { if cap < 0 then 0 else if n <= cap then n else cap }

  lemma SteadyFront(log: seq<Request>)
    requires Steady(log) && log != []
    ensures Steady(log[..|log| - 1]) && log == log[..|log| - 1] + [log[|log| - 1]]
  {}

  /** In each minute exactly the first `limit` requests of a tenant and class get through. */
  lemma {:induction false} AdmittedPerMinute(limits: Limits, log: seq<Request>, c: Charge, window: int)
    requires Steady(log)
    ensures Admitted(limits, log, c, InWindow(window)) == AtMost(Tally(log, c, window), LimitFor(limits, c.bucket))
  {
    hide ChargeOf, Window, Steady, Decision;
    if log != [] {
      var front, r := log[..|log| - 1], log[|log| - 1];
      SteadyFront(log);
      AdmittedPerMinute(limits, front, c, window);
      if Charged(r, c, window) {
        RefinesUnpruned(limits, front, r);
        ChargedIsDecided(limits, front, r);
      }
    }
  }

  lemma ChargedIsDecided(limits: Limits, log: seq<Request>, r: Request)
    requires ChargeOf(r).Some?
    ensures Decision(limits, log, r) == Forwarded || Decision(limits, log, r) == TooMany429
  {}

  lemma {:induction false} AdmittedSplit(limits: Limits, log: seq<Request>, c: Charge, p: Request -> bool, window: int)
    requires forall i :: 0 <= i < |log| && p(log[i]) ==> InWindow(window)(log[i]) || InWindow(window + 1)(log[i])
    ensures Admitted(limits, log, c, p) <= Admitted(limits, log, c, InWindow(window)) + Admitted(limits, log, c, InWindow(window + 1))
    ensures (forall i :: 0 <= i < |log| ==> p(log[i])) ==>
              Admitted(limits, log, c, p) == Admitted(limits, log, c, InWindow(window)) + Admitted(limits, log, c, InWindow(window + 1))
  {
    hide ChargeOf, Window, Decision;
    if log != [] {
      AdmittedSplit(limits, log[..|log| - 1], c, p, window);
      assert p(log[|log| - 1]) ==> InWindow(window)(log[|log| - 1]) || InWindow(window + 1)(log[|log| - 1]);
    }
  }

  function Within(start: real): Request -> bool { (r: Request) => start <= r.time <= start + 60.0 }

  lemma MinuteSpansTwo(start: real, t: real)
    requires start <= t <= start + 60.0
    ensures Window(t) == Window(start) || Window(t) == Window(start) + 1
  {
    WindowMonotone(start, t);
    WindowMonotone(t, start + 60.0);
    assert (start + 60.0) / 60.0 == start / 60.0 + 1.0;
  }

  /** Any interval of sixty seconds, both ends included, admits at most twice the limit. */
  lemma AnyMinuteAtMostTwice(limits: Limits, log: seq<Request>, c: Charge, start: real)
    requires Steady(log)
    ensures Admitted(limits, log, c, Within(start)) <= 2 * AtMost(LimitFor(limits, c.bucket), LimitFor(limits, c.bucket))
  {
    hide Admitted, ChargeOf, Window;
    var w := Window(start);
    forall i | 0 <= i < |log| && Within(start)(log[i]) ensures InWindow(w)(log[i]) || InWindow(w + 1)(log[i]) {
      MinuteSpansTwo(start, log[i].time);
    }
    AdmittedSplit(limits, log, c, Within(start), w);
    AdmittedPerMinute(limits, log, c, w);
    AdmittedPerMinute(limits, log, c, w + 1);
  }

  function Same(r: Request, n: nat): seq<Request> { seq(n, _ => r) }

  lemma {:induction false} TallySame(r: Request, n: nat, c: Charge, window: int)
    ensures Tally(Same(r, n), c, window) == if Charged(r, c, window) then n else 0
  {
    hide ChargeOf, Window;
    if n > 0 {
      TallySame(r, n - 1, c, window);
      assert Same(r, n)[..n - 1] == Same(r, n - 1);
    }
  }

  /** And that bound is reached, within one second, for every limit. */
  lemma TwiceIsReached(limits: Limits, c: Charge) returns (log: seq<Request>)
    requires LimitFor(limits, c.bucket) >= 0 && c.tenant != ""
    ensures Steady(log) && Admitted(limits, log, c, Within(59.0)) == 2 * LimitFor(limits, c.bucket)
    ensures forall i :: 0 <= i < |log| ==> 59.0 <= log[i].time <= 60.0
  {
    hide Admitted, Decision, ChargeOf, Window;
    var n := LimitFor(limits, c.bucket);
    var early, late := Sent(c, 59.0), Sent(c, 60.0);
    SentIsCharged(c, 59.0);
    SentIsCharged(c, 60.0);
    MinuteOf(59.0);
    MinuteOf(60.0);
    log := Same(early, n) + Same(late, n);
    assert forall i :: 0 <= i < |log| ==> log[i] == if i < n then early else late;
    forall w ensures Tally(log, c, w) == Tally(Same(early, n), c, w) + Tally(Same(late, n), c, w) {
      CountConcat(Same(early, n), Same(late, n), IsCharged(c, w));
    }
    TallySame(early, n, c, 0);
    TallySame(late, n, c, 0);
    TallySame(early, n, c, 1);
    TallySame(late, n, c, 1);
    AdmittedSplit(limits, log, c, Within(59.0), 0);
    AdmittedPerMinute(limits, log, c, 0);
    AdmittedPerMinute(limits, log, c, 1);
  }
}
