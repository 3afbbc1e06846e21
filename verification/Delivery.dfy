/**
 The two SDK clients' send-with-retry loop against the store, over every network
 behaviour and with other clients' transactions in between.
*/
module Delivery {
  import opened Options
  import opened GraphModel
  import opened Coherence
  import opened Counting
  import opened GraphStores

  datatype Sdk = Python | Node

  /** A status that is neither a success nor the duplicate answer. */
  type FailureStatus = s: int | !(200 <= s < 300) && s != 409 witness 500

  /**
   What happens to one request. The server answers a success status or 409 only
   by running the transaction (Delivered, or Garbled when the body cannot be
   parsed); Refused answers come without it, Masked ones after it.
  */
  datatype Outcome =
    | RequestLost
    | Refused(status: FailureStatus)
    | ReplyLost
    | Masked(status: FailureStatus)
    | Delivered
    | Garbled

  /** Other clients' transactions since the previous attempt, then this attempt's fate. */
  datatype Attempt = Attempt(before: seq<Step>, outcome: Outcome)

  type Network = nat -> Attempt

  predicate Reaches(o: Outcome) { !o.RequestLost? && !o.Refused? }

  datatype View = TransportFailure | Reply(status: int, readable: bool)

  function Seen(o: Outcome, accepted: bool): View {
    match o
    case RequestLost => TransportFailure
    case ReplyLost => TransportFailure
    case Refused(s) => Reply(s, true)
    case Masked(s) => Reply(s, true)
    case Delivered => Reply(if accepted then 201 else 409, true)
    case Garbled => Reply(if accepted then 201 else 409, false)
  }

  datatype Ending =
    | Returned(status: int)
    | RaisedStatus(code: int)
    | RaisedTransport
    | RaisedDecode
    | RaisedIndex
    | RaisedNoAttempt

  datatype Verdict = Stop(ending: Ending) | Retry(error: Ending)

  function Judge(sdk: Sdk, v: View): Verdict {
    match v
    case TransportFailure => Retry(RaisedTransport)
    case Reply(s, readable) =>
      if s == 409 || 200 <= s < 300 then
        if readable then Stop(Returned(s))
        else if sdk.Python? then Stop(RaisedDecode)
        else Retry(RaisedDecode)
      else if s < 500 then Stop(RaisedStatus(s))
      else Retry(RaisedStatus(s))
  }

  const BACKOFF_MS := [1000, 2000, 4000]

  /** Node reads past the table's end as undefined; Python cannot. */
  function Backoff(attempt: nat): Option<int> { if attempt < 3 then Some(BACKOFF_MS[attempt]) else None }

  datatype Report = Report(ending: Ending, graph: Graph, sleeps: seq<Option<int>>, trace: seq<Step>)

  function Ran(e: Event, a: Attempt): seq<Step> {
    a.before + if Reaches(a.outcome) then [WriteStep(e)] else []
  }

  function VerdictOn(sdk: Sdk, g: Graph, e: Event, a: Attempt): Verdict {
    Judge(sdk, Seen(a.outcome, Accepts(Run(g, a.before), e)))
  }

  /** The pause taken after a failed attempt that is not the last. */
  function Pause(attempt: nat, total: int): seq<Option<int>> {
    if attempt < total - 1 then [Backoff(attempt)] else []
  }

  predicate PastTheTable(sdk: Sdk, attempt: nat, total: int) { attempt < total - 1 && sdk.Python? && attempt >= 3 }

  /** The loop from a given attempt on, with the error of the previous one. */
  function Send(sdk: Sdk, g: Graph, e: Event, net: Network, attempt: nat, total: int, last: Option<Ending>): Report
    decreases total - attempt
  {
    if attempt >= total then
      Report(if last.Some? then last.value else RaisedNoAttempt, g, [], [])
    else
      var ran := Ran(e, net(attempt));
      var h := Run(g, ran);
      var v := VerdictOn(sdk, g, e, net(attempt));
      if v.Stop? then Report(v.ending, h, [], ran)
      else if PastTheTable(sdk, attempt, total) then Report(RaisedIndex, h, [], ran)
      else
        var rest := Send(sdk, h, e, net, attempt + 1, total, Some(v.error));
        rest.(sleeps := Pause(attempt, total) + rest.sleeps, trace := ran + rest.trace)
  }

  function Delivery(sdk: Sdk, g: Graph, e: Event, net: Network, maxRetries: int): Report {
    Send(sdk, g, e, net, 0, maxRetries + 1, None)
  }

  /** One turn of the loop. */
  lemma SendTurn(sdk: Sdk, g: Graph, e: Event, net: Network, attempt: nat, total: int, last: Option<Ending>)
    ensures var r := Send(sdk, g, e, net, attempt, total, last);
            if attempt >= total then
              r.ending == (if last.Some? then last.value else RaisedNoAttempt) && r.graph == g && r.sleeps == []
            else
              var h, v := Run(g, Ran(e, net(attempt))), VerdictOn(sdk, g, e, net(attempt));
              if v.Stop? then r.ending == v.ending && r.graph == h && r.sleeps == []
              else if PastTheTable(sdk, attempt, total) then r.ending == RaisedIndex && r.graph == h && r.sleeps == []
              else
                var rest := Send(sdk, h, e, net, attempt + 1, total, Some(v.error));
                r.ending == rest.ending && r.graph == rest.graph && r.sleeps == Pause(attempt, total) + rest.sleeps
  {}

  // The clients ---------------------------------------------------------------

  /** One request: the other clients' steps, then the server's transaction if it is reached. */
  method Post(store: GraphStore, e: Event, a: Attempt) returns (v: View)
    modifies store
    ensures store.State() == Run(old(store.State()), Ran(e, a))
    ensures v == Seen(a.outcome, Accepts(Run(old(store.State()), a.before), e))
    ensures var h := Run(old(store.State()), a.before);
            match a.outcome
            case RequestLost => store.State() == h && v == TransportFailure
            case Refused(s) => store.State() == h && v == Reply(s, true)
            case ReplyLost => store.State() == Write(h, e) && v == TransportFailure
            case Masked(s) => store.State() == Write(h, e) && v == Reply(s, true)
            case Delivered => store.State() == Write(h, e) && v == Reply(if Accepts(h, e) then 201 else 409, true)
            case Garbled => store.State() == Write(h, e) && v == Reply(if Accepts(h, e) then 201 else 409, false)
  {
    ghost var g := store.State();
    for i := 0 to |a.before|
      invariant store.State() == Run(g, a.before[..i])
    {
      store.Perform(a.before[i]);
      assert a.before[..i + 1] == a.before[..i] + [a.before[i]];
      RunConcat(g, a.before[..i], [a.before[i]]);
    }
    assert a.before[..|a.before|] == a.before;
    var accepted := false;
    RunConcat(g, a.before, [WriteStep(e)]);
    OneStep(Run(g, a.before), WriteStep(e));
    if Reaches(a.outcome) {
      accepted := store.WriteEvent(e);
    } else {
      assert Ran(e, a) == a.before;
    }
    v := Seen(a.outcome, accepted);
  }

  lemma OneStep(g: Graph, s: Step)
    ensures Run(g, [s]) == Apply(g, s)
  {
    assert [s][1..] == [];
  }

  method PythonSend(store: GraphStore, e: Event, net: Network, maxRetries: int)
    returns (ending: Ending, sleeps: seq<Option<int>>)
    modifies store
    ensures var r := Delivery(Python, old(store.State()), e, net, maxRetries);
            ending == r.ending && sleeps == r.sleeps && store.State() == r.graph
    ensures Ends(Python, old(store.State()), e, net, maxRetries, ending, sleeps, store.State())
  {
    hide Run, Ran, Accepts, Seen, Apply, Send, Ends;
    EndingExact(Python, store.State(), e, net, maxRetries);
    var lastError: Option<Ending> := None;
    var total := maxRetries + 1;
    var attempt: nat := 0;
    sleeps := [];
    ghost var g := store.State();
    ghost var whole := Delivery(Python, g, e, net, maxRetries);
    while attempt < total
      invariant store.State() == g
      invariant var r := Send(Python, g, e, net, attempt, total, lastError);
                whole.ending == r.ending && whole.graph == r.graph && whole.sleeps == sleeps + r.sleeps
      invariant attempt > 0 ==> lastError.Some?
    {
      SendTurn(Python, g, e, net, attempt, total, lastError);
      var v := Post(store, e, net(attempt));
      g := Run(g, Ran(e, net(attempt)));
      match v {
        case Reply(s, readable) =>
          if s == 409 || 200 <= s < 300 {
            return if readable then Returned(s) else RaisedDecode, sleeps;
          }
          if s < 500 {
            return RaisedStatus(s), sleeps;
          }
          lastError := Some(RaisedStatus(s));
        case TransportFailure =>
          lastError := Some(RaisedTransport);
      }
      if attempt < total - 1 {
        if attempt >= |BACKOFF_MS| {
          return RaisedIndex, sleeps;
        }
        sleeps := sleeps + [Some(BACKOFF_MS[attempt])];
      }
      attempt := attempt + 1;
    }
    SendTurn(Python, g, e, net, attempt, total, lastError);
    ending := if lastError.Some? then lastError.value else RaisedNoAttempt;
  }

  method NodeSend(store: GraphStore, e: Event, net: Network, maxRetries: int)
    returns (ending: Ending, sleeps: seq<Option<int>>)
    modifies store
    ensures var r := Delivery(Node, old(store.State()), e, net, maxRetries);
            ending == r.ending && sleeps == r.sleeps && store.State() == r.graph
    ensures Ends(Node, old(store.State()), e, net, maxRetries, ending, sleeps, store.State())
  {
    hide Run, Ran, Accepts, Seen, Apply, Send, Ends;
    EndingExact(Node, store.State(), e, net, maxRetries);
    var lastError: Option<Ending> := None;
    var total := maxRetries + 1;
    var attempt: nat := 0;
    sleeps := [];
    ghost var g := store.State();
    ghost var whole := Delivery(Node, g, e, net, maxRetries);
    while attempt < total
      invariant store.State() == g
      invariant var r := Send(Node, g, e, net, attempt, total, lastError);
                whole.ending == r.ending && whole.graph == r.graph && whole.sleeps == sleeps + r.sleeps
      invariant attempt > 0 ==> lastError.Some?
    {
      SendTurn(Node, g, e, net, attempt, total, lastError);
      var v := Post(store, e, net(attempt));
      g := Run(g, Ran(e, net(attempt)));
      match v {
        case Reply(s, readable) =>
          if s == 409 || 200 <= s < 300 {
            if readable {
              return Returned(s), sleeps;
            }
            lastError := Some(RaisedDecode);
          } else {
            if s < 500 {
              return RaisedStatus(s), sleeps;
            }
            lastError := Some(RaisedStatus(s));
          }
        case TransportFailure =>
          lastError := Some(RaisedTransport);
      }
      if attempt < total - 1 {
        sleeps := sleeps + [Backoff(attempt)];
      }
      attempt := attempt + 1;
    }
    SendTurn(Node, g, e, net, attempt, total, lastError);
    ending := if lastError.Some? then lastError.value else RaisedNoAttempt;
  }

  // What reaches the store ------------------------------------------------------

  /** Whether the loop goes on after an outcome; the store's answer never matters for that. */
  predicate Retries(sdk: Sdk, o: Outcome) {
    match o
    case RequestLost => true
    case ReplyLost => true
    case Refused(s) => s >= 500
    case Masked(s) => s >= 500
    case Delivered => false
    case Garbled => sdk.Node?
  }

  lemma RetryExact(sdk: Sdk, g: Graph, e: Event, a: Attempt)
    ensures VerdictOn(sdk, g, e, a).Retry? <==> Retries(sdk, a.outcome)
    ensures VerdictOn(sdk, g, e, a).Retry? ==> VerdictOn(sdk, g, e, a).error != RaisedIndex
    ensures VerdictOn(sdk, g, e, a).Stop? ==> VerdictOn(sdk, g, e, a).ending != RaisedIndex
  {}

  /** How many attempts the loop makes: fixed by the network, whatever the store answers. */
  function Attempts(sdk: Sdk, net: Network, attempt: nat, total: int): nat
    decreases total - attempt
  {
    if attempt >= total then 0
    else if !Retries(sdk, net(attempt).outcome) || PastTheTable(sdk, attempt, total) then 1
    else 1 + Attempts(sdk, net, attempt + 1, total)
  }

  /** The transactions of n attempts in a row, other clients' included. */
  function Script(e: Event, net: Network, attempt: nat, n: nat): seq<Step>
    decreases n
  {
    if n == 0 then [] else Ran(e, net(attempt)) + Script(e, net, attempt + 1, n - 1)
  }

  /** All transactions of a delivery, in order. */
  function Reached(sdk: Sdk, e: Event, net: Network, maxRetries: int): seq<Step> {
    Script(e, net, 0, Attempts(sdk, net, 0, maxRetries + 1))
  }

  lemma {:induction false} TraceIsScript(
    sdk: Sdk, g: Graph, e: Event, net: Network, attempt: nat, total: int, last: Option<Ending>)
    ensures Send(sdk, g, e, net, attempt, total, last).trace == Script(e, net, attempt, Attempts(sdk, net, attempt, total))
    decreases total - attempt
  {
    hide Run, Accepts, Ran;
    if attempt < total {
      var ran, v := Ran(e, net(attempt)), VerdictOn(sdk, g, e, net(attempt));
      RetryExact(sdk, g, e, net(attempt));
      if v.Retry? && !PastTheTable(sdk, attempt, total) {
        TraceIsScript(sdk, Run(g, ran), e, net, attempt + 1, total, Some(v.error));
      } else {
        assert Script(e, net, attempt, 1) == ran + Script(e, net, attempt + 1, 0) == ran + [];
      }
    }
  }

  /** The store after a delivery is the store after those transactions, which depend on the network only. */
  lemma DeliveryIsRun(sdk: Sdk, g: Graph, e: Event, net: Network, maxRetries: int)
    ensures var r := Delivery(sdk, g, e, net, maxRetries);
            && r.trace == Reached(sdk, e, net, maxRetries) && r.graph == Run(g, r.trace)
            && (r.ending.Returned? ==> WriteStep(e) in r.trace)
  {
    TraceIsScript(sdk, g, e, net, 0, maxRetries + 1, None);
    ReportIsRun(sdk, g, e, net, 0, maxRetries + 1, None);
    ReturnedReached(sdk, g, e, net, 0, maxRetries + 1, None);
  }

  // How it ends ---------------------------------------------------------------------

  /** The pauses, in milliseconds: 1, 2 and 4 seconds, then no entry. */
  ghost predicate Waits(sleeps: seq<Option<int>>, from: nat) {
    forall i :: 0 <= i < |sleeps| ==>
      sleeps[i] == if from + i == 0 then Some(1000) else if from + i == 1 then Some(2000) else if from + i == 2 then Some(4000) else None
  }

  /** What the last attempt's fate makes of the call; stored says whether its write was. */
  function EndingFor(o: Outcome, stored: bool): Ending {
    match o
    case RequestLost => RaisedTransport
    case ReplyLost => RaisedTransport
    case Refused(s) => RaisedStatus(s)
    case Masked(s) => RaisedStatus(s)
    case Delivered => Returned(if stored then 201 else 409)
    case Garbled => RaisedDecode
  }

  /** The ending of a loop whose last attempt is the k-th and finds the store in state h. */
  ghost predicate EndsAt(sdk: Sdk, h: Graph, e: Event, net: Network, k: nat, total: int, ending: Ending) {
    if sdk.Python? && 3 <= k < total - 1 && Retries(Python, net(k).outcome) then ending == RaisedIndex
    else ending == EndingFor(net(k).outcome, Accepts(Run(h, net(k).before), e))
  }

  lemma {:induction false} EndingFrom(
    sdk: Sdk, g: Graph, e: Event, net: Network, attempt: nat, total: int, last: Option<Ending>)
    requires attempt < total
    ensures var r, n := Send(sdk, g, e, net, attempt, total, last), Attempts(sdk, net, attempt, total);
            && n >= 1 && |r.sleeps| == n - 1 && Waits(r.sleeps, attempt)
            && EndsAt(sdk, Run(g, Script(e, net, attempt, n - 1)), e, net, attempt + n - 1, total, r.ending)
    decreases total - attempt
  {
    hide Run, Accepts;
    var o, ran := net(attempt).outcome, Ran(e, net(attempt));
    var v, h := VerdictOn(sdk, g, e, net(attempt)), Run(g, ran);
    RetryExact(sdk, g, e, net(attempt));
    SendTurn(sdk, g, e, net, attempt, total, last);
    RunNothing(g);
    if v.Stop? || PastTheTable(sdk, attempt, total) {
      assert Script(e, net, attempt, 0) == [];
    } else if attempt == total - 1 {
      SendTurn(sdk, h, e, net, attempt + 1, total, Some(v.error));
      assert Script(e, net, attempt, 0) == [];
    } else {
      EndingFrom(sdk, h, e, net, attempt + 1, total, Some(v.error));
      var n := Attempts(sdk, net, attempt + 1, total);
      RunConcat(g, ran, Script(e, net, attempt + 1, n - 1));
      assert Script(e, net, attempt, n) == ran + Script(e, net, attempt + 1, n - 1);
    }
  }

  lemma RunNothing(g: Graph)
    ensures Run(g, []) == g
  {}

  /** The whole behaviour, read off the network: how many attempts, the pauses between them, and the ending. */
  ghost predicate Ends(sdk: Sdk, g: Graph, e: Event, net: Network, maxRetries: int, ending: Ending, sleeps: seq<Option<int>>, after: Graph) {
    var n := Attempts(sdk, net, 0, maxRetries + 1);
    if maxRetries < 0 then ending == RaisedNoAttempt && sleeps == [] && after == g
    else
      && n >= 1 && |sleeps| == n - 1 && Waits(sleeps, 0)
      && EndsAt(sdk, Run(g, Script(e, net, 0, n - 1)), e, net, n - 1, maxRetries + 1, ending)
      && after == Run(g, Script(e, net, 0, n))
  }

  /** Another attempt follows if the budget allows one: the fate is retried, and Python's table has an entry. */
  ghost predicate GoesOn(sdk: Sdk, net: Network, i: nat) { Retries(sdk, net(i).outcome) && (sdk.Python? ==> i < 3) }

  /** The number of attempts: up to the first fate that is not retried, the budget, or the end of Python's table. */
  lemma {:induction false} AttemptsExact(sdk: Sdk, net: Network, attempt: nat, total: int)
    requires attempt < total
    ensures var last := attempt + Attempts(sdk, net, attempt, total) - 1;
            && attempt <= last < total
            && (forall i: nat :: attempt <= i < last ==> GoesOn(sdk, net, i))
            && (last == total - 1 || !GoesOn(sdk, net, last))
    decreases total - attempt
  {
    hide Retries;
    assert GoesOn(sdk, net, attempt) <==> Retries(sdk, net(attempt).outcome) && (sdk.Python? ==> attempt < 3);
    if attempt < total - 1 && GoesOn(sdk, net, attempt) {
      AttemptsExact(sdk, net, attempt + 1, total);
    }
  }

  lemma EndingExact(sdk: Sdk, g: Graph, e: Event, net: Network, maxRetries: int)
    ensures var r := Delivery(sdk, g, e, net, maxRetries); Ends(sdk, g, e, net, maxRetries, r.ending, r.sleeps, r.graph)
  {
    hide Run, Accepts, EndsAt, Waits;
    if maxRetries >= 0 {
      EndingFrom(sdk, g, e, net, 0, maxRetries + 1, None);
      DeliveryIsRun(sdk, g, e, net, maxRetries);
    }
  }

  // Exactly once ---------------------------------------------------------------

  lemma {:induction false} ReportIsRun(
    sdk: Sdk, g: Graph, e: Event, net: Network, attempt: nat, total: int, last: Option<Ending>)
    ensures var r := Send(sdk, g, e, net, attempt, total, last); r.graph == Run(g, r.trace)
    decreases total - attempt
  {
    if attempt < total {
      var ran, v := Ran(e, net(attempt)), VerdictOn(sdk, g, e, net(attempt));
      if v.Retry? {
        ReportIsRun(sdk, Run(g, ran), e, net, attempt + 1, total, Some(v.error));
        RunConcat(g, ran, Send(sdk, Run(g, ran), e, net, attempt + 1, total, Some(v.error)).trace);
      }
    }
  }

  /** A normal return was preceded by a run of the transaction. */
  lemma {:induction false} ReturnedReached(
    sdk: Sdk, g: Graph, e: Event, net: Network, attempt: nat, total: int, last: Option<Ending>)
    requires last.Some? ==> !last.value.Returned?
    ensures var r := Send(sdk, g, e, net, attempt, total, last); r.ending.Returned? ==> WriteStep(e) in r.trace
    decreases total - attempt
  {
    if attempt < total {
      var ran, v := Ran(e, net(attempt)), VerdictOn(sdk, g, e, net(attempt));
      if v.Stop? {
        if v.ending.Returned? {
          assert ran[|ran| - 1] == WriteStep(e);
        }
      } else {
        ReturnedReached(sdk, Run(g, ran), e, net, attempt + 1, total, Some(v.error));
      }
    }
  }

  function HasId(id: string): Edge -> bool { (e: Edge) => e.eventId == id }

  function WithId(es: seq<Edge>, id: string): seq<Edge> { Filter(es, HasId(id)) }

  lemma WithIdMembers(es: seq<Edge>, id: string)
    ensures forall x :: x in WithId(es, id) <==> x in es && x.eventId == id
    ensures WithId(es, id) != [] <==> id in EventIds(es)
  {
    FilterMembers(es, HasId(id));
    if WithId(es, id) != [] { assert WithId(es, id)[0] in WithId(es, id); }
  }

  lemma {:induction false} UniqueWithId(es: seq<Edge>, id: string)
    requires UniqueIds(es)
    ensures |WithId(es, id)| == if id in EventIds(es) then 1 else 0
  {
    WithIdMembers(es, id);
    if es != [] {
      var front, x := es[..|es| - 1], es[|es| - 1];
      UniqueWithId(front, id);
      assert es == front + [x];
      if x.eventId == id { assert id !in EventIds(front); } else { WithIdMembers(front, id); }
    }
  }

  lemma {:induction false} IdsOnlyGrow(g: Graph, steps: seq<Step>)
    ensures EventIds(g.performed) <= EventIds(Run(g, steps).performed)
    ensures forall e :: WriteStep(e) in steps ==> e.eventId in EventIds(Run(g, steps).performed)
    decreases |steps|
  {
    if steps != [] {
      var h := Apply(g, steps[0]);
      IdsOnlyGrow(h, steps[1..]);
      forall id | id in EventIds(g.performed) ensures id in EventIds(h.performed) {
        var x :| x in g.performed && x.eventId == id;
        assert x in h.performed;
      }
      if steps[0].WriteStep? && Accepts(g, steps[0].event) {
        assert steps[0].event.Performed() in h.performed;
      }
      assert steps == [steps[0]] + steps[1..];
    }
  }

  /**
   Exactly-once, for every network behaviour and any interference: a normal
   return leaves exactly one edge with the event's id, and no ending leaves more.
  */
  lemma ExactlyOnce(sdk: Sdk, g: Graph, e: Event, net: Network, maxRetries: int)
    requires Consistent(g)
    ensures var r := Delivery(sdk, g, e, net, maxRetries);
            && |WithId(r.graph.performed, e.eventId)| <= 1
            && (r.ending.Returned? ==> |WithId(r.graph.performed, e.eventId)| == 1)
            && Consistent(r.graph)
  {
    var r := Delivery(sdk, g, e, net, maxRetries);
    ReportIsRun(sdk, g, e, net, 0, maxRetries + 1, None);
    RunKeepsConsistent(g, r.trace);
    UniqueWithId(r.graph.performed, e.eventId);
    ReturnedReached(sdk, g, e, net, 0, maxRetries + 1, None);
    IdsOnlyGrow(g, r.trace);
  }

  /** The trace with every repetition of the client's own write removed. */
  function Once(trace: seq<Step>, e: Event): seq<Step> {
    if trace == [] then []
    else if trace[0] == WriteStep(e) then [trace[0]] + Without(trace[1..], e)
    else [trace[0]] + Once(trace[1..], e)
  }

  function Without(trace: seq<Step>, e: Event): seq<Step> {
    if trace == [] then []
    else (if trace[0] == WriteStep(e) then [] else [trace[0]]) + Without(trace[1..], e)
  }

  lemma {:induction false} RepeatsAreNoOps(g: Graph, trace: seq<Step>, e: Event)
    requires !Accepts(g, e)
    ensures Run(g, trace) == Run(g, Without(trace, e))
    decreases |trace|
  {
    if trace != [] {
      var h := Apply(g, trace[0]);
      IdsOnlyGrow(g, [trace[0]]);
      assert Run(h, [trace[0]][1..]) == h;
      RepeatsAreNoOps(h, trace[1..], e);
      if trace[0] == WriteStep(e) {
        assert Without(trace, e) == Without(trace[1..], e);
      } else {
        RunCons(g, trace[0], Without(trace[1..], e));
      }
    }
  }

  lemma RunCons(g: Graph, s: Step, rest: seq<Step>)
    ensures Run(g, [s] + rest) == Run(Apply(g, s), rest)
  {
    assert ([s] + rest)[1..] == rest;
  }

  /** Retrying changes nothing: any run with repeated sends is the run with a single send. */
  lemma {:induction false} RetriesCollapse(g: Graph, trace: seq<Step>, e: Event)
    ensures Run(g, trace) == Run(g, Once(trace, e))
    decreases |trace|
  {
    if trace != [] {
      var h := Apply(g, trace[0]);
      if trace[0] == WriteStep(e) {
        IdsOnlyGrow(g, [trace[0]]);
        assert Run(h, [trace[0]][1..]) == h;
        RepeatsAreNoOps(h, trace[1..], e);
        RunCons(g, trace[0], Without(trace[1..], e));
      } else {
        RetriesCollapse(h, trace[1..], e);
        RunCons(g, trace[0], Once(trace[1..], e));
      }
    }
  }

  /** A retrying client is indistinguishable in the store from one that sends at most once. */
  lemma DeliveryIsOneSend(sdk: Sdk, g: Graph, e: Event, net: Network, maxRetries: int)
    ensures var r := Delivery(sdk, g, e, net, maxRetries);
            r.graph == Run(g, Once(r.trace, e))
  {
    ReportIsRun(sdk, g, e, net, 0, maxRetries + 1, None);
    RetriesCollapse(g, Delivery(sdk, g, e, net, maxRetries).trace, e);
  }

  // Whose edge it is -------------------------------------------------------------

  lemma WithIdAfterStep(g: Graph, s: Step, id: string)
    ensures WithId(Apply(g, s).performed, id) ==
            if s.WriteStep? && Accepts(g, s.event) && s.event.eventId == id
            then WithId(g.performed, id) + [s.event.Performed()] else WithId(g.performed, id)
  {
    if s.WriteStep? && Accepts(g, s.event) {
      FilterSnoc(g.performed, s.event.Performed(), HasId(id));
    }
  }

  /** The first write of a run that carries the id. */
  function FirstWriter(trace: seq<Step>, id: string): Option<Event> {
    if trace == [] then None
    else if trace[0].WriteStep? && trace[0].event.eventId == id then Some(trace[0].event)
    else FirstWriter(trace[1..], id)
  }

  /** Any run: an id that is stored stays as it is, a free one goes to its first writer. */
  lemma {:induction false} FirstWriterDecides(g: Graph, trace: seq<Step>, id: string)
    ensures WithId(Run(g, trace).performed, id) ==
            if id in EventIds(g.performed) then WithId(g.performed, id)
            else if FirstWriter(trace, id).Some? then [FirstWriter(trace, id).value.Performed()] else []
    decreases |trace|
  {
    hide Apply, WithId;
    WithIdMembers(g.performed, id);
    if trace != [] {
      var h := Apply(g, trace[0]);
      WithIdMembers(h.performed, id);
      WithIdAfterStep(g, trace[0], id);
      FirstWriterDecides(h, trace[1..], id);
    }
  }

  /** No step of the run but the client's own write uses the id. */
  ghost predicate OnlyOurs(trace: seq<Step>, e: Event) {
    forall s :: s in trace && s.WriteStep? && s.event.eventId == e.eventId ==> s == WriteStep(e)
  }

  lemma {:induction false} FirstWriterExists(trace: seq<Step>, e: Event)
    ensures WriteStep(e) in trace ==> FirstWriter(trace, e.eventId).Some?
    ensures OnlyOurs(trace, e) ==> FirstWriter(trace, e.eventId) == if WriteStep(e) in trace then Some(e) else None
  {
    if trace != [] {
      assert trace == [trace[0]] + trace[1..];
      assert trace[0] in trace;
      FirstWriterExists(trace[1..], e);
    }
  }

  lemma HeldByOneEdge(es: seq<Edge>, x: Edge)
    requires UniqueIds(es)
    ensures WithId(es, x.eventId) == [x] <==> x in es
  {
    UniqueWithId(es, x.eventId);
    WithIdMembers(es, x.eventId);
    if WithId(es, x.eventId) == [x] { assert x in WithId(es, x.eventId); }
  }

  /**
   Whose edge it is, under any interference: after a normal return the stored edge is
   this event's if and only if the store already held that very edge, or the id was
   free and the first write with it, among all clients' during the delivery, was of
   that edge. When nobody else uses the id that leaves: the id was free, or held by
   the very same edge.
  */
  lemma ReturnedMeansOurs(sdk: Sdk, g: Graph, e: Event, net: Network, maxRetries: int)
    requires UniqueIds(g.performed)
    ensures var r, first := Delivery(sdk, g, e, net, maxRetries), FirstWriter(Reached(sdk, e, net, maxRetries), e.eventId);
            r.ending.Returned? ==>
              && first.Some?
              && (WithId(r.graph.performed, e.eventId) == [e.Performed()] <==>
                  e.Performed() in g.performed || (Accepts(g, e) && first.value.Performed() == e.Performed()))
              && (OnlyOurs(Reached(sdk, e, net, maxRetries), e) ==>
                    (WithId(r.graph.performed, e.eventId) == [e.Performed()] <==> e.Performed() in g.performed || Accepts(g, e)))
  {
    hide Delivery, Reached, WithId, FirstWriter, OnlyOurs, UniqueIds;
    var trace := Reached(sdk, e, net, maxRetries);
    DeliveryIsRun(sdk, g, e, net, maxRetries);
    FirstWriterDecides(g, trace, e.eventId);
    FirstWriterExists(trace, e);
    HeldByOneEdge(g.performed, e.Performed());
    if e.Performed() in g.performed { assert e.Performed().eventId in EventIds(g.performed); }
  }

  /**
   All or nothing, whatever the ending and the interference: a stored id keeps its
   edges, and a free one ends with the edge of its first writer, or with none if
   nobody's write of it ran. So if only this client uses a free id, its edge is
   stored exactly when some attempt reached the server.
  */
  lemma AllOrNothing(sdk: Sdk, g: Graph, e: Event, net: Network, maxRetries: int)
    ensures var r, trace := Delivery(sdk, g, e, net, maxRetries), Reached(sdk, e, net, maxRetries);
            && WithId(r.graph.performed, e.eventId) ==
               (if !Accepts(g, e) then WithId(g.performed, e.eventId)
                else if FirstWriter(trace, e.eventId).Some? then [FirstWriter(trace, e.eventId).value.Performed()] else [])
            && (Accepts(g, e) && OnlyOurs(trace, e) ==>
                  WithId(r.graph.performed, e.eventId) == if WriteStep(e) in trace then [e.Performed()] else [])
  {
    hide Delivery, Reached, WithId, FirstWriter, OnlyOurs;
    var trace := Reached(sdk, e, net, maxRetries);
    DeliveryIsRun(sdk, g, e, net, maxRetries);
    FirstWriterDecides(g, trace, e.eventId);
    FirstWriterExists(trace, e);
  }

  /**
   The id that was free at the start and taken between two attempts: success is
   reported, and the one stored edge is the other client's.
  */
  lemma IdTakenBetweenAttempts(sdk: Sdk, e: Event, other: Event, net: Network, maxRetries: int)
    requires e.eventId == other.eventId && maxRetries >= 1
    requires net(0) == Attempt([], RequestLost) && net(1) == Attempt([WriteStep(other)], Delivered)
    ensures Accepts(Empty, e)
    ensures var r := Delivery(sdk, Empty, e, net, maxRetries);
            r.ending == Returned(409) && WithId(r.graph.performed, e.eventId) == [other.Performed()]
  {
    hide Delivery, Send;
    var total, g := maxRetries + 1, Write(Empty, other);
    assert Run(Empty, [WriteStep(other)]) == Run(g, [WriteStep(other)][1..]) == g;
    assert g.performed == [other.Performed()];
    assert other.eventId in EventIds(g.performed);
    assert Ran(e, net(0)) == [] && Ran(e, net(1)) == [WriteStep(other), WriteStep(e)];
    SendTurn(sdk, Empty, e, net, 0, total, None);
    SendTurn(sdk, Empty, e, net, 1, total, Some(RaisedTransport));
    assert Delivery(sdk, Empty, e, net, maxRetries).ending == Returned(409) by { DeliveryStarts(sdk, Empty, e, net, maxRetries); }
    DeliveryStarts(sdk, Empty, e, net, maxRetries);
    assert Run(Empty, [WriteStep(other), WriteStep(e)]) == g by {
      assert [WriteStep(other), WriteStep(e)][1..] == [WriteStep(e)];
      assert Run(g, [WriteStep(e)]) == Run(g, [WriteStep(e)][1..]) == g;
    }
    FilterSnoc([], other.Performed(), HasId(e.eventId));
    assert [] + [other.Performed()] == [other.Performed()];
  }

  lemma DeliveryStarts(sdk: Sdk, g: Graph, e: Event, net: Network, maxRetries: int)
    ensures Delivery(sdk, g, e, net, maxRetries) == Send(sdk, g, e, net, 0, maxRetries + 1, None)
  {}

  /**
   The success that stores nothing: another tenant's event with the same id makes
   every delivered attempt answer 409, which both SDKs report as success.
  */
  lemma ForeignIdSwallowsEvent(sdk: Sdk, e: Event, other: Event, net: Network, maxRetries: nat)
    requires e.eventId == other.eventId && e.tenant != other.tenant
    requires net(0) == Attempt([], Delivered)
    ensures var r := Delivery(sdk, Write(Empty, other), e, net, maxRetries);
            r.ending == Returned(409) && r.graph == Write(Empty, other) && e.Performed() !in r.graph.performed
  {
    var g := Write(Empty, other);
    assert g.performed == [other.Performed()];
    assert other.eventId in EventIds(g.performed);
    assert Run(g, [WriteStep(e)]) == Run(g, [WriteStep(e)][1..]) == g;
    assert [] + [WriteStep(e)] == [WriteStep(e)];
  }

  // Control flow ---------------------------------------------------------------

  ghost predicate AllRetry(sdk: Sdk, net: Network, from: nat, to: nat) {
    forall i: nat :: from <= i < to ==> Retries(sdk, net(i).outcome)
  }

  lemma {:induction false} CrashFrom(g: Graph, e: Event, net: Network, attempt: nat, total: int, last: Option<Ending>)
    requires attempt <= 4 && last != Some(RaisedIndex)
    requires attempt == 4 ==> total == 4
    ensures Send(Python, g, e, net, attempt, total, last).ending == RaisedIndex <==>
            total >= 5 && AllRetry(Python, net, attempt, 4)
    decreases 4 - attempt
  {
    hide Run, Apply, VerdictOn, Send;
    SendTurn(Python, g, e, net, attempt, total, last);
    if attempt < total {
      var v, h := VerdictOn(Python, g, e, net(attempt)), Run(g, Ran(e, net(attempt)));
      RetryExact(Python, g, e, net(attempt));
      if v.Retry? && !PastTheTable(Python, attempt, total) {
        CrashFrom(h, e, net, attempt + 1, total, Some(v.error));
      }
    }
  }

  /** The Python loop runs off its backoff table exactly when it may retry more than three times and has to. */
  lemma PythonIndexErrorExact(g: Graph, e: Event, net: Network, maxRetries: int)
    ensures Delivery(Python, g, e, net, maxRetries).ending == RaisedIndex <==>
            maxRetries >= 4 && AllRetry(Python, net, 0, 4)
  {
    CrashFrom(g, e, net, 0, maxRetries + 1, None);
  }

  /** Pauses follow the backoff table from the start. */
  lemma {:induction false} SleepsFollowTable(
    sdk: Sdk, g: Graph, e: Event, net: Network, attempt: nat, total: int, last: Option<Ending>)
    ensures var r := Send(sdk, g, e, net, attempt, total, last);
            && (forall i :: 0 <= i < |r.sleeps| ==> r.sleeps[i] == Backoff(attempt + i))
            && |r.sleeps| <= if attempt < total then total - 1 - attempt else 0
    decreases total - attempt
  {
    hide Run, Apply, VerdictOn, Send;
    SendTurn(sdk, g, e, net, attempt, total, last);
    if attempt < total {
      var v, h := VerdictOn(sdk, g, e, net(attempt)), Run(g, Ran(e, net(attempt)));
      if v.Retry? {
        SleepsFollowTable(sdk, h, e, net, attempt + 1, total, Some(v.error));
      }
    }
  }

  /** Attempt p is not the last, is reached, and is where the two clients part. */
  ghost predicate PartsAt(net: Network, attempt: nat, total: int, p: nat) {
    && attempt <= p < total - 1
    && AllRetry(Python, net, attempt, p)
    && (net(p).outcome.Garbled? || (p >= 3 && Retries(Python, net(p).outcome)))
  }

  ghost predicate ClientsPart(net: Network, attempt: nat, total: int) {
    exists p: nat :: PartsAt(net, attempt, total, p)
  }

  lemma SamePrefix<T>(p: seq<T>, a: seq<T>, b: seq<T>)
    ensures p + a == p + b <==> a == b
  {
    assert (p + a)[|p|..] == a && (p + b)[|p|..] == b;
  }

  lemma {:induction false} AgreeFrom(g: Graph, e: Event, net: Network, attempt: nat, total: int, last: Option<Ending>)
    ensures Send(Python, g, e, net, attempt, total, last) == Send(Node, g, e, net, attempt, total, last) <==>
            !ClientsPart(net, attempt, total)
    decreases total - attempt
  {
    hide Run, Apply, Accepts;
    if attempt < total {
      var o := net(attempt).outcome;
      var v, h := VerdictOn(Python, g, e, net(attempt)), Run(g, Ran(e, net(attempt)));
      RetryExact(Python, g, e, net(attempt));
      RetryExact(Node, g, e, net(attempt));
      if o.Garbled? || (attempt >= 3 && Retries(Python, o)) {
        if attempt < total - 1 {
          assert PartsAt(net, attempt, total, attempt);
        }
      } else if Retries(Python, o) {
        var a, b := Send(Python, h, e, net, attempt + 1, total, Some(v.error)), Send(Node, h, e, net, attempt + 1, total, Some(v.error));
        AgreeFrom(h, e, net, attempt + 1, total, Some(v.error));
        SamePrefix(Pause(attempt, total), a.sleeps, b.sleeps);
        SamePrefix(Ran(e, net(attempt)), a.trace, b.trace);
        PartsLater(net, attempt, total);
      } else {
        forall p: nat ensures !PartsAt(net, attempt, total, p) {}
      }
    }
  }

  lemma PartsLater(net: Network, attempt: nat, total: int)
    requires Retries(Python, net(attempt).outcome) && attempt < 3
    ensures ClientsPart(net, attempt, total) <==> ClientsPart(net, attempt + 1, total)
  {
    if ClientsPart(net, attempt, total) {
      var p: nat :| PartsAt(net, attempt, total, p);
      assert p != attempt;
      assert PartsAt(net, attempt + 1, total, p);
    }
    var next := attempt + 1;
    if ClientsPart(net, next, total) {
      var p: nat :| PartsAt(net, next, total, p);
      assert PartsAt(net, attempt, total, p);
    }
  }

  /**
   The two SDKs behave the same, step for step, unless a success reply that is not
   the last attempt's cannot be parsed, or Python runs off its backoff table.
  */
  lemma SdksAgreeExact(g: Graph, e: Event, net: Network, maxRetries: int)
    ensures Delivery(Python, g, e, net, maxRetries) == Delivery(Node, g, e, net, maxRetries) <==>
            !ClientsPart(net, 0, maxRetries + 1)
  {
    AgreeFrom(g, e, net, 0, maxRetries + 1, None);
  }

  // One write among others' --------------------------------------------------------

  ghost predicate Quiet(net: Network) { forall i: nat :: net(i).before == [] }

  lemma {:induction false} QuietScript(e: Event, net: Network, attempt: nat, n: nat)
    requires Quiet(net)
    ensures forall i :: 0 <= i < |Script(e, net, attempt, n)| ==> Script(e, net, attempt, n)[i] == WriteStep(e)
    decreases n
  {
    if n > 0 {
      QuietScript(e, net, attempt + 1, n - 1);
      assert net(attempt).before == [];
    }
  }

  lemma {:induction false} FirstOwn(trace: seq<Step>, e: Event) returns (before: seq<Step>, after: seq<Step>)
    requires WriteStep(e) in trace
    ensures trace == before + [WriteStep(e)] + after && WriteStep(e) !in before
  {
    if trace[0] == WriteStep(e) {
      before, after := [], trace[1..];
    } else {
      assert trace == [trace[0]] + trace[1..];
      before, after := FirstOwn(trace[1..], e);
      before := [trace[0]] + before;
    }
  }

  lemma {:induction false} NothingButOwn(trace: seq<Step>, e: Event)
    requires forall i :: 0 <= i < |trace| ==> trace[i] == WriteStep(e)
    ensures Without(trace, e) == []
  {
    if trace != [] { NothingButOwn(trace[1..], e); }
  }

  /**
   A normal return is exactly one write among the others': the store is the one after
   the others' transactions up to some point, this write, and the others' after it.
   With nobody in between it is that one write.
  */
  lemma ReturnIsOneWrite(sdk: Sdk, g: Graph, e: Event, net: Network, maxRetries: int)
    returns (before: seq<Step>, after: seq<Step>)
    requires Delivery(sdk, g, e, net, maxRetries).ending.Returned?
    ensures Reached(sdk, e, net, maxRetries) == before + [WriteStep(e)] + after && WriteStep(e) !in before
    ensures Delivery(sdk, g, e, net, maxRetries).graph == Run(Write(Run(g, before), e), Without(after, e))
    ensures Quiet(net) ==> Delivery(sdk, g, e, net, maxRetries).graph == Write(g, e)
  {
    hide Delivery, Without, Quiet;
    DeliveryIsRun(sdk, g, e, net, maxRetries);
    before, after := FirstOwn(Reached(sdk, e, net, maxRetries), e);
    hide Reached;
    var mid := Run(g, before);
    assert before + [WriteStep(e)] + after == before + ([WriteStep(e)] + after);
    RunConcat(g, before, [WriteStep(e)] + after);
    RunCons(mid, WriteStep(e), after);
    IdsOnlyGrow(mid, [WriteStep(e)]);
    RunCons(mid, WriteStep(e), []);
    assert [WriteStep(e)] + [] == [WriteStep(e)];
    RepeatsAreNoOps(Write(mid, e), after, e);
    if Quiet(net) { QuietIsOneWrite(sdk, e, net, maxRetries, before, after); }
  }

  lemma QuietIsOneWrite(sdk: Sdk, e: Event, net: Network, maxRetries: int, before: seq<Step>, after: seq<Step>)
    requires Quiet(net)
    requires Reached(sdk, e, net, maxRetries) == before + [WriteStep(e)] + after && WriteStep(e) !in before
    ensures before == [] && Without(after, e) == []
  {
    hide Quiet, Script, Attempts, Without;
    var all := Reached(sdk, e, net, maxRetries);
    assert before == [] || before[0] in before;
    assert before == [] || before[0] == all[0];
    QuietScript(e, net, 0, Attempts(sdk, net, 0, maxRetries + 1));
    assert forall i :: 0 <= i < |after| ==> after[i] == all[|before| + 1 + i];
    NothingButOwn(after, e);
  }

  /** A second delivery of a stored id, whatever the network does and however it ends, leaves only the others' transactions. */
  lemma RepeatIsNoOp(sdk: Sdk, g: Graph, e: Event, net: Network, maxRetries: int)
    requires !Accepts(g, e)
    ensures Delivery(sdk, g, e, net, maxRetries).graph == Run(g, Without(Reached(sdk, e, net, maxRetries), e))
  {
    DeliveryIsRun(sdk, g, e, net, maxRetries);
    RepeatsAreNoOps(g, Reached(sdk, e, net, maxRetries), e);
  }
}
