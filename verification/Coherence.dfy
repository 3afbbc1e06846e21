/**
 What every reachable graph keeps: event ids are unique, edges join existing
 nodes of one tenant and application, and the firstSeen / lastSeen caches agree
 with the PERFORMED edges.
*/
module Coherence {
  import opened Options
  import opened GraphModel
  import opened Counting
  import opened Ranking

  ghost predicate UniqueIds(es: seq<Edge>) {
    forall i, j :: 0 <= i < j < |es| ==> es[i].eventId != es[j].eventId
  }

  function From(k: UserKey): Edge -> bool { (e: Edge) => e.source == k }

  function To(k: ObjectKey): Edge -> bool { (e: Edge) => e.target == k }

  function EdgesFrom(es: seq<Edge>, k: UserKey): seq<Edge> { Filter(es, From(k)) }

  function EdgesTo(es: seq<Edge>, k: ObjectKey): seq<Edge> { Filter(es, To(k)) }

  /** firstSeen is the first arrival's timestamp, lastSeen the greatest one. */
  ghost predicate Stamped(first: int, last: int, own: seq<Edge>) {
    && own != []
    && own[0].ts == first
    && (exists i :: 0 <= i < |own| && own[i].ts == last)
    && (forall i :: 0 <= i < |own| ==> own[i].ts <= last)
  }

  ghost predicate WellPlaced(g: Graph, e: Edge) {
    && e.source in g.users
    && e.target in g.objects
    && e.source.tenant == e.target.tenant
    && e.source.app == e.target.app
    && exists a :: a in g.apps && (e.source, a) in g.belongsTo && (a, e.target) in g.contains
  }

  ghost predicate Placed(g: Graph) {
    forall e :: e in g.performed ==> WellPlaced(g, e)
  }

  ghost predicate UsersStamped(g: Graph) {
    forall k :: k in g.users ==> Stamped(g.users[k].firstSeen, g.users[k].lastSeen, EdgesFrom(g.performed, k))
  }

  ghost predicate ObjectsStamped(g: Graph) {
    forall k :: k in g.objects ==> Stamped(g.objects[k].firstSeen, g.objects[k].lastSeen, EdgesTo(g.performed, k))
  }

  ghost predicate Related(g: Graph) {
    && (forall p :: p in g.belongsTo ==>
          p.0 in g.users && p.1 in g.apps && p.0.tenant == p.1.tenant && p.0.app == p.1.app)
    && (forall p :: p in g.contains ==>
          p.0 in g.apps && p.1 in g.objects && p.0.tenant == p.1.tenant && p.0.app == p.1.app)
    && (forall p :: p in g.samePerson ==> p.0 in g.users && p.1 in g.users && p.0.tenant == p.1.tenant)
  }

  ghost predicate Consistent(g: Graph) {
    UniqueIds(g.performed) && Placed(g) && UsersStamped(g) && ObjectsStamped(g) && Related(g)
  }

  lemma SameIdSameEdge(es: seq<Edge>, x: Edge, y: Edge)
    requires UniqueIds(es) && x in es && y in es && x.eventId == y.eventId
    ensures x == y
  {
    var i :| 0 <= i < |es| && es[i] == x;
    var j :| 0 <= j < |es| && es[j] == y;
    assert !(i < j) && !(j < i);
  }

  lemma {:induction false} FilterKeepsUnique(es: seq<Edge>, p: Edge -> bool)
    requires UniqueIds(es)
    ensures UniqueIds(Filter(es, p))
  {
    if es != [] {
      var front, x, kept := es[..|es| - 1], es[|es| - 1], Filter(es[..|es| - 1], p);
      FilterKeepsUnique(front, p);
      FilterMembers(front, p);
      forall i | 0 <= i < |kept| ensures kept[i].eventId != x.eventId {
        assert kept[i] in front;
      }
    }
  }

  lemma UniquePermutes(a: seq<Edge>, b: seq<Edge>)
    requires UniqueIds(a) && multiset(a) == multiset(b)
    ensures UniqueIds(b)
  {
    NoDuplicatesPermutes(a, b);
    forall i, j | 0 <= i < j < |b| ensures b[i].eventId != b[j].eventId {
      assert b[i] in multiset(a) && b[j] in multiset(a);
      var k :| 0 <= k < |a| && a[k] == b[i];
      var l :| 0 <= l < |a| && a[l] == b[j];
      assert k < l || l < k;
    }
  }

  /** A stored event is read back: an in-window history of its user shows it exactly once, with the event's values. */
  lemma WrittenEventIsRead(before: seq<Edge>, x: Edge, e: Event, cutoff: int, rows: seq<Edge>) returns (i: int)
    requires UniqueIds(before + [x]) && Records(x, e) && e.ts >= cutoff
    requires IsHistory(rows, NativeEdges(before + [x], e.tenant, e.native, cutoff))
    ensures 0 <= i < |rows| && Records(rows[i], e)
    ensures forall j :: 0 <= j < |rows| && j != i ==> rows[j].eventId != e.eventId
  {
    var es, p := before + [x], NativeSince(e.tenant, e.native, cutoff);
    FilterMembers(es, p);
    FilterKeepsUnique(es, p);
    UniquePermutes(Filter(es, p), rows);
    assert x in es && p(x);
    assert x in multiset(Filter(es, p)) && x in multiset(rows);
    i :| 0 <= i < |rows| && rows[i] == x;
  }

  /** Appending an edge keeps the stamps right when the cache takes the later timestamp. */
  lemma StampedAppend(first: int, last: int, own: seq<Edge>, e: Edge)
    requires Stamped(first, last, own)
    ensures Stamped(first, Later(e.ts, last), own + [e])
  {
    var i :| 0 <= i < |own| && own[i].ts == last;
    assert (own + [e])[i].ts == last;
    assert (own + [e])[|own|].ts == e.ts;
  }

  lemma CommitStampsUser(g: Graph, e: Event, k: UserKey)
    requires k in g.users ==> Stamped(g.users[k].firstSeen, g.users[k].lastSeen, EdgesFrom(g.performed, k))
    requires k !in g.users ==> EdgesFrom(g.performed, k) == []
    requires k in Commit(g, e).users
    ensures var h := Commit(g, e);
            Stamped(h.users[k].firstSeen, h.users[k].lastSeen, EdgesFrom(h.performed, k))
  {
    var h, x, own := Commit(g, e), e.Performed(), EdgesFrom(g.performed, k);
    FilterSnoc(g.performed, x, From(k));
    if k in g.users {
      StampedAppend(g.users[k].firstSeen, g.users[k].lastSeen, own, x);
    } else {
      assert EdgesFrom(h.performed, k)[0] == x;
    }
  }

  lemma CommitStampsObject(g: Graph, e: Event, k: ObjectKey)
    requires k in g.objects ==> Stamped(g.objects[k].firstSeen, g.objects[k].lastSeen, EdgesTo(g.performed, k))
    requires k !in g.objects ==> EdgesTo(g.performed, k) == []
    requires k in Commit(g, e).objects
    ensures var h := Commit(g, e);
            Stamped(h.objects[k].firstSeen, h.objects[k].lastSeen, EdgesTo(h.performed, k))
  {
    var h, x, own := Commit(g, e), e.Performed(), EdgesTo(g.performed, k);
    FilterSnoc(g.performed, x, To(k));
    if k in g.objects {
      StampedAppend(g.objects[k].firstSeen, g.objects[k].lastSeen, own, x);
    } else {
      assert EdgesTo(h.performed, k)[0] == x;
    }
  }

  lemma CommitKeepsUsersStamped(g: Graph, e: Event)
    requires Placed(g) && UsersStamped(g)
    ensures UsersStamped(Commit(g, e))
  {
    forall k | k in Commit(g, e).users
      ensures Stamped(Commit(g, e).users[k].firstSeen, Commit(g, e).users[k].lastSeen,
                      EdgesFrom(Commit(g, e).performed, k))
    {
      if k !in g.users {
        forall i | 0 <= i < |g.performed| ensures g.performed[i].source != k { assert WellPlaced(g, g.performed[i]); }
        FilterNone(g.performed, From(k));
      }
      CommitStampsUser(g, e, k);
    }
  }

  lemma CommitKeepsObjectsStamped(g: Graph, e: Event)
    requires Placed(g) && ObjectsStamped(g)
    ensures ObjectsStamped(Commit(g, e))
  {
    forall k | k in Commit(g, e).objects
      ensures Stamped(Commit(g, e).objects[k].firstSeen, Commit(g, e).objects[k].lastSeen,
                      EdgesTo(Commit(g, e).performed, k))
    {
      if k !in g.objects {
        forall i | 0 <= i < |g.performed| ensures g.performed[i].target != k { assert WellPlaced(g, g.performed[i]); }
        FilterNone(g.performed, To(k));
      }
      CommitStampsObject(g, e, k);
    }
  }

  /** An edge stays well placed while nodes and placing relations only grow. */
  lemma PlaceSurvives(g: Graph, h: Graph, e: Edge)
    requires WellPlaced(g, e)
    requires g.users.Keys <= h.users.Keys && g.objects.Keys <= h.objects.Keys
    requires g.apps <= h.apps && g.belongsTo <= h.belongsTo && g.contains <= h.contains
    ensures WellPlaced(h, e)
  {
    var a :| a in g.apps && (e.source, a) in g.belongsTo && (a, e.target) in g.contains;
    assert a in h.apps && (e.source, a) in h.belongsTo && (a, e.target) in h.contains;
  }

  lemma CommitKeepsPlaced(g: Graph, e: Event)
    requires Placed(g)
    ensures Placed(Commit(g, e))
  {
    var h := Commit(g, e);
    forall x | x in h.performed ensures WellPlaced(h, x) {
      if x in g.performed {
        PlaceSurvives(g, h, x);
      } else {
        assert e.App() in h.apps;
      }
    }
  }

  lemma CommitKeepsUnique(g: Graph, e: Event)
    requires UniqueIds(g.performed) && Accepts(g, e)
    ensures UniqueIds(Commit(g, e).performed)
  {
    forall i | 0 <= i < |g.performed|
      ensures g.performed[i].eventId != e.eventId
    {
      assert g.performed[i].eventId in EventIds(g.performed);
    }
  }

  lemma CommitKeepsRelated(g: Graph, e: Event)
    requires Related(g)
    ensures Related(Commit(g, e))
  {}

  /** Steps that leave edges, stamps and the placing relations alone keep the rest. */
  lemma AnnotationKeepsConsistent(g: Graph, h: Graph)
    requires Consistent(g)
    requires h == g.(users := h.users, samePerson := h.samePerson)
    requires h.users.Keys == g.users.Keys
    requires forall k :: k in g.users ==>
      h.users[k].firstSeen == g.users[k].firstSeen && h.users[k].lastSeen == g.users[k].lastSeen
    requires forall p :: p in h.samePerson ==> p.0 in g.users && p.1 in g.users && p.0.tenant == p.1.tenant
    ensures Consistent(h)
  {
    forall e | e in h.performed ensures WellPlaced(h, e) {
      PlaceSurvives(g, h, e);
    }
    forall p | p in h.belongsTo
      ensures p.0 in h.users && p.1 in h.apps && p.0.tenant == p.1.tenant && p.0.app == p.1.app
    {
      assert p in g.belongsTo;
    }
  }

  lemma CommitKeepsConsistent(g: Graph, e: Event)
    requires Consistent(g) && Accepts(g, e)
    ensures Consistent(Commit(g, e))
  {
    hide Commit, UniqueIds, Placed, UsersStamped, ObjectsStamped, Related;
    CommitKeepsUnique(g, e);
    CommitKeepsPlaced(g, e);
    CommitKeepsUsersStamped(g, e);
    CommitKeepsObjectsStamped(g, e);
    CommitKeepsRelated(g, e);
  }

  lemma LinkKeepsConsistent(g: Graph, l: LinkRequest)
    requires Consistent(g)
    ensures Consistent(Link(g, l))
  {
    hide UniqueIds, Placed, UsersStamped, ObjectsStamped;
    AnnotationKeepsConsistent(g, Link(g, l));
  }

  lemma ProfileKeepsConsistent(g: Graph, tenant: string, native: string, p: Profile)
    requires Consistent(g)
    ensures Consistent(SetProfile(g, tenant, native, p))
  {
    hide UniqueIds, Placed, UsersStamped, ObjectsStamped;
    AnnotationKeepsConsistent(g, SetProfile(g, tenant, native, p));
  }

  /** Every transaction keeps the graph consistent. */
  lemma StepKeepsConsistent(g: Graph, s: Step)
    requires Consistent(g)
    ensures Consistent(Apply(g, s))
  {
    match s
    case WriteStep(e) =>
      hide Commit, Consistent, Accepts;
      if Accepts(g, e) { CommitKeepsConsistent(g, e); }
    case LinkStep(l) =>
      LinkKeepsConsistent(g, l);
    case ProfileStep(t, u, p) =>
      ProfileKeepsConsistent(g, t, u, p);
  }

  lemma {:induction false} RunKeepsConsistent(g: Graph, steps: seq<Step>)
    requires Consistent(g)
    ensures Consistent(Run(g, steps))
    decreases |steps|
  {
    if steps != [] {
      StepKeepsConsistent(g, steps[0]);
      RunKeepsConsistent(Apply(g, steps[0]), steps[1..]);
    }
  }

  /** Main result: the caches agree with the edges after any run, in any arrival order. */
  lemma ReachableIsConsistent(steps: seq<Step>)
    ensures Consistent(Run(Empty, steps))
  {
    RunKeepsConsistent(Empty, steps);
  }

  /** lastSeen is in the window exactly when some edge of the user is. */
  lemma LastSeenInWindow(g: Graph, k: UserKey, cutoff: int)
    requires k in g.users && Stamped(g.users[k].firstSeen, g.users[k].lastSeen, EdgesFrom(g.performed, k))
    ensures g.users[k].lastSeen >= cutoff <==> exists e :: e in g.performed && e.source == k && e.ts >= cutoff
  {
    FilterMembers(g.performed, From(k));
    var own := EdgesFrom(g.performed, k);
    if g.users[k].lastSeen >= cutoff {
      var i :| 0 <= i < |own| && own[i].ts == g.users[k].lastSeen;
      assert own[i] in own;
    }
    if e :| e in g.performed && e.source == k && e.ts >= cutoff {
      assert e in own;
    }
  }

  function UsersWithEventSince(es: seq<Edge>, tenant: string, cutoff: int): set<string> {
    set e | e in es && e.source.tenant == tenant && e.ts >= cutoff :: e.source.native
  }

  /** ACTIVE_USERS, which only reads the cache, names exactly the users with an event in the window. */
  lemma ActiveUsersExact(steps: seq<Step>, tenant: string, cutoff: int)
    ensures var g := Run(Empty, steps);
            ActiveUsers(g, tenant, cutoff) == UsersWithEventSince(g.performed, tenant, cutoff)
  {
    ReachableIsConsistent(steps);
    var g := Run(Empty, steps);
    forall n | n in ActiveUsers(g, tenant, cutoff) ensures n in UsersWithEventSince(g.performed, tenant, cutoff) {
      var k :| k in g.users && k.tenant == tenant && g.users[k].lastSeen >= cutoff && k.native == n;
      LastSeenInWindow(g, k, cutoff);
    }
    forall n | n in UsersWithEventSince(g.performed, tenant, cutoff) ensures n in ActiveUsers(g, tenant, cutoff) {
      var e :| e in g.performed && e.source.tenant == tenant && e.ts >= cutoff && e.source.native == n;
      assert WellPlaced(g, e);
      LastSeenInWindow(g, e.source, cutoff);
    }
  }

  /** The last write of the run for user k that was accepted. */
  function LastAccepted(g: Graph, steps: seq<Step>, k: UserKey): Option<Event>
    decreases |steps|
  {
    if steps == [] then None
    else
      var later := LastAccepted(Apply(g, steps[0]), steps[1..], k);
      if later.Some? then later
      else if steps[0].WriteStep? && Accepts(g, steps[0].event) && steps[0].event.User() == k then Some(steps[0].event)
      else None
  }

  /** Id type and roles are those of the user's last accepted event: the last to arrive, whatever its timestamp. */
  lemma {:induction false} AttributesFollowLastEvent(g: Graph, steps: seq<Step>, k: UserKey)
    ensures var h, last := Run(g, steps), LastAccepted(g, steps, k);
            if last.Some? then
              k in h.users && h.users[k].idType == last.value.idType && h.users[k].roles == last.value.roles
            else
              && (k in h.users <==> k in g.users)
              && (k in g.users ==> h.users[k].idType == g.users[k].idType && h.users[k].roles == g.users[k].roles)
    decreases |steps|
  {
    if steps != [] {
      AttributesFollowLastEvent(Apply(g, steps[0]), steps[1..], k);
    }
  }

  // firstSeen -----------------------------------------------------------------------

  /** firstSeen is the earliest timestamp, for every user and every object. */
  ghost predicate UsersEarliest(g: Graph) {
    forall k, e :: k in g.users && e in g.performed && e.source == k ==> g.users[k].firstSeen <= e.ts
  }

  ghost predicate ObjectsEarliest(g: Graph) {
    forall k, e :: k in g.objects && e in g.performed && e.target == k ==> g.objects[k].firstSeen <= e.ts
  }

  /** The step is a write that is stored and reports an earlier time than the node's firstSeen. */
  predicate PredatesUser(g: Graph, s: Step) {
    s.WriteStep? && Accepts(g, s.event) && s.event.User() in g.users && s.event.ts < g.users[s.event.User()].firstSeen
  }

  predicate PredatesObject(g: Graph, s: Step) {
    s.WriteStep? && Accepts(g, s.event) && s.event.Object() in g.objects && s.event.ts < g.objects[s.event.Object()].firstSeen
  }

  /** Nodes and edges stay, and firstSeen never changes. */
  lemma FirstSeenFixed(g: Graph, s: Step)
    ensures var h := Apply(g, s);
            && (forall k :: k in g.users ==> k in h.users && h.users[k].firstSeen == g.users[k].firstSeen)
            && (forall k :: k in g.objects ==> k in h.objects && h.objects[k].firstSeen == g.objects[k].firstSeen)
            && (forall e :: e in g.performed ==> e in h.performed)
  {}

  /** Exactly those writes break it for users; once broken it stays broken. */
  lemma UsersEarliestExact(g: Graph, s: Step)
    requires Placed(g)
    ensures UsersEarliest(Apply(g, s)) <==> UsersEarliest(g) && !PredatesUser(g, s)
  {
    var h := Apply(g, s);
    FirstSeenFixed(g, s);
    assert s.WriteStep? && Accepts(g, s.event) ==> s.event.Performed() in h.performed;
    if UsersEarliest(h) {
      forall k, e | k in g.users && e in g.performed && e.source == k ensures g.users[k].firstSeen <= e.ts {
        assert e in h.performed;
      }
    }
    if UsersEarliest(g) && !PredatesUser(g, s) {
      forall k, e | k in h.users && e in h.performed && e.source == k ensures h.users[k].firstSeen <= e.ts {
        if e in g.performed { assert WellPlaced(g, e); }
      }
    }
  }

  lemma ObjectsEarliestExact(g: Graph, s: Step)
    requires Placed(g)
    ensures ObjectsEarliest(Apply(g, s)) <==> ObjectsEarliest(g) && !PredatesObject(g, s)
  {
    var h := Apply(g, s);
    FirstSeenFixed(g, s);
    assert s.WriteStep? && Accepts(g, s.event) ==> s.event.Performed() in h.performed;
    if ObjectsEarliest(h) {
      forall k, e | k in g.objects && e in g.performed && e.target == k ensures g.objects[k].firstSeen <= e.ts {
        assert e in h.performed;
      }
    }
    if ObjectsEarliest(g) && !PredatesObject(g, s) {
      forall k, e | k in h.objects && e in h.performed && e.target == k ensures h.objects[k].firstSeen <= e.ts {
        if e in g.performed { assert WellPlaced(g, e); }
      }
    }
  }

  /** No step of the run predates its user, or its object. */
  ghost predicate NonePredates(g: Graph, steps: seq<Step>)
    decreases |steps|
  {
    steps != [] ==> !PredatesUser(g, steps[0]) && !PredatesObject(g, steps[0]) && NonePredates(Apply(g, steps[0]), steps[1..])
  }

  lemma {:induction false} EarliestRunExact(g: Graph, steps: seq<Step>)
    requires Consistent(g)
    ensures UsersEarliest(Run(g, steps)) && ObjectsEarliest(Run(g, steps)) <==>
            UsersEarliest(g) && ObjectsEarliest(g) && NonePredates(g, steps)
    decreases |steps|
  {
    hide Apply, UsersEarliest, ObjectsEarliest, PredatesUser, PredatesObject;
    if steps != [] {
      StepKeepsConsistent(g, steps[0]);
      UsersEarliestExact(g, steps[0]);
      ObjectsEarliestExact(g, steps[0]);
      EarliestRunExact(Apply(g, steps[0]), steps[1..]);
    }
  }

  /** In a reachable store every firstSeen is the earliest time if and only if no stored event predated its user or its object. */
  lemma FirstSeenExact(steps: seq<Step>)
    ensures UsersEarliest(Run(Empty, steps)) && ObjectsEarliest(Run(Empty, steps)) <==> NonePredates(Empty, steps)
  {
    EarliestRunExact(Empty, steps);
  }
}
