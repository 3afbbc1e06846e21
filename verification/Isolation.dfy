/**
 Tenant non-interference over runs. The event-id constraint is the one part of
 the store that is not scoped to a tenant; the main theorem says exactly when
 that shows.
*/
module Isolation {
  import opened Counting
  import opened GraphModel
  import opened Coherence

  function StartsIn(t: string): Edge -> bool { (e: Edge) => e.source.tenant == t }

  /** The edges that start at a user of the tenant. */
  function OfTenant(es: seq<Edge>, t: string): seq<Edge> { Filter(es, StartsIn(t)) }

  function UsersOf(users: map<UserKey, User>, t: string): map<UserKey, User> {
    map k | k in users && k.tenant == t :: users[k]
  }

  function ObjectsOf(objects: map<ObjectKey, BusinessObject>, t: string): map<ObjectKey, BusinessObject> {
    map k | k in objects && k.tenant == t :: objects[k]
  }

  function AppsOf(apps: set<AppKey>, t: string): set<AppKey> { set a | a in apps && a.tenant == t }

  function BelongsOf(ps: set<(UserKey, AppKey)>, t: string): set<(UserKey, AppKey)> {
    set p | p in ps && p.0.tenant == t
  }

  function ContainsOf(ps: set<(AppKey, ObjectKey)>, t: string): set<(AppKey, ObjectKey)> {
    set p | p in ps && p.0.tenant == t
  }

  function LinksOf(m: map<(UserKey, UserKey), LinkInfo>, t: string): map<(UserKey, UserKey), LinkInfo> {
    map p | p in m && p.0.tenant == t :: m[p]
  }

  /** Tenant t's part of the store. */
  function Part(g: Graph, t: string): Graph {
    Graph(UsersOf(g.users, t), AppsOf(g.apps, t), BelongsOf(g.belongsTo, t), ObjectsOf(g.objects, t),
          ContainsOf(g.contains, t), OfTenant(g.performed, t), LinksOf(g.samePerson, t))
  }

  /** Tenant t's own steps. */
  function Own(steps: seq<Step>, t: string): seq<Step> {
    if steps == [] then [] else (if steps[0].Tenant() == t then [steps[0]] else []) + Own(steps[1..], t)
  }

  /** What tenant t is told: for each of its writes, whether it was stored or a duplicate. */
  function Answer(g: Graph, s: Step, t: string): seq<bool> {
    if s.WriteStep? && s.event.tenant == t then [Accepts(g, s.event)] else []
  }

  function Answers(g: Graph, steps: seq<Step>, t: string): seq<bool>
    decreases |steps|
  {
    if steps == [] then [] else Answer(g, steps[0], t) + Answers(Apply(g, steps[0]), steps[1..], t)
  }

  /** The step writes an event id that another tenant's edge already carries. */
  ghost predicate Clashes(g: Graph, s: Step) {
    s.WriteStep? && exists x :: x in g.performed && x.eventId == s.event.eventId && x.source.tenant != s.event.tenant
  }

  /** A write is answered in the whole store as in the tenant's part exactly when no other tenant holds the id. */
  lemma AcceptsInPart(g: Graph, e: Event)
    requires UniqueIds(g.performed)
    ensures Accepts(g, e) == Accepts(Part(g, e.tenant), e) <==> !Clashes(g, WriteStep(e))
  {
    FilterMembers(g.performed, StartsIn(e.tenant));
    if x :| x in g.performed && x.eventId == e.eventId && x.source.tenant != e.tenant {
      forall y | y in g.performed && y.eventId == e.eventId ensures y == x {
        SameIdSameEdge(g.performed, x, y);
      }
    }
  }

  lemma MergedInPart(users: map<UserKey, User>, objects: map<ObjectKey, BusinessObject>, e: Event, t: string)
    ensures UsersOf(MergedUsers(users, e), t) == if t == e.tenant then MergedUsers(UsersOf(users, t), e) else UsersOf(users, t)
    ensures ObjectsOf(MergedObjects(objects, e), t) ==
            if t == e.tenant then MergedObjects(ObjectsOf(objects, t), e) else ObjectsOf(objects, t)
  {}

  lemma CommitInPart(g: Graph, e: Event, t: string)
    ensures Part(Commit(g, e), t) == if t == e.tenant then Commit(Part(g, t), e) else Part(g, t)
  {
    var es := g.performed + [e.Performed()];
    MergedInPart(g.users, g.objects, e, t);
    FilterSnoc(g.performed, e.Performed(), StartsIn(t));
    if t == e.tenant {
      assert AppsOf(g.apps + {e.App()}, t) == AppsOf(g.apps, t) + {e.App()};
      assert BelongsOf(g.belongsTo + {(e.User(), e.App())}, t) == BelongsOf(g.belongsTo, t) + {(e.User(), e.App())};
      assert ContainsOf(g.contains + {(e.App(), e.Object())}, t) == ContainsOf(g.contains, t) + {(e.App(), e.Object())};
    } else {
      assert AppsOf(g.apps + {e.App()}, t) == AppsOf(g.apps, t);
      assert BelongsOf(g.belongsTo + {(e.User(), e.App())}, t) == BelongsOf(g.belongsTo, t);
      assert ContainsOf(g.contains + {(e.App(), e.Object())}, t) == ContainsOf(g.contains, t);
    }
  }

  lemma UpdateInPart(users: map<UserKey, User>, k: UserKey, u: User, t: string)
    ensures UsersOf(users[k := u], t) == if k.tenant == t then UsersOf(users, t)[k := u] else UsersOf(users, t)
  {}

  lemma LinkInPart(g: Graph, l: LinkRequest, t: string)
    ensures Part(Link(g, l), t) == if t == l.tenant then Link(Part(g, t), l) else Part(g, t)
  {
    var a, b := l.A(), l.B();
    if a in g.users && b in g.users {
      var c := ChosenCanonical(g.users, l);
      var users := g.users[a := g.users[a].(canonical := c)];
      UpdateInPart(g.users, a, g.users[a].(canonical := c), t);
      UpdateInPart(users, b, users[b].(canonical := c), t);
      var info := LinkInfo(l.now, l.confidence, l.how);
      assert LinksOf(g.samePerson[(a, b) := info], t) ==
             if t == l.tenant then LinksOf(g.samePerson, t)[(a, b) := info] else LinksOf(g.samePerson, t);
    }
  }

  lemma ProfileInPart(g: Graph, tenant: string, native: string, pr: Profile, t: string)
    ensures t == tenant ==> Part(SetProfile(g, tenant, native, pr), t) == SetProfile(Part(g, t), tenant, native, pr)
    ensures t != tenant ==> Part(SetProfile(g, tenant, native, pr), t) == Part(g, t)
  {
    var q := Part(SetProfile(g, tenant, native, pr), t);
    if t == tenant {
      assert q.users == SetProfile(Part(g, t), tenant, native, pr).users;
    } else {
      assert q.users == Part(g, t).users;
    }
  }

  /** A step never touches another tenant's part, whatever ids it uses. */
  lemma OtherPartsUntouched(g: Graph, s: Step, t: string)
    requires s.Tenant() != t
    ensures Part(Apply(g, s), t) == Part(g, t)
  {
    match s
    case WriteStep(e) => CommitInPart(g, e, t);
    case LinkStep(l) => LinkInPart(g, l, t);
    case ProfileStep(u, n, p) => ProfileInPart(g, u, n, p, t);
  }

  lemma OwnPartAdvances(g: Graph, s: Step, t: string)
    requires UniqueIds(g.performed) && s.Tenant() == t && !Clashes(g, s)
    ensures Part(Apply(g, s), t) == Apply(Part(g, t), s)
    ensures Answer(g, s, t) == Answer(Part(g, t), s, t)
  {
    match s
    case WriteStep(e) => CommitInPart(g, e, t); AcceptsInPart(g, e);
    case LinkStep(l) => LinkInPart(g, l, t);
    case ProfileStep(u, n, p) => ProfileInPart(g, u, n, p, t);
  }

  // Runs ----------------------------------------------------------------------

  predicate WriteSameId(a: Step, b: Step) {
    a.WriteStep? && b.WriteStep? && a.event.eventId == b.event.eventId
  }

  /** No two writes of different tenants use one event id. */
  ghost predicate NoSharedIds(steps: seq<Step>) {
    forall i, j :: 0 <= i < j < |steps| && WriteSameId(steps[i], steps[j]) ==>
      steps[i].event.tenant == steps[j].event.tenant
  }

  /** No write uses an event id stored for another tenant. */
  ghost predicate ClearOf(g: Graph, steps: seq<Step>) {
    forall i :: 0 <= i < |steps| ==> !Clashes(g, steps[i])
  }

  /** Tenant t sees the run as if it were alone. */
  ghost predicate SeesOnlyItself(g: Graph, steps: seq<Step>, t: string) {
    && Part(Run(g, steps), t) == Run(Part(g, t), Own(steps, t))
    && Answers(g, steps, t) == Answers(Part(g, t), Own(steps, t), t)
  }

  lemma OwnHead(steps: seq<Step>, t: string)
    requires steps != []
    ensures steps[0].Tenant() == t ==> Own(steps, t) != [] && Own(steps, t)[0] == steps[0] && Own(steps, t)[1..] == Own(steps[1..], t)
    ensures steps[0].Tenant() != t ==> Own(steps, t) == Own(steps[1..], t)
  {}

  lemma ClearAfterStep(g: Graph, steps: seq<Step>)
    requires steps != [] && NoSharedIds(steps) && ClearOf(g, steps)
    ensures NoSharedIds(steps[1..]) && ClearOf(Apply(g, steps[0]), steps[1..])
  {
    var s, rest := steps[0], steps[1..];
    var h := Apply(g, s);
    forall i | 0 <= i < |rest| ensures !Clashes(h, rest[i]) {
      assert rest[i] == steps[i + 1];
      assert !Clashes(g, steps[i + 1]);
      if rest[i].WriteStep? {
        forall x | x in h.performed && x.eventId == rest[i].event.eventId
          ensures x.source.tenant == rest[i].event.tenant
        {
          if x !in g.performed {
            assert s.WriteStep? && x == s.event.Performed();
          }
        }
      }
    }
  }

  lemma {:induction false} UnsharedRunsAreIsolated(g: Graph, steps: seq<Step>, t: string)
    requires UniqueIds(g.performed) && NoSharedIds(steps) && ClearOf(g, steps)
    ensures SeesOnlyItself(g, steps, t)
    decreases |steps|
  {
    if steps != [] {
      var s := steps[0];
      UniqueAfterStep(g, s);
      ClearAfterStep(g, steps);
      assert !Clashes(g, s);
      OwnHead(steps, t);
      UnsharedRunsAreIsolated(Apply(g, s), steps[1..], t);
      if s.Tenant() == t {
        OwnPartAdvances(g, s, t);
      } else {
        OtherPartsUntouched(g, s, t);
      }
    }
  }

  lemma UniqueAfterStep(g: Graph, s: Step)
    requires UniqueIds(g.performed)
    ensures UniqueIds(Apply(g, s).performed)
  {
    if s.WriteStep? && Accepts(g, s.event) { CommitKeepsUnique(g, s.event); }
  }

  /** The step at which a shared id is noticed tells its tenant something the tenant alone would not see. */
  lemma {:induction false} SharedIdShows(g: Graph, steps: seq<Step>) returns (t: string)
    requires UniqueIds(g.performed)
    requires !(NoSharedIds(steps) && ClearOf(g, steps))
    ensures Answers(g, steps, t) != Answers(Part(g, t), Own(steps, t), t)
    decreases |steps|
  {
    var s, rest := steps[0], steps[1..];
    if Clashes(g, s) {
      t := s.event.tenant;
      OwnHead(steps, t);
      AcceptsInPart(g, s.event);
      assert Answers(g, steps, t)[0] != Answers(Part(g, t), Own(steps, t), t)[0];
    } else {
      StillShared(g, steps);
      UniqueAfterStep(g, s);
      t := SharedIdShows(Apply(g, s), rest);
      OwnHead(steps, t);
      if s.Tenant() == t {
        OwnPartAdvances(g, s, t);
        AnswersSplit(g, steps, t);
        AnswersSplit(Part(g, t), Own(steps, t), t);
      } else {
        OtherPartsUntouched(g, s, t);
        assert Answers(g, steps, t) == Answers(Apply(g, s), rest, t);
      }
    }
  }

  lemma AnswersSplit(g: Graph, steps: seq<Step>, t: string)
    requires steps != []
    ensures Answers(g, steps, t)[|Answer(g, steps[0], t)|..] == Answers(Apply(g, steps[0]), steps[1..], t)
  {}

  /** A shared id that the first step does not trip over stays visible to the rest of the run. */
  lemma StillShared(g: Graph, steps: seq<Step>)
    requires steps != [] && !Clashes(g, steps[0])
    ensures NoSharedIds(steps[1..]) && ClearOf(Apply(g, steps[0]), steps[1..]) ==>
            NoSharedIds(steps) && ClearOf(g, steps)
  {
    var s, rest := steps[0], steps[1..];
    var h := Apply(g, s);
    if NoSharedIds(rest) && ClearOf(h, rest) {
      forall i | 0 <= i < |steps| ensures !Clashes(g, steps[i]) {
        if i > 0 {
          assert steps[i] == rest[i - 1];
          ClashSurvives(g, s, steps[i]);
        }
      }
      forall i, j | 0 <= i < j < |steps| && WriteSameId(steps[i], steps[j])
        ensures steps[i].event.tenant == steps[j].event.tenant
      {
        assert steps[j] == rest[j - 1] && !Clashes(h, rest[j - 1]);
        if i > 0 {
          assert steps[i] == rest[i - 1];
        } else {
          StoredAfterWrite(g, s.event);
        }
      }
    }
  }

  lemma ClashSurvives(g: Graph, s: Step, w: Step)
    ensures Clashes(g, w) ==> Clashes(Apply(g, s), w)
  {
    assert forall x :: x in g.performed ==> x in Apply(g, s).performed;
  }

  lemma StoredAfterWrite(g: Graph, e: Event)
    requires !Clashes(g, WriteStep(e))
    ensures exists x :: x in Write(g, e).performed && x.eventId == e.eventId && x.source.tenant == e.tenant
  {
    if Accepts(g, e) {
      assert e.Performed() in Write(g, e).performed;
    } else {
      var x :| x in g.performed && x.eventId == e.eventId;
      assert x in Write(g, e).performed;
    }
  }

  /**
   Main result. From the empty store every tenant sees only itself, in its data
   and in its answers, if and only if no event id is written by two tenants.
  */
  lemma NonInterference(steps: seq<Step>)
    ensures (forall t :: SeesOnlyItself(Empty, steps, t)) <==> NoSharedIds(steps)
  {
    forall t ensures Part(Empty, t) == Empty {}
    assert ClearOf(Empty, steps);
    if NoSharedIds(steps) {
      forall t ensures SeesOnlyItself(Empty, steps, t) {
        UnsharedRunsAreIsolated(Empty, steps, t);
      }
    } else {
      var t := SharedIdShows(Empty, steps);
      assert !SeesOnlyItself(Empty, steps, t);
    }
  }

  /** Without any condition, the other tenants' parts never change: only answers can leak. */
  lemma {:induction false} ForeignStepsInvisible(g: Graph, steps: seq<Step>, t: string)
    requires forall i :: 0 <= i < |steps| ==> steps[i].Tenant() != t
    ensures Part(Run(g, steps), t) == Part(g, t)
    decreases |steps|
  {
    if steps != [] {
      OtherPartsUntouched(g, steps[0], t);
      ForeignStepsInvisible(Apply(g, steps[0]), steps[1..], t);
    }
  }

  /** Every read answers from the tenant's own part. */
  lemma ReadsStayInPart(g: Graph, t: string, native: string, c: string, cutoff: int)
    ensures ActiveUsers(g, t, cutoff) == ActiveUsers(Part(g, t), t, cutoff)
    ensures CanonicalChoices(g, t, native) == CanonicalChoices(Part(g, t), t, native)
    ensures ProfileChoices(g, t, native) == ProfileChoices(Part(g, t), t, native)
    ensures NativeEdges(g.performed, t, native, cutoff) == NativeEdges(Part(g, t).performed, t, native, cutoff)
    ensures CanonicalEdges(g.performed, g.users, t, c, cutoff) ==
            CanonicalEdges(Part(g, t).performed, Part(g, t).users, t, c, cutoff)
    ensures EventCount(g.performed, t, native) == EventCount(Part(g, t).performed, t, native)
  {
    var es, own := g.performed, Part(g, t).users;
    FilterTwice(es, StartsIn(t), NativeSince(t, native, cutoff));
    FilterTwice(es, StartsIn(t), CanonicalSince(own, t, c, cutoff));
    FilterSame(es, CanonicalSince(own, t, c, cutoff), CanonicalSince(g.users, t, c, cutoff));
    FilterTwice(es, StartsIn(t), OfNative(t, native));
    CountIsFilter(es, OfNative(t, native));
    CountIsFilter(OfTenant(es, t), OfNative(t, native));
  }
}
