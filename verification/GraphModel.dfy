/**
 The stored graph and the step relation of the three writing queries. One value
 of type Graph is one committed database state; each function below is what one
 committed transaction does to it.
*/
module GraphModel {
  import opened Options
  import opened Counting

  datatype UserKey = UserKey(tenant: string, app: string, native: string)
  datatype AppKey = AppKey(tenant: string, app: string, instance: string)
  datatype ObjectKey = ObjectKey(tenant: string, app: string, objectType: string, objectId: string)

  datatype IdType = Email | SsoSubject | AppNativeId | EmployeeId
  datatype Profile = Profile(text: string, generatedAt: int, version: int)

  datatype User = User(
    idType: IdType,
    canonical: Option<string>,
    roles: seq<string>,
    firstSeen: int,
    lastSeen: int,
    profile: Option<Profile>)

  datatype BusinessObject = BusinessObject(firstSeen: int, lastSeen: int)

  /** The properties of a PERFORMED edge that no query computes with. */
  datatype Details = Details(
    category: string,
    metadata: Option<string>,
    environment: string,
    sessionId: Option<string>,
    correlationId: Option<string>,
    device: Option<string>)

  /** A PERFORMED edge with its two end nodes. */
  datatype Edge = Edge(source: UserKey, target: ObjectKey, eventId: string, actionType: string, ts: int, details: Details)

  /** The properties of a SAME_PERSON edge. */
  datatype LinkInfo = LinkInfo(resolvedAt: int, confidence: real, how: string)

  datatype Graph = Graph(
    users: map<UserKey, User>,
    apps: set<AppKey>,
    belongsTo: set<(UserKey, AppKey)>,
    objects: map<ObjectKey, BusinessObject>,
    contains: set<(AppKey, ObjectKey)>,
    performed: seq<Edge>,
    samePerson: map<(UserKey, UserKey), LinkInfo>)

  const Empty := Graph(map[], {}, {}, map[], {}, [], map[])

  /** A validated event, as write_event unpacks it. Timestamps are microseconds. */
  datatype Event = Event(
    tenant: string,
    app: string,
    instance: string,
    native: string,
    idType: IdType,
    canonical: Option<string>,
    roles: seq<string>,
    objectType: string,
    objectId: string,
    eventId: string,
    actionType: string,
    ts: int,
    details: Details)
  {
    function User(): UserKey { UserKey(tenant, app, native) }
    function App(): AppKey { AppKey(tenant, app, instance) }
    function Object(): ObjectKey { ObjectKey(tenant, app, objectType, objectId) }
    function Performed(): Edge { Edge(User(), Object(), eventId, actionType, ts, details) }
  }

  function Later(a: int, b: int): int { if a > b then a else b }

  function MergedUsers(users: map<UserKey, User>, e: Event): map<UserKey, User> {
    var k := e.User();
    if k in users then
      var u := users[k];
      users[k := u.(idType := e.idType, canonical := Coalesce(e.canonical, u.canonical), roles := e.roles,
                    lastSeen := Later(e.ts, u.lastSeen))]
    else
      users[k := User(e.idType, e.canonical, e.roles, e.ts, e.ts, None)]
  }

  function MergedObjects(objects: map<ObjectKey, BusinessObject>, e: Event): map<ObjectKey, BusinessObject> {
    var k := e.Object();
    if k in objects then
      objects[k := objects[k].(lastSeen := Later(e.ts, objects[k].lastSeen))]
    else
      objects[k := BusinessObject(e.ts, e.ts)]
  }

  function EventIds(es: seq<Edge>): set<string> { set x | x in es :: x.eventId }

  /** The effect of a WRITE_EVENT transaction that commits. */
  function Commit(g: Graph, e: Event): Graph {
    g.(users := MergedUsers(g.users, e),
       apps := g.apps + {e.App()},
       belongsTo := g.belongsTo + {(e.User(), e.App())},
       objects := MergedObjects(g.objects, e),
       contains := g.contains + {(e.App(), e.Object())},
       performed := g.performed + [e.Performed()])
  }

  /** The edge says what the event says, field by field. */
  predicate Records(x: Edge, e: Event) {
    && x.source.tenant == e.tenant && x.source.app == e.app && x.source.native == e.native
    && x.target.tenant == e.tenant && x.target.app == e.app
    && x.target.objectType == e.objectType && x.target.objectId == e.objectId
    && x.eventId == e.eventId && x.actionType == e.actionType && x.ts == e.ts && x.details == e.details
  }

  /** The event's user, application and object are stored, and the application is joined to both. */
  predicate PlacesEnds(g: Graph, e: Event) {
    var user, app, object_ := UserKey(e.tenant, e.app, e.native), AppKey(e.tenant, e.app, e.instance), ObjectKey(e.tenant, e.app, e.objectType, e.objectId);
    user in g.users && app in g.apps && object_ in g.objects && (user, app) in g.belongsTo && (app, object_) in g.contains
  }

  /** The uniqueness constraint on eventId decides between commit and rollback. */
  predicate Accepts(g: Graph, e: Event) { e.eventId !in EventIds(g.performed) }

  function Write(g: Graph, e: Event): Graph { if Accepts(g, e) then Commit(g, e) else g }

  datatype LinkRequest = LinkRequest(
    tenant: string, userA: string, appA: string, userB: string, appB: string,
    how: string, confidence: real, now: int)
  {
    function A(): UserKey { UserKey(tenant, appA, userA) }
    function B(): UserKey { UserKey(tenant, appB, userB) }
  }

  function ChosenCanonical(users: map<UserKey, User>, l: LinkRequest): Option<string>
    requires l.A() in users && l.B() in users
  {
    Coalesce(users[l.A()].canonical, Coalesce(users[l.B()].canonical, Some(l.userA)))
  }

  /** LINK_IDENTITIES: no row, hence no effect, unless both user nodes exist. */
  function Link(g: Graph, l: LinkRequest): Graph {
    var a, b := l.A(), l.B();
    if a !in g.users || b !in g.users then g
    else
      var c := ChosenCanonical(g.users, l);
      var users := g.users[a := g.users[a].(canonical := c)];
      g.(users := users[b := users[b].(canonical := c)],
         samePerson := g.samePerson[(a, b) := LinkInfo(l.now, l.confidence, l.how)])
  }

  /** UPDATE_USER_PROFILE: every node of the native id in the tenant. */
  function SetProfile(g: Graph, tenant: string, native: string, p: Profile): Graph {
    g.(users := map k | k in g.users ::
                  if k.tenant == tenant && k.native == native then g.users[k].(profile := Some(p)) else g.users[k])
  }

  datatype Step =
    | WriteStep(event: Event)
    | LinkStep(link: LinkRequest)
    | ProfileStep(tenant: string, native: string, profile: Profile)
  {
    function Tenant(): string {
      match this
      case WriteStep(e) => e.tenant
      case LinkStep(l) => l.tenant
      case ProfileStep(t, _, _) => t
    }
  }

  function Apply(g: Graph, s: Step): Graph {
    match s
    case WriteStep(e) => Write(g, e)
    case LinkStep(l) => Link(g, l)
    case ProfileStep(t, u, p) => SetProfile(g, t, u, p)
  }

  function Run(g: Graph, steps: seq<Step>): Graph
    decreases |steps|
  {
    if steps == [] then g else Run(Apply(g, steps[0]), steps[1..])
  }

  lemma {:induction false} RunConcat(g: Graph, a: seq<Step>, b: seq<Step>)
    ensures Run(g, a + b) == Run(Run(g, a), b)
    decreases |a|
  {
    if a == [] {
      assert a + b == b;
    } else {
      assert (a + b)[1..] == a[1..] + b;
      RunConcat(Apply(g, a[0]), a[1..], b);
    }
  }

  // Reads --------------------------------------------------------------------

  /** ACTIVE_USERS, as a set: the query removes duplicates. */
  function ActiveUsers(g: Graph, tenant: string, cutoff: int): set<string> {
    set k | k in g.users && k.tenant == tenant && g.users[k].lastSeen >= cutoff :: k.native
  }

  /** The nodes CANONICAL_USER_ID may answer from; LIMIT 1 picks any of them. */
  function CanonicalChoices(g: Graph, tenant: string, native: string): set<Option<string>> {
    set k | k in g.users && k.tenant == tenant && k.native == native && g.users[k].canonical.Some? :: g.users[k].canonical
  }

  predicate IsCanonicalAnswer(g: Graph, tenant: string, native: string, c: Option<string>) {
    if CanonicalChoices(g, tenant, native) == {} then c == None else c in CanonicalChoices(g, tenant, native)
  }

  /** The profiles GET_USER_PROFILE may answer from. */
  function ProfileChoices(g: Graph, tenant: string, native: string): set<Profile> {
    set k | k in g.users && k.tenant == tenant && k.native == native && g.users[k].profile.Some? ::
      g.users[k].profile.value
  }

  function NativeSince(tenant: string, native: string, cutoff: int): Edge -> bool {
    (e: Edge) => e.source.tenant == tenant && e.source.native == native && e.ts >= cutoff
  }

  function NativeEdges(es: seq<Edge>, tenant: string, native: string, cutoff: int): seq<Edge> {
    Filter(es, NativeSince(tenant, native, cutoff))
  }

  predicate HasCanonical(users: map<UserKey, User>, k: UserKey, tenant: string, c: string) {
    k in users && k.tenant == tenant && users[k].canonical == Some(c)
  }

  function CanonicalSince(users: map<UserKey, User>, tenant: string, c: string, cutoff: int): Edge -> bool {
    (e: Edge) => HasCanonical(users, e.source, tenant, c) && e.ts >= cutoff
  }

  function CanonicalEdges(es: seq<Edge>, users: map<UserKey, User>, tenant: string, c: string, cutoff: int): seq<Edge> {
    Filter(es, CanonicalSince(users, tenant, c, cutoff))
  }

  function OfNative(tenant: string, native: string): Edge -> bool {
    (e: Edge) => e.source.tenant == tenant && e.source.native == native
  }

  /** USER_EVENT_COUNT. */
  function EventCount(es: seq<Edge>, tenant: string, native: string): nat { Count(es, OfNative(tenant, native)) }

  predicate NewestFirst(rows: seq<Edge>) {
    forall i, j :: 0 <= i < j < |rows| ==> rows[i].ts >= rows[j].ts
  }

  /** A history answer: the matching edges, newest first, equal timestamps in any order. */
  predicate IsHistory(rows: seq<Edge>, matching: seq<Edge>) {
    multiset(rows) == multiset(matching) && NewestFirst(rows)
  }
}
