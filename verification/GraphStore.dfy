/**
 The tenant-scoped store object. Its fields are the committed database; every
 method is one managed transaction, proved against the step relation in Graph.
*/
module GraphStores {
  import opened Options
  import opened GraphModel
  import opened Sorting
  import opened Counting

  /** Newest first: the sort by descending timestamp. */
  function Newest(e: Edge): real { -(e.ts as real) }

  /** Strings compare character by character. */
  predicate Less(a: string, b: string) {
    b != [] && (a == [] || a[0] < b[0] || (a[0] == b[0] && Less(a[1..], b[1..])))
  }

  lemma {:induction false} LessTotal(a: string, b: string)
    ensures a == b || Less(a, b) || Less(b, a)
    ensures !Less(a, a)
  {
    if a != [] {
      LessTotal(a[1..], if b == [] then [] else b[1..]);
      if b != [] && a[0] == b[0] {
        assert a == [a[0]] + a[1..] && b == [b[0]] + b[1..];
      }
    }
  }

  lemma {:induction false} LessTransitive(a: string, b: string, c: string)
    requires Less(a, b) && Less(b, c)
    ensures Less(a, c)
  {
    if a != [] && a[0] == b[0] == c[0] { LessTransitive(a[1..], b[1..], c[1..]); }
  }

  ghost predicate InOrder(ids: seq<string>) { forall i, j :: 0 <= i < j < |ids| ==> Less(ids[i], ids[j]) }

  lemma InOrderDistinct(ids: seq<string>)
    requires InOrder(ids)
    ensures forall i, j :: 0 <= i < j < |ids| ==> ids[i] != ids[j]
  {
    forall i, j | 0 <= i < j < |ids| ensures ids[i] != ids[j] { LessTotal(ids[i], ids[i]); }
  }

  /** An id goes before the first one that is not less. */
  lemma InsertInOrder(ids: seq<string>, i: nat, id: string)
    requires InOrder(ids) && i <= |ids| && id !in ids
    requires (forall j :: 0 <= j < i ==> Less(ids[j], id)) && (i < |ids| ==> !Less(ids[i], id))
    ensures InOrder(ids[..i] + [id] + ids[i..])
  {
    hide Less;
    forall j | i <= j < |ids| ensures Less(id, ids[j]) {
      LessTotal(id, ids[i]);
      if i < j { LessTransitive(id, ids[i], ids[j]); }
    }
  }

  lemma SortedHistory(rows: seq<Edge>)
    ensures IsHistory(SortBy(rows, Newest), rows)
    ensures forall e :: e in SortBy(rows, Newest) <==> e in rows
  {
    hide SortBy;
    SortPermutes(rows, Newest);
    SortAscending(rows, Newest);
    var sorted := SortBy(rows, Newest);
    forall i, j | 0 <= i < j < |sorted| ensures sorted[i].ts >= sorted[j].ts { assert Newest(sorted[i]) <= Newest(sorted[j]); }
    assert forall e :: e in sorted <==> e in multiset(sorted);
    assert forall e :: e in rows <==> e in multiset(rows);
  }

  class GraphStore {
    var users: map<UserKey, User>
    var apps: set<AppKey>
    var belongsTo: set<(UserKey, AppKey)>
    var objects: map<ObjectKey, BusinessObject>
    var contains: set<(AppKey, ObjectKey)>
    var performed: seq<Edge>
    var samePerson: map<(UserKey, UserKey), LinkInfo>

    function State(): Graph
      reads this
    {
      Graph(users, apps, belongsTo, objects, contains, performed, samePerson)
    }

    constructor ()
      ensures State() == Empty
    {
      users, apps, belongsTo, objects := map[], {}, {}, map[];
      contains, performed, samePerson := {}, [], map[];
    }

    method Restore(g: Graph)
      modifies this
      ensures State() == g
    {
      users, apps, belongsTo, objects := g.users, g.apps, g.belongsTo, g.objects;
      contains, performed, samePerson := g.contains, g.performed, g.samePerson;
    }

    method MergeUser(e: Event)
      modifies this`users
      ensures users == MergedUsers(old(users), e)
      ensures users.Keys == old(users.Keys) + {e.User()}
      ensures forall k :: k in old(users) && k != e.User() ==> users[k] == old(users)[k]
      ensures users[e.User()].idType == e.idType && users[e.User()].roles == e.roles
      ensures e.canonical.Some? ==> users[e.User()].canonical == e.canonical
      ensures if e.User() in old(users) then
                var u, v := old(users)[e.User()], users[e.User()];
                && v.firstSeen == u.firstSeen && v.profile == u.profile
                && v.lastSeen >= u.lastSeen && v.lastSeen >= e.ts && (v.lastSeen == u.lastSeen || v.lastSeen == e.ts)
                && (e.canonical.None? ==> v.canonical == u.canonical)
              else
                var v := users[e.User()]; v.firstSeen == v.lastSeen == e.ts && v.profile == None
    {
      var k := e.User();
      if k in users {
        var u := users[k];
        u := u.(idType := e.idType, canonical := Coalesce(e.canonical, u.canonical), roles := e.roles);
        if e.ts > u.lastSeen {
          u := u.(lastSeen := e.ts);
        }
        users := users[k := u];
      } else {
        users := users[k := User(e.idType, e.canonical, e.roles, e.ts, e.ts, None)];
      }
    }

    method MergeObject(e: Event)
      modifies this`objects
      ensures objects == MergedObjects(old(objects), e)
      ensures objects.Keys == old(objects.Keys) + {e.Object()}
      ensures forall k :: k in old(objects) && k != e.Object() ==> objects[k] == old(objects)[k]
      ensures if e.Object() in old(objects) then
                var o, q := old(objects)[e.Object()], objects[e.Object()];
                && q.firstSeen == o.firstSeen
                && q.lastSeen >= o.lastSeen && q.lastSeen >= e.ts && (q.lastSeen == o.lastSeen || q.lastSeen == e.ts)
              else objects[e.Object()] == BusinessObject(e.ts, e.ts)
    {
      var k := e.Object();
      if k in objects {
        if e.ts > objects[k].lastSeen {
          objects := objects[k := objects[k].(lastSeen := e.ts)];
        }
      } else {
        objects := objects[k := BusinessObject(e.ts, e.ts)];
      }
    }

    /** All of the transaction's merges run first; the constraint then commits or rolls back. */
    method WriteEvent(e: Event) returns (accepted: bool)
      modifies this
      ensures accepted == Accepts(old(State()), e)
      ensures State() == Write(old(State()), e)
      ensures !accepted ==> State() == old(State())
      ensures accepted <==> forall x :: x in old(performed) ==> x.eventId != e.eventId
      ensures accepted ==> |performed| == |old(performed)| + 1 && performed[..|old(performed)|] == old(performed)
      ensures accepted ==> Records(performed[|old(performed)|], e)
      ensures accepted ==> PlacesEnds(State(), e)
    {
      var snapshot := State();
      MergeUser(e);
      apps := apps + {e.App()};
      belongsTo := belongsTo + {(e.User(), e.App())};
      MergeObject(e);
      contains := contains + {(e.App(), e.Object())};
      accepted := forall x | x in performed :: x.eventId != e.eventId;
      performed := performed + [e.Performed()];
      if !accepted {
        Restore(snapshot);
      }
    }

    method LinkIdentities(l: LinkRequest)
      modifies this
      ensures State() == Link(old(State()), l)
      ensures var a, b := UserKey(l.tenant, l.appA, l.userA), UserKey(l.tenant, l.appB, l.userB);
              if a in old(users) && b in old(users) then
                var x, y := old(users)[a].canonical, old(users)[b].canonical;
                && (a, b) in samePerson && samePerson[(a, b)] == LinkInfo(l.now, l.confidence, l.how)
                && users.Keys == old(users.Keys)
                && users[a].canonical == users[b].canonical == (if x.Some? then x else if y.Some? then y else Some(l.userA))
                && forall k :: k in users && k != a && k != b ==> users[k] == old(users)[k]
              else State() == old(State())
    {
      var a, b := l.A(), l.B();
      if a in users && b in users {
        samePerson := samePerson[(a, b) := LinkInfo(l.now, l.confidence, l.how)];
        users := users[a := users[a].(canonical :=
                   Coalesce(users[a].canonical, Coalesce(users[b].canonical, Some(a.native))))];
        users := users[b := users[b].(canonical := users[a].canonical)];
      }
    }

    method UpdateUserProfile(tenant: string, native: string, text: string, version: int, now: int)
      modifies this`users
      ensures State() == SetProfile(old(State()), tenant, native, Profile(text, now, version))
      ensures users.Keys == old(users.Keys)
      ensures forall k :: k in users ==>
        users[k] == if k.tenant == tenant && k.native == native then old(users)[k].(profile := Some(Profile(text, now, version))) else old(users)[k]
    {
      var p := Profile(text, now, version);
      var todo := users.Keys;
      while todo != {}
        invariant todo <= users.Keys == old(users).Keys
        invariant forall k :: k in todo ==> users[k] == old(users)[k]
        invariant forall k :: k in users && k !in todo ==>
          users[k] == SetProfile(old(State()), tenant, native, p).users[k]
      {
        var k :| k in todo;
        if k.tenant == tenant && k.native == native {
          users := users[k := users[k].(profile := Some(p))];
        }
        todo := todo - {k};
      }
    }

    method Perform(s: Step)
      modifies this
      ensures State() == Apply(old(State()), s)
    {
      match s
      case WriteStep(e) => var _ := WriteEvent(e);
      case LinkStep(l) => LinkIdentities(l);
      case ProfileStep(t, u, p) => UpdateUserProfile(t, u, p.text, p.version, p.generatedAt);
    }

    method GetUserHistory(tenant: string, native: string, cutoff: int) returns (rows: seq<Edge>)
      ensures IsHistory(rows, NativeEdges(performed, tenant, native, cutoff))
      ensures forall e :: e in rows <==> e in performed && e.source.tenant == tenant && e.source.native == native && e.ts >= cutoff
    {
      rows := [];
      for i := 0 to |performed|
        invariant rows == NativeEdges(performed[..i], tenant, native, cutoff)
      {
        var e := performed[i];
        assert performed[..i + 1][..i] == performed[..i];
        if e.source.tenant == tenant && e.source.native == native && e.ts >= cutoff {
          rows := rows + [e];
        }
      }
      assert performed[..|performed|] == performed;
      FilterMembers(performed, NativeSince(tenant, native, cutoff));
      SortedHistory(rows);
      rows := SortBy(rows, Newest);
    }

    method GetCrossAppHistory(tenant: string, canonical: string, cutoff: int) returns (rows: seq<Edge>)
      ensures IsHistory(rows, CanonicalEdges(performed, users, tenant, canonical, cutoff))
      ensures forall e :: e in rows <==>
        && e in performed && e.ts >= cutoff
        && e.source in users && e.source.tenant == tenant && users[e.source].canonical == Some(canonical)
    {
      rows := [];
      for i := 0 to |performed|
        invariant rows == CanonicalEdges(performed[..i], users, tenant, canonical, cutoff)
      {
        var e := performed[i];
        assert performed[..i + 1][..i] == performed[..i];
        if HasCanonical(users, e.source, tenant, canonical) && e.ts >= cutoff {
          rows := rows + [e];
        }
      }
      assert performed[..|performed|] == performed;
      FilterMembers(performed, CanonicalSince(users, tenant, canonical, cutoff));
      SortedHistory(rows);
      rows := SortBy(rows, Newest);
    }

    method GetUserEventCount(tenant: string, native: string) returns (count: nat)
      ensures count == EventCount(performed, tenant, native)
    {
      count := 0;
      for i := 0 to |performed|
        invariant count == EventCount(performed[..i], tenant, native)
      {
        var e := performed[i];
        assert performed[..i + 1][..i] == performed[..i];
        if e.source.tenant == tenant && e.source.native == native {
          count := count + 1;
        }
      }
      assert performed[..|performed|] == performed;
    }

    method GetCanonicalUserId(tenant: string, native: string) returns (c: Option<string>)
      ensures IsCanonicalAnswer(State(), tenant, native, c)
      ensures c.Some? ==> exists k :: k in users && k.tenant == tenant && k.native == native && users[k].canonical == c
      ensures c.None? ==> forall k :: k in users && k.tenant == tenant && k.native == native ==> users[k].canonical.None?
    {
      var choices := CanonicalChoices(State(), tenant, native);
      assert forall k :: k in users && k.tenant == tenant && k.native == native && users[k].canonical.Some? ==> users[k].canonical in choices;
      if choices == {} {
        c := None;
      } else {
        c :| c in choices;
      }
    }

    method GetUserProfile(tenant: string, native: string) returns (p: Option<Profile>)
      ensures p.None? <==> ProfileChoices(State(), tenant, native) == {}
      ensures p.Some? ==> p.value in ProfileChoices(State(), tenant, native)
      ensures p.Some? ==> exists k :: k in users && k.tenant == tenant && k.native == native && users[k].profile == p
      ensures p.None? ==> forall k :: k in users && k.tenant == tenant && k.native == native ==> users[k].profile.None?
    {
      var choices := ProfileChoices(State(), tenant, native);
      assert forall k :: k in users && k.tenant == tenant && k.native == native && users[k].profile.Some? ==> users[k].profile.value in choices;
      if choices == {} {
        p := None;
      } else {
        var x :| x in choices;
        p := Some(x);
      }
    }

    /** The distinct active native ids, in order. */
    method GetActiveUsers(tenant: string, cutoff: int) returns (ids: seq<string>)
      ensures InOrder(ids)
      ensures forall i, j :: 0 <= i < j < |ids| ==> ids[i] != ids[j]
      ensures forall id :: id in ids <==> id in ActiveUsers(State(), tenant, cutoff)
    {
      ids := [];
      var todo := ActiveUsers(State(), tenant, cutoff);
      while todo != {}
        invariant InOrder(ids)
        invariant forall id :: id in ids ==> id !in todo
        invariant forall id :: id in ids || id in todo <==> id in ActiveUsers(State(), tenant, cutoff)
      {
        var id :| id in todo;
        var i := 0;
        while i < |ids| && Less(ids[i], id)
          invariant i <= |ids| && forall j :: 0 <= j < i ==> Less(ids[j], id)
        {
          i := i + 1;
        }
        InsertInOrder(ids, i, id);
        ids := ids[..i] + [id] + ids[i..];
        todo := todo - {id};
      }
      InOrderDistinct(ids);
    }
  }
}
