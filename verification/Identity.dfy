/**
 Cross-application identity: what a canonical id says about the users that hold
 it (soundness), and which users of one person it reaches (completeness).
*/
module Identity {
  import opened Options
  import opened Text
  import opened GraphModel
  import opened Coherence
  import opened Counting
  import opened GraphStores

  datatype AppIdentity = AppIdentity(native: string, app: string, idType: IdType)

  function NormalizeEmail(email: string): string { Lower(Strip(email)) }

  function MatchMethod(a: AppIdentity, b: AppIdentity): Option<string> {
    if a.idType != b.idType then None
    else if a.idType != Email && a.idType != SsoSubject then None
    else if a.idType == Email then
      if NormalizeEmail(a.native) == NormalizeEmail(b.native) then Some("exact_email_match") else None
    else if a.native == b.native then Some("exact_sso_match")
    else None
  }

  function RequestFor(tenant: string, a: AppIdentity, b: AppIdentity, how: string, now: int): LinkRequest {
    LinkRequest(tenant, a.native, a.app, b.native, b.app, how, 1.0, now)
  }

  /** The same e-mail address: equal up to ASCII case once outer whitespace is dropped. */
  ghost predicate SameEmail(x: string, y: string) {
    exists x1: string, core: string, x2: string, y1: string, other: string, y2: string ::
      Trimmed(x, x1, core, x2) && Trimmed(y, y1, other, y2) && SameLetters(core, other)
  }

  lemma SameEmailExact(x: string, y: string)
    ensures SameEmail(x, y) <==> NormalizeEmail(x) == NormalizeEmail(y)
  {
    hide Trimmed, SameLetters, Strip, Lower;
    StripExact(x, "", "", "");
    StripExact(y, "", "", "");
    LowerAgrees(Strip(x), Strip(y));
    if SameEmail(x, y) {
      var x1, core, x2, y1, other, y2 :| Trimmed(x, x1, core, x2) && Trimmed(y, y1, other, y2) && SameLetters(core, other);
      StripExact(x, x1, core, x2);
      StripExact(y, y1, other, y2);
    }
  }

  /** Two identities qualify: one kind of strong identifier, and the same value of it. */
  ghost predicate Qualify(a: AppIdentity, b: AppIdentity) {
    a.idType == b.idType && ((a.idType == SsoSubject && a.native == b.native) || (a.idType == Email && SameEmail(a.native, b.native)))
  }

  method AttemptLink(store: GraphStore, tenant: string, a: AppIdentity, b: AppIdentity, now: int) returns (linked: bool)
    modifies store
    ensures linked <==> MatchMethod(a, b).Some?
    ensures store.State() ==
            if linked then Link(old(store.State()), RequestFor(tenant, a, b, MatchMethod(a, b).value, now))
            else old(store.State())
    ensures linked <==> Qualify(a, b)
    ensures var x, y := UserKey(tenant, a.app, a.native), UserKey(tenant, b.app, b.native);
            if linked && x in old(store.users) && y in old(store.users) then
              && (x, y) in store.samePerson
              && store.samePerson[(x, y)] == LinkInfo(now, 1.0, if a.idType == Email then "exact_email_match" else "exact_sso_match")
              && x in store.users && y in store.users && store.users[x].canonical == store.users[y].canonical
              && store.users[x].canonical.Some?
            else store.State() == old(store.State())
  {
    hide SameEmail, NormalizeEmail;
    SameEmailExact(a.native, b.native);
    var how := MatchMethod(a, b);
    if how.None? {
      return false;
    }
    store.LinkIdentities(RequestFor(tenant, a, b, how.value, now));
    linked := true;
  }

  /** Its True does not mean that a link exists: that also takes both user nodes. */
  lemma LinkExistsExact(g: Graph, l: LinkRequest)
    requires Related(g)
    ensures (l.A(), l.B()) in Link(g, l).samePerson <==> l.A() in g.users && l.B() in g.users
  {
    if (l.A(), l.B()) in g.samePerson { assert (l.A(), l.B()).0 in g.users; }
  }

  // Soundness -------------------------------------------------------------------

  /** A resolved user's native id and canonical id are the same identity up to normalisation. */
  ghost predicate Sound(g: Graph) {
    forall k :: k in g.users && g.users[k].canonical.Some? ==>
      NormalizeEmail(k.native) == NormalizeEmail(g.users[k].canonical.value)
  }

  /** The steps that cannot mix two identities, by what can be seen before the step. */
  ghost predicate KeepsIdentity(g: Graph, s: Step) {
    match s
    case WriteStep(e) =>
      Accepts(g, e) && e.canonical.Some? ==> NormalizeEmail(e.native) == NormalizeEmail(e.canonical.value)
    case LinkStep(l) =>
      l.A() in g.users && l.B() in g.users ==> NormalizeEmail(l.userA) == NormalizeEmail(l.userB)
    case ProfileStep(_, _, _) => true
  }

  /** Exactly those steps keep soundness. */
  lemma SoundStepExact(g: Graph, s: Step)
    requires Sound(g)
    ensures Sound(Apply(g, s)) <==> KeepsIdentity(g, s)
  {
    hide NormalizeEmail;
    var h := Apply(g, s);
    match s
    case WriteStep(e) =>
      if Accepts(g, e) {
        assert e.User() in h.users;
        assert forall k :: k in h.users && k != e.User() ==> k in g.users && h.users[k] == g.users[k];
      }
    case LinkStep(l) =>
      if l.A() in g.users && l.B() in g.users {
        assert l.A() in h.users && l.B() in h.users;
        assert forall k :: k in h.users && k != l.A() && k != l.B() ==> h.users[k] == g.users[k];
      }
    case ProfileStep(t, u, p) =>
      assert forall k :: k in h.users <==> k in g.users;
      assert forall k :: k in h.users ==> h.users[k].canonical == g.users[k].canonical;
  }

  /** A link request that attempt_link makes for some declared id type. */
  ghost predicate Attempted(l: LinkRequest) {
    exists t: IdType :: MatchMethod(AppIdentity(l.userA, l.appA, t), AppIdentity(l.userB, l.appB, t)).Some?
  }

  /** Writes without a client-supplied canonical id, and links made only by attempt_link. */
  ghost predicate ResolverRun(steps: seq<Step>) {
    forall i :: 0 <= i < |steps| ==>
      && (steps[i].WriteStep? ==> steps[i].event.canonical.None?)
      && (steps[i].LinkStep? ==> Attempted(steps[i].link))
  }

  lemma AttemptedSameIdentity(l: LinkRequest)
    requires Attempted(l)
    ensures NormalizeEmail(l.userA) == NormalizeEmail(l.userB)
  {
    var t: IdType :| MatchMethod(AppIdentity(l.userA, l.appA, t), AppIdentity(l.userB, l.appB, t)).Some?;
  }

  lemma {:induction false} ResolverRunIsSound(g: Graph, steps: seq<Step>)
    requires Sound(g) && ResolverRun(steps)
    ensures Sound(Run(g, steps))
    decreases |steps|
  {
    hide NormalizeEmail, Apply;
    if steps != [] {
      if steps[0].LinkStep? { AttemptedSameIdentity(steps[0].link); }
      SoundStepExact(g, steps[0]);
      assert forall i :: 0 <= i < |steps[1..]| ==> steps[1..][i] == steps[i + 1];
      ResolverRunIsSound(Apply(g, steps[0]), steps[1..]);
    }
  }

  /**
   In every such run, the cross-app history reached from a native id holds only
   events of users with the same normalised identity.
  */
  lemma CrossAppNeverMixes(steps: seq<Step>, tenant: string, native: string, c: string, cutoff: int, row: Edge)
    requires ResolverRun(steps)
    requires IsCanonicalAnswer(Run(Empty, steps), tenant, native, Some(c))
    requires row in CanonicalEdges(Run(Empty, steps).performed, Run(Empty, steps).users, tenant, c, cutoff)
    ensures row.source.tenant == tenant
    ensures NormalizeEmail(row.source.native) == NormalizeEmail(native)
  {
    var g := Run(Empty, steps);
    ResolverRunIsSound(Empty, steps);
    hide NormalizeEmail, Run;
    FilterMembers(g.performed, CanonicalSince(g.users, tenant, c, cutoff));
    var k :| k in g.users && k.tenant == tenant && k.native == native && g.users[k].canonical == Some(c);
    assert NormalizeEmail(k.native) == NormalizeEmail(c);
    assert row.source in g.users;
  }

  // Completeness ------------------------------------------------------------------

  predicate Linked(g: Graph, a: UserKey, b: UserKey) { (a, b) in g.samePerson || (b, a) in g.samePerson }

  ghost predicate HasOtherLink(g: Graph, k: UserKey) { exists w :: w != k && Linked(g, k, w) }

  /** The two ends of every SAME_PERSON edge are resolved, to the same canonical id. */
  ghost predicate Agree(g: Graph) {
    forall p :: p in g.samePerson ==>
      p.0 in g.users && p.1 in g.users && g.users[p.0].canonical.Some? && g.users[p.0].canonical == g.users[p.1].canonical
  }

  /** The steps that do not re-resolve one end of an existing link alone. */
  ghost predicate KeepsAgreement(g: Graph, s: Step) {
    match s
    case WriteStep(e) =>
      !(Accepts(g, e) && e.canonical.Some? && e.User() in g.users && g.users[e.User()].canonical != e.canonical &&
        HasOtherLink(g, e.User()))
    case LinkStep(l) =>
      var a, b := l.A(), l.B();
      !(a in g.users && b in g.users && g.users[a].canonical.Some? && g.users[b].canonical.Some? &&
        g.users[a].canonical != g.users[b].canonical && HasOtherLink(g, b))
    case ProfileStep(_, _, _) => true
  }

  lemma ReresolvedAlone(g: Graph, h: Graph, k: UserKey)
    requires Agree(g) && HasOtherLink(g, k)
    requires k in h.users && g.samePerson.Keys <= h.samePerson.Keys
    requires forall w :: w in g.users && w != k && Linked(g, k, w) ==> w in h.users && h.users[w].canonical == g.users[w].canonical
    requires k in g.users && h.users[k].canonical != g.users[k].canonical
    ensures !Agree(h)
  {
    var w :| w != k && Linked(g, k, w);
    var p := if (k, w) in g.samePerson then (k, w) else (w, k);
    assert p in g.samePerson && p in h.samePerson;
  }

  lemma WriteAgreement(g: Graph, e: Event)
    requires Agree(g)
    ensures Agree(Write(g, e)) <==> KeepsAgreement(g, WriteStep(e))
  {
    var h, k := Write(g, e), e.User();
    if !KeepsAgreement(g, WriteStep(e)) {
      ReresolvedAlone(g, h, k);
    } else if Accepts(g, e) {
      forall p | p in h.samePerson
        ensures p.0 in h.users && p.1 in h.users && h.users[p.0].canonical.Some? && h.users[p.0].canonical == h.users[p.1].canonical
      {
        assert p in g.samePerson;
        if (p.0 == k) != (p.1 == k) {
          assert Linked(g, k, if p.0 == k then p.1 else p.0);
        }
      }
    }
  }

  lemma LinkAgreement(g: Graph, l: LinkRequest)
    requires Agree(g)
    ensures Agree(Link(g, l)) <==> KeepsAgreement(g, LinkStep(l))
  {
    var h, a, b := Link(g, l), l.A(), l.B();
    if a in g.users && b in g.users {
      if !KeepsAgreement(g, LinkStep(l)) {
        assert !Linked(g, a, b);
        ReresolvedAlone(g, h, b);
      } else {
        forall p | p in h.samePerson
          ensures p.0 in h.users && p.1 in h.users && h.users[p.0].canonical.Some? && h.users[p.0].canonical == h.users[p.1].canonical
        {
          if p != (a, b) {
            assert p in g.samePerson;
            if p.0 == b && p.1 != b { assert Linked(g, b, p.1); }
            if p.1 == b && p.0 != b { assert Linked(g, b, p.0); }
          }
        }
      }
    }
  }

  /** Exactly those steps keep all linked users resolved alike. */
  lemma AgreementStepExact(g: Graph, s: Step)
    requires Agree(g)
    ensures Agree(Apply(g, s)) <==> KeepsAgreement(g, s)
  {
    match s
    case WriteStep(e) => WriteAgreement(g, e);
    case LinkStep(l) => LinkAgreement(g, l);
    case ProfileStep(t, u, p) =>
      var h := SetProfile(g, t, u, p);
      assert forall k :: k in g.users ==> k in h.users && h.users[k].canonical == g.users[k].canonical;
  }

  /** Linked users agree after every prefix of the run. */
  ghost predicate AgreeThroughout(g: Graph, steps: seq<Step>)
    decreases |steps|
  {
    Agree(g) && (steps != [] ==> AgreeThroughout(Apply(g, steps[0]), steps[1..]))
  }

  ghost predicate AllKeepAgreement(g: Graph, steps: seq<Step>)
    decreases |steps|
  {
    steps != [] ==> KeepsAgreement(g, steps[0]) && AllKeepAgreement(Apply(g, steps[0]), steps[1..])
  }

  lemma {:induction false} AgreementRunExact(g: Graph, steps: seq<Step>)
    requires Agree(g)
    ensures AgreeThroughout(g, steps) <==> AllKeepAgreement(g, steps)
    ensures AllKeepAgreement(g, steps) ==> Agree(Run(g, steps))
    decreases |steps|
  {
    hide Apply, KeepsAgreement, Agree;
    if steps != [] {
      AgreementStepExact(g, steps[0]);
      if KeepsAgreement(g, steps[0]) {
        AgreementRunExact(Apply(g, steps[0]), steps[1..]);
      }
    }
  }

  /** A walk along SAME_PERSON edges, in either direction. */
  ghost predicate IsWalk(g: Graph, walk: seq<UserKey>) {
    |walk| >= 2 && forall i :: 0 <= i < |walk| - 1 ==> Linked(g, walk[i], walk[i + 1])
  }

  lemma {:induction false} WalkAgrees(g: Graph, walk: seq<UserKey>)
    requires Agree(g) && IsWalk(g, walk)
    ensures walk[0] in g.users && walk[|walk| - 1] in g.users
    ensures g.users[walk[0]].canonical.Some? && g.users[walk[0]].canonical == g.users[walk[|walk| - 1]].canonical
    decreases |walk|
  {
    assert Linked(g, walk[0], walk[1]);
    var p := if (walk[0], walk[1]) in g.samePerson then (walk[0], walk[1]) else (walk[1], walk[0]);
    assert p in g.samePerson;
    if |walk| > 2 {
      forall i | 0 <= i < |walk[1..]| - 1 ensures Linked(g, walk[1..][i], walk[1..][i + 1]) {
        assert Linked(g, walk[i + 1], walk[i + 2]);
      }
      WalkAgrees(g, walk[1..]);
    }
  }

  lemma {:induction false} SameTenantWalk(g: Graph, walk: seq<UserKey>)
    requires Related(g) && IsWalk(g, walk)
    ensures walk[0].tenant == walk[|walk| - 1].tenant
    decreases |walk|
  {
    assert Linked(g, walk[0], walk[1]);
    var p := if (walk[0], walk[1]) in g.samePerson then (walk[0], walk[1]) else (walk[1], walk[0]);
    assert p in g.samePerson && p.0.tenant == p.1.tenant;
    if |walk| > 2 {
      forall i | 0 <= i < |walk[1..]| - 1 ensures Linked(g, walk[1..][i], walk[1..][i + 1]) {
        assert Linked(g, walk[i + 1], walk[i + 2]);
      }
      SameTenantWalk(g, walk[1..]);
    }
  }

  /**
   Main result: when no step re-resolves a linked user alone, all users connected
   by SAME_PERSON edges share one canonical id, and its cross-app history holds
   every in-window event of every one of them.
  */
  lemma ComponentIsComplete(steps: seq<Step>, walk: seq<UserKey>, cutoff: int, row: Edge)
    requires AllKeepAgreement(Empty, steps) && IsWalk(Run(Empty, steps), walk)
    ensures var g := Run(Empty, steps);
            && walk[0] in g.users && g.users[walk[0]].canonical.Some?
            && (row in g.performed && row.source == walk[|walk| - 1] && row.ts >= cutoff ==>
                  row in CanonicalEdges(g.performed, g.users, walk[0].tenant, g.users[walk[0]].canonical.value, cutoff))
  {
    var g := Run(Empty, steps);
    AgreementRunExact(Empty, steps);
    ReachableIsConsistent(steps);
    hide Run, AllKeepAgreement;
    WalkAgrees(g, walk);
    SameTenantWalk(g, walk);
    FilterMembers(g.performed, CanonicalSince(g.users, walk[0].tenant, g.users[walk[0]].canonical.value, cutoff));
  }

  /** The documented discipline is enough: no client-supplied ids, no link between two resolved persons. */
  lemma DisciplineKeepsAgreement(g: Graph, s: Step)
    requires s.WriteStep? ==> s.event.canonical.None?
    requires s.LinkStep? && s.link.A() in g.users && s.link.B() in g.users ==>
      var x, y := g.users[s.link.A()].canonical, g.users[s.link.B()].canonical;
      x.None? || y.None? || x == y
    ensures KeepsAgreement(g, s)
  {}
}
