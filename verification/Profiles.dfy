/**
 Stored profiles and the scheduler pass that regenerates them. A profile is kept
 on every node of a native id, and GET_USER_PROFILE reads any one of them.
*/
module Profiles {
  import opened Options
  import opened GraphModel
  import opened GraphStores

  predicate SamePerson(a: UserKey, b: UserKey) { a.tenant == b.tenant && a.native == b.native }

  /** All nodes of one native id that hold a profile hold the same one. */
  ghost predicate ProfilesCoherent(g: Graph) {
    forall a, b :: a in g.users && b in g.users && SamePerson(a, b) && g.users[a].profile.Some? && g.users[b].profile.Some? ==>
      g.users[a].profile == g.users[b].profile
  }

  lemma StepKeepsProfilesCoherent(g: Graph, s: Step)
    requires ProfilesCoherent(g)
    ensures ProfilesCoherent(Apply(g, s))
  {
    var h := Apply(g, s);
    if s.ProfileStep? {
      forall a, b | a in h.users && b in h.users && SamePerson(a, b) && h.users[a].profile.Some? && h.users[b].profile.Some?
        ensures h.users[a].profile == h.users[b].profile
      {
        assert a in g.users && b in g.users;
      }
    } else {
      assert forall k :: k in h.users && h.users[k].profile.Some? ==> k in g.users && g.users[k].profile == h.users[k].profile;
    }
  }

  lemma {:induction false} RunKeepsProfilesCoherent(g: Graph, steps: seq<Step>)
    requires ProfilesCoherent(g)
    ensures ProfilesCoherent(Run(g, steps))
    decreases |steps|
  {
    hide Apply, ProfilesCoherent;
    if steps != [] {
      StepKeepsProfilesCoherent(g, steps[0]);
      RunKeepsProfilesCoherent(Apply(g, steps[0]), steps[1..]);
    }
  }

  /** In every reachable store the LIMIT 1 profile read has only one possible answer. */
  lemma ProfileReadIsDeterministic(steps: seq<Step>, tenant: string, native: string, p: Profile, q: Profile)
    requires p in ProfileChoices(Run(Empty, steps), tenant, native)
    requires q in ProfileChoices(Run(Empty, steps), tenant, native)
    ensures p == q
  {
    RunKeepsProfilesCoherent(Empty, steps);
    CoherentChoice(Run(Empty, steps), tenant, native, p, q);
  }

  lemma CoherentChoice(g: Graph, tenant: string, native: string, p: Profile, q: Profile)
    requires ProfilesCoherent(g) && p in ProfileChoices(g, tenant, native) && q in ProfileChoices(g, tenant, native)
    ensures p == q
  {
    var a :| a in g.users && a.tenant == tenant && a.native == native && g.users[a].profile == Some(p);
    var b :| b in g.users && b.tenant == tenant && b.native == native && g.users[b].profile == Some(q);
    assert SamePerson(a, b);
  }

  // The scheduler -------------------------------------------------------------

  /** The version the profile read reports; 0 when there is no profile. */
  ghost function CurrentVersion(g: Graph, tenant: string, native: string): int {
    VersionAmong(ProfileChoices(g, tenant, native))
  }

  ghost function VersionAmong(choices: set<Profile>): int {
    if choices == {} then 0 else var p :| p in choices; p.version
  }

  /** Active users with enough events. */
  function Eligible(g: Graph, tenant: string, cutoff: int, minimum: int): set<string> {
    set n | n in ActiveUsers(g, tenant, cutoff) && EventCount(g.performed, tenant, n) >= minimum
  }

  /** The store with new profiles for exactly the given native ids. */
  ghost function Refreshed(g: Graph, tenant: string, ns: set<string>, textOf: string -> string, stamp: string -> int): Graph {
    g.(users := map k | k in g.users ::
                  if k.tenant == tenant && k.native in ns then
                    g.users[k].(profile := Some(Profile(textOf(k.native), stamp(k.native), CurrentVersion(g, tenant, k.native) + 1)))
                  else g.users[k])
  }

  /** Refreshing other users leaves a user's profile read alone. */
  lemma OthersKeepVersion(g: Graph, tenant: string, ns: set<string>, n: string, textOf: string -> string, stamp: string -> int)
    requires n !in ns
    ensures CurrentVersion(Refreshed(g, tenant, ns, textOf, stamp), tenant, n) == CurrentVersion(g, tenant, n)
  {
    hide VersionAmong;
    var h := Refreshed(g, tenant, ns, textOf, stamp);
    assert forall k :: k in g.users && k.tenant == tenant && k.native == n ==> h.users[k] == g.users[k];
    forall p | p in ProfileChoices(g, tenant, n) ensures p in ProfileChoices(h, tenant, n) {
      var k :| k in g.users && k.tenant == tenant && k.native == n && g.users[k].profile == Some(p);
      assert k in h.users && h.users[k] == g.users[k];
    }
    assert ProfileChoices(h, tenant, n) == ProfileChoices(g, tenant, n);
  }

  lemma RefreshOneMore(g: Graph, tenant: string, ns: set<string>, n: string, textOf: string -> string, stamp: string -> int)
    requires n !in ns
    ensures var h := Refreshed(g, tenant, ns, textOf, stamp);
            && h.performed == g.performed
            && CurrentVersion(h, tenant, n) == CurrentVersion(g, tenant, n)
            && SetProfile(h, tenant, n, Profile(textOf(n), stamp(n), CurrentVersion(g, tenant, n) + 1)) ==
               Refreshed(g, tenant, ns + {n}, textOf, stamp)
  {
    hide CurrentVersion;
    OthersKeepVersion(g, tenant, ns, n, textOf, stamp);
    var h := Refreshed(g, tenant, ns, textOf, stamp);
    assert SetProfile(h, tenant, n, Profile(textOf(n), stamp(n), CurrentVersion(g, tenant, n) + 1)).users ==
           Refreshed(g, tenant, ns + {n}, textOf, stamp).users;
  }

  method NextVersion(store: GraphStore, tenant: string, native: string) returns (version: int)
    requires ProfilesCoherent(store.State())
    ensures version == CurrentVersion(store.State(), tenant, native) + 1
  {
    var existing := store.GetUserProfile(tenant, native);
    version := (if existing.Some? then existing.value.version else 0) + 1;
    if existing.Some? {
      ghost var p :| p in ProfileChoices(store.State(), tenant, native) && p.version == CurrentVersion(store.State(), tenant, native);
      CoherentChoice(store.State(), tenant, native, p, existing.value);
    }
  }

  method GenerateForUser(store: GraphStore, tenant: string, native: string, minimum: int, text: string, now: int)
    returns (generated: bool)
    requires ProfilesCoherent(store.State())
    modifies store
    ensures generated <==> EventCount(old(store.State()).performed, tenant, native) >= minimum
    ensures store.State() ==
            if generated
            then SetProfile(old(store.State()), tenant, native,
                            Profile(text, now, CurrentVersion(old(store.State()), tenant, native) + 1))
            else old(store.State())
  {
    hide EventCount, ProfilesCoherent, CurrentVersion, SetProfile;
    var total := store.GetUserEventCount(tenant, native);
    if total < minimum {
      return false;
    }
    var version := NextVersion(store, tenant, native);
    store.UpdateUserProfile(tenant, native, text, version, now);
    generated := true;
  }

  /** The users refreshed so far are the eligible ones among the first i listed. */
  ghost predicate DoneUpTo(done: set<string>, ids: seq<string>, i: nat, eligible: set<string>)
    requires i <= |ids|
  {
    forall id :: id in done <==> id in ids[..i] && id in eligible
  }

  lemma DoneNext(done: set<string>, ids: seq<string>, i: nat, eligible: set<string>)
    requires i < |ids| && DoneUpTo(done, ids, i, eligible) && forall j, k :: 0 <= j < k < |ids| ==> ids[j] != ids[k]
    ensures ids[i] in ids && ids[i] !in done
    ensures DoneUpTo(if ids[i] in eligible then done + {ids[i]} else done, ids, i + 1, eligible)
  {
    assert ids[..i + 1] == ids[..i] + [ids[i]];
  }

  lemma AllDone(done: set<string>, ids: seq<string>, eligible: set<string>)
    requires DoneUpTo(done, ids, |ids|, eligible) && forall id :: id in eligible ==> id in ids
    ensures done == eligible
  {
    assert ids[..|ids|] == ids;
  }

  /** What the store says about one user while others are being refreshed. */
  lemma RefreshNext(g: Graph, tenant: string, cutoff: int, minimum: int, done: set<string>, id: string,
                    textOf: string -> string, stamp: string -> int)
    requires ProfilesCoherent(g) && id !in done && id in ActiveUsers(g, tenant, cutoff)
    ensures var h := Refreshed(g, tenant, done, textOf, stamp);
            && ProfilesCoherent(h)
            && (EventCount(h.performed, tenant, id) >= minimum <==> id in Eligible(g, tenant, cutoff, minimum))
            && SetProfile(h, tenant, id, Profile(textOf(id), stamp(id), CurrentVersion(h, tenant, id) + 1)) ==
               Refreshed(g, tenant, done + {id}, textOf, stamp)
  {
    hide EventCount, ActiveUsers, ProfilesCoherent, CurrentVersion, SetProfile;
    RefreshOneMore(g, tenant, done, id, textOf, stamp);
    RefreshedCoherent(g, tenant, done, textOf, stamp);
  }

  /**
   One pass over a tenant. The result does not depend on the order in which the
   active users are listed.
  */
  method RunOnce(store: GraphStore, tenant: string, cutoff: int, minimum: int, textOf: string -> string, stamp: string -> int)
    returns (generated: nat)
    requires ProfilesCoherent(store.State())
    modifies store
    ensures generated == |Eligible(old(store.State()), tenant, cutoff, minimum)|
    ensures store.State() ==
            Refreshed(old(store.State()), tenant, Eligible(old(store.State()), tenant, cutoff, minimum), textOf, stamp)
  {
    hide EventCount, ActiveUsers, ProfilesCoherent, CurrentVersion, SetProfile, Refreshed, InOrder, DoneUpTo;
    ghost var g := store.State();
    ghost var eligible := Eligible(g, tenant, cutoff, minimum);
    ghost var done: set<string> := {};
    var ids := store.GetActiveUsers(tenant, cutoff);
    generated := 0;
    RefreshNone(g, tenant, textOf, stamp);
    NoneDone(ids, eligible);
    assert forall id :: id in eligible ==> id in ids;
    hide Eligible;
    for i := 0 to |ids|
      invariant DoneUpTo(done, ids, i, eligible)
      invariant generated == |done|
      invariant store.State() == Refreshed(g, tenant, done, textOf, stamp)
    {
      var id := ids[i];
      DoneNext(done, ids, i, eligible);
      RefreshNext(g, tenant, cutoff, minimum, done, id, textOf, stamp);
      var ok := GenerateForUser(store, tenant, id, minimum, textOf(id), stamp(id));
      if ok {
        done := done + {id};
        generated := generated + 1;
      }
    }
    AllDone(done, ids, eligible);
  }

  lemma NoneDone(ids: seq<string>, eligible: set<string>)
    ensures DoneUpTo({}, ids, 0, eligible)
  {}

  lemma RefreshNone(g: Graph, tenant: string, textOf: string -> string, stamp: string -> int)
    ensures Refreshed(g, tenant, {}, textOf, stamp) == g
  {
    assert Refreshed(g, tenant, {}, textOf, stamp).users == g.users;
  }

  lemma RefreshedCoherent(g: Graph, tenant: string, ns: set<string>, textOf: string -> string, stamp: string -> int)
    requires ProfilesCoherent(g)
    ensures ProfilesCoherent(Refreshed(g, tenant, ns, textOf, stamp))
  {
    hide CurrentVersion;
    var h := Refreshed(g, tenant, ns, textOf, stamp);
    forall a, b | a in h.users && b in h.users && SamePerson(a, b) && h.users[a].profile.Some? && h.users[b].profile.Some?
      ensures h.users[a].profile == h.users[b].profile
    {
      assert a in g.users && b in g.users;
    }
  }

  /** A pass raises the version of exactly the eligible users, by one, and leaves the rest of the store alone. */
  lemma PassRaisesVersions(g: Graph, tenant: string, ns: set<string>, textOf: string -> string, stamp: string -> int, native: string)
    requires ProfilesCoherent(g)
    requires exists k :: k in g.users && k.tenant == tenant && k.native == native
    ensures var h := Refreshed(g, tenant, ns, textOf, stamp);
            CurrentVersion(h, tenant, native) == CurrentVersion(g, tenant, native) + if native in ns then 1 else 0
  {
    var h := Refreshed(g, tenant, ns, textOf, stamp);
    var k :| k in g.users && k.tenant == tenant && k.native == native;
    if native in ns {
      var p := Profile(textOf(native), stamp(native), CurrentVersion(g, tenant, native) + 1);
      assert h.users[k].profile == Some(p);
      assert p in ProfileChoices(h, tenant, native);
      RefreshedCoherent(g, tenant, ns, textOf, stamp);
      var q :| q in ProfileChoices(h, tenant, native) && q.version == CurrentVersion(h, tenant, native);
      CoherentChoice(h, tenant, native, p, q);
    } else {
      RefreshOneMore(g, tenant, ns, native, textOf, stamp);
    }
  }
}
