/**
 Cross-application sequence detection over an arbitrary history: which pairs of
 actions are reported, with what gap and confidence.
*/
module Sequences {
  import opened Options
  import opened GraphModel
  import opened Sorting
  import opened Counting
  import opened Ranking
  import opened Rounding
  import opened Reals

  const SEQUENCE_GAP_MINUTES := 30.0
  const MIN_SEQUENCE_OCCURRENCES := 2
  const MICROS_PER_MINUTE := 60_000_000

  datatype Key = Key(triggerApp: string, triggerAction: string, followApp: string, followAction: string)

  datatype SequencePattern = SequencePattern(key: Key, gapMinutes: int, confidence: real)

  function ByTime(e: Edge): real { e.ts as real }

  function Itself(x: real): real { x }

  function Descending(p: SequencePattern): real { -p.confidence }

  function KeyOf(previous: Edge, current: Edge): Key {
    Key(previous.source.app, previous.actionType, current.source.app, current.actionType)
  }

  function CrossAppGap(previous: Edge, current: Edge): Option<real> {
    if previous.source.app == current.source.app then None
    else
      var gap := (current.ts - previous.ts) as real / MICROS_PER_MINUTE as real;
      if 0.0 <= gap <= SEQUENCE_GAP_MINUTES then Some(gap) else None
  }

  /** b follows a across applications, within thirty minutes, as the key says. */
  predicate Follows(a: Edge, b: Edge, key: Key) {
    && a.source.app == key.triggerApp && a.actionType == key.triggerAction
    && b.source.app == key.followApp && b.actionType == key.followAction
    && a.source.app != b.source.app
    && 0 <= b.ts - a.ts <= 30 * 60 * 1_000_000
  }

  function Minutes(a: Edge, b: Edge): real { (b.ts - a.ts) as real / 60_000_000.0 }

  lemma FollowsExact(a: Edge, b: Edge, key: Key)
    ensures Follows(a, b, key) <==> CrossAppGap(a, b).Some? && KeyOf(a, b) == key
    ensures CrossAppGap(a, b).Some? ==> CrossAppGap(a, b).value == Minutes(a, b)
  {}

  /** The gaps recorded for a key over the adjacent pairs of a timeline. */
  function GapsOf(ordered: seq<Edge>, key: Key): seq<real> {
    if |ordered| < 2 then []
    else
      var n := |ordered|;
      var gap := CrossAppGap(ordered[n - 2], ordered[n - 1]);
      GapsOf(ordered[..n - 1], key) +
      if gap.Some? && KeyOf(ordered[n - 2], ordered[n - 1]) == key then [gap.value] else []
  }

  /** The keys in order of first occurrence, as a dictionary lists them. */
  function KeysOf(ordered: seq<Edge>): seq<Key> {
    if |ordered| < 2 then []
    else
      var n := |ordered|;
      var key := KeyOf(ordered[n - 2], ordered[n - 1]);
      var keys := KeysOf(ordered[..n - 1]);
      keys + if CrossAppGap(ordered[n - 2], ordered[n - 1]).Some? && key !in keys then [key] else []
  }

  function IsAction(app: string, action: string): Edge -> bool {
    (e: Edge) => e.source.app == app && e.actionType == action
  }

  function ActionTotal(events: seq<Edge>, app: string, action: string): nat { Count(events, IsAction(app, action)) }

  function Median(gaps: seq<real>): real
    requires gaps != []
  {
    SortPermutes(gaps, Itself);
    SortBy(gaps, Itself)[|gaps| / 2]
  }

  /** describe_gap's number of minutes. */
  function DescribeGap(gaps: seq<real>): int
    requires gaps != []
  {
    var n := Round(Median(gaps));
    if n > 1 then n else 1
  }

  function Minimum(a: real, b: real): real { if a <= b then a else b }

  function BuildSequence(key: Key, gaps: seq<real>, total: nat): SequencePattern
    requires gaps != []
  {
    SequencePattern(key, DescribeGap(gaps),
                    if total != 0 then Round2(Minimum(|gaps| as real / total as real, 1.0)) else 0.0)
  }

  function BuildAll(keys: seq<Key>, ordered: seq<Edge>, events: seq<Edge>): seq<SequencePattern> {
    if keys == [] then []
    else
      var key := keys[|keys| - 1];
      var gaps := GapsOf(ordered, key);
      BuildAll(keys[..|keys| - 1], ordered, events) +
      if |gaps| >= MIN_SEQUENCE_OCCURRENCES
      then [BuildSequence(key, gaps, ActionTotal(events, key.triggerApp, key.triggerAction))] else []
  }

  function Detected(events: seq<Edge>): seq<SequencePattern> {
    var ordered := SortBy(events, ByTime);
    SortBy(BuildAll(KeysOf(ordered), ordered, events), Descending)
  }

  method CountActions(events: seq<Edge>) returns (totals: map<(string, string), nat>)
    ensures forall a, t :: (if (a, t) in totals then totals[(a, t)] else 0) == ActionTotal(events, a, t)
  {
    totals := map[];
    for i := 0 to |events|
      invariant forall a, t :: (if (a, t) in totals then totals[(a, t)] else 0) == ActionTotal(events[..i], a, t)
    {
      var k := (events[i].source.app, events[i].actionType);
      assert events[..i + 1][..i] == events[..i];
      totals := totals[k := (if k in totals then totals[k] else 0) + 1];
    }
    assert events[..|events|] == events;
  }

  /** Reading one more event of the timeline. */
  lemma TimelineSnoc(ordered: seq<Edge>, i: int)
    requires 1 <= i < |ordered|
    ensures var gap, key := CrossAppGap(ordered[i - 1], ordered[i]), KeyOf(ordered[i - 1], ordered[i]);
            && (forall k :: GapsOf(ordered[..i + 1], k) ==
                            if gap.Some? && key == k then GapsOf(ordered[..i], k) + [gap.value] else GapsOf(ordered[..i], k))
            && KeysOf(ordered[..i + 1]) ==
               if gap.Some? && key !in KeysOf(ordered[..i]) then KeysOf(ordered[..i]) + [key] else KeysOf(ordered[..i])
  {
    assert ordered[..i + 1][..i] == ordered[..i];
  }

  method CollectTransitions(ordered: seq<Edge>) returns (keys: seq<Key>, transitions: map<Key, seq<real>>)
    ensures keys == KeysOf(ordered)
    ensures forall k :: k in transitions <==> k in keys
    ensures forall k :: k in keys ==> transitions[k] == GapsOf(ordered, k)
  {
    keys, transitions := [], map[];
    if |ordered| < 2 {
      return;
    }
    assert forall k :: GapsOf(ordered[..1], k) == [];
    hide CrossAppGap, KeyOf, GapsOf, KeysOf;
    for i := 1 to |ordered|
      invariant keys == KeysOf(ordered[..i])
      invariant forall k :: k in transitions <==> k in keys
      invariant forall k :: (if k in transitions then transitions[k] else []) == GapsOf(ordered[..i], k)
    {
      TimelineSnoc(ordered, i);
      var gap := CrossAppGap(ordered[i - 1], ordered[i]);
      if gap.None? {
        continue;
      }
      var key := KeyOf(ordered[i - 1], ordered[i]);
      if key !in transitions {
        keys := keys + [key];
      }
      transitions := transitions[key := (if key in transitions then transitions[key] else []) + [gap.value]];
    }
    assert ordered[..|ordered|] == ordered;
  }

  method DetectSequences(events: seq<Edge>) returns (sequences: seq<SequencePattern>)
    ensures sequences == Detected(events)
    ensures IsDetection(events, sequences)
  {
    DetectionExact(events);
    hide BuildSequence, ActionTotal, GapsOf, KeysOf, SortBy, IsDetection;
    var ordered := SortBy(events, ByTime);
    var totals := CountActions(events);
    var keys, transitions := CollectTransitions(ordered);
    sequences := [];
    for i := 0 to |keys|
      invariant sequences == BuildAll(keys[..i], ordered, events)
    {
      var key := keys[i];
      assert keys[..i + 1][..i] == keys[..i];
      var gaps := transitions[key];
      var trigger := (key.triggerApp, key.triggerAction);
      if |gaps| >= MIN_SEQUENCE_OCCURRENCES {
        sequences := sequences + [BuildSequence(key, gaps, if trigger in totals then totals[trigger] else 0)];
      }
    }
    assert keys[..|keys|] == keys;
    sequences := SortBy(sequences, Descending);
  }

  // What is reported ---------------------------------------------------------------

  lemma {:induction false} KeysExact(ordered: seq<Edge>, key: Key)
    ensures key in KeysOf(ordered) <==> GapsOf(ordered, key) != []
  {
    if |ordered| >= 2 { KeysExact(ordered[..|ordered| - 1], key); }
  }

  lemma {:induction false} KeysDistinct(ordered: seq<Edge>)
    ensures forall i, j :: 0 <= i < j < |KeysOf(ordered)| ==> KeysOf(ordered)[i] != KeysOf(ordered)[j]
  {
    if |ordered| >= 2 { KeysDistinct(ordered[..|ordered| - 1]); }
  }

  predicate Reports(ps: seq<SequencePattern>, key: Key) { exists i :: 0 <= i < |ps| && ps[i].key == key }

  lemma {:induction false} BuildAllMembers(keys: seq<Key>, ordered: seq<Edge>, events: seq<Edge>)
    ensures forall p :: p in BuildAll(keys, ordered, events) <==>
      p.key in keys && |GapsOf(ordered, p.key)| >= MIN_SEQUENCE_OCCURRENCES &&
      p == BuildSequence(p.key, GapsOf(ordered, p.key), ActionTotal(events, p.key.triggerApp, p.key.triggerAction))
  {
    if keys != [] {
      BuildAllMembers(keys[..|keys| - 1], ordered, events);
      assert keys == keys[..|keys| - 1] + [keys[|keys| - 1]];
    }
  }

  /** A pair of actions is reported exactly when it is adjacent in the timeline at least twice. */
  lemma ReportedExact(events: seq<Edge>, key: Key)
    ensures Reports(Detected(events), key) <==> |GapsOf(SortBy(events, ByTime), key)| >= MIN_SEQUENCE_OCCURRENCES
  {
    hide Round, Round2, Median, Count, DescribeGap;
    var ordered := SortBy(events, ByTime);
    var built := BuildAll(KeysOf(ordered), ordered, events);
    KeysExact(ordered, key);
    BuildAllMembers(KeysOf(ordered), ordered, events);
    SortPermutes(built, Descending);
    var out := SortBy(built, Descending);
    assert forall p :: p in out <==> p in multiset(out);
    assert forall p :: p in built <==> p in multiset(built);
    if |GapsOf(ordered, key)| >= MIN_SEQUENCE_OCCURRENCES {
      var p := BuildSequence(key, GapsOf(ordered, key), ActionTotal(events, key.triggerApp, key.triggerAction));
      assert p in built && p in out;
    }
    if i :| 0 <= i < |out| && out[i].key == key {
      assert out[i] in out && out[i] in built;
    }
  }

  // Completeness ---------------------------------------------------------------------

  /** Positions of a timeline at which a key is recorded. */
  ghost predicate Hit(ordered: seq<Edge>, p: int, key: Key) {
    0 <= p < |ordered| - 1 && Follows(ordered[p], ordered[p + 1], key)
  }

  ghost function Hits(ordered: seq<Edge>, key: Key): set<int> { set p | 0 <= p < |ordered| && Hit(ordered, p, key) }

  /** The hits whose gap in minutes satisfies p. */
  ghost function HitsWhere(ordered: seq<Edge>, key: Key, p: real -> bool): set<int> {
    set q | 0 <= q < |ordered| && Hit(ordered, q, key) && p(MinutesAt(ordered, q))
  }

  /** The minutes from one event of the timeline to the next. */
  function MinutesAt(ordered: seq<Edge>, q: int): real {
    if 0 <= q < |ordered| - 1 then Minutes(ordered[q], ordered[q + 1]) else 0.0
  }

  lemma HitsSnoc(ordered: seq<Edge>, key: Key, p: real -> bool)
    requires |ordered| >= 2
    ensures var n, front := |ordered|, ordered[..|ordered| - 1];
            |HitsWhere(ordered, key, p)| ==
            |HitsWhere(front, key, p)| + if Hit(ordered, n - 2, key) && p(MinutesAt(ordered, n - 2)) then 1 else 0
  {
    hide Follows, Minutes;
    var n, front := |ordered|, ordered[..|ordered| - 1];
    var last := Hit(ordered, n - 2, key) && p(MinutesAt(ordered, n - 2));
    forall q ensures q in HitsWhere(ordered, key, p) <==> q in HitsWhere(front, key, p) || (q == n - 2 && last) {}
    assert n - 2 !in HitsWhere(front, key, p);
    assert HitsWhere(ordered, key, p) == HitsWhere(front, key, p) + if last then {n - 2} else {};
  }

  /** The recorded gaps are the gaps at the hits: any kind of gap is recorded as often as it occurs there. */
  lemma {:induction false} GapsCountWhere(ordered: seq<Edge>, key: Key, p: real -> bool)
    ensures Count(GapsOf(ordered, key), p) == |HitsWhere(ordered, key, p)|
  {
    hide Follows, CrossAppGap, KeyOf, HitsWhere, Minutes, Count;
    if |ordered| < 2 {
      NoHits(ordered, key, p);
    } else {
      var n := |ordered|;
      var front := ordered[..n - 1];
      GapsCountWhere(front, key, p);
      HitsSnoc(ordered, key, p);
      FollowsExact(ordered[n - 2], ordered[n - 1], key);
      if Follows(ordered[n - 2], ordered[n - 1], key) {
        CountSnoc(GapsOf(front, key), MinutesAt(ordered, n - 2), p);
      } else {
        assert GapsOf(ordered, key) == GapsOf(front, key);
      }
    }
  }

  lemma NoHits(ordered: seq<Edge>, key: Key, p: real -> bool)
    requires |ordered| < 2
    ensures HitsWhere(ordered, key, p) == {} && Count(GapsOf(ordered, key), p) == 0
  {}

  lemma GapsCountHits(ordered: seq<Edge>, key: Key)
    ensures |GapsOf(ordered, key)| == |Hits(ordered, key)|
  {
    var all := (x: real) => true;
    GapsCountWhere(ordered, key, all);
    CountIsFilter(GapsOf(ordered, key), all);
    FilterAll(GapsOf(ordered, key), all);
    assert HitsWhere(ordered, key, all) == Hits(ordered, key);
  }

  /** Event i is followed by event j under the key, and no other event lies between or ties with them. */
  ghost predicate IsolatedPair(events: seq<Edge>, i: int, j: int, key: Key) {
    && 0 <= i < |events| && 0 <= j < |events| && i != j
    && Follows(events[i], events[j], key)
    && (events[i].ts < events[j].ts || i < j)
    && forall m :: 0 <= m < |events| && m != i && m != j ==> events[m].ts < events[i].ts || events[m].ts > events[j].ts
  }

  lemma SortedOnce(events: seq<Edge>, i: int, p: int, q: int)
    requires 0 <= i < |events| && forall m :: 0 <= m < |events| && events[m] == events[i] ==> m == i
    requires 0 <= p < q < |SortBy(events, ByTime)|
    ensures !(SortBy(events, ByTime)[p] == events[i] && SortBy(events, ByTime)[q] == events[i])
  {
    hide SortBy;
    var r := SortBy(events, ByTime);
    SortPermutes(events, ByTime);
    OnceMeansOne(events, i);
    if r[p] == events[i] && r[q] == events[i] {
      TwiceMeansTwo(r, p, q);
    }
  }

  lemma GapIsForward(previous: Edge, current: Edge, key: Key)
    requires Follows(previous, current, key)
    ensures ByTime(previous) <= ByTime(current) && previous != current
  {}

  lemma NothingBetween(events: seq<Edge>, i: int, j: int, key: Key, a: int, b: int)
    requires IsolatedPair(events, i, j, key)
    requires 0 <= a < b < |SortBy(events, ByTime)| && SortBy(events, ByTime)[a] == events[i] && SortBy(events, ByTime)[b] == events[j]
    ensures b == a + 1
  {
    hide SortBy, Follows;
    var r := SortBy(events, ByTime);
    GapIsForward(events[i], events[j], key);
    SortPermutes(events, ByTime);
    SortAscending(events, ByTime);
    if b != a + 1 {
      var x := r[a + 1];
      assert x in multiset(r) && x in multiset(events);
      var m :| 0 <= m < |events| && events[m] == x;
      assert ByTime(r[a]) <= ByTime(x) <= ByTime(r[b]);
      SortedOnce(events, i, a, a + 1);
      SortedOnce(events, j, a + 1, b);
    }
  }

  /** An isolated pair is adjacent in the sorted timeline. */
  lemma IsolatedIsHit(events: seq<Edge>, i: int, j: int, key: Key) returns (p: int)
    requires IsolatedPair(events, i, j, key)
    ensures p in Hits(SortBy(events, ByTime), key) && SortBy(events, ByTime)[p] == events[i]
  {
    hide SortBy, Follows;
    var r := SortBy(events, ByTime);
    GapIsForward(events[i], events[j], key);
    SortPrecedes(events, i, j, ByTime);
    SortPermutes(events, ByTime);
    SortAscending(events, ByTime);
    var a, b :| 0 <= a < b < |r| && r[a] == events[i] && r[b] == events[j];
    if b != a + 1 {
      NothingBetween(events, i, j, key, a, b);
    }
    p := a;
    assert Hit(r, p, key);
  }

  /**
   Completeness: k isolated occurrences of a pair give at least k recorded
   transitions, so two of them are enough for a report.
  */
  lemma DetectorIsComplete(events: seq<Edge>, key: Key, pairs: set<(int, int)>)
    requires forall pr :: pr in pairs ==> IsolatedPair(events, pr.0, pr.1, key)
    ensures |pairs| <= |GapsOf(SortBy(events, ByTime), key)|
    ensures |pairs| >= MIN_SEQUENCE_OCCURRENCES ==> Reports(Detected(events), key)
  {
    hide SortBy, Detected;
    var r := SortBy(events, ByTime);
    var first := (pr: (int, int)) => if 0 <= pr.0 < |events| then Some(events[pr.0]) else None;
    var at := (p: int) => if 0 <= p < |r| then Some(r[p]) else None;
    forall x, y | x in pairs && y in pairs && first(x) == first(y) ensures x == y {
      assert IsolatedPair(events, x.0, x.1, key) && IsolatedPair(events, y.0, y.1, key);
      assert x.0 == y.0;
      assert x.1 == y.1;
    }
    InjectiveImage(pairs, first);
    ImageAtMost(Hits(r, key), at);
    var starts, found := Image(pairs, first), Image(Hits(r, key), at);
    forall s | s in starts ensures s in found {
      var x :| x in pairs && first(x) == s;
      var p := IsolatedIsHit(events, x.0, x.1, key);
      assert at(p) == s;
    }
    SubsetAtMost(starts, found);
    GapsCountHits(r, key);
    ReportedExact(events, key);
  }

  lemma {:induction false} BuildAllPermutation(keys: seq<Key>, ordered: seq<Edge>, a: seq<Edge>, b: seq<Edge>)
    requires multiset(a) == multiset(b)
    ensures BuildAll(keys, ordered, a) == BuildAll(keys, ordered, b)
  {
    hide GapsOf, BuildSequence, Count;
    if keys != [] {
      BuildAllPermutation(keys[..|keys| - 1], ordered, a, b);
      var key := keys[|keys| - 1];
      CountPermutation(a, b, IsAction(key.triggerApp, key.triggerAction));
    }
  }

  /** With pairwise distinct timestamps the order in which the history was read does not matter. */
  lemma OrderIndependent(a: seq<Edge>, b: seq<Edge>)
    requires multiset(a) == multiset(b) && DistinctKeys(a, ByTime) && DistinctKeys(b, ByTime)
    ensures Detected(a) == Detected(b)
  {
    hide SortBy, BuildAll, KeysOf;
    DistinctSortUnique(a, b, ByTime);
    var ordered := SortBy(a, ByTime);
    BuildAllPermutation(KeysOf(ordered), ordered, a, b);
  }

  // Conservation -----------------------------------------------------------------------

  predicate HasTrigger(key: Key, app: string, action: string) { key.triggerApp == app && key.triggerAction == action }

  /** All gaps recorded for one trigger, over a list of keys. */
  function Recorded(keys: seq<Key>, ordered: seq<Edge>, app: string, action: string): nat {
    if keys == [] then 0
    else
      var key := keys[|keys| - 1];
      Recorded(keys[..|keys| - 1], ordered, app, action) +
      if HasTrigger(key, app, action) then |GapsOf(ordered, key)| else 0
  }

  lemma {:induction false} RecordedGrows(keys: seq<Key>, ordered: seq<Edge>, app: string, action: string)
    requires |ordered| >= 2
    requires forall i, j :: 0 <= i < j < |keys| ==> keys[i] != keys[j]
    ensures var n := |ordered|;
            var front, key := ordered[..n - 1], KeyOf(ordered[n - 2], ordered[n - 1]);
            Recorded(keys, ordered, app, action) == Recorded(keys, front, app, action) +
            if CrossAppGap(ordered[n - 2], ordered[n - 1]).Some? && key in keys && HasTrigger(key, app, action) then 1 else 0
  {
    if keys != [] {
      RecordedGrows(keys[..|keys| - 1], ordered, app, action);
      assert keys == keys[..|keys| - 1] + [keys[|keys| - 1]];
    }
  }

  /** What the last event adds to the keys and to the gaps recorded over them. */
  lemma RecordedSnoc(ordered: seq<Edge>, app: string, action: string)
    requires |ordered| >= 2
    ensures var n := |ordered|;
            var front := ordered[..n - 1];
            Recorded(KeysOf(ordered), ordered, app, action) <=
            Recorded(KeysOf(front), front, app, action) + if IsAction(app, action)(ordered[n - 2]) then 1 else 0
  {
    var n := |ordered|;
    var front, keys, key := ordered[..n - 1], KeysOf(ordered[..n - 1]), KeyOf(ordered[n - 2], ordered[n - 1]);
    hide GapsOf, KeysOf, Recorded, CrossAppGap;
    KeysDistinct(front);
    KeysExact(front, key);
    RecordedGrows(keys, ordered, app, action);
    TimelineSnoc(ordered, n - 1);
    assert ordered[..n] == ordered;
    RecordedAppend(keys, key, ordered, app, action);
  }

  lemma RecordedAppend(keys: seq<Key>, key: Key, ordered: seq<Edge>, app: string, action: string)
    ensures Recorded(keys + [key], ordered, app, action) ==
            Recorded(keys, ordered, app, action) + if HasTrigger(key, app, action) then |GapsOf(ordered, key)| else 0
  {
    assert (keys + [key])[..|keys|] == keys;
  }

  /** Each recorded gap uses up one occurrence of the trigger other than the last event. */
  lemma {:induction false} RecordedBound(ordered: seq<Edge>, app: string, action: string)
    requires ordered != []
    ensures Recorded(KeysOf(ordered), ordered, app, action) <= ActionTotal(ordered[..|ordered| - 1], app, action)
  {
    if |ordered| >= 2 {
      hide KeysOf, Recorded;
      var front := ordered[..|ordered| - 1];
      RecordedBound(front, app, action);
      RecordedSnoc(ordered, app, action);
    }
  }

  /**
   Conservation: over all follow-ups of one trigger, at most as many gaps are
   recorded as the trigger occurs in the history.
  */
  lemma TransitionsConserved(events: seq<Edge>, app: string, action: string)
    ensures var ordered := SortBy(events, ByTime);
            Recorded(KeysOf(ordered), ordered, app, action) <= ActionTotal(events, app, action)
  {
    hide SortBy;
    SortPermutes(events, ByTime);
    var ordered := SortBy(events, ByTime);
    if ordered != [] { RecordedBound(ordered, app, action); }
    CountPermutation(SortBy(events, ByTime), events, IsAction(app, action));
  }

  lemma {:induction false} OneKeyWithin(keys: seq<Key>, ordered: seq<Edge>, key: Key)
    requires key in keys
    ensures |GapsOf(ordered, key)| <= Recorded(keys, ordered, key.triggerApp, key.triggerAction)
  {
    if key != keys[|keys| - 1] {
      assert keys == keys[..|keys| - 1] + [keys[|keys| - 1]];
      OneKeyWithin(keys[..|keys| - 1], ordered, key);
    }
  }

  lemma {:induction false} GapsInRange(ordered: seq<Edge>, key: Key)
    ensures forall i :: 0 <= i < |GapsOf(ordered, key)| ==> 0.0 <= GapsOf(ordered, key)[i] <= SEQUENCE_GAP_MINUTES
  {
    if |ordered| >= 2 { GapsInRange(ordered[..|ordered| - 1], key); }
  }

  lemma GapText(gaps: seq<real>)
    requires gaps != [] && forall i :: 0 <= i < |gaps| ==> 0.0 <= gaps[i] <= SEQUENCE_GAP_MINUTES
    ensures 1 <= DescribeGap(gaps) <= 30
  {
    SortPermutes(gaps, Itself);
    var r := SortBy(gaps, Itself);
    assert r[|gaps| / 2] in multiset(r) && r[|gaps| / 2] in multiset(gaps);
    RoundMonotone(Median(gaps), 30.0);
    RoundInteger(30);
    assert 30 as real == 30.0;
  }

  lemma RatioAtMostOne(a: nat, b: nat)
    requires 0 < a <= b
    ensures 0.0 < a as real / b as real <= 1.0
  {
    QuotientLess(a as real, b as real, 1.0);
    QuotientLess(a as real, b as real, 0.0);
  }

  lemma ReportIsBuilt(events: seq<Edge>, p: SequencePattern)
    requires p in Detected(events)
    ensures var ordered := SortBy(events, ByTime);
            && p.key in KeysOf(ordered)
            && |GapsOf(ordered, p.key)| >= MIN_SEQUENCE_OCCURRENCES
            && p == BuildSequence(p.key, GapsOf(ordered, p.key), ActionTotal(events, p.key.triggerApp, p.key.triggerAction))
  {
    hide BuildSequence, Count, KeysOf, GapsOf, BuildAll, SortBy;
    var ordered := SortBy(events, ByTime);
    var built := BuildAll(KeysOf(ordered), ordered, events);
    SortPermutes(built, Descending);
    assert p in multiset(SortBy(built, Descending)) && p in multiset(built);
    BuildAllMembers(KeysOf(ordered), ordered, events);
  }

  /**
   In every report neither guard of the confidence formula is needed: the total is
   positive, the share is at most 1, and the gap text names 1 to 30 minutes.
  */
  lemma ReportedShare(events: seq<Edge>, p: SequencePattern)
    requires p in Detected(events)
    ensures var gaps, total := GapsOf(SortBy(events, ByTime), p.key), ActionTotal(events, p.key.triggerApp, p.key.triggerAction);
            && 2 <= |gaps| <= total
            && p.confidence == Round2(|gaps| as real / total as real)
            && 0.0 <= p.confidence <= 1.0
            && |gaps| as real / total as real - 0.005 <= p.confidence <= |gaps| as real / total as real + 0.005
            && 1 <= p.gapMinutes <= 30
  {
    hide Round2, Round, DescribeGap, Detected, KeysOf, GapsOf, SortBy, Count, Median, Recorded;
    var ordered := SortBy(events, ByTime);
    ReportIsBuilt(events, p);
    var gaps, total := GapsOf(ordered, p.key), ActionTotal(events, p.key.triggerApp, p.key.triggerAction);
    OneKeyWithin(KeysOf(ordered), ordered, p.key);
    TransitionsConserved(events, p.key.triggerApp, p.key.triggerAction);
    RatioAtMostOne(|gaps|, total);
    Round2Within(0, |gaps| as real / total as real, 100);
    Round2Nearest(|gaps| as real / total as real);
    GapsInRange(ordered, p.key);
    GapText(gaps);
  }

  /** The unrounded confidences a list of keys gives one trigger, reported or not. */
  function ShareSum(keys: seq<Key>, ordered: seq<Edge>, events: seq<Edge>, app: string, action: string): real
    requires ActionTotal(events, app, action) > 0
  {
    if keys == [] then 0.0
    else
      var key := keys[|keys| - 1];
      ShareSum(keys[..|keys| - 1], ordered, events, app, action) +
      if HasTrigger(key, app, action)
      then |GapsOf(ordered, key)| as real / ActionTotal(events, app, action) as real else 0.0
  }

  lemma {:induction false} ShareSumIsRatio(keys: seq<Key>, ordered: seq<Edge>, events: seq<Edge>, app: string, action: string)
    requires ActionTotal(events, app, action) > 0
    ensures ShareSum(keys, ordered, events, app, action) * ActionTotal(events, app, action) as real ==
            Recorded(keys, ordered, app, action) as real
  {
    hide ActionTotal, GapsOf, HasTrigger;
    var m := ActionTotal(events, app, action) as real;
    if keys != [] {
      var front, key := keys[..|keys| - 1], keys[|keys| - 1];
      ShareSumIsRatio(front, ordered, events, app, action);
      if HasTrigger(key, app, action) {
        var a := |GapsOf(ordered, key)| as real;
        QuotientTimes(a, m);
        Distributes(ShareSum(front, ordered, events, app, action), a / m, m);
      }
    }
  }

  /** The confidences of all follow-ups of one trigger sum to at most 1. */
  lemma SharesSumToAtMostOne(events: seq<Edge>, app: string, action: string)
    requires ActionTotal(events, app, action) > 0
    ensures var ordered := SortBy(events, ByTime);
            ShareSum(KeysOf(ordered), ordered, events, app, action) <= 1.0
  {
    hide SortBy, KeysOf, Count;
    var ordered := SortBy(events, ByTime);
    TransitionsConserved(events, app, action);
    ShareSumIsRatio(KeysOf(ordered), ordered, events, app, action);
    var s, m := ShareSum(KeysOf(ordered), ordered, events, app, action), ActionTotal(events, app, action) as real;
    ScaleLess(1.0, s, m);
  }

  // What a report says, from the timeline alone -------------------------------------------

  function Below(m: real): real -> bool { (x: real) => x < m }

  function Above(m: real): real -> bool { (x: real) => x > m }

  function Equals(m: real): real -> bool { (x: real) => x == m }

  lemma {:induction false} CountBounds(s: seq<real>, p: real -> bool, lo: nat, hi: nat)
    requires lo <= hi <= |s| && forall i :: 0 <= i < |s| && p(s[i]) ==> lo <= i < hi
    ensures Count(s, p) <= hi - lo
  {
    if s != [] {
      var n := |s| - 1;
      if hi <= n { CountBounds(s[..n], p, lo, hi); } else if lo <= n { CountBounds(s[..n], p, lo, n); } else { CountNone(s, p); }
    }
  }

  lemma {:induction false} CountNone(s: seq<real>, p: real -> bool)
    requires forall i :: 0 <= i < |s| ==> !p(s[i])
    ensures Count(s, p) == 0
  {
    if s != [] { CountNone(s[..|s| - 1], p); }
  }

  /** The median: of n gaps at most n / 2 are smaller and at most n - 1 - n / 2 larger. */
  lemma MedianExact(gaps: seq<real>)
    requires gaps != []
    ensures Count(gaps, Below(Median(gaps))) <= |gaps| / 2
    ensures Count(gaps, Above(Median(gaps))) <= |gaps| - 1 - |gaps| / 2
    ensures Count(gaps, Equals(Median(gaps))) > 0
  {
    hide SortBy, Count;
    var r, k, m := SortBy(gaps, Itself), |gaps| / 2, Median(gaps);
    SortPermutes(gaps, Itself);
    SortAscending(gaps, Itself);
    forall i, j | 0 <= i < j < |r| ensures r[i] <= r[j] { assert Itself(r[i]) <= Itself(r[j]); }
    assert m == r[k];
    CountPermutation(gaps, r, Below(m));
    CountPermutation(gaps, r, Above(m));
    CountPermutation(gaps, r, Equals(m));
    CountBounds(r, Below(m), 0, k);
    CountBounds(r, Above(m), k + 1, |r|);
    WithoutOne(r, k, Equals(m));
  }

  /** q is a hit whose gap is a median of the gaps at all n hits. */
  ghost predicate MedianHit(ordered: seq<Edge>, key: Key, q: int) {
    var n := |Hits(ordered, key)|;
    && q in Hits(ordered, key)
    && |HitsWhere(ordered, key, Below(MinutesAt(ordered, q)))| <= n / 2
    && |HitsWhere(ordered, key, Above(MinutesAt(ordered, q)))| <= n - 1 - n / 2
  }

  /** Positions of the trigger in the history. */
  function Occurrences(events: seq<Edge>, app: string, action: string): set<int> {
    set i | 0 <= i < |events| && events[i].source.app == app && events[i].actionType == action
  }

  lemma TotalIsOccurrences(events: seq<Edge>, app: string, action: string)
    ensures ActionTotal(events, app, action) == |Occurrences(events, app, action)|
  {
    CountIsPositions(events, IsAction(app, action));
    assert Positions(events, IsAction(app, action)) == Occurrences(events, app, action);
  }

  /** The share of the trigger's occurrences that are hits, and the rounded median gap, at least one minute. */
  ghost predicate Describes(events: seq<Edge>, ordered: seq<Edge>, p: SequencePattern) {
    && |Hits(ordered, p.key)| >= 2
    && |Occurrences(events, p.key.triggerApp, p.key.triggerAction)| > 0
    && p.confidence == Round2(|Hits(ordered, p.key)| as real / |Occurrences(events, p.key.triggerApp, p.key.triggerAction)| as real)
    && exists q :: MedianHit(ordered, p.key, q) &&
         p.gapMinutes == if Round(MinutesAt(ordered, q)) > 1 then Round(MinutesAt(ordered, q)) else 1
  }

  lemma GapIsMedian(ordered: seq<Edge>, key: Key) returns (q: int)
    requires GapsOf(ordered, key) != []
    ensures MedianHit(ordered, key, q) && MinutesAt(ordered, q) == Median(GapsOf(ordered, key))
  {
    hide GapsOf, Median, Count, Hit, MinutesAt;
    var gaps := GapsOf(ordered, key);
    var m := Median(gaps);
    MedianExact(gaps);
    GapsCountHits(ordered, key);
    GapsCountWhere(ordered, key, Below(m));
    GapsCountWhere(ordered, key, Above(m));
    GapsCountWhere(ordered, key, Equals(m));
    assert HitsWhere(ordered, key, Equals(m)) != {};
    q :| q in HitsWhere(ordered, key, Equals(m));
  }

  lemma ReportDescribes(events: seq<Edge>, p: SequencePattern)
    requires p in Detected(events)
    ensures Describes(events, SortBy(events, ByTime), p)
  {
    hide Round2, Round, Median, Detected, KeysOf, GapsOf, SortBy, Count, Hits, Occurrences, MedianHit, MinutesAt;
    var ordered := SortBy(events, ByTime);
    ReportIsBuilt(events, p);
    ReportedShare(events, p);
    GapsCountHits(ordered, p.key);
    TotalIsOccurrences(events, p.key.triggerApp, p.key.triggerAction);
    var q := GapIsMedian(ordered, p.key);
  }

  /** The first hit of k is before every hit of l. */
  ghost predicate StartsBefore(ordered: seq<Edge>, k: Key, l: Key) {
    exists q :: q in Hits(ordered, k) && forall r :: r in Hits(ordered, l) ==> q < r
  }

  lemma KeyHasHit(ordered: seq<Edge>, key: Key)
    ensures key in KeysOf(ordered) <==> Hits(ordered, key) != {}
  {
    hide KeysOf, GapsOf, Hits;
    KeysExact(ordered, key);
    GapsCountHits(ordered, key);
  }

  /** The keys are listed by their first hit. */
  lemma {:induction false} KeysByFirst(ordered: seq<Edge>, x: int, y: int)
    requires 0 <= x < y < |KeysOf(ordered)|
    ensures StartsBefore(ordered, KeysOf(ordered)[x], KeysOf(ordered)[y])
  {
    hide Follows, CrossAppGap, KeyOf;
    var n := |ordered|;
    var front := ordered[..n - 1];
    var k, l := KeysOf(ordered)[x], KeysOf(ordered)[y];
    KeyHasHit(front, k);
    KeyHasHit(front, l);
    if y < |KeysOf(front)| {
      KeysByFirst(front, x, y);
    } else {
      KeysDistinct(ordered);
    }
    var q :| q in Hits(front, k) && forall r :: r in Hits(front, l) ==> q < r;
    assert Hit(front, q, k) && Hit(ordered, q, k) && q in Hits(ordered, k);
    forall r | r in Hits(ordered, l) ensures q < r {
      assert Hit(ordered, r, l);
      if r < n - 2 { assert Hit(front, r, l) && r in Hits(front, l); }
    }
  }

  /** Patterns are built in the order of the keys. */
  lemma {:induction false} BuiltInOrder(keys: seq<Key>, ordered: seq<Edge>, events: seq<Edge>, a: int, b: int) returns (x: int, y: int)
    requires 0 <= a < b < |BuildAll(keys, ordered, events)|
    ensures 0 <= x < y < |keys|
    ensures BuildAll(keys, ordered, events)[a].key == keys[x] && BuildAll(keys, ordered, events)[b].key == keys[y]
  {
    hide GapsOf, DescribeGap, Round2, Minimum, ActionTotal;
    var front := keys[..|keys| - 1];
    if b < |BuildAll(front, ordered, events)| {
      x, y := BuiltInOrder(front, ordered, events, a, b);
    } else {
      y := |keys| - 1;
      BuiltMembers(front, ordered, events, a);
      x :| 0 <= x < |front| && front[x] == BuildAll(front, ordered, events)[a].key;
    }
  }

  lemma BuiltMembers(keys: seq<Key>, ordered: seq<Edge>, events: seq<Edge>, a: int)
    requires 0 <= a < |BuildAll(keys, ordered, events)|
    ensures BuildAll(keys, ordered, events)[a].key in keys
  {
    hide BuildAll, BuildSequence;
    BuildAllMembers(keys, ordered, events);
    assert BuildAll(keys, ordered, events)[a] in BuildAll(keys, ordered, events);
  }

  /** Two reports in their order: the more confident first, and of equally confident ones the pair seen first. */
  ghost predicate Precede(ordered: seq<Edge>, p: SequencePattern, q: SequencePattern) {
    p.key != q.key && (p.confidence > q.confidence || (p.confidence == q.confidence && StartsBefore(ordered, p.key, q.key)))
  }

  lemma BuiltDistinct(events: seq<Edge>, ordered: seq<Edge>)
    ensures NoDuplicates(BuildAll(KeysOf(ordered), ordered, events))
    ensures forall a, b :: 0 <= a < b < |BuildAll(KeysOf(ordered), ordered, events)| ==>
              BuildAll(KeysOf(ordered), ordered, events)[a].key != BuildAll(KeysOf(ordered), ordered, events)[b].key
  {
    hide BuildAll, KeysOf;
    KeysDistinct(ordered);
    var built := BuildAll(KeysOf(ordered), ordered, events);
    forall a, b | 0 <= a < b < |built| ensures built[a].key != built[b].key {
      var x, y := BuiltInOrder(KeysOf(ordered), ordered, events, a, b);
    }
  }

  lemma ReportsInOrder(events: seq<Edge>, i: int, j: int)
    requires 0 <= i < j < |Detected(events)|
    ensures Precede(SortBy(events, ByTime), Detected(events)[i], Detected(events)[j])
  {
    hide SortBy, BuildAll, KeysOf, StartsBefore;
    var ordered := SortBy(events, ByTime);
    var built := BuildAll(KeysOf(ordered), ordered, events);
    var out := SortBy(built, Descending);
    BuiltDistinct(events, ordered);
    SortPermutes(built, Descending);
    SortAscending(built, Descending);
    NoDuplicatesPermutes(built, out);
    assert out[i] in multiset(out) && out[i] in multiset(built) && out[j] in multiset(out) && out[j] in multiset(built);
    var a :| 0 <= a < |built| && built[a] == out[i];
    var b :| 0 <= b < |built| && built[b] == out[j];
    assert out[i] != out[j];
    assert Descending(out[i]) <= Descending(out[j]);
    if out[i].confidence == out[j].confidence {
      if b < a { SortedForwards(built, b, a, j, i); }
      var x, y := BuiltInOrder(KeysOf(ordered), ordered, events, a, b);
      KeysByFirst(ordered, x, y);
    }
  }

  /** A stable sort keeps two equals in their order. */
  lemma SortedForwards(built: seq<SequencePattern>, a: int, b: int, i: int, j: int)
    requires NoDuplicates(built) && 0 <= a < b < |built| && built[a].confidence == built[b].confidence
    requires 0 <= i < |SortBy(built, Descending)| && 0 <= j < |SortBy(built, Descending)|
    requires SortBy(built, Descending)[i] == built[a] && SortBy(built, Descending)[j] == built[b]
    ensures i < j
  {
    hide SortBy;
    var out := SortBy(built, Descending);
    SortPermutes(built, Descending);
    NoDuplicatesPermutes(built, out);
    SortPrecedes(built, a, b, Descending);
    var x, y :| 0 <= x < y < |out| && out[x] == built[a] && out[y] == built[b];
    assert x == i && y == j;
  }

  /** The whole report: exactly the pairs with two hits, each described from the timeline, in their order. */
  ghost predicate IsDetection(events: seq<Edge>, out: seq<SequencePattern>) {
    var ordered := SortBy(events, ByTime);
    && (forall i :: 0 <= i < |out| ==> Describes(events, ordered, out[i]))
    && (forall i, j :: 0 <= i < j < |out| ==> Precede(ordered, out[i], out[j]))
    && (forall key :: |Hits(ordered, key)| >= 2 <==> Reports(out, key))
  }

  lemma DetectionExact(events: seq<Edge>)
    ensures IsDetection(events, Detected(events))
  {
    hide SortBy, Detected, Describes, Precede, Hits, GapsOf, Reports;
    var ordered, out := SortBy(events, ByTime), Detected(events);
    forall i | 0 <= i < |out| ensures Describes(events, ordered, out[i]) { ReportDescribes(events, out[i]); }
    forall i, j | 0 <= i < j < |out| ensures Precede(ordered, out[i], out[j]) { ReportsInOrder(events, i, j); }
    forall key ensures |Hits(ordered, key)| >= 2 <==> Reports(out, key) {
      ReportedExact(events, key);
      GapsCountHits(ordered, key);
    }
  }
}
