/**
 Intent scoring: merge two histories, fold them into one candidate per action
 type, score, rank, and take the first few. `half` stands for x -> 0.5^x, of which
 only Decay is used.
*/
module Scoring {
  import opened Options
  import opened GraphModel
  import opened GraphStores
  import opened Coherence
  import opened Sorting
  import opened Counting
  import opened Rounding
  import opened Keywords

  const MICROS_PER_DAY := 86_400_000_000.0

  /** Antitone on [0, infinity), positive, and 1 at 0. */
  ghost predicate Decay(half: real -> real) {
    && half(0.0) == 1.0
    && forall x, y :: 0.0 <= x <= y ==> 0.0 < half(y) <= half(x) <= 1.0
  }

  datatype Candidate = Candidate(action: string, count: nat, mostRecent: Edge, app: string, objectType: string)

  /** Why a prediction was made; the values its signal texts show. */
  datatype Signal = KeywordMatch(keyword: string) | Recency(app: string, ageDays: real) | BehaviorPattern(count: nat)

  datatype Prediction = Prediction(action: string, app: string, objectType: string, confidence: real, signals: seq<Signal>)

  // Grouping ---------------------------------------------------------------------

  /** What a candidate becomes when one more of its events is read. */
  function Noted(before: Option<Candidate>, r: Edge): Candidate {
    if before.None? then Candidate(r.actionType, 1, r, r.source.app, r.target.objectType)
    else
      var c := before.value.(count := before.value.count + 1);
      if r.ts > c.mostRecent.ts then c.(mostRecent := r, app := r.source.app, objectType := r.target.objectType) else c
  }

  /** The candidate the fold holds for an action after reading the history. */
  function Fold(history: seq<Edge>, action: string): Option<Candidate> {
    if history == [] then None
    else
      var r := history[|history| - 1];
      var before := Fold(history[..|history| - 1], action);
      if r.actionType != action then before else Some(Noted(before, r))
  }

  /** The action types in order of first occurrence, as the dictionary lists them. */
  function Actions(history: seq<Edge>): seq<string> {
    if history == [] then []
    else
      var a := history[|history| - 1].actionType;
      var before := Actions(history[..|history| - 1]);
      before + if a in before then [] else [a]
  }

  function IsType(action: string): Edge -> bool { (e: Edge) => e.actionType == action }

  /** The fold, described: how many events, the latest of them, and its application and object type. */
  lemma {:induction false} FoldExact(history: seq<Edge>, action: string)
    ensures Fold(history, action).Some? <==> action in Actions(history)
    ensures Fold(history, action).Some? <==> Count(history, IsType(action)) > 0
    ensures Fold(history, action).None? ==> forall e :: e in history ==> e.actionType != action
    ensures Fold(history, action).Some? ==>
              var c := Fold(history, action).value;
              && c.action == action
              && c.count == Count(history, IsType(action))
              && c.mostRecent in history && c.mostRecent.actionType == action
              && (forall e :: e in history && e.actionType == action ==> e.ts <= c.mostRecent.ts)
              && c.app == c.mostRecent.source.app && c.objectType == c.mostRecent.target.objectType
  {
    if history != [] {
      var front := history[..|history| - 1];
      FoldExact(front, action);
      assert history == front + [history[|history| - 1]];
    }
  }

  /** Of equally late events the first read one is kept, with its application and object type. */
  lemma {:induction false} LatestIsFirst(history: seq<Edge>, action: string) returns (k: int)
    requires Fold(history, action).Some?
    ensures 0 <= k < |history| && history[k] == Fold(history, action).value.mostRecent && history[k].actionType == action
    ensures forall m :: 0 <= m < |history| && history[m].actionType == action ==>
              history[m].ts <= history[k].ts && (m < k ==> history[m].ts < history[k].ts)
  {
    var front, n := history[..|history| - 1], |history| - 1;
    if Fold(front, action).None? {
      FoldExact(front, action);
      assert forall m :: 0 <= m < n ==> history[m] == front[m] && front[m] in front;
      k := n;
    } else {
      k := LatestIsFirst(front, action);
      assert forall m :: 0 <= m < n ==> history[m] == front[m];
      if history[n].actionType == action && history[n].ts > front[k].ts { k := n; }
    }
  }

  lemma ReadOne(history: seq<Edge>, i: nat)
    requires i < |history|
    ensures var r := history[i];
            && (forall a :: Fold(history[..i + 1], a) == if a == r.actionType then Some(Noted(Fold(history[..i], a), r)) else Fold(history[..i], a))
            && Actions(history[..i + 1]) == Actions(history[..i]) + if r.actionType in Actions(history[..i]) then [] else [r.actionType]
  {
    assert history[..i + 1][..i] == history[..i];
  }

  method GroupByActionType(history: seq<Edge>) returns (order: seq<string>, candidates: map<string, Candidate>)
    ensures order == Actions(history)
    ensures forall a :: (if a in candidates then Some(candidates[a]) else None) == Fold(history, a)
  {
    order, candidates := [], map[];
    assert forall a :: Fold([], a) == None;
    hide Fold, Actions;
    for i := 0 to |history|
      invariant order == Actions(history[..i])
      invariant forall a :: a in candidates <==> a in order
      invariant forall a :: (if a in candidates then Some(candidates[a]) else None) == Fold(history[..i], a)
    {
      var r := history[i];
      ReadOne(history, i);
      if r.actionType !in candidates {
        order := order + [r.actionType];
        candidates := candidates[r.actionType := Candidate(r.actionType, 0, r, r.source.app, r.target.objectType)];
      }
      var c := candidates[r.actionType];
      c := c.(count := c.count + 1);
      if r.ts > c.mostRecent.ts {
        c := c.(mostRecent := r, app := r.source.app, objectType := r.target.objectType);
      }
      candidates := candidates[r.actionType := c];
    }
    assert history[..|history|] == history;
  }

  // Scoring ------------------------------------------------------------------------

  function AgeDays(now: int, ts: int): real {
    var d := (now - ts) as real / MICROS_PER_DAY;
    if d > 0.0 then d else 0.0
  }

  function KeywordScore(matched: bool): real { if matched then 0.4 else 0.0 }

  function FrequencyScore(count: nat): real { 0.3 * if count < 5 then count as real / 5.0 else 1.0 }

  function RawScore(matched: bool, now: int, ts: int, count: nat, half: real -> real): real {
    KeywordScore(matched) + 0.3 * half(AgeDays(now, ts) / 3.0) + FrequencyScore(count)
  }

  function Confidence(matched: bool, now: int, ts: int, count: nat, half: real -> real): real {
    var c := Round4(RawScore(matched, now, ts, count, half));
    if c < 1.0 then c else 1.0
  }

  function Signals(action: string, matches: map<string, string>, app: string, ageDays: real, count: nat): seq<Signal> {
    (if action in matches then [KeywordMatch(matches[action])] else []) + [Recency(app, ageDays), BehaviorPattern(count)]
  }

  function ScoreCandidate(c: Candidate, matches: map<string, string>, now: int, half: real -> real): Prediction {
    Prediction(c.action, c.app, c.objectType, Confidence(c.action in matches, now, c.mostRecent.ts, c.count, half),
               Signals(c.action, matches, c.app, AgeDays(now, c.mostRecent.ts), c.count))
  }

  function ScoreAll(history: seq<Edge>, actions: seq<string>, matches: map<string, string>, now: int, half: real -> real): seq<Prediction>
  {
    if actions == [] then []
    else
      var c := Fold(history, actions[|actions| - 1]);
      ScoreAll(history, actions[..|actions| - 1], matches, now, half) +
      if c.Some? then [ScoreCandidate(c.value, matches, now, half)] else []
  }

  /** All predictions of a history, in dictionary order. */
  function All(history: seq<Edge>, matches: map<string, string>, now: int, half: real -> real): seq<Prediction> {
    ScoreAll(history, Actions(history), matches, now, half)
  }

  function IsPositive(p: Prediction): bool { p.confidence > 0.0 }

  function Positive(ps: seq<Prediction>): seq<Prediction> { Filter(ps, IsPositive) }

  function MostConfident(p: Prediction): real { -p.confidence }

  /** Python's ps[:n], which for a negative n drops elements from the end. */
  function Slice<T>(ps: seq<T>, n: int): seq<T> {
    if n >= 0 then (if n <= |ps| then ps[..n] else ps)
    else if |ps| + n >= 0 then ps[..|ps| + n] else []
  }

  function Ranked(history: seq<Edge>, matches: map<string, string>, now: int, half: real -> real): seq<Prediction> {
    SortBy(Positive(All(history, matches, now, half)), MostConfident)
  }

  function Scored(history: seq<Edge>, matches: map<string, string>, now: int, half: real -> real, maxResults: int): seq<Prediction> {
    Slice(Ranked(history, matches, now, half), maxResults)
  }

  // Collecting -----------------------------------------------------------------------

  /** An edge the user's merged history may hold. */
  predicate InScope(g: Graph, tenant: string, native: string, canonical: Option<string>, cutoff: int, e: Edge) {
    && e in g.performed && e.ts >= cutoff && e.source.tenant == tenant
    && (e.source.native == native || (canonical.Some? && HasCanonical(g.users, e.source, tenant, canonical.value)))
  }

  /** What a correct merged history is: each event in scope, once. */
  ghost predicate IsMerged(g: Graph, tenant: string, native: string, canonical: Option<string>, cutoff: int, history: seq<Edge>) {
    && UniqueIds(history)
    && forall e :: e in history <==> InScope(g, tenant, native, canonical, cutoff, e)
  }

  method CollectHistory(store: GraphStore, tenant: string, native: string, cutoff: int)
    returns (history: seq<Edge>, canonical: Option<string>)
    requires UniqueIds(store.State().performed)
    ensures IsCanonicalAnswer(store.State(), tenant, native, canonical)
    ensures IsMerged(store.State(), tenant, native, canonical, cutoff, history)
  {
    ghost var g := store.State();
    ghost var own := NativeEdges(g.performed, tenant, native, cutoff);
    history := store.GetUserHistory(tenant, native, cutoff);
    canonical := store.GetCanonicalUserId(tenant, native);
    FilterMembers(g.performed, NativeSince(tenant, native, cutoff));
    FilterKeepsUnique(g.performed, NativeSince(tenant, native, cutoff));
    UniquePermutes(own, history);
    SameMembers(own, history);
    if canonical.Some? {
      var rows := store.GetCrossAppHistory(tenant, canonical.value, cutoff);
      ghost var others := CanonicalEdges(g.performed, g.users, tenant, canonical.value, cutoff);
      FilterMembers(g.performed, CanonicalSince(g.users, tenant, canonical.value, cutoff));
      FilterKeepsUnique(g.performed, CanonicalSince(g.users, tenant, canonical.value, cutoff));
      UniquePermutes(others, rows);
      SameMembers(others, rows);
      MergeExact(g.performed, history, rows);
      history := Merge(history, rows);
    }
  }

  lemma SameMembers(a: seq<Edge>, b: seq<Edge>)
    requires multiset(a) == multiset(b)
    ensures forall e :: e in a <==> e in b
  {
    forall e ensures e in a <==> e in b {
      assert e in a <==> e in multiset(a);
      assert e in b <==> e in multiset(b);
    }
  }

  /** The first history, then the rows whose event id it does not hold. */
  function Merge(history: seq<Edge>, rows: seq<Edge>): seq<Edge> {
    if rows == [] then history
    else
      var r := rows[|rows| - 1];
      Merge(history, rows[..|rows| - 1]) + if r.eventId in EventIds(history) then [] else [r]
  }

  lemma {:induction false} MergeExact(es: seq<Edge>, history: seq<Edge>, rows: seq<Edge>)
    requires UniqueIds(es) && UniqueIds(history) && UniqueIds(rows)
    requires (forall e :: e in history ==> e in es) && forall e :: e in rows ==> e in es
    ensures UniqueIds(Merge(history, rows))
    ensures forall e :: e in Merge(history, rows) <==> e in history || e in rows
  {
    if rows != [] {
      var front, r := rows[..|rows| - 1], rows[|rows| - 1];
      assert rows == front + [r];
      MergeExact(es, history, front);
      var m := Merge(history, front);
      if r.eventId in EventIds(history) {
        var x :| x in history && x.eventId == r.eventId;
        SameIdSameEdge(es, x, r);
      } else {
        forall i | 0 <= i < |m| ensures m[i].eventId != r.eventId {
          assert m[i] in m;
          if m[i] in front {
            var k :| 0 <= k < |front| && front[k] == m[i];
            assert rows[k].eventId != rows[|front|].eventId;
          } else {
            assert m[i] in history;
          }
        }
      }
    }
  }

  method ScoreCandidates(history: seq<Edge>, matches: map<string, string>, now: int, half: real -> real)
    returns (predictions: seq<Prediction>)
    ensures predictions == All(history, matches, now, half)
  {
    hide Confidence, Fold;
    var order, candidates := GroupByActionType(history);
    predictions := [];
    for i := 0 to |order|
      invariant predictions == ScoreAll(history, order[..i], matches, now, half)
    {
      assert order[..i + 1][..i] == order[..i];
      FoldExact(history, order[i]);
      assert order[i] in candidates;
      predictions := predictions + [ScoreCandidate(candidates[order[i]], matches, now, half)];
    }
    assert order[..|order|] == order;
  }

  /** An answer of the scorer: from some allowed canonical id, merged history and keyword match. */
  ghost predicate IsAnswer(g: Graph, table: seq<Mapping>, tenant: string, native: string, trigger: Option<string>,
                           maxResults: int, cutoff: int, now: int, half: real -> real, predictions: seq<Prediction>)
  {
    exists history: seq<Edge>, canonical: Option<string>, matches: map<string, string> ::
      AnswersFrom(g, table, tenant, native, trigger, maxResults, cutoff, now, half, predictions, history, canonical, matches)
  }

  ghost predicate AnswersFrom(g: Graph, table: seq<Mapping>, tenant: string, native: string, trigger: Option<string>,
                              maxResults: int, cutoff: int, now: int, half: real -> real, predictions: seq<Prediction>,
                              history: seq<Edge>, canonical: Option<string>, matches: map<string, string>)
  {
    && IsCanonicalAnswer(g, tenant, native, canonical)
    && IsMerged(g, tenant, native, canonical, cutoff, history)
    && (history != [] ==> IsMatch(table, trigger, matches))
    && predictions == Scored(history, matches, now, half, maxResults)
  }

  /** score: everything put together. */
  method Score(store: GraphStore, table: seq<Mapping>, tenant: string, native: string, trigger: Option<string>,
               maxResults: int, cutoff: int, now: int, half: real -> real)
    returns (predictions: seq<Prediction>)
    requires UniqueIds(store.State().performed)
    ensures IsAnswer(store.State(), table, tenant, native, trigger, maxResults, cutoff, now, half, predictions)
  {
    hide IsMerged, IsCanonicalAnswer, IsMatch, ScoreAll, UniqueIds;
    ghost var g := store.State();
    var history, canonical := CollectHistory(store, tenant, native, cutoff);
    if history == [] {
      predictions := [];
      EmptyScores(map[], now, half, maxResults);
      assert AnswersFrom(g, table, tenant, native, trigger, maxResults, cutoff, now, half, predictions, history, canonical, map[]);
      return;
    }
    var matches := Match(table, trigger);
    predictions := ScoreCandidates(history, matches, now, half);
    predictions := Positive(predictions);
    predictions := SortBy(predictions, MostConfident);
    predictions := Slice(predictions, maxResults);
    assert AnswersFrom(g, table, tenant, native, trigger, maxResults, cutoff, now, half, predictions, history, canonical, matches);
  }

  lemma EmptyScores(matches: map<string, string>, now: int, half: real -> real, maxResults: int)
    ensures Scored([], matches, now, half, maxResults) == []
  {}
}
