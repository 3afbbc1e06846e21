/** What the scorer's answers promise: exact top-k, no double counting, and reinforcement. */
module ScoringLaws {
  import opened Options
  import opened GraphModel
  import opened Coherence
  import opened Sorting
  import opened Counting
  import opened Ranking
  import opened Rounding
  import opened Scoring
  import opened Keywords

  // Confidence ----------------------------------------------------------------------

  lemma FrequencyRange(count: nat)
    requires count > 0
    ensures 0.06 <= FrequencyScore(count) <= 0.3
  {}

  lemma AgeShrinks(now: int, ts: int, later: int)
    requires ts <= later
    ensures 0.0 <= AgeDays(now, later) / 3.0 <= AgeDays(now, ts) / 3.0
  {
    var a, b := (now - ts) as real, (now - later) as real;
    assert b / MICROS_PER_DAY <= a / MICROS_PER_DAY;
  }

  /** Every candidate scores at least 0.06 and at most 1, before any clipping. */
  lemma ConfidenceRange(matched: bool, now: int, ts: int, count: nat, half: real -> real)
    requires Decay(half) && count > 0
    ensures 0.06 <= Confidence(matched, now, ts, count, half) <= 1.0
    ensures Confidence(matched, now, ts, count, half) == Round4(RawScore(matched, now, ts, count, half))
  {
    hide Round4, FrequencyScore, AgeDays;
    FrequencyRange(count);
    AgeShrinks(now, ts, ts);
    var h := half(AgeDays(now, ts) / 3.0);
    assert 0.0 < h <= 1.0;
    Round4Within(600, RawScore(matched, now, ts, count, half), 10000);
  }

  /** One more event of the action, at any time, never lowers the confidence. */
  lemma ConfidenceGrows(matched: bool, now: int, ts: int, later: int, count: nat, half: real -> real)
    requires Decay(half) && count > 0 && ts <= later
    ensures Confidence(matched, now, ts, count, half) <= Confidence(matched, now, later, count + 1, half)
  {
    hide Round4, AgeDays;
    AgeShrinks(now, ts, later);
    assert half(AgeDays(now, ts) / 3.0) <= half(AgeDays(now, later) / 3.0);
    assert FrequencyScore(count) <= FrequencyScore(count + 1);
    Round4Monotone(RawScore(matched, now, ts, count, half), RawScore(matched, now, later, count + 1, half));
  }

  // What each signal is worth ---------------------------------------------------------

  /** A matched keyword adds exactly 0.4 to the confidence. */
  lemma KeywordAdds(now: int, ts: int, count: nat, half: real -> real)
    requires Decay(half) && count > 0
    ensures Confidence(true, now, ts, count, half) == Confidence(false, now, ts, count, half) + 0.4
  {
    hide Round4, FrequencyScore, AgeDays;
    ConfidenceRange(true, now, ts, count, half);
    ConfidenceRange(false, now, ts, count, half);
    Round4Shift(RawScore(false, now, ts, count, half), 4000);
    assert 4000 as real / 10000.0 == 0.4;
  }

  /** One more event at the same latest time adds 0.06 to the score up to the fifth, and nothing after. */
  lemma FrequencyAdds(matched: bool, now: int, ts: int, count: nat, half: real -> real)
    ensures RawScore(matched, now, ts, count + 1, half) == RawScore(matched, now, ts, count, half) + if count < 5 then 0.06 else 0.0
  {
    hide AgeDays;
  }

  /** An age of d days takes 0.3 * (1 - 0.5^(d / 3)) off the score of an event that happens now; a later time counts as now. */
  lemma RecencyTakes(matched: bool, now: int, ts: int, count: nat, half: real -> real, d: real)
    requires Decay(half) && d * 86_400_000_000.0 == (now - ts) as real
    ensures RawScore(matched, now, ts, count, half) ==
            RawScore(matched, now, now, count, half) - if d > 0.0 then 0.3 * (1.0 - half(d / 3.0)) else 0.0
  {
    hide KeywordScore, FrequencyScore;
    assert AgeDays(now, ts) == if d > 0.0 then d else 0.0;
    assert AgeDays(now, now) == 0.0;
    assert 0.0 / 3.0 == 0.0;
  }

  /** What recency contributes: the score less that of an infinitely old event. */
  function RecencyShare(now: int, ts: int, half: real -> real): real {
    RawScore(false, now, ts, 5, half) - RawScore(false, now, now, 5, half) + 0.3
  }

  /** It starts at 0.3 and halves every three days. */
  lemma RecencyHalves(now: int, ts: int, half: real -> real)
    requires Decay(half) && (forall x :: x >= 0.0 ==> half(x + 1.0) == half(x) / 2.0) && ts <= now
    ensures RecencyShare(now, now, half) == 0.3
    ensures RecencyShare(now, ts - 3 * 86_400_000_000, half) == RecencyShare(now, ts, half) / 2.0
  {
    hide RawScore;
    var d := (now - ts) as real / 86_400_000_000.0;
    var later := d + 3.0;
    assert d >= 0.0 && later / 3.0 == d / 3.0 + 1.0;
    RecencyTakes(false, now, ts, 5, half, d);
    assert (now - (ts - 3 * 86_400_000_000)) as real == (now - ts) as real + 3.0 * 86_400_000_000.0;
    RecencyTakes(false, now, ts - 3 * 86_400_000_000, 5, half, later);
    if d == 0.0 { assert half(0.0 / 3.0) == 1.0; }
  }

  /** Five events, the latest one now, and no keyword: exactly 0.6; with the keyword, exactly 1. */
  lemma FullMarks(now: int, count: nat, half: real -> real)
    requires Decay(half) && count >= 5
    ensures Confidence(false, now, now, count, half) == 0.6 && Confidence(true, now, now, count, half) == 1.0
    ensures RawScore(false, now, now, count, half) == 0.6
  {
    assert AgeDays(now, now) == 0.0 && 0.0 / 3.0 == 0.0;
    assert RawScore(false, now, now, count, half) == 0.6;
    hide RawScore, Confidence;
    ConfidenceRange(false, now, now, count, half);
    RoundInteger(6000);
    assert 0.6 * 10000.0 == 6000 as real;
    KeywordAdds(now, now, count, half);
  }

  // Exact top-k ------------------------------------------------------------------------

  lemma {:induction false} ActionsDistinct(history: seq<Edge>)
    ensures NoDuplicates(Actions(history))
  {
    if history != [] { ActionsDistinct(history[..|history| - 1]); }
  }

  lemma {:induction false} ActionsMembers(history: seq<Edge>)
    ensures forall a :: a in Actions(history) <==> exists e :: e in history && e.actionType == a
  {
    if history != [] {
      ActionsMembers(history[..|history| - 1]);
      assert history == history[..|history| - 1] + [history[|history| - 1]];
    }
  }

  /** The prediction for one action of the history. */
  function PredictionFor(history: seq<Edge>, action: string, matches: map<string, string>, now: int, half: real -> real): Prediction
    requires Fold(history, action).Some?
  {
    ScoreCandidate(Fold(history, action).value, matches, now, half)
  }

  /** p is the prediction for one action of the history, and in range. */
  ghost predicate Predicts(history: seq<Edge>, action: string, p: Prediction, matches: map<string, string>, now: int, half: real -> real) {
    && Fold(history, action).Some?
    && p == PredictionFor(history, action, matches, now, half)
    && p.action == action
    && 0.06 <= p.confidence <= 1.0
  }

  lemma OneExact(history: seq<Edge>, action: string, matches: map<string, string>, now: int, half: real -> real)
    requires Decay(half) && action in Actions(history)
    ensures Fold(history, action).Some?
    ensures Predicts(history, action, PredictionFor(history, action, matches, now, half), matches, now, half)
  {
    hide Fold, Confidence, Actions;
    FoldExact(history, action);
    var c := Fold(history, action).value;
    ConfidenceRange(c.action in matches, now, c.mostRecent.ts, c.count, half);
  }

  /** One prediction per distinct action type, in order, none of them dropped. */
  lemma {:induction false} AllExact(history: seq<Edge>, actions: seq<string>, matches: map<string, string>, now: int, half: real -> real)
    requires Decay(half) && forall i :: 0 <= i < |actions| ==> actions[i] in Actions(history)
    ensures |ScoreAll(history, actions, matches, now, half)| == |actions|
    ensures forall i :: 0 <= i < |actions| ==>
              Predicts(history, actions[i], ScoreAll(history, actions, matches, now, half)[i], matches, now, half)
  {
    hide Fold, Actions, Predicts, ScoreCandidate;
    if actions != [] {
      var front, a := actions[..|actions| - 1], actions[|actions| - 1];
      AllExact(history, front, matches, now, half);
      OneExact(history, a, matches, now, half);
    }
  }

  /**
   Exact top-k: as many predictions as asked for or as there are action types,
   ordered by confidence, all in [0.06, 1], and no left-out action beats a listed one.
  */
  lemma ExactTopK(history: seq<Edge>, matches: map<string, string>, now: int, half: real -> real, maxResults: int)
    requires Decay(half)
    ensures var out, ranked := Scored(history, matches, now, half, maxResults), Ranked(history, matches, now, half);
            && |ranked| == |Actions(history)|
            && multiset(ranked) == multiset(All(history, matches, now, half))
            && (forall p :: p in ranked ==> 0.06 <= p.confidence <= 1.0)
            && (maxResults >= 0 ==> |out| == if maxResults <= |Actions(history)| then maxResults else |Actions(history)|)
            && (maxResults < 0 ==> |out| == if |Actions(history)| + maxResults >= 0 then |Actions(history)| + maxResults else 0)
            && out <= ranked
            && (forall i, j :: 0 <= i < j < |ranked| ==> ranked[i].confidence >= ranked[j].confidence)
  {
    hide Fold, Actions, ScoreAll, Filter, SortBy;
    var all := All(history, matches, now, half);
    AllExact(history, Actions(history), matches, now, half);
    FilterAll(all, IsPositive);
    SortPermutes(all, MostConfident);
    SortAscending(all, MostConfident);
    var ranked := Ranked(history, matches, now, half);
    forall p | p in ranked ensures 0.06 <= p.confidence <= 1.0 {
      assert p in multiset(ranked) && p in multiset(all);
      var i :| 0 <= i < |all| && all[i] == p;
    }
    forall i, j | 0 <= i < j < |ranked| ensures ranked[i].confidence >= ranked[j].confidence {
      assert MostConfident(ranked[i]) <= MostConfident(ranked[j]);
    }
  }

  // No double counting -----------------------------------------------------------------

  function TotalCount(history: seq<Edge>, actions: seq<string>): nat {
    if actions == [] then 0
    else TotalCount(history, actions[..|actions| - 1]) + Count(history, IsType(actions[|actions| - 1]))
  }

  lemma {:induction false} TotalGrows(history: seq<Edge>, actions: seq<string>)
    requires history != [] && NoDuplicates(actions)
    ensures TotalCount(history, actions) ==
            TotalCount(history[..|history| - 1], actions) + if history[|history| - 1].actionType in actions then 1 else 0
  {
    if actions != [] {
      TotalGrows(history, actions[..|actions| - 1]);
      assert actions == actions[..|actions| - 1] + [actions[|actions| - 1]];
    }
  }

  /** The candidates' counts add up to the size of the history. */
  lemma {:induction false} CountsAddUp(history: seq<Edge>)
    ensures TotalCount(history, Actions(history)) == |history|
  {
    if history != [] {
      var front, x := history[..|history| - 1], history[|history| - 1];
      CountsAddUp(front);
      ActionsDistinct(history);
      TotalGrows(history, Actions(history));
      if x.actionType !in Actions(front) {
        FoldExact(front, x.actionType);
        assert Actions(history)[..|Actions(front)|] == Actions(front);
      } else {
        assert Actions(history) == Actions(front);
      }
    }
  }

  function OfType(edges: set<Edge>, action: string): set<Edge> { set e | e in edges && e.actionType == action }

  function Members(history: seq<Edge>): set<Edge> { set e | e in history }

  lemma NoMembers(action: string)
    ensures OfType(Members([]), action) == {}
  {}

  lemma OneMoreMember(history: seq<Edge>, action: string)
    requires history != [] && UniqueIds(history)
    ensures var front, x := history[..|history| - 1], history[|history| - 1];
            |OfType(Members(history), action)| == |OfType(Members(front), action)| + if x.actionType == action then 1 else 0
  {
    var front, x := history[..|history| - 1], history[|history| - 1];
    assert history == front + [x];
    assert x !in front;
    assert OfType(Members(history), action) == OfType(Members(front), action) + if x.actionType == action then {x} else {};
  }

  lemma {:induction false} CountIsSetSize(history: seq<Edge>, action: string)
    requires UniqueIds(history)
    ensures Count(history, IsType(action)) == |OfType(Members(history), action)|
  {
    hide OfType, Members;
    if history == [] {
      NoMembers(action);
    } else {
      var front, x := history[..|history| - 1], history[|history| - 1];
      CountIsSetSize(front, action);
      OneMoreMember(history, action);
    }
  }

  /** The stored edges that count for the user. */
  function ScopeSet(g: Graph, tenant: string, native: string, canonical: Option<string>, cutoff: int): set<Edge> {
    set e | e in g.performed && InScope(g, tenant, native, canonical, cutoff, e)
  }

  /**
   No double counting: the count behind a prediction is the number of distinct
   in-window events of its action under the native id or the chosen canonical id,
   and its most recent event is the latest of them.
  */
  lemma NoDoubleCounting(g: Graph, tenant: string, native: string, canonical: Option<string>, cutoff: int, history: seq<Edge>, action: string)
    requires IsMerged(g, tenant, native, canonical, cutoff, history)
    ensures Count(history, IsType(action)) == |OfType(ScopeSet(g, tenant, native, canonical, cutoff), action)|
    ensures Fold(history, action).Some? <==> OfType(ScopeSet(g, tenant, native, canonical, cutoff), action) != {}
    ensures Fold(history, action).Some? ==>
              var c := Fold(history, action).value;
              && c.count == |OfType(ScopeSet(g, tenant, native, canonical, cutoff), action)|
              && c.mostRecent in OfType(ScopeSet(g, tenant, native, canonical, cutoff), action)
              && forall e :: e in OfType(ScopeSet(g, tenant, native, canonical, cutoff), action) ==> e.ts <= c.mostRecent.ts
  {
    hide Fold, Count, InScope;
    CountIsSetSize(history, action);
    FoldExact(history, action);
    assert Members(history) == ScopeSet(g, tenant, native, canonical, cutoff) by {
      forall e ensures e in history <==> e in g.performed && InScope(g, tenant, native, canonical, cutoff, e) {
        ScopeIsStored(g, tenant, native, canonical, cutoff, e);
      }
    }
  }

  lemma ScopeIsStored(g: Graph, tenant: string, native: string, canonical: Option<string>, cutoff: int, e: Edge)
    ensures InScope(g, tenant, native, canonical, cutoff, e) ==> e in g.performed
  {}

  // The answer, from the store alone --------------------------------------------------------

  /** The signals: the matched keyword if there is one, then the latest event's application and age in days, then the count. */
  ghost predicate Explains(signals: seq<Signal>, action: string, matches: map<string, string>, latest: Edge, now: int, count: nat) {
    exists days ::
      && days * 86_400_000_000.0 == (if now > latest.ts then now - latest.ts else 0) as real
      && signals == (if action in matches then [KeywordMatch(matches[action])] else []) + [Recency(latest.source.app, days), BehaviorPattern(count)]
  }

  /** A prediction says of the stored edges in scope exactly what is there. */
  ghost predicate Backed(scope: set<Edge>, p: Prediction, matches: map<string, string>, now: int, half: real -> real) {
    exists latest ::
      && latest in OfType(scope, p.action) && (forall e :: e in OfType(scope, p.action) ==> e.ts <= latest.ts)
      && p.app == latest.source.app && p.objectType == latest.target.objectType
      && p.confidence == Confidence(p.action in matches, now, latest.ts, |OfType(scope, p.action)|, half)
      && Explains(p.signals, p.action, matches, latest, now, |OfType(scope, p.action)|)
  }

  /** One backed prediction per action type in scope, most confident first. */
  ghost predicate IsRanking(scope: set<Edge>, ranked: seq<Prediction>, matches: map<string, string>, now: int, half: real -> real) {
    && (forall i, j :: 0 <= i < j < |ranked| ==> ranked[i].action != ranked[j].action && ranked[i].confidence >= ranked[j].confidence)
    && (forall i :: 0 <= i < |ranked| ==> Backed(scope, ranked[i], matches, now, half))
    && (forall e :: e in scope ==> exists i :: 0 <= i < |ranked| && ranked[i].action == e.actionType)
  }

  lemma PredictedIsBacked(g: Graph, tenant: string, native: string, canonical: Option<string>, cutoff: int, history: seq<Edge>,
                          action: string, p: Prediction, matches: map<string, string>, now: int, half: real -> real)
    requires IsMerged(g, tenant, native, canonical, cutoff, history) && Predicts(history, action, p, matches, now, half)
    ensures Backed(ScopeSet(g, tenant, native, canonical, cutoff), p, matches, now, half)
  {
    hide Fold, Confidence, IsMerged, ScopeSet, OfType;
    NoDoubleCounting(g, tenant, native, canonical, cutoff, history, action);
    FoldExact(history, action);
    var latest := Fold(history, action).value.mostRecent;
    assert latest in OfType(ScopeSet(g, tenant, native, canonical, cutoff), p.action);
  }

  /** Every prediction of the ranking belongs to one action of the history, and the other way round. */
  lemma RankingByAction(history: seq<Edge>, matches: map<string, string>, now: int, half: real -> real)
    requires Decay(half)
    ensures var ranked := Ranked(history, matches, now, half);
            && (forall i :: 0 <= i < |ranked| ==> Predicts(history, ranked[i].action, ranked[i], matches, now, half))
            && (forall i, j :: 0 <= i < j < |ranked| ==> ranked[i].action != ranked[j].action)
            && (forall a :: a in Actions(history) ==> exists i :: 0 <= i < |ranked| && ranked[i].action == a)
  {
    hide Actions, Ranked, All, Fold, PredictionFor;
    var ranked := Ranked(history, matches, now, half);
    forall i | 0 <= i < |ranked| ensures Predicts(history, ranked[i].action, ranked[i], matches, now, half) {
      var x := IndexOfRanked(history, i, matches, now, half);
    }
    forall i, j | 0 <= i < j < |ranked| ensures ranked[i].action != ranked[j].action {
      var x := IndexOfRanked(history, i, matches, now, half);
      var k := RankedPosition(history, x, matches, now, half);
      assert i == k;
    }
    forall a | a in Actions(history) ensures exists i :: 0 <= i < |ranked| && ranked[i].action == a {
      var x :| 0 <= x < |Actions(history)| && Actions(history)[x] == a;
      var k := RankedPosition(history, x, matches, now, half);
    }
  }

  /**
   The scorer, end to end: whatever answer it gives is a slice of the ranking of the
   stored edges in scope, for a canonical id the store allows. Nothing of how the
   histories were read, merged or folded shows.
  */
  lemma AnswerIsRanking(g: Graph, table: seq<Mapping>, tenant: string, native: string, trigger: Option<string>,
                        maxResults: int, cutoff: int, now: int, half: real -> real, predictions: seq<Prediction>)
    returns (canonical: Option<string>, matches: map<string, string>, ranked: seq<Prediction>)
    requires Decay(half)
    requires IsAnswer(g, table, tenant, native, trigger, maxResults, cutoff, now, half, predictions)
    ensures IsCanonicalAnswer(g, tenant, native, canonical)
    ensures IsRanking(ScopeSet(g, tenant, native, canonical, cutoff), ranked, matches, now, half)
    ensures ranked != [] ==> IsMatch(table, trigger, matches)
    ensures predictions == Slice(ranked, maxResults)
  {
    hide IsCanonicalAnswer, IsMatch, IsMerged, Ranked, Predicts, Backed, ScopeSet, Actions;
    var history, c, m :|
      AnswersFrom(g, table, tenant, native, trigger, maxResults, cutoff, now, half, predictions, history, c, m);
    canonical, matches, ranked := c, m, Ranked(history, m, now, half);
    RankingByAction(history, matches, now, half);
    ExactTopK(history, matches, now, half, maxResults);
    var scope := ScopeSet(g, tenant, native, canonical, cutoff);
    forall i | 0 <= i < |ranked| ensures Backed(scope, ranked[i], matches, now, half) {
      PredictedIsBacked(g, tenant, native, canonical, cutoff, history, ranked[i].action, ranked[i], matches, now, half);
    }
    ActionsMembers(history);
    forall e | e in scope ensures exists i :: 0 <= i < |ranked| && ranked[i].action == e.actionType {
      ScopeIsHistory(g, tenant, native, canonical, cutoff, history, e);
      assert e.actionType in Actions(history);
    }
    if history == [] { NoActions(); }
  }

  lemma NoActions()
    ensures Actions([]) == []
  {}

  lemma ScopeIsHistory(g: Graph, tenant: string, native: string, canonical: Option<string>, cutoff: int, history: seq<Edge>, e: Edge)
    requires IsMerged(g, tenant, native, canonical, cutoff, history)
    ensures e in ScopeSet(g, tenant, native, canonical, cutoff) <==> e in history
  {}

  // Reinforcement -------------------------------------------------------------------------

  function Inserted(history: seq<Edge>, i: nat, r: Edge): seq<Edge>
    requires i <= |history|
  {
    history[..i] + [r] + history[i..]
  }

  /** The events of one type, in order: all the fold looks at. */
  function Typed(history: seq<Edge>, action: string): seq<Edge> { Filter(history, IsType(action)) }

  lemma {:induction false} FoldSeesTyped(history: seq<Edge>, action: string)
    ensures Fold(history, action) == Fold(Typed(history, action), action)
  {
    if history != [] {
      var front, x := history[..|history| - 1], history[|history| - 1];
      FoldSeesTyped(front, action);
      if x.actionType == action {
        var t := Typed(history, action);
        assert t[..|t| - 1] == Typed(front, action) && t[|t| - 1] == x;
      } else {
        assert Typed(history, action) == Typed(front, action);
      }
    }
  }

  /** The other candidates do not notice the new event. */
  lemma OthersUnchanged(history: seq<Edge>, i: nat, r: Edge, action: string)
    requires i <= |history| && action != r.actionType
    ensures Fold(Inserted(history, i, r), action) == Fold(history, action)
  {
    var l, t := history[..i], history[i..];
    FilterConcat(l + [r], t, IsType(action));
    FilterSnoc(l, r, IsType(action));
    FilterConcat(l, t, IsType(action));
    assert l + t == history;
    FoldSeesTyped(Inserted(history, i, r), action);
    FoldSeesTyped(history, action);
  }

  lemma CountInserted(history: seq<Edge>, i: nat, r: Edge)
    requires i <= |history|
    ensures Count(Inserted(history, i, r), IsType(r.actionType)) == Count(history, IsType(r.actionType)) + 1
  {
    hide Count;
    var h := Inserted(history, i, r);
    assert h[..i] + h[i + 1..] == history[..i] + history[i..] == history;
    WithoutOne(h, i, IsType(r.actionType));
  }

  /** The action itself gains one, and its latest event can only get later. */
  lemma ActionGains(history: seq<Edge>, i: nat, r: Edge)
    requires i <= |history| && Fold(history, r.actionType).Some?
    ensures Fold(Inserted(history, i, r), r.actionType).Some?
    ensures var c, d := Fold(history, r.actionType).value, Fold(Inserted(history, i, r), r.actionType).value;
            d.count == c.count + 1 && d.mostRecent.ts >= c.mostRecent.ts && d.action == c.action == r.actionType
  {
    hide Fold;
    FoldExact(history, r.actionType);
    FoldExact(Inserted(history, i, r), r.actionType);
    CountInserted(history, i, r);
    assert history == history[..i] + history[i..];
    assert forall e :: e in history ==> e in Inserted(history, i, r);
  }

  /** Where an action type first occurs. */
  ghost predicate FirstAt(history: seq<Edge>, action: string, k: int) {
    && 0 <= k < |history| && history[k].actionType == action
    && forall m :: 0 <= m < k ==> history[m].actionType != action
  }

  lemma {:induction false} FirstExists(history: seq<Edge>, action: string) returns (k: int)
    requires exists e :: e in history && e.actionType == action
    ensures FirstAt(history, action, k)
  {
    var front, x := history[..|history| - 1], history[|history| - 1];
    assert history == front + [x];
    if e :| e in front && e.actionType == action {
      k := FirstExists(front, action);
    } else {
      forall m | 0 <= m < |front| ensures history[m].actionType != action {
        assert history[m] == front[m] && front[m] in front;
      }
      k := |front|;
    }
  }

  /** Dictionary order is the order of first occurrence. */
  lemma {:induction false} ActionsByFirst(history: seq<Edge>, x: int, y: int, k: int, l: int)
    requires 0 <= x < |Actions(history)| && 0 <= y < |Actions(history)|
    requires FirstAt(history, Actions(history)[x], k) && FirstAt(history, Actions(history)[y], l)
    ensures x < y <==> k < l
  {
    ActionsDistinct(history);
    if x < y {
      EarlierFirst(history, x, y, k, l);
    } else if y < x {
      EarlierFirst(history, y, x, l, k);
    } else {
      assert k == l;
    }
  }

  lemma {:induction false} EarlierFirst(history: seq<Edge>, x: int, y: int, k: int, l: int)
    requires 0 <= x < y < |Actions(history)|
    requires FirstAt(history, Actions(history)[x], k) && FirstAt(history, Actions(history)[y], l)
    ensures k < l
  {
    var front, z := history[..|history| - 1], history[|history| - 1];
    var before := Actions(front);
    ActionsMembers(front);
    assert before[x] in before;
    var kk := FirstExists(front, before[x]);
    assert kk == k;
    if y < |before| {
      assert before[y] in before;
      var ll := FirstExists(front, before[y]);
      assert ll == l;
      EarlierFirst(front, x, y, k, l);
    } else {
      assert z.actionType == Actions(history)[y];
      forall m | 0 <= m < |front| ensures history[m].actionType != z.actionType {
        assert front[m] in front;
      }
    }
  }

  lemma FirstAfterInsert(history: seq<Edge>, i: nat, r: Edge, action: string, k: int, kk: int)
    requires i <= |history| && FirstAt(history, action, k) && FirstAt(Inserted(history, i, r), action, kk)
    ensures action != r.actionType ==> kk == if k < i then k else k + 1
    ensures action == r.actionType ==> kk == if k < i then k else i
  {
    var h := Inserted(history, i, r);
    assert forall m :: 0 <= m < i ==> h[m] == history[m];
    assert h[i] == r;
    assert forall m :: i <= m < |history| ==> h[m + 1] == history[m];
    var expected := if k < i then k else if action == r.actionType then i else k + 1;
    forall m | 0 <= m < expected ensures h[m].actionType != action {
      assert h[m] == if m < i then history[m] else if m == i then r else history[m - 1];
    }
    assert h[expected].actionType == action;
  }

  /** An action type listed before the reinforced one afterwards was listed before it already. */
  lemma OrderBefore(history: seq<Edge>, i: nat, r: Edge, x: int, y: int, j: int, k: int)
    requires i <= |history|
    requires 0 <= x < |Actions(history)| && 0 <= k < |Actions(history)|
    requires 0 <= j < y < |Actions(Inserted(history, i, r))|
    requires Actions(history)[x] == r.actionType == Actions(Inserted(history, i, r))[y]
    requires Actions(history)[k] == Actions(Inserted(history, i, r))[j] != r.actionType
    ensures k < x
  {
    hide Actions, Inserted, FirstAt;
    var h := Inserted(history, i, r);
    var a, b := r.actionType, Actions(history)[k];
    ActionsMembers(history);
    ActionsMembers(h);
    assert Actions(history)[x] in Actions(history) && Actions(history)[k] in Actions(history);
    assert Actions(h)[y] in Actions(h) && Actions(h)[j] in Actions(h);
    var ka := FirstExists(history, a);
    var kb := FirstExists(history, b);
    var la := FirstExists(h, a);
    var lb := FirstExists(h, b);
    FirstAfterInsert(history, i, r, a, ka, la);
    FirstAfterInsert(history, i, r, b, kb, lb);
    ActionsByFirst(h, j, y, lb, la);
    ActionsByFirst(history, k, x, kb, ka);
  }

  lemma ActionsAfterInsert(history: seq<Edge>, i: nat, r: Edge, action: string)
    requires i <= |history| && r.actionType in Actions(history)
    ensures action in Actions(Inserted(history, i, r)) <==> action in Actions(history)
  {
    hide Actions;
    var h := Inserted(history, i, r);
    ActionsMembers(history);
    ActionsMembers(h);
    assert history == history[..i] + history[i..];
    assert forall e :: e in h <==> e in history || e == r;
  }

  /** All the predictions of a history, pairwise different. */
  lemma AllDistinct(history: seq<Edge>, matches: map<string, string>, now: int, half: real -> real)
    requires Decay(half)
    ensures var ps := All(history, matches, now, half);
            && |ps| == |Actions(history)| && NoDuplicates(ps) && Positive(ps) == ps
            && forall i :: 0 <= i < |ps| ==> Predicts(history, Actions(history)[i], ps[i], matches, now, half)
  {
    hide Actions, ScoreAll, Fold, PredictionFor;
    AllExact(history, Actions(history), matches, now, half);
    ActionsDistinct(history);
    FilterAll(All(history, matches, now, half), IsPositive);
  }

  /** Every other action type keeps its prediction; the reinforced one gains confidence. */
  lemma PredictionsAfterInsert(history: seq<Edge>, i: nat, r: Edge, action: string, p: Prediction, q: Prediction,
                               matches: map<string, string>, now: int, half: real -> real)
    requires Decay(half) && i <= |history|
    requires Predicts(history, action, p, matches, now, half) && Predicts(Inserted(history, i, r), action, q, matches, now, half)
    ensures action != r.actionType ==> q == p
    ensures action == r.actionType ==> q.confidence >= p.confidence
  {
    hide Fold, Confidence, Inserted;
    if action != r.actionType {
      OthersUnchanged(history, i, r, action);
    } else {
      ActionGains(history, i, r);
      FoldExact(history, action);
      var c, d := Fold(history, action).value, Fold(Inserted(history, i, r), action).value;
      ConfidenceGrows(action in matches, now, c.mostRecent.ts, d.mostRecent.ts, c.count, half);
    }
  }

  /** Whatever is ahead of the reinforced action afterwards was ahead of it before. */
  lemma AheadBefore(history: seq<Edge>, i: nat, r: Edge, x: int, y: int, j: int, matches: map<string, string>, now: int, half: real -> real)
    returns (k: int)
    requires Decay(half) && i <= |history|
    requires 0 <= x < |Actions(history)| && 0 <= y < |Actions(Inserted(history, i, r))|
    requires Actions(history)[x] == r.actionType == Actions(Inserted(history, i, r))[y]
    requires Ahead(All(Inserted(history, i, r), matches, now, half), MostConfident, j, y)
    ensures Ahead(All(history, matches, now, half), MostConfident, k, x)
    ensures 0 <= j < |Actions(Inserted(history, i, r))| && 0 <= k < |Actions(history)|
    ensures Actions(history)[k] == Actions(Inserted(history, i, r))[j]
  {
    hide Actions, Inserted, All, Predicts;
    var h := Inserted(history, i, r);
    var ps, qs := All(history, matches, now, half), All(h, matches, now, half);
    AllDistinct(history, matches, now, half);
    AllDistinct(h, matches, now, half);
    ActionsDistinct(h);
    var b := Actions(h)[j];
    assert b != r.actionType;
    ActionsAfterInsert(history, i, r, b);
    k :| 0 <= k < |Actions(history)| && Actions(history)[k] == b;
    PredictionsAfterInsert(history, i, r, b, ps[k], qs[j], matches, now, half);
    PredictionsAfterInsert(history, i, r, r.actionType, ps[x], qs[y], matches, now, half);
    if j < y { OrderBefore(history, i, r, x, y, j, k); }
  }

  function NameAt(history: seq<Edge>): int -> seq<string> {
    var names := Actions(history);
    (j: int) => if 0 <= j < |names| then [names[j]] else []
  }

  lemma NamesInjective(history: seq<Edge>, s: set<int>)
    requires forall j :: j in s ==> 0 <= j < |Actions(history)|
    ensures |Image(s, NameAt(history))| == |s|
  {
    hide Actions;
    ActionsDistinct(history);
    forall j, k | j in s && k in s && NameAt(history)(j) == NameAt(history)(k) ensures j == k {
      assert NameAt(history)(j)[0] == NameAt(history)(k)[0];
    }
    InjectiveImage(s, NameAt(history));
  }

  /** No more predictions stand ahead of the reinforced action than did before. */
  lemma FewerAhead(history: seq<Edge>, i: nat, r: Edge, x: int, y: int, matches: map<string, string>, now: int, half: real -> real)
    requires Decay(half) && i <= |history|
    requires 0 <= x < |Actions(history)| && 0 <= y < |Actions(Inserted(history, i, r))|
    requires Actions(history)[x] == r.actionType == Actions(Inserted(history, i, r))[y]
    ensures |AllAhead(All(Inserted(history, i, r), matches, now, half), MostConfident, y)|
            <= |AllAhead(All(history, matches, now, half), MostConfident, x)|
  {
    hide Actions, Inserted, All;
    var h := Inserted(history, i, r);
    AllDistinct(history, matches, now, half);
    AllDistinct(h, matches, now, half);
    var before, after := AllAhead(All(history, matches, now, half), MostConfident, x), AllAhead(All(h, matches, now, half), MostConfident, y);
    NamesInjective(history, before);
    NamesInjective(h, after);
    forall v | v in Image(after, NameAt(h)) ensures v in Image(before, NameAt(history)) {
      var j :| j in after && NameAt(h)(j) == v;
      var k := AheadBefore(history, i, r, x, y, j, matches, now, half);
      assert k in before && NameAt(history)(k) == v;
    }
    SubsetAtMost(Image(after, NameAt(h)), Image(before, NameAt(history)));
  }

  /** The position of an action's prediction in the ranking. */
  lemma RankedPosition(history: seq<Edge>, x: int, matches: map<string, string>, now: int, half: real -> real) returns (p: int)
    requires Decay(half) && 0 <= x < |Actions(history)|
    ensures 0 <= p < |Ranked(history, matches, now, half)| == |Actions(history)|
    ensures Predicts(history, Actions(history)[x], Ranked(history, matches, now, half)[p], matches, now, half)
    ensures Ranked(history, matches, now, half)[p].action == Actions(history)[x]
    ensures p == |AllAhead(All(history, matches, now, half), MostConfident, x)|
    ensures forall q :: 0 <= q < |Ranked(history, matches, now, half)| && Ranked(history, matches, now, half)[q].action == Actions(history)[x] ==> q == p
  {
    hide Actions, All, SortBy, Positive, Fold, PredictionFor;
    var ps := All(history, matches, now, half);
    AllDistinct(history, matches, now, half);
    ActionsDistinct(history);
    SortPermutes(ps, MostConfident);
    p := RankExact(ps, MostConfident, x);
    var ranked := SortBy(ps, MostConfident);
    assert |ranked| == |multiset(ranked)| == |multiset(ps)| == |ps|;
    NoDuplicatesPermutes(ps, ranked);
    forall q | 0 <= q < |ranked| && ranked[q].action == Actions(history)[x] ensures q == p {
      assert ranked[q] in multiset(ranked) && ranked[q] in multiset(ps);
      var j :| 0 <= j < |ps| && ps[j] == ranked[q];
      assert j == x;
    }
  }

  /**
   Reinforcement: one more event of an action type already in the history, inserted
   anywhere, never lowers its confidence and never worsens its place in the
   ranking, ties included; every other prediction stays what it was. So an action
   that was among the returned predictions still is.
  */
  lemma Reinforcement(history: seq<Edge>, i: nat, r: Edge, matches: map<string, string>, now: int, half: real -> real, maxResults: int, p: int)
    returns (q: int)
    requires Decay(half) && i <= |history|
    requires 0 <= p < |Ranked(history, matches, now, half)| && Ranked(history, matches, now, half)[p].action == r.actionType
    ensures var before, after := Ranked(history, matches, now, half), Ranked(Inserted(history, i, r), matches, now, half);
            && |after| == |before|
            && 0 <= q <= p && after[q].action == r.actionType
            && after[q].confidence >= before[p].confidence
            && (p < |Scored(history, matches, now, half, maxResults)| ==>
                  q < |Scored(Inserted(history, i, r), matches, now, half, maxResults)|
                  && Scored(Inserted(history, i, r), matches, now, half, maxResults)[q] == after[q])
            && forall m, n :: 0 <= m < |before| && 0 <= n < |after| && before[m].action == after[n].action != r.actionType ==> before[m] == after[n]
  {
    hide Actions, Ranked, All, Inserted, Predicts;
    var h := Inserted(history, i, r);
    var x := IndexOfRanked(history, p, matches, now, half);
    var pp := RankedPosition(history, x, matches, now, half);
    ActionsAfterInsert(history, i, r, r.actionType);
    var y :| 0 <= y < |Actions(h)| && Actions(h)[y] == r.actionType;
    q := RankedPosition(h, y, matches, now, half);
    FewerAhead(history, i, r, x, y, matches, now, half);
    PredictionsAfterInsert(history, i, r, r.actionType, Ranked(history, matches, now, half)[p], Ranked(h, matches, now, half)[q], matches, now, half);
    SameNumber(history, i, r);
    forall m, n | 0 <= m < |Ranked(history, matches, now, half)| && 0 <= n < |Ranked(h, matches, now, half)|
                  && Ranked(history, matches, now, half)[m].action == Ranked(h, matches, now, half)[n].action != r.actionType
      ensures Ranked(history, matches, now, half)[m] == Ranked(h, matches, now, half)[n]
    {
      var u := IndexOfRanked(history, m, matches, now, half);
      var v := IndexOfRanked(h, n, matches, now, half);
      PredictionsAfterInsert(history, i, r, Actions(history)[u], Ranked(history, matches, now, half)[m], Ranked(h, matches, now, half)[n], matches, now, half);
    }
  }

  lemma IndexOfRanked(history: seq<Edge>, p: int, matches: map<string, string>, now: int, half: real -> real) returns (x: int)
    requires Decay(half) && 0 <= p < |Ranked(history, matches, now, half)|
    ensures 0 <= x < |Actions(history)| && Ranked(history, matches, now, half)[p].action == Actions(history)[x]
    ensures Predicts(history, Actions(history)[x], Ranked(history, matches, now, half)[p], matches, now, half)
  {
    hide Actions, All, SortBy, Positive, Fold, PredictionFor;
    var ps := All(history, matches, now, half);
    AllDistinct(history, matches, now, half);
    SortPermutes(ps, MostConfident);
    var e := Ranked(history, matches, now, half)[p];
    assert e in multiset(SortBy(ps, MostConfident)) && e in multiset(ps);
    x :| 0 <= x < |ps| && ps[x] == e;
  }

  /** The same action types, so as many predictions. */
  lemma SameNumber(history: seq<Edge>, i: nat, r: Edge)
    requires i <= |history| && r.actionType in Actions(history)
    ensures |Actions(Inserted(history, i, r))| == |Actions(history)|
  {
    hide Actions, Inserted;
    var h := Inserted(history, i, r);
    forall a ensures a in Actions(h) <==> a in Actions(history) { ActionsAfterInsert(history, i, r, a); }
    ActionsDistinct(history);
    ActionsDistinct(h);
    SameSizeSets(Actions(history), Actions(h));
  }

  lemma SameSizeSets(a: seq<string>, b: seq<string>)
    requires NoDuplicates(a) && NoDuplicates(b) && forall x :: x in a <==> x in b
    ensures |a| == |b|
  {
    forall x ensures multiset(a)[x] == multiset(b)[x] {
      if x in a {
        var i :| 0 <= i < |a| && a[i] == x;
        var j :| 0 <= j < |b| && b[j] == x;
        OnceMeansOne(a, i);
        OnceMeansOne(b, j);
      } else {
        assert x !in multiset(a) && x !in multiset(b);
      }
    }
    assert multiset(a) == multiset(b);
    assert |a| == |multiset(a)| && |b| == |multiset(b)|;
  }
}
