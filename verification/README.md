# Context engine: a verified model

The repository takes user-activity events in over HTTP, keeps them in a
tenant-scoped graph, derives patterns, profiles and intent predictions from that
graph, and limits request rates. This project models that system in Dafny as one
connected whole and proves what it promises over all inputs, all runs and all
network behaviours. `dafny verify dfyconfig.toml` checks everything.

## How it is laid out

| file | what it holds |
|---|---|
| `GraphModel.dfy`, `GraphStore.dfy` | the graph as a value with the step relation of the three writing queries, and the store object whose methods are proved against it |
| `Coherence.dfy` | the invariant of every reachable graph: unique ids, well-placed edges, caches that agree with the edges |
| `Isolation.dfy` | tenant non-interference over runs |
| `Delivery.dfy`, `Emitting.dfy` | both SDKs' send-with-retry loop against the store, for every network script and with other clients in between; preparing and checking a draft before it |
| `Ingestion.dfy` | the single and batch routes behind the tenant check |
| `Identity.dfy`, `Profiles.dfy` | cross-application identity; stored profiles and the scheduler pass |
| `Sequences.dfy`, `Cadence.dfy` | pattern detection over arbitrary histories |
| `Keywords.dfy`, `Scoring.dfy`, `Ranking.dfy`, `ScoringLaws.dfy` | intent scoring and its laws |
| `RateLimit.dfy` | the pruned counter table and what it admits |
| `LogLines.dfy`, `Calendar.dfy` | the audit-line printer and parser; the recurrence generators |
| `JsonValues.dfy`, `Payloads.dfy` | parsed JSON, and how write_event reads it |
| `Sorting.dfy`, `Counting.dfy`, `Rounding.dfy`, `Reals.dfy`, `Text.dfy`, `Options.dfy` | stable sort, counting and filtering, Python's round, real arithmetic, string operations |

Timestamps are integers (microseconds), `now` and window cutoffs are parameters,
and scores are exact reals. A query that may pick any matching row (LIMIT 1,
equal timestamps in a history) is a relation: the method may return any allowed
answer and the theorems hold for all of them.

## What the code does that its documentation does not say

- Event ids are unique across all tenants, not per tenant, although
  `docs/architecture.md` promises isolation at the query layer. Data never
  crosses tenants, but answers do: `Isolation.NonInterference` says tenants see
  only themselves exactly when no two tenants write one id.
- A 409 is reported as success, so an event whose id another tenant holds is
  swallowed: `Delivery.ForeignIdSwallowsEvent`. That can also happen to an id that
  was free when the delivery began: `Delivery.IdTakenBetweenAttempts`.
  `Delivery.ReturnedMeansOurs` says when a success answer does mean this event.
- The Python client indexes a three-entry backoff table by attempt, so
  `max_retries >= 4` ends in an IndexError after four failed attempts:
  `Delivery.PythonIndexErrorExact`. The Node client reads `undefined` instead and
  goes on; it also retries a success reply it cannot parse. `docs/sdk-guide.md`
  promises the same behaviour; `Delivery.SdksAgreeExact` says when it holds.
- `attempt_link` promises True if a link was created; it returns True as soon as
  the identifiers match, also when a node is missing and nothing is linked:
  `Identity.LinkExistsExact`.
- LINK_IDENTITIES rewrites only its two ends, so linking two resolved persons, or
  re-resolving one end of a link by a write, splits a component:
  `Identity.AgreementStepExact`.
- `firstSeen` is the timestamp of the event that arrived first, not the earliest:
  `Coherence.FirstSeenExact` says when the two agree.
- A batch can end in a server error after part of it was stored: an element that
  is not an object stops validation with nothing stored, but an accepted event
  with an unreadable timestamp, or a rejected one with an eventId that is not a
  string, stops persisting in the middle. `Ingestion.IngestBatch` says exactly
  where. The schema's `format: uuid` and date formats are not enforced.
- `docs/log-listener-guide.md` and the simulator's README say a fresh UUID per
  line makes replay idempotent. It is the opposite: `LogLines.ReplayExact`.
- With a clock that goes back, another tenant's request empties the rate
  limiter's table: `RateLimit.ClockGoingBackForgets`.
- `month_end_workdays_between` is documented to yield the last workday of each
  month touched by the range; it leaves out those that fall outside the range, as
  in `Calendar.TouchedMonthLeftOut`. `Calendar.EveryMonthYieldsExact` says for which
  ranges the promise holds.
- `workdays_between` and `mondays_between` raise OverflowError, after yielding
  everything, exactly when the range ends on the last date Python has.

## Model

| member | source | states |
|---|---|---|
| GraphStores.GraphStore.MergeUser | src/context_engine/core/graph_queries.py:22-36 | the user node after the merge: coalesced canonical id, replaced roles and id type, lastSeen only moves forward |
| GraphStores.GraphStore.MergeObject | src/context_engine/core/graph_queries.py:45-55 | the object node after the merge |
| GraphStores.GraphStore.WriteEvent | src/context_engine/core/graph.py:67-105 | accepted exactly when no stored edge has the id; then one new edge that repeats the event field by field, with user, application and object stored and joined; on a duplicate every merge already made is rolled back |
| GraphStores.GraphStore.LinkIdentities | src/context_engine/core/graph_queries.py:128-136 | nothing without both nodes; otherwise the edge with its time, confidence and method, one canonical id on both ends, the first's before the second's before the first's native id, and no other node changed |
| GraphStores.GraphStore.UpdateUserProfile | src/context_engine/core/graph_queries.py:145-151 | exactly the tenant's nodes of the native id get the new profile |
| GraphStores.GraphStore.GetUserHistory | src/context_engine/core/graph_queries.py:72-89 | exactly the native id's in-window edges, each once, newest first |
| GraphStores.GraphStore.GetCrossAppHistory | src/context_engine/core/graph_queries.py:95-113 | the same for all of the tenant's users that hold the canonical id |
| GraphStores.GraphStore.GetCanonicalUserId | src/context_engine/core/graph_queries.py:121-126 | some resolved node's canonical id, none only if there is none |
| GraphStores.GraphStore.GetUserProfile | src/context_engine/core/graph_queries.py:153-161 | some node's profile, none only if there is none |
| GraphStores.GraphStore.GetUserEventCount | src/context_engine/core/graph_queries.py:163-166 | the number of the native id's edges |
| GraphStores.GraphStore.GetActiveUsers | src/context_engine/core/graph_queries.py:138-143 | the active native ids without repetition, in order |
| Coherence.StepKeepsConsistent | src/context_engine/core/graph_queries.py:21-70 | every transaction keeps ids unique, edges within one tenant and application, and first/last seen in step with the edges |
| Coherence.ReachableIsConsistent | src/context_engine/core/graph_queries.py:21-70 | so after any run, with events arriving in any order and any number of times |
| Coherence.ActiveUsersExact | src/context_engine/core/graph_queries.py:138-143 | ACTIVE_USERS, which reads only the cache, names exactly the users with an event in the window |
| Coherence.WrittenEventIsRead | src/context_engine/core/graph_queries.py:58-89 | read after write: an in-window history of the event's user shows the stored event exactly once, with its values |
| Coherence.AttributesFollowLastEvent | src/context_engine/core/graph_queries.py:22-36 | after any run a user's id type and roles are those of its last accepted event in arrival order |
| Coherence.UsersEarliestExact | src/context_engine/core/graph_queries.py:23-36 | exactly which steps keep every user's firstSeen its earliest timestamp: all but a stored write that predates it |
| Coherence.ObjectsEarliestExact | src/context_engine/core/graph_queries.py:51-55 | the same for objects |
| Coherence.FirstSeenExact | src/context_engine/core/graph_queries.py:21-70 | after any run every firstSeen is the earliest timestamp if and only if no stored event predated its user or its object |
| Isolation.OtherPartsUntouched | src/context_engine/core/graph.py:37-49 | no transaction changes another tenant's part, whatever ids it uses |
| Isolation.AcceptsInPart | src/context_engine/core/graph_queries.py:17-18 | a write is answered as in the tenant's own part if and only if no other tenant holds its id |
| Isolation.UnsharedRunsAreIsolated | src/context_engine/core/graph.py:37-49 | with unshared ids a tenant's data and answers in any interleaving are those of running its own steps alone |
| Isolation.SharedIdShows | src/context_engine/core/graph_queries.py:17-18 | any shared id makes some tenant get an answer it would not get alone |
| Isolation.NonInterference | src/context_engine/core/graph_queries.py:17-18 | every tenant sees only itself if and only if no event id is written by two tenants |
| Isolation.ForeignStepsInvisible | src/context_engine/core/graph.py:37-49 | without any condition other tenants' runs leave a tenant's part as it was |
| Isolation.ReadsStayInPart | src/context_engine/core/graph_queries.py:72-166 | every read gives the same answer on the tenant's part alone |
| Delivery.Post | src/context_engine/core/graph.py:97-105 | one request after other clients' transactions: for each fate what the store becomes and what the client sees |
| Delivery.PythonSend | sdk/python/src/context_engine_sdk/client.py:80-106 | the loop ends, sleeps and leaves the store as the delivery function says, for every network |
| Delivery.NodeSend | sdk/node/src/index.ts:82-128 | the same for the second client |
| Delivery.EndingExact | sdk/python/src/context_engine_sdk/client.py:80-106 | attempts, pauses of 1, 2 and 4 seconds, and the ending: 201 or 409, the status or transport error of the last attempt, or an error past the table |
| Delivery.AttemptsExact | sdk/python/src/context_engine_sdk/client.py:84-103 | attempts go on exactly while the fate is retried, the budget lasts and Python's table has an entry |
| Delivery.ExactlyOnce | sdk/python/src/context_engine_sdk/client.py:80-114 | a normal return leaves exactly one edge with the id and no ending leaves more, under every network and any interference |
| Delivery.RetriesCollapse | sdk/python/src/context_engine_sdk/client.py:84-103 | any run with repeated sends of one event ends in the same store as the run with the first send only |
| Delivery.DeliveryIsOneSend | sdk/python/src/context_engine_sdk/client.py:80-106 | a retrying client cannot be told in the store from one that sends at most once |
| Delivery.DeliveryIsRun | sdk/python/src/context_engine_sdk/client.py:80-106 | the transactions of a delivery are fixed by the network alone, and the store is what they leave |
| Delivery.FirstWriterDecides | src/context_engine/core/graph_queries.py:17-18 | in any run a stored id keeps its edge and a free one goes to the first write that carries it |
| Delivery.ReturnedMeansOurs | sdk/python/src/context_engine_sdk/client.py:91-94 | under any interference a normal return means the stored edge is this event's if and only if that very edge was there before, or the id was free and the first of all writes with it was of that edge; when nobody else uses the id, if and only if it was free or held by that edge |
| Delivery.AllOrNothing | sdk/python/src/context_engine_sdk/client.py:80-106 | whatever the ending and the interference, a stored id keeps its edges and a free one ends with its first writer's edge or none; when nobody else uses it, with this event's edge exactly when some attempt reached the server |
| Delivery.IdTakenBetweenAttempts | sdk/python/src/context_engine_sdk/client.py:84-103 | a success answer for an event whose id was free at the first attempt and another client's at the second |
| Delivery.ForeignIdSwallowsEvent | sdk/python/src/context_engine_sdk/client.py:91-92 | a success answer for an event that another tenant's id keeps out |
| Delivery.PythonIndexErrorExact | sdk/python/src/context_engine_sdk/client.py:102-103 | the loop runs off its backoff table if and only if it may retry more than three times and has to |
| Delivery.SleepsFollowTable | sdk/python/src/context_engine_sdk/client.py:15-103 | the pauses are the table's entries in order, at most one fewer than the attempts |
| Delivery.SdksAgreeExact | sdk/node/src/index.ts:82-128 | the two clients behave alike, step for step, if and only if no reply that is not the last attempt's is an unparsable success and Python stays within its table |
| Delivery.ReturnIsOneWrite | sdk/python/src/context_engine_sdk/client.py:80-106 | a normal return is exactly one write among the others' transactions; with no others it is that one write |
| Delivery.RepeatIsNoOp | sdk/python/src/context_engine_sdk/client.py:80-106 | delivering an id that is stored leaves only the others' transactions, for every network and every ending |
| Emitting.IdIsFixed | sdk/python/src/context_engine_sdk/client.py:109-114 | a caller's id is kept, a missing one is drawn once, and preparing again changes nothing |
| Emitting.PrepareExact | sdk/python/src/context_engine_sdk/client.py:109-114 | exactly schema version, id and timestamp are filled in, where missing, with 1.0.0, the drawn id and the given time |
| Payloads.UnpackEncode | src/context_engine/core/graph.py:72-95 | reading an event's dictionary gives back the event, for every event |
| Emitting.EmittingTwice | sdk/python/src/context_engine_sdk/client.py:109-114 | from any consistent store, for every network, ending and interference: a second emit adds nothing of its own once its id is stored, which the caller's own id is after a returned emit, and every returned emit leaves exactly one edge with its id |
| Emitting.EmittingTwiceUndisturbed | sdk/python/src/context_engine_sdk/client.py:56-65 | when nobody else writes and both emits return, the caller's own id leaves the store as the first emit did and two new ids add two edges |
| Emitting.ErrorsExact | sdk/python/src/context_engine_sdk/client.py:117-141 | local validation passes exactly the drafts with every required field and nested field, and names every top-level field that is missing |
| Emitting.ValidateEvent | sdk/python/src/context_engine_sdk/client.py:117-129 | the error list, field by field in order |
| Emitting.Emit | sdk/python/src/context_engine_sdk/client.py:56-65 | an incomplete draft is reported and never sent; a complete one is delivered with its id fixed before the first attempt, by either client |
| Ingestion.ValidateBatch | src/context_engine/api/routes/events.py:113-126 | one verdict per item in order, the number of failures, nothing written |
| Ingestion.AcceptedExact | src/context_engine/api/routes/events.py:144-154 | an item is stored exactly when it is the first in the batch with an id the store does not hold |
| Ingestion.PersistBatch | src/context_engine/api/routes/events.py:129-141 | the store after posting the valid items one by one, results aligned with items, up to the first one that raises |
| Ingestion.IngestBatch | src/context_engine/api/routes/events.py:73-110 | over 100 items or more than a tenth failing leaves the store alone; a crash stores exactly the items before it; otherwise the batch is its valid events posted in order, counts adding up to its size |
| Ingestion.ThresholdInIntegers | src/context_engine/api/routes/events.py:93-93 | a batch is rejected exactly when ten times its failures exceed its size |
| Ingestion.ResubmissionAcceptsNone | src/context_engine/api/routes/events.py:73-154 | the same batch again accepts nothing and changes nothing |
| Ingestion.StoreGrowsByAccepted | src/context_engine/api/routes/events.py:103-109 | the store grows by exactly acceptedCount edges |
| Ingestion.Handle | src/context_engine/api/middleware/tenant.py:29-65 | 403 exactly on a mismatch; every other answer with the store it leaves; a header for T never changes another tenant's part |
| Ingestion.ForbiddenExact | src/context_engine/api/middleware/tenant.py:33-65 | forbidden exactly when a header is present and some declared tenant differs from it |
| Ingestion.HeaderConfinesSingle | src/context_engine/api/middleware/tenant.py:29-65 | a single event that passes the check stays in the header's tenant |
| Ingestion.HeaderConfinesBatch | src/context_engine/api/middleware/tenant.py:58-65 | so does every event of a batch that passes it |
| Identity.AttemptLink | src/context_engine/core/identity.py:43-87 | True exactly for two SSO subjects with one native id or two e-mail addresses equal up to case and outer whitespace; then, if both nodes exist, a link with confidence 1 and the method's name |
| Identity.SameEmailExact | src/context_engine/core/identity.py:86-87 | normalised addresses are equal if and only if their trimmed cores agree letter by letter up to case |
| Text.StripExact | src/context_engine/core/identity.py:87-87 | stripping yields the only core without outer whitespace |
| Text.LowerExact | src/context_engine/core/identity.py:87-87 | no upper-case letter left, and nothing but case changed |
| Identity.LinkExistsExact | src/context_engine/core/graph_queries.py:128-136 | the edge exists afterwards if and only if both nodes do |
| Identity.SoundStepExact | src/context_engine/core/identity.py:67-87 | exactly which steps keep every resolved native id equal, up to normalisation, to its canonical id |
| Identity.ResolverRunIsSound | src/context_engine/core/identity.py:43-87 | every run that links only through attempt_link, with no client-supplied canonical id, keeps that |
| Identity.CrossAppNeverMixes | src/context_engine/core/graph_queries.py:95-126 | in such runs the cross-app history reached from a native id holds only that normalised identity's events |
| Identity.AgreementStepExact | src/context_engine/core/graph_queries.py:128-136 | exactly which steps keep the two ends of every link on one canonical id |
| Identity.AgreementRunExact | src/context_engine/core/graph_queries.py:128-136 | linked users agree throughout a run if and only if every step of it is one of those |
| Identity.WalkAgrees | src/context_engine/core/graph_queries.py:131-134 | users joined by any walk of links share one canonical id |
| Identity.ComponentIsComplete | src/context_engine/core/graph_queries.py:95-136 | the shared id's cross-app history holds every in-window event of the whole component |
| Identity.DisciplineKeepsAgreement | src/context_engine/core/graph_queries.py:31-31 | no client-supplied ids and no link between two differently resolved users is enough |
| Profiles.StepKeepsProfilesCoherent | src/context_engine/core/graph_queries.py:145-151 | every transaction keeps all profiles of one native id equal |
| Profiles.ProfileReadIsDeterministic | src/context_engine/core/graph_queries.py:153-161 | in every reachable store the LIMIT 1 read has one possible answer |
| Profiles.NextVersion | src/context_engine/profiler/scheduler.py:73-76 | one more than the version the read reports, 1 without a profile |
| Profiles.GenerateForUser | src/context_engine/profiler/scheduler.py:62-71 | a user below the threshold is skipped; otherwise all its nodes get the next version |
| Profiles.RunOnce | src/context_engine/profiler/scheduler.py:41-60 | refreshes exactly the active users over the threshold and returns how many, in whatever order they are listed |
| Profiles.PassRaisesVersions | src/context_engine/profiler/scheduler.py:41-76 | raises exactly their versions, by one |
| Sorting.SortIsTheStableArrangement | src/context_engine/profiler/pattern_detector.py:127-127 | the sort is the only ascending arrangement that keeps ties in their old order |
| Sorting.DistinctSortUnique | src/context_engine/profiler/pattern_detector.py:127-127 | with distinct keys it does not depend on the input order |
| Sequences.CountActions | src/context_engine/profiler/pattern_detector.py:128-130 | the occurrences of each action in each application |
| Sequences.CollectTransitions | src/context_engine/profiler/pattern_detector.py:131-142 | the dictionary of gaps, with its insertion order |
| Sequences.DetectSequences | src/context_engine/profiler/pattern_detector.py:126-150 | exactly the pairs that follow each other at least twice, each once, with the rounded share of the trigger's occurrences and the rounded median gap, by confidence and then by first occurrence |
| Sequences.DetectionExact | src/context_engine/profiler/pattern_detector.py:126-164 | the same, of the specification, from the sorted timeline alone |
| Sequences.MedianExact | src/context_engine/profiler/temporal.py:90-94 | of n gaps at most n/2 are smaller and at most n-1-n/2 larger than the one described |
| Sequences.FollowsExact | src/context_engine/profiler/pattern_detector.py:152-164 | a gap is recorded exactly between two applications within 0 to 30 minutes, and is that many minutes |
| Sequences.ReportedExact | src/context_engine/profiler/pattern_detector.py:144-148 | a pair is reported if and only if it is adjacent in the timeline, across applications and within 30 minutes, at least twice |
| Sequences.DetectorIsComplete | src/context_engine/profiler/pattern_detector.py:126-164 | k occurrences with nothing between or tied give at least k transitions, so two are enough for a report |
| Sequences.OrderIndependent | src/context_engine/profiler/pattern_detector.py:126-150 | with distinct timestamps the whole output does not depend on the order of the history |
| Sequences.TransitionsConserved | src/context_engine/profiler/pattern_detector.py:131-142 | over all follow-ups of a trigger, no more gaps than the trigger occurs |
| Sequences.ReportedShare | src/context_engine/profiler/pattern_detector.py:226-238 | neither the clip to 1 nor the zero-total branch is ever taken, the rounded confidence is within 0.005 of the share, and the gap text names 1 to 30 minutes |
| Sequences.SharesSumToAtMostOne | src/context_engine/profiler/pattern_detector.py:226-238 | the unrounded confidences of one trigger sum to at most 1 |
| Cadence.MeanGapPositive | src/context_engine/profiler/temporal.py:53-61 | the gaps telescope to the span, so the zero-mean branch cannot be reached from classify_frequency |
| Cadence.ConfidenceInUnit | src/context_engine/profiler/temporal.py:27-66 | the confidence is always in [0, 1] |
| Cadence.PermutationInvariant | src/context_engine/profiler/temporal.py:27-66 | label and confidence do not depend on the order of the timestamps |
| Cadence.ShiftInvariant | src/context_engine/profiler/temporal.py:27-66 | nor on when the history happened |
| Cadence.NoVarianceExact | src/context_engine/profiler/temporal.py:62-62 | the variance vanishes if and only if all gaps are equal |
| Cadence.EquallySpaced | src/context_engine/profiler/temporal.py:53-66 | equally spaced timestamps, and only they, have no deviation, and get exactly the rounded min(n/8, 1) |
| Cadence.LabelExact | src/context_engine/profiler/temporal.py:27-50 | the label from span and number of timestamps: daily to 1.5 days a gap, weekly to 10, monthly to 45, else sporadic |
| Cadence.ConfidenceExact | src/context_engine/profiler/temporal.py:53-66 | one less deviation by mean gap, not below 0, times min(n/8, 1), rounded |
| Cadence.VarianceExact | src/context_engine/profiler/temporal.py:62-62 | the variance is the mean square less the squared mean |
| Keywords.FoundExact | src/context_engine/prediction/keyword_table.py:41-41 | any keyword is found if and only if it stands somewhere on an edge between word and non-word characters; one of word characters if and only if some maximal run of them starts with it |
| Keywords.Match | src/context_engine/prediction/keyword_table.py:34-44 | each action maps to the first keyword of the table that is found and lists it |
| Keywords.KeywordExact | src/context_engine/prediction/keyword_table.py:40-43 | an action is matched if and only if some found keyword lists it, and no earlier one does |
| Scoring.FoldExact | src/context_engine/prediction/scorer.py:76-96 | a candidate's count, latest event, application and object type, described without the loop |
| Scoring.LatestIsFirst | src/context_engine/prediction/scorer.py:92-95 | of equally late events the first read one is the candidate's latest |
| Scoring.GroupByActionType | src/context_engine/prediction/scorer.py:76-96 | one candidate per action type, in order of first occurrence |
| Scoring.MergeExact | src/context_engine/prediction/scorer.py:66-71 | the merged history holds each event of either history once |
| Scoring.CollectHistory | src/context_engine/prediction/scorer.py:58-73 | each in-window event under the native id or the chosen canonical id, exactly once |
| Scoring.ScoreCandidates | src/context_engine/prediction/scorer.py:50-53 | one prediction per candidate, in dictionary order |
| Scoring.Score | src/context_engine/prediction/scorer.py:33-56 | the whole answer: an empty history gives none; otherwise collect, match, score, filter, sort and slice, over whichever canonical id the read returned |
| ScoringLaws.ConfidenceRange | src/context_engine/prediction/scorer.py:99-144 | every candidate scores at least 0.06 and at most 1 before the clip |
| ScoringLaws.ConfidenceGrows | src/context_engine/prediction/scorer.py:99-144 | one more event, not older than the latest known, never lowers it, rounding included |
| ScoringLaws.KeywordAdds | src/context_engine/prediction/scorer.py:108-114 | a matched keyword adds exactly 0.4 to the confidence |
| ScoringLaws.FrequencyAdds | src/context_engine/prediction/scorer.py:125-126 | one more event adds 0.06 up to the fifth and nothing after |
| ScoringLaws.RecencyTakes | src/context_engine/prediction/scorer.py:116-118 | d days of age take 0.3 times one less 0.5^(d/3) off; a later time counts as now |
| ScoringLaws.RecencyHalves | src/context_engine/prediction/scorer.py:116-118 | the recency share starts at 0.3 and halves every three days |
| ScoringLaws.FullMarks | src/context_engine/prediction/scorer.py:135-142 | five or more events, the latest now: exactly 0.6, and exactly 1 with the keyword |
| Rounding.RoundExact | src/context_engine/prediction/scorer.py:135-135 | round gives the nearest, and of two equally near the even one |
| ScoringLaws.ExactTopK | src/context_engine/prediction/scorer.py:46-56 | as many predictions as asked for or as there are action types, the first of a ranking by confidence from which the filter dropped nothing |
| ScoringLaws.CountsAddUp | src/context_engine/prediction/scorer.py:76-96 | the candidates' counts add up to the size of the history |
| ScoringLaws.NoDoubleCounting | src/context_engine/prediction/scorer.py:58-96 | a candidate's count is the number of distinct stored events of its action in scope, and its latest event is the latest of them |
| ScoringLaws.AnswerIsRanking | src/context_engine/prediction/scorer.py:33-144 | every answer is the requested slice of the ranking of the stored edges in scope: one prediction per action type with its true count, latest event and signals, most confident first |
| ScoringLaws.OthersUnchanged | src/context_engine/prediction/scorer.py:76-96 | an event inserted anywhere leaves the other candidates as they were |
| ScoringLaws.ActionGains | src/context_engine/prediction/scorer.py:76-96 | its own candidate gains one, with a latest event no earlier |
| ScoringLaws.FewerAhead | src/context_engine/prediction/scorer.py:55-55 | no more predictions rank ahead of the reinforced action than before, ties included |
| ScoringLaws.Reinforcement | src/context_engine/prediction/scorer.py:46-144 | one more event of an action never lowers its confidence or its place, changes no other prediction, and keeps a returned action returned |
| Ranking.RankExact | src/context_engine/prediction/scorer.py:55-55 | an element's position after the sort is the number of elements ahead of it |
| RateLimit.KeyInjective | src/context_engine/api/middleware/rate_limit.py:51-51 | two charges share a counter key only if tenant and class are equal, whatever the tenant id contains |
| RateLimit.RateLimiter.Prune | src/context_engine/api/middleware/rate_limit.py:98-101 | exactly the current window's counters survive |
| RateLimit.RateLimiter.Dispatch | src/context_engine/api/middleware/rate_limit.py:38-96 | the table follows the log; with a clock that does not go back, an event path is answered 429 exactly when the tenant already sent the events limit to the event paths in this minute, and the intent path likewise with its own limit; other paths and requests without a tenant pass |
| RateLimit.ChargeExact | src/context_engine/api/middleware/rate_limit.py:69-96 | who is charged: the non-empty header, else the body's tenantId, or the first event's in a batch, under the path's class |
| RateLimit.DecisionAnswers | src/context_engine/api/middleware/rate_limit.py:38-67 | the answers of Dispatch, of the specification |
| RateLimit.TableExact | src/context_engine/api/middleware/rate_limit.py:50-53 | for any clock, a counter holds the requests since the last one of another window |
| RateLimit.RecentExact | src/context_engine/api/middleware/rate_limit.py:98-101 | pruning loses requests if and only if one of them was followed by a counted request of another window |
| RateLimit.RefinesUnpruned | src/context_engine/api/middleware/rate_limit.py:50-55 | with a clock that does not go back, the pruned table decides as a counter that never forgets; for any clock, as one that remembers since the last other window |
| RateLimit.OthersNeverMatter | src/context_engine/api/middleware/rate_limit.py:50-55 | with clocks that do not go back, logs that agree on a tenant's requests of one class give it the same decision |
| RateLimit.ClockGoingBackForgets | src/context_engine/api/middleware/rate_limit.py:99-101 | with a clock that goes back another tenant's request lifts a tenant's limit |
| RateLimit.AdmittedPerMinute | src/context_engine/api/middleware/rate_limit.py:50-67 | with a clock that does not go back, of each minute exactly the first `limit` requests get through |
| RateLimit.AnyMinuteAtMostTwice | src/context_engine/api/middleware/rate_limit.py:50-67 | with a clock that does not go back, any sixty seconds, ends included, admit at most twice the limit |
| RateLimit.TwiceIsReached | src/context_engine/api/middleware/rate_limit.py:50-67 | and for every limit some second does admit that many |
| Text.WordsOfSpaced | samples/log-simulator/log_listener.py:46-46 | splitting undoes joining with any whitespace |
| LogLines.ParseLogLine | samples/log-simulator/log_listener.py:44-58 | the parse the specification describes; it succeeds exactly for five or more words, all but the first with '=', with a user, action, object and app token among them |
| LogLines.FieldsExact | samples/log-simulator/log_listener.py:49-54 | a parse fails only on a token without '='; each key has its last token's value |
| LogLines.OrderIrrelevant | samples/log-simulator/log_listener.py:50-54 | token order does not matter when no key is repeated |
| LogLines.SpacingIrrelevant | samples/log-simulator/log_listener.py:46-46 | nor does the whitespace around and between the words |
| LogLines.RoundTrip | samples/log-simulator/log_generator.py:34-40 | parsing a printed line gives back the five fields if and only if they hold no whitespace and the timestamp is not empty |
| LogLines.ObjectRecovered | samples/log-simulator/log_listener.py:72-85 | the object type and id come back if and only if the type is non-empty and colon-free and the id is non-empty |
| LogLines.ObjectNeverEmpty | samples/log-simulator/log_listener.py:82-85 | the defaults: record without a type, the whole object as type and id without a colon, an empty id only for an empty object |
| LogLines.IsoExact | samples/log-simulator/log_listener.py:66-67 | a trailing Z becomes the UTC offset |
| LogLines.IsoReplacesZ | samples/log-simulator/log_listener.py:66-67 | no Z is left, and a text without one stays as it is |
| LogLines.CategoryByVerb | samples/log-simulator/log_listener.py:61-63 | only the verb before the first underscore decides: six verbs name their category, all others read |
| LogLines.LineToEvent | samples/log-simulator/log_listener.py:70-88 | from printer through parser to event nothing the line says is lost or changed |
| LogLines.ReplayExact | samples/log-simulator/log_listener.py:75-75 | forwarding a line again is a no-op if and only if the second id is the first one or already stored |
| Calendar.OrdinalOrders | samples/data/recurrence.py:16-19 | ordinals order dates as (year, month, day) does |
| Calendar.NextDayExact | samples/data/recurrence.py:19-19 | the next date has the next ordinal and the next weekday |
| Calendar.KnownMonday | samples/data/recurrence.py:9-10 | the fifth of January 2026 is a Monday, which with the step law fixes every weekday |
| Calendar.ValidExact | samples/data/recurrence.py:50-51 | the dates there are, month by month and with leap years |
| Calendar.WorkdaysBetween | samples/data/recurrence.py:13-19 | exactly the Monday-to-Friday dates of the range, in order; overflow exactly at the end of the calendar |
| Calendar.MondaysBetween | samples/data/recurrence.py:22-28 | exactly its Mondays, in order; the same overflow |
| Calendar.MonthsBetween | samples/data/recurrence.py:39-46 | every month from start's to end's, once, in order |
| Calendar.LastWorkdayOfMonth | samples/data/recurrence.py:49-54 | a workday with no later workday in its month, at most two days back |
| Calendar.MonthEndWorkdaysBetween | samples/data/recurrence.py:31-36 | strictly increasing and exactly the dates in range that are the last workday of their month |
| Calendar.EveryMonthYieldsExact | samples/data/recurrence.py:31-36 | every month touched by a non-empty range yields its last workday if and only if start's month has a workday on or after start and end's month has none after end |
| Calendar.TouchedMonthLeftOut | samples/data/recurrence.py:31-36 | the first ten days of January 2026 touch a month and yield nothing |

## Left out

- Cadence.EquallySpaced: takes the deviation as the non-negative real whose square is the variance; the floating-point square root is not modelled.
- ScoringLaws.ConfidenceGrows: uses of 0.5^x only that it is positive, at most 1, 1 at zero and never increasing; ScoringLaws.RecencyHalves adds that it halves with every unit; floating-point rounding error is not modelled, Python's round on exact reals is.
- Keywords.FoundExact: word characters and lower-casing are ASCII, so is e-mail normalisation in Identity; full Unicode case folding is not modelled.
- Ingestion.IngestBatch: schema validation and timestamp parsing are a fixed verdict per item; a body whose `events` is not a list and a tenantId that is not a string are not modelled.
- GraphStores.GraphStore.GetUserHistory: the LIMIT variant for the admin views is not modelled.
- Profiles.RunOnce: the generated text is a function of the user given to the pass; passes running at the same time are not modelled.
- Delivery.ExactlyOnce: a transaction is atomic; the database's own concurrency, retries of managed transactions and connection handling are not modelled.
- Calendar.WorkdaysBetween: a generator is the list of everything it yields before it ends or raises; the month generator likewise.
- RateLimit.RateLimiter.Dispatch: the time between reading the body and counting is one step, as the code has no await between counting and deciding.
- ScoringLaws.AnswerIsRanking: a prediction's signals carry the values their texts show; the texts themselves, the window length named in one of them and the always-empty suggested filters are not modelled.
- Emitting.Emit: a draft's numbers are integers, and a present value of the wrong type reaches the server, which answers without running the transaction.
- Action patterns, active objects, parameter defaults and time of day in the pattern detector: group-and-count code that would add easy members beside Sequences and Cadence.
- Template and LLM profile texts, connectors, the MCP server, the admin and demo user interfaces, sample data and random choice.
- Following a growing log file and the listener's HTTP call.
