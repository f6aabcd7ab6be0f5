/** Writing the forensic log under its record cap, and handing it to its own replay. */
module R13Writer {
  import opened Wrappers
  import opened Machine
  import opened Sequences
  import opened R13Plan
  import opened R13Matching
  import opened R13Search
  import opened R13Maturity
  import opened R13Log
  import Strings

  const MAX_RECORDS_PER_RUN := 512

  datatype WriteError =
    | MaturityRejected(cause: MaturityError) | StageMismatch | CapacityExhausted | CapacityReserved
    | MissingIntersection | MissingAnalysis | AnalysisMismatch | UnsupportedStatus | ReplayRejected(replay: ReplayError)

  datatype RunResult = RunResult(routes: nat, candidates: nat, tally: Tally, immature: nat, reached: bool)

  ghost predicate NoEnd(log: seq<Record>) {
    forall i :: 0 <= i < |log| ==> !log[i].event.RunEnd?
  }

  /** The last place of the cap is kept for the end record. */
  class Writer {
    const runId: string
    const github: string
    var nextSequence: u64
    var recordsWritten: u64
    var log: seq<Record>

    ghost predicate Valid()
      reads this
    {
      && recordsWritten == |log| <= MAX_RECORDS_PER_RUN && nextSequence == |log| + 1
      && (NoEnd(log) ==> |log| < MAX_RECORDS_PER_RUN)
      && forall i :: 0 <= i < |log| ==> log[i] == Record(true, i + 1, runId, github, log[i].event)
    }

    constructor (runId: string, github: string)
      ensures Valid() && log == [] && this.runId == runId && this.github == github
    {
      this.runId, this.github := runId, github;
      nextSequence, recordsWritten, log := 1, 0, [];
    }

    method WriteEvent(event: Event) returns (r: Result<(), WriteError>)
      requires Valid()
      modifies this
      ensures Valid()
      ensures r.Ok? <==> |old(log)| < MAX_RECORDS_PER_RUN - (if event.RunEnd? then 0 else 1)
      ensures r.Ok? ==> log == old(log) + [Record(true, |old(log)| + 1, runId, github, event)]
      ensures r.Err? ==> log == old(log)
    {
      if recordsWritten >= MAX_RECORDS_PER_RUN {
        return Err(CapacityExhausted);
      }
      if !event.RunEnd? && recordsWritten >= MAX_RECORDS_PER_RUN - 1 {
        return Err(CapacityReserved);
      }
      log := log + [Record(true, nextSequence, runId, github, event)];
      assert event.RunEnd? ==> log[|log| - 1].event.RunEnd?;
      recordsWritten := recordsWritten + 1;
      nextSequence := nextSequence + 1;
      return Ok(());
    }
  }

  // ---------------------------------------------------------------- keeping step with the replay

  /** What the replay of a log under construction needs to know. */
  datatype Expected = Expected(candidates: nat, routes: nat)

  /** The log so far replays to `s`, and is ready for more. */
  ghost predicate Follows(w: Writer, s: Replay, x: Expected)
    reads w
  {
    && w.Valid() && NoEnd(w.log) && w.log != []
    && Replayed(w.log, x.candidates, x.routes) == Ok(s)
    && s.next == |w.log| + 1 && s.origin == Some((w.runId, w.github)) && s.sawStart && !s.sawEnd
  }

  /** Writes one event whose replay step succeeds. */
  method Put(w: Writer, event: Event, ghost s: Replay, ghost x: Expected)
    returns (r: Result<(), WriteError>, ghost after: Replay)
    requires Follows(w, s, x) && !event.RunEnd? && !event.RunStart?
    requires EventStep(s.(next := s.next + 1), s.next, event, x.candidates, x.routes).Ok?
    modifies w
    ensures w.Valid() && NoEnd(w.log) && old(w.log) <= w.log
    ensures r.Ok? <==> |old(w.log)| < MAX_RECORDS_PER_RUN - 1
    ensures r.Ok? ==> |w.log| == |old(w.log)| + 1 && w.log[|old(w.log)|].event == event
    ensures r.Ok? ==> Follows(w, after, x)
    ensures r.Ok? ==> after == EventStep(s.(next := s.next + 1), s.next, event, x.candidates, x.routes).value
  {
    hide EventStep, Replayed;
    after := s;
    r := w.WriteEvent(event);
    if r.Ok? {
      ReplayedSnoc(old(w.log), w.log[|old(w.log)|], x.candidates, x.routes);
      KeepsHeader(s, event, x);
      after := Replayed(w.log, x.candidates, x.routes).value;
    }
  }

  lemma KeepsHeader(s: Replay, event: Event, x: Expected)
    requires !event.RunEnd? && !event.RunStart?
    requires s.sawStart && !s.sawEnd && s.next >= 2
    ensures var t := s.(next := s.next + 1);
      var r := EventStep(t, s.next, event, x.candidates, x.routes);
      r.Ok? ==> r.value.next == t.next && r.value.origin == t.origin && r.value.sawStart && !r.value.sawEnd
  {
  }

  // ---------------------------------------------------------------- the parts of a log

  lemma StartReplays(r: Record, x: Expected)
    requires r.schemaCurrent && r.sequence == 1 && r.event == Event.RunStart
    ensures Replayed([r], x.candidates, x.routes) == Ok(INITIAL.(next := 2, origin := Some((r.runId, r.github)), sawStart := true))
  {
  }

  lemma OpeningStep(maturity: EvidenceMaturity, s: Replay, x: Expected)
    requires Validate(maturity, maturity.requiredEndSlot).Ok?
    requires s.sawStart && s.reached.None? && !s.sawEnd && s.next == 2
    ensures
      var e := MaturityResult(MATURITY_POLICY_ID, maturity, MaturityStatus(maturity));
      EventStep(s.(next := 3), 2, e, x.candidates, x.routes)
         == Ok(s.(next := 3, reached := Some(maturity.reached)))
  {
  }

  method WriteOpening(w: Writer, maturity: EvidenceMaturity, ghost x: Expected) returns (ghost s: Replay)
    requires w.Valid() && w.log == []
    requires Validate(maturity, maturity.requiredEndSlot).Ok?
    modifies w
    ensures Follows(w, s, x) && |w.log| == 2
    ensures w.log[1].event == MaturityResult(MATURITY_POLICY_ID, maturity, MaturityStatus(maturity))
    ensures s == INITIAL.(next := 3, origin := Some((w.runId, w.github)), sawStart := true, reached := Some(maturity.reached))
  {
    hide Replayed;
    var started := w.WriteEvent(Event.RunStart);
    StartReplays(w.log[0], x);
    assert w.log == [w.log[0]];
    s := INITIAL.(next := 2, origin := Some((w.runId, w.github)), sawStart := true);
    OpeningStep(maturity, s, x);
    var recorded;
    hide EventStep;
    recorded, s := Put(w, MaturityResult(MATURITY_POLICY_ID, maturity, MaturityStatus(maturity)), s, x);
  }

  /** How many matches the routes `ids` have. */
  ghost function MatchCount(ids: set<string>, analyses: map<string, RouteAnalysis>): nat
    requires ids <= analyses.Keys
  {
    if ids == {} then 0
    else
      var id :| id in ids;
      |analyses[id].matches| + MatchCount(ids - {id}, analyses)
  }

  lemma {:induction false} MatchCountOf(ids: set<string>, id: string, analyses: map<string, RouteAnalysis>)
    requires ids <= analyses.Keys && id in ids
    ensures MatchCount(ids, analyses) == |analyses[id].matches| + MatchCount(ids - {id}, analyses)
    decreases |ids|
  {
    var x :| x in ids && MatchCount(ids, analyses) == |analyses[x].matches| + MatchCount(ids - {x}, analyses);
    if x != id {
      MatchCountOf(ids - {x}, id, analyses);
      MatchCountOf(ids - {id}, x, analyses);
      assert ids - {x} - {id} == ids - {id} - {x};
    }
  }

  /** The signatures as the log retains them: each once. */
  method Listed(signatures: set<string>) returns (r: seq<string>)
    ensures Distinct(r) && forall s :: s in r <==> s in signatures
  {
    r := [];
    var pending := signatures;
    while pending != {}
      invariant pending <= signatures && Distinct(r)
      invariant forall s :: s in r <==> s in signatures && s !in pending
      decreases |pending|
    {
      var s :| s in pending;
      pending := pending - {s};
      r := r + [s];
    }
  }

  /** The stages before the log gave this route a usable result. */
  ghost predicate Reportable(id: string, ix: IntersectionPlan, analyses: map<string, RouteAnalysis>) {
    id in ix.routes && id in analyses && analyses[id].routeId == id && IsRouteStatus(analyses[id].status)
  }

  /** The record of a match: its route, its transaction, and whether the outcome was resolved. */
  predicate RecordsMatch(e: Event, routeId: string, m: TransactionMatch) {
    && e.TransactionMatched? && e.routeId == routeId && e.signature == m.signature
    && (if m.outcomeResolved then e.outcome == OutcomeResolved else e.outcome == AmountsUnresolved)
  }

  method WriteMatches(w: Writer, routeId: string, matches: seq<TransactionMatch>, ghost s: Replay, ghost x: Expected)
    returns (r: Result<(), WriteError>, ghost after: Replay)
    requires Follows(w, s, x) && s.reached == Some(true)
    modifies w
    ensures w.Valid() && NoEnd(w.log) && old(w.log) <= w.log
    ensures r.Ok? <==> |old(w.log)| + |matches| < MAX_RECORDS_PER_RUN
    ensures r.Ok? ==> |w.log| == |old(w.log)| + |matches| && Follows(w, after, x)
    ensures r.Ok? ==> after == s.(next := s.next + |matches|, tally := s.tally.(matches := s.tally.matches + |matches|))
    ensures r.Ok? ==> forall k :: 0 <= k < |matches| ==> RecordsMatch(w.log[|old(w.log)| + k].event, routeId, matches[k])
  {
    hide Replayed;
    after := s;
    for k := 0 to |matches|
      invariant Follows(w, after, x) && old(w.log) <= w.log && |w.log| == |old(w.log)| + k
      invariant after == s.(next := s.next + k, tally := s.tally.(matches := s.tally.matches + k))
      invariant forall j :: 0 <= j < k ==> RecordsMatch(w.log[|old(w.log)| + j].event, routeId, matches[j])
    {
      var outcome := if matches[k].outcomeResolved then OutcomeResolved else AmountsUnresolved;
      r, after := Put(w, TransactionMatched(routeId, outcome, matches[k].signature), after, x);
      if r.Err? {
        return;
      }
    }
    return Ok(()), after;
  }

  ghost predicate AllReportable(plan: ForensicsPlan, ix: IntersectionPlan, analyses: map<string, RouteAnalysis>) {
    forall id :: id in plan.routes ==> Reportable(id, ix, analyses)
  }

  /** Some record gives the route its verdict and its shared signatures, and behind it come the route's matches. */
  ghost predicate Reports(log: seq<Record>, routeId: string, signatures: set<string>, analysis: RouteAnalysis) {
    exists k :: 0 <= k < |log| && ReportsAt(log, k, routeId, signatures, analysis)
  }

  ghost predicate ReportsAt(log: seq<Record>, k: nat, routeId: string, signatures: set<string>, analysis: RouteAnalysis)
    requires k < |log|
  {
    var e := log[k].event;
    && e.RouteSearchResult? && e.routeId == routeId && e.verdict == analysis.status
    && (forall z :: z in e.signatures <==> z in signatures)
    && k + |analysis.matches| < |log|
    && forall j :: 0 <= j < |analysis.matches| ==> RecordsMatch(log[k + 1 + j].event, routeId, analysis.matches[j])
  }

  ghost predicate ReportsAll(log: seq<Record>, ids: set<string>, ix: IntersectionPlan, analyses: map<string,
                             RouteAnalysis>) {
    forall id :: id in ids ==>
      id in ix.routes && id in analyses && Reports(log, id, ix.routes[id].signatures, analyses[id])
  }

  lemma ReportGrows(log: seq<Record>, longer: seq<Record>, routeId: string, signatures: set<string>,
                    analysis: RouteAnalysis)
    requires log <= longer && Reports(log, routeId, signatures, analysis)
    ensures Reports(longer, routeId, signatures, analysis)
  {
    var k :| 0 <= k < |log| && ReportsAt(log, k, routeId, signatures, analysis);
    assert forall i :: 0 <= i < |log| ==> longer[i] == log[i];
    assert ReportsAt(longer, k, routeId, signatures, analysis);
  }

  lemma ReportsLonger(log: seq<Record>, longer: seq<Record>, ids: set<string>, ix: IntersectionPlan,
                      analyses: map<string, RouteAnalysis>)
    requires log <= longer && ReportsAll(log, ids, ix, analyses)
    ensures ReportsAll(longer, ids, ix, analyses)
  {
    hide Reports;
    forall id | id in ids ensures Reports(longer, id, ix.routes[id].signatures, analyses[id]) {
      ReportGrows(log, longer, id, ix.routes[id].signatures, analyses[id]);
    }
  }

  lemma ReportsOneMore(log: seq<Record>, longer: seq<Record>, ids: set<string>, id: string, ix: IntersectionPlan,
                       analyses: map<string, RouteAnalysis>)
    requires log <= longer && ReportsAll(log, ids, ix, analyses)
    requires id in ix.routes && id in analyses && Reports(longer, id, ix.routes[id].signatures, analyses[id])
    ensures ReportsAll(longer, ids + {id}, ix, analyses)
  {
    hide Reports;
    ReportsLonger(log, longer, ids, ix, analyses);
  }

  lemma ReportsNone(log: seq<Record>, ix: IntersectionPlan, analyses: map<string, RouteAnalysis>)
    ensures ReportsAll(log, {}, ix, analyses)
  {
  }

  lemma NoMatchesLeft(analyses: map<string, RouteAnalysis>)
    ensures MatchCount({}, analyses) == 0
  {
  }

  /** One search result and its matches. */
  method WriteRoute(w: Writer, routeId: string, signatures: set<string>, analysis: RouteAnalysis, ghost s: Replay,
                    ghost x: Expected)
    returns (r: Result<(), WriteError>, ghost after: Replay)
    requires Follows(w, s, x) && s.reached == Some(true) && IsRouteStatus(analysis.status)
    modifies w
    ensures w.Valid() && NoEnd(w.log) && old(w.log) <= w.log
    ensures r.Ok? <==> |old(w.log)| + 1 + |analysis.matches| < MAX_RECORDS_PER_RUN
    ensures r.Ok? ==> |w.log| == |old(w.log)| + 1 + |analysis.matches| && Follows(w, after, x)
    ensures r.Ok? ==> after == s.(next := after.next, tally := AfterRoute(s.tally, analysis))
    ensures r.Ok? ==> Reports(w.log, routeId, signatures, analysis)
  {
    hide Replayed;
    var listed := Listed(signatures);
    r, after := Put(w, RouteSearchResult(routeId, analysis.status, |listed|, listed), s, x);
    if r.Ok? {
      ghost var k, before := |old(w.log)|, w.log;
      r, after := WriteMatches(w, routeId, analysis.matches, after, x);
      if r.Ok? {
        assert w.log[k] == before[k];
        assert ReportsAt(w.log, k, routeId, signatures, analysis);
      }
    }
  }

  /** One route of the plan, if the earlier stages gave it a usable result. */
  method WriteRouteOf(w: Writer, id: string, ix: IntersectionPlan, analyses: map<string, RouteAnalysis>,
                      ghost s: Replay, ghost x: Expected)
    returns (r: Result<(), WriteError>, ghost after: Replay)
    requires Follows(w, s, x) && s.reached == Some(true)
    modifies w
    ensures w.Valid() && NoEnd(w.log) && old(w.log) <= w.log
    ensures r.Ok? <==> Reportable(id, ix, analyses) && |old(w.log)| + 1 + |analyses[id].matches| < MAX_RECORDS_PER_RUN
    ensures r.Ok? ==> |w.log| == |old(w.log)| + 1 + |analyses[id].matches| && Follows(w, after, x)
    ensures r.Ok? ==> after == s.(next := after.next, tally := AfterRoute(s.tally, analyses[id]))
    ensures r.Ok? ==> Reports(w.log, id, ix.routes[id].signatures, analyses[id])
  {
    hide Replayed, Reports, Follows, IsRouteStatus;
    after := s;
    FollowsIsValid(w, s, x);
    if id !in ix.routes {
      return Err(MissingIntersection), after;
    }
    if id !in analyses {
      return Err(MissingAnalysis), after;
    }
    var analysis := analyses[id];
    if analysis.routeId != id {
      return Err(AnalysisMismatch), after;
    }
    if !IsRouteStatus(analysis.status) {
      return Err(UnsupportedStatus), after;
    }
    r, after := WriteRoute(w, id, ix.routes[id].signatures, analysis, s, x);
  }

  function AfterRoute(t: Tally, a: RouteAnalysis): Tally {
    Counted(t, a.status).(matches := t.matches + |a.matches|)
  }

  /** Every route of the plan, as long as each has a usable result and the cap allows. */
  method WriteRoutes(w: Writer, plan: ForensicsPlan, ix: IntersectionPlan, analyses: map<string, RouteAnalysis>,
                     ghost s: Replay, ghost x: Expected)
    returns (r: Result<Tally, WriteError>, ghost after: Replay)
    requires Follows(w, s, x) && s.reached == Some(true) && s.tally == Tally(0, 0, 0, 0, 0, 0, 0)
    modifies w
    ensures w.Valid() && NoEnd(w.log) && old(w.log) <= w.log
    ensures r.Ok? ==> ReportsAll(w.log, plan.routes.Keys, ix, analyses)
    ensures r.Ok? <==>
      && AllReportable(plan, ix, analyses)
      && |old(w.log)| + |plan.routes.Keys| + MatchCount(plan.routes.Keys, analyses) < MAX_RECORDS_PER_RUN
    ensures r.Ok? ==> |w.log| == |old(w.log)| + |plan.routes.Keys| + MatchCount(plan.routes.Keys, analyses)
    ensures r.Ok? ==> Follows(w, after, x) && r.value.results == |plan.routes.Keys|
    ensures r.Ok? ==> after == s.(next := after.next, tally := r.value)
  {
    hide Replayed, Follows, Reports, ReportsAll, Writer.Valid, NoEnd, Reportable, MatchCount, Counted, AfterRoute;
    after := s;
    var tally := Tally(0, 0, 0, 0, 0, 0, 0);
    var pending := plan.routes.Keys;
    ghost var total := |w.log| + |plan.routes.Keys|
      + if plan.routes.Keys <= analyses.Keys then MatchCount(plan.routes.Keys, analyses) else 0;
    ghost var reported: set<string> := {};
    ReportsNone(w.log, ix, analyses);
    FollowsIsValid(w, s, x);
    ReportableKeys(plan, ix, analyses);
    while pending != {}
      invariant pending <= plan.routes.Keys && reported == plan.routes.Keys - pending
      invariant Follows(w, after, x) && old(w.log) <= w.log
      invariant ReportsAll(w.log, reported, ix, analyses)
      invariant after == s.(next := after.next, tally := tally) && tally.results == |plan.routes.Keys| - |pending|
      invariant forall id :: id in reported ==> Reportable(id, ix, analyses)
      invariant plan.routes.Keys <= analyses.Keys ==> |w.log| + |pending| + MatchCount(pending, analyses) == total
      decreases |pending|
    {
      var id :| id in pending;
      if plan.routes.Keys <= analyses.Keys {
        MatchCountOf(pending, id, analyses);
      }
      pending := pending - {id};
      ghost var before := w.log;
      var written;
      written, after := WriteRouteOf(w, id, ix, analyses, after, x);
      if written.Err? {
        return Err(written.error), after;
      }
      ReportsOneMore(before, w.log, reported, id, ix, analyses);
      reported := reported + {id};
      CountedResults(tally, analyses[id]);
      tally := AfterRoute(tally, analyses[id]);
    }
    FollowsIsValid(w, after, x);
    assert reported == plan.routes.Keys;
    NoMatchesLeft(analyses);
    return Ok(tally), after;
  }

  lemma ReportableKeys(plan: ForensicsPlan, ix: IntersectionPlan, analyses: map<string, RouteAnalysis>)
    ensures AllReportable(plan, ix, analyses) ==> plan.routes.Keys <= analyses.Keys
    ensures forall id :: Reportable(id, ix, analyses) ==> id in ix.routes && id in analyses
  {
  }

  lemma CountedResults(t: Tally, a: RouteAnalysis)
    ensures AfterRoute(t, a).results == t.results + 1
  {
  }

  lemma FollowsIsValid(w: Writer, s: Replay, x: Expected)
    requires Follows(w, s, x)
    ensures w.Valid() && NoEnd(w.log) && |w.log| < MAX_RECORDS_PER_RUN
  {
  }

  function KeyOf(c: CandidateEvidence): string {
    CandidateKey(c.sourceRunId, c.sourceRecordSequence, c.candidateId)
  }

  /** Candidates of one run with different sequence numbers have different keys. */
  lemma KeysDiffer(a: CandidateEvidence, b: CandidateEvidence)
    requires a.sourceRunId == b.sourceRunId && a.sourceRecordSequence != b.sourceRecordSequence
    ensures KeyOf(a) != KeyOf(b)
  {
    if KeyOf(a) == KeyOf(b) {
      var head := a.sourceRunId + ":";
      assert KeyOf(a)[|head|..] == KeyOf(b)[|head|..];
      Strings.ColonSplits(Strings.Decimal(a.sourceRecordSequence), a.candidateId,
                          Strings.Decimal(b.sourceRecordSequence), b.candidateId);
      Strings.DecimalInjective(a.sourceRecordSequence, b.sourceRecordSequence);
    }
  }

  /** A candidate's verdict: its route's, or that the window never matured. */
  function Captureability(c: CandidateEvidence, analyses: Option<map<string, RouteAnalysis>>): Status
    requires analyses.Some? ==> c.route.routeId in analyses.value
  {
    if analyses.None? then WindowNotMature else analyses.value[c.route.routeId].status
  }

  function Annotation(c: CandidateEvidence, status: Status): Event {
    CandidateAnnotation(c.route.routeId, status, c.sourceRunId, c.sourceRecordSequence, c.candidateId)
  }

  method WriteAnnotation(w: Writer, c: CandidateEvidence, status: Status, ghost s: Replay, ghost x: Expected)
    returns (r: Result<(), WriteError>, ghost after: Replay)
    requires Follows(w, s, x) && s.reached.Some? && KeyOf(c) !in s.annotated
    requires if s.reached.value then IsRouteStatus(status) else status == WindowNotMature
    modifies w
    ensures w.Valid() && NoEnd(w.log) && old(w.log) <= w.log
    ensures r.Ok? <==> |old(w.log)| < MAX_RECORDS_PER_RUN - 1
    ensures r.Ok? ==> |w.log| == |old(w.log)| + 1 && w.log[|old(w.log)|].event == Annotation(c, status) && Follows(w, after, x)
    ensures r.Ok? ==> after == s.(next := s.next + 1, annotations := s.annotations + 1, annotated := s.annotated + {KeyOf(c)},
                                  immature := s.immature + if s.reached.value then 0 else 1)
  {
    hide Replayed, CandidateKey;
    r, after := Put(w, Annotation(c, status), s, x);
  }

  ghost function Keys(candidates: seq<CandidateEvidence>): set<string> {
    if candidates == [] then {} else Keys(candidates[..|candidates| - 1]) + {KeyOf(candidates[|candidates| - 1])}
  }

  ghost predicate KeysDistinct(candidates: seq<CandidateEvidence>) {
    forall j, k :: 0 <= j < k < |candidates| ==> KeyOf(candidates[j]) != KeyOf(candidates[k])
  }

  lemma {:induction false} KeysMembers(candidates: seq<CandidateEvidence>)
    ensures forall key :: key in Keys(candidates) <==> exists k :: 0 <= k < |candidates| && KeyOf(candidates[k]) == key
  {
    hide KeyOf;
    if candidates != [] {
      KeysMembers(candidates[..|candidates| - 1]);
    }
  }

  lemma KeysGrow(candidates: seq<CandidateEvidence>, k: nat)
    requires k < |candidates| && KeysDistinct(candidates)
    ensures KeyOf(candidates[k]) !in Keys(candidates[..k])
    ensures Keys(candidates[..k + 1]) == Keys(candidates[..k]) + {KeyOf(candidates[k])}
    ensures |Keys(candidates[..k + 1])| == |Keys(candidates[..k])| + 1
  {
    hide KeyOf;
    KeysMembers(candidates[..k]);
    assert candidates[..k + 1][..k] == candidates[..k];
  }

  /** The replay after the annotations of `candidates`. */
  ghost function AfterCandidates(s: Replay, candidates: seq<CandidateEvidence>): Replay {
    s.(next := s.next + |candidates|, annotations := |candidates|, annotated := Keys(candidates),
       immature := if s.reached == Some(true) then 0 else |candidates|)
  }

  /** The annotation of a candidate: its source record, its route, and the route's verdict, if the window matured. */
  predicate RecordsCandidate(e: Event, c: CandidateEvidence, analyses: Option<map<string, RouteAnalysis>>)
    requires analyses.Some? ==> c.route.routeId in analyses.value
  {
    && e.CandidateAnnotation? && e.routeId == c.route.routeId && e.candidateId == c.candidateId
    && e.sourceRunId == c.sourceRunId && e.sourceSequence == c.sourceRecordSequence
    && (if analyses.Some? then e.captureability == analyses.value[c.route.routeId].status
        else e.captureability == WindowNotMature)
  }

  lemma AnnotationRecords(c: CandidateEvidence, analyses: Option<map<string, RouteAnalysis>>)
    requires analyses.Some? ==> c.route.routeId in analyses.value
    ensures RecordsCandidate(Annotation(c, Captureability(c, analyses)), c, analyses)
  {
  }

  ghost predicate Annotates(log: seq<Record>, from: nat, candidates: seq<CandidateEvidence>, k: nat,
                            analyses: Option<map<string, RouteAnalysis>>)
    requires k <= |candidates|
    requires analyses.Some? ==> forall c :: c in candidates ==> c.route.routeId in analyses.value
  {
    && from + k <= |log|
    && forall j :: 0 <= j < k ==>
         RecordsCandidate(log[from + j].event, candidates[j], analyses)
  }

  method WriteCandidates(w: Writer, candidates: seq<CandidateEvidence>, analyses: Option<map<string, RouteAnalysis>>,
                         ghost s: Replay, ghost x: Expected)
    returns (r: Result<(), WriteError>, ghost after: Replay)
    requires Follows(w, s, x) && s.reached == Some(analyses.Some?)
    requires s.annotations == s.immature == 0 && s.annotated == {} && KeysDistinct(candidates)
    requires analyses.Some? ==> forall c :: c in candidates ==>
        c.route.routeId in analyses.value && IsRouteStatus(analyses.value[c.route.routeId].status)
    modifies w
    ensures w.Valid() && NoEnd(w.log) && old(w.log) <= w.log
    ensures r.Ok? <==> |old(w.log)| + |candidates| < MAX_RECORDS_PER_RUN
    ensures r.Ok? ==> |w.log| == |old(w.log)| + |candidates| && Follows(w, after, x)
    ensures r.Ok? ==> after == AfterCandidates(s, candidates) && |after.annotated| == |candidates|
    ensures r.Ok? ==> Annotates(w.log, |old(w.log)|, candidates, |candidates|, analyses)
  {
    hide Replayed, Follows, KeyOf, Annotation, RecordsCandidate, IsRouteStatus, Keys, KeysDistinct, Writer.Valid, NoEnd;
    after := s;
    FollowsIsValid(w, s, x);
    NoKeys();
    for k := 0 to |candidates|
      invariant w.Valid() && NoEnd(w.log) && Follows(w, after, x) && old(w.log) <= w.log && |w.log| == |old(w.log)| + k
      invariant after == AfterCandidates(s, candidates[..k]) && |after.annotated| == k
      invariant Annotates(w.log, |old(w.log)|, candidates, k, analyses)
      invariant |w.log| < MAX_RECORDS_PER_RUN
    {
      var c := candidates[k];
      KeysGrow(candidates, k);
      AnnotationRecords(c, analyses);
      r, after := WriteAnnotation(w, c, Captureability(c, analyses), after, x);
      if r.Err? {
        return;
      }
      FollowsIsValid(w, after, x);
    }
    assert candidates[..|candidates|] == candidates;
    return Ok(()), after;
  }

  lemma NoKeys()
    ensures Keys([]) == {}
  {
  }

  // ---------------------------------------------------------------- the whole artifact

  /** A mature run carries search results, an immature one carries none. */
  predicate StagesMatch(maturity: EvidenceMaturity, intersections: Option<IntersectionPlan>,
                        analyses: Option<map<string, RouteAnalysis>>) {
    if maturity.reached then intersections.Some? && analyses.Some? else intersections.None? && analyses.None?
  }

  ghost predicate MaturityFits(plan: ForensicsPlan, maturity: EvidenceMaturity) {
    IsRequiredEnd(plan, maturity.requiredEndSlot) && Validate(maturity, maturity.requiredEndSlot).Ok?
  }

  /** Start, maturity and end; one result per route and one record per match; one annotation per candidate. */
  ghost function RecordTotal(plan: ForensicsPlan, analyses: Option<map<string, RouteAnalysis>>): nat
    requires analyses.Some? ==> plan.routes.Keys <= analyses.value.Keys
  {
    3 + |plan.candidates|
    + if analyses.Some? then |plan.routes.Keys| + MatchCount(plan.routes.Keys, analyses.value) else 0
  }

  ghost predicate Writable(plan: ForensicsPlan, maturity: EvidenceMaturity, intersections: Option<IntersectionPlan>,
                           analyses: Option<map<string, RouteAnalysis>>)
  {
    && MaturityFits(plan, maturity) && StagesMatch(maturity, intersections, analyses)
    && (maturity.reached ==> AllReportable(plan, intersections.value, analyses.value))
    && RecordTotal(plan, analyses) <= MAX_RECORDS_PER_RUN
  }

  lemma CandidatesReady(plan: ForensicsPlan, intersections: Option<IntersectionPlan>, analyses: Option<map<string,
                        RouteAnalysis>>)
    requires WellFormed(plan)
    requires analyses.Some? ==> intersections.Some? && AllReportable(plan, intersections.value, analyses.value)
    ensures KeysDistinct(plan.candidates)
    ensures analyses.Some? ==> forall c :: c in plan.candidates ==>
        c.route.routeId in analyses.value && IsRouteStatus(analyses.value[c.route.routeId].status)
  {
    hide KeyOf, IsRouteStatus;
    forall j, k | 0 <= j < k < |plan.candidates| ensures KeyOf(plan.candidates[j]) != KeyOf(plan.candidates[k]) {
      assert plan.candidates[j] in plan.candidates && plan.candidates[k] in plan.candidates;
      KeysDiffer(plan.candidates[j], plan.candidates[k]);
    }
    if analyses.Some? {
      forall c | c in plan.candidates
        ensures c.route.routeId in analyses.value && IsRouteStatus(analyses.value[c.route.routeId].status)
      {
        assert Reportable(c.route.routeId, intersections.value, analyses.value);
      }
    }
  }

  /** Writes the end record, for which there is always room, and replays the log. */
  method WriteEnd(w: Writer, tally: Tally, immature: nat, reached: bool, ghost s: Replay, x: Expected)
    returns (r: Result<(), ReplayError>)
    requires Follows(w, s, x) && s.reached == Some(reached) && s.tally == tally && s.immature == immature
    requires s.annotations == |s.annotated| == x.candidates
    requires if reached then tally.results == x.routes else tally.results == tally.matches == 0 && immature == x.candidates
    modifies w
    ensures |w.log| == |old(w.log)| + 1 && old(w.log) <= w.log
    ensures w.log[|old(w.log)|].event == Event.RunEnd(x.routes, x.candidates, immature, tally, reached)
    ensures r == Ok(()) == Validated(w.log, x.candidates, x.routes)
  {
    hide Replayed;
    var end := Event.RunEnd(x.routes, x.candidates, immature, tally, reached);
    var written := w.WriteEvent(end);
    ReplayedSnoc(old(w.log), w.log[|old(w.log)|], x.candidates, x.routes);
    r := ValidateLog(w.log, x.candidates, x.routes);
  }

  lemma UnfinishedNeverAccepted(log: seq<Record>)
    requires NoEnd(log)
    ensures forall c: nat, n: nat :: Validated(log, c, n).Err?
  {
  }

  /**
    * For every plan that loads, the artifact is written exactly when its parts fit together and its record
    * total fits the cap. What is written is accepted by the replay; whatever a failure leaves behind is not.
    */
  method WriteArtifact(plan: ForensicsPlan, maturity: EvidenceMaturity, intersections: Option<IntersectionPlan>,
                       analyses: Option<map<string, RouteAnalysis>>, runId: string, github: string)
    returns (r: Result<RunResult, WriteError>, log: Option<seq<Record>>)
    requires WellFormed(plan)
    ensures r.Ok? <==> Writable(plan, maturity, intersections, analyses)
    ensures log.Some? <==> MaturityFits(plan, maturity) && StagesMatch(maturity, intersections, analyses)
    ensures r.Ok? ==>
      && Validated(log.value, |plan.candidates|, |plan.routes.Keys|) == Ok(())
      && |log.value| == RecordTotal(plan, analyses)
      && log.value[1].event.MaturityResult? && log.value[1].event.maturity == maturity
      && r.value == RunResult(|plan.routes.Keys|, |plan.candidates|, TallyOf(log.value),
                              if maturity.reached then 0 else |plan.candidates|, maturity.reached)
      && Annotates(log.value, |log.value| - 1 - |plan.candidates|, plan.candidates, |plan.candidates|, analyses)
      && (maturity.reached ==> ReportsAll(log.value, plan.routes.Keys, intersections.value, analyses.value))
    ensures r.Err? && log.Some? ==> forall c: nat, n: nat :: Validated(log.value, c, n).Err?
  {
    hide WellFormed, Validate, AllReportable, ReportsAll, Annotates, KeysDistinct, Follows, IsRequiredEnd, Validated,
         IsRouteStatus, TallyOf, Reports, MatchCount, MaturityFits, Keys, NoEnd, Writer.Valid;
    var checked := ValidateForPlan(maturity, plan);
    MaturityDecides(plan, maturity, checked);
    if checked.Err? {
      return Err(MaturityRejected(checked.error)), None;
    }
    if !StagesMatch(maturity, intersections, analyses) {
      return Err(StageMismatch), None;
    }
    var x := Expected(|plan.candidates|, |plan.routes.Keys|);
    var w := new Writer(runId, github);
    ghost var s := WriteOpening(w, maturity, x);
    var tally := Tally(0, 0, 0, 0, 0, 0, 0);
    if maturity.reached {
      var routed;
      routed, s := WriteRoutes(w, plan, intersections.value, analyses.value, s, x);
      if routed.Err? {
        UnfinishedNeverAccepted(w.log);
        return Err(routed.error), Some(w.log);
      }
      tally := routed.value;
    }
    ghost var reported := w.log;
    CandidatesReady(plan, intersections, analyses);
    var annotated;
    annotated, s := WriteCandidates(w, plan.candidates, analyses, s, x);
    if annotated.Err? {
      UnfinishedNeverAccepted(w.log);
      return Err(annotated.error), Some(w.log);
    }
    var immature := if maturity.reached then 0 else |plan.candidates|;
    label BeforeEnd:
    var replayed := WriteEnd(w, tally, immature, maturity.reached, s, x);
    AnnotatesLonger(old@BeforeEnd(w.log), w.log, |w.log| - 1 - |plan.candidates|, plan.candidates, analyses);
    if maturity.reached {
      ReportsLonger(reported, w.log, plan.routes.Keys, intersections.value, analyses.value);
    }
    AcceptedEnd(w.log, x.candidates, x.routes);
    r := match replayed
      case Ok(_) => Ok(RunResult(x.routes, x.candidates, tally, immature, maturity.reached))
      case Err(e) => Err(ReplayRejected(e));
    log := Some(w.log);
  }

  /** An accepted log ends in its own counts. */
  lemma AcceptedEnd(log: seq<Record>, expectedCandidates: nat, expectedRoutes: nat)
    ensures Validated(log, expectedCandidates, expectedRoutes) == Ok(()) ==>
      && |log| >= 3 && log[|log| - 1].event.RunEnd? && log[|log| - 1].event.tally == TallyOf(log)
  {
    hide Verdicts, Matches, Annotated, Validated;
    if Validated(log, expectedCandidates, expectedRoutes) == Ok(()) {
      AcceptedLogMeans(log, expectedCandidates, expectedRoutes);
    }
  }

  lemma MaturityDecides(plan: ForensicsPlan, maturity: EvidenceMaturity, checked: Result<(), MaturityError>)
    requires checked.Ok? ==> IsRequiredEnd(plan, maturity.requiredEndSlot)
    requires forall e :: IsRequiredEnd(plan, e) ==> checked == Validate(maturity, e)
    ensures checked.Ok? <==> MaturityFits(plan, maturity)
  {
  }

  lemma AnnotatesLonger(log: seq<Record>, longer: seq<Record>, from: nat, candidates: seq<CandidateEvidence>,
                        analyses: Option<map<string, RouteAnalysis>>)
    requires analyses.Some? ==> forall c :: c in candidates ==> c.route.routeId in analyses.value
    requires log <= longer && Annotates(log, from, candidates, |candidates|, analyses)
    ensures Annotates(longer, from, candidates, |candidates|, analyses)
  {
  }
}
