/** The forensic log and the state machine that replays it. */
module R13Log {
  import opened Wrappers
  import opened Machine
  import opened Sequences
  import opened R13Search
  import opened R13Maturity
  import Strings

  const MATURITY_POLICY_ID := "r13-confirmed-slot-maturity-v1"

  datatype Tally = Tally(results: nat, matches: nat, incomplete: nat, noMatch: nat, atomic: nat, unresolved: nat, resolved: nat)

  datatype Event =
    | RunStart
    | MaturityResult(policyId: string, maturity: EvidenceMaturity, status: string)
    | RouteSearchResult(routeId: string, verdict: Status, count: nat, signatures: seq<string>)
    | TransactionMatched(routeId: string, outcome: Status, signature: string)
    | CandidateAnnotation(routeId: string, captureability: Status, sourceRunId: string, sourceSequence: nat, candidateId: string)
    | RunEnd(routeCount: nat, annotationCount: nat, immatureCount: nat, tally: Tally, reached: bool)
    | UnknownEvent(name: string)

  datatype Record = Record(schemaCurrent: bool, sequence: nat, runId: string, github: string, event: Event)

  datatype ReplayError =
    | Empty | HeaderMismatch | SequenceOverflow | LifecycleInvalid | MaturityInvalid | RouteResultInvalid | MatchInvalid
    | CandidateInvalid | DuplicateCandidate | CountsMismatch | UnsupportedEvent | LifecycleIncomplete | CoverageMismatch

  datatype Replay = Replay(
    next: nat, origin: Option<(string, string)>, sawStart: bool, reached: Option<bool>, sawEnd: bool,
    tally: Tally, annotations: nat, immature: nat, annotated: set<string>)

  const INITIAL := Replay(1, None, false, None, false, Tally(0, 0, 0, 0, 0, 0, 0), 0, 0, {})

  predicate IsRouteStatus(s: Status) {
    s in {SearchIncomplete, NoAtomicMatchComplete, AtomicRouteMatch, AmountsUnresolved, OutcomeResolved}
  }

  predicate IsCandidateStatus(s: Status) {
    s == WindowNotMature || IsRouteStatus(s)
  }

  function Counted(t: Tally, s: Status): Tally {
    var t := t.(results := t.results + 1);
    match s
    case SearchIncomplete => t.(incomplete := t.incomplete + 1)
    case NoAtomicMatchComplete => t.(noMatch := t.noMatch + 1)
    case AtomicRouteMatch => t.(atomic := t.atomic + 1)
    case AmountsUnresolved => t.(unresolved := t.unresolved + 1)
    case OutcomeResolved => t.(resolved := t.resolved + 1)
    case _ => t
  }

  function CandidateKey(runId: string, sequence: nat, candidateId: string): string {
    runId + ":" + (Strings.Decimal(sequence) + ":" + candidateId)
  }

  function MaturityStatus(m: EvidenceMaturity): string {
    if m.reached then "mature" else "window_not_mature"
  }

  predicate MaturityAcceptable(e: Event)
    requires e.MaturityResult?
  {
    && e.policyId == MATURITY_POLICY_ID
    && e.maturity.pollAttempts > 0 && e.maturity.rpcErrors <= e.maturity.pollAttempts
    && e.status == MaturityStatus(e.maturity)
    && if e.maturity.reached then e.maturity.finalTip.Some? && e.maturity.finalTip.value >= e.maturity.requiredEndSlot
       else e.maturity.finalTip.None? || e.maturity.finalTip.value < e.maturity.requiredEndSlot
  }

  /** The checks every record goes through before its event is looked at. */
  function HeaderStep(s: Replay, r: Record): Result<Replay, ReplayError> {
    if !r.schemaCurrent || r.sequence != s.next then Err(HeaderMismatch)
    else if s.next >= U64_MAX then Err(SequenceOverflow)
    else if s.origin.Some? && s.origin.value != (r.runId, r.github) then Err(HeaderMismatch)
    else Ok(s.(next := s.next + 1, origin := Some((r.runId, r.github))))
  }

  function EventStep(s: Replay, sequence: nat, e: Event, expectedCandidates: nat, expectedRoutes: nat): Result<Replay,
                     ReplayError> {
    match e
    case RunStart =>
      if s.sawStart || s.reached.Some? || s.sawEnd || sequence != 1 then Err(LifecycleInvalid)
      else Ok(s.(sawStart := true))
    case MaturityResult(_, m, _) =>
      if !s.sawStart || s.reached.Some? || s.sawEnd then Err(LifecycleInvalid)
      else if !MaturityAcceptable(e) then Err(MaturityInvalid)
      else Ok(s.(reached := Some(m.reached)))
    case RouteSearchResult(_, verdict, count, signatures) =>
      if !s.sawStart || s.reached != Some(true) || s.sawEnd then Err(LifecycleInvalid)
      else if !IsRouteStatus(verdict) then Err(RouteResultInvalid)
      else if |signatures| != count || exists i, j :: 0 <= i < j < |signatures| && signatures[i] == signatures[j] then
        Err(RouteResultInvalid)
      else Ok(s.(tally := Counted(s.tally, verdict)))
    case TransactionMatched(_, outcome, _) =>
      if !s.sawStart || s.reached != Some(true) || s.sawEnd then Err(LifecycleInvalid)
      else if outcome != AmountsUnresolved && outcome != OutcomeResolved then Err(MatchInvalid)
      else Ok(s.(tally := s.tally.(matches := s.tally.matches + 1)))
    case CandidateAnnotation(_, status, runId, number, id) =>
      if !s.sawStart || s.reached.None? || s.sawEnd then Err(LifecycleInvalid)
      else if !IsCandidateStatus(status) || (s.reached.value <==> status == WindowNotMature) then Err(CandidateInvalid)
      else if CandidateKey(runId, number, id) in s.annotated then Err(DuplicateCandidate)
      else Ok(s.(annotations := s.annotations + 1, immature := s.immature + (if s.reached.value then 0 else 1),
                 annotated := s.annotated + {CandidateKey(runId, number, id)}))
    case RunEnd(routeCount, annotationCount, immatureCount, tally, reached) =>
      if !s.sawStart || s.reached.None? || s.sawEnd then Err(LifecycleInvalid)
      else if Some(reached) != s.reached || routeCount != expectedRoutes || annotationCount != expectedCandidates
              || tally != s.tally || immatureCount != s.immature then Err(CountsMismatch)
      else Ok(s.(sawEnd := true))
    case UnknownEvent(_) => Err(UnsupportedEvent)
  }

  function Step(s: Replay, r: Record, expectedCandidates: nat, expectedRoutes: nat): Result<Replay, ReplayError> {
    var s :- HeaderStep(s, r);
    EventStep(s, r.sequence, r.event, expectedCandidates, expectedRoutes)
  }

  function Replayed(log: seq<Record>, expectedCandidates: nat, expectedRoutes: nat): Result<Replay, ReplayError> {
    if log == [] then Ok(INITIAL)
    else
      var s :- Replayed(log[..|log| - 1], expectedCandidates, expectedRoutes);
      Step(s, log[|log| - 1], expectedCandidates, expectedRoutes)
  }

  /** The checks after the last record. */
  function Finish(s: Replay, expectedCandidates: nat, expectedRoutes: nat): Result<(), ReplayError> {
    if !s.sawStart || s.reached.None? || !s.sawEnd then Err(LifecycleIncomplete)
    else if s.reached.value && s.tally.results != expectedRoutes then Err(CoverageMismatch)
    else if !s.reached.value && (s.tally.results != 0 || s.tally.matches != 0) then Err(CoverageMismatch)
    else if s.annotations != expectedCandidates || |s.annotated| != expectedCandidates then Err(CoverageMismatch)
    else if !s.reached.value && s.immature != expectedCandidates then Err(CoverageMismatch)
    else Ok(())
  }

  function Validated(log: seq<Record>, expectedCandidates: nat, expectedRoutes: nat): Result<(), ReplayError> {
    if log == [] then Err(Empty)
    else
      var s :- Replayed(log, expectedCandidates, expectedRoutes);
      Finish(s, expectedCandidates, expectedRoutes)
  }

  method ValidateLog(log: seq<Record>, expectedCandidates: nat, expectedRoutes: nat)
    returns (r: Result<(), ReplayError>)
    ensures r == Validated(log, expectedCandidates, expectedRoutes)
  {
    hide Step, Finish;
    if log == [] {
      return Err(Empty);
    }
    var s := INITIAL;
    for i := 0 to |log|
      invariant Replayed(log[..i], expectedCandidates, expectedRoutes) == Ok(s)
    {
      assert log[..i + 1][..i] == log[..i];
      var next := Step(s, log[i], expectedCandidates, expectedRoutes);
      if next.Err? {
        ErrorStays(log, i + 1, expectedCandidates, expectedRoutes);
        return Err(next.error);
      }
      s := next.value;
    }
    assert log[..|log|] == log;
    return Finish(s, expectedCandidates, expectedRoutes);
  }

  lemma {:induction false} ErrorStays(log: seq<Record>, n: nat, expectedCandidates: nat, expectedRoutes: nat)
    requires n <= |log| && Replayed(log[..n], expectedCandidates, expectedRoutes).Err?
    ensures Replayed(log, expectedCandidates, expectedRoutes) == Replayed(log[..n], expectedCandidates, expectedRoutes)
    decreases |log|
  {
    hide Step;
    if n < |log| {
      assert log[..|log| - 1][..n] == log[..n];
      ErrorStays(log[..|log| - 1], n, expectedCandidates, expectedRoutes);
    } else {
      assert log[..n] == log;
    }
  }

  lemma ReplayedSnoc(log: seq<Record>, r: Record, expectedCandidates: nat, expectedRoutes: nat)
    requires Replayed(log, expectedCandidates, expectedRoutes).Ok?
    ensures Replayed(log + [r], expectedCandidates, expectedRoutes)
         == Step(Replayed(log, expectedCandidates, expectedRoutes).value, r, expectedCandidates, expectedRoutes)
  {
  }

  // ---------------------------------------------------------------- what an accepted log says

  /** How many records of the log report the verdict `status`. */
  function Verdicts(log: seq<Record>, status: Status): nat {
    if log == [] then 0
    else
      var e := log[|log| - 1].event;
      Verdicts(log[..|log| - 1], status) + if e.RouteSearchResult? && e.verdict == status then 1 else 0
  }

  function Matches(log: seq<Record>): nat {
    if log == [] then 0 else Matches(log[..|log| - 1]) + if log[|log| - 1].event.TransactionMatched? then 1 else 0
  }

  /** The candidate keys the log annotates, in order. */
  function Annotated(log: seq<Record>): seq<string> {
    if log == [] then []
    else
      var e := log[|log| - 1].event;
      Annotated(log[..|log| - 1])
      + if e.CandidateAnnotation? then [CandidateKey(e.sourceRunId, e.sourceSequence, e.candidateId)] else []
  }

  /** One run: numbered from one, under one id and provenance, start first, maturity second, an end only last. */
  ghost predicate WellOrdered(log: seq<Record>) {
    && (forall i :: 0 <= i < |log| ==>
          && log[i].sequence == i + 1 && log[i].runId == log[0].runId && log[i].github == log[0].github
          && (log[i].event.RunStart? <==> i == 0) && (log[i].event.MaturityResult? <==> i == 1))
    && (forall i :: 0 <= i < |log| - 1 ==> !log[i].event.RunEnd?)
  }

  /** The run matured, according to its second record. */
  predicate Reached(log: seq<Record>) {
    |log| >= 2 && log[1].event.MaturityResult? && log[1].event.maturity.reached
  }

  /** The replay state, read off the log. */
  ghost predicate Describes(s: Replay, log: seq<Record>) {
    && WellOrdered(log)
    && s.next == |log| + 1
    && s.origin == (if log == [] then None else Some((log[0].runId, log[0].github)))
    && (s.sawStart <==> log != []) && (s.reached.Some? <==> |log| >= 2)
    && (|log| >= 2 ==> s.reached.value == log[1].event.maturity.reached)
    && (s.sawEnd <==> log != [] && log[|log| - 1].event.RunEnd?)
    && s.tally == Tally(
         Verdicts(log, SearchIncomplete) + Verdicts(log, NoAtomicMatchComplete) + Verdicts(log, AtomicRouteMatch)
         + Verdicts(log, AmountsUnresolved) + Verdicts(log, OutcomeResolved),
         Matches(log), Verdicts(log, SearchIncomplete), Verdicts(log, NoAtomicMatchComplete),
         Verdicts(log, AtomicRouteMatch), Verdicts(log, AmountsUnresolved), Verdicts(log, OutcomeResolved))
    && Distinct(Annotated(log)) && s.annotations == |Annotated(log)|
    && s.immature == (if |log| < 2 || Reached(log) then 0 else |Annotated(log)|)
    && (forall k :: k in s.annotated <==> k in Annotated(log))
  }

  lemma StepDescribes(s: Replay, log: seq<Record>, expectedCandidates: nat, expectedRoutes: nat)
    requires log != [] && Describes(s, log[..|log| - 1])
    requires Step(s, log[|log| - 1], expectedCandidates, expectedRoutes).Ok?
    ensures Describes(Step(s, log[|log| - 1], expectedCandidates, expectedRoutes).value, log)
  {
    hide HeaderStep, EventStep, Verdicts, Matches, Annotated;
    HeaderStepFits(s, log);
    assert log[..|log| - 1] != [] ==> log[..|log| - 1][0] == log[0];
    EventDescribes(HeaderStep(s, log[|log| - 1]).value, log, expectedCandidates, expectedRoutes);
  }

  /** The state before the last event, its header already counted in. */
  ghost predicate HeaderCounted(s: Replay, log: seq<Record>)
    requires log != []
  {
    && s.next == |log| + 1 && s.origin == Some((log[0].runId, log[0].github))
    && Describes(s.(next := |log|, origin := if |log| == 1 then None else s.origin), log[..|log| - 1])
  }

  lemma EventDescribes(s: Replay, log: seq<Record>, expectedCandidates: nat, expectedRoutes: nat)
    requires log != [] && HeaderCounted(s, log) && HeaderFits(log)
    requires EventStep(s, |log|, log[|log| - 1].event, expectedCandidates, expectedRoutes).Ok?
    ensures Describes(EventStep(s, |log|, log[|log| - 1].event, expectedCandidates, expectedRoutes).value, log)
  {
    hide CandidateKey, Verdicts, Matches, Annotated, Distinct;
    NothingAnnotated(log);
    LastAnnotated(log);
    LastCounted(log);
    var before := Annotated(log[..|log| - 1]);
    assert forall k, x :: k in before + [x] <==> k in before || k == x;
  }

  /** What the last record adds to the counts. */
  lemma LastCounted(log: seq<Record>)
    requires log != []
    ensures
      var init, e := log[..|log| - 1], log[|log| - 1].event;
      && (forall v :: Verdicts(log, v) == Verdicts(init, v) + if e.RouteSearchResult? && e.verdict == v then 1 else 0)
      && Matches(log) == Matches(init) + (if e.TransactionMatched? then 1 else 0)
      && Annotated(log) == Annotated(init)
         + if e.CandidateAnnotation? then [CandidateKey(e.sourceRunId, e.sourceSequence, e.candidateId)] else []
  {
    hide CandidateKey;
  }

  lemma NothingAnnotated(log: seq<Record>)
    ensures |log| <= 2 && (forall i :: 0 <= i < |log| ==> !log[i].event.CandidateAnnotation?) ==> Annotated(log) == []
  {
    hide CandidateKey;
    if log != [] && |log| <= 2 {
      var init := log[..|log| - 1];
      assert init == [] || init[..|init| - 1] == [];
    }
  }

  lemma {:induction false} ReplayDescribes(log: seq<Record>, expectedCandidates: nat, expectedRoutes: nat)
    requires Replayed(log, expectedCandidates, expectedRoutes).Ok?
    ensures Describes(Replayed(log, expectedCandidates, expectedRoutes).value, log)
  {
    if log != [] {
      hide Step, Describes;
      ReplayDescribes(log[..|log| - 1], expectedCandidates, expectedRoutes);
      StepDescribes(Replayed(log[..|log| - 1], expectedCandidates, expectedRoutes).value, log, expectedCandidates, expectedRoutes);
    } else {
      assert INITIAL.annotated == {};
    }
  }

  /** All five verdicts together. */
  function AllVerdicts(log: seq<Record>): nat {
    Verdicts(log, SearchIncomplete) + Verdicts(log, NoAtomicMatchComplete) + Verdicts(log, AtomicRouteMatch)
    + Verdicts(log, AmountsUnresolved) + Verdicts(log, OutcomeResolved)
  }

  // ---------------------------------------------------------------- which logs are accepted

  const VERDICTS: set<Status> :=
    {SearchIncomplete, NoAtomicMatchComplete, AtomicRouteMatch, AmountsUnresolved, OutcomeResolved}

  function TallyOf(log: seq<Record>): Tally {
    Tally(AllVerdicts(log), Matches(log), Verdicts(log, SearchIncomplete), Verdicts(log, NoAtomicMatchComplete),
          Verdicts(log, AtomicRouteMatch), Verdicts(log, AmountsUnresolved), Verdicts(log, OutcomeResolved))
  }

  /** A maturity record that polled, and claims maturity exactly if its last tip reached the required slot. */
  predicate ProperMaturity(policyId: string, m: EvidenceMaturity, status: string) {
    && policyId == "r13-confirmed-slot-maturity-v1" && m.rpcErrors <= m.pollAttempts && m.pollAttempts > 0
    && (m.reached <==> m.finalTip.Some? && m.finalTip.value >= m.requiredEndSlot)
    && (if m.reached then status == "mature" else status == "window_not_mature")
  }

  /** What the event at a position may say. */
  ghost predicate ProperEvent(log: seq<Record>, k: nat)
    requires k < |log|
  {
    match log[k].event
    case RunStart => true
    case MaturityResult(policyId, m, status) => ProperMaturity(policyId, m, status)
    case RouteSearchResult(_, verdict, count, signatures) =>
      Reached(log) && verdict in VERDICTS && count == |signatures| && Distinct(signatures)
    case TransactionMatched(_, outcome, _) => Reached(log) && outcome in {AmountsUnresolved, OutcomeResolved}
    case CandidateAnnotation(_, status, _, _, _) => if Reached(log) then status in VERDICTS else status == WindowNotMature
    case RunEnd(_, _, _, _, _) => true
    case UnknownEvent(_) => false
  }

  /** An end record repeats what was expected and counts what the log holds. */
  ghost predicate ProperEnd(log: seq<Record>, expectedCandidates: nat, expectedRoutes: nat)
    requires log != []
  {
    match log[|log| - 1].event
    case RunEnd(routeCount, annotationCount, immatureCount, tally, reached) =>
      && routeCount == expectedRoutes && annotationCount == expectedCandidates && reached == Reached(log)
      && tally == TallyOf(log) && immatureCount == if Reached(log) then 0 else |Annotated(log)|
    case _ => true
  }

  ghost predicate ProperLog(log: seq<Record>, expectedCandidates: nat, expectedRoutes: nat) {
    && WellOrdered(log) && |log| < U64_MAX
    && (forall k :: 0 <= k < |log| ==> log[k].schemaCurrent && ProperEvent(log, k))
    && Distinct(Annotated(log))
    && (log != [] ==> ProperEnd(log, expectedCandidates, expectedRoutes))
  }

  ghost predicate HeaderFits(log: seq<Record>)
    requires log != []
  {
    var n := |log| - 1;
    && log[n].schemaCurrent && log[n].sequence == n + 1 && |log| < U64_MAX
    && log[n].runId == log[0].runId && log[n].github == log[0].github
  }

  ghost predicate EventFits(log: seq<Record>, expectedCandidates: nat, expectedRoutes: nat)
    requires log != []
  {
    var n := |log| - 1;
    && (log[n].event.RunStart? <==> n == 0) && (log[n].event.MaturityResult? <==> n == 1)
    && (n > 0 ==> !log[n - 1].event.RunEnd?)
    && ProperEvent(log, n) && Distinct(Annotated(log))
    && ProperEnd(log, expectedCandidates, expectedRoutes)
  }

  lemma ReachedEarly(log: seq<Record>, n: nat)
    requires 2 <= n <= |log|
    ensures Reached(log[..n]) == Reached(log)
  {
  }

  lemma EventsBefore(log: seq<Record>)
    requires log != []
    requires |log| > 0 ==> log[0].event.RunStart?
    requires |log| > 1 ==> log[1].event.MaturityResult?
    ensures var n := |log| - 1; forall k :: 0 <= k < n ==> (ProperEvent(log, k) <==> ProperEvent(log[..n], k))
  {
    var n := |log| - 1;
    if n >= 2 {
      ReachedEarly(log, n);
    }
  }

  lemma AnnotatedBefore(log: seq<Record>)
    requires log != []
    ensures Distinct(Annotated(log)) ==> Distinct(Annotated(log[..|log| - 1]))
  {
    hide CandidateKey;
    var init, all := Annotated(log[..|log| - 1]), Annotated(log);
    assert forall i :: 0 <= i < |init| ==> init[i] == all[i];
  }

  /** A log is proper exactly when it is proper up to its last record, which fits. */
  lemma ProperSnoc(log: seq<Record>, expectedCandidates: nat, expectedRoutes: nat)
    requires log != []
    ensures ProperLog(log, expectedCandidates, expectedRoutes) <==>
      && ProperLog(log[..|log| - 1], expectedCandidates, expectedRoutes)
      && (|log| > 1 ==> !log[|log| - 2].event.RunEnd?)
      && HeaderFits(log) && EventFits(log, expectedCandidates, expectedRoutes)
  {
    hide ProperEvent, ProperEnd, Annotated;
    var n := |log| - 1;
    var init := log[..n];
    AnnotatedBefore(log);
    assert forall k :: 0 <= k < n ==> init[k] == log[k];
    if ProperLog(log, expectedCandidates, expectedRoutes) {
      EventsBefore(log);
      WithoutEnd(init, expectedCandidates, expectedRoutes);
    }
    if ProperLog(init, expectedCandidates, expectedRoutes) && HeaderFits(log)
       && EventFits(log, expectedCandidates, expectedRoutes)
    {
      EventsBefore(log);
      assert forall i :: 0 <= i < n ==> log[i] == init[i];
    }
  }

  lemma WithoutEnd(log: seq<Record>, expectedCandidates: nat, expectedRoutes: nat)
    requires log != [] ==> !log[|log| - 1].event.RunEnd?
    ensures log != [] ==> ProperEnd(log, expectedCandidates, expectedRoutes)
  {
  }

  lemma HeaderStepFits(s: Replay, log: seq<Record>)
    requires log != [] && Describes(s, log[..|log| - 1])
    ensures HeaderStep(s, log[|log| - 1]).Ok? <==> HeaderFits(log)
    ensures HeaderStep(s, log[|log| - 1]).Ok? ==>
      var r := log[|log| - 1];
      HeaderStep(s, r).value == s.(next := |log| + 1, origin := Some((r.runId, r.github)))
  {
    hide Verdicts, Matches, Annotated;
  }

  lemma EventStepFits(s: Replay, log: seq<Record>, expectedCandidates: nat, expectedRoutes: nat)
    requires log != [] && HeaderCounted(s, log)
    ensures EventStep(s, |log|, log[|log| - 1].event, expectedCandidates, expectedRoutes).Ok?
       <==> EventFits(log, expectedCandidates, expectedRoutes)
  {
    hide CandidateKey;
    var n := |log| - 1;
    var init := log[..n];
    assert n > 0 ==> init[0] == log[0] && init[n - 1] == log[n - 1];
    assert n > 1 ==> init[1] == log[1];
    LastAnnotated(log);
  }

  lemma LastAnnotated(log: seq<Record>)
    requires log != [] && Distinct(Annotated(log[..|log| - 1]))
    ensures
      var init, e := Annotated(log[..|log| - 1]), log[|log| - 1].event;
      Distinct(Annotated(log)) <==>
      (e.CandidateAnnotation? ==> CandidateKey(e.sourceRunId, e.sourceSequence, e.candidateId) !in init)
  {
    hide CandidateKey;
    var init, e := Annotated(log[..|log| - 1]), log[|log| - 1].event;
    if e.CandidateAnnotation? {
      var key := CandidateKey(e.sourceRunId, e.sourceSequence, e.candidateId);
      assert Annotated(log) == init + [key];
      if key in init {
        var i :| 0 <= i < |init| && init[i] == key;
        assert Annotated(log)[i] == Annotated(log)[|init|];
      }
    }
  }

  lemma {:induction false} ReplayedIsProper(log: seq<Record>, expectedCandidates: nat, expectedRoutes: nat)
    ensures Replayed(log, expectedCandidates, expectedRoutes).Ok? <==> ProperLog(log, expectedCandidates, expectedRoutes)
    decreases |log|
  {
    hide HeaderStep, EventStep, HeaderFits, EventFits, Describes, ProperLog;
    if log == [] {
      EmptyIsProper(expectedCandidates, expectedRoutes);
    } else {
      var n := |log| - 1;
      var init := log[..n];
      ReplayedIsProper(init, expectedCandidates, expectedRoutes);
      ProperSnoc(log, expectedCandidates, expectedRoutes);
      if Replayed(init, expectedCandidates, expectedRoutes).Ok? {
        var s := Replayed(init, expectedCandidates, expectedRoutes).value;
        ReplayDescribes(init, expectedCandidates, expectedRoutes);
        StepIsProper(s, log, expectedCandidates, expectedRoutes);
      }
    }
  }

  lemma EmptyIsProper(expectedCandidates: nat, expectedRoutes: nat)
    ensures ProperLog([], expectedCandidates, expectedRoutes)
  {
  }

  lemma StepIsProper(s: Replay, log: seq<Record>, expectedCandidates: nat, expectedRoutes: nat)
    requires log != [] && Describes(s, log[..|log| - 1])
    ensures Step(s, log[|log| - 1], expectedCandidates, expectedRoutes).Ok? <==>
      (|log| > 1 ==> !log[|log| - 2].event.RunEnd?) && HeaderFits(log) && EventFits(log, expectedCandidates, expectedRoutes)
  {
    hide HeaderStep, EventStep, ProperEvent, ProperEnd, Annotated, Verdicts, Matches;
    HeaderStepFits(s, log);
    if HeaderFits(log) {
      var next := HeaderStep(s, log[|log| - 1]).value;
      assert log[..|log| - 1] != [] ==> log[..|log| - 1][0] == log[0];
      EventStepFits(next, log, expectedCandidates, expectedRoutes);
    }
  }

  /**
    * Acceptance, exactly. A log is accepted if and only if its records are one proper, ended run that
    * annotates every expected candidate once and, if the run matured, settles every expected route.
    */
  lemma AcceptedExactly(log: seq<Record>, expectedCandidates: nat, expectedRoutes: nat)
    ensures Validated(log, expectedCandidates, expectedRoutes) == Ok(()) <==>
      && ProperLog(log, expectedCandidates, expectedRoutes)
      && log != [] && log[|log| - 1].event.RunEnd? && |Annotated(log)| == expectedCandidates
      && AllVerdicts(log) == (if Reached(log) then expectedRoutes else 0)
  {
    hide ProperLog, Step;
    ReplayedIsProper(log, expectedCandidates, expectedRoutes);
    if log != [] && Replayed(log, expectedCandidates, expectedRoutes).Ok? {
      var s := Replayed(log, expectedCandidates, expectedRoutes).value;
      ReplayDescribes(log, expectedCandidates, expectedRoutes);
      SetOfDistinct(Annotated(log), s.annotated);
      EndedLater(log, expectedCandidates, expectedRoutes);
      if !Reached(log) {
        NoMatches(log, |log|, expectedCandidates, expectedRoutes);
        assert log[..|log|] == log;
      }
    }
  }

  lemma {:induction false} SetOfDistinct<T>(s: seq<T>, elements: set<T>)
    requires Distinct(s) && forall x :: x in elements <==> x in s
    ensures |elements| == |s|
    decreases |s|
  {
    if s != [] {
      var init, last := s[..|s| - 1], s[|s| - 1];
      assert forall i :: 0 <= i < |init| ==> init[i] == s[i];
      assert last !in init;
      SetOfDistinct(init, elements - {last});
    } else {
      assert elements == {};
    }
  }

  /** An end record comes third at the earliest. */
  lemma EndedLater(log: seq<Record>, expectedCandidates: nat, expectedRoutes: nat)
    requires ProperLog(log, expectedCandidates, expectedRoutes)
    ensures log != [] && log[|log| - 1].event.RunEnd? ==> |log| > 2
  {
  }

  lemma {:induction false} NoMatches(log: seq<Record>, n: nat, expectedCandidates: nat, expectedRoutes: nat)
    requires n <= |log| && ProperLog(log, expectedCandidates, expectedRoutes) && !Reached(log)
    ensures Matches(log[..n]) == 0
    decreases n
  {
    hide Annotated, WellOrdered, ProperEnd;
    if n > 0 {
      NoMatches(log, n - 1, expectedCandidates, expectedRoutes);
      assert log[..n][..n - 1] == log[..n - 1];
      assert ProperEvent(log, n - 1);
    }
  }

  /**
    * An accepted log is one finished run: its end record is last and counts each verdict and each match
    * correctly, every candidate is annotated once, and a run that did not mature searched no route.
    */
  lemma AcceptedLogMeans(log: seq<Record>, expectedCandidates: nat, expectedRoutes: nat)
    requires Validated(log, expectedCandidates, expectedRoutes) == Ok(())
    ensures WellOrdered(log) && |log| >= 3
    ensures var end := log[|log| - 1].event;
      && end.RunEnd? && end.routeCount == expectedRoutes && end.annotationCount == expectedCandidates
      && end.reached == log[1].event.maturity.reached
      && end.tally == Tally(AllVerdicts(log), Matches(log), Verdicts(log, SearchIncomplete), Verdicts(log, NoAtomicMatchComplete),
                            Verdicts(log, AtomicRouteMatch), Verdicts(log, AmountsUnresolved), Verdicts(log, OutcomeResolved))
    ensures Distinct(Annotated(log)) && |Annotated(log)| == expectedCandidates
    ensures AllVerdicts(log) == if log[1].event.maturity.reached then expectedRoutes else 0
    ensures !log[1].event.maturity.reached ==> Matches(log) == 0
  {
    var n := |log| - 1;
    ReplayDescribes(log, expectedCandidates, expectedRoutes);
    var before := Replayed(log[..n], expectedCandidates, expectedRoutes).value;
    ReplayDescribes(log[..n], expectedCandidates, expectedRoutes);
    assert Step(before, log[n], expectedCandidates, expectedRoutes).Ok?;
    assert log[n].event.RunEnd?;
    assert log[..n][0] == log[0];
  }

  /** A log without an end record is rejected, whatever is expected of it. */
  lemma UnfinishedIsRejected(log: seq<Record>, expectedCandidates: nat, expectedRoutes: nat)
    requires forall i :: 0 <= i < |log| ==> !log[i].event.RunEnd?
    ensures Validated(log, expectedCandidates, expectedRoutes).Err?
  {
  }
}
