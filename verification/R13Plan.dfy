/** The plan of a forensic run: what is read back from a completed shadow-recorder run. */
module R13Plan {
  import opened Wrappers
  import opened Machine

  const MAX_FORWARD_SLOTS := 32

  datatype PlanError =
    | SchemaMismatch | SequenceMismatch | SequenceOverflow | RunIdChanged | ProvenanceChanged
    | LifecycleInvalid | UnsupportedEvent | RouteInvalid | RouteConflict | NotCompleted | NoCandidates
    | DuplicateCandidate | EndSlotOverflow | NoEndSlot

  datatype HistoryRequest = HistoryRequest(address: string, startSlot: u64, endSlot: u64)

  datatype LegEvidence =
    LegEvidence(venue: string, poolId: string, inputMint: string, outputMint: string, sourceSlot: u64)

  datatype RouteEvidence =
    RouteEvidence(routeId: string, anchorMint: string, intermediateMint: string, leg1: LegEvidence, leg2: LegEvidence)
  {
    function StartSlot(): (slot: u64)
      ensures leg1.sourceSlot <= slot && leg2.sourceSlot <= slot
      ensures slot == leg1.sourceSlot || slot == leg2.sourceSlot
    {
      if leg1.sourceSlot >= leg2.sourceSlot then leg1.sourceSlot else leg2.sourceSlot
    }

    predicate EndFits()
      ensures EndFits() <==> leg1.sourceSlot + 32 <= U64_MAX && leg2.sourceSlot + 32 <= U64_MAX
    {
      StartSlot() + MAX_FORWARD_SLOTS <= U64_MAX
    }

    function EndSlot(): (slot: u64)
      requires EndFits()
      ensures leg1.sourceSlot + 32 <= slot && leg2.sourceSlot + 32 <= slot
      ensures slot == leg1.sourceSlot + 32 || slot == leg2.sourceSlot + 32
    {
      StartSlot() + MAX_FORWARD_SLOTS
    }

    /** Between the later of the two quotes and 32 slots behind it. */
    predicate Covers(slot: int) {
      && leg1.sourceSlot <= slot && leg2.sourceSlot <= slot
      && (slot <= leg1.sourceSlot + 32 || slot <= leg2.sourceSlot + 32)
    }

    function Request(leg: LegEvidence): (r: HistoryRequest)
      requires EndFits()
      ensures r.address == leg.poolId
      ensures forall slot :: r.startSlot <= slot <= r.endSlot <==> Covers(slot)
    {
      HistoryRequest(leg.poolId, StartSlot(), EndSlot())
    }

    /** The mints chain anchor, intermediate, anchor, through two different pools. */
    predicate Continuous()
      ensures Continuous() <==>
        && [leg1.inputMint, leg1.outputMint, leg2.inputMint, leg2.outputMint]
           == [anchorMint, intermediateMint, intermediateMint, anchorMint]
        && leg1.poolId != leg2.poolId
    {
      && leg1.inputMint == anchorMint == leg2.outputMint
      && leg1.outputMint == intermediateMint == leg2.inputMint
      && leg1.poolId != leg2.poolId
    }
  }

  datatype CandidateEvidence = CandidateEvidence(
    sourceRunId: string, sourceRecordSequence: u64, candidateId: string, route: RouteEvidence)

  datatype ForensicsPlan = ForensicsPlan(
    sourceRunId: string, candidates: seq<CandidateEvidence>, routes: map<string, RouteEvidence>,
    historyRequests: set<HistoryRequest>)

  /** The parsed records of the shadow run, one per line. */
  datatype SourceEvent =
    | RunStart | RunEnd | RouteRejection | Unsupported
    | CandidateEvaluation(candidateId: string, route: RouteEvidence)

  datatype SourceRecord =
    SourceRecord(schemaCurrent: bool, sequence: u64, runId: string, github: string, event: SourceEvent)
  {
    function Candidate(): (c: CandidateEvidence)
      requires event.CandidateEvaluation?
      ensures c.sourceRunId == runId && c.sourceRecordSequence == sequence
      ensures c.candidateId == event.candidateId && c.route == event.route
    {
      CandidateEvidence(runId, sequence, event.candidateId, event.route)
    }
  }

  /** No earlier candidate gave the route id of record `i` to a different route. */
  ghost predicate RouteAgrees(records: seq<SourceRecord>, i: nat)
    requires i < |records| && records[i].event.CandidateEvaluation?
  {
    forall j :: 0 <= j < i && records[j].event.CandidateEvaluation? ==>
      records[j].event.route.routeId == records[i].event.route.routeId ==> records[j].event.route == records[i].event.route
  }

  /** Record `i` continues the file correctly after the records before it. */
  ghost predicate Fits(records: seq<SourceRecord>, i: nat)
    requires i < |records|
  {
    var r := records[i];
    && r.schemaCurrent && r.sequence == i + 1 < U64_MAX
    && r.runId == records[0].runId && r.github == records[0].github
    && (i == 0 <==> r.event.RunStart?) && !r.event.Unsupported?
    && (forall j :: 0 <= j < i ==> !records[j].event.RunEnd?)
    && (r.event.CandidateEvaluation? ==> r.event.route.Continuous() && RouteAgrees(records, i))
  }

  ghost predicate AllFit(records: seq<SourceRecord>) {
    forall i :: 0 <= i < |records| ==> Fits(records, i)
  }

  lemma FitsInPrefix(records: seq<SourceRecord>, n: nat, i: nat)
    requires i < n <= |records|
    ensures Fits(records[..n], i) <==> Fits(records, i)
  {
  }

  lemma PrefixFits(records: seq<SourceRecord>, n: nat)
    requires n <= |records| && forall i :: 0 <= i < n ==> Fits(records, i)
    ensures AllFit(records[..n])
  {
    hide Fits;
    forall i | 0 <= i < n ensures Fits(records[..n], i) {
      FitsInPrefix(records, n, i);
    }
  }

  /** A file the loader accepts: one well-formed, finished run with a candidate, all of whose windows fit. */
  ghost predicate CompletedRun(records: seq<SourceRecord>) {
    && AllFit(records)
    && records != [] && records[|records| - 1].event.RunEnd?
    && (exists i :: 0 <= i < |records| && records[i].event.CandidateEvaluation?)
    && (forall i :: 0 <= i < |records| && records[i].event.CandidateEvaluation? ==> records[i].event.route.EndFits())
  }

  function Candidates(records: seq<SourceRecord>): seq<CandidateEvidence> {
    if records == [] then []
    else
      var last := records[|records| - 1];
      Candidates(records[..|records| - 1]) + if last.event.CandidateEvaluation? then [last.Candidate()] else []
  }

  ghost predicate RoutesOf(candidates: seq<CandidateEvidence>, routes: map<string, RouteEvidence>) {
    && (forall c :: c in candidates ==> c.route.routeId in routes && routes[c.route.routeId] == c.route)
    && (forall id :: id in routes ==> exists c :: c in candidates && c.route.routeId == id)
  }

  ghost predicate RequestsOf(routes: map<string, RouteEvidence>, ids: set<string>, requests: set<HistoryRequest>)
    requires ids <= routes.Keys && forall id :: id in ids ==> routes[id].EndFits()
  {
    forall q :: q in requests <==>
      exists id :: id in ids && (q == routes[id].Request(routes[id].leg1) || q == routes[id].Request(routes[id].leg2))
  }

  /** What every later stage relies on. */
  ghost predicate WellFormed(plan: ForensicsPlan) {
    && plan.candidates != []
    && RoutesOf(plan.candidates, plan.routes)
    && (forall id :: id in plan.routes ==>
          plan.routes[id].routeId == id && plan.routes[id].Continuous() && plan.routes[id].EndFits())
    && (forall c :: c in plan.candidates ==> c.sourceRunId == plan.sourceRunId)
    && (forall i, j :: 0 <= i < j < |plan.candidates| ==>
          plan.candidates[i].sourceRecordSequence != plan.candidates[j].sourceRecordSequence)
    && RequestsOf(plan.routes, plan.routes.Keys, plan.historyRequests)
  }

  /** In an accepted file the candidates carry increasing sequence numbers and are the recorded ones. */
  lemma {:induction false} CandidatesOfFile(records: seq<SourceRecord>)
    requires AllFit(records)
    ensures forall k :: 0 <= k < |Candidates(records)| ==>
        0 < Candidates(records)[k].sourceRecordSequence <= |records|
    ensures forall j, k :: 0 <= j < k < |Candidates(records)| ==>
        Candidates(records)[j].sourceRecordSequence < Candidates(records)[k].sourceRecordSequence
  {
    if records != [] {
      hide Fits;
      var n := |records| - 1;
      PrefixFits(records, n);
      CandidatesOfFile(records[..n]);
      assert Fits(records, n);
      SequenceOf(records, n);
    }
  }

  lemma SequenceOf(records: seq<SourceRecord>, i: nat)
    requires i < |records| && Fits(records, i)
    ensures records[i].sequence == i + 1
  {
  }

  lemma {:induction false} CandidatesAreRecorded(records: seq<SourceRecord>)
    ensures forall i :: 0 <= i < |records| && records[i].event.CandidateEvaluation? ==>
        records[i].Candidate() in Candidates(records)
    ensures forall c :: c in Candidates(records) ==>
        exists i :: 0 <= i < |records| && records[i].event.CandidateEvaluation? && c == records[i].Candidate()
  {
    if records != [] {
      var n := |records| - 1;
      CandidatesAreRecorded(records[..n]);
      assert forall i :: 0 <= i < n ==> records[..n][i] == records[i];
    }
  }

  ghost predicate Ended(records: seq<SourceRecord>, n: nat)
    requires n <= |records|
  {
    exists j :: 0 <= j < n && records[j].event.RunEnd?
  }

  /** `Fits`, in terms of what the reader has seen so far. */
  lemma FitsAsRead(records: seq<SourceRecord>, i: nat)
    requires i < |records|
    ensures var r := records[i];
      Fits(records, i) <==>
      && r.schemaCurrent && r.sequence == i + 1 < U64_MAX && r.runId == records[0].runId && r.github == records[0].github
      && !r.event.Unsupported?
      && (if r.event.RunStart? then i == 0 else i > 0 && !Ended(records, i))
      && (r.event.CandidateEvaluation? ==> r.event.route.Continuous() && RouteAgrees(records, i))
    ensures Ended(records, i + 1) <==> Ended(records, i) || records[i].event.RunEnd?
    ensures Fits(records, i) && Ended(records, i + 1) ==> records[i].event.RunEnd?
  {
  }

  method ReadRecords(records: seq<SourceRecord>)
    returns (r: Result<(seq<CandidateEvidence>, map<string, RouteEvidence>, bool), PlanError>)
    ensures r.Ok? <==> AllFit(records)
    ensures r != Err(DuplicateCandidate)
    ensures r.Ok? ==>
      && r.value.0 == Candidates(records) && RoutesOf(r.value.0, r.value.1)
      && (r.value.2 <==> records != [] && records[|records| - 1].event.RunEnd?)
  {
    hide Fits, RouteAgrees, Candidates, RoutesOf, Ended;
    var expected := 1;
    var candidates: seq<CandidateEvidence> := [];
    var routes: map<string, RouteEvidence> := map[];
    var sawStart, sawEnd := false, false;
    NothingRead(records);
    for i := 0 to |records|
      invariant expected == i + 1 && (sawStart <==> i > 0)
      invariant forall j :: 0 <= j < i ==> Fits(records, j)
      invariant sawEnd <==> Ended(records, i)
      invariant sawEnd ==> i > 0 && records[i - 1].event.RunEnd?
      invariant candidates == Candidates(records[..i])
      invariant RoutesOf(candidates, routes)
    {
      var record := records[i];
      FitsAsRead(records, i);
      CandidatesStep(records, i);
      if !record.schemaCurrent {
        return Err(SchemaMismatch);
      }
      if record.sequence != expected {
        return Err(SequenceMismatch);
      }
      if expected + 1 > U64_MAX {
        return Err(SequenceOverflow);
      }
      expected := expected + 1;
      if record.runId != records[0].runId {
        return Err(RunIdChanged);
      }
      if record.github != records[0].github {
        return Err(ProvenanceChanged);
      }
      match record.event {
        case RunStart =>
          if sawStart || record.sequence != 1 {
            return Err(LifecycleInvalid);
          }
          sawStart := true;
        case CandidateEvaluation(_, route) =>
          if !sawStart || sawEnd {
            return Err(LifecycleInvalid);
          }
          if !route.Continuous() {
            return Err(RouteInvalid);
          }
          ConflictShows(records, i, routes);
          if route.routeId in routes && routes[route.routeId] != route {
            return Err(RouteConflict);
          }
          RoutesGrow(candidates, routes, record.Candidate());
          routes := routes[route.routeId := route];
          candidates := candidates + [record.Candidate()];
        case RouteRejection =>
          if !sawStart || sawEnd {
            return Err(LifecycleInvalid);
          }
        case RunEnd =>
          if !sawStart || sawEnd {
            return Err(LifecycleInvalid);
          }
          sawEnd := true;
        case Unsupported =>
          return Err(UnsupportedEvent);
      }
    }
    assert records[..|records|] == records;
    EndedAtLast(records);
    return Ok((candidates, routes, sawEnd));
  }

  lemma EndedAtLast(records: seq<SourceRecord>)
    ensures records != [] && records[|records| - 1].event.RunEnd? ==> Ended(records, |records|)
  {
  }

  lemma NothingRead(records: seq<SourceRecord>)
    ensures !Ended(records, 0) && Candidates(records[..0]) == [] && RoutesOf([], map[])
  {
  }

  lemma CandidatesStep(records: seq<SourceRecord>, i: nat)
    requires i < |records|
    ensures Candidates(records[..i + 1])
         == Candidates(records[..i]) + if records[i].event.CandidateEvaluation? then [records[i].Candidate()] else []
  {
    assert records[..i + 1][..i] == records[..i];
  }

  lemma ConflictShows(records: seq<SourceRecord>, i: nat, routes: map<string, RouteEvidence>)
    requires i < |records| && records[i].event.CandidateEvaluation?
    requires RoutesOf(Candidates(records[..i]), routes)
    ensures
      var route := records[i].event.route;
      RouteAgrees(records, i) <==> (route.routeId in routes ==> routes[route.routeId] == route)
  {
    CandidatesAreRecorded(records[..i]);
    assert forall j :: 0 <= j < i ==> records[..i][j] == records[j];
    forall j | 0 <= j < i && records[j].event.CandidateEvaluation?
      ensures records[j].Candidate() in Candidates(records[..i])
    {
      assert records[..i][j].Candidate() in Candidates(records[..i]);
    }
  }

  lemma RoutesGrow(candidates: seq<CandidateEvidence>, routes: map<string, RouteEvidence>, c: CandidateEvidence)
    requires RoutesOf(candidates, routes)
    requires c.route.routeId in routes ==> routes[c.route.routeId] == c.route
    ensures RoutesOf(candidates + [c], routes[c.route.routeId := c.route])
  {
  }

  /** The loader accepts exactly the completed runs; its check for duplicate candidates never fires. */
  method LoadPlan(records: seq<SourceRecord>) returns (r: Result<ForensicsPlan, PlanError>)
    ensures r.Ok? <==> CompletedRun(records)
    ensures r.Ok? ==> WellFormed(r.value)
    ensures r.Ok? ==> r.value.candidates == Candidates(records) && r.value.sourceRunId == records[0].runId
    ensures r != Err(DuplicateCandidate)
  {
    hide Fits, Candidates, RoutesOf, RequestsOf;
    var read := ReadRecords(records);
    if read.Err? {
      return Err(read.error);
    }
    var (candidates, routes, sawEnd) := read.value;
    CandidatesOfFile(records);
    RoutesOfFile(records, routes);
    if !sawEnd {
      return Err(NotCompleted);
    }
    if candidates == [] {
      return Err(NoCandidates);
    }
    var unique := CheckDistinct(candidates);
    if !unique {
      return Err(DuplicateCandidate);
    }
    var requests := CollectRequests(routes);
    if requests.Err? {
      return Err(requests.error);
    }
    return Ok(ForensicsPlan(records[0].runId, candidates, routes, requests.value));
  }

  /** The route table of an accepted file, seen from its records. */
  lemma RoutesOfFile(records: seq<SourceRecord>, routes: map<string, RouteEvidence>)
    requires AllFit(records) && RoutesOf(Candidates(records), routes)
    ensures forall id :: id in routes ==> routes[id].routeId == id && routes[id].Continuous()
    ensures (forall id :: id in routes ==> routes[id].EndFits())
        <==> forall i :: 0 <= i < |records| && records[i].event.CandidateEvaluation? ==> records[i].event.route.EndFits()
    ensures Candidates(records) != []
        <==> exists i :: 0 <= i < |records| && records[i].event.CandidateEvaluation?
    ensures forall c :: c in Candidates(records) ==> c.sourceRunId == records[0].runId
  {
    hide Candidates;
    CandidatesAreRecorded(records);
    if Candidates(records) != [] {
      assert Candidates(records)[0] in Candidates(records);
    }
    forall c | c in Candidates(records) ensures c.sourceRunId == records[0].runId && c.route.Continuous() {
      var i :| 0 <= i < |records| && records[i].event.CandidateEvaluation? && c == records[i].Candidate();
      assert Fits(records, i);
    }
  }

  method CheckDistinct(candidates: seq<CandidateEvidence>) returns (distinct: bool)
    ensures (forall j, k :: 0 <= j < k < |candidates| ==>
        candidates[j].sourceRecordSequence < candidates[k].sourceRecordSequence) ==> distinct
  {
    var keys: set<(string, u64, string)> := {};
    for k := 0 to |candidates|
      invariant forall key :: key in keys ==> exists j :: 0 <= j < k && key.1 == candidates[j].sourceRecordSequence
    {
      var key := (candidates[k].sourceRunId, candidates[k].sourceRecordSequence, candidates[k].candidateId);
      if key in keys {
        return false;
      }
      keys := keys + {key};
    }
    return true;
  }

  /** Both legs of every route, over the same window. */
  method CollectRequests(routes: map<string, RouteEvidence>) returns (r: Result<set<HistoryRequest>, PlanError>)
    ensures r.Ok? <==> forall id :: id in routes ==> routes[id].EndFits()
    ensures r.Ok? ==> RequestsOf(routes, routes.Keys, r.value)
    ensures r.Err? ==> r.error == EndSlotOverflow
  {
    hide RequestsOf;
    var requests: set<HistoryRequest> := {};
    NoRequests(routes);
    var pending, done := routes.Keys, {};
    while pending != {}
      invariant pending + done == routes.Keys && pending !! done
      invariant forall id :: id in done ==> routes[id].EndFits()
      invariant RequestsOf(routes, done, requests)
      decreases |pending|
    {
      var id :| id in pending;
      var route := routes[id];
      if !route.EndFits() {
        return Err(EndSlotOverflow);
      }
      RequestsGrow(routes, done, requests, id);
      requests := requests + {route.Request(route.leg1), route.Request(route.leg2)};
      pending, done := pending - {id}, done + {id};
    }
    assert done == routes.Keys;
    return Ok(requests);
  }

  lemma NoRequests(routes: map<string, RouteEvidence>)
    ensures RequestsOf(routes, {}, {})
  {
  }

  lemma RequestsGrow(routes: map<string, RouteEvidence>, done: set<string>, requests: set<HistoryRequest>, id: string)
    requires id in routes && routes[id].EndFits()
    requires done <= routes.Keys && (forall d :: d in done ==> routes[d].EndFits()) && RequestsOf(routes, done, requests)
    ensures
      var route := routes[id];
      RequestsOf(routes, done + {id}, requests + {route.Request(route.leg1), route.Request(route.leg2)})
  {
  }

  lemma WellFormedHasRoutes(plan: ForensicsPlan)
    ensures WellFormed(plan) ==> plan.routes != map[] && forall id :: id in plan.routes ==> plan.routes[id].EndFits()
  {
    if WellFormed(plan) {
      assert plan.candidates[0] in plan.candidates;
    }
  }

  /** The latest end slot of the plan's routes. */
  ghost predicate IsRequiredEnd(plan: ForensicsPlan, endSlot: u64) {
    && (forall id :: id in plan.routes ==> plan.routes[id].EndFits() && plan.routes[id].EndSlot() <= endSlot)
    && (exists id :: id in plan.routes && plan.routes[id].EndFits() && plan.routes[id].EndSlot() == endSlot)
  }

  method RequiredEndSlot(plan: ForensicsPlan) returns (r: Result<u64, PlanError>)
    ensures r.Ok? ==> IsRequiredEnd(plan, r.value)
    ensures r.Ok? <==> plan.routes != map[] && forall id :: id in plan.routes ==> plan.routes[id].EndFits()
  {
    var required: Option<u64> := None;
    var pending := plan.routes.Keys;
    while pending != {}
      invariant pending <= plan.routes.Keys
      invariant forall id :: id in plan.routes.Keys - pending ==>
          plan.routes[id].EndFits() && required.Some? && plan.routes[id].EndSlot() <= required.value
      invariant required.Some? ==> exists id ::
        id in plan.routes && plan.routes[id].EndFits() && plan.routes[id].EndSlot() == required.value
      decreases |pending|
    {
      var id :| id in pending;
      var route := plan.routes[id];
      if !route.EndFits() {
        return Err(EndSlotOverflow);
      }
      if required.None? || required.value < route.EndSlot() {
        required := Some(route.EndSlot());
      }
      pending := pending - {id};
    }
    if required.None? {
      return Err(NoEndSlot);
    }
    return Ok(required.value);
  }
}
