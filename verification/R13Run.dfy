/** The forensic stage of a run, from the loaded plan to the replayed log. */
module R13Run {
  import opened Wrappers
  import opened Machine
  import opened R13Plan
  import opened R13History
  import opened R13Acquisition
  import opened R13Matching
  import opened R13Search
  import opened R13Maturity
  import opened R13Log
  import opened R13Writer

  /**
    * Search only if the window matured, then write. Only the record cap can stop the artifact; a logged
    * absence verdict is true of the chain, and a logged match names a transaction that carried the route out.
    */
  method Investigate(plan: ForensicsPlan, maturity: EvidenceMaturity, tipAnswer: Result<u64, RpcError>,
                     historyRpc: HistoryRpc,
                     transactionRpc: TransactionRpc<Evidence>, runId: string, github: string,
                     ghost ledgers: Ledgers, ghost chain: Chain)
    returns (r: Result<RunResult, WriteError>, analyses: Option<map<string, RouteAnalysis>>, log: Option<seq<Record>>)
    requires WellFormed(plan) && MaturityFits(plan, maturity)
    requires tipAnswer.Ok? ==> Reliable(historyRpc, transactionRpc, tipAnswer.value, ledgers, chain)
    ensures log.Some? && (analyses.Some? <==> maturity.reached)
    ensures analyses.Some? ==> analyses.value.Keys == plan.routes.Keys
    ensures r.Ok? <==> RecordTotal(plan, analyses) <= MAX_RECORDS_PER_RUN
    ensures r.Ok? <==> Validated(log.value, |plan.candidates|, |plan.routes.Keys|) == Ok(())
    ensures r.Ok? && maturity.reached ==> forall id :: id in plan.routes ==>
      && (exists signatures :: Reports(log.value, id, signatures, analyses.value[id]))
      && (analyses.value[id].status == NoAtomicMatchComplete ==>
            forall s :: !CarriedOut(plan.routes[id], ledgers, chain, s))
      && (analyses.value[id].status == AmountsUnresolved ==>
            forall s :: CarriedOut(plan.routes[id], ledgers, chain, s) <==> Found(analyses.value[id].matches, s))
  {
    hide WellFormed, MaturityFits, Reliable, CarriedOut, Reports, Found, Validated, RecordTotal;
    if !maturity.reached {
      analyses := None;
      r, log := WriteArtifact(plan, maturity, None, None, runId, github);
    } else {
      var intersections, found := Search(plan, tipAnswer, historyRpc, transactionRpc, ledgers, chain);
      analyses := Some(found);
      r, log := WriteArtifact(plan, maturity, Some(intersections), analyses, runId, github);
    }
  }
}
