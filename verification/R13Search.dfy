/** From histories and transactions to one verdict per route, and what a verdict says about the chain. */
module R13Search {
  import opened Wrappers
  import opened Machine
  import opened R13Plan
  import opened R13History
  import opened R13Acquisition
  import opened R13Matching

  datatype RouteIntersection = RouteIntersection(routeId: string, signatures: set<string>, complete: bool)
  datatype IntersectionPlan = IntersectionPlan(routes: map<string, RouteIntersection>, required: set<string>)

  datatype Status =
    | SearchIncomplete | NoAtomicMatchComplete | AtomicRouteMatch | AmountsUnresolved | OutcomeResolved
    | WindowNotMature | OtherStatus(text: string)

  datatype RouteAnalysis = RouteAnalysis(routeId: string, status: Status, matches: seq<TransactionMatch>)

  /** Routes are stored under their own ids, and their windows fit; plans that load are of this kind. */
  predicate Keyed(plan: ForensicsPlan) {
    forall id :: id in plan.routes ==> plan.routes[id].routeId == id && plan.routes[id].EndFits()
  }

  function Observed(h: AddressHistory): set<string> {
    set o | o in h.observations :: o.signature
  }

  /** The signatures both pools' histories show, when both are complete. */
  function IntersectionOf(route: RouteEvidence, histories: map<HistoryRequest, AddressHistory>): RouteIntersection
    requires route.EndFits()
  {
    var left, right := route.Request(route.leg1), route.Request(route.leg2);
    if left !in histories || right !in histories || !histories[left].complete || !histories[right].complete then
      RouteIntersection(route.routeId, {}, false)
    else RouteIntersection(route.routeId, Observed(histories[left]) * Observed(histories[right]), true)
  }

  ghost predicate Shows(h: AddressHistory, signature: string) {
    exists o :: o in h.observations && o.signature == signature
  }

  /** An intersection is complete exactly when both pools' histories are, and then holds what both show; else nothing. */
  lemma IntersectionIsCommon(route: RouteEvidence, histories: map<HistoryRequest, AddressHistory>)
    requires route.EndFits()
    ensures
      var ix := IntersectionOf(route, histories);
      var left, right := route.Request(route.leg1), route.Request(route.leg2);
      && ix.routeId == route.routeId
      && (ix.complete <==> forall r :: r == left || r == right ==> r in histories && histories[r].complete)
      && (forall s :: s in ix.signatures <==> ix.complete && Shows(histories[left], s) && Shows(histories[right], s))
  {
  }

  method IntersectRoute(route: RouteEvidence, histories: map<HistoryRequest, AddressHistory>)
    returns (ix: RouteIntersection)
    requires route.EndFits()
    ensures ix == IntersectionOf(route, histories)
  {
    var left, right := route.Request(route.leg1), route.Request(route.leg2);
    if left !in histories || right !in histories {
      return RouteIntersection(route.routeId, {}, false);
    }
    if !histories[left].complete || !histories[right].complete {
      return RouteIntersection(route.routeId, {}, false);
    }
    return RouteIntersection(route.routeId, Observed(histories[left]) * Observed(histories[right]), true);
  }

  method IntersectRouteHistories(plan: ForensicsPlan, histories: map<HistoryRequest, AddressHistory>)
    returns (r: IntersectionPlan)
    requires Keyed(plan)
    ensures r.routes.Keys == plan.routes.Keys
    ensures forall id :: id in plan.routes ==> r.routes[id] == IntersectionOf(plan.routes[id], histories)
    ensures IsUnion(r.routes, r.required)
  {
    hide IntersectionOf, IsUnion;
    var routes: map<string, RouteIntersection> := map[];
    var required: set<string> := {};
    EmptyUnion();
    var pending := plan.routes.Keys;
    while pending != {}
      invariant pending <= plan.routes.Keys && routes.Keys == plan.routes.Keys - pending
      invariant forall id :: id in routes ==> routes[id] == IntersectionOf(plan.routes[id], histories)
      invariant IsUnion(routes, required)
      decreases |pending|
    {
      var id :| id in pending;
      pending := pending - {id};
      var found := IntersectRoute(plan.routes[id], histories);
      UnionGrows(routes, required, id, found);
      required := required + found.signatures;
      routes := routes[id := found];
    }
    return IntersectionPlan(routes, required);
  }

  ghost predicate IsUnion(routes: map<string, RouteIntersection>, required: set<string>) {
    && (forall id :: id in routes ==> routes[id].signatures <= required)
    && (forall s :: s in required ==> exists id :: id in routes && s in routes[id].signatures)
  }

  lemma EmptyUnion()
    ensures IsUnion(map[], {})
  {
  }

  lemma UnionGrows(routes: map<string, RouteIntersection>, required: set<string>, id: string, found: RouteIntersection)
    requires IsUnion(routes, required) && id !in routes
    ensures IsUnion(routes[id := found], required + found.signatures)
  {
    var grown := routes[id := found];
    forall s | s in required + found.signatures ensures exists i :: i in grown && s in grown[i].signatures {
      if s in required {
        var i :| i in routes && s in routes[i].signatures;
        assert i in grown && s in grown[i].signatures;
      } else {
        assert s in grown[id].signatures;
      }
    }
  }

  type Transactions = map<string, Evidence>

  ghost predicate Holds(route: RouteEvidence, transactions: Transactions, s: string) {
    s in transactions && HoldsRoute(route, transactions[s])
  }

  /** The transaction is missing, or something in it is malformed or undecided. */
  ghost predicate Doubtful(route: RouteEvidence, transactions: Transactions, s: string) {
    s !in transactions || !Decidable(route, transactions[s])
  }

  ghost predicate Found(matches: seq<TransactionMatch>, s: string) {
    exists k :: 0 <= k < |matches| && matches[k].signature == s
  }

  /** The matches are exactly the signatures of `among` that hold the route, and all of these are at hand. */
  ghost predicate Settles(route: RouteEvidence, transactions: Transactions, among: set<string>,
                          matches: seq<TransactionMatch>) {
    && (forall s :: s in among ==> s in transactions && (Holds(route, transactions, s) <==> Found(matches, s)))
    && (forall k :: 0 <= k < |matches| ==> matches[k].signature in among && !matches[k].outcomeResolved)
  }

  /** What each verdict rests on. */
  ghost predicate Justified(route: RouteEvidence, ix: RouteIntersection, transactions: Transactions, a: RouteAnalysis) {
    && a.routeId == route.routeId
    && (a.matches == [] <==> a.status != AmountsUnresolved)
    && match a.status
       case NoAtomicMatchComplete => ix.complete && Settles(route, transactions, ix.signatures, [])
       case AmountsUnresolved => ix.complete && Settles(route, transactions, ix.signatures, a.matches)
       case SearchIncomplete => !ix.complete || exists s :: s in ix.signatures && Doubtful(route, transactions, s)
       case _ => false
  }

  lemma SettlesMore(route: RouteEvidence, transactions: Transactions, among: set<string>,
                    matches: seq<TransactionMatch>,
                    s: string, m: Option<TransactionMatch>)
    requires Settles(route, transactions, among, matches) && s !in among && s in transactions
    requires Holds(route, transactions, s) <==> m.Some?
    requires m.Some? ==> m.value.signature == s && !m.value.outcomeResolved
    ensures Settles(route, transactions, among + {s}, if m.Some? then matches + [m.value] else matches)
  {
    hide Holds;
    var grown := if m.Some? then matches + [m.value] else matches;
    forall x | x in among ensures Found(matches, x) <==> Found(grown, x) {
      if Found(matches, x) {
        var k :| 0 <= k < |matches| && matches[k].signature == x;
        assert grown[k].signature == x;
      }
    }
    if m.Some? {
      assert grown[|matches|].signature == s;
    } else if Found(grown, s) {
      assert false;
    }
  }

  /** Matches every signature; those without a settled answer are set aside. */
  method MatchAll(route: RouteEvidence, signatures: set<string>, transactions: Transactions)
    returns (missing: set<string>, matches: seq<TransactionMatch>)
    ensures missing <= signatures && forall s :: s in missing ==> Doubtful(route, transactions, s)
    ensures Settles(route, transactions, signatures - missing, matches)
  {
    hide HoldsRoute, Decidable, Settles;
    missing, matches := {}, [];
    var pending := signatures;
    ghost var settled: set<string> := {};
    NothingToSettle(route, transactions);
    while pending != {}
      invariant pending <= signatures && missing <= signatures && pending !! missing
      invariant settled == signatures - pending - missing
      invariant forall s :: s in missing ==> Doubtful(route, transactions, s)
      invariant Settles(route, transactions, settled, matches)
      decreases |pending|
    {
      var s :| s in pending;
      pending := pending - {s};
      if s !in transactions {
        missing := missing + {s};
      } else {
        var matched := MatchTransaction(route, s, transactions[s]);
        match matched {
          case Ok(m) =>
            SettlesMore(route, transactions, settled, matches, s, m);
            settled := settled + {s};
            if m.Some? {
              matches := matches + [m.value];
            }
          case Err(_) =>
            missing := missing + {s};
        }
      }
    }
    assert settled == signatures - missing;
  }

  lemma NothingToSettle(route: RouteEvidence, transactions: Transactions)
    ensures Settles(route, transactions, {}, [])
  {
  }

  method AnalyzeRoute(route: RouteEvidence, ix: RouteIntersection, transactions: Transactions)
    returns (a: RouteAnalysis)
    ensures Justified(route, ix, transactions, a)
  {
    hide Holds, Doubtful;
    if !ix.complete {
      return RouteAnalysis(route.routeId, SearchIncomplete, []);
    }
    if ix.signatures == {} {
      return RouteAnalysis(route.routeId, NoAtomicMatchComplete, []);
    }
    var missing, matches := MatchAll(route, ix.signatures, transactions);
    if missing != {} {
      var s :| s in missing;
      return RouteAnalysis(route.routeId, SearchIncomplete, []);
    }
    assert ix.signatures - missing == ix.signatures;
    if matches == [] {
      return RouteAnalysis(route.routeId, NoAtomicMatchComplete, []);
    }
    var outcomeResolved := exists k :: 0 <= k < |matches| && matches[k].outcomeResolved;
    return RouteAnalysis(route.routeId, if outcomeResolved then OutcomeResolved else AmountsUnresolved, matches);
  }

  method AnalyzeTransactions(plan: ForensicsPlan, intersections: IntersectionPlan, transactions: Transactions)
    returns (r: Option<map<string, RouteAnalysis>>)
    requires Keyed(plan)
    ensures r.Some? <==> plan.routes.Keys <= intersections.routes.Keys
    ensures r.Some? ==>
      && r.value.Keys == plan.routes.Keys
      && forall id :: id in plan.routes ==>
           Justified(plan.routes[id], intersections.routes[id], transactions, r.value[id])
  {
    hide Justified;
    var analyses: map<string, RouteAnalysis> := map[];
    var pending := plan.routes.Keys;
    while pending != {}
      invariant pending <= plan.routes.Keys && analyses.Keys == plan.routes.Keys - pending
      invariant analyses.Keys <= intersections.routes.Keys
      invariant forall id :: id in analyses ==>
          Justified(plan.routes[id], intersections.routes[id], transactions, analyses[id])
      decreases |pending|
    {
      var id :| id in pending;
      pending := pending - {id};
      if id !in intersections.routes {
        return None;
      }
      var analysis := AnalyzeRoute(plan.routes[id], intersections.routes[id], transactions);
      analyses := analyses[id := analysis];
    }
    return Some(analyses);
  }

  // ---------------------------------------------------------------- what the verdicts say about the chain

  type Ledgers = string -> seq<Observation>
  type Chain = string -> Evidence

  /** The ledger shows the signature inside the route's window. */
  ghost predicate Shown(route: RouteEvidence, ledger: seq<Observation>, signature: string) {
    exists o :: o in ledger && o.signature == signature && route.Covers(o.slot)
  }

  /** A transaction both pools' ledgers show in the window, carrying out the route. */
  ghost predicate CarriedOut(route: RouteEvidence, ledgers: Ledgers, chain: Chain, signature: string) {
    && Shown(route, ledgers(route.leg1.poolId), signature) && Shown(route, ledgers(route.leg2.poolId), signature)
    && HoldsRoute(route, chain(signature))
  }

  /** The evidence behind a run: answers about addresses and transactions are the ledger's and the chain's. */
  ghost predicate Reliable(historyRpc: HistoryRpc, transactionRpc: TransactionRpc<Evidence>, tip: u64,
                           ledgers: Ledgers, chain: Chain) {
    && (forall a :: Truthful(historyRpc, a, ledgers(a), tip))
    && (forall s :: Known(transactionRpc, s) ==> transactionRpc(s).value.value == chain(s))
  }

  ghost predicate AcquiredFrom(plan: ForensicsPlan, rpc: HistoryRpc, tip: u64, histories: map<HistoryRequest,
                               AddressHistory>) {
    histories.Keys == plan.historyRequests
    && forall r :: r in histories ==> Answers(plan.historyRequests, rpc, tip, r, histories[r])
  }

  /** A complete intersection holds exactly the signatures both ledgers show in the route's window. */
  lemma IntersectionIsExact(plan: ForensicsPlan, route: RouteEvidence, rpc: HistoryRpc, tip: u64,
                            histories: map<HistoryRequest, AddressHistory>, ledgers: Ledgers)
    requires route.EndFits() && AcquiredFrom(plan, rpc, tip, histories)
    requires forall a :: Truthful(rpc, a, ledgers(a), tip)
    requires IntersectionOf(route, histories).complete
    ensures forall s :: s in IntersectionOf(route, histories).signatures <==>
      Shown(route, ledgers(route.leg1.poolId), s) && Shown(route, ledgers(route.leg2.poolId), s)
  {
    hide Shown, Observed, Truthful, AcquiredFrom;
    ObservedIsExact(plan, route, route.leg1, rpc, tip, histories, ledgers(route.leg1.poolId));
    ObservedIsExact(plan, route, route.leg2, rpc, tip, histories, ledgers(route.leg2.poolId));
  }

  lemma ObservedIsExact(plan: ForensicsPlan, route: RouteEvidence, leg: LegEvidence, rpc: HistoryRpc, tip: u64,
                        histories: map<HistoryRequest, AddressHistory>, ledger: seq<Observation>)
    requires route.EndFits() && AcquiredFrom(plan, rpc, tip, histories)
    requires Truthful(rpc, leg.poolId, ledger, tip)
    requires route.Request(leg) in histories && histories[route.Request(leg)].complete
    ensures forall s :: s in Observed(histories[route.Request(leg)]) <==> Shown(route, ledger, s)
  {
    hide Truthful, Answers;
    var request := route.Request(leg);
    AcquiredIsExact(plan.historyRequests, rpc, tip, request, histories[request], ledger);
    assert forall o :: InWindow(o, request) <==> route.Covers(o.slot);
  }

  /**
    * The absence verdict is sound: no successful transaction that both pools' ledgers show in the window
    * holds a proven swap of the first leg before one of the second. A match verdict names one that does.
    */
  lemma VerdictsAreSound(plan: ForensicsPlan, route: RouteEvidence, historyRpc: HistoryRpc,
                         transactionRpc: TransactionRpc<Evidence>, tip: u64, histories: map<HistoryRequest, AddressHistory>,
                         transactions: Transactions, a: RouteAnalysis, ledgers: Ledgers, chain: Chain)
    requires route.EndFits() && Reliable(historyRpc, transactionRpc, tip, ledgers, chain)
    requires AcquiredFrom(plan, historyRpc, tip, histories)
    requires forall s :: s in transactions ==> Known(transactionRpc, s) && transactions[s] == transactionRpc(s).value.value
    requires Justified(route, IntersectionOf(route, histories), transactions, a)
    ensures a.status == NoAtomicMatchComplete ==> forall s :: !CarriedOut(route, ledgers, chain, s)
    ensures a.status == AmountsUnresolved ==> forall s :: CarriedOut(route, ledgers, chain, s) <==> Found(a.matches, s)
  {
    hide HoldsRoute, IntersectionOf, Truthful, Answers;
    if IntersectionOf(route, histories).complete {
      IntersectionIsExact(plan, route, historyRpc, tip, histories, ledgers);
    }
  }

  /** The search stage of a mature run. */
  method Search(plan: ForensicsPlan, tipAnswer: Result<u64, RpcError>, historyRpc: HistoryRpc,
                transactionRpc: TransactionRpc<Evidence>, ghost ledgers: Ledgers, ghost chain: Chain)
    returns (intersections: IntersectionPlan, analyses: map<string, RouteAnalysis>)
    requires WellFormed(plan)
    requires tipAnswer.Ok? ==> Reliable(historyRpc, transactionRpc, tipAnswer.value, ledgers, chain)
    ensures intersections.routes.Keys == analyses.Keys == plan.routes.Keys
    ensures forall id :: id in plan.routes ==>
        && analyses[id].routeId == id
        && (analyses[id].status == NoAtomicMatchComplete ==> forall s :: !CarriedOut(plan.routes[id], ledgers, chain, s))
        && (analyses[id].status == AmountsUnresolved ==>
              analyses[id].matches != [] &&
              forall s :: CarriedOut(plan.routes[id], ledgers, chain, s) <==> Found(analyses[id].matches, s))
        && analyses[id].status in {SearchIncomplete, NoAtomicMatchComplete, AmountsUnresolved}
    ensures tipAnswer.Err? ==> forall id :: id in plan.routes ==> analyses[id].status == SearchIncomplete
  {
    hide CarriedOut, Reliable, Answers, IntersectionOf, HoldsRoute, Decidable, WellFormed;
    WellFormedIsKeyed(plan);
    var acquisition := AcquireHistories(tipAnswer, historyRpc, plan.historyRequests);
    intersections := IntersectRouteHistories(plan, acquisition.histories);
    var acquired := AcquireTransactions(transactionRpc, intersections.required);
    var found := AnalyzeTransactions(plan, intersections, acquired.transactions);
    analyses := found.value;
    forall id | id in plan.routes
      ensures tipAnswer.Ok? && analyses[id].status == NoAtomicMatchComplete ==>
        forall s :: !CarriedOut(plan.routes[id], ledgers, chain, s)
      ensures tipAnswer.Ok? && analyses[id].status == AmountsUnresolved ==>
        forall s :: CarriedOut(plan.routes[id], ledgers, chain, s) <==> Found(analyses[id].matches, s)
      ensures tipAnswer.Err? ==> !intersections.routes[id].complete
    {
      if tipAnswer.Ok? {
        VerdictsAreSound(plan, plan.routes[id], historyRpc, transactionRpc, tipAnswer.value, acquisition.histories,
                         acquired.transactions, analyses[id], ledgers, chain);
      } else {
        NoHistoriesNoIntersection(plan.routes[id], acquisition.histories);
      }
    }
  }

  lemma NoHistoriesNoIntersection(route: RouteEvidence, histories: map<HistoryRequest, AddressHistory>)
    requires route.EndFits() && histories == map[]
    ensures !IntersectionOf(route, histories).complete
  {
  }

  lemma WellFormedIsKeyed(plan: ForensicsPlan)
    requires WellFormed(plan)
    ensures Keyed(plan)
  {
  }
}
