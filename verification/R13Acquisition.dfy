/** The histories of all requests, and the transactions of the signatures they share. */
module R13Acquisition {
  import opened Wrappers
  import opened Machine
  import opened R13Plan
  import opened R13History

  /** What made an acquisition incomplete; the message texts are not modelled. */
  datatype Incomplete =
    | TipUnavailable
    | BadWindow(request: HistoryRequest)
    | TipTooEarly(address: string)
    | PagesSaturated(address: string)
    | HistoryFailed(address: string)
    | NoUnion(request: HistoryRequest)

  datatype HistoryAcquisition = HistoryAcquisition(
    confirmedTip: Option<u64>, histories: map<HistoryRequest, AddressHistory>, incompleteReasons: seq<Incomplete>)
  {
    predicate IsComplete() {
      incompleteReasons == [] && forall r :: r in histories ==> histories[r].complete
    }
  }

  predicate ValidWindow(r: HistoryRequest) {
    r.startSlot <= r.endSlot
  }

  /** The smallest window that covers every valid request for `address`. */
  ghost predicate Covers(requests: set<HistoryRequest>, address: string, w: (u64, u64)) {
    && (exists r :: r in requests && ValidWindow(r) && r.address == address && r.startSlot == w.0)
    && (exists r :: r in requests && ValidWindow(r) && r.address == address && r.endSlot == w.1)
    && forall r :: r in requests && ValidWindow(r) && r.address == address ==> w.0 <= r.startSlot && r.endSlot <= w.1
  }

  function Unavailable(request: HistoryRequest, reason: HistoryReason): AddressHistory {
    AddressHistory(request, [], false, Some(reason))
  }

  /** The history of one address over the union of its windows. */
  function UnionHistory(rpc: HistoryRpc, tip: u64, address: string, w: (u64, u64)): AddressHistory {
    var request := HistoryRequest(address, w.0, w.1);
    if tip < w.1 then Unavailable(request, TipPrecedesEnd)
    else match Fetched(rpc, request)
      case Ok(history) => history
      case Err(_) => Unavailable(request, RpcFailed)
  }

  /** A union's history is what the pages give, once the confirmed tip covers the window and the pages can be read. */
  lemma UnionIsFetched(rpc: HistoryRpc, tip: u64, address: string, w: (u64, u64))
    ensures
      var fetched := Fetched(rpc, HistoryRequest(address, w.0, w.1));
      var h := UnionHistory(rpc, tip, address, w);
      if w.1 <= tip && fetched.Ok? then h == fetched.value
      else h.observations == [] && !h.complete && h.reason == Some(if w.1 <= tip then RpcFailed else TipPrecedesEnd)
  {
    hide Fetched;
  }

  function Restrict(history: AddressHistory, request: HistoryRequest): AddressHistory {
    AddressHistory(request, Retain(history.observations, request), history.complete, history.reason)
  }

  /** The entry the acquisition holds for request `r`. */
  ghost predicate Answers(requests: set<HistoryRequest>, rpc: HistoryRpc, tip: u64, r: HistoryRequest,
                          h: AddressHistory) {
    if !ValidWindow(r) then h == Unavailable(r, HistoryReason.InvalidWindow)
    else exists w :: Covers(requests, r.address, w) && h == Restrict(UnionHistory(rpc, tip, r.address, w), r)
  }

  ghost predicate UnionsOf(done: set<HistoryRequest>, unions: map<string, (u64, u64)>) {
    && (forall a :: a in unions ==> Covers(done, a, unions[a]))
    && (forall r :: r in done && ValidWindow(r) ==> r.address in unions)
  }

  function Widen(unions: map<string, (u64, u64)>, r: HistoryRequest): map<string, (u64, u64)> {
    if r.address in unions then
      var w := unions[r.address];
      unions[r.address := (if r.startSlot < w.0 then r.startSlot else w.0, if r.endSlot > w.1 then r.endSlot else w.1)]
    else unions[r.address := (r.startSlot, r.endSlot)]
  }

  /** A request widens the window of its own address only. */
  lemma CoversGrow(done: set<HistoryRequest>, a: string, w: (u64, u64), r: HistoryRequest)
    requires Covers(done, a, w)
    ensures ValidWindow(r) && r.address == a ==>
        Covers(done + {r}, a, (if r.startSlot < w.0 then r.startSlot else w.0, if r.endSlot > w.1 then r.endSlot else w.1))
    ensures !(ValidWindow(r) && r.address == a) ==> Covers(done + {r}, a, w)
  {
  }

  lemma CoversFirst(done: set<HistoryRequest>, r: HistoryRequest)
    requires ValidWindow(r) && forall s :: s in done && ValidWindow(s) ==> s.address != r.address
    ensures Covers(done + {r}, r.address, (r.startSlot, r.endSlot))
  {
  }

  lemma WidenCovers(done: set<HistoryRequest>, unions: map<string, (u64, u64)>, r: HistoryRequest)
    requires UnionsOf(done, unions) && ValidWindow(r)
    ensures UnionsOf(done + {r}, Widen(unions, r))
  {
    hide Covers;
    forall a | a in unions {
      CoversGrow(done, a, unions[a], r);
    }
    if r.address !in unions {
      CoversFirst(done, r);
    }
  }

  lemma SkipInvalid(done: set<HistoryRequest>, unions: map<string, (u64, u64)>, r: HistoryRequest)
    requires UnionsOf(done, unions) && !ValidWindow(r)
    ensures UnionsOf(done + {r}, unions)
  {
  }

  /** First pass: refuse inverted windows, and widen the union of every other request's address. */
  method PlanUnions(requests: set<HistoryRequest>)
    returns (unions: map<string, (u64, u64)>, refused: map<HistoryRequest, AddressHistory>, reasons: seq<Incomplete>)
    ensures UnionsOf(requests, unions)
    ensures forall r :: r in refused <==> r in requests && !ValidWindow(r)
    ensures forall r :: r in refused ==> refused[r] == Unavailable(r, HistoryReason.InvalidWindow)
    ensures reasons == [] <==> refused == map[]
    ensures forall e :: e in reasons ==> e.BadWindow?
  {
    hide UnionsOf;
    unions, refused, reasons := map[], map[], [];
    NoUnions();
    var pending, done := requests, {};
    while pending != {}
      invariant pending + done == requests && pending !! done
      invariant UnionsOf(done, unions)
      invariant forall r :: r in refused <==> r in done && !ValidWindow(r)
      invariant forall r :: r in refused ==> refused[r] == Unavailable(r, HistoryReason.InvalidWindow)
      invariant reasons == [] <==> refused == map[]
      invariant forall e :: e in reasons ==> e.BadWindow?
      decreases |pending|
    {
      var r :| r in pending;
      if r.startSlot > r.endSlot {
        SkipInvalid(done, unions, r);
        reasons := reasons + [BadWindow(r)];
        refused := refused[r := Unavailable(r, HistoryReason.InvalidWindow)];
        assert r in refused;
      } else {
        WidenCovers(done, unions, r);
        unions := Widen(unions, r);
      }
      pending, done := pending - {r}, done + {r};
    }
    assert done == requests;
  }

  lemma NoUnions()
    ensures UnionsOf({}, map[])
  {
  }

  /** One fetch, unless the confirmed tip is still short of the window's end. */
  method FetchUnion(rpc: HistoryRpc, tip: u64, address: string, w: (u64, u64))
    returns (history: AddressHistory, reason: Option<Incomplete>)
    ensures history == UnionHistory(rpc, tip, address, w)
    ensures reason.None? <==> history.complete
    ensures reason.Some? ==> !reason.value.NoUnion?
  {
    hide Fetched;
    var request := HistoryRequest(address, w.0, w.1);
    if tip < w.1 {
      return Unavailable(request, TipPrecedesEnd), Some(TipTooEarly(address));
    }
    var answer := FetchAddressHistory(rpc, request);
    match answer {
      case Ok(found) =>
        return found, if found.complete then None else Some(PagesSaturated(address));
      case Err(_) =>
        return Unavailable(request, RpcFailed), Some(HistoryFailed(address));
    }
  }

  /** Second pass: one fetch per address. */
  method FetchUnions(rpc: HistoryRpc, tip: u64, unions: map<string, (u64, u64)>)
    returns (fetched: map<string, AddressHistory>, reasons: seq<Incomplete>)
    ensures fetched.Keys == unions.Keys
    ensures forall a :: a in unions ==> fetched[a] == UnionHistory(rpc, tip, a, unions[a])
    ensures reasons == [] <==> forall a :: a in fetched ==> fetched[a].complete
    ensures forall e :: e in reasons ==> !e.NoUnion?
  {
    hide UnionHistory;
    fetched, reasons := map[], [];
    var pending := unions.Keys;
    while pending != {}
      invariant pending <= unions.Keys && fetched.Keys == unions.Keys - pending
      invariant forall a :: a in fetched ==> fetched[a] == UnionHistory(rpc, tip, a, unions[a])
      invariant reasons == [] <==> forall a :: a in fetched ==> fetched[a].complete
      invariant forall e :: e in reasons ==> !e.NoUnion?
      decreases |pending|
    {
      var address :| address in pending;
      var history, reason := FetchUnion(rpc, tip, address, unions[address]);
      if reason.Some? {
        reasons := reasons + [reason.value];
      }
      fetched := fetched[address := history];
      pending := pending - {address};
      assert fetched[address] == history;
    }
  }

  /** The entry of request `r`, given the unions' histories. */
  function EntryFor(fetched: map<string, AddressHistory>, r: HistoryRequest): AddressHistory {
    if !ValidWindow(r) then Unavailable(r, HistoryReason.InvalidWindow)
    else if r.address !in fetched then Unavailable(r, UnionUnavailable)
    else Restrict(fetched[r.address], r)
  }

  /** Third pass: cut every remaining request's window out of its address's union. */
  method RestrictAll(requests: set<HistoryRequest>, fetched: map<string, AddressHistory>, refused: map<HistoryRequest,
                     AddressHistory>)
    returns (histories: map<HistoryRequest, AddressHistory>, reasons: seq<Incomplete>)
    requires forall r :: r in refused ==> r in requests && refused[r] == EntryFor(fetched, r)
    requires forall r :: r in requests && !ValidWindow(r) ==> r in refused
    ensures histories.Keys == requests
    ensures forall r :: r in requests ==> histories[r] == EntryFor(fetched, r)
    ensures (forall r :: r in requests && ValidWindow(r) ==> r.address in fetched) ==> reasons == []
  {
    hide Retain, Restrict;
    histories, reasons := refused, [];
    var pending := requests;
    while pending != {}
      invariant pending <= requests
      invariant forall r :: r in histories ==> r in requests && histories[r] == EntryFor(fetched, r)
      invariant forall r :: r in requests && (r !in pending || !ValidWindow(r)) ==> r in histories
      invariant (forall r :: r in requests && ValidWindow(r) ==> r.address in fetched) ==> reasons == []
      decreases |pending|
    {
      var r :| r in pending;
      pending := pending - {r};
      if r !in histories {
        if r.address !in fetched {
          reasons := reasons + [NoUnion(r)];
          histories := histories[r := Unavailable(r, UnionUnavailable)];
        } else {
          histories := histories[r := Restrict(fetched[r.address], r)];
        }
      }
    }
  }

  /** Every request is answered over its own window; the reason "no union" is never given. */
  method AcquireHistories(tipAnswer: Result<u64, RpcError>, rpc: HistoryRpc, requests: set<HistoryRequest>)
    returns (a: HistoryAcquisition)
    ensures a.histories.Keys == if tipAnswer.Ok? then requests else {}
    ensures tipAnswer.Ok? ==> forall r :: r in requests ==> Answers(requests, rpc, tipAnswer.value, r, a.histories[r])
    ensures requests != {} && tipAnswer.Err? ==> a.incompleteReasons == [TipUnavailable]
    ensures tipAnswer.Ok? ==> (a.incompleteReasons == [] <==> forall r :: r in requests ==> a.histories[r].complete)
    ensures a.IsComplete() <==> requests == {} || (tipAnswer.Ok? && forall r :: r in requests ==> a.histories[r].complete)
    ensures forall e :: e in a.incompleteReasons ==> !e.NoUnion?
  {
    hide UnionsOf, Retain, UnionHistory, Restrict, Answers, EntryFor, Covers;
    if requests == {} {
      return HistoryAcquisition(None, map[], []);
    }
    if tipAnswer.Err? {
      return HistoryAcquisition(None, map[], [TipUnavailable]);
    }
    var tip := tipAnswer.value;
    var unions, refused, badWindows := PlanUnions(requests);
    var fetched, failures := FetchUnions(rpc, tip, unions);
    UnionsHave(requests, unions);
    RefusedEntries(fetched, refused);
    var histories, missing := RestrictAll(requests, fetched, refused);
    forall r | r in requests ensures Answers(requests, rpc, tip, r, histories[r]) {
      EntryAnswers(requests, rpc, tip, unions, fetched, r);
    }
    CompleteEntries(requests, fetched, histories);
    assert refused == map[] <==> forall r :: r in requests ==> ValidWindow(r);
    return HistoryAcquisition(Some(tip), histories, badWindows + failures + missing);
  }

  lemma RefusedEntries(fetched: map<string, AddressHistory>, refused: map<HistoryRequest, AddressHistory>)
    requires forall r :: r in refused ==> !ValidWindow(r) && refused[r] == Unavailable(r, HistoryReason.InvalidWindow)
    ensures forall r :: r in refused ==> refused[r] == EntryFor(fetched, r)
  {
  }

  lemma EntryAnswers(requests: set<HistoryRequest>, rpc: HistoryRpc, tip: u64, unions: map<string, (u64, u64)>,
                     fetched: map<string, AddressHistory>, r: HistoryRequest)
    requires fetched.Keys == unions.Keys && forall a :: a in unions ==> fetched[a] == UnionHistory(rpc, tip, a, unions[a])
    requires ValidWindow(r) ==> r.address in unions && Covers(requests, r.address, unions[r.address])
    ensures Answers(requests, rpc, tip, r, EntryFor(fetched, r))
  {
  }

  /** All entries are complete exactly when no window was refused and every union is complete. */
  lemma CompleteEntries(requests: set<HistoryRequest>, fetched: map<string, AddressHistory>,
                        histories: map<HistoryRequest, AddressHistory>)
    requires histories.Keys == requests && forall r :: r in requests ==> histories[r] == EntryFor(fetched, r)
    requires forall r :: r in requests && ValidWindow(r) ==> r.address in fetched
    requires forall a :: a in fetched ==> exists r :: r in requests && ValidWindow(r) && r.address == a
    ensures (forall r :: r in requests ==> histories[r].complete)
        <==> (forall r :: r in requests ==> ValidWindow(r)) && forall a :: a in fetched ==> fetched[a].complete
  {
  }

  lemma UnionsHave(requests: set<HistoryRequest>, unions: map<string, (u64, u64)>)
    requires UnionsOf(requests, unions)
    ensures forall r :: r in requests && ValidWindow(r) ==> r.address in unions && Covers(requests, r.address, unions[r.address])
    ensures forall a :: a in unions ==> exists r :: r in requests && ValidWindow(r) && r.address == a
  {
  }

  /** A complete entry holds exactly the ledger's observations of its window. */
  lemma AcquiredIsExact(requests: set<HistoryRequest>, rpc: HistoryRpc, tip: u64, r: HistoryRequest, h: AddressHistory,
                        ledger: seq<Observation>)
    requires r in requests && Answers(requests, rpc, tip, r, h) && h.complete
    requires Truthful(rpc, r.address, ledger, tip)
    ensures r.startSlot <= r.endSlot <= tip
    ensures forall o :: o in h.observations <==> o in ledger && InWindow(o, r)
  {
    var w :| Covers(requests, r.address, w) && h == Restrict(UnionHistory(rpc, tip, r.address, w), r);
    var request := HistoryRequest(r.address, w.0, w.1);
    CompleteHistoryIsExact(rpc, request, ledger, tip);
  }

  // ---------------------------------------------------------------- transactions

  /** Any answers at all: nothing known, or the transaction's evidence. */
  type TransactionRpc<T> = string -> Result<Option<T>, RpcError>

  datatype TransactionAcquisition<T> = TransactionAcquisition(transactions: map<string, T>, unavailable: nat, capExceeded: bool)
  {
    predicate IsComplete() {
      unavailable == 0 && !capExceeded
    }
  }

  predicate Known<T>(rpc: TransactionRpc<T>, s: string) {
    rpc(s).Ok? && rpc(s).value.Some?
  }

  lemma SubsetCount<T>(a: set<T>, b: set<T>)
    requires a <= b
    ensures |a| <= |b| && (|a| == |b| <==> a == b)
  {
    assert |b| == |a| + |b - a|;
  }

  /** Either every wanted transaction is fetched, or the cap is exceeded and none is. */
  method AcquireTransactions<T>(rpc: TransactionRpc<T>, signatures: set<string>) returns (a: TransactionAcquisition<T>)
    ensures a.capExceeded <==> |signatures| > MAX_TRANSACTION_FETCHES
    ensures a.capExceeded ==> a.transactions == map[] && a.unavailable == 0
    ensures !a.capExceeded ==>
      && (forall s :: s in a.transactions <==> s in signatures && Known(rpc, s))
      && (forall s :: s in a.transactions ==> a.transactions[s] == rpc(s).value.value)
    ensures !a.capExceeded ==> a.unavailable == |signatures| - |a.transactions.Keys|
    ensures a.IsComplete() <==> a.transactions.Keys == signatures && !a.capExceeded
  {
    if |signatures| > MAX_TRANSACTION_FETCHES {
      return TransactionAcquisition(map[], 0, true);
    }
    var transactions: map<string, T> := map[];
    var unavailable := 0;
    var pending := signatures;
    while pending != {}
      invariant pending <= signatures && transactions.Keys <= signatures
      invariant forall s :: s in transactions ==> Known(rpc, s) && transactions[s] == rpc(s).value.value
      invariant forall s :: s in signatures && s !in pending && Known(rpc, s) ==> s in transactions
      invariant transactions.Keys !! pending
      invariant unavailable == |signatures| - |pending| - |transactions.Keys|
      decreases |pending|
    {
      var s :| s in pending;
      pending := pending - {s};
      match rpc(s) {
        case Ok(Some(value)) => transactions := transactions[s := value];
        case Ok(None) => unavailable := unavailable + 1;
        case Err(_) => unavailable := unavailable + 1;
      }
    }
    SubsetCount(transactions.Keys, signatures);
    return TransactionAcquisition(transactions, unavailable, false);
  }
}
