/** Paged signature histories, fetched once per address over the union of the requested windows. */
module R13History {
  import opened Wrappers
  import opened Machine
  import opened R13Plan
  import Strings

  const SIGNATURE_PAGE_LIMIT := 100
  const MAX_SIGNATURE_PAGES := 2
  const MAX_TRANSACTION_FETCHES := 32

  datatype Observation = Observation(signature: string, slot: u64)

  /** An RPC failure, or an answer that does not decode. */
  datatype RpcError = RpcError

  datatype HistoryReason = Saturated | TipPrecedesEnd | RpcFailed | InvalidWindow | UnionUnavailable

  datatype AddressHistory = AddressHistory(
    request: HistoryRequest, observations: seq<Observation>, complete: bool, reason: Option<HistoryReason>)

  /** Any answers at all: the page for an address, the number of the page, and the cursor it starts below. */
  type HistoryRpc = (string, nat, Option<string>) -> Result<seq<Observation>, RpcError>

  // ---------------------------------------------------------------- pages

  datatype Pages = Pages(observations: seq<Observation>, complete: bool)

  /** Pages `index` and later. */
  function CollectPages(rpc: HistoryRpc, address: string, startSlot: u64, index: nat, before: Option<string>)
    : Result<Pages, RpcError>
    decreases MAX_SIGNATURE_PAGES - index
  {
    if index >= MAX_SIGNATURE_PAGES then Ok(Pages([], false))
    else
      var page :- rpc(address, index, before);
      if page == [] then Ok(Pages([], true))
      else if page[|page| - 1].slot < startSlot || |page| < SIGNATURE_PAGE_LIMIT then Ok(Pages(page, true))
      else
        Below(page, CollectPages(rpc, address, startSlot, index + 1, Some(page[|page| - 1].signature)))
  }

  function Below(newer: seq<Observation>, rest: Result<Pages, RpcError>): Result<Pages, RpcError> {
    if rest.Err? then rest else Ok(Pages(newer + rest.value.observations, rest.value.complete))
  }

  lemma BelowPages(newer: seq<Observation>, page: seq<Observation>, rest: Result<Pages, RpcError>)
    ensures Below([], rest) == rest
    ensures Below(newer, Below(page, rest)) == Below(newer + page, rest)
  {
    if rest.Ok? {
      assert [] + rest.value.observations == rest.value.observations;
      assert newer + (page + rest.value.observations) == newer + page + rest.value.observations;
    }
  }

  predicate InWindow(o: Observation, request: HistoryRequest) {
    request.startSlot <= o.slot <= request.endSlot
  }

  function Retain(s: seq<Observation>, request: HistoryRequest): (r: seq<Observation>)
    ensures forall o :: o in r <==> o in s && InWindow(o, request)
  {
    if s == [] then []
    else
      var rest := Retain(s[..|s| - 1], request);
      if InWindow(s[|s| - 1], request) then rest + [s[|s| - 1]] else rest
  }

  /** By slot, then by signature. */
  predicate Ordered(a: Observation, b: Observation) {
    a.slot < b.slot || (a.slot == b.slot && Strings.Le(a.signature, b.signature))
  }

  ghost predicate Sorted(s: seq<Observation>) {
    forall i, j :: 0 <= i < j < |s| ==> Ordered(s[i], s[j])
  }

  /** `x` after every element not above it, so that equal elements keep their order. */
  function Insert(s: seq<Observation>, x: Observation): (r: seq<Observation>)
    ensures multiset(r) == multiset(s) + multiset{x}
  {
    if s == [] || Ordered(s[|s| - 1], x) then s + [x]
    else
      assert s == s[..|s| - 1] + [s[|s| - 1]];
      Insert(s[..|s| - 1], x) + [s[|s| - 1]]
  }

  function Sort(s: seq<Observation>): (r: seq<Observation>)
    ensures multiset(r) == multiset(s)
  {
    if s == [] then []
    else
      assert s == s[..|s| - 1] + [s[|s| - 1]];
      Insert(Sort(s[..|s| - 1]), s[|s| - 1])
  }

  lemma OrderedIsOrder(a: Observation, b: Observation, c: Observation)
    ensures Ordered(a, b) || Ordered(b, a)
    ensures Ordered(a, b) && Ordered(b, c) ==> Ordered(a, c)
  {
    Strings.LeTotal(a.signature, b.signature);
    if Strings.Le(a.signature, b.signature) && Strings.Le(b.signature, c.signature) {
      Strings.LeTransitive(a.signature, b.signature, c.signature);
    }
  }

  lemma MembersOf(s: seq<Observation>)
    ensures forall o :: o in s <==> o in multiset(s)
  {
  }

  lemma {:induction false} InsertSorts(s: seq<Observation>, x: Observation)
    requires Sorted(s)
    ensures Sorted(Insert(s, x))
  {
    if s != [] {
      var init, last := s[..|s| - 1], s[|s| - 1];
      OrderedIsOrder(last, x, x);
      if Ordered(last, x) {
        forall i | 0 <= i < |s| ensures Ordered(s[i], x) {
          OrderedIsOrder(s[i], last, x);
        }
      } else {
        InsertSorts(init, x);
        var r := Insert(init, x);
        MembersOf(r);
        MembersOf(init);
        forall i | 0 <= i < |r| ensures Ordered(r[i], last) {
          assert r[i] in multiset(r);
          assert r[i] == x || r[i] in init;
        }
      }
    }
  }

  lemma {:induction false} SortSorts(s: seq<Observation>)
    ensures Sorted(Sort(s))
  {
    if s != [] {
      SortSorts(s[..|s| - 1]);
      InsertSorts(Sort(s[..|s| - 1]), s[|s| - 1]);
    }
  }

  /** Drops an element that carries the signature of the last one kept. */
  function Dedup(s: seq<Observation>): (r: seq<Observation>)
    ensures forall o :: o in r ==> o in s
    ensures s != [] ==> r != [] && r[|r| - 1].signature == s[|s| - 1].signature
  {
    if s == [] then []
    else
      var kept := Dedup(s[..|s| - 1]);
      if kept != [] && kept[|kept| - 1].signature == s[|s| - 1].signature then kept else kept + [s[|s| - 1]]
  }

  ghost predicate DistinctSignatures(s: seq<Observation>) {
    forall i, j :: 0 <= i < j < |s| ==> s[i].signature != s[j].signature
  }

  lemma {:induction false} RetainKeepsDistinct(s: seq<Observation>, request: HistoryRequest)
    requires DistinctSignatures(s)
    ensures DistinctSignatures(Retain(s, request))
  {
    if s != [] {
      RetainKeepsDistinct(s[..|s| - 1], request);
      var rest := Retain(s[..|s| - 1], request);
      forall k | 0 <= k < |rest| ensures rest[k].signature != s[|s| - 1].signature {
        assert rest[k] in s[..|s| - 1];
      }
    }
  }

  lemma {:induction false} InsertKeepsDistinct(s: seq<Observation>, x: Observation)
    requires DistinctSignatures(s + [x])
    ensures DistinctSignatures(Insert(s, x))
  {
    if s != [] && !Ordered(s[|s| - 1], x) {
      var init, last := s[..|s| - 1], s[|s| - 1];
      assert forall i :: 0 <= i < |init| ==> (s + [x])[i] == init[i];
      assert (s + [x])[|s|] == x && (s + [x])[|s| - 1] == last;
      assert DistinctSignatures(init + [x]);
      InsertKeepsDistinct(init, x);
      var r := Insert(init, x);
      MembersOf(r);
      MembersOf(init);
      forall i | 0 <= i < |r| ensures r[i].signature != last.signature {
        assert r[i] in multiset(r);
        assert r[i] == x || r[i] in init;
      }
    }
  }

  lemma {:induction false} SortKeepsDistinct(s: seq<Observation>)
    requires DistinctSignatures(s)
    ensures DistinctSignatures(Sort(s))
  {
    if s != [] {
      hide Insert;
      var init, last := s[..|s| - 1], s[|s| - 1];
      SortKeepsDistinct(init);
      SortMembers(init);
      assert forall o :: o in init ==> o.signature != last.signature;
      DistinctSnoc(Sort(init), last);
      InsertKeepsDistinct(Sort(init), last);
    }
  }

  lemma SortMembers(s: seq<Observation>)
    ensures forall o :: o in Sort(s) <==> o in s
  {
    hide Sort;
    MembersOf(Sort(s));
    MembersOf(s);
  }

  lemma DistinctSnoc(s: seq<Observation>, x: Observation)
    requires DistinctSignatures(s) && forall o :: o in s ==> o.signature != x.signature
    ensures DistinctSignatures(s + [x])
  {
  }

  lemma {:induction false} DedupOfDistinct(s: seq<Observation>)
    requires forall i :: 0 <= i < |s| - 1 ==> s[i].signature != s[i + 1].signature
    ensures Dedup(s) == s
  {
    if s != [] {
      DedupOfDistinct(s[..|s| - 1]);
    }
  }

  /** The observations of the window, in order, each once. */
  function Arranged(s: seq<Observation>, request: HistoryRequest): seq<Observation> {
    Dedup(Sort(Retain(s, request)))
  }

  lemma ArrangedIsExact(s: seq<Observation>, request: HistoryRequest)
    requires DistinctSignatures(s)
    ensures Sorted(Arranged(s, request)) && DistinctSignatures(Arranged(s, request))
    ensures forall o :: o in Arranged(s, request) <==> o in s && InWindow(o, request)
  {
    hide Retain, Sort, Dedup, InWindow, Ordered;
    var kept := Retain(s, request);
    RetainKeepsDistinct(s, request);
    SortSorts(kept);
    SortKeepsDistinct(kept);
    DedupOfDistinct(Sort(kept));
    MembersOf(kept);
    MembersOf(Sort(kept));
  }

  /** What fetching one address yields, as a function of the answers. */
  function Fetched(rpc: HistoryRpc, request: HistoryRequest): Result<AddressHistory, RpcError> {
    var pages :- CollectPages(rpc, request.address, request.startSlot, 0, None);
    Ok(AddressHistory(request, Arranged(pages.observations, request), pages.complete,
                      if pages.complete then None else Some(Saturated)))
  }

  /** Pages are missing only if one that was asked for failed. */
  lemma {:induction false} PagesFail(rpc: HistoryRpc, address: string, startSlot: u64, index: nat, before: Option<string>)
    returns (at: nat, cursor: Option<string>)
    requires CollectPages(rpc, address, startSlot, index, before).Err?
    ensures at < MAX_SIGNATURE_PAGES && rpc(address, at, cursor).Err?
    decreases MAX_SIGNATURE_PAGES - index
  {
    var page := rpc(address, index, before);
    if page.Err? {
      at, cursor := index, before;
    } else {
      at, cursor := PagesFail(rpc, address, startSlot, index + 1, Some(page.value[|page.value| - 1].signature));
    }
  }

  method FetchAddressHistory(rpc: HistoryRpc, request: HistoryRequest) returns (r: Result<AddressHistory, RpcError>)
    ensures r == Fetched(rpc, request)
  {
    var observations: seq<Observation> := [];
    var before: Option<string> := None;
    var complete := false;
    var reason: Option<HistoryReason> := None;
    var index := 0;
    ghost var all := CollectPages(rpc, request.address, request.startSlot, 0, None);
    BelowPages([], [], all);
    while index < MAX_SIGNATURE_PAGES
      invariant 0 <= index <= MAX_SIGNATURE_PAGES && !complete
      invariant reason == if index == MAX_SIGNATURE_PAGES then Some(Saturated) else None
      invariant all == Below(observations, CollectPages(rpc, request.address, request.startSlot, index, before))
    {
      ghost var rest := CollectPages(rpc, request.address, request.startSlot, index, before);
      var answer := rpc(request.address, index, before);
      if answer.Err? {
        return Err(answer.error);
      }
      var page := answer.value;
      assert observations + [] == observations;
      if page == [] {
        complete := true;
        assert all == Ok(Pages(observations, true));
        break;
      }
      var oldest := page[|page| - 1];
      BelowPages(observations, page, CollectPages(rpc, request.address, request.startSlot, index + 1, Some(oldest.signature)));
      observations := observations + page;
      if oldest.slot < request.startSlot {
        complete := true;
        assert all == Ok(Pages(observations, true));
        break;
      }
      if |page| < SIGNATURE_PAGE_LIMIT {
        complete := true;
        assert all == Ok(Pages(observations, true));
        break;
      }
      before := Some(oldest.signature);
      if index + 1 == MAX_SIGNATURE_PAGES {
        reason := Some(Saturated);
      }
      index := index + 1;
    }
    assert observations + [] == observations;
    assert all == Ok(Pages(observations, complete));
    return Ok(AddressHistory(request, Arranged(observations, request), complete, reason));
  }

  // ---------------------------------------------------------------- the ledger behind the answers

  /** An address's signatures, newest first, each once. */
  ghost predicate IsLedger(ledger: seq<Observation>) {
    && (forall i, j :: 0 <= i < j < |ledger| ==> ledger[i].slot >= ledger[j].slot)
    && DistinctSignatures(ledger)
  }

  function Page(ledger: seq<Observation>): seq<Observation> {
    if |ledger| <= SIGNATURE_PAGE_LIMIT then ledger else ledger[..SIGNATURE_PAGE_LIMIT]
  }

  /**
    * The answers show the ledger as it stood without its first `skipped` entries, not there yet. Entries
    * added between two pages go in front of every cursor, so they do not change what follows one.
    */
  ghost predicate Shows(rpc: HistoryRpc, address: string, ledger: seq<Observation>, skipped: nat)
    requires skipped <= |ledger|
  {
    && (rpc(address, 0, None).Ok? ==> rpc(address, 0, None).value == Page(ledger[skipped..]))
    && (forall index: nat, p :: index > 0 && skipped <= p < |ledger| ==>
          var answer := rpc(address, index, Some(ledger[p].signature));
          answer.Ok? ==> answer.value == Page(ledger[p + 1..]))
  }

  /** Once `tip` is confirmed the ledger only grows above it, and every answer shows the ledger of its moment. */
  ghost predicate Truthful(rpc: HistoryRpc, address: string, ledger: seq<Observation>, tip: nat) {
    && IsLedger(ledger)
    && exists skipped: nat :: skipped <= |ledger| && Shows(rpc, address, ledger, skipped)
         && forall i :: 0 <= i < skipped ==> ledger[i].slot > tip
  }

  /** Where page `index` starts: at the top as first seen, or below the entry its cursor names. */
  ghost predicate StartsAt(ledger: seq<Observation>, skipped: nat, index: nat, before: Option<string>, at: nat) {
    && skipped <= at <= |ledger|
    && if index == 0 then before == None && at == skipped
       else skipped < at && before == Some(ledger[at - 1].signature)
  }

  lemma PageShown(rpc: HistoryRpc, address: string, ledger: seq<Observation>,
                  skipped: nat, index: nat, before: Option<string>, at: nat)
    requires StartsAt(ledger, skipped, index, before, at) && Shows(rpc, address, ledger, skipped)
    requires rpc(address, index, before).Ok?
    ensures var page := rpc(address, index, before).value;
      && page == ledger[at..at + |page|]
      && |page| == if |ledger| - at <= SIGNATURE_PAGE_LIMIT then |ledger| - at else SIGNATURE_PAGE_LIMIT
  {
  }

  /**
    * The pages are the ledger's entries from `at` on, at most `most` of them. They are complete exactly when
    * the ledger ends within them, short of `most`, or their last entry is older than the window.
    */
  ghost predicate Stretch(pages: Pages, ledger: seq<Observation>, startSlot: u64, at: nat, most: nat) {
    var n := |pages.observations|;
    && at + n <= |ledger| && n <= most
    && pages.observations == ledger[at..at + n]
    && (pages.complete <==> (at + n == |ledger| && n < most) || (n > 0 && ledger[at + n - 1].slot < startSlot))
    && (!pages.complete ==> n == most)
  }

  lemma StretchBelow(page: seq<Observation>, rest: Pages, ledger: seq<Observation>, startSlot: u64, at: nat, most: nat)
    requires at + |page| <= |ledger| && page == ledger[at..at + |page|]
    requires |page| > 0 && page[|page| - 1].slot >= startSlot
    requires Stretch(rest, ledger, startSlot, at + |page|, most)
    ensures Stretch(Pages(page + rest.observations, rest.complete), ledger, startSlot, at, |page| + most)
  {
  }

  lemma {:induction false} PagesAreLedger(rpc: HistoryRpc, address: string, startSlot: u64, ledger: seq<Observation>,
                                          skipped: nat, index: nat, before: Option<string>, at: nat)
    requires StartsAt(ledger, skipped, index, before, at) && Shows(rpc, address, ledger, skipped)
    requires index <= MAX_SIGNATURE_PAGES
    ensures var r := CollectPages(rpc, address, startSlot, index, before);
      r.Ok? ==> Stretch(r.value, ledger, startSlot, at, (MAX_SIGNATURE_PAGES - index) * SIGNATURE_PAGE_LIMIT)
    decreases MAX_SIGNATURE_PAGES - index
  {
    hide Shows, Stretch;
    if index < MAX_SIGNATURE_PAGES && CollectPages(rpc, address, startSlot, index, before).Ok? {
      PageShown(rpc, address, ledger, skipped, index, before, at);
      var page := rpc(address, index, before).value;
      var next, most := at + |page|, (MAX_SIGNATURE_PAGES - index) * SIGNATURE_PAGE_LIMIT;
      if page != [] && page[|page| - 1].slot >= startSlot && |page| >= SIGNATURE_PAGE_LIMIT {
        assert page[|page| - 1] == ledger[next - 1];
        var cursor := Some(page[|page| - 1].signature);
        PagesAreLedger(rpc, address, startSlot, ledger, skipped, index + 1, cursor, next);
        var rest := CollectPages(rpc, address, startSlot, index + 1, cursor).value;
        StretchBelow(page, rest, ledger, startSlot, at, most - SIGNATURE_PAGE_LIMIT);
      } else {
        LastPage(page, ledger, startSlot, at, most);
      }
    } else {
      NoPage(ledger, startSlot, at);
    }
  }

  /** A page that ends the fetching: empty, short, or reaching below the window. */
  lemma LastPage(page: seq<Observation>, ledger: seq<Observation>, startSlot: u64, at: nat, most: nat)
    requires at + |page| <= |ledger| && page == ledger[at..at + |page|]
    requires |page| <= SIGNATURE_PAGE_LIMIT <= most && (|page| < SIGNATURE_PAGE_LIMIT ==> at + |page| == |ledger|)
    requires page == [] || page[|page| - 1].slot < startSlot || |page| < SIGNATURE_PAGE_LIMIT
    ensures Stretch(Pages(page, true), ledger, startSlot, at, most)
  {
  }

  lemma NoPage(ledger: seq<Observation>, startSlot: u64, at: nat)
    requires at <= |ledger|
    ensures Stretch(Pages([], false), ledger, startSlot, at, 0)
  {
  }

  /** A complete history lists exactly the ledger's entries of the window, in order and each once. */
  lemma CompleteHistoryIsExact(rpc: HistoryRpc, request: HistoryRequest, ledger: seq<Observation>, tip: nat)
    requires Truthful(rpc, request.address, ledger, tip) && request.endSlot <= tip
    requires Fetched(rpc, request).Ok?
    ensures var h := Fetched(rpc, request).value;
      && Sorted(h.observations) && DistinctSignatures(h.observations)
      && (forall o :: o in h.observations ==> o in ledger && InWindow(o, request))
      && (h.complete ==> forall o :: o in ledger && InWindow(o, request) ==> o in h.observations)
      && (h.complete <==> h.reason.None?)
  {
    hide Shows, Arranged, CollectPages, Below;
    var skipped: nat :| skipped <= |ledger| && Shows(rpc, request.address, ledger, skipped)
      && forall i :: 0 <= i < skipped ==> ledger[i].slot > tip;
    PagesAreLedger(rpc, request.address, request.startSlot, ledger, skipped, 0, None, skipped);
    var seen := CollectPages(rpc, request.address, request.startSlot, 0, None).value.observations;
    assert DistinctSignatures(seen);
    ArrangedIsExact(seen, request);
    if Fetched(rpc, request).value.complete {
      forall o | o in ledger && InWindow(o, request) ensures o in seen {
        var i :| 0 <= i < |ledger| && ledger[i] == o;
        assert skipped <= i < skipped + |seen|;
        assert seen[i - skipped] == o;
      }
    }
  }

  /** Fetching is complete exactly when fewer than two full pages stand at its moment, or the last page ends below the window. */
  lemma CompleteWhen(rpc: HistoryRpc, request: HistoryRequest, ledger: seq<Observation>, skipped: nat)
    requires IsLedger(ledger) && skipped <= |ledger| && Shows(rpc, request.address, ledger, skipped)
    requires Fetched(rpc, request).Ok?
    ensures Fetched(rpc, request).value.complete <==>
      || |ledger| - skipped < MAX_SIGNATURE_PAGES * SIGNATURE_PAGE_LIMIT
      || ledger[skipped + MAX_SIGNATURE_PAGES * SIGNATURE_PAGE_LIMIT - 1].slot < request.startSlot
  {
    PagesAreLedger(rpc, request.address, request.startSlot, ledger, skipped, 0, None, skipped);
  }
}
