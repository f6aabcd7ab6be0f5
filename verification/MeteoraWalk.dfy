/**
 What a traversal visits and what it leaves: the touched arrays are the initialized run, the touched
 bins fill it without gaps, and input is left over only when the visited liquidity is used up.
 */
module MeteoraWalk {
  import opened Wrappers
  import opened Machine
  import opened MeteoraTypes
  import opened MeteoraMath
  import opened MeteoraFill
  import opened MeteoraFees
  import opened DirectionalSearch
  import opened MeteoraAddressing
  import opened MeteoraTraversal

  // ----- Liquidity of visited bins

  /** The bin with this id, if its array is hydrated. */
  function BinAt(s: Swap, binId: int): Option<Bin> {
    var found := FindArray(s.snapshot.binArrays, binId / MAX_BIN_PER_ARRAY);
    if found.Some? && |found.value.bins| == MAX_BIN_PER_ARRAY then Some(found.value.bins[binId % MAX_BIN_PER_ARRAY])
    else None
  }

  /** What the bin with this id can pay. */
  function CapacityAt(s: Swap, binId: int): nat {
    var bin := BinAt(s, binId);
    if bin.Some? then Capacity(bin.value, s.swapForY, s.supportLimitOrder) else 0
  }

  function TotalCapacity(s: Swap, bins: seq<int>): nat {
    if bins == [] then 0 else TotalCapacity(s, bins[..|bins| - 1]) + CapacityAt(s, bins[|bins| - 1])
  }

  /** Output before any output-side fee. */
  function GrossPaid(s: Swap, w: Walk): nat {
    if s.feeOnInput then w.amountOut else w.amountOut + w.tradingFee
  }

  /** The fee rate at a bin. */
  function RateAt(s: Swap, binId: int): Result<u128, Failure> {
    if !(I32_MIN <= binId <= I32_MAX) then Err(ProtocolSearchRangeExceeded) else
    var volatility :- UpdateVolatilityAccumulator(s.reference, s.Lb().maxVolatilityAccumulator, binId);
    TotalFeeRate(s.Lb(), volatility.accumulator)
  }

  /** The bin takes a positive fee out of the input, so one unit passes it unused. */
  predicate ChargesAt(s: Swap, binId: int) {
    s.feeOnInput && RateAt(s, binId).Ok? && RateAt(s, binId).value > 0
  }

  /** What one bin was offered, and its account of it. */
  datatype Visit = Visit(offered: u64, account: Accounting)

  /** What the bin paid before any output fee. */
  function PaidBy(s: Swap, v: Visit): nat {
    GrossOutput(v.account, s.feeOnInput)
  }

  /** The account is the one the bin's liquidity, its rate and the pool's shares determine. */
  ghost predicate Itemizes(s: Swap, binId: int, v: Visit) {
    && BinAt(s, binId).Some?
    && BinAccount(BinAt(s, binId).value, s.Lb().protocolShare, RateAt(s, binId), v.offered, s.swapForY, s.supportLimitOrder,
                  s.feeOnInput, v.account)
  }

  /** Input passes a bin only if the bin is emptied, or as a single unit that the bin's fee would take whole. */
  ghost predicate VisitSound(s: Swap, binId: int, v: Visit) {
    var consumed, paid := v.account.inputConsumed, PaidBy(s, v);
    && 0 < v.offered && Itemizes(s, binId, v)
    && consumed <= v.offered && paid <= CapacityAt(s, binId)
    && (consumed == 0 ==> paid == 0)
    && (v.offered == 1 && ChargesAt(s, binId) ==> consumed == 0)
    && (consumed < v.offered ==> paid == CapacityAt(s, binId) || (v.offered == 1 && ChargesAt(s, binId)))
  }

  function Paid(s: Swap, visits: seq<Visit>): nat {
    if visits == [] then 0 else Paid(s, visits[..|visits| - 1]) + PaidBy(s, visits[|visits| - 1])
  }

  function Fees(visits: seq<Visit>): nat {
    if visits == [] then 0 else Fees(visits[..|visits| - 1]) + visits[|visits| - 1].account.tradingFee
  }

  function ProtocolFees(visits: seq<Visit>): nat {
    if visits == [] then 0 else ProtocolFees(visits[..|visits| - 1]) + visits[|visits| - 1].account.protocolFee
  }

  /** What is left of `requested` behind the visits. */
  function LeftBehind(requested: int, visits: seq<Visit>): int {
    if visits == [] then requested else visits[|visits| - 1].offered - visits[|visits| - 1].account.inputConsumed
  }

  /** The visits are one sound visit per bin, each offered what the one before left; together they leave and pay this. */
  ghost predicate Explains(s: Swap, visits: seq<Visit>, bins: seq<int>, requested: int, left: int, gross: int) {
    && |visits| == |bins|
    && (forall i :: 0 <= i < |bins| ==> VisitSound(s, bins[i], visits[i]))
    && (forall i :: 0 <= i < |bins| ==> visits[i].offered == LeftBehind(requested, visits[..i]))
    && left == LeftBehind(requested, visits) && gross == Paid(s, visits)
  }

  /** The visits also add up to the fees. */
  ghost predicate Explained(s: Swap, bins: seq<int>, requested: int, left: int, gross: int, fee: int, protocolFee: int) {
    exists visits ::
      Explains(s, visits, bins, requested, left, gross) && fee == Fees(visits) && protocolFee == ProtocolFees(visits)
  }

  lemma NothingToExplain(s: Swap, requested: int)
    ensures Explained(s, [], requested, requested, 0, 0, 0)
  {
    assert Explains(s, [], [], requested, requested, 0);
  }

  lemma ExplainsSnoc(s: Swap, visits: seq<Visit>, bins: seq<int>, requested: int, left: int, gross: int,
                     binId: int, v: Visit)
    requires Explains(s, visits, bins, requested, left, gross)
    requires v.offered == left && VisitSound(s, binId, v)
    ensures
      Explains(s, visits + [v], bins + [binId], requested, left - v.account.inputConsumed, gross + PaidBy(s, v))
    ensures Fees(visits + [v]) == Fees(visits) + v.account.tradingFee
    ensures ProtocolFees(visits + [v]) == ProtocolFees(visits) + v.account.protocolFee
  {
    hide VisitSound;
    var grown := visits + [v];
    assert grown[..|visits|] == visits;
    forall i | 0 <= i < |bins| ensures grown[..i] == visits[..i] {
    }
  }

  lemma ExplainsInit(s: Swap, visits: seq<Visit>, bins: seq<int>, requested: int, left: int, gross: int)
    requires Explains(s, visits, bins, requested, left, gross) && bins != []
    ensures |visits| == |bins|
    ensures
      var n := |bins| - 1;
      && VisitSound(s, bins[n], visits[n])
      && Explains(s, visits[..n], bins[..n], requested, visits[n].offered, gross - PaidBy(s, visits[n]))
      && left == visits[n].offered - visits[n].account.inputConsumed
  {
    hide VisitSound;
    var n := |bins| - 1;
    forall i | 0 <= i < n ensures visits[..n][..i] == visits[..i] {
    }
  }

  /** From the `k`-th on, the bins can pay nothing for a single unit of input. */
  ghost predicate UselessFrom(s: Swap, bins: seq<int>, k: nat) {
    k <= |bins| && forall i :: k <= i < |bins| ==> ChargesAt(s, bins[i]) || CapacityAt(s, bins[i]) == 0
  }

  /** Input left over means that all visited liquidity is used up, except what a last unit cannot buy. */
  lemma {:induction false} LeftoverMeansUsedUp(s: Swap, visits: seq<Visit>, bins: seq<int>, requested: int, left: int,
                                               gross: int)
    returns (k: nat)
    requires Explains(s, visits, bins, requested, left, gross) && left > 0
    ensures UselessFrom(s, bins, k) && gross == TotalCapacity(s, bins[..k])
    ensures k < |bins| ==> left == 1
    decreases |bins|
  {
    hide ChargesAt, CapacityAt, Explains;
    if bins == [] {
      k := 0;
      NothingPaid(s, visits, bins, requested, left, gross);
    } else {
      var n := |bins| - 1;
      ExplainsInit(s, visits, bins, requested, left, gross);
      k := LeftoverMeansUsedUp(s, visits[..n], bins[..n], requested, visits[n].offered, gross - PaidBy(s, visits[n]));
      assert bins[..n][..k] == bins[..k];
      if k == n && PaidBy(s, visits[n]) == CapacityAt(s, bins[n]) {
        assert bins[..n + 1] == bins;
        k := n + 1;
      } else {
        UselessMore(s, bins, k, visits[n]);
      }
    }
  }

  lemma NothingPaid(s: Swap, visits: seq<Visit>, bins: seq<int>, requested: int, left: int, gross: int)
    requires Explains(s, visits, bins, requested, left, gross) && bins == []
    ensures gross == 0
  {
  }

  /** A last unit that passes one more bin unused. */
  lemma UselessMore(s: Swap, bins: seq<int>, k: nat, v: Visit)
    requires bins != [] && UselessFrom(s, bins[..|bins| - 1], k)
    requires VisitSound(s, bins[|bins| - 1], v) && v.account.inputConsumed < v.offered
    requires k < |bins| - 1 ==> v.offered == 1
    requires k == |bins| - 1 ==> PaidBy(s, v) != CapacityAt(s, bins[|bins| - 1])
    ensures UselessFrom(s, bins, k) && PaidBy(s, v) == 0 && v.offered == 1
  {
    hide ChargesAt, CapacityAt;
    var n := |bins| - 1;
    assert forall i :: 0 <= i < n ==> bins[..n][i] == bins[i];
  }

  /** Where a walk ended, and the volatility there. */
  predicate Ends(s: Swap, bins: seq<int>, activeId: int, volatility: Volatility) {
    if bins == [] then activeId == s.Lb().activeId && volatility == s.reference
    else
      && activeId == bins[|bins| - 1]
      && volatility.reference == s.reference.reference && volatility.indexReference == s.reference.indexReference
      && IsAccumulator(volatility.reference, volatility.indexReference, s.Lb().maxVolatilityAccumulator, activeId,
                       volatility.accumulator)
  }

  /** The account of a walk: conservation, nested fees, and one sound visit per touched bin. */
  ghost predicate Accounted(s: Swap, requested: u64, w: Walk) {
    && w.amountLeft <= requested
    && w.protocolFee <= w.tradingFee
    && (s.feeOnInput ==> w.tradingFee <= requested - w.amountLeft)
    && Explained(s, w.touchedBins, requested, w.amountLeft, GrossPaid(s, w), w.tradingFee, w.protocolFee)
    && Ends(s, w.touchedBins, w.endingActiveId, w.endingVolatility)
  }

  lemma VisitBinAccounted(s: Swap, requested: u64, bin: Bin, binId: i32, w: Walk)
    requires w.amountLeft > 0 && Accounted(s, requested, w)
    requires BinAt(s, binId) == Some(bin)
    requires VisitBin(s, bin, binId, w).Ok?
    ensures
      var next := VisitBin(s, bin, binId, w).value;
      && Accounted(s, requested, next)
      && next.touchedBins == w.touchedBins + [binId] && next.touchedBinArrays == w.touchedBinArrays
  {
    hide FillBinExactIn, Capacity, BinAt, BinAccount, UpdateVolatilityAccumulator, TotalFeeRate, Explains, Fees,
         ProtocolFees, IsAccumulator;
    var accumulator := UpdateVolatilityAccumulator(s.reference, s.Lb().maxVolatilityAccumulator, binId).value.accumulator;
    FillBinExactInSound(s.Lb(), bin, w.amountLeft, s.swapForY, s.supportLimitOrder, s.feeOnInput, accumulator);
    var a := FillBinExactIn(s.Lb(), bin, w.amountLeft, s.swapForY, s.supportLimitOrder, s.feeOnInput, accumulator).value;
    var next := VisitBin(s, bin, binId, w).value;
    FillBinExactInIs(s.Lb(), bin, w.amountLeft, s.swapForY, s.supportLimitOrder, s.feeOnInput, accumulator, a);
    AccumulatorIs(s.reference, s.Lb().maxVolatilityAccumulator, binId, next.endingVolatility);
    var visits: seq<Visit> :| Explains(s, visits, w.touchedBins, requested, w.amountLeft, GrossPaid(s, w))
      && w.tradingFee == Fees(visits) && w.protocolFee == ProtocolFees(visits);
    var v := Visit(w.amountLeft, a);
    assert VisitSound(s, binId, v);
    ExplainsSnoc(s, visits, w.touchedBins, requested, w.amountLeft, GrossPaid(s, w), binId, v);
    assert Explains(s, visits + [v], next.touchedBins, requested, next.amountLeft, GrossPaid(s, next));
  }

  // ----- Bins of one array

  /** `n` consecutive bins from `binId` in swap direction. */
  function Stretch(binId: int, n: nat, swapForY: bool): (r: seq<int>)
    ensures |r| == n
    ensures forall k :: 0 <= k < n ==> r[k] == binId + k * Step(swapForY)
  {
    seq(n, k => binId + k * Step(swapForY))
  }

  /** From `binId` to the far edge of its array. */
  function StretchToEdge(index: int, binId: int, swapForY: bool): seq<int> {
    Stretch(binId, Distance(binId, FarBin(index, swapForY)) + 1, swapForY)
  }

  /** `next` extends `w` by a nonempty initial part of `full`, all of it if input remains. */
  ghost predicate ExtendsAlong(w: Walk, next: Walk, full: seq<int>) {
    && next.touchedBinArrays == w.touchedBinArrays
    && |w.touchedBins| < |next.touchedBins|
    && next.touchedBins <= w.touchedBins + full
    && w.touchedBins <= next.touchedBins
    && (next.amountLeft > 0 ==> next.touchedBins == w.touchedBins + full)
  }

  lemma StretchStep(index: int, binId: int, swapForY: bool)
    requires BinInArray(index, binId) && binId != FarBin(index, swapForY)
    ensures BinInArray(index, binId + Step(swapForY))
    ensures StretchToEdge(index, binId, swapForY) == [binId] + StretchToEdge(index, binId + Step(swapForY), swapForY)
  {
  }

  lemma {:induction false} WalkBinsAccounted(s: Swap, requested: u64, found: BinArray, index: int, binId: int, w: Walk)
    requires |found.bins| == MAX_BIN_PER_ARRAY && BinInArray(index, binId)
    requires FindArray(s.snapshot.binArrays, index) == Some(found)
    requires w.amountLeft > 0 && Accounted(s, requested, w)
    requires WalkBins(s, found.bins, index, binId, w).Ok?
    ensures
      var next := WalkBins(s, found.bins, index, binId, w).value;
      Accounted(s, requested, next) && ExtendsAlong(w, next, StretchToEdge(index, binId, s.swapForY))
    decreases Distance(binId, FarBin(index, s.swapForY))
  {
    hide VisitBin, Accounted, Capacity, FindArray, StretchToEdge;
    var bin := found.bins[binId - index * MAX_BIN_PER_ARRAY];
    assert binId / MAX_BIN_PER_ARRAY == index && binId % MAX_BIN_PER_ARRAY == binId - index * MAX_BIN_PER_ARRAY;
    VisitBinAccounted(s, requested, bin, binId, w);
    var next := VisitBin(s, bin, binId, w).value;
    if binId == FarBin(index, s.swapForY) {
      EdgeStretch(index, s.swapForY);
    } else {
      StretchStep(index, binId, s.swapForY);
      var rest := StretchToEdge(index, binId + Step(s.swapForY), s.swapForY);
      assert w.touchedBins + ([binId] + rest) == next.touchedBins + rest;
      if next.amountLeft > 0 {
        WalkBinsAccounted(s, requested, found, index, binId + Step(s.swapForY), next);
      }
    }
  }

  lemma EdgeStretch(index: int, swapForY: bool)
    ensures StretchToEdge(index, FarBin(index, swapForY), swapForY) == [FarBin(index, swapForY)]
  {
  }

  // ----- Bins of a run

  /** All bins along a run, the first array entered at the active bin if it is the active array. */
  function BinsOfRun(s: Swap, arrays: seq<int>): seq<int> {
    if arrays == [] then [] else
    var n := |arrays| - 1;
    BinsOfRun(s, arrays[..n]) + StretchToEdge(arrays[n], EntryBin(s, n == 0, arrays[n]), s.swapForY)
  }

  lemma BinsOfRunSnoc(s: Swap, arrays: seq<int>, index: int)
    ensures BinsOfRun(s, arrays + [index])
         == BinsOfRun(s, arrays) + StretchToEdge(index, EntryBin(s, arrays == [], index), s.swapForY)
  {
    assert (arrays + [index])[..|arrays|] == arrays;
  }

  /** What every successful traversal of a positive amount satisfies. */
  ghost predicate TraversalSound(s: Swap, requested: u64, initial: int, r: TraversalResult) {
    var arrays, bins := r.touchedBinArrays, r.touchedBins;
    var gross := if s.feeOnInput then r.amountOut else r.amountOut + r.tradingFee;
    var resume := RunEnd(initial, arrays, s.swapForY);
    // Conservation of input and fees.
    && r.requestedInput == requested == r.consumedInput + r.unspentInput
    && r.tradingFee == r.protocolFee + r.userFee
    && (s.feeOnInput ==> r.tradingFee <= r.consumedInput)
    && r.feeOnInput == s.feeOnInput
    // Where it went.
    && Ends(s, bins, r.endingActiveId, r.endingVolatility)
    && IsRun(s.Bits(), initial, arrays, s.swapForY)
    && (forall k :: 0 <= k < |arrays| ==> FindArray(s.snapshot.binArrays, arrays[k]).Some?)
    && bins <= BinsOfRun(s, arrays)
    && (r.termination != RequestedInputFullyConsumed ==> bins == BinsOfRun(s, arrays))
    && (r.termination == RequestedInputFullyConsumed ==>
          && r.unspentInput == 0 && arrays != []
          && |BinsOfRun(s, arrays[..|arrays| - 1])| < |bins|)
    // What it used up: every touched bin, as far as input remained.
    && Explained(s, bins, requested, r.unspentInput, gross, r.tradingFee, r.protocolFee)
    && (r.termination != RequestedInputFullyConsumed ==> r.unspentInput > 0)
    // Why it stopped.
    && (match r.termination
        case RequestedInputFullyConsumed => true
        case MissingHydratedBinArray(i) =>
          IsNext(s.Bits(), resume, i, s.swapForY) && FindArray(s.snapshot.binArrays, i).None?
        case NeedsBitmapExtension =>
          s.snapshot.extension.None? && exists i :: IsBarrier(s.Bits(), resume, i, s.swapForY)
        case LiquiditySearchExhausted =>
          ClearUntil(s.Bits(), resume, Terminal(s.swapForY) + Step(s.swapForY), s.swapForY)
        case SearchRangeExceeded => false)
  }

  /** The state of the outer loop, between arrays. */
  ghost predicate OnRun(s: Swap, requested: u64, initial: int, search: int, first: bool, w: Walk) {
    && w.amountLeft > 0 && Accounted(s, requested, w)
    && IsRun(s.Bits(), initial, w.touchedBinArrays, s.swapForY)
    && search == RunEnd(initial, w.touchedBinArrays, s.swapForY)
    && first == (w.touchedBinArrays == [])
    && w.touchedBins == BinsOfRun(s, w.touchedBinArrays)
    && forall k :: 0 <= k < |w.touchedBinArrays| ==> FindArray(s.snapshot.binArrays, w.touchedBinArrays[k]).Some?
  }

  /** A search over the real bitmaps fails only for want of the extension. */
  lemma SearchFailure(s: Swap, search: int)
    requires ValidArrayIndex(search) && NextInitialized(s.Bits(), search, s.swapForY).Err?
    ensures NextInitialized(s.Bits(), search, s.swapForY).error == BitmapExtensionRequired
    ensures s.snapshot.extension.None? && exists i :: IsBarrier(s.Bits(), search, i, s.swapForY)
  {
    hide NextInitialized, BitmapBit, ClearUntil;
    NextInitializedIsNearest(s.Bits(), search, s.swapForY);
    var e := NextInitialized(s.Bits(), search, s.swapForY).error;
    var i :| IsBarrier(s.Bits(), search, i, s.swapForY) && s.Bits()(i) == Err(e);
    BitmapReadable(s.snapshot.lbPair.bitmap, s.snapshot.extension, i);
  }

  lemma EntryBinInArray(s: Swap, first: bool, index: int)
    requires ValidArrayIndex(index)
    ensures BinInArray(index, EntryBin(s, first, index))
  {
  }

  /** Stopping between arrays, for a reason that holds there. */
  lemma FinishSound(s: Swap, requested: u64, initial: int, search: int, first: bool, w: Walk, termination: Termination)
    requires OnRun(s, requested, initial, search, first, w)
    requires
      match termination
      case RequestedInputFullyConsumed => false
      case MissingHydratedBinArray(i) => IsNext(s.Bits(), search, i, s.swapForY) && FindArray(s.snapshot.binArrays, i).None?
      case NeedsBitmapExtension => s.snapshot.extension.None? && exists i :: IsBarrier(s.Bits(), search, i, s.swapForY)
      case LiquiditySearchExhausted => ClearUntil(s.Bits(), search, Terminal(s.swapForY) + Step(s.swapForY), s.swapForY)
      case SearchRangeExceeded => false
    requires FinishTraversal(requested, w, s.feeOnInput, termination).Ok?
    ensures TraversalSound(s, requested, initial, FinishTraversal(requested, w, s.feeOnInput, termination).value)
  {
    hide BitmapBit, FindArray, IsNext, ClearUntil, IsBarrier, BinsOfRun, IsRun, Explained, Ends;
  }

  function Entered(w: Walk, index: int): Walk {
    w.(touchedBinArrays := w.touchedBinArrays + [index])
  }

  /** Walking the next hydrated array: input remains and the walk is on the longer run, or it stops inside. */
  lemma ArrayStep(s: Swap, requested: u64, initial: int, search: int, first: bool, w: Walk, found: BinArray, index: int)
    requires ValidSnapshot(s.snapshot)
    requires OnRun(s, requested, initial, search, first, w)
    requires IsNext(s.Bits(), search, index, s.swapForY) && ValidArrayIndex(index)
    requires FindArray(s.snapshot.binArrays, index) == Some(found)
    requires BinInArray(index, EntryBin(s, first, index)) && |found.bins| == MAX_BIN_PER_ARRAY
    requires WalkBins(s, found.bins, index, EntryBin(s, first, index), Entered(w, index)).Ok?
    ensures
      var next := WalkBins(s, found.bins, index, EntryBin(s, first, index), Entered(w, index)).value;
      && (next.amountLeft > 0 ==> OnRun(s, requested, initial, index + Step(s.swapForY), false, next))
      && (next.amountLeft == 0 ==>
            var r := FinishTraversal(requested, next, s.feeOnInput, RequestedInputFullyConsumed);
            r.Ok? ==> TraversalSound(s, requested, initial, r.value))
  {
    hide BitmapBit, WalkBins, FindArray, IsNext, ClearUntil, IsBarrier, BinsOfRun, TotalCapacity, EntryBin,
         StretchToEdge, IsRun, Explained, Ends;
    WalkBinsAccounted(s, requested, found, index, EntryBin(s, first, index), Entered(w, index));
    var next := WalkBins(s, found.bins, index, EntryBin(s, first, index), Entered(w, index)).value;
    RunSnoc(s.Bits(), initial, w.touchedBinArrays, index, s.swapForY);
    BinsOfRunSnoc(s, w.touchedBinArrays, index);
    assert next.touchedBinArrays[..|next.touchedBinArrays| - 1] == w.touchedBinArrays;
  }

  lemma {:induction false} WalkArraysSound(s: Swap, requested: u64, initial: int, search: int, first: bool, w: Walk)
    requires ValidSnapshot(s.snapshot) && ValidArrayIndex(search)
    requires OnRun(s, requested, initial, search, first, w)
    requires WalkArrays(s, requested, search, first, w).Ok?
    ensures TraversalSound(s, requested, initial, WalkArrays(s, requested, search, first, w).value)
    decreases Distance(search, Terminal(s.swapForY))
  {
    hide BitmapBit, NextInitialized, WalkBins, FindArray, IsNext, ClearUntil, IsBarrier, EntryBin, OnRun,
         TraversalSound, FinishTraversal;
    NextInitializedIsNearest(s.Bits(), search, s.swapForY);
    match NextInitialized(s.Bits(), search, s.swapForY) {
      case Err(e) =>
        SearchFailure(s, search);
        FinishSound(s, requested, initial, search, first, w, NeedsBitmapExtension);
      case Ok(None) =>
        FinishSound(s, requested, initial, search, first, w, LiquiditySearchExhausted);
      case Ok(Some(index)) =>
        var hydrated := FindArray(s.snapshot.binArrays, index);
        if hydrated.None? {
          FinishSound(s, requested, initial, search, first, w, MissingHydratedBinArray(index));
        } else {
          EntryBinInArray(s, first, index);
          ArrayStep(s, requested, initial, search, first, w, hydrated.value, index);
          var next := WalkBins(s, hydrated.value.bins, index, EntryBin(s, first, index), Entered(w, index)).value;
          if next.amountLeft > 0 {
            if index == Terminal(s.swapForY) {
              NothingBeyond(s.Bits(), s.swapForY);
              FinishSound(s, requested, initial, index + Step(s.swapForY), false, next, LiquiditySearchExhausted);
            } else {
              WalkArraysSound(s, requested, initial, index + Step(s.swapForY), false, next);
            }
          }
        }
    }
  }

  lemma NothingBeyond(read: Reader, swapForY: bool)
    ensures ClearUntil(read, Terminal(swapForY) + Step(swapForY), Terminal(swapForY) + Step(swapForY), swapForY)
  {
  }

  /** The parameters a traversal derives from its snapshot. */
  function SwapOf(snapshot: Snapshot, swapForY: bool, supportLimitOrder: bool): (r: Result<Swap, Failure>)
  {
    var feeOnInput :- FeeOnInput(snapshot.lbPair.collectFeeMode, swapForY);
    var reference :- UpdateVolatilityReference(snapshot.lbPair, snapshot.unixTimestamp);
    Ok(Swap(snapshot, reference, swapForY, supportLimitOrder, feeOnInput))
  }

  /** The token a fee is taken in. */
  function FeeToken(s: Swap): Token {
    if s.feeOnInput then Other(Bought(s.swapForY)) else Bought(s.swapForY)
  }

  /** The parameters, from the pool header and the time: the volatility reference and the token of the fee. */
  lemma SwapIs(snapshot: Snapshot, swapForY: bool, supportLimitOrder: bool, s: Swap)
    ensures SwapOf(snapshot, swapForY, supportLimitOrder) == Ok(s) <==>
      var lb, now := snapshot.lbPair, snapshot.unixTimestamp;
      && s.snapshot == snapshot && s.swapForY == swapForY && s.supportLimitOrder == supportLimitOrder
      && I64_MIN <= now - lb.lastUpdateTimestamp <= I64_MAX
      && IsReference(lb, now, s.reference.reference, s.reference.indexReference)
      && s.reference.accumulator == lb.volatilityAccumulator
      && lb.collectFeeMode <= 1 && FeeToken(s) == if lb.collectFeeMode == 0 then Other(Bought(swapForY)) else Y
  {
    hide UpdateVolatilityReference, FeeOnInput, IsReference;
    ReferenceIs(snapshot.lbPair, snapshot.unixTimestamp, s.reference);
    FeeTokenIs(snapshot.lbPair.collectFeeMode, swapForY);
  }

  /** The rate charged at a bin, by its distance from the reference bin. */
  lemma RateByDistance(s: Swap, binId: i32, rate: u128)
    ensures RateAt(s, binId) == Ok(rate) <==> IsRate(s.Lb(), s.reference.reference, s.reference.indexReference, binId, rate)
  {
    hide TotalFeeRate, UpdateVolatilityAccumulator, IsRate;
    RateIs(s.Lb(), s.reference, binId, rate);
  }

  /**
   Every successful traversal visits exactly the initialized run from the active array, bin by bin,
   and stops for the reason it reports: exhausted liquidity means that no initialized array lies
   beyond and that all visited bins are empty, up to one unit of input under an input fee.
   */
  lemma TraversalIsSound(snapshot: Snapshot, requested: u64, swapForY: bool, supportLimitOrder: bool, initial: int)
    requires ValidSnapshot(snapshot) && requested > 0
    requires ArrayIndexOfBin(snapshot.lbPair.activeId) == Ok(initial)
    requires Traversal(snapshot, requested, swapForY, supportLimitOrder).Ok?
    ensures SwapOf(snapshot, swapForY, supportLimitOrder).Ok?
    ensures TraversalSound(SwapOf(snapshot, swapForY, supportLimitOrder).value, requested, initial,
                           Traversal(snapshot, requested, swapForY, supportLimitOrder).value)
  {
    hide WalkArrays, FeeOnInput, UpdateVolatilityReference, ArrayIndexOfBin, TraversalSound, Explained;
    NothingToExplain(SwapOf(snapshot, swapForY, supportLimitOrder).value, requested);
    ArrayIndexIsFloor(snapshot.lbPair.activeId, initial);
    var s := SwapOf(snapshot, swapForY, supportLimitOrder).value;
    WalkArraysSound(s, requested, initial, initial, true, StartWalk(requested, snapshot.lbPair.activeId, s.reference));
  }

  /**
   What a traversal leaves in the bins it touched. Where input remains, the first `k` bins are emptied
   and the rest can pay nothing for the single unit left. Where none remains, that holds of the bins
   before the last, and the last one paid the rest.
   */
  lemma TraversalEmptiesItsBins(snapshot: Snapshot, requested: u64, swapForY: bool, supportLimitOrder: bool,
                                initial: int)
    returns (k: nat)
    requires ValidSnapshot(snapshot) && requested > 0
    requires ArrayIndexOfBin(snapshot.lbPair.activeId) == Ok(initial)
    requires Traversal(snapshot, requested, swapForY, supportLimitOrder).Ok?
    ensures SwapOf(snapshot, swapForY, supportLimitOrder).Ok?
    ensures
      var s := SwapOf(snapshot, swapForY, supportLimitOrder).value;
      var r := Traversal(snapshot, requested, swapForY, supportLimitOrder).value;
      var gross := if s.feeOnInput then r.amountOut else r.amountOut + r.tradingFee;
      var bins := r.touchedBins;
      if r.termination == RequestedInputFullyConsumed then
        && bins != [] && UselessFrom(s, bins[..|bins| - 1], k)
        && TotalCapacity(s, bins[..k]) <= gross <= TotalCapacity(s, bins[..k]) + CapacityAt(s, bins[|bins| - 1])
      else
        && UselessFrom(s, bins, k) && (k < |bins| ==> r.unspentInput == 1)
        && gross == TotalCapacity(s, bins[..k])
  {
    hide Traversal, Explains, TotalCapacity, CapacityAt, ChargesAt, BinsOfRun, SwapOf, IsRun, IsNext, IsBarrier, ClearUntil,
         FindArray;
    TraversalIsSound(snapshot, requested, swapForY, supportLimitOrder, initial);
    var s := SwapOf(snapshot, swapForY, supportLimitOrder).value;
    var r := Traversal(snapshot, requested, swapForY, supportLimitOrder).value;
    var gross := if s.feeOnInput then r.amountOut else r.amountOut + r.tradingFee;
    var bins := r.touchedBins;
    var visits: seq<Visit> :| Explains(s, visits, bins, requested, r.unspentInput, gross);
    if r.termination == RequestedInputFullyConsumed {
      var n := |bins| - 1;
      ExplainsInit(s, visits, bins, requested, 0, gross);
      k := LeftoverMeansUsedUp(s, visits[..n], bins[..n], requested, visits[n].offered, gross - PaidBy(s, visits[n]));
      assert bins[..n][..k] == bins[..k];
    } else {
      k := LeftoverMeansUsedUp(s, visits, bins, requested, r.unspentInput, gross);
    }
  }
}
