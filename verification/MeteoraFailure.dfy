/** When a quote fails: only where a reached bin has no account, or the totals outgrow 64 bits. */
module MeteoraFailure {
  import opened Wrappers
  import opened Machine
  import opened MeteoraTypes
  import opened MeteoraMath
  import opened MeteoraFill
  import opened MeteoraFees
  import opened DirectionalSearch
  import opened MeteoraAddressing
  import opened MeteoraTraversal
  import opened MeteoraWalk

  /** No account of the bin for what is left keeps the totals within 64 bits. */
  ghost predicate NoAccountFits(s: Swap, binId: int, w: Walk) {
    BinAt(s, binId).Some?
    && forall a: Accounting ::
         BinAccount(BinAt(s, binId).value, s.Lb().protocolShare, RateAt(s, binId), w.amountLeft, s.swapForY,
                    s.supportLimitOrder, s.feeOnInput, a) ==>
         || w.amountOut + a.amountOut > U64_MAX
         || w.tradingFee + a.tradingFee > U64_MAX
         || w.protocolFee + a.protocolFee > U64_MAX
  }

  lemma VisitFails(s: Swap, bin: Bin, binId: i32, w: Walk)
    requires w.amountLeft > 0 && BinAt(s, binId) == Some(bin)
    ensures VisitBin(s, bin, binId, w).Err? <==> NoAccountFits(s, binId, w)
  {
    hide FillBinExactIn, BinAt, BinAccount, TotalFeeRate;
    var v := UpdateVolatilityAccumulator(s.reference, s.Lb().maxVolatilityAccumulator, binId).value;
    var fill := FillBinExactIn(s.Lb(), bin, w.amountLeft, s.swapForY, s.supportLimitOrder, s.feeOnInput, v.accumulator);
    forall a: Accounting
      ensures fill == Ok(a) <==> BinAccount(bin, s.Lb().protocolShare, RateAt(s, binId), w.amountLeft, s.swapForY,
                                            s.supportLimitOrder, s.feeOnInput, a)
    {
      FillBinExactInIs(s.Lb(), bin, w.amountLeft, s.swapForY, s.supportLimitOrder, s.feeOnInput, v.accumulator, a);
    }
    if fill.Ok? {
      FillBinExactInSound(s.Lb(), bin, w.amountLeft, s.swapForY, s.supportLimitOrder, s.feeOnInput, v.accumulator);
    }
  }

  /** The walk before a failing bin: sound so far, with input left, along the stretch. */
  ghost predicate StoppedBefore(s: Swap, requested: u64, before: Walk, at: int, bins: seq<int>) {
    && Accounted(s, requested, before) && before.amountLeft > 0
    && before.touchedBins + [at] <= bins && NoAccountFits(s, at, before)
  }

  lemma {:induction false} WalkBinsFails(s: Swap, requested: u64, found: BinArray, index: int, binId: int, w: Walk)
    returns (before: Walk, at: int)
    requires |found.bins| == MAX_BIN_PER_ARRAY && BinInArray(index, binId)
    requires FindArray(s.snapshot.binArrays, index) == Some(found)
    requires w.amountLeft > 0 && Accounted(s, requested, w)
    requires WalkBins(s, found.bins, index, binId, w).Err?
    ensures StoppedBefore(s, requested, before, at, w.touchedBins + StretchToEdge(index, binId, s.swapForY))
    decreases Distance(binId, FarBin(index, s.swapForY))
  {
    hide VisitBin, Accounted, FindArray, StretchToEdge, NoAccountFits;
    var bin := found.bins[binId - index * MAX_BIN_PER_ARRAY];
    assert binId / MAX_BIN_PER_ARRAY == index && binId % MAX_BIN_PER_ARRAY == binId - index * MAX_BIN_PER_ARRAY;
    var edge := StretchToEdge(index, binId, s.swapForY);
    if binId == FarBin(index, s.swapForY) {
      EdgeStretch(index, s.swapForY);
    } else {
      StretchStep(index, binId, s.swapForY);
    }
    assert edge != [] && edge[0] == binId;
    if VisitBin(s, bin, binId, w).Err? {
      VisitFails(s, bin, binId, w);
      before, at := w, binId;
    } else {
      var next := VisitBin(s, bin, binId, w).value;
      VisitBinAccounted(s, requested, bin, binId, w);
      before, at := WalkBinsFails(s, requested, found, index, binId + Step(s.swapForY), next);
      var rest := StretchToEdge(index, binId + Step(s.swapForY), s.swapForY);
      assert w.touchedBins + ([binId] + rest) == next.touchedBins + rest;
    }
  }

  lemma FinishSucceeds(s: Swap, requested: u64, w: Walk, termination: Termination)
    requires Accounted(s, requested, w)
    ensures FinishTraversal(requested, w, s.feeOnInput, termination).Ok?
  {
  }

  lemma {:induction false} WalkArraysFails(s: Swap, requested: u64, initial: int, search: int, first: bool, w: Walk)
    returns (arrays: seq<int>, before: Walk, at: int)
    requires ValidSnapshot(s.snapshot) && ValidArrayIndex(search)
    requires OnRun(s, requested, initial, search, first, w)
    requires WalkArrays(s, requested, search, first, w).Err?
    ensures IsRun(s.Bits(), initial, arrays, s.swapForY)
    ensures forall k :: 0 <= k < |arrays| ==> FindArray(s.snapshot.binArrays, arrays[k]).Some?
    ensures StoppedBefore(s, requested, before, at, BinsOfRun(s, arrays))
    decreases Distance(search, Terminal(s.swapForY))
  {
    hide BitmapBit, NextInitialized, WalkBins, FindArray, IsNext, ClearUntil, IsBarrier, EntryBin, FinishTraversal, BinsOfRun,
         StretchToEdge, Accounted, IsRun, NoAccountFits;
    NextInitializedIsNearest(s.Bits(), search, s.swapForY);
    FinishSucceeds(s, requested, w, NeedsBitmapExtension);
    FinishSucceeds(s, requested, w, LiquiditySearchExhausted);
    match NextInitialized(s.Bits(), search, s.swapForY) {
      case Err(e) =>
        SearchFailure(s, search);
        assert false;
      case Ok(None) =>
        assert false;
      case Ok(Some(index)) =>
        FinishSucceeds(s, requested, w, MissingHydratedBinArray(index));
        arrays, before, at := ArrayFails(s, requested, initial, search, first, w, index);
    }
  }

  lemma {:induction false} ArrayFails(s: Swap, requested: u64, initial: int, search: int, first: bool, w: Walk, index: int)
    returns (arrays: seq<int>, before: Walk, at: int)
    requires ValidSnapshot(s.snapshot) && ValidArrayIndex(search)
    requires OnRun(s, requested, initial, search, first, w)
    requires NextInitialized(s.Bits(), search, s.swapForY) == Ok(Some(index)) && IsNext(s.Bits(), search, index, s.swapForY)
    requires WalkArrays(s, requested, search, first, w).Err?
    requires FinishTraversal(requested, w, s.feeOnInput, MissingHydratedBinArray(index)).Ok?
    ensures IsRun(s.Bits(), initial, arrays, s.swapForY)
    ensures forall k :: 0 <= k < |arrays| ==> FindArray(s.snapshot.binArrays, arrays[k]).Some?
    ensures StoppedBefore(s, requested, before, at, BinsOfRun(s, arrays))
    decreases Distance(search, Terminal(s.swapForY)), 0
  {
    hide BitmapBit, NextInitialized, WalkBins, FindArray, IsNext, ClearUntil, IsBarrier, EntryBin, FinishTraversal, BinsOfRun,
         StretchToEdge, Accounted, IsRun, NoAccountFits;
    var found := FindArray(s.snapshot.binArrays, index).value;
    EntryBinInArray(s, first, index);
    var entry, entered := EntryBin(s, first, index), Entered(w, index);
    EnteredAccounted(s, requested, w, index);
    var walked := WalkBins(s, found.bins, index, entry, entered);
    if walked.Err? {
      arrays := w.touchedBinArrays + [index];
      RunSnoc(s.Bits(), initial, w.touchedBinArrays, index, s.swapForY);
      BinsOfRunSnoc(s, w.touchedBinArrays, index);
      before, at := WalkBinsFails(s, requested, found, index, entry, entered);
    } else {
      ArrayStep(s, requested, initial, search, first, w, found, index);
      WalkBinsAccounted(s, requested, found, index, entry, entered);
      FinishSucceeds(s, requested, walked.value, RequestedInputFullyConsumed);
      FinishSucceeds(s, requested, walked.value, LiquiditySearchExhausted);
      arrays, before, at := WalkArraysFails(s, requested, initial, index + Step(s.swapForY), false, walked.value);
    }
  }

  lemma EnteredAccounted(s: Swap, requested: u64, w: Walk, index: int)
    requires Accounted(s, requested, w)
    ensures Accounted(s, requested, Entered(w, index))
  {
  }

  /**
   A quote of a positive amount fails only at a bin it reaches: the walk so far is sound, input is left,
   and no account of that bin, for that input, keeps the totals within 64 bits.
   */
  lemma TraversalFailsAtABin(snapshot: Snapshot, requested: u64, swapForY: bool, supportLimitOrder: bool, initial: int)
    returns (arrays: seq<int>, before: Walk, at: int)
    requires ValidSnapshot(snapshot) && requested > 0
    requires ArrayIndexOfBin(snapshot.lbPair.activeId) == Ok(initial)
    requires SwapOf(snapshot, swapForY, supportLimitOrder).Ok?
    requires Traversal(snapshot, requested, swapForY, supportLimitOrder).Err?
    ensures
      var s := SwapOf(snapshot, swapForY, supportLimitOrder).value;
      && IsRun(s.Bits(), initial, arrays, s.swapForY)
      && (forall k :: 0 <= k < |arrays| ==> FindArray(snapshot.binArrays, arrays[k]).Some?)
      && StoppedBefore(s, requested, before, at, BinsOfRun(s, arrays))
  {
    hide WalkArrays, FeeOnInput, UpdateVolatilityReference, ArrayIndexOfBin, Explained, StoppedBefore;
    var s := SwapOf(snapshot, swapForY, supportLimitOrder).value;
    NothingToExplain(s, requested);
    ArrayIndexIsFloor(snapshot.lbPair.activeId, initial);
    arrays, before, at :=
      WalkArraysFails(s, requested, initial, initial, true, StartWalk(requested, snapshot.lbPair.activeId, s.reference));
  }

  /** What a quote answers without a walk: an error for its parameters, nothing for nothing, or an active bin out of range. */
  lemma QuoteWithoutWalk(snapshot: Snapshot, requested: u64, swapForY: bool, supportLimitOrder: bool)
    requires ValidSnapshot(snapshot)
    ensures
      var r := Traversal(snapshot, requested, swapForY, supportLimitOrder);
      var s := SwapOf(snapshot, swapForY, supportLimitOrder);
      var inRange := ArrayIndexOfBin(snapshot.lbPair.activeId).Ok?;
      && (s.Err? ==> r == Err(s.error))
      && (s.Ok? && (requested == 0 || !inRange) ==>
            r == Ok(TraversalResult(requested, 0, requested, 0, 0, 0, 0, s.value.feeOnInput, snapshot.lbPair.activeId,
                                    s.value.reference, [], [],
                                    if inRange then RequestedInputFullyConsumed else SearchRangeExceeded)))
  {
    hide WalkArrays;
  }
}
