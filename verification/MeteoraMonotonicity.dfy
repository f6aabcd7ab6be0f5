/** A larger input never buys less: two runs of the traversal on one snapshot, compared bin by bin. */
module MeteoraMonotonicity {
  import opened Wrappers
  import opened Machine
  import opened Arithmetic
  import opened MeteoraTypes
  import opened MeteoraMath
  import opened MeteoraFill
  import opened DirectionalSearch
  import opened MeteoraAddressing
  import opened MeteoraTraversal
  import opened MeteoraWalk

  // ----- Output only grows

  lemma {:induction false} WalkBinsOutputGrows(s: Swap, bins: seq<Bin>, index: int, binId: int, w: Walk)
    requires |bins| == MAX_BIN_PER_ARRAY && BinInArray(index, binId)
    requires WalkBins(s, bins, index, binId, w).Ok?
    ensures w.amountOut <= WalkBins(s, bins, index, binId, w).value.amountOut
    decreases Distance(binId, FarBin(index, s.swapForY))
  {
    hide VisitBin;
    var bin := bins[binId - index * MAX_BIN_PER_ARRAY];
    var next := VisitBin(s, bin, binId, w).value;
    VisitBinOutputGrows(s, bin, binId, w);
    if next.amountLeft != 0 && binId != FarBin(index, s.swapForY) {
      WalkBinsOutputGrows(s, bins, index, binId + Step(s.swapForY), next);
    }
  }

  lemma VisitBinOutputGrows(s: Swap, bin: Bin, binId: i32, w: Walk)
    requires VisitBin(s, bin, binId, w).Ok?
    ensures w.amountOut <= VisitBin(s, bin, binId, w).value.amountOut
  {
    hide FillBinExactIn, UpdateVolatilityAccumulator;
  }

  lemma EntryBinsInArrays(s: Swap)
    ensures forall first, index :: ValidArrayIndex(index) ==> BinInArray(index, EntryBin(s, first, index))
  {
  }

  lemma {:induction false} WalkArraysOutputGrows(s: Swap, requested: u64, search: int, first: bool, w: Walk)
    requires ValidSnapshot(s.snapshot) && ValidArrayIndex(search)
    requires WalkArrays(s, requested, search, first, w).Ok?
    ensures w.amountOut <= WalkArrays(s, requested, search, first, w).value.amountOut
    decreases Distance(search, Terminal(s.swapForY))
  {
    hide BitmapBit, NextInitialized, WalkBins, FindArray, EntryBin;
    EntryBinsInArrays(s);
    match NextInitialized(s.Bits(), search, s.swapForY) {
      case Ok(Some(index)) =>
        var hydrated := FindArray(s.snapshot.binArrays, index);
        if hydrated.Some? {
          WalkBinsOutputGrows(s, hydrated.value.bins, index, EntryBin(s, first, index), Entered(w, index));
          var next := WalkBins(s, hydrated.value.bins, index, EntryBin(s, first, index), Entered(w, index)).value;
          if next.amountLeft != 0 && index != Terminal(s.swapForY) {
            WalkArraysOutputGrows(s, requested, index + Step(s.swapForY), false, next);
          }
        }
      case _ =>
    }
  }

  // ----- Where the walk is

  /** Strictly beyond the active bin in swap direction. */
  predicate Ahead(s: Swap, binId: int) {
    if s.swapForY then binId < s.Lb().activeId else binId > s.Lb().activeId
  }

  predicate Onward(s: Swap, binId: int) {
    binId == s.Lb().activeId || Ahead(s, binId)
  }

  /** The next array searched for is the active one, or lies wholly ahead of the active bin. */
  predicate SearchesOnward(s: Swap, search: int, first: bool) {
    if first then BinInArray(search, s.Lb().activeId) else Ahead(s, NearBin(search, s.swapForY))
  }

  lemma EntersOnward(s: Swap, search: int, first: bool, index: int)
    requires SearchesOnward(s, search, first) && Reaches(search, index, s.swapForY) && ValidArrayIndex(index)
    ensures BinInArray(index, EntryBin(s, first, index)) && Onward(s, EntryBin(s, first, index))
    ensures !first ==> Ahead(s, EntryBin(s, first, index))
    ensures SearchesOnward(s, index + Step(s.swapForY), false)
  {
  }

  // ----- Dust buys nothing

  predicate FreeAt(s: Swap, binId: int) {
    RateAt(s, binId) == Ok(0)
  }

  ghost predicate AllAheadCharge(s: Swap) {
    forall binId :: Ahead(s, binId) && ValidArrayIndex(binId / MAX_BIN_PER_ARRAY) ==> !FreeAt(s, binId)
  }

  ghost predicate NoneCharges(s: Swap) {
    forall binId :: !ChargesAt(s, binId)
  }

  /** Every positive fee would exceed itself in protocol fees, so no charging bin can pay anything. */
  predicate FeesUnpayable(s: Swap) {
    !s.supportLimitOrder && s.Lb().protocolShare >= 2 * BASIS_POINT_MAX
  }

  /** A unit that passes a charging bin meets no free one later, where a larger input would have stopped before. */
  ghost predicate Untrapped(s: Swap) {
    s.feeOnInput ==> AllAheadCharge(s) || NoneCharges(s) || FeesUnpayable(s)
  }

  /** One unit left, with no free bin beyond the active one. */
  ghost predicate Stuck(s: Swap, w: Walk) {
    s.feeOnInput && AllAheadCharge(s) && w.amountLeft == 1
  }

  /** At a bin with a rate, one unit buys nothing. */
  lemma DustFills(s: Swap, bin: Bin, binId: i32, w: Walk)
    requires s.feeOnInput && w.amountLeft == 1 && !FreeAt(s, binId) && VisitBin(s, bin, binId, w).Ok?
    ensures
      var next := VisitBin(s, bin, binId, w).value;
      next.amountOut == w.amountOut && next.amountLeft == 1
    ensures ChargesAt(s, binId)
  {
    hide FillBinExactIn, UpdateVolatilityAccumulator, TotalFeeRate;
    var accumulator := UpdateVolatilityAccumulator(s.reference, s.Lb().maxVolatilityAccumulator, binId).value.accumulator;
    FillBinExactInSound(s.Lb(), bin, 1, s.swapForY, s.supportLimitOrder, s.feeOnInput, accumulator);
    FeeRateKnown(s, bin, accumulator, 1);
  }

  lemma FeeRateKnown(s: Swap, bin: Bin, accumulator: u32, left: u64)
    requires s.feeOnInput && left > 0
    requires FillBinExactIn(s.Lb(), bin, left, s.swapForY, s.supportLimitOrder, s.feeOnInput, accumulator).Ok?
    ensures TotalFeeRate(s.Lb(), accumulator).Ok?
  {
    hide FillAtBin, ChargeInput, SplitFee, ComputeFeeFromAmount;
  }

  lemma {:induction false} WalkBinsStuck(s: Swap, bins: seq<Bin>, index: int, binId: int, w: Walk)
    requires |bins| == MAX_BIN_PER_ARRAY && BinInArray(index, binId) && Ahead(s, binId)
    requires Stuck(s, w) && WalkBins(s, bins, index, binId, w).Ok?
    ensures
      var next := WalkBins(s, bins, index, binId, w).value;
      next.amountOut == w.amountOut && Stuck(s, next)
    decreases Distance(binId, FarBin(index, s.swapForY))
  {
    hide VisitBin, AllAheadCharge, FreeAt, ChargesAt;
    var bin := bins[binId - index * MAX_BIN_PER_ARRAY];
    var next := VisitBin(s, bin, binId, w).value;
    NotFree(s, index, binId);
    DustFills(s, bin, binId, w);
    if binId != FarBin(index, s.swapForY) {
      WalkBinsStuck(s, bins, index, binId + Step(s.swapForY), next);
    }
  }

  lemma NotFree(s: Swap, index: int, binId: int)
    requires AllAheadCharge(s) && Ahead(s, binId) && BinInArray(index, binId)
    ensures !FreeAt(s, binId)
  {
    assert binId / MAX_BIN_PER_ARRAY == index;
  }

  lemma {:induction false} WalkArraysStuck(s: Swap, requested: u64, search: int, w: Walk)
    requires ValidSnapshot(s.snapshot) && ValidArrayIndex(search) && SearchesOnward(s, search, false)
    requires Stuck(s, w) && WalkArrays(s, requested, search, false, w).Ok?
    ensures WalkArrays(s, requested, search, false, w).value.amountOut == w.amountOut
    decreases Distance(search, Terminal(s.swapForY))
  {
    hide BitmapBit, NextInitialized, WalkBins, FindArray, EntryBin, AllAheadCharge, SearchesOnward;
    match NextInitialized(s.Bits(), search, s.swapForY) {
      case Ok(Some(index)) =>
        var hydrated := FindArray(s.snapshot.binArrays, index);
        if hydrated.Some? {
          EntersOnward(s, search, false, index);
          WalkBinsStuck(s, hydrated.value.bins, index, EntryBin(s, false, index), Entered(w, index));
          var next := WalkBins(s, hydrated.value.bins, index, EntryBin(s, false, index), Entered(w, index)).value;
          if index != Terminal(s.swapForY) {
            WalkArraysStuck(s, requested, index + Step(s.swapForY), next);
          }
        }
      case _ =>
    }
  }

  // ----- Two walks in step

  /** The first walk is behind the second: less left and less paid. */
  predicate Behind(a: Walk, b: Walk) {
    0 < a.amountLeft <= b.amountLeft && a.amountOut <= b.amountOut
  }

  /** How two walks that were in step look after the same bins. */
  ghost predicate StillBehind(s: Swap, a: Walk, b: Walk) {
    a.amountOut <= b.amountOut && (a.amountLeft == 0 || Stuck(s, a) || Behind(a, b))
  }

  lemma ShareOfShare(fee: int, share: int)
    requires fee > 0 && share >= 2 * BASIS_POINT_MAX
    ensures fee * share / BASIS_POINT_MAX > fee
  {
    MulMono(2 * BASIS_POINT_MAX, share, fee);
    FloorGalois(fee * share, BASIS_POINT_MAX, 2 * fee);
  }

  /** With such a protocol share no fee on market-maker liquidity splits. */
  lemma SplitFails(fee: u64, share: u16, amountIn: u64)
    requires fee > 0 && amountIn > 0 && share >= 2 * BASIS_POINT_MAX
    ensures SplitFee(fee, share, amountIn, amountIn).Err?
  {
    ShareOfShare(fee, share);
    var product: nat := fee * amountIn;
    CeilByRemainder(product, amountIn);
    CeilGalois(product, amountIn, fee);
    CeilGalois(product, amountIn, fee - 1);
    MulStrictMono(fee - 1, fee, amountIn);
    var raw := MulDiv(fee, amountIn, amountIn, Up);
    assert raw.Ok? ==> raw.value == fee;
  }

  /** Where no fee can be paid, a charging bin that quotes is empty and leaves the walk as it was. */
  lemma UnpayableFills(s: Swap, bin: Bin, binId: i32, w: Walk)
    requires s.feeOnInput && FeesUnpayable(s) && ChargesAt(s, binId) && w.amountLeft > 0
    requires VisitBin(s, bin, binId, w).Ok?
    ensures
      var next := VisitBin(s, bin, binId, w).value;
      next.amountOut == w.amountOut && next.amountLeft == w.amountLeft
  {
    hide FillBinExactIn, UpdateVolatilityAccumulator, TotalFeeRate;
    var accumulator := UpdateVolatilityAccumulator(s.reference, s.Lb().maxVolatilityAccumulator, binId).value.accumulator;
    UnpayableBin(s.Lb(), bin, w.amountLeft, s.swapForY, accumulator);
  }

  lemma UnpayableBin(lb: LbPair, bin: Bin, left: u64, swapForY: bool, accumulator: u32)
    requires left > 0 && lb.protocolShare >= 2 * BASIS_POINT_MAX
    requires TotalFeeRate(lb, accumulator).Ok? && TotalFeeRate(lb, accumulator).value > 0
    requires FillBinExactIn(lb, bin, left, swapForY, false, true, accumulator).Ok?
    ensures FillBinExactIn(lb, bin, left, swapForY, false, true, accumulator).value == NO_FILL
  {
    hide FillLayer, Net, Gross, TotalFeeRate, ComputeFee, ComputeFeeFromAmount, SplitFee, ChargeInput;
    var rate := TotalFeeRate(lb, accumulator).value;
    FeesAreExact(lb, accumulator, left);
    NetMono(rate, left, left);
    FeeIsPositive(rate, left);
    var available: u64 := Net(rate, left);
    FillAtBinSound(bin, available, swapForY, false);
    var fill := FillAtBin(bin, available, swapForY, false).value;
    if fill.amountIn > 0 {
      ChargeInputNeverOverdraws(lb, accumulator, left, fill);
      FeeIsPositive(rate, fill.amountIn);
      var fee := if fill.amountLeft == 0 then left - available else Gross(rate, fill.amountIn) - fill.amountIn;
      SplitFails(fee, lb.protocolShare, fill.amountIn);
    }
  }

  lemma FeeIsPositive(rate: nat, amount: nat)
    requires 0 < rate <= MAX_FEE_RATE && amount > 0
    ensures Net(rate, amount) < amount < Gross(rate, amount)
  {
    MulMono(1, amount, rate);
    CeilBounds(amount * rate, FEE_PRECISION);
    CeilBounds(amount * rate, FEE_PRECISION - rate);
  }

  lemma VisitBinMono(s: Swap, bin: Bin, binId: i32, a: Walk, b: Walk)
    requires Untrapped(s) && Behind(a, b)
    requires VisitBin(s, bin, binId, a).Ok? && VisitBin(s, bin, binId, b).Ok?
    ensures StillBehind(s, VisitBin(s, bin, binId, a).value, VisitBin(s, bin, binId, b).value)
  {
    hide FillBinExactIn, UpdateVolatilityAccumulator, TotalFeeRate, Capacity, AllAheadCharge, FeesUnpayable;
    var accumulator := UpdateVolatilityAccumulator(s.reference, s.Lb().maxVolatilityAccumulator, binId).value.accumulator;
    FillBinExactInSound(s.Lb(), bin, a.amountLeft, s.swapForY, s.supportLimitOrder, s.feeOnInput, accumulator);
    FillBinExactInMono(s.Lb(), bin, a.amountLeft, b.amountLeft, s.swapForY, s.supportLimitOrder, s.feeOnInput, accumulator);
    if Dust(s.Lb(), accumulator, a.amountLeft, s.feeOnInput) {
      assert ChargesAt(s, binId);
      if FeesUnpayable(s) {
        UnpayableFills(s, bin, binId, b);
      }
    }
  }

  lemma {:induction false} WalkBinsMono(s: Swap, bins: seq<Bin>, index: int, binId: int, a: Walk, b: Walk)
    requires |bins| == MAX_BIN_PER_ARRAY && BinInArray(index, binId) && Onward(s, binId)
    requires Untrapped(s) && Behind(a, b)
    requires WalkBins(s, bins, index, binId, a).Ok? && WalkBins(s, bins, index, binId, b).Ok?
    ensures StillBehind(s, WalkBins(s, bins, index, binId, a).value, WalkBins(s, bins, index, binId, b).value)
    decreases Distance(binId, FarBin(index, s.swapForY))
  {
    hide VisitBin, Untrapped, AllAheadCharge;
    var bin := bins[binId - index * MAX_BIN_PER_ARRAY];
    VisitBinMono(s, bin, binId, a, b);
    var a', b' := VisitBin(s, bin, binId, a).value, VisitBin(s, bin, binId, b).value;
    if binId != FarBin(index, s.swapForY) {
      var next := binId + Step(s.swapForY);
      if b'.amountLeft != 0 {
        WalkBinsOutputGrows(s, bins, index, next, b');
      }
      if a'.amountLeft != 0 {
        if Stuck(s, a') {
          WalkBinsStuck(s, bins, index, next, a');
        } else {
          WalkBinsMono(s, bins, index, next, a', b');
        }
      }
    }
  }

  lemma {:induction false} WalkArraysMono(s: Swap, requestedA: u64, requestedB: u64, search: int, first: bool,
                                        a: Walk, b: Walk)
    requires ValidSnapshot(s.snapshot) && ValidArrayIndex(search) && SearchesOnward(s, search, first)
    requires Untrapped(s) && Behind(a, b)
    requires WalkArrays(s, requestedA, search, first, a).Ok? && WalkArrays(s, requestedB, search, first, b).Ok?
    ensures WalkArrays(s, requestedA, search, first, a).value.amountOut
         <= WalkArrays(s, requestedB, search, first, b).value.amountOut
    decreases Distance(search, Terminal(s.swapForY))
  {
    hide BitmapBit, NextInitialized, WalkBins, FindArray, EntryBin, Untrapped, AllAheadCharge, SearchesOnward;
    match NextInitialized(s.Bits(), search, s.swapForY) {
      case Ok(Some(index)) =>
        var hydrated := FindArray(s.snapshot.binArrays, index);
        if hydrated.Some? {
          EntersOnward(s, search, first, index);
          WalkBinsMono(s, hydrated.value.bins, index, EntryBin(s, first, index), Entered(a, index), Entered(b, index));
          var a' := WalkBins(s, hydrated.value.bins, index, EntryBin(s, first, index), Entered(a, index)).value;
          var b' := WalkBins(s, hydrated.value.bins, index, EntryBin(s, first, index), Entered(b, index)).value;
          if index != Terminal(s.swapForY) {
            var next := index + Step(s.swapForY);
            if b'.amountLeft != 0 {
              WalkArraysOutputGrows(s, requestedB, next, false, b');
            }
            if a'.amountLeft != 0 {
              if Stuck(s, a') {
                WalkArraysStuck(s, requestedA, next, a');
              } else {
                WalkArraysMono(s, requestedA, requestedB, next, false, a', b');
              }
            }
          }
        }
      case _ =>
    }
  }

  // ----- The pools whose quotes are monotone

  /** The fee vanishes at exactly one bin, which the walk can still reach from a bin that charges. */
  predicate FreeBinAhead(lb: LbPair, timestamp: i64, swapForY: bool) {
    && BaseFeeRate(lb) == Ok(0)
    && lb.variableFeeControl > 0 && lb.binStep > 0 && lb.maxVolatilityAccumulator > 0
    && var v := UpdateVolatilityReference(lb, timestamp);
       && v.Ok? && v.value.reference == 0
       && (if swapForY then v.value.indexReference < lb.activeId else v.value.indexReference > lb.activeId)
       && ArrayIndexOfBin(v.value.indexReference).Ok? && ArrayIndexOfBin(lb.activeId).Ok?
  }

  /** A larger input may buy less: a fee on the input, a free bin ahead, and fees that can be paid at all. */
  predicate Trapping(lb: LbPair, timestamp: i64, swapForY: bool, supportLimitOrder: bool) {
    && FeeOnInput(lb.collectFeeMode, swapForY) == Ok(true)
    && FreeBinAhead(lb, timestamp, swapForY)
    && (supportLimitOrder || lb.protocolShare < 2 * BASIS_POINT_MAX)
  }

  /** A bin is free exactly without a base fee, and without volatility there or any weight on it. */
  lemma FreeExactlyAt(s: Swap, binId: i32)
    ensures FreeAt(s, binId) <==>
      && BaseFeeRate(s.Lb()) == Ok(0)
      && (|| s.Lb().variableFeeControl == 0 || s.Lb().binStep == 0 || s.Lb().maxVolatilityAccumulator == 0
          || (s.reference.reference == 0 && s.reference.indexReference == binId))
    ensures BaseFeeRate(s.Lb()) == Ok(0) ==> RateAt(s, binId).Ok?
  {
    hide TotalFeeRate, BaseFeeRate;
    var v := UpdateVolatilityAccumulator(s.reference, s.Lb().maxVolatilityAccumulator, binId);
    ZeroRate(s.Lb(), v.value.accumulator);
    if BaseFeeRate(s.Lb()) == Ok(0) {
      RateExists(s.Lb(), v.value.accumulator);
    }
  }

  lemma RateExists(lb: LbPair, accumulator: u32)
    requires BaseFeeRate(lb) == Ok(0)
    ensures TotalFeeRate(lb, accumulator).Ok?
  {
    hide BaseFeeRate;
    VariableRateExists(lb, accumulator);
  }

  lemma NotTrappingIsUntrapped(s: Swap, timestamp: i64, initial: int)
    requires ArrayIndexOfBin(s.Lb().activeId) == Ok(initial)
    requires UpdateVolatilityReference(s.Lb(), timestamp) == Ok(s.reference)
    requires FeeOnInput(s.Lb().collectFeeMode, s.swapForY) == Ok(s.feeOnInput)
    requires !Trapping(s.Lb(), timestamp, s.swapForY, s.supportLimitOrder)
    ensures Untrapped(s)
  {
    hide BaseFeeRate, RateAt, FeeOnInput, UpdateVolatilityReference, ArrayIndexOfBin;
    var lb := s.Lb();
    var weightless := lb.variableFeeControl == 0 || lb.binStep == 0 || lb.maxVolatilityAccumulator == 0;
    if s.feeOnInput && !FeesUnpayable(s) {
      if BaseFeeRate(lb) == Ok(0) && weightless {
        forall binId ensures !ChargesAt(s, binId) {
          ChargesInRange(s, binId);
          if I32_MIN <= binId <= I32_MAX {
            FreeExactlyAt(s, binId);
          }
        }
      } else {
        forall binId | Ahead(s, binId) && ValidArrayIndex(binId / MAX_BIN_PER_ARRAY) ensures !FreeAt(s, binId) {
          ArrayIndexIsFloor(binId, binId / MAX_BIN_PER_ARRAY);
          FreeExactlyAt(s, binId);
        }
      }
    }
  }

  lemma ChargesInRange(s: Swap, binId: int)
    ensures ChargesAt(s, binId) ==> I32_MIN <= binId <= I32_MAX
  {
  }

  /**
   Quote monotonicity. On one snapshot, in either direction and either fee mode, a larger input
   that quotes never returns less than a smaller one, unless the pool's header traps a last unit:
   it passes a bin that charges, and then meets the one bin that does not.
   */
  lemma QuoteMonotone(snapshot: Snapshot, a: u64, b: u64, swapForY: bool, supportLimitOrder: bool)
    requires ValidSnapshot(snapshot) && a <= b
    requires Traversal(snapshot, a, swapForY, supportLimitOrder).Ok?
    requires Traversal(snapshot, b, swapForY, supportLimitOrder).Ok?
    requires !Trapping(snapshot.lbPair, snapshot.unixTimestamp, swapForY, supportLimitOrder)
    ensures Traversal(snapshot, a, swapForY, supportLimitOrder).value.amountOut
         <= Traversal(snapshot, b, swapForY, supportLimitOrder).value.amountOut
  {
    hide WalkArrays, FeeOnInput, UpdateVolatilityReference, ArrayIndexOfBin, Trapping, Untrapped;
    var activeId := snapshot.lbPair.activeId;
    if ArrayIndexOfBin(activeId).Ok? && b > 0 {
      var initial := ArrayIndexOfBin(activeId).value;
      ArrayIndexIsFloor(activeId, initial);
      var s := SwapOf(snapshot, swapForY, supportLimitOrder).value;
      var wb := StartWalk(b, activeId, s.reference);
      WalkArraysOutputGrows(s, b, initial, true, wb);
      if a > 0 {
        NotTrappingIsUntrapped(s, snapshot.unixTimestamp, initial);
        WalkArraysMono(s, a, b, initial, true, StartWalk(a, activeId, s.reference), wb);
      }
    }
  }
}
