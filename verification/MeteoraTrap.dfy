/**
 When a larger input can buy less. A pool header that traps a last unit is given bins that show it: one
 unit of input passes the charging bins unused and buys four units at the free one, while two units buy
 the single unit of the active bin and stop there.
 */
module MeteoraTrap {
  import opened Wrappers
  import opened Machine
  import opened Arithmetic
  import opened MeteoraTypes
  import opened MeteoraMath
  import opened MeteoraFill
  import opened DirectionalSearch
  import opened MeteoraAddressing
  import opened MeteoraTraversal
  import opened MeteoraWalk
  import opened MeteoraMonotonicity
  import opened HydrationPlan
  import opened MeteoraSnapshot

  // ----- Every array initialized

  function FullWord(): Word {
    0xFFFF_FFFF_FFFF_FFFF
  }

  function FullBitmap(): InternalBitmap {
    seq(16, _ => FullWord())
  }

  function FullRegion(): BitmapRegion {
    var chunk: BitmapChunk := seq(8, _ => FullWord());
    seq(12, _ => chunk)
  }

  lemma FullWordIsSet(bit: nat)
    requires bit < 64
    ensures BitSet(FullWord(), bit)
  {
  }

  lemma EveryArraySet(key: Pubkey, index: int)
    requires ValidArrayIndex(index)
    ensures BitmapBit(FullBitmap(), Some(BitmapExtension(key, FullRegion(), FullRegion())), index) == Ok(true)
  {
    hide BitSet, FullWord;
    forall bit: nat | bit < 64 ensures BitSet(FullWord(), bit) {
      FullWordIsSet(bit);
    }
  }

  // ----- One bin

  /** Four units of output for one of input. */
  function Price(swapForY: bool): u128 {
    if swapForY then 4 * Q64_ONE else Q64_ONE / 4
  }

  /** A bin that can pay `amount`: from orders where they count, else from market-maker liquidity. */
  function Stocked(amount: u64, swapForY: bool, support: bool): Bin {
    if support then Bin(0, 0, Price(swapForY), 0, amount, if swapForY then 0 else 1)
    else Bin(if swapForY then 0 else amount, if swapForY then amount else 0, Price(swapForY), 0, 0, 0)
  }

  lemma LayerFills(amount: u64, swapForY: bool)
    requires amount <= 4
    ensures FillLayer(0, amount, Price(swapForY), swapForY) == Ok(LayerFill(0, 0, 0))
    ensures amount > 0 ==> FillLayer(1, amount, Price(swapForY), swapForY) == Ok(LayerFill(1, 0, amount))
  {
    AmountInIsCeil(amount, Price(swapForY), swapForY);
    AmountOutIsFloor(0, Price(swapForY), swapForY);
  }

  lemma StockedFills(amount: u64, swapForY: bool, support: bool)
    requires amount <= 4
    ensures FillAtBin(Stocked(amount, swapForY, support), 0, swapForY, support) == Ok(BinFill(0, 0, 0, 0))
    ensures amount > 0 ==>
      FillAtBin(Stocked(amount, swapForY, support), 1, swapForY, support) == Ok(BinFill(1, 0, amount, if support then 0 else 1))
  {
    LayerFills(amount, swapForY);
    LayerFills(0, swapForY);
  }

  /** The fee on one or two units: all but one of them, or nothing at a free bin. */
  lemma SmallFees(lb: LbPair, accumulator: u32)
    requires TotalFeeRate(lb, accumulator).Ok?
    ensures TotalFeeRate(lb, accumulator).value > 0 ==>
      ComputeFeeFromAmount(lb, accumulator, 1) == Ok(1) && ComputeFeeFromAmount(lb, accumulator, 2) == Ok(1)
    ensures TotalFeeRate(lb, accumulator).value == 0 ==> ComputeFeeFromAmount(lb, accumulator, 1) == Ok(0)
  {
    hide TotalFeeRate;
    FeesAreExact(lb, accumulator, 1);
    FeesAreExact(lb, accumulator, 2);
  }

  lemma SmallSplits(share: u16, mmAmountIn: u64)
    requires mmAmountIn == 0 || (mmAmountIn == 1 && share < 2 * BASIS_POINT_MAX)
    ensures SplitFee(0, share, mmAmountIn, 1) == Ok(FeeSplit(0, 0))
    ensures SplitFee(1, share, mmAmountIn, 1).Ok? && SplitFee(1, share, mmAmountIn, 1).value.protocolFee <= 1
  {
  }

  /** A single unit passes a charging bin; two units buy what the bin holds; a free bin sells to one unit. */
  lemma StockedBin(lb: LbPair, amount: u64, swapForY: bool, support: bool, accumulator: u32)
    requires amount <= 4 && (support || lb.protocolShare < 2 * BASIS_POINT_MAX)
    requires TotalFeeRate(lb, accumulator).Ok?
    ensures
      var bin := Stocked(amount, swapForY, support);
      if TotalFeeRate(lb, accumulator).value > 0 then
        && FillBinExactIn(lb, bin, 1, swapForY, support, true, accumulator) == Ok(NO_FILL)
        && (amount > 0 ==>
              var two := FillBinExactIn(lb, bin, 2, swapForY, support, true, accumulator);
              two.Ok? && two.value == Accounting(2, amount, 1, two.value.protocolFee) && two.value.protocolFee <= 1)
      else
        amount > 0 ==> FillBinExactIn(lb, bin, 1, swapForY, support, true, accumulator) == Ok(Accounting(1, amount, 0, 0))
  {
    hide TotalFeeRate, ComputeFeeFromAmount, FillAtBin, SplitFee, Stocked;
    StockedFills(amount, swapForY, support);
    SmallFees(lb, accumulator);
    SmallSplits(lb.protocolShare, if support then 0 else 1);
  }

  // ----- The snapshot

  /** A trapping header and what stands around it. */
  datatype Trap = Trap(pda: Derivation, pool: Pubkey, lb: LbPair, timestamp: i64, swapForY: bool, support: bool)
  {
    predicate Valid() {
      Trapping(lb, timestamp, swapForY, support)
    }

    /** The one bin that charges no fee. */
    function Free(): i32
      requires Valid()
    {
      UpdateVolatilityReference(lb, timestamp).value.indexReference
    }

    /** One unit at the active bin, four at the free bin, nothing elsewhere. */
    function Stock(binId: int): u64
      requires Valid()
    {
      if binId == lb.activeId then 1 else if binId == Free() then 4 else 0
    }

    function Bins(index: int): (r: seq<Bin>)
      requires Valid()
      ensures |r| == MAX_BIN_PER_ARRAY
    {
      seq(MAX_BIN_PER_ARRAY, k => Stocked(Stock(index * MAX_BIN_PER_ARRAY + k), swapForY, support))
    }

    function Array(index: i64): (a: BinArray)
      requires Valid()
      ensures a.index == index && |a.bins| == MAX_BIN_PER_ARRAY
    {
      BinArray(pda(index), index, BIN_ARRAY_VERSION_V3, pool, Bins(index))
    }

    function ActiveArray(): (r: int)
      requires Valid()
      ensures BinInArray(r, lb.activeId)
    {
      ArrayIndexIsFloor(lb.activeId, ArrayIndexOfBin(lb.activeId).value);
      ArrayIndexOfBin(lb.activeId).value
    }

    function FreeArray(): (r: int)
      requires Valid()
      ensures BinInArray(r, Free())
    {
      ArrayIndexIsFloor(Free(), ArrayIndexOfBin(Free()).value);
      ArrayIndexOfBin(Free()).value
    }

    function Lowest(): (r: int)
      requires Valid()
      ensures ValidArrayIndex(r)
    {
      if swapForY then FreeArray() else ActiveArray()
    }

    function Highest(): (r: int)
      requires Valid()
      ensures ValidArrayIndex(r)
    {
      if swapForY then ActiveArray() else FreeArray()
    }

    /** The arrays from the active one to the one with the free bin, in ascending order. */
    function Arrays(): (r: seq<BinArray>)
      requires Valid()
      ensures |r| == if Lowest() <= Highest() then Highest() - Lowest() + 1 else 0
      ensures forall k :: 0 <= k < |r| ==> r[k] == Array(Lowest() + k)
    {
      hide ArrayIndexOfBin, Trapping, Bins, FreeArray, ActiveArray;
      var low: int, high: int := Lowest(), Highest();
      seq(if low <= high then high - low + 1 else 0, k requires 0 <= k <= high - low => Array(low + k))
    }

    function Shown(): Snapshot
      requires Valid()
    {
      hide Trapping;
      Snapshot(pool, lb.(bitmap := FullBitmap()), Arrays(), Some(BitmapExtension(pool, FullRegion(), FullRegion())),
               pool, pool, timestamp, Source(0, 0))
    }

    function Swapped(): Swap
      requires Valid()
    {
      Swap(Shown(), UpdateVolatilityReference(lb, timestamp).value, swapForY, support, true)
    }

    /** From the active array towards the one with the free bin. */
    predicate Between(index: int)
      requires Valid()
    {
      Reaches(ActiveArray(), index, swapForY) && Reaches(index, FreeArray(), swapForY)
    }
  }

  lemma ArraysFound(t: Trap, index: int)
    requires t.Valid() && t.Between(index)
    ensures FindArray(t.Arrays(), index) == Some(t.Array(index))
  {
    hide Trap.Array, Trap.Arrays, Trap.ActiveArray, Trap.FreeArray, Trap.Valid;
    FindAscending(t.Arrays(), t.Lowest(), index);
  }

  lemma {:induction false} FindAscending(arrays: seq<BinArray>, first: int, index: int)
    requires first <= index < first + |arrays|
    requires forall k :: 0 <= k < |arrays| ==> arrays[k].index == first + k
    ensures FindArray(arrays, index) == Some(arrays[index - first])
    decreases |arrays|
  {
    if index > first {
      FindAscending(arrays[1..], first + 1, index);
    }
  }

  lemma TrapIsAcceptable(t: Trap)
    requires t.Valid()
    ensures AcceptableArrays(t.pda, t.pool, t.Arrays()) && ValidSnapshot(t.Shown())
    ensures t.Shown().extension.Some? && t.Shown().extension.value.lbPair == t.pool
  {
    hide Trap.Arrays, Trap.Bins, Trap.Lowest, Trap.Highest, Trap.Valid;
    var arrays := t.Arrays();
    forall k | 0 <= k < |arrays| ensures AcceptableArray(t.pda, t.pool, arrays[k]) && arrays[k].index == t.Lowest() + k {
      var index: int := t.Lowest() + k;
      assert arrays[k] == t.Array(index);
    }
  }

  // ----- The rates

  /** Every bin has a rate, and only the free one's is zero. */
  lemma TrapRates(t: Trap, binId: i32)
    requires t.Valid()
    ensures RateAt(t.Swapped(), binId).Ok? && (FreeAt(t.Swapped(), binId) <==> binId == t.Free())
    ensures ChargesAt(t.Swapped(), binId) <==> binId != t.Free()
  {
    hide RateAt, ArrayIndexOfBin, Trap.Arrays;
    BaseIgnoresBitmap(t.lb);
    FreeExactlyAt(t.Swapped(), binId);
  }

  lemma BaseIgnoresBitmap(lb: LbPair)
    ensures BaseFeeRate(lb.(bitmap := FullBitmap())) == BaseFeeRate(lb)
  {
  }

  // ----- The two walks

  /** One unit at any bin: it passes unless the bin is the free one, which pays four. */
  lemma OneUnitAt(t: Trap, binId: i32, w: Walk)
    requires t.Valid() && Fresh(w) && w.amountLeft == 1
    ensures
      var next := VisitBin(t.Swapped(), Stocked(t.Stock(binId), t.swapForY, t.support), binId, w);
      && next.Ok?
      && if binId == t.Free() then next.value.amountLeft == 0 && next.value.amountOut == 4 && NoFees(next.value)
         else next.value.amountLeft == 1 && Fresh(next.value)
  {
    hide FillBinExactIn, Stocked, Trap.Arrays, ArrayIndexOfBin, TotalFeeRate, BaseFeeRate;
    TrapRates(t, binId);
    var s := t.Swapped();
    var accumulator := UpdateVolatilityAccumulator(s.reference, s.Lb().maxVolatilityAccumulator, binId).value.accumulator;
    StockedBin(s.Lb(), t.Stock(binId), t.swapForY, t.support, accumulator);
  }

  /** Two units at the active bin buy what it holds, and are used up. */
  lemma TwoUnitsAtActive(t: Trap, w: Walk)
    requires t.Valid() && Fresh(w) && w.amountLeft == 2
    ensures
      var next := VisitBin(t.Swapped(), Stocked(t.Stock(t.lb.activeId), t.swapForY, t.support), t.lb.activeId, w);
      && next.Ok? && next.value.amountLeft == 0 && next.value.amountOut == 1
      && next.value.protocolFee <= next.value.tradingFee
  {
    hide FillBinExactIn, Stocked, Trap.Arrays, ArrayIndexOfBin, TotalFeeRate, BaseFeeRate;
    TrapRates(t, t.lb.activeId);
    var s := t.Swapped();
    var accumulator := UpdateVolatilityAccumulator(s.reference, s.Lb().maxVolatilityAccumulator, t.lb.activeId).value.accumulator;
    StockedBin(s.Lb(), 1, t.swapForY, t.support, accumulator);
  }

  /** Nothing bought and nothing charged so far. */
  predicate Fresh(w: Walk) {
    w.amountOut == 0 && NoFees(w)
  }

  predicate NoFees(w: Walk) {
    w.tradingFee == 0 && w.protocolFee == 0
  }

  lemma BinAt(t: Trap, index: int, binId: int)
    requires t.Valid() && BinInArray(index, binId)
    ensures t.Bins(index)[binId - index * MAX_BIN_PER_ARRAY] == Stocked(t.Stock(binId), t.swapForY, t.support)
  {
  }

  /** One unit inside an array, before the free bin: it reaches it if the array holds it, else the far edge. */
  lemma {:induction false} OneUnitInArray(t: Trap, index: int, binId: int, w: Walk)
    requires t.Valid() && BinInArray(index, binId) && Reaches(binId, t.Free(), t.swapForY)
    requires Fresh(w) && w.amountLeft == 1
    ensures
      var next := WalkBins(t.Swapped(), t.Bins(index), index, binId, w);
      && next.Ok?
      && if BinInArray(index, t.Free()) then next.value.amountLeft == 0 && next.value.amountOut == 4 && NoFees(next.value)
         else next.value.amountLeft == 1 && Fresh(next.value)
    decreases Distance(binId, FarBin(index, t.swapForY))
  {
    hide VisitBin, Stocked, Trap.Arrays, Trap.Bins, Trap.Valid, Trap.Free;
    BinAt(t, index, binId);
    OneUnitAt(t, binId, w);
    if binId != t.Free() && binId != FarBin(index, t.swapForY) {
      var next := VisitBin(t.Swapped(), t.Bins(index)[binId - index * MAX_BIN_PER_ARRAY], binId, w).value;
      OneUnitInArray(t, index, binId + Step(t.swapForY), next);
    }
  }

  /** The walk enters every array up to the free bin's on the near side of the free bin. */
  lemma EntryReachesFree(t: Trap, search: int, first: bool)
    requires t.Valid() && t.Between(search) && SearchesOnward(t.Swapped(), search, first)
    ensures Reaches(EntryBin(t.Swapped(), first, search), t.Free(), t.swapForY)
    ensures BinInArray(search, t.Free()) <==> search == t.FreeArray()
    ensures search != t.FreeArray() ==> t.Between(search + Step(t.swapForY)) && ValidArrayIndex(search + Step(t.swapForY))
  {
    hide ArrayIndexOfBin, BaseFeeRate, UpdateVolatilityReference, Trap.Arrays;
  }

  /** The next array is always the one searched from, and it is hydrated. */
  lemma EntersNextArray(t: Trap, requested: u64, search: int, first: bool, w: Walk)
    requires t.Valid() && t.Between(search) && ValidSnapshot(t.Shown()) && ValidArrayIndex(search)
    requires BinInArray(search, EntryBin(t.Swapped(), first, search))
    ensures
      var s := t.Swapped();
      var next := WalkBins(s, t.Bins(search), search, EntryBin(s, first, search), Entered(w, search));
      next.Ok? ==>
        WalkArrays(s, requested, search, first, w)
        == if next.value.amountLeft == 0 then FinishTraversal(requested, next.value, true, RequestedInputFullyConsumed)
           else if search == Terminal(t.swapForY) then FinishTraversal(requested, next.value, true, LiquiditySearchExhausted)
           else WalkArrays(s, requested, search + Step(t.swapForY), false, next.value)
  {
    hide WalkBins, Trap.Arrays, Trap.Bins, Trap.Valid, BitmapBit, FindArray, EntryBin, FinishTraversal;
    EveryArraySet(t.pool, search);
    ArraysFound(t, search);
  }

  /** From the start, or from any array before the free bin's, one unit ends by buying four. */
  lemma {:induction false} OneUnitBuysFour(t: Trap, search: int, first: bool, w: Walk)
    requires t.Valid() && t.Between(search) && SearchesOnward(t.Swapped(), search, first)
    requires Fresh(w) && w.amountLeft == 1
    requires ValidSnapshot(t.Shown()) && ValidArrayIndex(search)
    ensures
      var r := WalkArrays(t.Swapped(), 1, search, first, w);
      r.Ok? && r.value.amountOut == 4
    decreases Distance(search, t.FreeArray())
  {
    hide WalkBins, WalkArrays, Trap.Arrays, Trap.Bins, Trap.Valid, Trap.Free, EntryBin, SearchesOnward, Trap.ActiveArray,
         Trap.FreeArray;
    var s := t.Swapped();
    EntersOnward(s, search, first, search);
    EntryReachesFree(t, search, first);
    OneUnitInArray(t, search, EntryBin(s, first, search), Entered(w, search));
    EntersNextArray(t, 1, search, first, w);
    var next := WalkBins(s, t.Bins(search), search, EntryBin(s, first, search), Entered(w, search)).value;
    if next.amountLeft != 0 {
      OneUnitBuysFour(t, search + Step(t.swapForY), false, next);
    }
  }

  lemma TwoUnitsBuyOne(t: Trap, w: Walk)
    requires t.Valid() && Fresh(w) && w.amountLeft == 2 && ValidSnapshot(t.Shown())
    ensures
      var r := WalkArrays(t.Swapped(), 2, t.ActiveArray(), true, w);
      r.Ok? && r.value.amountOut == 1
  {
    hide VisitBin, WalkArrays, Trap.Arrays, Trap.Bins, Trap.Valid, Trap.Free;
    var index := t.ActiveArray();
    ActiveBetween(t);
    BinAt(t, index, t.lb.activeId);
    TwoUnitsAtActive(t, Entered(w, index));
    EntersNextArray(t, 2, index, true, w);
  }

  lemma ActiveBetween(t: Trap)
    requires t.Valid()
    ensures t.Between(t.ActiveArray()) && Reaches(t.lb.activeId, t.Free(), t.swapForY)
  {
    hide ArrayIndexOfBin, BaseFeeRate, UpdateVolatilityReference;
  }

  /** Under a trapping header one unit buys four, and two units buy one. */
  lemma TrapBreaksMonotonicity(t: Trap)
    requires t.Valid() && ValidSnapshot(t.Shown())
    ensures
      var one := Traversal(t.Shown(), 1, t.swapForY, t.support);
      var two := Traversal(t.Shown(), 2, t.swapForY, t.support);
      one.Ok? && one.value.amountOut == 4 && two.Ok? && two.value.amountOut == 1
  {
    hide WalkArrays, Trap.Arrays, ArrayIndexOfBin, BaseFeeRate, ReaderOf;
    var s := t.Swapped();
    ReferenceIgnoresBitmap(t.lb, t.timestamp);
    ActiveBetween(t);
    OneUnitBuysFour(t, t.ActiveArray(), true, StartWalk(1, t.lb.activeId, s.reference));
    TwoUnitsBuyOne(t, StartWalk(2, t.lb.activeId, s.reference));
  }

  lemma ReferenceIgnoresBitmap(lb: LbPair, timestamp: i64)
    ensures UpdateVolatilityReference(lb.(bitmap := FullBitmap()), timestamp) == UpdateVolatilityReference(lb, timestamp)
  {
  }

  // ----- Exactly which pools quote monotonically

  /** The snapshot shows this pool header at this time; the bitmap is part of the liquidity, not of the header. */
  predicate HasHeader(snapshot: Snapshot, lb: LbPair, timestamp: i64) {
    snapshot.lbPair.(bitmap := lb.bitmap) == lb && snapshot.unixTimestamp == timestamp
  }

  /** If both inputs quote, the larger returns at least as much. */
  ghost predicate Monotone(snapshot: Snapshot, a: u64, b: u64, swapForY: bool, support: bool)
    requires ValidSnapshot(snapshot)
  {
    var small, large := Traversal(snapshot, a, swapForY, support), Traversal(snapshot, b, swapForY, support);
    a <= b && small.Ok? && large.Ok? ==> small.value.amountOut <= large.value.amountOut
  }

  /** A snapshot that the constructor accepts for the pool. */
  ghost predicate Acceptable(pda: Derivation, pool: Pubkey, snapshot: Snapshot) {
    && snapshot.lbPairPubkey == pool
    && ValidSnapshot(snapshot) && AcceptableArrays(pda, pool, snapshot.binArrays)
    && (snapshot.extension.Some? ==> snapshot.extension.value.lbPair == pool)
  }

  /** Whatever the bins, the bitmap and the extension hold. */
  ghost predicate AlwaysMonotone(pda: Derivation, pool: Pubkey, lb: LbPair, timestamp: i64, swapForY: bool,
                                 support: bool) {
    forall snapshot, a, b ::
      Acceptable(pda, pool, snapshot) && HasHeader(snapshot, lb, timestamp) ==> Monotone(snapshot, a, b, swapForY, support)
  }

  lemma TrappingIgnoresBitmap(lb: LbPair, bitmap: InternalBitmap, timestamp: i64, swapForY: bool, support: bool)
    ensures Trapping(lb.(bitmap := bitmap), timestamp, swapForY, support) <==> Trapping(lb, timestamp, swapForY, support)
  {
  }

  /**
   A pool quotes monotonically in a direction, over all liquidity it could hold, exactly when its header
   does not trap a last unit. The header, the time and the direction decide it before any quote is made.
   */
  lemma MonotoneExactlyUnlessTrapping(pda: Derivation, pool: Pubkey, lb: LbPair, timestamp: i64, swapForY: bool,
                                      support: bool)
    ensures AlwaysMonotone(pda, pool, lb, timestamp, swapForY, support)
       <==> !Trapping(lb, timestamp, swapForY, support)
  {
    hide Trapping, Traversal, Trap.Arrays;
    if Trapping(lb, timestamp, swapForY, support) {
      var t := Trap(pda, pool, lb, timestamp, swapForY, support);
      TrapIsAcceptable(t);
      TrapBreaksMonotonicity(t);
      assert Acceptable(pda, pool, t.Shown()) && HasHeader(t.Shown(), lb, timestamp);
      assert !Monotone(t.Shown(), 1, 2, swapForY, support);
    } else {
      forall snapshot, a: u64, b: u64 | Acceptable(pda, pool, snapshot) && HasHeader(snapshot, lb, timestamp)
        ensures Monotone(snapshot, a, b, swapForY, support)
      {
        TrappingIgnoresBitmap(lb, snapshot.lbPair.bitmap, timestamp, swapForY, support);
        assert snapshot.lbPair == lb.(bitmap := snapshot.lbPair.bitmap);
        if a <= b && Traversal(snapshot, a, swapForY, support).Ok? && Traversal(snapshot, b, swapForY, support).Ok? {
          QuoteMonotone(snapshot, a, b, swapForY, support);
        }
      }
    }
  }

  /** No base fee; the volatility fee is charged at bin 0 and vanishes at bin 1. */
  const UNSTEADY_PAIR := LbPair(
    baseFactor := 0, filterPeriod := 1, decayPeriod := 1, reductionFactor := 0, variableFeeControl := 1,
    maxVolatilityAccumulator := 10_000, protocolShare := 0, baseFeePowerFactor := 0, collectFeeMode := 0,
    volatilityAccumulator := 0, volatilityReference := 0, indexReference := 1, lastUpdateTimestamp := 0,
    activeId := 0, binStep := 1, bitmap := [0, 0, 0, 0, 0, 0, 0, 0, 0, 0, 0, 0, 0, 0, 0, 0])

  /** A concrete pool whose quotes are not monotone. */
  lemma UnsteadyFeesBreakMonotonicity(pda: Derivation, pool: Pubkey, support: bool)
    ensures
      var t := Trap(pda, pool, UNSTEADY_PAIR, 0, false, support);
      && t.Valid() && Acceptable(pda, pool, t.Shown())
      && var one, two := Traversal(t.Shown(), 1, false, support), Traversal(t.Shown(), 2, false, support);
         one.Ok? && one.value.amountOut == 4 && two.Ok? && two.value.amountOut == 1
  {
    hide Traversal, Trap.Arrays;
    var t := Trap(pda, pool, UNSTEADY_PAIR, 0, false, support);
    assert Pow10(0) == 1;
    TrapIsAcceptable(t);
    TrapBreaksMonotonicity(t);
  }
}
