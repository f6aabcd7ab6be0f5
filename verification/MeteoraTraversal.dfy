/** The exact-input traversal: bins within arrays, arrays along the initialized run. */
module MeteoraTraversal {
  import opened Wrappers
  import opened Machine
  import opened MeteoraTypes
  import opened MeteoraMath
  import opened MeteoraFill
  import opened DirectionalSearch
  import opened MeteoraAddressing

  datatype Termination =
    | RequestedInputFullyConsumed
    | MissingHydratedBinArray(index: int)
    | NeedsBitmapExtension
    | LiquiditySearchExhausted
    | SearchRangeExceeded

  datatype TraversalResult = TraversalResult(
    requestedInput: u64,
    consumedInput: u64,
    unspentInput: u64,
    amountOut: u64,
    tradingFee: u64,
    protocolFee: u64,
    userFee: u64,
    feeOnInput: bool,
    endingActiveId: i32,
    endingVolatility: Volatility,
    touchedBins: seq<int>,
    touchedBinArrays: seq<int>,
    termination: Termination)

  /** What stays fixed during one traversal. */
  datatype Swap = Swap(snapshot: Snapshot, reference: Volatility, swapForY: bool, supportLimitOrder: bool, feeOnInput: bool) {
    function Lb(): LbPair {
      snapshot.lbPair
    }

    function Bits(): Reader {
      ReaderOf(snapshot.lbPair.bitmap, snapshot.extension)
    }
  }

  /** The variables the traversal updates. */
  datatype Walk = Walk(
    amountLeft: u64,
    amountOut: u64,
    tradingFee: u64,
    protocolFee: u64,
    endingActiveId: i32,
    endingVolatility: Volatility,
    touchedBins: seq<int>,
    touchedBinArrays: seq<int>)

  /** What a snapshot's constructor has checked. */
  ghost predicate ValidSnapshot(s: Snapshot) {
    forall a :: a in s.binArrays ==> ValidArrayIndex(a.index) && |a.bins| == MAX_BIN_PER_ARRAY
  }

  function FinishTraversal(requested: u64, w: Walk, feeOnInput: bool,
                           termination: Termination): (r: Result<TraversalResult, Failure>)
  {
    var consumed :- Checked(requested - w.amountLeft, U64_MAX);
    var userFee :- Checked(w.tradingFee - w.protocolFee, U64_MAX);
    Ok(TraversalResult(requested, consumed, w.amountLeft, w.amountOut, w.tradingFee, w.protocolFee, userFee,
                       feeOnInput, w.endingActiveId, w.endingVolatility, w.touchedBins, w.touchedBinArrays, termination))
  }

  predicate BinInArray(index: int, binId: int) {
    ValidArrayIndex(index) && index * MAX_BIN_PER_ARRAY <= binId < (index + 1) * MAX_BIN_PER_ARRAY
  }

  /** The first and the last bin of an array in swap direction. */
  function NearBin(index: int, swapForY: bool): int {
    if swapForY then index * MAX_BIN_PER_ARRAY + MAX_BIN_PER_ARRAY - 1 else index * MAX_BIN_PER_ARRAY
  }

  function FarBin(index: int, swapForY: bool): int {
    NearBin(index, !swapForY)
  }

  /** Fill one bin and account for it. */
  function VisitBin(s: Swap, bin: Bin, binId: i32, w: Walk): (r: Result<Walk, Failure>)
  {
    var volatility :- UpdateVolatilityAccumulator(s.reference, s.Lb().maxVolatilityAccumulator, binId);
    var a :- FillBinExactIn(s.Lb(), bin, w.amountLeft, s.swapForY, s.supportLimitOrder, s.feeOnInput, volatility.accumulator);
    var left :- Checked(w.amountLeft - a.inputConsumed, U64_MAX);
    var out :- Checked(w.amountOut + a.amountOut, U64_MAX);
    var trading :- Checked(w.tradingFee + a.tradingFee, U64_MAX);
    var protocol :- Checked(w.protocolFee + a.protocolFee, U64_MAX);
    Ok(Walk(left, out, trading, protocol, binId, volatility, w.touchedBins + [binId], w.touchedBinArrays))
  }

  /** The bins of one array from `binId` to the far edge, stopping once the input is used up. */
  function WalkBins(s: Swap, bins: seq<Bin>, index: int, binId: int, w: Walk): (r: Result<Walk, Failure>)
    requires |bins| == MAX_BIN_PER_ARRAY && BinInArray(index, binId)
    decreases Distance(binId, FarBin(index, s.swapForY))
  {
    var next :- VisitBin(s, bins[binId - index * MAX_BIN_PER_ARRAY], binId, w);
    if next.amountLeft == 0 || binId == FarBin(index, s.swapForY) then Ok(next)
    else WalkBins(s, bins, index, binId + Step(s.swapForY), next)
  }

  /** Where the walk enters an array: at the active bin in the active array, else at the near edge. */
  function EntryBin(s: Swap, first: bool, index: int): int {
    if first && BinInArray(index, s.Lb().activeId) then s.Lb().activeId else NearBin(index, s.swapForY)
  }

  /** The arrays along the search from `search`. */
  function WalkArrays(s: Swap, requested: u64, search: int, first: bool, w: Walk): (r: Result<TraversalResult, Failure>)
    requires ValidSnapshot(s.snapshot) && ValidArrayIndex(search)
    decreases Distance(search, Terminal(s.swapForY))
  {
    hide BitmapBit, WalkBins;
    match NextInitialized(s.Bits(), search, s.swapForY)
    case Err(BitmapExtensionRequired) => FinishTraversal(requested, w, s.feeOnInput, NeedsBitmapExtension)
    case Err(ProtocolSearchRangeExceeded) => FinishTraversal(requested, w, s.feeOnInput, SearchRangeExceeded)
    case Err(e) => Err(e)
    case Ok(None) => FinishTraversal(requested, w, s.feeOnInput, LiquiditySearchExhausted)
    case Ok(Some(index)) =>
      match FindArray(s.snapshot.binArrays, index)
      case None => FinishTraversal(requested, w, s.feeOnInput, MissingHydratedBinArray(index))
      case Some(binArray) =>
        var next :- WalkBins(s, binArray.bins, index, EntryBin(s, first, index), w.(touchedBinArrays := w.touchedBinArrays + [index]));
        if next.amountLeft == 0 then FinishTraversal(requested, next, s.feeOnInput, RequestedInputFullyConsumed)
        else if index == Terminal(s.swapForY) then FinishTraversal(requested, next, s.feeOnInput, LiquiditySearchExhausted)
        else WalkArrays(s, requested, index + Step(s.swapForY), false, next)
  }

  function StartWalk(requested: u64, activeId: i32, reference: Volatility): Walk {
    Walk(requested, 0, 0, 0, activeId, reference, [], [])
  }

  function Traversal(snapshot: Snapshot, requested: u64, swapForY: bool,
                     supportLimitOrder: bool): (r: Result<TraversalResult, Failure>)
    requires ValidSnapshot(snapshot)
  {
    var lb := snapshot.lbPair;
    var feeOnInput :- FeeOnInput(lb.collectFeeMode, swapForY);
    var reference :- UpdateVolatilityReference(lb, snapshot.unixTimestamp);
    var start := StartWalk(requested, lb.activeId, reference);
    match ArrayIndexOfBin(lb.activeId)
    case Err(ProtocolSearchRangeExceeded) => FinishTraversal(requested, start, feeOnInput, SearchRangeExceeded)
    case Err(e) => Err(e)
    case Ok(initial) =>
      ArrayIndexIsFloor(lb.activeId, initial);
      if requested == 0 then FinishTraversal(0, start, feeOnInput, RequestedInputFullyConsumed)
      else WalkArrays(Swap(snapshot, reference, swapForY, supportLimitOrder, feeOnInput), requested, initial, true, start)
  }

  /** The program's inner loop, over the bins of one hydrated array. */
  method TraverseBins(s: Swap, bins: seq<Bin>, index: int, entry: int, start: Walk) returns (r: Result<Walk, Failure>)
    requires |bins| == MAX_BIN_PER_ARRAY && BinInArray(index, entry)
    ensures r == WalkBins(s, bins, index, entry, start)
  {
    hide VisitBin;
    var w, binId, terminalBin := start, entry, FarBin(index, s.swapForY);
    while true
      invariant BinInArray(index, binId)
      invariant WalkBins(s, bins, index, entry, start) == WalkBins(s, bins, index, binId, w)
      decreases Distance(binId, terminalBin)
    {
      w :- VisitBin(s, bins[binId - index * MAX_BIN_PER_ARRAY], binId, w);
      if w.amountLeft == 0 || binId == terminalBin {
        return Ok(w);
      }
      binId := binId + Step(s.swapForY);
    }
  }

  /** The program's outer loop, over the initialized arrays. */
  method TraverseArrays(s: Swap, requested: u64, initial: int, start: Walk)
    returns (r: Result<TraversalResult, Failure>)
    requires ValidSnapshot(s.snapshot) && ValidArrayIndex(initial)
    ensures r == WalkArrays(s, requested, initial, true, start)
  {
    hide BitmapBit, WalkBins;
    var w, search, first := start, initial, true;
    while true
      invariant ValidArrayIndex(search)
      invariant WalkArrays(s, requested, initial, true, start) == WalkArrays(s, requested, search, first, w)
      decreases Distance(search, Terminal(s.swapForY))
    {
      var found := SearchInitialized(s.Bits(), search, s.swapForY);
      if found.Err? {
        if found.error == BitmapExtensionRequired {
          r := FinishTraversal(requested, w, s.feeOnInput, NeedsBitmapExtension);
        } else if found.error == ProtocolSearchRangeExceeded {
          r := FinishTraversal(requested, w, s.feeOnInput, SearchRangeExceeded);
        } else {
          r := Err(found.error);
        }
        return;
      }
      if found.value.None? {
        r := FinishTraversal(requested, w, s.feeOnInput, LiquiditySearchExhausted);
        return;
      }
      var index := found.value.value;
      var hydrated := FindArray(s.snapshot.binArrays, index);
      if hydrated.None? {
        r := FinishTraversal(requested, w, s.feeOnInput, MissingHydratedBinArray(index));
        return;
      }
      w := w.(touchedBinArrays := w.touchedBinArrays + [index]);
      w :- TraverseBins(s, hydrated.value.bins, index, EntryBin(s, first, index), w);
      if w.amountLeft == 0 {
        r := FinishTraversal(requested, w, s.feeOnInput, RequestedInputFullyConsumed);
        return;
      }
      if index == Terminal(s.swapForY) {
        r := FinishTraversal(requested, w, s.feeOnInput, LiquiditySearchExhausted);
        return;
      }
      search := index + Step(s.swapForY);
      first := false;
    }
  }

  method TraverseExactIn(snapshot: Snapshot, requested: u64, swapForY: bool, supportLimitOrder: bool)
    returns (r: Result<TraversalResult, Failure>)
    requires ValidSnapshot(snapshot)
    ensures r == Traversal(snapshot, requested, swapForY, supportLimitOrder)
  {
    var lb := snapshot.lbPair;
    var feeOnInput :- FeeOnInput(lb.collectFeeMode, swapForY);
    var reference :- UpdateVolatilityReference(lb, snapshot.unixTimestamp);
    var w := StartWalk(requested, lb.activeId, reference);
    var activeIndex := ArrayIndexOfBin(lb.activeId);
    match activeIndex {
      case Err(ProtocolSearchRangeExceeded) =>
        r := FinishTraversal(requested, w, feeOnInput, SearchRangeExceeded);
      case Err(e) =>
        r := Err(e);
      case Ok(initial) =>
        ArrayIndexIsFloor(lb.activeId, initial);
        if requested == 0 {
          r := FinishTraversal(0, w, feeOnInput, RequestedInputFullyConsumed);
        } else {
          r := TraverseArrays(Swap(snapshot, reference, swapForY, supportLimitOrder, feeOnInput), requested, initial, w);
        }
    }
  }
}
