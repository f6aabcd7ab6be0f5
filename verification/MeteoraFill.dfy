/** Filling one bin: market-maker liquidity, then processed orders, then open orders. */
module MeteoraFill {
  import opened Wrappers
  import opened Machine
  import opened Arithmetic
  import opened MeteoraTypes
  import opened MeteoraMath

  datatype LayerFill = LayerFill(amountIn: u64, amountLeft: u64, amountOut: u64)
  datatype BinFill = BinFill(amountIn: u64, amountLeft: u64, amountOut: u64, mmAmountIn: u64)
  datatype FeeSplit = FeeSplit(userFee: u64, protocolFee: u64)
  datatype Accounting = Accounting(inputConsumed: u64, amountOut: u64, tradingFee: u64, protocolFee: u64)

  const NO_FILL := Accounting(0, 0, 0, 0)

  function MarketMakerAmount(bin: Bin, swapForY: bool): u64 {
    if swapForY then bin.amountY else bin.amountX
  }

  predicate OrdersMatchDirection(bin: Bin, swapForY: bool) {
    swapForY == (bin.limitOrderAskSide == 0)
  }

  function ProcessedAmount(bin: Bin, swapForY: bool): u64 {
    if OrdersMatchDirection(bin, swapForY) then bin.processedOrderRemainingAmount else 0
  }

  function OpenAmount(bin: Bin, swapForY: bool): u64 {
    if OrdersMatchDirection(bin, swapForY) then bin.openOrderAmount else 0
  }

  function FillLayer(amountIn: u64, maxAmountOut: u64, price: u128, swapForY: bool): (r: Result<LayerFill, Failure>)
  {
    if maxAmountOut == 0 then Ok(LayerFill(0, amountIn, 0)) else
    var maxAmountIn :- AmountIn(maxAmountOut, price, swapForY, Up);
    if amountIn >= maxAmountIn then Ok(LayerFill(maxAmountIn, amountIn - maxAmountIn, maxAmountOut)) else
    var amountOut :- AmountOut(amountIn, price, swapForY, Down);
    Ok(LayerFill(amountIn, 0, amountOut))
  }

  function FillAtBin(bin: Bin, amountIn: u64, swapForY: bool, supportLimitOrder: bool): (r: Result<BinFill, Failure>)
  {
    if bin.price == 0 then Err(ArithmeticOverflow) else
    var mm :- FillLayer(amountIn, MarketMakerAmount(bin, swapForY), bin.price, swapForY);
    if !supportLimitOrder || mm.amountLeft == 0 then
      Ok(BinFill(mm.amountIn, mm.amountLeft, mm.amountOut, mm.amountIn))
    else
      var processed :- FillLayer(mm.amountLeft, ProcessedAmount(bin, swapForY), bin.price, swapForY);
      var in2 :- Checked(mm.amountIn + processed.amountIn, U64_MAX);
      var out2 :- Checked(mm.amountOut + processed.amountOut, U64_MAX);
      if processed.amountLeft == 0 then
        Ok(BinFill(in2, 0, out2, mm.amountIn))
      else
        var open :- FillLayer(processed.amountLeft, OpenAmount(bin, swapForY), bin.price, swapForY);
        var in3 :- Checked(in2 + open.amountIn, U64_MAX);
        var out3 :- Checked(out2 + open.amountOut, U64_MAX);
        Ok(BinFill(in3, open.amountLeft, out3, mm.amountIn))
  }

  function SplitFee(tradingFee: u64, protocolShare: u16, mmAmountIn: u64, totalAmountIn: u64): (r: Result<FeeSplit,
                    Failure>)
  {
    if totalAmountIn == 0 || tradingFee == 0 then Ok(FeeSplit(0, 0))
    else if mmAmountIn > totalAmountIn then Err(ArithmeticOverflow) else
    var rawMmFee :- MulDiv(tradingFee, mmAmountIn, totalAmountIn, Up);
    var mmFee :- Checked(rawMmFee, U64_MAX);
    var orderFee :- Checked(tradingFee - mmFee, U64_MAX);
    var scaledOrderFee :- Checked(orderFee * LIMIT_ORDER_FEE_SHARE, U128_MAX);
    var placerFee :- Checked(scaledOrderFee / BASIS_POINT_MAX, U64_MAX);
    var orderProtocolFee :- Checked(orderFee - placerFee, U64_MAX);
    var scaledMmFee :- Checked(mmFee * protocolShare, U128_MAX);
    var mmProtocolFee :- Checked(scaledMmFee / BASIS_POINT_MAX, U64_MAX);
    var protocolFee :- Checked(orderProtocolFee + mmProtocolFee, U64_MAX);
    var userFee :- Checked(tradingFee - protocolFee, U64_MAX);
    Ok(FeeSplit(userFee, protocolFee))
  }

  function FillBinExactIn(lb: LbPair, bin: Bin, amountLeft: u64, swapForY: bool, supportLimitOrder: bool,
                          feeOnInput: bool, accumulator: u32): (r: Result<Accounting, Failure>)
  {
    if amountLeft == 0 then Ok(NO_FILL)
    else if feeOnInput then
      var allInputFee :- ComputeFeeFromAmount(lb, accumulator, amountLeft);
      var available :- Checked(amountLeft - allInputFee, U64_MAX);
      var fill :- FillAtBin(bin, available, swapForY, supportLimitOrder);
      if fill.amountIn == 0 then Ok(NO_FILL) else
      var charged :- ChargeInput(lb, accumulator, amountLeft, allInputFee, fill);
      var split :- SplitFee(charged.1, lb.protocolShare, fill.mmAmountIn, fill.amountIn);
      Ok(Accounting(charged.0, fill.amountOut, charged.1, split.protocolFee))
    else
      var fill :- FillAtBin(bin, amountLeft, swapForY, supportLimitOrder);
      if fill.amountIn == 0 then Ok(NO_FILL) else
      var tradingFee :- ComputeFeeFromAmount(lb, accumulator, fill.amountOut);
      var amountOut :- Checked(fill.amountOut - tradingFee, U64_MAX);
      var split :- SplitFee(tradingFee, lb.protocolShare, fill.mmAmountIn, fill.amountIn);
      Ok(Accounting(fill.amountIn, amountOut, tradingFee, split.protocolFee))
  }

  /** Consumed input and fee: everything offered, or the drained amount plus the fee on top of it. */
  function ChargeInput(lb: LbPair, accumulator: u32, amountLeft: u64, allInputFee: u64, fill: BinFill)
    : (r: Result<(u64, u64), Failure>)
  {
    if fill.amountLeft == 0 then Ok((amountLeft, allInputFee)) else
    var fee :- ComputeFee(lb, accumulator, fill.amountIn);
    var consumed :- Checked(fill.amountIn + fee, U64_MAX);
    if consumed > amountLeft then Err(ArithmeticOverflow) else Ok((consumed, fee))
  }

  // ----- One layer

  /** What any successful layer fill satisfies. */
  ghost predicate LayerFillSound(amountIn: u64, maxAmountOut: u64, f: LayerFill) {
    && f.amountIn + f.amountLeft == amountIn
    && f.amountOut <= maxAmountOut
    && (f.amountLeft > 0 ==> f.amountOut == maxAmountOut)
    && (f.amountOut < maxAmountOut ==> f.amountLeft == 0)
    && (f.amountIn == 0 ==> f.amountOut == 0)
    && (f.amountIn == 0 && amountIn > 0 ==> maxAmountOut == 0)
  }

  lemma FillLayerSound(amountIn: u64, maxAmountOut: u64, price: u128, swapForY: bool)
    requires price > 0
    requires FillLayer(amountIn, maxAmountOut, price, swapForY).Ok?
    ensures LayerFillSound(amountIn, maxAmountOut, FillLayer(amountIn, maxAmountOut, price, swapForY).value)
  {
    var num, den := RateNumerator(price, swapForY), RateDenominator(price, swapForY);
    AmountInIsCeil(maxAmountOut, price, swapForY);
    CeilBounds(maxAmountOut * den, num);
    AmountOutIsFloor(amountIn, price, swapForY);
    FloorBounds(amountIn * num, den);
    PartialLayerPaysLess(amountIn, maxAmountOut, num, den);
    if maxAmountOut > 0 {
      MulMono(1, maxAmountOut, den);
    }
  }

  /** The exact value of what was taken covers what was paid. */
  predicate WithinPrice(amountOut: int, amountIn: int, price: u128, swapForY: bool) {
    amountOut * RateDenominator(price, swapForY) <= amountIn * RateNumerator(price, swapForY)
  }

  lemma FillLayerWithinPrice(amountIn: u64, maxAmountOut: u64, price: u128, swapForY: bool)
    requires price > 0
    requires FillLayer(amountIn, maxAmountOut, price, swapForY).Ok?
    ensures
      var f := FillLayer(amountIn, maxAmountOut, price, swapForY).value;
      WithinPrice(f.amountOut, f.amountIn, price, swapForY)
  {
    var num, den := RateNumerator(price, swapForY), RateDenominator(price, swapForY);
    AmountInIsCeil(maxAmountOut, price, swapForY);
    CeilBounds(maxAmountOut * den, num);
    AmountOutIsFloor(amountIn, price, swapForY);
    FloorBounds(amountIn * num, den);
  }

  lemma WithinPriceAdds(a: int, a': int, b: int, b': int, price: u128, swapForY: bool)
    requires WithinPrice(a, b, price, swapForY) && WithinPrice(a', b', price, swapForY)
    ensures WithinPrice(a + a', b + b', price, swapForY)
  {
  }

  /** An input short of the layer's full price pays strictly less than the layer holds. */
  lemma PartialLayerPaysLess(amountIn: nat, maxAmountOut: nat, num: nat, den: nat)
    requires num > 0 && den > 0
    ensures amountIn < CeilDiv(maxAmountOut * den, num) ==> amountIn * num / den < maxAmountOut
  {
    CeilGalois(maxAmountOut * den, num, amountIn);
    FloorGalois(amountIn * num, den, maxAmountOut);
  }

  /** A layer fails only when its own full price does not fit, whatever the input offered. */
  lemma FillLayerFailsIndependently(a: u64, b: u64, maxAmountOut: u64, price: u128, swapForY: bool)
    requires price > 0
    ensures FillLayer(a, maxAmountOut, price, swapForY).Ok? <==> FillLayer(b, maxAmountOut, price, swapForY).Ok?
  {
    var num, den := RateNumerator(price, swapForY), RateDenominator(price, swapForY);
    AmountInIsCeil(maxAmountOut, price, swapForY);
    AmountOutIsFloor(a, price, swapForY);
    AmountOutIsFloor(b, price, swapForY);
    PartialLayerPaysLess(a, maxAmountOut, num, den);
    PartialLayerPaysLess(b, maxAmountOut, num, den);
  }

  lemma FillLayerMono(a: u64, b: u64, maxAmountOut: u64, price: u128, swapForY: bool)
    requires price > 0 && a <= b
    requires FillLayer(a, maxAmountOut, price, swapForY).Ok?
    requires FillLayer(b, maxAmountOut, price, swapForY).Ok?
    ensures
      var fa := FillLayer(a, maxAmountOut, price, swapForY).value;
      var fb := FillLayer(b, maxAmountOut, price, swapForY).value;
      && fa.amountIn <= fb.amountIn && fa.amountOut <= fb.amountOut && fa.amountLeft <= fb.amountLeft
      && (fa.amountLeft > 0 ==> fa.amountIn == fb.amountIn && fa.amountOut == fb.amountOut)
  {
    var num, den := RateNumerator(price, swapForY), RateDenominator(price, swapForY);
    FillLayerSound(a, maxAmountOut, price, swapForY);
    FillLayerSound(b, maxAmountOut, price, swapForY);
    AmountOutIsFloor(a, price, swapForY);
    AmountOutIsFloor(b, price, swapForY);
    MulMono(a, b, num);
    FloorMono(a * num, b * num, den);
  }

  // ----- One bin

  /** Everything the bin can pay out in this direction. */
  function Capacity(bin: Bin, swapForY: bool, supportLimitOrder: bool): nat {
    MarketMakerAmount(bin, swapForY)
    + (if supportLimitOrder then ProcessedAmount(bin, swapForY) + OpenAmount(bin, swapForY) else 0)
  }

  ghost predicate BinFillSound(bin: Bin, amountIn: u64, swapForY: bool, supportLimitOrder: bool, f: BinFill) {
    && f.amountIn + f.amountLeft == amountIn
    && f.mmAmountIn <= f.amountIn
    && f.amountOut <= Capacity(bin, swapForY, supportLimitOrder)
    && (f.amountLeft > 0 ==> f.amountOut == Capacity(bin, swapForY, supportLimitOrder))
    && (f.amountIn == 0 && amountIn > 0 ==> Capacity(bin, swapForY, supportLimitOrder) == 0)
    && (f.amountIn == 0 ==> f.amountOut == 0)
  }

  /**
   A bin fill conserves the input, pays no more than the bin holds, and leaves input over only
   when every layer is empty.
   */
  lemma FillAtBinSound(bin: Bin, amountIn: u64, swapForY: bool, supportLimitOrder: bool)
    requires FillAtBin(bin, amountIn, swapForY, supportLimitOrder).Ok?
    ensures BinFillSound(bin, amountIn, swapForY, supportLimitOrder, FillAtBin(bin, amountIn, swapForY, supportLimitOrder).value)
  {
    hide FillLayer, MarketMakerAmount, ProcessedAmount, OpenAmount;
    var p, y := bin.price, swapForY;
    FillLayerSound(amountIn, MarketMakerAmount(bin, y), p, y);
    var mm := FillLayer(amountIn, MarketMakerAmount(bin, y), p, y).value;
    if supportLimitOrder && mm.amountLeft > 0 {
      FillLayerSound(mm.amountLeft, ProcessedAmount(bin, y), p, y);
      var processed := FillLayer(mm.amountLeft, ProcessedAmount(bin, y), p, y).value;
      if processed.amountLeft > 0 {
        FillLayerSound(processed.amountLeft, OpenAmount(bin, y), p, y);
      }
    }
  }

  /** Summed over its layers, a bin never pays more than its price allows. */
  lemma FillAtBinWithinPrice(bin: Bin, amountIn: u64, swapForY: bool, supportLimitOrder: bool)
    requires FillAtBin(bin, amountIn, swapForY, supportLimitOrder).Ok?
    ensures
      var f := FillAtBin(bin, amountIn, swapForY, supportLimitOrder).value;
      WithinPrice(f.amountOut, f.amountIn, bin.price, swapForY)
  {
    hide FillLayer, MarketMakerAmount, ProcessedAmount, OpenAmount, WithinPrice;
    var p, y := bin.price, swapForY;
    FillLayerWithinPrice(amountIn, MarketMakerAmount(bin, y), p, y);
    var mm := FillLayer(amountIn, MarketMakerAmount(bin, y), p, y).value;
    if supportLimitOrder && mm.amountLeft > 0 {
      FillLayerWithinPrice(mm.amountLeft, ProcessedAmount(bin, y), p, y);
      var processed := FillLayer(mm.amountLeft, ProcessedAmount(bin, y), p, y).value;
      WithinPriceAdds(mm.amountOut, processed.amountOut, mm.amountIn, processed.amountIn, p, y);
      if processed.amountLeft > 0 {
        FillLayerWithinPrice(processed.amountLeft, OpenAmount(bin, y), p, y);
        var open := FillLayer(processed.amountLeft, OpenAmount(bin, y), p, y).value;
        WithinPriceAdds(mm.amountOut + processed.amountOut, open.amountOut, mm.amountIn + processed.amountIn, open.amountIn, p, y);
      }
    }
  }

  /** More input takes and pays at least as much, and two fills that both leave input over agree. */
  lemma FillAtBinMono(bin: Bin, a: u64, b: u64, swapForY: bool, supportLimitOrder: bool)
    requires a <= b
    requires FillAtBin(bin, a, swapForY, supportLimitOrder).Ok? && FillAtBin(bin, b, swapForY, supportLimitOrder).Ok?
    ensures
      var fa := FillAtBin(bin, a, swapForY, supportLimitOrder).value;
      var fb := FillAtBin(bin, b, swapForY, supportLimitOrder).value;
      && fa.amountIn <= fb.amountIn && fa.amountOut <= fb.amountOut && fa.amountLeft <= fb.amountLeft
      && (fa.amountLeft > 0 ==> fa.amountIn == fb.amountIn && fa.amountOut == fb.amountOut && fa.mmAmountIn == fb.mmAmountIn)
  {
    hide FillLayer, MarketMakerAmount, ProcessedAmount, OpenAmount;
    var p, y := bin.price, swapForY;
    FillLayerMono(a, b, MarketMakerAmount(bin, y), p, y);
    FillLayerSound(a, MarketMakerAmount(bin, y), p, y);
    FillLayerSound(b, MarketMakerAmount(bin, y), p, y);
    var ma := FillLayer(a, MarketMakerAmount(bin, y), p, y).value;
    var mb := FillLayer(b, MarketMakerAmount(bin, y), p, y).value;
    if supportLimitOrder && ma.amountLeft > 0 {
      FillLayerMono(ma.amountLeft, mb.amountLeft, ProcessedAmount(bin, y), p, y);
      FillLayerSound(ma.amountLeft, ProcessedAmount(bin, y), p, y);
      FillLayerSound(mb.amountLeft, ProcessedAmount(bin, y), p, y);
      var qa := FillLayer(ma.amountLeft, ProcessedAmount(bin, y), p, y).value;
      var qb := FillLayer(mb.amountLeft, ProcessedAmount(bin, y), p, y).value;
      if qa.amountLeft > 0 {
        FillLayerMono(qa.amountLeft, qb.amountLeft, OpenAmount(bin, y), p, y);
      }
    }
  }

  // ----- Fees on one bin

  /** The split is a partition of the trading fee whenever the protocol share is a proper fraction. */
  lemma FeeSplitPartitions(tradingFee: u64, protocolShare: u16, mmAmountIn: u64, totalAmountIn: u64)
    requires protocolShare <= BASIS_POINT_MAX && mmAmountIn <= totalAmountIn && totalAmountIn > 0
    ensures
      var s := SplitFee(tradingFee, protocolShare, mmAmountIn, totalAmountIn);
      s.Ok? && s.value.userFee + s.value.protocolFee == tradingFee
  {
    if tradingFee > 0 {
      var product := tradingFee * mmAmountIn;
      MulMono(mmAmountIn, totalAmountIn, tradingFee);
      CeilByRemainder(product, totalAmountIn);
      CeilGalois(product, totalAmountIn, tradingFee);
      var mmFee := CeilDiv(product, totalAmountIn);
      assert 0 <= mmFee <= tradingFee;
      assert MulDiv(tradingFee, mmAmountIn, totalAmountIn, Up) == Ok(mmFee);
      ShareWithin(mmFee, protocolShare);
      ShareWithin(tradingFee - mmFee, LIMIT_ORDER_FEE_SHARE);
    }
  }

  lemma ShareWithin(amount: u64, share: nat)
    requires share <= BASIS_POINT_MAX
    ensures 0 <= amount * share <= U128_MAX
    ensures amount * share / BASIS_POINT_MAX <= amount
  {
    MulMono(share, BASIS_POINT_MAX, amount);
    FloorBounds(amount * share, BASIS_POINT_MAX);
    MulCancel(amount * share / BASIS_POINT_MAX, amount, BASIS_POINT_MAX);
  }

  /**
   A fill that leaves input over has left room for one more unit and its fee, so the drained bin's
   charge is strictly below what remained and the overdraft guard cannot fire.
   */
  lemma ChargeInputNeverOverdraws(lb: LbPair, accumulator: u32, amountLeft: u64, fill: BinFill)
    requires TotalFeeRate(lb, accumulator).Ok?
    requires fill.amountIn + fill.amountLeft == Net(TotalFeeRate(lb, accumulator).value, amountLeft)
    ensures
      var rate := TotalFeeRate(lb, accumulator).value;
      ChargeInput(lb, accumulator, amountLeft, amountLeft - Net(rate, amountLeft), fill)
      == if fill.amountLeft == 0 then Ok((amountLeft, amountLeft - Net(rate, amountLeft)))
         else Ok((Gross(rate, fill.amountIn), Gross(rate, fill.amountIn) - fill.amountIn))
    ensures fill.amountLeft > 0 ==> Gross(TotalFeeRate(lb, accumulator).value, fill.amountIn) < amountLeft
  {
    var rate := TotalFeeRate(lb, accumulator).value;
    NetMono(rate, amountLeft, amountLeft);
    if fill.amountLeft > 0 {
      FeeDirectionsAdjoint(rate, fill.amountIn + 1, amountLeft);
      NetOfGross(rate, fill.amountIn);
      FeesAreExact(lb, accumulator, fill.amountIn);
    }
  }

  /** One unit of input under an input fee: the fee takes all of it, so no bin can use it. */
  ghost predicate Dust(lb: LbPair, accumulator: u32, amountLeft: int, feeOnInput: bool) {
    feeOnInput && amountLeft == 1 && TotalFeeRate(lb, accumulator).Ok? && TotalFeeRate(lb, accumulator).value > 0
  }

  /** What the bin paid before an output fee. */
  function GrossOutput(a: Accounting, feeOnInput: bool): nat {
    if feeOnInput then a.amountOut else a.amountOut + a.tradingFee
  }

  /**
   The charge stays within the remaining input, the fees nest, and input is left over only behind
   an emptied bin or as dust.
   */
  lemma FillBinExactInSound(lb: LbPair, bin: Bin, left: u64, swapForY: bool, support: bool, feeOnInput: bool,
                            accumulator: u32)
    requires left > 0
    requires FillBinExactIn(lb, bin, left, swapForY, support, feeOnInput, accumulator).Ok?
    ensures
      var a := FillBinExactIn(lb, bin, left, swapForY, support, feeOnInput, accumulator).value;
      && a.inputConsumed <= left
      && a.protocolFee <= a.tradingFee
      && (feeOnInput ==> a.tradingFee <= a.inputConsumed)
      && GrossOutput(a, feeOnInput) <= Capacity(bin, swapForY, support)
      && (Dust(lb, accumulator, left, feeOnInput) ==> a == NO_FILL)
      && (a.inputConsumed == 0 ==> a == NO_FILL)
      && (a.inputConsumed < left ==>
            || GrossOutput(a, feeOnInput) == Capacity(bin, swapForY, support)
            || Dust(lb, accumulator, left, feeOnInput))
  {
    hide FillAtBin, Net, Gross, TotalFeeRate, ComputeFee, ComputeFeeFromAmount, SplitFee, Capacity, ChargeInput;
    if feeOnInput {
      var rate := TotalFeeRate(lb, accumulator).value;
      FeesAreExact(lb, accumulator, left);
      NetMono(rate, left, left);
      NetIsZero(rate, left);
      var available := Net(rate, left);
      FillAtBinSound(bin, available, swapForY, support);
      var fill := FillAtBin(bin, available, swapForY, support).value;
      if fill.amountIn > 0 {
        ChargeInputNeverOverdraws(lb, accumulator, left, fill);
        SplitFeeWithin(lb, left, fill, accumulator);
      }
    } else {
      FillAtBinSound(bin, left, swapForY, support);
      var fill := FillAtBin(bin, left, swapForY, support).value;
      if fill.amountIn > 0 {
        FeesAreExact(lb, accumulator, fill.amountOut);
        NetMono(TotalFeeRate(lb, accumulator).value, fill.amountOut, fill.amountOut);
        ProtocolFeeWithin(fill.amountOut - Net(TotalFeeRate(lb, accumulator).value, fill.amountOut),
                          lb.protocolShare, fill.mmAmountIn, fill.amountIn);
      }
    }
  }

  lemma ProtocolFeeWithin(tradingFee: u64, protocolShare: u16, mmAmountIn: u64, totalAmountIn: u64)
    requires SplitFee(tradingFee, protocolShare, mmAmountIn, totalAmountIn).Ok?
    ensures SplitFee(tradingFee, protocolShare, mmAmountIn, totalAmountIn).value.protocolFee <= tradingFee
  {
  }

  lemma SplitFeeWithin(lb: LbPair, left: u64, fill: BinFill, accumulator: u32)
    requires TotalFeeRate(lb, accumulator).Ok?
    requires fill.amountIn + fill.amountLeft == Net(TotalFeeRate(lb, accumulator).value, left)
    ensures
      var rate := TotalFeeRate(lb, accumulator).value;
      var fee := if fill.amountLeft == 0 then left - Net(rate, left) else Gross(rate, fill.amountIn) - fill.amountIn;
      0 <= fee <= U64_MAX
      && (var s := SplitFee(fee, lb.protocolShare, fill.mmAmountIn, fill.amountIn);
          s.Ok? ==> s.value.protocolFee <= fee)
  {
    ChargeInputNeverOverdraws(lb, accumulator, left, fill);
    var rate := TotalFeeRate(lb, accumulator).value;
    NetMono(rate, left, left);
    var fee := if fill.amountLeft == 0 then left - Net(rate, left) else Gross(rate, fill.amountIn) - fill.amountIn;
    if SplitFee(fee, lb.protocolShare, fill.mmAmountIn, fill.amountIn).Ok? {
      ProtocolFeeWithin(fee, lb.protocolShare, fill.mmAmountIn, fill.amountIn);
    }
  }

  /**
   Two walkers at one bin: the one with more input is paid at least as much, and if the smaller
   passes on with more than dust then both were charged the same for the emptied bin.
   */
  lemma FillBinExactInMono(lb: LbPair, bin: Bin, a: u64, b: u64, swapForY: bool, support: bool, feeOnInput: bool,
                           accumulator: u32)
    requires 0 < a <= b
    requires FillBinExactIn(lb, bin, a, swapForY, support, feeOnInput, accumulator).Ok?
    requires FillBinExactIn(lb, bin, b, swapForY, support, feeOnInput, accumulator).Ok?
    ensures
      var fa := FillBinExactIn(lb, bin, a, swapForY, support, feeOnInput, accumulator).value;
      var fb := FillBinExactIn(lb, bin, b, swapForY, support, feeOnInput, accumulator).value;
      && fa.amountOut <= fb.amountOut
      && (fa.inputConsumed < a && !Dust(lb, accumulator, a, feeOnInput) ==> fa.inputConsumed == fb.inputConsumed)
  {
    hide FillAtBin, Net, Gross, TotalFeeRate, ComputeFee, ComputeFeeFromAmount, SplitFee, Capacity, ChargeInput;
    if feeOnInput {
      var rate := TotalFeeRate(lb, accumulator).value;
      FeesAreExact(lb, accumulator, a);
      FeesAreExact(lb, accumulator, b);
      NetMono(rate, a, b);
      NetMono(rate, b, b);
      NetIsZero(rate, a);
      var na, nb := Net(rate, a), Net(rate, b);
      FillAtBinSound(bin, na, swapForY, support);
      FillAtBinSound(bin, nb, swapForY, support);
      FillAtBinMono(bin, na, nb, swapForY, support);
      var fa, fb := FillAtBin(bin, na, swapForY, support).value, FillAtBin(bin, nb, swapForY, support).value;
      if fa.amountIn > 0 {
        ChargeInputNeverOverdraws(lb, accumulator, a, fa);
        ChargeInputNeverOverdraws(lb, accumulator, b, fb);
      }
    } else {
      FillAtBinSound(bin, a, swapForY, support);
      FillAtBinSound(bin, b, swapForY, support);
      FillAtBinMono(bin, a, b, swapForY, support);
      var fa, fb := FillAtBin(bin, a, swapForY, support).value, FillAtBin(bin, b, swapForY, support).value;
      if fa.amountIn > 0 {
        FeesAreExact(lb, accumulator, fa.amountOut);
        FeesAreExact(lb, accumulator, fb.amountOut);
        NetMono(TotalFeeRate(lb, accumulator).value, fa.amountOut, fb.amountOut);
      }
    }
  }
}
