/**
 Rates, fees and payments, stated by the tokens and the bounds they obey. Each lemma fixes one
 function of the quote exactly, so that no theorem about quotes rests on how that function computes.
 */
module MeteoraFees {
  import opened Wrappers
  import opened Machine
  import opened Arithmetic
  import opened MeteoraTypes
  import opened MeteoraMath
  import opened MeteoraFill

  /** `q` is the quotient rounded up, or down. */
  predicate IsCeil(q: int, numerator: int, denominator: int) {
    (q - 1) * denominator < numerator <= q * denominator
  }

  predicate IsFloor(q: int, numerator: int, denominator: int) {
    q * denominator <= numerator < (q + 1) * denominator
  }

  lemma CeilIs(a: nat, b: nat, q: int)
    requires b > 0
    ensures IsCeil(q, a, b) <==> q == CeilDiv(a, b)
  {
    CeilGalois(a, b, q);
    CeilGalois(a, b, q - 1);
  }

  lemma FloorIs(a: nat, b: nat, q: int)
    requires b > 0
    ensures IsFloor(q, a, b) <==> q == a / b
  {
    FloorGalois(a, b, q);
    FloorGalois(a, b, q + 1);
  }

  // ----- Rates

  /** The volatility rate: control times the square of accumulator times bin step, in units of 10^11, rounded up. */
  predicate IsVariableRate(lb: LbPair, accumulator: nat, v: int) {
    var x := accumulator * lb.binStep;
    IsCeil(v, lb.variableFeeControl * (x * x), VARIABLE_FEE_DENOMINATOR)
  }

  lemma VariableRateIsQuadratic(lb: LbPair, accumulator: u32, v: int)
    ensures VariableFeeRate(lb, accumulator) == Ok(v) <==> IsVariableRate(lb, accumulator, v)
  {
    VariableRateExists(lb, accumulator);
    var x := accumulator * lb.binStep;
    SquareIsNat(lb.variableFeeControl, x);
    CeilIs(lb.variableFeeControl * (x * x), VARIABLE_FEE_DENOMINATOR, v);
  }

  lemma SquareIsNat(control: nat, x: int)
    ensures x * x >= 0 && control * (x * x) >= 0
  {
  }

  function BaseRate(lb: LbPair): nat {
    ProductNat(lb.baseFactor, lb.binStep);
    var perStep: nat := 10 * (lb.baseFactor * lb.binStep);
    ProductNat(perStep, Pow10(lb.baseFeePowerFactor));
    perStep * Pow10(lb.baseFeePowerFactor)
  }

  /** The rate is the base rate plus the volatility rate, but at most ten percent. */
  lemma TotalRateIsCappedSum(lb: LbPair, accumulator: u32, v: nat)
    requires IsVariableRate(lb, accumulator, v)
    ensures
      var total := BaseRate(lb) + v;
      TotalFeeRate(lb, accumulator)
      == if Pow10(lb.baseFeePowerFactor) > U128_MAX || total > U128_MAX then Err(ArithmeticOverflow)
         else Ok(if total <= 100_000_000 then total else 100_000_000)
  {
    hide VariableFeeRate, IsVariableRate;
    VariableRateIsQuadratic(lb, accumulator, v);
    var power := Pow10(lb.baseFeePowerFactor);
    var product: int := lb.baseFactor * lb.binStep;
    MulMono(lb.baseFactor, U16_MAX, lb.binStep);
    MulMono(lb.binStep, U16_MAX, U16_MAX);
    BaseProduct(lb.baseFactor, lb.binStep, power);
  }

  lemma BaseProduct(factor: nat, step: nat, power: nat)
    ensures factor * step * 10 * power == 10 * (factor * step) * power
    ensures 0 <= factor * step
  {
  }

  // ----- Volatility

  /** The reference of a quote at time `now`: kept at first, then decayed at the active bin, at last forgotten. */
  predicate IsReference(lb: LbPair, now: i64, reference: int, index: int) {
    var elapsed := now - lb.lastUpdateTimestamp;
    && index == (if elapsed < lb.filterPeriod then lb.indexReference else lb.activeId)
    && (elapsed < lb.filterPeriod ==> reference == lb.volatilityReference)
    && (lb.filterPeriod <= elapsed < lb.decayPeriod ==>
          IsFloor(reference, lb.volatilityAccumulator * lb.reductionFactor, 10_000))
    && (lb.filterPeriod <= elapsed && lb.decayPeriod <= elapsed ==> reference == 0)
  }

  lemma ReferenceIs(lb: LbPair, now: i64, v: Volatility)
    ensures UpdateVolatilityReference(lb, now) == Ok(v) <==>
      && I64_MIN <= now - lb.lastUpdateTimestamp <= I64_MAX
      && IsReference(lb, now, v.reference, v.indexReference) && v.accumulator == lb.volatilityAccumulator
  {
    var product := lb.volatilityAccumulator * lb.reductionFactor;
    MulMono(lb.volatilityAccumulator, U32_MAX, lb.reductionFactor);
    MulMono(lb.reductionFactor, U16_MAX, U32_MAX);
    FloorIs(product, BASIS_POINT_MAX, v.reference);
    FloorBounds(product, BASIS_POINT_MAX);
  }

  function Apart(a: int, b: int): nat {
    if a <= b then b - a else a - b
  }

  /** Ten thousand per bin of distance from the reference bin, on top of the reference, up to the maximum. */
  predicate IsAccumulator(reference: int, index: int, maximum: int, binId: int, accumulator: int) {
    var volatility := reference + 10_000 * Apart(index, binId);
    accumulator <= volatility && accumulator <= maximum && (accumulator == volatility || accumulator == maximum)
  }

  lemma AccumulatorIs(v: Volatility, maximum: u32, binId: i32, next: Volatility)
    ensures UpdateVolatilityAccumulator(v, maximum, binId) == Ok(next) <==>
      && next.reference == v.reference && next.indexReference == v.indexReference
      && IsAccumulator(v.reference, v.indexReference, maximum, binId, next.accumulator)
  {
  }

  /** The rate at a bin, given the reference: it grows with the square of the distance until it is capped. */
  ghost predicate IsRate(lb: LbPair, reference: int, index: int, binId: int, rate: int) {
    exists accumulator: nat, v: nat ::
      && IsAccumulator(reference, index, lb.maxVolatilityAccumulator, binId, accumulator)
      && IsVariableRate(lb, accumulator, v)
      && Pow10(lb.baseFeePowerFactor) <= U128_MAX && BaseRate(lb) + v <= U128_MAX
      && rate == if BaseRate(lb) + v <= 100_000_000 then BaseRate(lb) + v else 100_000_000
  }

  lemma RateIs(lb: LbPair, volatility: Volatility, binId: i32, rate: u128)
    ensures
      var v := UpdateVolatilityAccumulator(volatility, lb.maxVolatilityAccumulator, binId);
      v.Ok? && (TotalFeeRate(lb, v.value.accumulator) == Ok(rate)
                <==> IsRate(lb, volatility.reference, volatility.indexReference, binId, rate))
  {
    hide TotalFeeRate, IsVariableRate, BaseRate, UpdateVolatilityAccumulator;
    var reference, index, maximum := volatility.reference, volatility.indexReference, lb.maxVolatilityAccumulator;
    var total := reference + 10_000 * Apart(index, binId);
    var accumulator: u32 := if total <= maximum then total else maximum;
    AccumulatorIs(volatility, maximum, binId, Volatility(accumulator, reference, index));
    VariableRateExists(lb, accumulator);
    var v: nat := VariableFeeRate(lb, accumulator).value;
    VariableRateIsQuadratic(lb, accumulator, v);
    TotalRateIsCappedSum(lb, accumulator, v);
    forall w: nat | IsVariableRate(lb, accumulator, w) ensures w == v {
      VariableRateIsQuadratic(lb, accumulator, w);
    }
  }

  // ----- Tokens

  datatype Token = X | Y

  function Other(t: Token): Token {
    if t == X then Y else X
  }

  /** The token a swap pays out. */
  function Bought(swapForY: bool): Token {
    if swapForY then Y else X
  }

  /** Mode 0 takes the fee in the token paid in, mode 1 always in Y, and no other mode is served. */
  lemma FeeTokenIs(collectFeeMode: u8, swapForY: bool)
    ensures
      var r := FeeOnInput(collectFeeMode, swapForY);
      var sold := Other(Bought(swapForY));
      && (r.Ok? <==> collectFeeMode <= 1)
      && (r.Err? ==> r.error == UnsupportedCollectFeeMode)
      && (r.Ok? ==> (if r.value then sold else Bought(swapForY)) == if collectFeeMode == 0 then sold else Y)
  {
  }

  /** What the market makers of a bin hold. */
  function MakerStock(bin: Bin, t: Token): u64 {
    match t
    case X => bin.amountX
    case Y => bin.amountY
  }

  /** Orders on the ask side sell X, the others sell Y. */
  function OrdersSell(bin: Bin): Token {
    if bin.limitOrderAskSide != 0 then X else Y
  }

  /** What the orders of a bin offer to the swap, of one of the two amounts they hold. */
  function OrderStock(bin: Bin, amount: u64, swapForY: bool, support: bool): u64 {
    if support && OrdersSell(bin) == Bought(swapForY) then amount else 0
  }

  lemma StocksAre(bin: Bin, swapForY: bool)
    ensures MarketMakerAmount(bin, swapForY) == MakerStock(bin, Bought(swapForY))
    ensures ProcessedAmount(bin, swapForY) == OrderStock(bin, bin.processedOrderRemainingAmount, swapForY, true)
    ensures OpenAmount(bin, swapForY) == OrderStock(bin, bin.openOrderAmount, swapForY, true)
  {
  }

  // ----- One layer

  /** What one layer took and paid. */
  datatype Payment = Payment(taken: int, paid: int)

  const NOTHING := Payment(0, 0)

  /** The stock's whole price fits 64 bits. */
  predicate Priced(stock: u64, price: u128, swapForY: bool) {
    stock * RateDenominator(price, swapForY) <= U64_MAX * RateNumerator(price, swapForY)
  }

  /**
   An offer that covers the whole stock at the bin's price takes it for the least input that covers it;
   a smaller offer is taken whole and pays its value rounded down.
   */
  predicate LayerPays(offered: int, stock: u64, price: u128, swapForY: bool, p: Payment) {
    var num, den := RateNumerator(price, swapForY), RateDenominator(price, swapForY);
    if stock * den <= offered * num then p.paid == stock && IsCeil(p.taken, stock * den, num)
    else p.taken == offered && IsFloor(p.paid, offered * num, den)
  }

  lemma FillLayerIs(offered: u64, stock: u64, price: u128, swapForY: bool, f: LayerFill)
    requires price > 0
    ensures FillLayer(offered, stock, price, swapForY) == Ok(f) <==>
      && Priced(stock, price, swapForY) && f.amountIn + f.amountLeft == offered
      && LayerPays(offered, stock, price, swapForY, Payment(f.amountIn, f.amountOut))
  {
    hide AmountIn, AmountOut, IsCeil, IsFloor, CeilDiv;
    var num, den := RateNumerator(price, swapForY), RateDenominator(price, swapForY);
    AmountInIsCeil(stock, price, swapForY);
    AmountOutIsFloor(offered, price, swapForY);
    ProductNat(stock, den);
    ProductNat(offered, num);
    CeilIs(stock * den, num, f.amountIn);
    CeilGalois(stock * den, num, offered);
    CeilGalois(stock * den, num, U64_MAX);
    CeilBounds(stock * den, num);
    FloorIs(offered * num, den, f.amountOut);
    PartialLayerPaysLess(offered, stock, num, den);
    FloorBounds(offered * num, den);
  }

  lemma ProductNat(a: nat, b: nat)
    ensures a * b >= 0
    ensures a == 0 ==> a * b == 0
    ensures a * b == 0 && b > 0 ==> a == 0
  {
  }

  /** A layer takes no more than it is offered and pays no more than it holds. */
  lemma LayerBounds(offered: nat, stock: u64, price: u128, swapForY: bool, p: Payment)
    requires price > 0 && LayerPays(offered, stock, price, swapForY, p)
    ensures 0 <= p.taken <= offered && 0 <= p.paid <= stock
  {
    hide CeilDiv;
    var num, den := RateNumerator(price, swapForY), RateDenominator(price, swapForY);
    ProductNat(stock, den);
    ProductNat(offered, num);
    if stock * den <= offered * num {
      CeilIs(stock * den, num, p.taken);
      CeilGalois(stock * den, num, offered);
      CeilBounds(stock * den, num);
    } else {
      FloorIs(offered * num, den, p.paid);
      FloorBounds(offered * num, den);
      FloorGalois(offered * num, den, stock + 1);
      MulMono(stock, stock + 1, den);
    }
  }

  /** Nothing offered, or nothing in stock: the layer takes and pays nothing. */
  lemma IdleLayer(offered: nat, stock: u64, price: u128, swapForY: bool, p: Payment)
    requires price > 0 && (offered == 0 || stock == 0)
    ensures LayerPays(offered, stock, price, swapForY, p) <==> p == NOTHING
  {
    hide CeilDiv;
    var num, den := RateNumerator(price, swapForY), RateDenominator(price, swapForY);
    ProductNat(stock, den);
    ProductNat(offered, num);
    CeilIs(stock * den, num, p.taken);
    CeilBounds(stock * den, num);
    FloorIs(offered * num, den, p.paid);
  }

  // ----- One bin

  /** The market makers' stock is sold first, then processed orders, then open ones; a layer is priced once it is reached. */
  ghost predicate BinPaysBy(bin: Bin, offered: int, swapForY: bool, support: bool, maker: Payment, processed: Payment,
                            open: Payment)
  {
    var makers := MakerStock(bin, Bought(swapForY));
    var processedOrders := OrderStock(bin, bin.processedOrderRemainingAmount, swapForY, support);
    var openOrders := OrderStock(bin, bin.openOrderAmount, swapForY, support);
    var left := offered - maker.taken;
    && Priced(makers, bin.price, swapForY)
    && LayerPays(offered, makers, bin.price, swapForY, maker)
    && (left > 0 ==> Priced(processedOrders, bin.price, swapForY))
    && LayerPays(left, processedOrders, bin.price, swapForY, processed)
    && (left - processed.taken > 0 ==> Priced(openOrders, bin.price, swapForY))
    && LayerPays(left - processed.taken, openOrders, bin.price, swapForY, open)
  }

  ghost predicate BinPays(bin: Bin, offered: int, swapForY: bool, support: bool, f: BinFill) {
    && bin.price > 0
    && exists maker, processed, open ::
         && BinPaysBy(bin, offered, swapForY, support, maker, processed, open)
         && f.mmAmountIn == maker.taken && f.amountIn == maker.taken + processed.taken + open.taken
         && f.amountOut == maker.paid + processed.paid + open.paid && f.amountLeft == offered - f.amountIn
  }

  lemma FillAtBinIs(bin: Bin, offered: u64, swapForY: bool, support: bool, f: BinFill)
    ensures FillAtBin(bin, offered, swapForY, support) == Ok(f) <==> BinPays(bin, offered, swapForY, support, f)
  {
    hide FillLayer, LayerPays, Priced, MarketMakerAmount, ProcessedAmount, OpenAmount;
    if FillAtBin(bin, offered, swapForY, support) == Ok(f) {
      FillPays(bin, offered, swapForY, support, f);
    }
    if BinPays(bin, offered, swapForY, support, f) {
      PaysFill(bin, offered, swapForY, support, f);
    }
  }

  lemma FillPays(bin: Bin, offered: u64, swapForY: bool, support: bool, f: BinFill)
    requires FillAtBin(bin, offered, swapForY, support) == Ok(f)
    ensures BinPays(bin, offered, swapForY, support, f)
  {
    hide FillLayer, LayerPays, Priced, MarketMakerAmount, ProcessedAmount, OpenAmount, OrderStock, MakerStock;
    StocksAre(bin, swapForY);
    var price := bin.price;
    var mm := FillLayer(offered, MarketMakerAmount(bin, swapForY), price, swapForY).value;
    FillLayerIs(offered, MarketMakerAmount(bin, swapForY), price, swapForY, mm);
    var maker, processed, open := Payment(mm.amountIn, mm.amountOut), NOTHING, NOTHING;
    var processedOrders := OrderStock(bin, bin.processedOrderRemainingAmount, swapForY, support);
    var openOrders := OrderStock(bin, bin.openOrderAmount, swapForY, support);
    if support && mm.amountLeft > 0 {
      var fill := FillLayer(mm.amountLeft, processedOrders, price, swapForY).value;
      FillLayerIs(mm.amountLeft, processedOrders, price, swapForY, fill);
      processed := Payment(fill.amountIn, fill.amountOut);
      if fill.amountLeft > 0 {
        var last := FillLayer(fill.amountLeft, openOrders, price, swapForY).value;
        FillLayerIs(fill.amountLeft, openOrders, price, swapForY, last);
        open := Payment(last.amountIn, last.amountOut);
      } else {
        IdleLayer(0, openOrders, price, swapForY, open);
      }
    } else {
      NoOrders(bin, swapForY, support);
      IdleLayer(mm.amountLeft, processedOrders, price, swapForY, processed);
      IdleLayer(mm.amountLeft, openOrders, price, swapForY, open);
    }
    assert BinPaysBy(bin, offered, swapForY, support, maker, processed, open);
  }

  lemma NoOrders(bin: Bin, swapForY: bool, support: bool)
    ensures !support ==>
      && OrderStock(bin, bin.processedOrderRemainingAmount, swapForY, support) == 0
      && OrderStock(bin, bin.openOrderAmount, swapForY, support) == 0
    ensures Priced(0, bin.price, swapForY)
  {
  }

  lemma PaysFill(bin: Bin, offered: u64, swapForY: bool, support: bool, f: BinFill)
    requires BinPays(bin, offered, swapForY, support, f)
    ensures FillAtBin(bin, offered, swapForY, support) == Ok(f)
  {
    hide FillLayer, LayerPays, Priced, OrderStock, MakerStock, FillAtBin, BinPaysBy;
    var maker, processed, open :|
      && BinPaysBy(bin, offered, swapForY, support, maker, processed, open)
      && f.mmAmountIn == maker.taken && f.amountIn == maker.taken + processed.taken + open.taken
      && f.amountOut == maker.paid + processed.paid + open.paid && f.amountLeft == offered - f.amountIn;
    var mm, fill, last := LayersFill(bin, offered, swapForY, support, maker, processed, open);
    FilledInOrder(bin, offered, swapForY, support, mm, fill, last, f);
  }

  /** The layers' payments as layer fills. */
  lemma LayersFill(bin: Bin, offered: u64, swapForY: bool, support: bool, maker: Payment, processed: Payment,
                   open: Payment)
    returns (mm: LayerFill, fill: LayerFill, last: LayerFill)
    requires bin.price > 0 && BinPaysBy(bin, offered, swapForY, support, maker, processed, open)
    ensures Payment(mm.amountIn, mm.amountOut) == maker && Payment(fill.amountIn, fill.amountOut) == processed
    ensures Payment(last.amountIn, last.amountOut) == open
    ensures mm.amountLeft == fill.amountIn + fill.amountLeft && fill.amountLeft == last.amountIn + last.amountLeft
    ensures FillLayer(offered, MarketMakerAmount(bin, swapForY), bin.price, swapForY) == Ok(mm)
    ensures mm.amountLeft == offered - mm.amountIn
    ensures !support || mm.amountLeft == 0 ==> processed == open == NOTHING
    ensures support && fill.amountLeft == 0 ==> open == NOTHING
    ensures support && mm.amountLeft > 0 ==>
      FillLayer(mm.amountLeft, ProcessedAmount(bin, swapForY), bin.price, swapForY) == Ok(fill)
    ensures support && mm.amountLeft > 0 && fill.amountLeft > 0 ==>
      FillLayer(fill.amountLeft, OpenAmount(bin, swapForY), bin.price, swapForY) == Ok(last)
  {
    hide FillLayer, LayerPays, Priced, MarketMakerAmount, ProcessedAmount, OpenAmount, OrderStock, MakerStock;
    StocksAre(bin, swapForY);
    var price := bin.price;
    var makers := MakerStock(bin, Bought(swapForY));
    var processedOrders := OrderStock(bin, bin.processedOrderRemainingAmount, swapForY, support);
    var openOrders := OrderStock(bin, bin.openOrderAmount, swapForY, support);
    LayerBounds(offered, makers, price, swapForY, maker);
    mm := LayerFill(maker.taken, offered - maker.taken, maker.paid);
    LayerBounds(mm.amountLeft, processedOrders, price, swapForY, processed);
    fill := LayerFill(processed.taken, mm.amountLeft - processed.taken, processed.paid);
    LayerBounds(fill.amountLeft, openOrders, price, swapForY, open);
    last := LayerFill(open.taken, fill.amountLeft - open.taken, open.paid);
    FillLayerIs(offered, makers, price, swapForY, mm);
    FillLayerIs(mm.amountLeft, processedOrders, price, swapForY, fill);
    FillLayerIs(fill.amountLeft, openOrders, price, swapForY, last);
    NoOrders(bin, swapForY, support);
    if !support || mm.amountLeft == 0 {
      IdleLayer(mm.amountLeft, processedOrders, price, swapForY, processed);
    }
    if !support || fill.amountLeft == 0 {
      IdleLayer(fill.amountLeft, openOrders, price, swapForY, open);
    }
  }

  lemma FilledInOrder(bin: Bin, offered: u64, swapForY: bool, support: bool, mm: LayerFill, fill: LayerFill,
                      last: LayerFill, f: BinFill)
    requires bin.price > 0 && FillLayer(offered, MarketMakerAmount(bin, swapForY), bin.price, swapForY) == Ok(mm)
    requires support && mm.amountLeft > 0 ==>
      FillLayer(mm.amountLeft, ProcessedAmount(bin, swapForY), bin.price, swapForY) == Ok(fill)
    requires support && mm.amountLeft > 0 && fill.amountLeft > 0 ==>
      FillLayer(fill.amountLeft, OpenAmount(bin, swapForY), bin.price, swapForY) == Ok(last)
    requires !support || mm.amountLeft == 0 ==> fill.amountIn == fill.amountOut == last.amountIn == last.amountOut == 0
    requires support && fill.amountLeft == 0 ==> last.amountIn == last.amountOut == 0
    requires f.amountIn == mm.amountIn + fill.amountIn + last.amountIn && f.mmAmountIn == mm.amountIn
    requires f.amountOut == mm.amountOut + fill.amountOut + last.amountOut && f.amountLeft == last.amountLeft
    requires mm.amountLeft == fill.amountIn + fill.amountLeft && fill.amountLeft == last.amountIn + last.amountLeft
    ensures FillAtBin(bin, offered, swapForY, support) == Ok(f)
  {
    hide FillLayer, MarketMakerAmount, ProcessedAmount, OpenAmount;
  }

  // ----- Who gets the fee

  /**
   The market makers' part of a fee is proportional to the input they took, rounded up. The protocol gets
   its share of that part, rounded down, and half of the rest, rounded up; the users get what remains.
   */
  ghost predicate Shares(fee: int, protocolShare: int, makerIn: int, totalIn: int, user: int, protocol: int) {
    exists makerFee, makerProtocol, placer ::
      && SharesBy(fee, protocolShare, makerIn, totalIn, makerFee, makerProtocol, placer)
      && protocol == makerProtocol + (fee - makerFee - placer)
      && user == (makerFee - makerProtocol) + placer
  }

  predicate SharesBy(fee: int, protocolShare: int, makerIn: int, totalIn: int, makerFee: int, makerProtocol: int,
                     placer: int)
  {
    && IsCeil(makerFee, fee * makerIn, totalIn)
    && IsFloor(makerProtocol, makerFee * protocolShare, 10_000)
    && IsFloor(placer, fee - makerFee, 2)
  }

  lemma SplitFeeShares(fee: u64, protocolShare: u16, makerIn: u64, totalIn: u64, s: FeeSplit)
    requires totalIn > 0 && makerIn <= totalIn
    ensures SplitFee(fee, protocolShare, makerIn, totalIn) == Ok(s)
       <==> Shares(fee, protocolShare, makerIn, totalIn, s.userFee, s.protocolFee)
  {
    hide SplitFee, SharesBy, CeilDiv;
    var makerFee, makerProtocol, placer := TheShares(fee, protocolShare, makerIn, totalIn);
    SplitFeeComputes(fee, protocolShare, makerIn, totalIn, makerFee, makerProtocol, placer);
    forall m, p, q | SharesBy(fee, protocolShare, makerIn, totalIn, m, p, q)
      ensures m == makerFee && p == makerProtocol && q == placer
    {
      OnlyShares(fee, protocolShare, makerIn, totalIn, m, p, q);
      OnlyShares(fee, protocolShare, makerIn, totalIn, makerFee, makerProtocol, placer);
    }
  }

  lemma TheShares(fee: u64, protocolShare: u16, makerIn: u64, totalIn: u64)
    returns (makerFee: u64, makerProtocol: nat, placer: nat)
    requires totalIn > 0 && makerIn <= totalIn
    ensures SharesBy(fee, protocolShare, makerIn, totalIn, makerFee, makerProtocol, placer)
    ensures makerFee <= fee && MulDiv(fee, makerIn, totalIn, Up) == Ok(makerFee)
    ensures makerProtocol == makerFee * protocolShare / 10_000 && placer == (fee - makerFee) / 2
  {
    hide IsCeil, IsFloor;
    var product: nat := fee * makerIn;
    MulMono(makerIn, totalIn, fee);
    CeilByRemainder(product, totalIn);
    CeilGalois(product, totalIn, fee);
    makerFee := CeilDiv(product, totalIn);
    ShareBound(makerFee, protocolShare);
    FloorBounds(makerFee * protocolShare, 10_000);
    makerProtocol, placer := makerFee * protocolShare / 10_000, (fee - makerFee) / 2;
    CeilIs(product, totalIn, makerFee);
    FloorIs(makerFee * protocolShare, 10_000, makerProtocol);
    FloorIs(fee - makerFee, 2, placer);
  }

  lemma OnlyShares(fee: nat, protocolShare: nat, makerIn: nat, totalIn: nat, makerFee: int, makerProtocol: int,
                   placer: int)
    requires totalIn > 0 && makerIn <= totalIn
    requires SharesBy(fee, protocolShare, makerIn, totalIn, makerFee, makerProtocol, placer)
    ensures makerFee == CeilDiv(fee * makerIn, totalIn) && 0 <= makerFee <= fee
    ensures makerProtocol == makerFee * protocolShare / 10_000 && placer == (fee - makerFee) / 2
  {
    hide IsCeil, IsFloor, CeilDiv;
    var product: nat := fee * makerIn;
    MulMono(makerIn, totalIn, fee);
    CeilGalois(product, totalIn, fee);
    CeilBounds(product, totalIn);
    CeilIs(product, totalIn, makerFee);
    ProductNat(makerFee, protocolShare);
    FloorIs(makerFee * protocolShare, 10_000, makerProtocol);
    FloorIs(fee - makerFee, 2, placer);
  }

  lemma SplitFeeComputes(fee: u64, protocolShare: u16, makerIn: u64, totalIn: u64, makerFee: u64, makerProtocol: nat,
                         placer: nat)
    requires totalIn > 0 && makerIn <= totalIn && makerFee <= fee && MulDiv(fee, makerIn, totalIn, Up) == Ok(makerFee)
    requires makerProtocol == makerFee * protocolShare / 10_000 && placer == (fee - makerFee) / 2
    ensures
      var protocol := makerProtocol + (fee - makerFee - placer);
      SplitFee(fee, protocolShare, makerIn, totalIn)
      == if protocol <= fee then Ok(FeeSplit(fee - protocol, protocol)) else Err(ArithmeticOverflow)
  {
    hide MulDiv;
    ShareBound(makerFee, protocolShare);
    assert (fee - makerFee) * LIMIT_ORDER_FEE_SHARE / BASIS_POINT_MAX == placer;
    if fee == 0 {
      ProductNat(makerFee, protocolShare);
    }
  }

  lemma ShareBound(part: u64, share: u16)
    ensures 0 <= part * share <= U128_MAX
  {
    MulMono(part, U64_MAX, share);
    MulMono(share, U16_MAX, U64_MAX);
  }

  // ----- What a bin takes, pays and charges

  /** The fee on a gross amount at a rate in parts of 10^9, rounded up. */
  predicate IsFee(rate: nat, gross: int, fee: int) {
    IsCeil(fee, gross * rate, 1_000_000_000)
  }

  /** No smaller gross amount leaves as much. */
  predicate IsLeastGross(rate: nat, gross: int, net: int) {
    (gross - 1) * (1_000_000_000 - rate) < net * 1_000_000_000
  }

  lemma FeeIs(rate: nat, gross: nat, fee: int)
    requires rate <= MAX_FEE_RATE
    ensures IsFee(rate, gross, fee) <==> fee == gross - Net(rate, gross)
  {
    hide CeilDiv, IsCeil;
    ProductNat(gross, rate);
    CeilIs(gross * rate, FEE_PRECISION, fee);
  }

  lemma LeastGrossIs(rate: nat, gross: nat, net: nat)
    requires rate <= MAX_FEE_RATE
    ensures Net(rate, gross) == net && IsLeastGross(rate, gross, net) <==> gross == Gross(rate, net)
  {
    GrossIsCeil(rate, net, gross);
    GrossIsCeil(rate, net, gross - 1);
    NetIsFloor(rate, gross, net);
    NetOfGross(rate, net);
  }

  /**
   A fee on the input: the bin is offered what the fee on everything leaves. It charges everything if that
   was used up, and else the least gross amount that leaves what it took; the fee is the fee on the charge.
   */
  ghost predicate ChargesInput(rate: nat, protocolShare: u16, offered: u64, f: BinFill, a: Accounting) {
    if f.amountIn == 0 then a == NO_FILL
    else
      && a.amountOut == f.amountOut
      && a.tradingFee == a.inputConsumed - f.amountIn && IsFee(rate, a.inputConsumed, a.tradingFee)
      && (if f.amountLeft == 0 then a.inputConsumed == offered else IsLeastGross(rate, a.inputConsumed, f.amountIn))
      && a.protocolFee <= a.tradingFee
      && Shares(a.tradingFee, protocolShare, f.mmAmountIn, f.amountIn, a.tradingFee - a.protocolFee, a.protocolFee)
  }

  /** A fee on the output: the bin is offered everything, and the fee comes off what it pays. */
  ghost predicate ChargesOutput(rate: Result<u128, Failure>, protocolShare: u16, f: BinFill, a: Accounting) {
    if f.amountIn == 0 then a == NO_FILL
    else
      && a.inputConsumed == f.amountIn
      && rate.Ok? && a.amountOut == f.amountOut - a.tradingFee && IsFee(rate.value, f.amountOut, a.tradingFee)
      && a.protocolFee <= a.tradingFee
      && Shares(a.tradingFee, protocolShare, f.mmAmountIn, f.amountIn, a.tradingFee - a.protocolFee, a.protocolFee)
  }

  ghost predicate BinAccount(bin: Bin, protocolShare: u16, rate: Result<u128, Failure>, offered: u64, swapForY: bool,
                             support: bool, feeOnInput: bool, a: Accounting)
  {
    if feeOnInput then
      && rate.Ok?
      && exists allFee, f: BinFill ::
           && IsFee(rate.value, offered, allFee) && BinPays(bin, offered - allFee, swapForY, support, f)
           && ChargesInput(rate.value, protocolShare, offered, f, a)
    else exists f: BinFill :: BinPays(bin, offered, swapForY, support, f) && ChargesOutput(rate, protocolShare, f, a)
  }

  /** The program's account of a bin is the one described, and it exists exactly when the program succeeds. */
  lemma FillBinExactInIs(lb: LbPair, bin: Bin, offered: u64, swapForY: bool, support: bool, feeOnInput: bool,
                         accumulator: u32, a: Accounting)
    requires offered > 0
    ensures FillBinExactIn(lb, bin, offered, swapForY, support, feeOnInput, accumulator) == Ok(a) <==>
            BinAccount(bin, lb.protocolShare, TotalFeeRate(lb, accumulator), offered, swapForY, support, feeOnInput, a)
  {
    hide FillBinExactIn, BinPays, ChargesInput, ChargesOutput, TotalFeeRate, IsFee;
    var rate := TotalFeeRate(lb, accumulator);
    if feeOnInput && rate.Ok? {
      NetMono(rate.value, offered, offered);
      var available: u64 := Net(rate.value, offered);
      InputAccountIs(lb, bin, offered, available, swapForY, support, accumulator, a);
      AfterFee(lb, bin, rate.value, offered, available, swapForY, support, a);
    } else if feeOnInput {
      NoRateNoAccount(lb, bin, offered, swapForY, support, accumulator);
    } else {
      forall f: BinFill
        ensures BinPays(bin, offered, swapForY, support, f) <==> FillAtBin(bin, offered, swapForY, support) == Ok(f)
      {
        FillAtBinIs(bin, offered, swapForY, support, f);
      }
      OutputAccountIs(lb, bin, offered, swapForY, support, accumulator, a);
    }
  }

  /** The only offer after the fee, and the only fill of it. */
  lemma AfterFee(lb: LbPair, bin: Bin, rate: u128, offered: u64, available: u64, swapForY: bool, support: bool,
                 a: Accounting)
    requires rate <= MAX_FEE_RATE && available == Net(rate, offered)
    ensures BinAccount(bin, lb.protocolShare, Ok(rate), offered, swapForY, support, true, a) <==>
      var fill := FillAtBin(bin, available, swapForY, support);
      fill.Ok? && ChargesInput(rate, lb.protocolShare, offered, fill.value, a)
  {
    hide BinPays, ChargesInput, IsFee, FillAtBin, Net;
    var fill := FillAtBin(bin, available, swapForY, support);
    FeeIs(rate, offered, offered - available);
    if fill.Ok? {
      FillAtBinIs(bin, available, swapForY, support, fill.value);
      assert BinPays(bin, offered - (offered - available), swapForY, support, fill.value);
    }
    if BinAccount(bin, lb.protocolShare, Ok(rate), offered, swapForY, support, true, a) {
      var allFee, f: BinFill :|
        && IsFee(rate, offered, allFee) && BinPays(bin, offered - allFee, swapForY, support, f)
        && ChargesInput(rate, lb.protocolShare, offered, f, a);
      FeeIs(rate, offered, allFee);
      assert offered - allFee == available;
      FillAtBinIs(bin, available, swapForY, support, f);
    }
  }

  lemma NoRateNoAccount(lb: LbPair, bin: Bin, offered: u64, swapForY: bool, support: bool, accumulator: u32)
    requires offered > 0 && TotalFeeRate(lb, accumulator).Err?
    ensures FillBinExactIn(lb, bin, offered, swapForY, support, true, accumulator).Err?
  {
    hide TotalFeeRate;
  }

  lemma InputAccountIs(lb: LbPair, bin: Bin, offered: u64, available: u64, swapForY: bool, support: bool,
                       accumulator: u32, a: Accounting)
    requires offered > 0 && TotalFeeRate(lb, accumulator).Ok? && available == Net(TotalFeeRate(lb, accumulator).value, offered)
    ensures
      var fill := FillAtBin(bin, available, swapForY, support);
      FillBinExactIn(lb, bin, offered, swapForY, support, true, accumulator) == Ok(a) <==>
      fill.Ok? && ChargesInput(TotalFeeRate(lb, accumulator).value, lb.protocolShare, offered, fill.value, a)
  {
    hide FillAtBin, TotalFeeRate, Net, Gross, SplitFee, ComputeFeeFromAmount, ChargeInput, Shares, IsFee, IsLeastGross;
    var rate := TotalFeeRate(lb, accumulator).value;
    FeesAreExact(lb, accumulator, offered);
    NetMono(rate, offered, offered);
    var fill := FillAtBin(bin, available, swapForY, support);
    if fill.Ok? {
      FillAtBinSound(bin, available, swapForY, support);
      var f := fill.value;
      if f.amountIn > 0 {
        ChargeInputNeverOverdraws(lb, accumulator, offered, f);
        FeeIs(rate, a.inputConsumed, a.tradingFee);
        LeastGrossIs(rate, a.inputConsumed, f.amountIn);
        SplitFeeShares(a.tradingFee, lb.protocolShare, f.mmAmountIn, f.amountIn,
                       FeeSplit(if a.protocolFee <= a.tradingFee then a.tradingFee - a.protocolFee else 0, a.protocolFee));
        SplitAddsUp(a.tradingFee, lb.protocolShare, f.mmAmountIn, f.amountIn);
      }
    }
  }

  lemma OutputAccountIs(lb: LbPair, bin: Bin, offered: u64, swapForY: bool, support: bool, accumulator: u32,
                        a: Accounting)
    requires offered > 0
    ensures
      var fill := FillAtBin(bin, offered, swapForY, support);
      FillBinExactIn(lb, bin, offered, swapForY, support, false, accumulator) == Ok(a) <==>
      fill.Ok? && ChargesOutput(TotalFeeRate(lb, accumulator), lb.protocolShare, fill.value, a)
  {
    hide FillAtBin, TotalFeeRate, Net, SplitFee, ComputeFeeFromAmount, Shares, IsFee;
    var fill, rate := FillAtBin(bin, offered, swapForY, support), TotalFeeRate(lb, accumulator);
    if fill.Ok? {
      FillAtBinSound(bin, offered, swapForY, support);
      var f := fill.value;
      NoRateNoFee(lb, accumulator, f.amountOut);
      if f.amountIn > 0 && rate.Ok? {
        FeesAreExact(lb, accumulator, f.amountOut);
        NetMono(rate.value, f.amountOut, f.amountOut);
        FeeIs(rate.value, f.amountOut, a.tradingFee);
        SplitFeeShares(a.tradingFee, lb.protocolShare, f.mmAmountIn, f.amountIn,
                       FeeSplit(if a.protocolFee <= a.tradingFee then a.tradingFee - a.protocolFee else 0, a.protocolFee));
        SplitAddsUp(a.tradingFee, lb.protocolShare, f.mmAmountIn, f.amountIn);
      }
    }
  }

  lemma NoRateNoFee(lb: LbPair, accumulator: u32, amount: u64)
    ensures TotalFeeRate(lb, accumulator).Err? ==> ComputeFeeFromAmount(lb, accumulator, amount).Err?
  {
    hide TotalFeeRate;
  }

  lemma SplitAddsUp(fee: u64, protocolShare: u16, makerIn: u64, totalIn: u64)
    requires totalIn > 0
    ensures
      var s := SplitFee(fee, protocolShare, makerIn, totalIn);
      s.Ok? ==> s.value.userFee + s.value.protocolFee == fee
  {
  }
}
