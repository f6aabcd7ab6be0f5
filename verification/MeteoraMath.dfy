/** The rounded conversions, fees and volatility of meteora.rs, with every overflow check. */
module MeteoraMath {
  import opened Wrappers
  import opened Machine
  import opened Arithmetic
  import opened MeteoraTypes

  datatype Rounding = Up | Down

  function Checked(x: int, limit: nat): (r: Result<nat, Failure>)
  {
    if 0 <= x <= limit then Ok(x) else Err(ArithmeticOverflow)
  }

  function MulDiv(x: u128, y: u128, denominator: u128, rounding: Rounding): (r: Result<u128, Failure>)
  {
    if denominator == 0 then Err(ArithmeticOverflow) else
    var product := x * y;
    var quotient := product / denominator;
    var remainder := product % denominator;
    Checked(if rounding == Up && remainder != 0 then quotient + 1 else quotient, U128_MAX)
  }

  function AmountOut(amountIn: u64, price: u128, swapForY: bool, rounding: Rounding): (r: Result<u64, Failure>)
  {
    var out :- if swapForY then MulDiv(price, amountIn, Q64_ONE, rounding)
               else MulDiv(amountIn, Q64_ONE, price, rounding);
    Checked(out, U64_MAX)
  }

  function AmountIn(amountOut: u64, price: u128, swapForY: bool, rounding: Rounding): (r: Result<u64, Failure>)
  {
    var amount :- if swapForY then MulDiv(amountOut, Q64_ONE, price, rounding)
                  else MulDiv(amountOut, price, Q64_ONE, rounding);
    Checked(amount, U64_MAX)
  }

  /** Output units per input unit at a bin price, as numerator and denominator. */
  function RateNumerator(price: u128, swapForY: bool): nat {
    if swapForY then price else Q64_ONE
  }

  function RateDenominator(price: u128, swapForY: bool): nat {
    if swapForY then Q64_ONE else price
  }

  /** Rounding an input down gives the most output its exact value covers. */
  lemma AmountOutIsFloor(amountIn: u64, price: u128, swapForY: bool)
    requires price > 0
    ensures
      var exact := (amountIn * RateNumerator(price, swapForY)) / RateDenominator(price, swapForY);
      AmountOut(amountIn, price, swapForY, Down) == (if exact <= U64_MAX then Ok(exact) else Err(ArithmeticOverflow))
  {
    if swapForY {
      assert price * amountIn == amountIn * price;
      FloorBounds(amountIn * price, Q64_ONE);
    } else {
      FloorBounds(amountIn * Q64_ONE, price);
    }
  }

  /** Rounding an output up gives the least input whose exact value covers it. */
  lemma AmountInIsCeil(amountOut: u64, price: u128, swapForY: bool)
    requires price > 0
    ensures
      var exact := CeilDiv(amountOut * RateDenominator(price, swapForY), RateNumerator(price, swapForY));
      AmountIn(amountOut, price, swapForY, Up) == (if exact <= U64_MAX then Ok(exact) else Err(ArithmeticOverflow))
  {
    hide CeilDiv;
    if swapForY {
      CeilByRemainder(amountOut * Q64_ONE, price);
    } else {
      CeilByRemainder(amountOut * price, Q64_ONE);
    }
  }

  function BaseFeeRate(lb: LbPair): (r: Result<u128, Failure>)
  {
    var power :- Checked(Pow10(lb.baseFeePowerFactor), U128_MAX);
    var rate :- Checked(lb.baseFactor * lb.binStep, U128_MAX);
    var scaled :- Checked(rate * 10, U128_MAX);
    Checked(scaled * power, U128_MAX)
  }

  function VariableFeeRate(lb: LbPair, accumulator: u32): (r: Result<u128, Failure>)
  {
    if lb.variableFeeControl == 0 then Ok(0) else
    var product :- Checked(accumulator * lb.binStep, U128_MAX);
    var square :- Checked(product * product, U128_MAX);
    var fee :- Checked(lb.variableFeeControl * square, U128_MAX);
    var numerator :- Checked(fee + (VARIABLE_FEE_DENOMINATOR - 1), U128_MAX);
    Ok(numerator / VARIABLE_FEE_DENOMINATOR)
  }

  function TotalFeeRate(lb: LbPair, accumulator: u32): (r: Result<u128, Failure>)
    ensures r.Ok? ==> r.value <= MAX_FEE_RATE
  {
    var base :- BaseFeeRate(lb);
    var variable :- VariableFeeRate(lb, accumulator);
    var total :- Checked(base + variable, U128_MAX);
    Ok(if total <= MAX_FEE_RATE then total else MAX_FEE_RATE)
  }

  /** No rate of a pool without a base fee can overflow. */
  lemma VariableRateExists(lb: LbPair, accumulator: u32)
    ensures VariableFeeRate(lb, accumulator).Ok?
  {
    var product := accumulator * lb.binStep;
    MulMono(lb.binStep, U16_MAX, accumulator);
    MulMono(accumulator, U32_MAX, U16_MAX);
    MulMono(product, U32_MAX * U16_MAX, product);
    MulMono(product, U32_MAX * U16_MAX, U32_MAX * U16_MAX);
    var square := product * product;
    MulMono(lb.variableFeeControl, U32_MAX, square);
    MulMono(square, (U32_MAX * U16_MAX) * (U32_MAX * U16_MAX), U32_MAX);
  }

  /** A rate is zero exactly without a base fee, and without volatility or any weight on it. */
  lemma ZeroRate(lb: LbPair, accumulator: u32)
    ensures TotalFeeRate(lb, accumulator) == Ok(0) <==>
      BaseFeeRate(lb) == Ok(0) && (lb.variableFeeControl == 0 || lb.binStep == 0 || accumulator == 0)
  {
    hide BaseFeeRate;
    VariableRateExists(lb, accumulator);
    ZeroVariableRate(lb, accumulator);
  }

  lemma ZeroVariableRate(lb: LbPair, accumulator: u32)
    requires VariableFeeRate(lb, accumulator).Ok?
    ensures VariableFeeRate(lb, accumulator).value == 0
       <==> lb.variableFeeControl == 0 || lb.binStep == 0 || accumulator == 0
  {
  }

  /** The fee added on top of a net amount. */
  function ComputeFee(lb: LbPair, accumulator: u32, amount: u64): (r: Result<u64, Failure>)
  {
    var rate :- TotalFeeRate(lb, accumulator);
    var denominator := FEE_PRECISION - rate;
    var product :- Checked(amount * rate, U128_MAX);
    var numerator :- Checked(product + (denominator - 1), U128_MAX);
    Checked(numerator / denominator, U64_MAX)
  }

  /** The fee taken out of a gross amount. */
  function ComputeFeeFromAmount(lb: LbPair, accumulator: u32, amountWithFees: u64): (r: Result<u64, Failure>)
    ensures r.Ok? ==> TotalFeeRate(lb, accumulator).Ok?
  {
    var rate :- TotalFeeRate(lb, accumulator);
    var product :- Checked(amountWithFees * rate, U128_MAX);
    var numerator :- Checked(product + (FEE_PRECISION - 1), U128_MAX);
    Checked(numerator / FEE_PRECISION, U64_MAX)
  }

  /** What a net amount costs and what a gross amount leaves, at a fee rate. */
  function Gross(rate: nat, net: nat): nat
    requires rate <= MAX_FEE_RATE
  {
    net + CeilDiv(net * rate, FEE_PRECISION - rate)
  }

  function Net(rate: nat, gross: nat): int
    requires rate <= MAX_FEE_RATE
  {
    gross - CeilDiv(gross * rate, FEE_PRECISION)
  }

  lemma NetIsFloor(rate: nat, gross: nat, n: int)
    requires rate <= MAX_FEE_RATE
    ensures n <= Net(rate, gross) <==> n * FEE_PRECISION <= gross * (FEE_PRECISION - rate)
  {
  }

  lemma GrossIsCeil(rate: nat, net: nat, g: int)
    requires rate <= MAX_FEE_RATE
    ensures Gross(rate, net) <= g <==> net * FEE_PRECISION <= g * (FEE_PRECISION - rate)
  {
    var d := FEE_PRECISION - rate;
    CeilGalois(net * rate, d, g - net);
    assert (g - net) * d == g * d - net * d;
    assert net * d == net * FEE_PRECISION - net * rate;
  }

  /**
   The two fee directions are adjoint: a gross amount leaves at least `n` exactly when it covers
   the gross price of `n`.
   */
  lemma FeeDirectionsAdjoint(rate: nat, n: nat, g: nat)
    requires rate <= MAX_FEE_RATE
    ensures n <= Net(rate, g) <==> Gross(rate, n) <= g
  {
    NetIsFloor(rate, g, n);
    GrossIsCeil(rate, n, g);
  }

  /** Paying the gross price of `n` leaves exactly `n`, and the next unit costs strictly more. */
  lemma NetOfGross(rate: nat, n: nat)
    requires rate <= MAX_FEE_RATE
    ensures Net(rate, Gross(rate, n)) == n
    ensures Gross(rate, n) < Gross(rate, n + 1)
  {
    var g: int := Gross(rate, n);
    var d := FEE_PRECISION - rate;
    FeeDirectionsAdjoint(rate, n, g);
    GrossIsCeil(rate, n, g - 1);
    NetIsFloor(rate, g, n + 1);
    assert (g - 1) * d == g * d - d;
    assert (n + 1) * FEE_PRECISION == n * FEE_PRECISION + FEE_PRECISION;
    GrossIsCeil(rate, n + 1, g);
  }

  lemma NetMono(rate: nat, g: nat, g': nat)
    requires rate <= MAX_FEE_RATE && g <= g'
    ensures 0 <= Net(rate, g) <= Net(rate, g')
    ensures Net(rate, g) <= g
  {
    NetIsFloor(rate, g, Net(rate, g));
    NetIsFloor(rate, g', Net(rate, g));
    NetIsFloor(rate, g, 0);
    MulMono(g, g', FEE_PRECISION - rate);
  }

  /** Nothing is left after the fee exactly when the amount is zero, or one unit under a fee. */
  lemma NetIsZero(rate: nat, g: nat)
    requires rate <= MAX_FEE_RATE
    ensures Net(rate, g) <= 0 <==> g == 0 || (g == 1 && rate > 0)
  {
    NetIsFloor(rate, g, 1);
    if g >= 2 {
      MulMono(2, g, FEE_PRECISION - rate);
    }
  }

  /** With a valid rate both checked fees succeed, and they are the two adjoint directions. */
  lemma FeesAreExact(lb: LbPair, accumulator: u32, amount: u64)
    requires TotalFeeRate(lb, accumulator).Ok?
    ensures
      var rate := TotalFeeRate(lb, accumulator).value;
      && ComputeFeeFromAmount(lb, accumulator, amount) == Ok(amount - Net(rate, amount))
      && ComputeFee(lb, accumulator, amount) == Ok(Gross(rate, amount) - amount)
  {
    hide TotalFeeRate;
    var rate := TotalFeeRate(lb, accumulator).value;
    MulMono(rate, MAX_FEE_RATE, amount);
    assert amount * rate <= amount * MAX_FEE_RATE;
    NetMono(rate, amount, amount);
    var d := FEE_PRECISION - rate;
    CeilGalois(amount * rate, d, amount);
    MulMono(rate, d, amount);
    assert CeilDiv(amount * rate, d) <= amount;
  }

  function UpdateVolatilityReference(lb: LbPair, currentTimestamp: i64): (r: Result<Volatility, Failure>)
  {
    var elapsed := currentTimestamp - lb.lastUpdateTimestamp;
    if !(I64_MIN <= elapsed <= I64_MAX) then Err(ArithmeticOverflow)
    else if elapsed < lb.filterPeriod then
      Ok(Volatility(lb.volatilityAccumulator, lb.volatilityReference, lb.indexReference))
    else if elapsed < lb.decayPeriod then
      var decayed :- Checked(lb.volatilityAccumulator * lb.reductionFactor, U64_MAX);
      var reference :- Checked(decayed / BASIS_POINT_MAX, U32_MAX);
      Ok(Volatility(lb.volatilityAccumulator, reference, lb.activeId))
    else
      Ok(Volatility(lb.volatilityAccumulator, 0, lb.activeId))
  }

  function UpdateVolatilityAccumulator(state: Volatility, maximum: u32, binId: i32): (r: Result<Volatility, Failure>)
  {
    var delta := if state.indexReference >= binId then state.indexReference - binId
                 else binId - state.indexReference;
    var scaled :- Checked(delta * BASIS_POINT_MAX, U64_MAX);
    var total :- Checked(state.reference + scaled, U64_MAX);
    Ok(state.(accumulator := if total <= maximum then total else maximum))
  }

  function FeeOnInput(collectFeeMode: u8, swapForY: bool): (r: Result<bool, Failure>)
  {
    match collectFeeMode
    case 0 => Ok(true)
    case 1 => Ok(!swapForY)
    case _ => Err(UnsupportedCollectFeeMode)
  }
}
