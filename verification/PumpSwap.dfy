/** The PumpSwap constant-product quote: fee tiers, the budget search, and the two curve directions. */
module PumpSwap {
  import opened Wrappers
  import opened Machine
  import opened Arithmetic

  const FEE_BPS_DENOMINATOR := 10_000
  const MAX_FEE_BPS := 10_000

  datatype Fees = Fees(lpBps: u64, protocolBps: u64, creatorBps: u64)
  datatype FeeTier = FeeTier(threshold: u128, fees: Fees)
  datatype Side = SellBase | BuyBase
  datatype Pool = Pool(baseReserve: u64, quoteReserve: u64)

  datatype Quote = Quote(
    requested: u64,
    consumed: u64,
    unspent: u64,
    amountOut: u64,
    lpFee: u64,
    protocolFee: u64,
    creatorFee: u64)

  datatype QuoteError =
    | InvalidTiers
    | NoFeeTiers
    | ZeroInput
    | EmptyReserves
    | FeesTooHigh
    | Overflow
    | RoundedToZero
    | ConsumedByFees
    | DepletesReserve
    | ExceededRequest

  function TotalBps(f: Fees): nat {
    f.lpBps + f.protocolBps + f.creatorBps
  }

  // ----- Fee tiers

  ghost predicate ValidTiers(tiers: seq<FeeTier>) {
    && (forall i :: 0 <= i < |tiers| ==> TotalBps(tiers[i].fees) <= MAX_FEE_BPS)
    && (forall i, j :: 0 <= i < j < |tiers| ==> tiers[i].threshold <= tiers[j].threshold)
  }

  method ValidateFeeTiers(tiers: seq<FeeTier>) returns (r: Result<(), QuoteError>)
    ensures r.Ok? <==> ValidTiers(tiers)
  {
    var previous: Option<u128> := None;
    for n := 0 to |tiers|
      invariant ValidTiers(tiers[..n])
      invariant previous == if n == 0 then None else Some(tiers[n - 1].threshold)
    {
      if TotalBps(tiers[n].fees) > MAX_FEE_BPS {
        return Err(InvalidTiers);
      }
      if previous.Some? && tiers[n].threshold < previous.value {
        return Err(InvalidTiers);
      }
      previous := Some(tiers[n].threshold);
    }
    assert tiers[..|tiers|] == tiers;
    return Ok(());
  }

  /** The tier a market capitalisation falls in: the last one it reaches, or the first if it reaches none. */
  method SelectFees(canonical: bool, flat: Fees, tiers: seq<FeeTier>, marketCap: u128)
    returns (r: Result<Fees, QuoteError>)
    requires ValidTiers(tiers)
    ensures !canonical ==> r == Ok(flat)
    ensures canonical ==> (r.Err? <==> tiers == [])
    ensures canonical && tiers != [] ==>
      exists i :: 0 <= i < |tiers| && r == Ok(tiers[i].fees)
        && forall j :: 0 <= j < |tiers| ==>
             (tiers[j].threshold <= marketCap <==> j <= i) || (i == 0 && marketCap < tiers[j].threshold)
  {
    if !canonical {
      return Ok(flat);
    }
    if tiers == [] {
      return Err(NoFeeTiers);
    }
    if marketCap < tiers[0].threshold {
      assert forall j :: 0 <= j < |tiers| ==> tiers[0].threshold <= tiers[j].threshold;
      return Ok(tiers[0].fees);
    }
    var k := |tiers| - 1;
    while k > 0 && marketCap < tiers[k].threshold
      invariant 0 <= k < |tiers|
      invariant forall j :: k < j < |tiers| ==> marketCap < tiers[j].threshold
    {
      k := k - 1;
    }
    assert forall j :: 0 <= j < k ==> tiers[j].threshold <= tiers[k].threshold;
    return Ok(tiers[k].fees);
  }

  // ----- Fees

  function CheckedU64(x: int): (r: Result<u64, QuoteError>)
  {
    if 0 <= x <= U64_MAX then Ok(x) else Err(Overflow)
  }

  /** Ceiling division as the program computes it. */
  function ProgramCeil(numerator: u128, denominator: nat): nat
    requires denominator > 0
  {
    if numerator == 0 then 0 else (numerator - 1) / denominator + 1
  }

  lemma ProgramCeilIsCeil(numerator: u128, denominator: nat)
    requires denominator > 0
    ensures ProgramCeil(numerator, denominator) == CeilDiv(numerator, denominator)
  {
    CeilBounds(numerator, denominator);
    if numerator > 0 {
      FloorBounds(numerator - 1, denominator);
      var q := ProgramCeil(numerator, denominator);
      CeilGalois(numerator, denominator, q);
      CeilGalois(numerator, denominator, q - 1);
    }
  }

  function FeeCeil(amount: u64, bps: u64): (r: Result<u64, QuoteError>)
  {
    if amount == 0 || bps == 0 then Ok(0)
    else
      ProductFits(amount, bps);
      CheckedU64(ProgramCeil(amount * bps, FEE_BPS_DENOMINATOR))
  }

  lemma ProductFits(a: u64, b: u64)
    ensures 0 <= a * b <= U128_MAX
  {
    MulMono(a, U64_MAX, b);
    MulMono(b, U64_MAX, U64_MAX);
  }

  /** The exact fee. */
  function Fee(amount: nat, bps: nat): nat {
    CeilDiv(amount * bps, FEE_BPS_DENOMINATOR)
  }

  /** The fee is the least amount that is at least `bps` parts in ten thousand. */
  lemma FeeIsLeast(amount: nat, bps: nat, x: int)
    ensures Fee(amount, bps) <= x <==> amount * bps <= x * 10_000
  {
    ProductIsNat(amount, bps);
    CeilGalois(amount * bps, FEE_BPS_DENOMINATOR, x);
  }

  lemma ProductIsNat(a: nat, b: nat)
    ensures a * b >= 0
  {
  }

  /** What a curve input costs with its three fees. */
  function Cost(fees: Fees, amount: nat): nat {
    amount + Fee(amount, fees.lpBps) + Fee(amount, fees.protocolBps) + Fee(amount, fees.creatorBps)
  }

  lemma FeeCeilIsFee(amount: u64, bps: u64)
    ensures FeeCeil(amount, bps) == CheckedU64(Fee(amount, bps))
    ensures bps <= FEE_BPS_DENOMINATOR ==> FeeCeil(amount, bps) == Ok(Fee(amount, bps)) && Fee(amount, bps) <= amount
  {
    ProductFits(amount, bps);
    if amount == 0 || bps == 0 {
      assert amount * bps == 0;
    }
    ProgramCeilIsCeil(amount * bps, FEE_BPS_DENOMINATOR);
    if bps <= FEE_BPS_DENOMINATOR {
      MulMono(bps, FEE_BPS_DENOMINATOR, amount);
      CeilGalois(amount * bps, FEE_BPS_DENOMINATOR, amount);
    }
  }

  lemma FeeMono(a: nat, b: nat, bps: nat)
    requires a <= b
    ensures Fee(a, bps) <= Fee(b, bps)
  {
  }

  lemma CostMono(fees: Fees, a: nat, b: nat)
    requires a <= b
    ensures Cost(fees, a) <= Cost(fees, b)
    ensures a <= Cost(fees, a)
  {
    hide Fee;
    FeeMono(a, b, fees.lpBps);
    FeeMono(a, b, fees.protocolBps);
    FeeMono(a, b, fees.creatorBps);
  }

  // ----- The budget search

  /** The greatest curve input up to `high` whose cost fits the budget. */
  function BestUpTo(fees: Fees, budget: nat, high: nat): (x: nat)
    decreases high
  {
    if high == 0 || Cost(fees, high) <= budget then high else BestUpTo(fees, budget, high - 1)
  }

  function BestInput(fees: Fees, budget: nat): nat {
    BestUpTo(fees, budget, budget)
  }

  lemma {:induction false} BestUpToIsGreatest(fees: Fees, budget: nat, high: nat, x: nat)
    requires x <= high
    ensures Cost(fees, BestUpTo(fees, budget, high)) <= budget
    ensures Cost(fees, x) <= budget ==> x <= BestUpTo(fees, budget, high)
    decreases high
  {
    hide Fee;
    ZeroCost(fees);
    if high > 0 && Cost(fees, high) > budget && x < high {
      BestUpToIsGreatest(fees, budget, high - 1, x);
    } else if high > 0 && Cost(fees, high) > budget {
      BestUpToIsGreatest(fees, budget, high - 1, high - 1);
    }
  }

  lemma ZeroCost(fees: Fees)
    ensures Cost(fees, 0) == 0
  {
  }

  /** An input fits the budget exactly when it does not exceed the best one. */
  lemma BestInputIsGreatest(fees: Fees, budget: nat, x: nat)
    ensures Cost(fees, x) <= budget <==> x <= BestInput(fees, budget)
  {
    hide Cost, BestUpTo;
    BestUpToIsGreatest(fees, budget, budget, budget);
    CostMono(fees, x, x);
    if x <= budget {
      BestUpToIsGreatest(fees, budget, budget, x);
    }
    if x <= BestInput(fees, budget) {
      CostMono(fees, x, BestInput(fees, budget));
    }
  }

  /** The program's binary search. Whatever the fees, a success is the optimum; with proper fees it always succeeds. */
  method MaxCurveInputForBudget(fees: Fees, budget: u64) returns (r: Result<u64, QuoteError>)
    ensures r.Ok? ==> r.value == BestInput(fees, budget)
    ensures TotalBps(fees) <= FEE_BPS_DENOMINATOR ==> r.Ok?
  {
    hide Cost, Fee, BestInput, FeeCeil;
    var low, high := 0, budget;
    BestInputIsGreatest(fees, budget, 0);
    ZeroCost(fees);
    BestInputIsGreatest(fees, budget, budget + 1);
    CostMono(fees, budget + 1, budget + 1);
    while low < high
      invariant 0 <= low <= high <= budget
      invariant low <= BestInput(fees, budget) <= high
    {
      var distance := high - low;
      var midpoint := low + distance / 2 + distance % 2;
      FeeCeilIsFee(midpoint, fees.lpBps);
      FeeCeilIsFee(midpoint, fees.protocolBps);
      FeeCeilIsFee(midpoint, fees.creatorBps);
      var lpFee :- FeeCeil(midpoint, fees.lpBps);
      var protocolFee :- FeeCeil(midpoint, fees.protocolBps);
      var creatorFee :- FeeCeil(midpoint, fees.creatorBps);
      var consumed := midpoint + lpFee + protocolFee + creatorFee;
      CostIs(fees, midpoint);
      BestInputIsGreatest(fees, budget, midpoint);
      if consumed <= U64_MAX && consumed <= budget {
        low := midpoint;
      } else {
        high := midpoint - 1;
      }
    }
    return Ok(low);
  }

  lemma CostIs(fees: Fees, amount: nat)
    ensures Cost(fees, amount) == amount + Fee(amount, fees.lpBps) + Fee(amount, fees.protocolBps) + Fee(amount, fees.creatorBps)
  {
  }

  // ----- The curve

  /** What the constant-product curve pays from one reserve for an input to the other. */
  function CurveOutput(reserveOut: nat, reserveIn: nat, amountIn: nat): nat
    requires reserveIn > 0
  {
    FloorDiv(reserveOut * amountIn, reserveIn + amountIn)
  }

  /** Base received for a curve input, and curve input needed for a base output. */
  function BaseFor(pool: Pool, curveInput: nat): nat
    requires pool.quoteReserve > 0
  {
    CurveOutput(pool.baseReserve, pool.quoteReserve, curveInput)
  }

  function CurveInputFor(pool: Pool, baseOut: nat): nat
    requires baseOut < pool.baseReserve
  {
    CeilDiv(pool.quoteReserve * baseOut, pool.baseReserve - baseOut)
  }

  /** The output is the greatest amount the curve covers. */
  lemma CurveOutputGalois(reserveOut: nat, reserveIn: nat, amountIn: nat, x: int)
    requires reserveIn > 0
    ensures x <= CurveOutput(reserveOut, reserveIn, amountIn) <==> x * (reserveIn + amountIn) <= reserveOut * amountIn
  {
    FloorGalois(reserveOut * amountIn, reserveIn + amountIn, x);
  }

  /** The curve never hands out a whole reserve. */
  lemma CurveOutputWithin(reserveOut: nat, reserveIn: nat, amountIn: nat)
    requires reserveIn > 0
    ensures CurveOutput(reserveOut, reserveIn, amountIn) <= reserveOut
    ensures reserveOut > 0 ==> CurveOutput(reserveOut, reserveIn, amountIn) < reserveOut
  {
    CurveOutputGalois(reserveOut, reserveIn, amountIn, reserveOut);
    CurveOutputGalois(reserveOut, reserveIn, amountIn, reserveOut + 1);
    MulStrictMono(amountIn, reserveIn + amountIn, reserveOut + 1);
    MulMono(reserveOut, reserveOut + 1, amountIn);
    if reserveOut > 0 {
      MulStrictMono(amountIn, reserveIn + amountIn, reserveOut);
    }
  }

  lemma CurveOutputMono(reserveOut: nat, reserveIn: nat, a: nat, b: nat)
    requires reserveIn > 0 && a <= b
    ensures CurveOutput(reserveOut, reserveIn, a) <= CurveOutput(reserveOut, reserveIn, b)
  {
    hide CurveOutput;
    var x: int := CurveOutput(reserveOut, reserveIn, a);
    CurveOutputGalois(reserveOut, reserveIn, a, x);
    CurveOutputGalois(reserveOut, reserveIn, b, x);
    CurveOutputWithin(reserveOut, reserveIn, a);
    RatioGrows(reserveOut, reserveIn, a, b, x);
  }

  lemma RatioGrows(reserveOut: int, reserveIn: int, a: int, b: int, x: int)
    requires x * (reserveIn + a) <= reserveOut * a && x <= reserveOut && a <= b
    ensures x * (reserveIn + b) <= reserveOut * b
  {
  }

  /** The two curve directions are adjoint: an input buys `baseOut` exactly when it covers the input asked for it. */
  lemma CurveDirectionsAdjoint(pool: Pool, baseOut: nat, curveInput: nat)
    requires pool.quoteReserve > 0 && baseOut < pool.baseReserve
    ensures CurveInputFor(pool, baseOut) <= curveInput <==> baseOut <= BaseFor(pool, curveInput)
  {
    hide CurveOutput;
    var B: int, Q: int, b: int, c: int := pool.baseReserve, pool.quoteReserve, baseOut, curveInput;
    CurveOutputGalois(B, Q, c, b);
    assert b * (Q + c) == Q * b + b * c;
    assert c * (B - b) == B * c - b * c;
    CeilGalois(Q * b, B - b, c);
  }

  /** Asking back for what an input bought never needs more than that input. */
  lemma ReverseWithinForward(pool: Pool, curveInput: nat)
    requires pool.quoteReserve > 0 && pool.baseReserve > 0
    ensures BaseFor(pool, curveInput) < pool.baseReserve
    ensures CurveInputFor(pool, BaseFor(pool, curveInput)) <= curveInput
  {
    hide CurveOutput, CurveInputFor;
    CurveOutputWithin(pool.baseReserve, pool.quoteReserve, curveInput);
    CurveDirectionsAdjoint(pool, BaseFor(pool, curveInput), curveInput);
  }

  // ----- Quotes

  function QuoteSell(pool: Pool, fees: Fees, amountIn: u64): (r: Result<Quote, QuoteError>)
    requires pool.baseReserve > 0
  {
    var raw :- CheckedU64(CurveOutput(pool.quoteReserve, pool.baseReserve, amountIn));
    if raw == 0 then Err(RoundedToZero) else
    var lpFee :- FeeCeil(raw, fees.lpBps);
    var protocolFee :- FeeCeil(raw, fees.protocolBps);
    var creatorFee :- FeeCeil(raw, fees.creatorBps);
    var total :- CheckedU64(lpFee + protocolFee + creatorFee);
    var out :- CheckedU64(raw - total);
    if out == 0 then Err(ConsumedByFees)
    else Ok(Quote(amountIn, amountIn, 0, out, lpFee, protocolFee, creatorFee))
  }

  /** The buy, once the budget search has found its curve input. */
  function QuoteBuyFrom(pool: Pool, fees: Fees, amountIn: u64, curveInput: u64): (r: Result<Quote, QuoteError>)
    requires pool.quoteReserve > 0
  {
    if curveInput == 0 then Err(RoundedToZero) else
    var out :- CheckedU64(BaseFor(pool, curveInput));
    if out == 0 || out >= pool.baseReserve then Err(DepletesReserve) else
    var raw :- CheckedU64(CurveInputFor(pool, out));
    var lpFee :- FeeCeil(raw, fees.lpBps);
    var protocolFee :- FeeCeil(raw, fees.protocolBps);
    var creatorFee :- FeeCeil(raw, fees.creatorBps);
    var consumed :- CheckedU64(raw + lpFee + protocolFee + creatorFee);
    if consumed > amountIn then Err(ExceededRequest)
    else Ok(Quote(amountIn, consumed, amountIn - consumed, out, lpFee, protocolFee, creatorFee))
  }

  function BestWithin(fees: Fees, amountIn: u64): (x: u64)
    ensures x <= amountIn
  {
    BestInputIsGreatest(fees, amountIn, BestInput(fees, amountIn));
    CostMono(fees, BestInput(fees, amountIn), BestInput(fees, amountIn));
    BestInput(fees, amountIn)
  }

  function QuoteExactInput(pool: Pool, fees: Fees, side: Side, amountIn: u64): (r: Result<Quote, QuoteError>)
  {
    if amountIn == 0 then Err(ZeroInput)
    else if pool.baseReserve == 0 || pool.quoteReserve == 0 then Err(EmptyReserves)
    else if TotalBps(fees) > FEE_BPS_DENOMINATOR then Err(FeesTooHigh)
    else if side == SellBase then QuoteSell(pool, fees, amountIn)
    else QuoteBuyFrom(pool, fees, amountIn, BestWithin(fees, amountIn))
  }

  /** The program's quote, with its search. */
  method QuoteInput(pool: Pool, fees: Fees, side: Side, amountIn: u64) returns (r: Result<Quote, QuoteError>)
    ensures r == QuoteExactInput(pool, fees, side, amountIn)
  {
    hide QuoteSell, QuoteBuyFrom, BestInput;
    if amountIn == 0 {
      return Err(ZeroInput);
    }
    if pool.baseReserve == 0 || pool.quoteReserve == 0 {
      return Err(EmptyReserves);
    }
    if TotalBps(fees) > FEE_BPS_DENOMINATOR {
      return Err(FeesTooHigh);
    }
    if side == SellBase {
      r := QuoteSell(pool, fees, amountIn);
    } else {
      var curveInput := MaxCurveInputForBudget(fees, amountIn);
      r := QuoteBuyFrom(pool, fees, amountIn, curveInput.value);
    }
  }

  predicate Quotable(pool: Pool, fees: Fees, amountIn: u64) {
    amountIn > 0 && pool.baseReserve > 0 && pool.quoteReserve > 0 && TotalBps(fees) <= FEE_BPS_DENOMINATOR
  }

  lemma FeesAreExact(fees: Fees, raw: u64)
    requires TotalBps(fees) <= FEE_BPS_DENOMINATOR
    ensures FeeCeil(raw, fees.lpBps) == Ok(Fee(raw, fees.lpBps))
    ensures FeeCeil(raw, fees.protocolBps) == Ok(Fee(raw, fees.protocolBps))
    ensures FeeCeil(raw, fees.creatorBps) == Ok(Fee(raw, fees.creatorBps))
  {
    FeeCeilIsFee(raw, fees.lpBps);
    FeeCeilIsFee(raw, fees.protocolBps);
    FeeCeilIsFee(raw, fees.creatorBps);
  }

  /** Each fee field is the fee of its own rate on the raw quote amount. */
  predicate EachFee(q: Quote, fees: Fees, raw: nat) {
    q.lpFee == Fee(raw, fees.lpBps) && q.protocolFee == Fee(raw, fees.protocolBps) && q.creatorFee == Fee(raw, fees.creatorBps)
  }

  /** No quote without input, reserves and proper fees. */
  lemma OnlyQuotable(pool: Pool, fees: Fees, side: Side, amountIn: u64)
    ensures !Quotable(pool, fees, amountIn) ==> QuoteExactInput(pool, fees, side, amountIn).Err?
  {
  }

  /**
   A sell pays what the curve pays for everything requested, less three fees on it; it fails only when
   the fees leave nothing.
   */
  lemma SellPaysCurveLessFees(pool: Pool, fees: Fees, amountIn: u64)
    requires Quotable(pool, fees, amountIn)
    ensures
      var raw := CurveOutput(pool.quoteReserve, pool.baseReserve, amountIn);
      var r := QuoteExactInput(pool, fees, SellBase, amountIn);
      && (r.Ok? <==> raw > Fee(raw, fees.lpBps) + Fee(raw, fees.protocolBps) + Fee(raw, fees.creatorBps))
      && (r.Ok? ==>
            var q := r.value;
            && EachFee(q, fees, raw) && q.amountOut == raw - q.lpFee - q.protocolFee - q.creatorFee
            && q.requested == q.consumed == amountIn && q.unspent == 0)
  {
    hide Fee, FeeCeil, CurveOutput;
    CurveOutputWithin(pool.quoteReserve, pool.baseReserve, amountIn);
    FeesAreExact(fees, CurveOutput(pool.quoteReserve, pool.baseReserve, amountIn));
  }

  /**
   A buy stays in its budget. It fails only by rounding to nothing: the reserve is never depleted, the
   request never exceeded and nothing overflows. It pays out what the best affordable curve input buys,
   and is charged the cost of the least curve input that buys it.
   */
  lemma BuyStaysInBudget(pool: Pool, fees: Fees, amountIn: u64)
    requires Quotable(pool, fees, amountIn)
    ensures
      var best := BestWithin(fees, amountIn);
      var out := BaseFor(pool, best);
      var r := QuoteExactInput(pool, fees, BuyBase, amountIn);
      && out < pool.baseReserve
      && (r.Ok? <==> out > 0)
      && (r.Ok? ==>
            var q := r.value;
            && q.amountOut == out && q.requested == amountIn == q.consumed + q.unspent
            && q.consumed == Cost(fees, CurveInputFor(pool, out)) <= Cost(fees, best)
            && q.consumed == CurveInputFor(pool, out) + q.lpFee + q.protocolFee + q.creatorFee
            && EachFee(q, fees, CurveInputFor(pool, out)))
  {
    hide Fee, FeeCeil, BestInput, CurveOutput, CurveInputFor;
    var best := BestWithin(fees, amountIn);
    BestInputIsGreatest(fees, amountIn, best);
    ReverseWithinForward(pool, best);
    var out := BaseFor(pool, best);
    if best == 0 {
      CurveOutputGalois(pool.baseReserve, pool.quoteReserve, best, 1);
    }
    if out > 0 {
      var raw := CurveInputFor(pool, out);
      FeesAreExact(fees, raw);
      CostMono(fees, raw, best);
    }
  }

  /** A larger budget never buys less. */
  lemma BuyMonotone(pool: Pool, fees: Fees, a: u64, b: u64)
    requires Quotable(pool, fees, a) && a <= b
    requires QuoteExactInput(pool, fees, BuyBase, a).Ok?
    ensures QuoteExactInput(pool, fees, BuyBase, b).Ok?
    ensures QuoteExactInput(pool, fees, BuyBase, a).value.amountOut <= QuoteExactInput(pool, fees, BuyBase, b).value.amountOut
  {
    hide QuoteExactInput, CurveOutput, Cost, BestInput;
    BuyStaysInBudget(pool, fees, a);
    BuyStaysInBudget(pool, fees, b);
    BestInputIsGreatest(fees, a, BestWithin(fees, a));
    BestInputIsGreatest(fees, b, BestWithin(fees, a));
    CurveOutputMono(pool.baseReserve, pool.quoteReserve, BestWithin(fees, a), BestWithin(fees, b));
  }

  // ----- The reserve product

  lemma BuyKeepsProduct(pool: Pool, baseOut: nat)
    requires baseOut < pool.baseReserve
    ensures pool.baseReserve * pool.quoteReserve
         <= (pool.baseReserve - baseOut) * (pool.quoteReserve + CurveInputFor(pool, baseOut))
  {
  }

  lemma SellKeepsProduct(base: nat, quote: nat, baseIn: nat)
    requires base > 0
    ensures base * quote <= (base + baseIn) * (quote - CurveOutput(quote, base, baseIn))
    ensures CurveOutput(quote, base, baseIn) <= quote
  {
  }

  /** The reserves after the raw curve amounts of a trade. */
  function AfterBuy(pool: Pool, q: Quote): (int, int) {
    (pool.baseReserve - q.amountOut, pool.quoteReserve + q.consumed - q.lpFee - q.protocolFee - q.creatorFee)
  }

  function AfterSell(pool: Pool, q: Quote): (int, int) {
    (pool.baseReserve + q.consumed, pool.quoteReserve - q.amountOut - q.lpFee - q.protocolFee - q.creatorFee)
  }

  /** No successful quote lets the product of the reserves fall. */
  lemma ProductNeverFalls(pool: Pool, fees: Fees, side: Side, amountIn: u64)
    requires QuoteExactInput(pool, fees, side, amountIn).Ok?
    ensures
      var q := QuoteExactInput(pool, fees, side, amountIn).value;
      var after := if side == BuyBase then AfterBuy(pool, q) else AfterSell(pool, q);
      && after.0 > 0 && after.1 >= 0
      && pool.baseReserve * pool.quoteReserve <= after.0 * after.1
  {
    hide Fee, FeeCeil, BestInput, Cost, CurveInputFor, CurveOutput;
    if side == BuyBase {
      BuyStaysInBudget(pool, fees, amountIn);
      BuyKeepsProduct(pool, BaseFor(pool, BestWithin(fees, amountIn)));
    } else {
      SellKeepsProduct(pool.baseReserve, pool.quoteReserve, amountIn);
    }
  }

  /** Selling what was bought, at the reserves the purchase left, never returns more than it cost. */
  lemma RoundTripNeverGains(pool: Pool, fees: Fees, amountIn: u64)
    requires QuoteExactInput(pool, fees, BuyBase, amountIn).Ok?
    ensures
      var q := QuoteExactInput(pool, fees, BuyBase, amountIn).value;
      var after := AfterBuy(pool, q);
      && after.0 > 0 && after.1 >= 0
      && CurveOutput(after.1, after.0, q.amountOut) <= q.consumed - q.lpFee - q.protocolFee - q.creatorFee <= q.consumed
  {
    hide Fee, FeeCeil, BestInput, Cost, CurveInputFor, CurveOutput;
    BuyStaysInBudget(pool, fees, amountIn);
    SellBackWithin(pool, BaseFor(pool, BestWithin(fees, amountIn)));
  }

  /**
   Over two quotes: selling what a buy bought, in the pool the buy left, pays at most what the buy was
   charged on the curve, and less by every fee.
   */
  lemma BuyThenSell(pool: Pool, fees: Fees, amountIn: u64, left: Pool)
    requires QuoteExactInput(pool, fees, BuyBase, amountIn).Ok?
    requires (left.baseReserve, left.quoteReserve) == AfterBuy(pool, QuoteExactInput(pool, fees, BuyBase, amountIn).value)
    requires
      var bought := QuoteExactInput(pool, fees, BuyBase, amountIn).value;
      QuoteExactInput(left, fees, SellBase, bought.amountOut).Ok?
    ensures
      var bought := QuoteExactInput(pool, fees, BuyBase, amountIn).value;
      var sold := QuoteExactInput(left, fees, SellBase, bought.amountOut).value;
      sold.amountOut + sold.lpFee + sold.protocolFee + sold.creatorFee
      <= bought.consumed - bought.lpFee - bought.protocolFee - bought.creatorFee
  {
    hide QuoteExactInput, CurveOutput, Fee;
    RoundTripNeverGains(pool, fees, amountIn);
    var bought := QuoteExactInput(pool, fees, BuyBase, amountIn).value;
    OnlyQuotable(left, fees, SellBase, bought.amountOut);
    SellPaysCurveLessFees(left, fees, bought.amountOut);
  }

  /** The other way round: buying with all that a sell paid, in the pool the sell left, returns at most what was sold. */
  lemma SellThenBuy(pool: Pool, fees: Fees, amountIn: u64, left: Pool)
    requires QuoteExactInput(pool, fees, SellBase, amountIn).Ok?
    requires (left.baseReserve, left.quoteReserve) == AfterSell(pool, QuoteExactInput(pool, fees, SellBase, amountIn).value)
    requires
      var sold := QuoteExactInput(pool, fees, SellBase, amountIn).value;
      QuoteExactInput(left, fees, BuyBase, sold.amountOut).Ok?
    ensures
      var sold := QuoteExactInput(pool, fees, SellBase, amountIn).value;
      QuoteExactInput(left, fees, BuyBase, sold.amountOut).value.amountOut <= amountIn
  {
    hide QuoteExactInput, CurveOutput, Fee;
    OnlyQuotable(pool, fees, SellBase, amountIn);
    SellPaysCurveLessFees(pool, fees, amountIn);
    var sold := QuoteExactInput(pool, fees, SellBase, amountIn).value;
    var raw := CurveOutput(pool.quoteReserve, pool.baseReserve, amountIn);
    OnlyQuotable(left, fees, BuyBase, sold.amountOut);
    BuyStaysInBudget(left, fees, sold.amountOut);
    var best := BestWithin(fees, sold.amountOut);
    CurveOutputMono(left.baseReserve, left.quoteReserve, best, raw);
    BuyBackWithin(pool, amountIn);
  }

  lemma BuyBackWithin(pool: Pool, baseIn: nat)
    requires pool.baseReserve > 0
    requires CurveOutput(pool.quoteReserve, pool.baseReserve, baseIn) < pool.quoteReserve
    ensures
      var raw := CurveOutput(pool.quoteReserve, pool.baseReserve, baseIn);
      CurveOutput(pool.baseReserve + baseIn, pool.quoteReserve - raw, raw) <= baseIn
  {
    hide CurveOutput;
    var B: int, Q: int := pool.baseReserve, pool.quoteReserve;
    var raw: int := CurveOutput(Q, B, baseIn);
    CurveOutputGalois(Q, B, baseIn, raw);
    CurveOutputGalois(B + baseIn, Q - raw, raw, baseIn + 1);
    assert raw * (B + baseIn) == (B + baseIn) * raw;
    assert (baseIn + 1) * Q == Q * baseIn + Q;
  }

  lemma SellBackWithin(pool: Pool, baseOut: nat)
    requires baseOut < pool.baseReserve
    ensures
      var raw := CurveInputFor(pool, baseOut);
      CurveOutput(pool.quoteReserve + raw, pool.baseReserve - baseOut, baseOut) <= raw
  {
    hide CurveOutput;
    var B: int, Q: int, b: int, raw: int := pool.baseReserve, pool.quoteReserve, baseOut, CurveInputFor(pool, baseOut);
    CeilBounds(Q * b, B - b);
    CurveOutputGalois(Q + raw, B - b, b, raw + 1);
    assert (Q + raw) * b == Q * b + raw * b;
    assert raw * (B - b) == raw * B - raw * b;
    assert (raw + 1) * B == raw * B + B;
  }
}
