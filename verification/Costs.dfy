/** The cost side of a candidate: priority-fee percentile and conservative conversion into a stablecoin. */
module Costs {
  import opened Wrappers
  import opened Machine
  import opened Arithmetic
  import opened Sequences

  const MAX_DECIMAL_POWER := 38

  // ---------------------------------------------------------------- powers of ten

  lemma {:induction false} Pow10Mono(m: nat, n: nat)
    requires m <= n
    ensures Pow10(m) <= Pow10(n)
    decreases n
  {
    if m < n {
      Pow10Mono(m, n - 1);
    }
  }

  lemma Pow10Fits()
    ensures Pow10(MAX_DECIMAL_POWER) == 100_000_000_000_000_000_000_000_000_000_000_000_000
  {
    assert Pow10(5) == 100_000;
    assert Pow10(10) == 10_000_000_000;
    assert Pow10(15) == 1_000_000_000_000_000;
    assert Pow10(20) == 100_000_000_000_000_000_000;
    assert Pow10(25) == 10_000_000_000_000_000_000_000_000;
    assert Pow10(30) == 1_000_000_000_000_000_000_000_000_000_000;
    assert Pow10(35) == 100_000_000_000_000_000_000_000_000_000_000_000;
  }

  datatype CostError = PowerTooLarge | Overflow | ZeroPrice | ConfidenceTooWide

  function CheckedPow10(exponent: nat): (r: Result<u128, CostError>)
    ensures r.Ok? ==> r.value == Pow10(exponent) && r.value >= 1
  {
    if exponent > MAX_DECIMAL_POWER then Err(PowerTooLarge)
    else
      Pow10Fits();
      Pow10Mono(exponent, MAX_DECIMAL_POWER);
      Ok(Pow10(exponent))
  }

  /** The program's loop; its overflow check never fires below the bound. */
  method ComputePow10(exponent: nat) returns (r: Result<u128, CostError>)
    ensures r == CheckedPow10(exponent)
  {
    if exponent > MAX_DECIMAL_POWER {
      return Err(PowerTooLarge);
    }
    Pow10Fits();
    Pow10Mono(exponent, MAX_DECIMAL_POWER);
    var value: u128 := 1;
    for i := 0 to exponent
      invariant value == Pow10(i)
    {
      Pow10Mono(i + 1, MAX_DECIMAL_POWER);
      value := value * 10;
    }
    return Ok(value);
  }

  // ---------------------------------------------------------------- conservative conversion

  datatype UsdPrice = UsdPrice(price: u64, confidence: u64, exponent: i32)

  /** A product in 128 bits. */
  function CheckedProduct(a: nat, b: nat): (r: Result<nat, CostError>)
    ensures r.Ok? ==> r.value == a * b
    ensures r.Ok? && a > 0 && b > 0 ==> r.value > 0
  {
    var p: nat := a * b;
    if p > U128_MAX then Err(Overflow) else Ok(p)
  }

  /** The fraction that is rounded up: lamports at the upper SOL price over one raw unit at the lower stable price. */
  function CostFraction(lamports: u64, stableDecimals: u8, sol: UsdPrice, stable: UsdPrice): Result<(nat, nat),
                        CostError>
    ensures var r := CostFraction(lamports, stableDecimals, sol, stable); r.Ok? ==> r.value.1 > 0
  {
    hide CheckedProduct;
    if sol.price == 0 || stable.price == 0 then Err(ZeroPrice)
    else if sol.price + sol.confidence > U64_MAX then Err(Overflow)
    else if stable.price <= stable.confidence then Err(ConfidenceTooWide)
    else
      var upper, lower := sol.price + sol.confidence, stable.price - stable.confidence;
      var scale :- CheckedPow10(stableDecimals);
      var cost :- CheckedProduct(lamports, upper);
      var numerator :- CheckedProduct(cost, scale);
      var denominator :- CheckedProduct(1_000_000_000, lower);
      var delta := sol.exponent - stable.exponent;
      if delta > 0 then
        var power :- CheckedPow10(delta);
        var scaled :- CheckedProduct(numerator, power);
        Ok((scaled, denominator))
      else if delta < 0 then
        var power :- CheckedPow10(-delta);
        var scaled :- CheckedProduct(denominator, power);
        Ok((numerator, scaled))
      else Ok((numerator, denominator))
  }

  /** Quotient, plus one when something remains. */
  function RoundedUp(numerator: nat, denominator: nat): (raw: nat)
    requires denominator > 0
    ensures raw == CeilDiv(numerator, denominator)
  {
    CeilByRemainder(numerator, denominator);
    numerator / denominator + if numerator % denominator == 0 then 0 else 1
  }

  function ConservativeLamportsToStableRaw(lamports: u64, stableDecimals: u8, sol: UsdPrice,
                                        stable: UsdPrice): Result<u64, CostError> {
    hide CostFraction, RoundedUp;
    var (numerator, denominator) :- CostFraction(lamports, stableDecimals, sol, stable);
    var raw: nat := RoundedUp(numerator, denominator);
    if raw > U64_MAX then Err(Overflow) else Ok(raw)
  }

  /** Ten to any integer power. */
  function RealPow10(e: int): (r: real)
    decreases if e >= 0 then e else -e
  {
    if e == 0 then 1.0 else if e > 0 then 10.0 * RealPow10(e - 1) else RealPow10(e + 1) / 10.0
  }

  lemma RealPow10Step(e: int)
    ensures RealPow10(e + 1) == 10.0 * RealPow10(e)
  {
  }

  lemma {:induction false} RealPow10Positive(e: int)
    ensures RealPow10(e) > 0.0
    decreases if e >= 0 then e else -e
  {
    if e > 0 {
      RealPow10Positive(e - 1);
    } else if e < 0 {
      RealPow10Positive(e + 1);
    }
  }

  lemma RealPow10Zero()
    ensures RealPow10(0) == 1.0
  {
  }

  lemma TenAcross(x: real, y: real)
    ensures 10.0 * (x * y) == x * (10.0 * y)
  {
  }

  lemma {:induction false} RealPow10Add(a: int, b: int)
    ensures RealPow10(a + b) == RealPow10(a) * RealPow10(b)
    decreases if b >= 0 then b else -b
  {
    hide RealPow10;
    if b > 0 {
      RealPow10Add(a, b - 1);
      TenAcross(RealPow10(a), RealPow10(b - 1));
      RealPow10Step(a + b - 1);
      RealPow10Step(b - 1);
    } else if b < 0 {
      RealPow10Add(a, b + 1);
      TenAcross(RealPow10(a), RealPow10(b));
      RealPow10Step(a + b);
      RealPow10Step(b);
    } else {
      RealPow10Zero();
    }
  }

  lemma {:induction false} RealPow10OfNat(n: nat)
    ensures RealPow10(n) == Pow10(n) as real
  {
    if n > 0 {
      RealPow10OfNat(n - 1);
    }
  }

  /** `raw` stable units, each worth `q`, pay for the lamports at `p` dollars per SOL (both scaled by their exponents). */
  ghost predicate Covers(raw: nat, lamports: u64, stableDecimals: u8, p: real, solExponent: i32, q: real,
                         stableExponent: i32) {
    raw as real * q * RealPow10(stableExponent - stableDecimals) >= lamports as real * p * RealPow10(solExponent - 9)
  }

  /** Enough at every SOL price up to the upper bound and every stable price from the lower bound on. */
  ghost predicate AlwaysCovers(raw: nat, lamports: u64, stableDecimals: u8, sol: UsdPrice, stable: UsdPrice) {
    forall p: real, q: real ::
      0.0 <= p <= (sol.price + sol.confidence) as real && q >= (stable.price - stable.confidence) as real ==>
        Covers(raw, lamports, stableDecimals, p, sol.exponent, q, stable.exponent)
  }

  lemma ScaleInequality(x: real, y: real, k: real)
    requires k > 0.0
    ensures x >= y <==> x * k >= y * k
  {
  }

  lemma RealRegroup(x: real, y: real, z: real)
    ensures x * y * z == x * (y * z)
  {
  }

  lemma CastProduct(m: nat, n: nat)
    ensures (m * n) as real == m as real * n as real
  {
  }

  /** One side of the cost inequality with its powers of ten gathered. */
  lemma Gather(x: real, e: int, k: int, f: int, g: int)
    requires e + k == f + g && f >= 0 && g >= 0
    ensures x * RealPow10(e) * RealPow10(k) == x * (Pow10(f) * Pow10(g)) as real
  {
    hide RealPow10, Pow10;
    RealPow10Add(e, k);
    RealPow10Add(f, g);
    RealPow10OfNat(f);
    RealPow10OfNat(g);
    RealRegroup(x, RealPow10(e), RealPow10(k));
    CastProduct(Pow10(f), Pow10(g));
  }

  /** The powers of ten on the two sides, as the program clears them. */
  function CostScale(stableDecimals: u8, delta: int): nat {
    Pow10(stableDecimals) * Pow10(if delta > 0 then delta else 0)
  }

  function UnitScale(delta: int): nat {
    Pow10(9) * Pow10(if delta < 0 then -delta else 0)
  }

  lemma CoversInUnits(raw: nat, lamports: u64, stableDecimals: u8, p: real, solExponent: i32, q: real,
                      stableExponent: i32)
    ensures var delta := solExponent - stableExponent;
      Covers(raw, lamports, stableDecimals, p, solExponent, q, stableExponent) <==>
      raw as real * q * UnitScale(delta) as real >= lamports as real * p * CostScale(stableDecimals, delta) as real
  {
    hide RealPow10, Pow10;
    var delta: int := solExponent - stableExponent;
    var down: int := if delta < 0 then -delta else 0;
    var up: int := if delta > 0 then delta else 0;
    var k: int := 9 + stableDecimals - stableExponent + down;
    RealPow10Positive(k);
    var left, right := raw as real * q, lamports as real * p;
    ScaleInequality(left * RealPow10(stableExponent - stableDecimals), right * RealPow10(solExponent - 9), RealPow10(k));
    Gather(left, stableExponent - stableDecimals, k, 9, down);
    Gather(right, solExponent - 9, k, stableDecimals, up);
  }

  /** The fraction is the upper-bound cost over the lower-bound worth of one unit. */
  lemma FractionInUnits(lamports: u64, stableDecimals: u8, sol: UsdPrice, stable: UsdPrice)
    requires CostFraction(lamports, stableDecimals, sol, stable).Ok?
    ensures var delta := sol.exponent - stable.exponent;
      && stable.price > stable.confidence
      && CostFraction(lamports, stableDecimals, sol, stable).value
         == (lamports * (sol.price + sol.confidence) * CostScale(stableDecimals, delta),
             (stable.price - stable.confidence) * UnitScale(delta))
  {
    var delta: int := sol.exponent - stable.exponent;
    assert Pow10(9) == 1_000_000_000 by {
      assert Pow10(5) == 100_000;
    }
    assert Pow10(0) == 1;
    hide Pow10;
    var base: int := lamports * (sol.price + sol.confidence);
    var lower: int := stable.price - stable.confidence;
    Regroup(base, Pow10(stableDecimals), Pow10(if delta > 0 then delta else 0));
    Regroup(lower, 1_000_000_000, Pow10(if delta < 0 then -delta else 0));
  }

  lemma Regroup(x: int, y: int, z: int)
    ensures x * y * z == x * (y * z)
    ensures y * x * z == x * (y * z)
  {
  }

  /** The converted cost is the least amount that covers the cost at every price inside the confidence bounds. */
  lemma ConversionIsLeastCover(lamports: u64, stableDecimals: u8, sol: UsdPrice, stable: UsdPrice, raw: nat)
    requires ConservativeLamportsToStableRaw(lamports, stableDecimals, sol, stable).Ok?
    ensures AlwaysCovers(raw, lamports, stableDecimals, sol, stable)
       <==> ConservativeLamportsToStableRaw(lamports, stableDecimals, sol, stable).value <= raw
  {
    hide CostFraction, AlwaysCovers, CostScale, UnitScale, RoundedUp;
    FractionInUnits(lamports, stableDecimals, sol, stable);
    var delta: int := sol.exponent - stable.exponent;
    var upper: nat := sol.price + sol.confidence;
    var lower: nat := stable.price - stable.confidence;
    var cost, unit: nat := CostScale(stableDecimals, delta), UnitScale(delta);
    CeilGalois(lamports * upper * cost, lower * unit, raw);
    CoversExactly(raw, lamports, stableDecimals, sol, stable);
  }

  /** Covering at all prices means covering at the bounds. */
  lemma CoversExactly(raw: nat, lamports: u64, stableDecimals: u8, sol: UsdPrice, stable: UsdPrice)
    requires stable.confidence <= stable.price
    ensures
      var delta: int := sol.exponent - stable.exponent;
      AlwaysCovers(raw, lamports, stableDecimals, sol, stable) <==>
      lamports * (sol.price + sol.confidence) * CostScale(stableDecimals, delta)
      <= raw * ((stable.price - stable.confidence) * UnitScale(delta))
  {
    hide Covers, CostScale, UnitScale;
    var delta: int := sol.exponent - stable.exponent;
    var upper: nat := sol.price + sol.confidence;
    var lower: nat := stable.price - stable.confidence;
    var cost, unit: nat := CostScale(stableDecimals, delta), UnitScale(delta);
    CoversInUnits(raw, lamports, stableDecimals, upper as real, sol.exponent, lower as real, stable.exponent);
    AtTheBounds(raw, lower, unit, lamports, upper, cost);
    if Covers(raw, lamports, stableDecimals, upper as real, sol.exponent, lower as real, stable.exponent) {
      forall p: real, q: real | 0.0 <= p <= upper as real && q >= lower as real
        ensures Covers(raw, lamports, stableDecimals, p, sol.exponent, q, stable.exponent)
      {
        CoversInUnits(raw, lamports, stableDecimals, p, sol.exponent, q, stable.exponent);
        InsideTheBounds(raw as real, lower as real, q, unit as real, lamports as real, p, upper as real, cost as real);
      }
    }
  }

  /**
   Conversion succeeds exactly for a positive price, a stable price above its confidence, powers of ten up to 38,
   both sides of the fraction within 128 bits, and a result within 64.
   */
  lemma ConversionSucceeds(lamports: u64, stableDecimals: u8, sol: UsdPrice, stable: UsdPrice)
    ensures
      var delta: int := sol.exponent - stable.exponent;
      var cost := lamports * (sol.price + sol.confidence) * CostScale(stableDecimals, delta);
      var worth := (stable.price - stable.confidence) * UnitScale(delta);
      ConservativeLamportsToStableRaw(lamports, stableDecimals, sol, stable).Ok? <==>
      && 0 < sol.price && sol.price + sol.confidence <= U64_MAX && stable.confidence < stable.price
      && stableDecimals <= 38 && -38 <= delta <= 38
      && cost <= U128_MAX && worth <= U128_MAX && cost <= U64_MAX * worth
  {
    hide RoundedUp, CostScale, UnitScale, CostFraction;
    FractionSucceeds(lamports, stableDecimals, sol, stable);
    if CostFraction(lamports, stableDecimals, sol, stable).Ok? {
      FractionInUnits(lamports, stableDecimals, sol, stable);
      var (numerator, denominator) := CostFraction(lamports, stableDecimals, sol, stable).value;
      CeilGalois(numerator, denominator, U64_MAX);
    }
  }

  lemma FractionSucceeds(lamports: u64, stableDecimals: u8, sol: UsdPrice, stable: UsdPrice)
    ensures
      var delta: int := sol.exponent - stable.exponent;
      var cost := lamports * (sol.price + sol.confidence) * CostScale(stableDecimals, delta);
      var worth := (stable.price - stable.confidence) * UnitScale(delta);
      CostFraction(lamports, stableDecimals, sol, stable).Ok? <==>
      && 0 < sol.price && sol.price + sol.confidence <= U64_MAX && stable.confidence < stable.price
      && stableDecimals <= 38 && -38 <= delta <= 38
      && cost <= U128_MAX && worth <= U128_MAX
  {
    var delta: int := sol.exponent - stable.exponent;
    assert Pow10(9) == 1_000_000_000 by {
      assert Pow10(5) == 100_000;
    }
    assert Pow10(0) == 1;
    hide Pow10, CheckedProduct;
    if 0 < sol.price && sol.price + sol.confidence <= U64_MAX && stable.confidence < stable.price {
      var upper: u64, lower: u64 := sol.price + sol.confidence, stable.price - stable.confidence;
      var up, down: nat := Pow10(if delta > 0 then delta else 0), Pow10(if delta < 0 then -delta else 0);
      TwoFactors(lamports, upper);
      Regroup(lamports * upper, Pow10(stableDecimals), up);
      Regroup(lower, 1_000_000_000, down);
      ProductsFit(lamports, upper);
      ProductsFit(lamports * upper, Pow10(stableDecimals));
      ProductsFit(lamports * upper * Pow10(stableDecimals), up);
      ProductsFit(1_000_000_000, lower);
      ProductsFit(1_000_000_000 * lower, down);
    }
  }

  lemma TwoFactors(a: u64, b: u64)
    ensures 0 <= a * b <= U128_MAX
  {
    MulMono(a, U64_MAX, b);
    MulMono(b, U64_MAX, U64_MAX);
  }

  /** A product by a power of ten fits only if the other factor does. */
  lemma ProductsFit(a: nat, b: nat)
    ensures CheckedProduct(a, b).Ok? <==> a * b <= U128_MAX
    ensures a * b >= 0 && (b >= 1 ==> a <= a * b)
  {
    if b >= 1 {
      MulMono(1, b, a);
    }
  }

  lemma AtTheBounds(raw: nat, lower: nat, unit: nat, lamports: nat, upper: nat, cost: nat)
    ensures raw as real * lower as real * unit as real >= lamports as real * upper as real * cost as real
       <==> lamports * upper * cost <= raw * (lower * unit)
  {
  }

  lemma InsideTheBounds(raw: real, lower: real, q: real, unit: real, lamports: real, p: real, upper: real, cost: real)
    requires raw >= 0.0 && unit >= 0.0 && lamports >= 0.0 && cost >= 0.0 && p <= upper && q >= lower
    requires raw * lower * unit >= lamports * upper * cost
    ensures raw * q * unit >= lamports * p * cost
  {
  }

  // ---------------------------------------------------------------- priority-fee percentile

  datatype FeeSample = FeeSample(slot: u64, microLamports: u64)
  datatype FeeSelection = FeeSelection(selected: u64, totalSamples: nat, positiveSamples: nat, minSlot: u64, maxSlot: u64)

  function Positives(samples: seq<FeeSample>): seq<u64> {
    if samples == [] then []
    else (if samples[0].microLamports > 0 then [samples[0].microLamports] else []) + Positives(samples[1..])
  }

  ghost predicate Ascending(s: seq<u64>) {
    forall i, j :: 0 <= i < j < |s| ==> s[i] <= s[j]
  }

  function InsertUp(s: seq<u64>, x: u64): (r: seq<u64>)
    ensures multiset(r) == multiset(s) + multiset{x} && |r| == |s| + 1
  {
    if s == [] || s[|s| - 1] <= x then s + [x]
    else
      assert s == s[..|s| - 1] + [s[|s| - 1]];
      InsertUp(s[..|s| - 1], x) + [s[|s| - 1]]
  }

  /** The values in ascending order. */
  function SortUp(s: seq<u64>): (r: seq<u64>)
    ensures multiset(r) == multiset(s) && |r| == |s|
  {
    if s == [] then []
    else
      assert s == s[..|s| - 1] + [s[|s| - 1]];
      InsertUp(SortUp(s[..|s| - 1]), s[|s| - 1])
  }

  lemma {:induction false} InsertAscends(s: seq<u64>, x: u64)
    requires Ascending(s)
    ensures Ascending(InsertUp(s, x))
  {
    if s != [] && s[|s| - 1] > x {
      var init, last := s[..|s| - 1], s[|s| - 1];
      InsertAscends(init, x);
      var r := InsertUp(init, x);
      forall i | 0 <= i < |r| ensures r[i] <= last {
        assert r[i] in multiset(r);
        assert r[i] == x || r[i] in init;
      }
    }
  }

  lemma {:induction false} SortAscends(s: seq<u64>)
    ensures Ascending(SortUp(s))
  {
    if s != [] {
      SortAscends(s[..|s| - 1]);
      InsertAscends(SortUp(s[..|s| - 1]), s[|s| - 1]);
    }
  }

  /** How many of the values are at most, and how many at least, `x`. */
  function AtMost(s: seq<u64>, x: u64): nat {
    if s == [] then 0 else (if s[0] <= x then 1 else 0) + AtMost(s[1..], x)
  }

  function AtLeast(s: seq<u64>, x: u64): nat {
    if s == [] then 0 else (if s[0] >= x then 1 else 0) + AtLeast(s[1..], x)
  }

  /** Three quarters of `n`, rounded up. */
  function Rank75(n: nat): (k: nat)
    ensures n > 0 ==> 1 <= k <= n
  {
    CeilDiv(3 * n, 4)
  }

  /** `x` is the 75th percentile: one of the values, with three quarters of them up to it, and more than one from it on. */
  ghost predicate IsP75(s: seq<u64>, x: u64) {
    && x in s
    && 4 * AtMost(s, x) >= 3 * |s|
    && 4 * AtLeast(s, x) > |s|
  }

  lemma {:induction false} CountsOfPermutation(s: seq<u64>, t: seq<u64>, x: u64)
    requires multiset(s) == multiset(t)
    ensures AtMost(s, x) == AtMost(t, x) && AtLeast(s, x) == AtLeast(t, x) && |s| == |t|
    decreases |s|
  {
    assert |multiset(s)| == |s| && |multiset(t)| == |t|;
    if s != [] {
      var k := TakeOut(s, t);
      CountsOfPermutation(s[1..], t[..k] + t[k + 1..], x);
      CountsOfConcat(t[..k], [t[k]] + t[k + 1..], x);
      CountsOfConcat(t[..k], t[k + 1..], x);
      assert t == t[..k] + ([t[k]] + t[k + 1..]);
      assert ([t[k]] + t[k + 1..])[1..] == t[k + 1..];
    }
  }

  lemma {:induction false} CountsOfConcat(s: seq<u64>, t: seq<u64>, x: u64)
    ensures AtMost(s + t, x) == AtMost(s, x) + AtMost(t, x)
    ensures AtLeast(s + t, x) == AtLeast(s, x) + AtLeast(t, x)
    decreases |s|
  {
    if s == [] {
      assert s + t == t;
    } else {
      assert (s + t)[1..] == s[1..] + t;
      CountsOfConcat(s[1..], t, x);
    }
  }

  lemma {:induction false} AllCounted(s: seq<u64>, x: u64)
    ensures (forall i :: 0 <= i < |s| ==> s[i] <= x) ==> AtMost(s, x) == |s|
    ensures (forall i :: 0 <= i < |s| ==> s[i] >= x) ==> AtLeast(s, x) == |s|
    decreases |s|
  {
    if s != [] {
      AllCounted(s[1..], x);
    }
  }

  lemma AscendingAround(s: seq<u64>, i: nat)
    requires Ascending(s) && i < |s|
    ensures forall j :: 0 <= j <= i ==> s[j] <= s[i]
    ensures forall j :: i <= j < |s| ==> s[i] <= s[j]
  {
  }

  /** In ascending order, the value at the rank is the percentile. */
  lemma RankIsP75(s: seq<u64>)
    requires Ascending(s) && s != []
    ensures IsP75(s, s[Rank75(|s|) - 1])
  {
    hide Ascending;
    var k: nat := Rank75(|s|);
    var x := s[k - 1];
    AscendingAround(s, k - 1);
    assert s == s[..k] + s[k..] && s == s[..k - 1] + s[k - 1..];
    CountsOfConcat(s[..k], s[k..], x);
    CountsOfConcat(s[..k - 1], s[k - 1..], x);
    AllCounted(s[..k], x);
    AllCounted(s[k - 1..], x);
  }

  /** The two counts leave no choice: any two percentiles of rearranged samples are equal. */
  lemma P75IsUnique(s: seq<u64>, t: seq<u64>, x: u64, y: u64)
    requires multiset(s) == multiset(t) && IsP75(s, x) && IsP75(t, y)
    ensures x == y
  {
    CountsOfPermutation(s, t, y);
    if x < y {
      SplitCounts(s, x, y);
    } else if y < x {
      SplitCounts(s, y, x);
    }
  }

  lemma {:induction false} SplitCounts(s: seq<u64>, low: u64, high: u64)
    requires low < high
    ensures AtMost(s, low) + AtLeast(s, high) <= |s|
    decreases |s|
  {
    if s != [] {
      SplitCounts(s[1..], low, high);
    }
  }

  /** The positions of the samples in a range of fees. */
  ghost function Between(samples: seq<FeeSample>, low: int, high: int): set<int> {
    set i | 0 <= i < |samples| && low <= samples[i].microLamports <= high
  }

  lemma BetweenSnoc(samples: seq<FeeSample>, low: int, high: int)
    requires samples != []
    ensures
      var n := |samples| - 1;
      |Between(samples, low, high)|
      == |Between(samples[..n], low, high)| + if low <= samples[n].microLamports <= high then 1 else 0
  {
    var n := |samples| - 1;
    var before := Between(samples[..n], low, high);
    assert n !in before;
    assert Between(samples, low, high) == if low <= samples[n].microLamports <= high then before + {n} else before;
  }

  /** The counts over the positive fees are counts of samples. */
  lemma {:induction false} CountsOfSamples(samples: seq<FeeSample>, x: u64)
    requires x > 0
    ensures |Positives(samples)| == |Between(samples, 1, U64_MAX)|
    ensures AtMost(Positives(samples), x) == |Between(samples, 1, x)|
    ensures AtLeast(Positives(samples), x) == |Between(samples, x, U64_MAX)|
    decreases |samples|
  {
    hide Between;
    if samples == [] {
      NoneBetween(x);
    } else {
      var n := |samples| - 1;
      CountsOfSamples(samples[..n], x);
      BetweenSnoc(samples, 1, U64_MAX);
      BetweenSnoc(samples, 1, x);
      BetweenSnoc(samples, x, U64_MAX);
      assert samples == samples[..n] + [samples[n]];
      PositivesOfConcat(samples[..n], [samples[n]]);
      CountsOfConcat(Positives(samples[..n]), Positives([samples[n]]), x);
      OnePositive(samples[n], x);
    }
  }

  lemma NoneBetween(x: u64)
    ensures Between([], 1, U64_MAX) == {} && Between([], 1, x) == {} && Between([], x, U64_MAX) == {}
  {
  }

  lemma OnePositive(z: FeeSample, x: u64)
    requires x > 0
    ensures
      var p := Positives([z]);
      && |p| == (if z.microLamports > 0 then 1 else 0)
      && AtMost(p, x) == (if 0 < z.microLamports <= x then 1 else 0)
      && AtLeast(p, x) == (if z.microLamports >= x then 1 else 0)
  {
    var p := Positives([z]);
    assert [z][1..] == [] && Positives([]) == [];
    assert p == if z.microLamports > 0 then [z.microLamports] else [];
    if p != [] {
      assert p[1..] == [];
    }
  }

  lemma {:induction false} PositiveMembers(samples: seq<FeeSample>, x: u64)
    ensures x in Positives(samples) <==> x > 0 && exists z :: z in samples && z.microLamports == x
    decreases |samples|
  {
    if samples != [] {
      PositiveMembers(samples[1..], x);
      assert samples == [samples[0]] + samples[1..];
      if x > 0 && samples[0].microLamports == x {
        assert samples[0] in samples;
      }
    }
  }

  /** A positive sampled fee: at least three quarters of the positive samples are at most it, more than a quarter at least. */
  ghost predicate IsSelected(samples: seq<FeeSample>, x: u64) {
    && x > 0 && (exists z :: z in samples && z.microLamports == x)
    && 4 * |Between(samples, 1, x)| >= 3 * |Between(samples, 1, U64_MAX)|
    && 4 * |Between(samples, x, U64_MAX)| > |Between(samples, 1, U64_MAX)|
  }

  lemma SelectedIsP75(samples: seq<FeeSample>, x: u64)
    ensures IsSelected(samples, x) <==> IsP75(Positives(samples), x)
  {
    PositiveMembers(samples, x);
    if x > 0 {
      CountsOfSamples(samples, x);
    }
  }

  method SelectPriorityFee(samples: seq<FeeSample>) returns (r: Option<FeeSelection>)
    ensures r.None? <==> forall z :: z in samples ==> z.microLamports == 0
    ensures r.Some? ==>
      && IsSelected(samples, r.value.selected)
      && r.value.totalSamples == |samples| && r.value.positiveSamples == |Between(samples, 1, U64_MAX)|
      && (forall z :: z in samples ==> r.value.minSlot <= z.slot <= r.value.maxSlot)
      && (exists z :: z in samples && z.slot == r.value.minSlot) && (exists z :: z in samples && z.slot == r.value.maxSlot)
  {
    if samples == [] {
      return None;
    }
    var minSlot, maxSlot := SlotRange(samples);
    var positives := Positives(samples);
    if positives == [] {
      NoPositives(samples);
      return None;
    }
    PositiveMembers(samples, positives[0]);
    var sorted := SortUp(positives);
    SortAscends(positives);
    var selected := sorted[Rank75(|sorted|) - 1];
    RankIsP75(sorted);
    CountsOfPermutation(sorted, positives, selected);
    assert selected in multiset(sorted);
    assert selected in positives;
    SelectedIsP75(samples, selected);
    CountsOfSamples(samples, selected);
    return Some(FeeSelection(selected, |samples|, |positives|, minSlot, maxSlot));
  }

  lemma NoPositives(samples: seq<FeeSample>)
    requires Positives(samples) == []
    ensures forall z :: z in samples ==> z.microLamports == 0
  {
    forall z | z in samples ensures z.microLamports == 0 {
      PositiveMembers(samples, z.microLamports);
    }
  }

  method SlotRange(samples: seq<FeeSample>) returns (low: u64, high: u64)
    requires samples != []
    ensures forall z :: z in samples ==> low <= z.slot <= high
    ensures (exists z :: z in samples && z.slot == low) && exists z :: z in samples && z.slot == high
  {
    low, high := samples[0].slot, samples[0].slot;
    for i := 0 to |samples|
      invariant forall k :: 0 <= k < i ==> low <= samples[k].slot <= high
      invariant (exists z :: z in samples && z.slot == low) && exists z :: z in samples && z.slot == high
    {
      if samples[i].slot < low {
        low := samples[i].slot;
      }
      if samples[i].slot > high {
        high := samples[i].slot;
      }
    }
  }

  /** Rearranged samples give the same percentile. */
  lemma PercentileIgnoresOrder(samples: seq<FeeSample>, others: seq<FeeSample>, x: u64, y: u64)
    requires multiset(samples) == multiset(others)
    requires IsSelected(samples, x) && IsSelected(others, y)
    ensures x == y
  {
    SelectedIsP75(samples, x);
    SelectedIsP75(others, y);
    PositivesOfPermutation(samples, others);
    P75IsUnique(Positives(samples), Positives(others), x, y);
  }

  lemma {:induction false} PositivesOfPermutation(s: seq<FeeSample>, t: seq<FeeSample>)
    requires multiset(s) == multiset(t)
    ensures multiset(Positives(s)) == multiset(Positives(t))
    decreases |s|
  {
    hide Positives;
    assert |multiset(s)| == |s| && |multiset(t)| == |t|;
    if s != [] {
      var k := TakeOut(s, t);
      var left, right := t[..k], t[k + 1..];
      PositivesOfPermutation(s[1..], left + right);
      assert t == left + ([s[0]] + right) && s == [s[0]] + s[1..];
      PositivesOfConcat([s[0]], s[1..]);
      PositivesOfConcat(left, [s[0]] + right);
      PositivesOfConcat([s[0]], right);
      PositivesOfConcat(left, right);
      SameBag(Positives([s[0]]), Positives(s[1..]), Positives(left), Positives(right));
    } else {
      assert s == t;
    }
  }

  lemma SameBag(h: seq<u64>, x: seq<u64>, left: seq<u64>, right: seq<u64>)
    requires multiset(x) == multiset(left + right)
    ensures multiset(h + x) == multiset(left + (h + right))
  {
  }

  lemma {:induction false} PositivesOfConcat(s: seq<FeeSample>, t: seq<FeeSample>)
    ensures Positives(s + t) == Positives(s) + Positives(t)
    decreases |s|
  {
    if s == [] {
      assert s + t == t;
    } else {
      assert (s + t)[1..] == s[1..] + t;
      PositivesOfConcat(s[1..], t);
    }
  }
}
