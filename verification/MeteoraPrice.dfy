/** The Q64.64 bin price: repeated squaring of the inverted base, and how far rounding moves it. */
module MeteoraPrice {
  import opened Wrappers
  import opened Machine
  import opened Arithmetic
  import opened MeteoraTypes

  /** The product of two Q64.64 numbers, truncated. */
  function TruncatedMul(a: nat, b: nat): nat {
    a * b / Q64_ONE
  }

  /** Halving the remaining exponent `k` times, squaring and multiplying with truncation. */
  function PowerFrom(m: nat, k: nat, squared: nat, result: nat): nat {
    if k == 0 then result
    else PowerFrom(m / 2, k - 1, TruncatedMul(squared, squared), if m % 2 == 1 then TruncatedMul(result, squared) else result)
  }

  const EXPONENT_BITS := 19

  /** The loop works on a base below one, inverting a larger one first. */
  function ReducedBase(base: u128): nat {
    if base >= Q64_ONE then U128_MAX / base else base
  }

  function UninvertedPower(base: u128, n: nat): nat {
    PowerFrom(n, EXPONENT_BITS, ReducedBase(base), Q64_ONE)
  }

  function Magnitude(exponent: int): nat {
    if exponent < 0 then -exponent else exponent
  }

  /** The loop over the nineteen exponent bits. No checked multiplication can overflow. */
  method SquareAndMultiply(n: nat, start: nat) returns (result: nat)
    requires n < Q64_MAX_EXPONENTIAL && start < Q64_ONE
    ensures result == PowerFrom(n, EXPONENT_BITS, start, Q64_ONE) <= Q64_ONE
  {
    hide PowerFrom, Pow2, TruncatedMul;
    var squared: nat := start;
    result := Q64_ONE;
    var bit := 1;
    // The exponent bits and the iterations still to come.
    ghost var m: nat, k: nat := n, EXPONENT_BITS;
    Pow2Values(0);
    while bit <= 0x40000
      invariant bit > 0 && 0 <= k <= EXPONENT_BITS && bit == Pow2(EXPONENT_BITS - k)
      invariant m == n / bit
      invariant 0 <= squared < Q64_ONE && result <= Q64_ONE
      invariant PowerFrom(m, k, squared, result) == PowerFrom(n, EXPONENT_BITS, start, Q64_ONE)
      decreases k
    {
      Pow2Values(EXPONENT_BITS - k);
      HalvingShifts(n, bit);
      PowerFromStep(m, k, squared, result);
      ghost var nextSquared := TruncatedMul(squared, squared);
      ghost var nextResult := if m % 2 == 1 then TruncatedMul(result, squared) else result;
      ProductBelow(result, squared);
      ProductBelow(squared, squared);
      if (n / bit) % 2 == 1 {
        assert 0 <= result * squared <= U128_MAX;
        result := TruncatedMul(result, squared);
      }
      if bit < 0x40000 {
        assert 0 <= squared * squared <= U128_MAX;
        squared := TruncatedMul(squared, squared);
      } else {
        PowerFromEnd(m / 2, nextSquared, nextResult);
        PowerFromEnd(m / 2, squared, nextResult);
      }
      m := m / 2;
      bit := 2 * bit;
      k := k - 1;
    }
    Pow2Values(EXPONENT_BITS - k);
    PowerFromEnd(m, squared, result);
  }

  method Q64Pow(base: u128, exponent: i32) returns (r: Result<u128, Failure>)
    ensures exponent == 0 ==> r == Ok(Q64_ONE)
    ensures Magnitude(exponent) >= Q64_MAX_EXPONENTIAL ==> r == Err(ArithmeticOverflow)
    ensures
      0 < Magnitude(exponent) < Q64_MAX_EXPONENTIAL ==>
        var power := UninvertedPower(base, Magnitude(exponent));
        r == if power == 0 then Err(ArithmeticOverflow)
             else if (exponent < 0) != (base >= Q64_ONE) then Ok(U128_MAX / power)
             else Ok(power)
  {
    hide PowerFrom;
    var invert := exponent < 0;
    if exponent == 0 {
      return Ok(Q64_ONE);
    }
    var n := Magnitude(exponent);
    if n >= Q64_MAX_EXPONENTIAL {
      return Err(ArithmeticOverflow);
    }
    ReducedBaseBelowOne(base);
    var squared := base;
    if squared >= Q64_ONE {
      squared := U128_MAX / squared;
      invert := !invert;
    }
    var result := SquareAndMultiply(n, squared);
    if result == 0 {
      return Err(ArithmeticOverflow);
    }
    if invert {
      QuotientWithin(U128_MAX, result);
      return Ok(U128_MAX / result);
    }
    return Ok(result);
  }

  lemma Pow2Values(i: nat)
    requires i <= EXPONENT_BITS
    ensures 1 <= Pow2(i) && (Pow2(i) <= 0x40000 <==> i < EXPONENT_BITS) && (Pow2(i) < 0x40000 <==> i < EXPONENT_BITS - 1)
    ensures Pow2(i + 1) == 2 * Pow2(i)
    ensures Pow2(0) == 1 && Pow2(EXPONENT_BITS) == Q64_MAX_EXPONENTIAL
  {
    assert Pow2(5) == 32;
    assert Pow2(10) == 1024;
    assert Pow2(15) == 0x8000;
    assert Pow2(17) == 0x20000 && Pow2(18) == 0x40000;
    Pow2Mono(i, 17);
    Pow2Mono(18, i);
    Pow2Mono(i, 18);
    Pow2Mono(19, i);
  }

  lemma PowerFromStep(m: nat, k: nat, squared: nat, result: nat)
    requires k > 0
    ensures PowerFrom(m, k, squared, result)
         == PowerFrom(m / 2, k - 1, TruncatedMul(squared, squared), if m % 2 == 1 then TruncatedMul(result, squared) else result)
  {
  }

  lemma PowerFromEnd(m: nat, squared: nat, result: nat)
    ensures PowerFrom(m, 0, squared, result) == result
  {
  }

  lemma QuotientWithin(a: nat, b: nat)
    requires b > 0
    ensures 0 <= a / b <= a
  {
    FloorBounds(a, b);
    MulMono(1, b, a / b);
  }

  lemma {:induction false} Pow2Mono(i: nat, j: nat)
    ensures 1 <= Pow2(i)
    ensures i <= j ==> Pow2(i) <= Pow2(j)
    decreases j
  {
    if i > 0 {
      Pow2Positive(i);
    }
    if i < j {
      Pow2Mono(i, j - 1);
      Pow2Positive(j);
    }
  }

  lemma {:induction false} Pow2Positive(i: nat)
    ensures Pow2(i) >= 1
  {
    if i > 0 {
      Pow2Positive(i - 1);
    }
  }

  lemma ReducedBaseBelowOne(base: u128)
    ensures ReducedBase(base) < Q64_ONE
  {
  }

  lemma ProductBelow(a: nat, b: nat)
    requires a <= Q64_ONE && b < Q64_ONE
    ensures 0 <= a * b <= U128_MAX
    ensures TruncatedMul(a, b) < Q64_ONE
  {
    MulMono(a, Q64_ONE, b);
    assert Q64_ONE * b <= Q64_ONE * (Q64_ONE - 1);
    FloorGalois(a * b, Q64_ONE, Q64_ONE);
  }

  lemma HalvingShifts(n: nat, bit: nat)
    requires bit > 0
    ensures n / (2 * bit) == (n / bit) / 2
  {
    var q: int := n / bit;
    FloorBounds(n, bit);
    HalvingBounds(n, bit, q, q / 2);
    FloorGalois(n, 2 * bit, q / 2);
    FloorGalois(n, 2 * bit, q / 2 + 1);
  }

  lemma HalvingBounds(n: int, bit: int, q: int, h: int)
    requires bit > 0 && q * bit <= n < (q + 1) * bit && 2 * h <= q <= 2 * h + 1
    ensures h * (2 * bit) <= n < (h + 1) * (2 * bit)
  {
    MulMono(2 * h, q, bit);
    MulMono(q + 1, 2 * h + 2, bit);
    assert (2 * h) * bit == h * (2 * bit);
    assert (2 * h + 2) * bit == (h + 1) * (2 * bit);
  }

  // ----- The error of the truncated power

  function RealPow(x: real, n: nat): real {
    if n == 0 then 1.0 else x * RealPow(x, n - 1)
  }

  lemma {:induction false} RealPowRange(x: real, n: nat)
    requires 0.0 <= x <= 1.0
    ensures 0.0 <= RealPow(x, n) <= 1.0
  {
    if n > 0 {
      RealPowRange(x, n - 1);
      var r := RealPow(x, n - 1);
      RealMulMono(r, 1.0, x);
      RealMulMono(0.0, r, x);
      assert RealPow(x, n) == x * r == r * x <= 1.0 * x == x;
    }
  }

  lemma {:induction false} RealPowAdds(x: real, m: nat, n: nat)
    ensures RealPow(x, m + n) == RealPow(x, m) * RealPow(x, n)
  {
    if m > 0 {
      RealPowAdds(x, m - 1, n);
      assert m + n - 1 == m - 1 + n;
    }
  }

  const ONE := 18446744073709551616.0

  /** `a` lies below the real `exact` by at most `error` units in the last place. */
  predicate Below(a: int, exact: real, error: int) {
    exact - error as real <= a as real <= exact
  }

  /** `c` is the scaled product of `a` and `b`. */
  predicate ScaledProduct(a: real, b: real, c: real) {
    c * ONE == a * b
  }

  lemma ProductAbove(a: real, b: real, A: real, B: real)
    requires 0.0 <= a <= A && 0.0 <= b <= B
    ensures a * b <= A * B
  {
  }

  lemma ProductNotFarBelow(a: real, b: real, A: real, B: real, ea: real, eb: real)
    requires 0.0 <= a <= A <= ONE && 0.0 <= b <= B <= ONE
    requires A - ea <= a && B - eb <= b
    ensures A * B <= a * b + (ea + eb) * ONE
  {
  }

  /** Truncated multiplication adds the errors of its factors and at most one unit more. */
  lemma TruncatedProduct(a: nat, b: nat, A: real, B: real, C: real, ea: nat, eb: nat)
    requires 0.0 <= A <= ONE && 0.0 <= B <= ONE && ScaledProduct(A, B, C)
    requires Below(a, A, ea) && Below(b, B, eb)
    ensures Below(TruncatedMul(a, b), C, ea + eb + 1)
  {
    var c := TruncatedMul(a, b);
    FloorBounds(a * b, Q64_ONE);
    assert (a * b) as real == a as real * b as real;
    assert c as real * ONE <= (a * b) as real < (c as real + 1.0) * ONE;
    ProductAbove(a as real, b as real, A, B);
    ProductNotFarBelow(a as real, b as real, A, B, ea as real, eb as real);
  }

  lemma RealMulMono(a: real, b: real, c: real)
    requires a <= b && c >= 0.0
    ensures a * c <= b * c
  {
  }

  /** The exact power, scaled to units in the last place. */
  function ExactPower(x: real, n: nat): real {
    RealPow(x, n) * ONE
  }

  lemma ExactPowerProduct(x: real, m: nat, n: nat)
    requires 0.0 <= x <= 1.0
    ensures 0.0 <= ExactPower(x, m) <= ONE
    ensures ScaledProduct(ExactPower(x, m), ExactPower(x, n), ExactPower(x, m + n))
  {
    RealPowRange(x, m);
    RealPowAdds(x, m, n);
    var a, b := RealPow(x, m), RealPow(x, n);
    assert (a * ONE) * (b * ONE) == ((a * b) * ONE) * ONE;
  }

  lemma {:induction false} PowerFromError(x: real, m: nat, k: nat, p: nat, squared: nat, result: nat, done: nat)
    requires 0.0 <= x <= 1.0 && m < Pow2(k) && p >= 1
    requires Below(squared, ExactPower(x, p), p - 1)
    requires Below(result, ExactPower(x, done), done)
    ensures Below(PowerFrom(m, k, squared, result), ExactPower(x, done + m * p), done + m * p)
    decreases k
  {
    hide ExactPower, Below, ScaledProduct, PowerFrom, Pow2;
    Pow2Halves(m, k);
    if k == 0 {
      PowerFromEnd(m, squared, result);
    } else {
      PowerFromStep(m, k, squared, result);
      ExactPowerProduct(x, p, p);
      ExactPowerProduct(x, done, p);
      TruncatedProduct(squared, squared, ExactPower(x, p), ExactPower(x, p), ExactPower(x, p + p), p - 1, p - 1);
      TruncatedProduct(result, squared, ExactPower(x, done), ExactPower(x, p), ExactPower(x, done + p), done, p - 1);
      HalvedExponent(m, p, done);
      var next := if m % 2 == 1 then TruncatedMul(result, squared) else result;
      PowerFromError(x, m / 2, k - 1, p + p, TruncatedMul(squared, squared), next, if m % 2 == 1 then done + p else done);
    }
  }

  lemma Pow2Halves(m: nat, k: nat)
    requires m < Pow2(k)
    ensures if k == 0 then m == 0 else m / 2 < Pow2(k - 1)
  {
  }

  lemma HalvedExponent(m: nat, p: nat, done: nat)
    ensures done + m * p == (if m % 2 == 1 then done + p else done) + (m / 2) * (p + p)
  {
  }

  /**
   Before the final inversion the computed power lies below the exact power of the reduced base,
   by at most as many units in the last place as the exponent.
   */
  lemma PowerErrorBound(base: u128, n: nat)
    requires n < Q64_MAX_EXPONENTIAL
    ensures
      var exact := RealPow(ReducedBase(base) as real / Q64_ONE as real, n) * Q64_ONE as real;
      exact - n as real <= UninvertedPower(base, n) as real <= exact
  {
    hide PowerFrom, Pow2;
    ReducedBaseBelowOne(base);
    Pow2Values(0);
    var b := ReducedBase(base);
    var x := b as real / ONE;
    assert x * ONE == b as real;
    PowersOfReducedBase(x);
    PowerFromError(x, n, EXPONENT_BITS, 1, b, Q64_ONE, 0);
    assert n * 1 == n;
  }

  lemma PowersOfReducedBase(x: real)
    ensures ExactPower(x, 0) == ONE && ExactPower(x, 1) == x * ONE
  {
  }

  // ----- Prices

  method PriceFromBinId(binId: i32, binStep: u16) returns (r: Result<u128, Failure>)
    ensures r == BinPrice(binId, binStep)
  {
    var bps := binStep * Q64_ONE / BASIS_POINT_MAX;
    r := Q64Pow(Q64_ONE + bps, binId);
  }

  function PriceBase(binStep: u16): (base: u128)
    ensures base >= Q64_ONE
  {
    Q64_ONE + binStep * Q64_ONE / BASIS_POINT_MAX
  }

  /** What the price loop returns, in terms of the reduced power. */
  function BinPrice(binId: i32, binStep: u16): (r: Result<u128, Failure>)
  {
    if binId == 0 then Ok(Q64_ONE)
    else if Magnitude(binId) >= Q64_MAX_EXPONENTIAL then Err(ArithmeticOverflow)
    else
      var power := UninvertedPower(PriceBase(binStep), Magnitude(binId));
      if power == 0 then Err(ArithmeticOverflow)
      else
        QuotientWithin(U128_MAX, power);
        PowerBelowOne(PriceBase(binStep), Magnitude(binId));
        Ok(if binId > 0 then U128_MAX / power else power)
  }

  lemma PowerBelowOne(base: u128, n: nat)
    requires n < Q64_MAX_EXPONENTIAL
    ensures UninvertedPower(base, n) <= Q64_ONE
  {
    hide UninvertedPower, RealPow;
    PowerErrorBound(base, n);
    ReducedBaseBelowOne(base);
    var x := ReducedBase(base) as real / Q64_ONE as real;
    assert x * ONE == ReducedBase(base) as real;
    RealPowRange(x, n);
  }

  // ----- Against the real price

  /** The reduced base is the real base's inverse to within one unit in the last place, cleared of the divisor. */
  lemma ReducedBaseNearInverse(binStep: u16)
    ensures
      var r, t := ReducedBase(PriceBase(binStep)), 10_000 + binStep;
      10_000 * Q64_ONE - t <= r * t <= 10_000 * Q64_ONE + t
  {
    var q: int, t: int := Q64_ONE, 10_000 + binStep;
    var base: int, r: int := PriceBase(binStep), ReducedBase(PriceBase(binStep));
    FloorBounds(binStep * q, BASIS_POINT_MAX);
    assert t * q - 10_000 < 10_000 * base <= t * q;
    FloorBounds(U128_MAX, base);
    assert r * base <= q * q - 1 && q * q <= (r + 1) * base;
    ReducedBaseBelowOne(PriceBase(binStep));
    InverseAbove(q, t, base, r);
    InverseBelow(q, t, base, r);
  }

  lemma InverseAbove(q: int, t: int, base: int, r: int)
    requires 0 <= r < q && t >= 10_000 && t * q - 10_000 < 10_000 * base && r * base <= q * q
    ensures r * t <= 10_000 * q + t
  {
    MulMono(t * q - 10_000, 10_000 * base, r);
    assert r * (t * q - 10_000) == (r * t) * q - 10_000 * r;
    assert r * (10_000 * base) == 10_000 * (r * base);
    assert (10_000 * q + 10_000) * q == 10_000 * (q * q) + 10_000 * q;
    MulCancel(r * t, 10_000 * q + 10_000, q);
  }

  lemma InverseBelow(q: int, t: int, base: int, r: int)
    requires 0 <= r && 0 < q && 10_000 * base <= t * q && q * q <= (r + 1) * base
    ensures 10_000 * q - t <= r * t
  {
    MulMono(10_000 * base, t * q, r + 1);
    assert (r + 1) * (10_000 * base) == 10_000 * ((r + 1) * base);
    assert (r + 1) * (t * q) == ((r + 1) * t) * q;
    assert 10_000 * (q * q) == (10_000 * q) * q;
    MulCancel(10_000 * q, (r + 1) * t, q);
    assert (r + 1) * t == r * t + t;
  }

  predicate Near(a: real, b: real, d: real) {
    -d <= a - b <= d
  }

  function Times(n: nat, d: real): real {
    n as real * d
  }

  /** Powers of numbers up to one differ by at most the exponent times what the numbers differ by. */
  lemma {:induction false} PowersApart(x: real, y: real, n: nat, d: real)
    requires 0.0 <= x <= 1.0 && 0.0 <= y <= 1.0 && Near(x, y, d)
    ensures Near(RealPow(x, n), RealPow(y, n), Times(n, d))
  {
    hide Near, RealPow, Times;
    if n == 0 {
      PowersOfZero(x, y, d);
    } else {
      PowersApart(x, y, n - 1, d);
      RealPowRange(y, n - 1);
      OneMore(n, d);
      NearStep(x, y, n, d, Times(n - 1, d));
    }
  }

  lemma PowersOfZero(x: real, y: real, d: real)
    ensures Near(RealPow(x, 0), RealPow(y, 0), Times(0, d))
  {
  }

  lemma NearStep(x: real, y: real, n: nat, d: real, e: real)
    requires n > 0 && 0.0 <= x <= 1.0 && 0.0 <= y <= 1.0 && 0.0 <= RealPow(y, n - 1) <= 1.0
    requires Near(x, y, d) && Near(RealPow(x, n - 1), RealPow(y, n - 1), e)
    ensures Near(RealPow(x, n), RealPow(y, n), d + e)
  {
    ProductsApart(x, y, RealPow(x, n - 1), RealPow(y, n - 1), d, e);
  }

  lemma OneMore(n: nat, d: real)
    requires n > 0
    ensures Times(n, d) == d + Times(n - 1, d)
  {
  }

  lemma Damped(f: real, z: real, e: real)
    requires 0.0 <= f <= 1.0 && -e <= z <= e
    ensures -e <= f * z <= e
  {
    RealMulMono(z, e, f);
    RealMulMono(0.0 - e, z, f);
    RealMulMono(f, 1.0, e);
    var p, q := f * z, f * e;
    assert z * f == p && e * f == q && (0.0 - e) * f == 0.0 - q;
    assert q <= e;
  }

  lemma ProductsApart(x: real, y: real, a: real, b: real, d: real, e: real)
    requires 0.0 <= x <= 1.0 && 0.0 <= y <= 1.0 && 0.0 <= b <= 1.0 && Near(x, y, d) && Near(a, b, e)
    ensures Near(x * a, y * b, d + e)
  {
    Damped(x, a - b, e);
    Damped(b, x - y, d);
    assert x * a - y * b == x * (a - b) + b * (x - y);
  }

  /** The real value of a bin `n` steps below the one priced at one. */
  ghost function ExactLower(binStep: u16, n: nat): real {
    RealPow(10_000.0 / (10_000 + binStep) as real, n)
  }

  /**
   The price of a bin below zero lies within twice its distance, in units of 2^-64, of the real power of
   one plus the step. The price of its opposite is the reciprocal, by `OppositePricesReciprocal`.
   */
  lemma PriceNearRealPower(binId: i32, binStep: u16)
    requires binId < 0 && BinPrice(binId, binStep).Ok?
    ensures
      var n := -binId;
      var exact := ExactLower(binStep, n) * Q64_ONE as real;
      exact - 2.0 * n as real <= BinPrice(binId, binStep).value as real <= exact + n as real
  {
    hide UninvertedPower, RealPow;
    var n: nat := -binId;
    var base := PriceBase(binStep);
    var x, y := ReducedBase(base) as real / ONE, 10_000.0 / (10_000 + binStep) as real;
    PowerErrorBound(base, n);
    InverseInReals(binStep);
    ReducedBaseBelowOne(base);
    PowersApart(x, y, n, 1.0 / ONE);
    var a, b := RealPow(x, n), RealPow(y, n);
    assert Near(a, b, n as real * (1.0 / ONE));
    ScaleApart(a, b, n as real);
  }

  lemma ScaleApart(a: real, b: real, m: real)
    requires Near(a, b, m * (1.0 / ONE))
    ensures b * ONE - m <= a * ONE <= b * ONE + m
  {
  }

  lemma InverseInReals(binStep: u16)
    ensures
      var x, y := ReducedBase(PriceBase(binStep)) as real / ONE, 10_000.0 / (10_000 + binStep) as real;
      -(1.0 / ONE) <= x - y <= 1.0 / ONE && 0.0 <= x && 0.0 <= y <= 1.0
  {
    ReducedBaseNearInverse(binStep);
    var r: nat, t: nat := ReducedBase(PriceBase(binStep)), 10_000 + binStep;
    RatioApart(r, t);
  }

  lemma RatioApart(r: nat, t: nat)
    requires t >= 10_000 && 10_000 * Q64_ONE - t <= r * t <= 10_000 * Q64_ONE + t
    ensures
      var x, y := r as real / ONE, 10_000.0 / t as real;
      -(1.0 / ONE) <= x - y <= 1.0 / ONE && 0.0 <= y <= 1.0
  {
    CastOfProduct(r, t);
    QuotientTimes(10_000.0, t as real);
    QuotientsApart(r as real, t as real, r as real / ONE, 10_000.0 / t as real);
  }

  lemma QuotientsApart(r: real, s: real, x: real, y: real)
    requires s >= 10_000.0 && x == r / ONE && y * s == 10_000.0
    requires 10_000.0 * ONE - s <= r * s <= 10_000.0 * ONE + s
    ensures -(1.0 / ONE) <= x - y <= 1.0 / ONE && 0.0 <= y <= 1.0
  {
    var z := r - y * ONE;
    CrossDifference(r, 10_000.0, x, y, s);
    DivideOut(z, s);
    DivideOut(y, s);
    OverOne(z);
  }

  lemma OverOne(z: real)
    ensures -1.0 <= z <= 1.0 ==> -(1.0 / ONE) <= z / ONE <= 1.0 / ONE
  {
  }

  lemma CastOfProduct(a: nat, b: nat)
    ensures (a * b) as real == a as real * b as real
  {
  }

  lemma QuotientTimes(a: real, s: real)
    requires s > 0.0
    ensures a / s * s == a
  {
  }

  lemma CrossDifference(r: real, c: real, x: real, y: real, s: real)
    requires x == r / ONE && y * s == c
    ensures (r - y * ONE) * s == r * s - c * ONE
    ensures x - y == (r - y * ONE) / ONE
  {
  }

  lemma DivideOut(z: real, s: real)
    requires s > 0.0
    ensures -s <= z * s <= s ==> -1.0 <= z <= 1.0
    ensures 0.0 <= z * s ==> 0.0 <= z
  {
    if z > 1.0 {
      PositiveProduct(z - 1.0, s);
      assert (z - 1.0) * s == z * s - s;
    } else if z < 0.0 {
      PositiveProduct(0.0 - z, s);
      assert (0.0 - z) * s == 0.0 - z * s;
      if z < -1.0 {
        PositiveProduct(-1.0 - z, s);
        assert (-1.0 - z) * s == 0.0 - s - z * s;
      }
    }
  }

  lemma PositiveProduct(a: real, b: real)
    requires a > 0.0 && b > 0.0
    ensures a * b > 0.0
  {
  }

  /**
   Prices of opposite bins are reciprocal: both exist or neither does, the lower one is at most
   one, and their product falls short of 2^128 - 1 by less than the lower one.
   */
  lemma OppositePricesReciprocal(binId: i32, binStep: u16)
    requires binId > 0
    ensures BinPrice(binId, binStep).Ok? <==> BinPrice(-binId, binStep).Ok?
    ensures
      BinPrice(binId, binStep).Ok? ==>
        var upper, lower := BinPrice(binId, binStep).value, BinPrice(-binId, binStep).value;
        && 0 < lower <= Q64_ONE <= upper + 1
        && upper * lower <= U128_MAX < (upper + 1) * lower
  {
    hide UninvertedPower;
    var base := PriceBase(binStep);
    if binId < Q64_MAX_EXPONENTIAL && UninvertedPower(base, binId) > 0 {
      var power := UninvertedPower(base, binId);
      PowerBelowOne(base, binId);
      FloorBounds(U128_MAX, power);
      MulMono(power, Q64_ONE, Q64_ONE - 1);
      FloorGalois(U128_MAX, power, Q64_ONE - 1);
    }
  }
}
