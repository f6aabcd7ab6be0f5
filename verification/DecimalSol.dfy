/** Decimal SOL text read as lamports, rounded half up. */
module DecimalSol {
  import opened Wrappers
  import opened Machine
  import opened Arithmetic
  import opened Costs

  const LAMPORTS_PER_SOL_DECIMALS := 9

  datatype DecimalError =
    | EmptyText | Negative | MultipleExponents | BadExponent | MultiplePoints | NoDigits | NotDecimal
    | TooManyDigits | ScaleOverflow | Power(cause: CostError) | TooLarge

  // ---------------------------------------------------------------- reading the text

  predicate IsDigit(c: char) {
    '0' <= c <= '9'
  }

  predicate IsE(c: char) {
    c == 'e' || c == 'E'
  }

  predicate IsPoint(c: char) {
    c == '.'
  }

  predicate IsWhite(c: char) {
    var u := c as int;
    || 0x9 <= u <= 0xD || u in {0x20, 0x85, 0xA0, 0x1680, 0x2028, 0x2029, 0x202F, 0x205F, 0x3000} || 0x2000 <= u <= 0x200A
  }

  predicate AllDigits(s: string) {
    forall i :: 0 <= i < |s| ==> IsDigit(s[i])
  }

  function TrimStart(s: string): string {
    if s != [] && IsWhite(s[0]) then TrimStart(s[1..]) else s
  }

  function TrimEnd(s: string): string {
    if s != [] && IsWhite(s[|s| - 1]) then TrimEnd(s[..|s| - 1]) else s
  }

  function Trim(s: string): string {
    TrimEnd(TrimStart(s))
  }

  /** The first position with property `p`, or the end. */
  function First(s: string, p: char -> bool): (i: nat)
    ensures i <= |s| && (forall j :: 0 <= j < i ==> !p(s[j])) && (i < |s| ==> p(s[i]))
  {
    if s == [] || p(s[0]) then 0 else
      var rest := First(s[1..], p);
      assert forall j :: 1 <= j < |s| ==> s[j] == s[1..][j - 1];
      1 + rest
  }

  function Value(digits: string): nat
    requires AllDigits(digits)
  {
    if digits == [] then 0 else 10 * Value(digits[..|digits| - 1]) + (digits[|digits| - 1] as int - '0' as int)
  }

  function ParseI32(s: string): Result<i32, DecimalError> {
    var signed := s != [] && (s[0] == '+' || s[0] == '-');
    var digits := if signed then s[1..] else s;
    if digits == [] || !AllDigits(digits) then Err(BadExponent)
    else
      var magnitude: int := Value(digits);
      var v: int := if signed && s[0] == '-' then -magnitude else magnitude;
      if I32_MIN <= v <= I32_MAX then Ok(v) else Err(BadExponent)
  }

  function SplitExponent(text: string): Result<(string, i32), DecimalError> {
    var i := First(text, IsE);
    if i == |text| then Ok((text, 0))
    else if First(text[i + 1..], IsE) < |text| - i - 1 then Err(MultipleExponents)
    else
      var e :- ParseI32(text[i + 1..]);
      Ok((text[..i], e))
  }

  /** The program's scan for the exponent mark. */
  method ScanExponent(text: string) returns (r: Result<(string, i32), DecimalError>)
    ensures r == SplitExponent(text)
  {
    var at: Option<nat> := None;
    for i := 0 to |text|
      invariant at.None? ==> forall j :: 0 <= j < i ==> !IsE(text[j])
      invariant at.Some? ==> at.value < i && IsE(text[at.value]) && forall j :: 0 <= j < i && j != at.value ==> !IsE(text[j])
    {
      if IsE(text[i]) {
        if at.Some? {
          FirstIs(text, IsE, at.value);
          SomeFound(text[at.value + 1..], IsE, i - at.value - 1);
          return Err(MultipleExponents);
        }
        at := Some(i);
      }
    }
    if at.None? {
      FirstIs(text, IsE, |text|);
      return Ok((text, 0));
    }
    FirstIs(text, IsE, at.value);
    FirstIs(text[at.value + 1..], IsE, |text| - at.value - 1);
    var exponent := ParseI32(text[at.value + 1..]);
    if exponent.Err? {
      return Err(exponent.error);
    }
    return Ok((text[..at.value], exponent.value));
  }

  lemma FirstIs(s: string, p: char -> bool, i: nat)
    requires i <= |s| && (forall j :: 0 <= j < i ==> !p(s[j])) && (i < |s| ==> p(s[i]))
    ensures First(s, p) == i
  {
  }

  lemma SomeFound(s: string, p: char -> bool, i: nat)
    requires i < |s| && p(s[i])
    ensures First(s, p) < |s|
  {
  }

  /** Integer and fractional part. */
  function SplitPoint(mantissa: string): Result<(string, string), DecimalError> {
    var i := First(mantissa, IsPoint);
    if i == |mantissa| then Ok((mantissa, ""))
    else if First(mantissa[i + 1..], IsPoint) < |mantissa| - i - 1 then Err(MultiplePoints)
    else Ok((mantissa[..i], mantissa[i + 1..]))
  }

  datatype Decimal = Decimal(digits: u128, fractionDigits: nat, exponent: i32)

  function ParseUnsigned(text: string): Result<Decimal, DecimalError> {
    var (mantissa, exponent) :- SplitExponent(text);
    var (whole, fraction) :- SplitPoint(mantissa);
    if whole == "" && fraction == "" then Err(NoDigits)
    else if !AllDigits(whole) || !AllDigits(fraction) then Err(NotDecimal)
    else if Value(whole + fraction) > U128_MAX then Err(TooManyDigits)
    else Ok(Decimal(Value(whole + fraction), |fraction|, exponent))
  }

  function ParseDecimal(text: string): Result<Decimal, DecimalError> {
    if text == "" then Err(EmptyText)
    else if text[0] == '-' then Err(Negative)
    else ParseUnsigned(if text[0] == '+' then text[1..] else text)
  }

  // ---------------------------------------------------------------- what a text denotes

  const DIGITS: string := "0123456789"

  predicate OnlyDigits(s: string) {
    forall c :: c in s ==> c in DIGITS
  }

  /** The number a digit stands for is its place among the digits. */
  ghost function DigitOf(c: char): (n: nat)
    requires c in DIGITS
    ensures n < 10 && DIGITS[n] == c
  {
    var n :| 0 <= n < |DIGITS| && DIGITS[n] == c;
    n
  }

  /** The sum of the digits, each times the power of ten of its place. */
  ghost function PlaceSum(s: string): nat
    requires OnlyDigits(s)
  {
    if s == "" then 0 else DigitOf(s[0]) * Pow10(|s| - 1) + PlaceSum(s[1..])
  }

  /** An optional sign and digits, within 32 bits. */
  ghost predicate IsExponent(s: string, e: int) {
    exists sign, digits :: IsExponentBy(s, e, sign, digits)
  }

  ghost predicate IsExponentBy(s: string, e: int, sign: string, digits: string) {
    && s == sign + digits && (sign == "" || sign == "+" || sign == "-") && digits != "" && OnlyDigits(digits)
    && e == (if sign == "-" then 0 - PlaceSum(digits) else PlaceSum(digits)) && I32_MIN <= e <= I32_MAX
  }

  ghost predicate IsTail(tail: string, exponent: int) {
    || (tail == "" && exponent == 0)
    || (tail != "" && (tail[0] == 'e' || tail[0] == 'E') && IsExponent(tail[1..], exponent))
  }

  ghost predicate IsMantissa(mantissa: string, whole: string, fraction: string) {
    && OnlyDigits(whole) && OnlyDigits(fraction) && whole + fraction != ""
    && ((mantissa == whole && fraction == "") || mantissa == whole + "." + fraction)
  }

  ghost predicate IsSplit(text: string, sign: string, mantissa: string, tail: string) {
    text == sign + (mantissa + tail) && (sign == "" || sign == "+")
  }

  /** An optional plus sign, digits with an optional point among them, and an optional exponent. */
  ghost predicate Writes(text: string, d: Decimal) {
    exists sign, mantissa, tail, whole, fraction ::
      && IsSplit(text, sign, mantissa, tail) && IsTail(tail, d.exponent)
      && IsMantissa(mantissa, whole, fraction) && d.fractionDigits == |fraction|
      && OnlyDigits(whole + fraction) && d.digits == PlaceSum(whole + fraction)
  }

  lemma DigitsAre(s: string)
    ensures AllDigits(s) <==> OnlyDigits(s)
    ensures forall c :: c in DIGITS ==> DigitOf(c) == c as int - '0' as int
  {
    forall c ensures IsDigit(c) <==> c in DIGITS {
      DigitIs(c);
    }
    assert forall i :: 0 <= i < |s| ==> s[i] in s;
  }

  lemma DigitIs(c: char)
    ensures IsDigit(c) <==> c in DIGITS
  {
    if IsDigit(c) {
      assert DIGITS[c as int - '0' as int] == c;
    }
  }

  lemma {:induction false} ValueIsPlaceSum(s: string)
    requires AllDigits(s)
    ensures OnlyDigits(s) && Value(s) == PlaceSum(s)
    decreases |s|
  {
    DigitsAre(s);
    if s != "" {
      var init, last := s[..|s| - 1], s[|s| - 1];
      ValueIsPlaceSum(init);
      PlaceSumSnoc(init, last);
      assert s == init + [last];
    }
  }

  lemma {:induction false} PlaceSumSnoc(s: string, c: char)
    requires OnlyDigits(s) && c in DIGITS
    ensures OnlyDigits(s + [c]) && PlaceSum(s + [c]) == 10 * PlaceSum(s) + DigitOf(c)
    decreases |s|
  {
    var t := s + [c];
    if s == "" {
      assert t[1..] == "" && Pow10(0) == 1;
    } else {
      PlaceSumSnoc(s[1..], c);
      assert t[1..] == s[1..] + [c];
      TenTimes(DigitOf(s[0]), Pow10(|s| - 1));
    }
  }

  lemma TenTimes(d: nat, p: nat)
    ensures d * (10 * p) == 10 * (d * p)
  {
  }

  /** An exponent is read exactly as it is written. */
  lemma ExponentIs(s: string, e: int)
    ensures ParseI32(s) == Ok(e) <==> IsExponent(s, e)
  {
    hide Value, PlaceSum, AllDigits, OnlyDigits;
    if ParseI32(s) == Ok(e) {
      var signed := s[0] == '+' || s[0] == '-';
      var sign, digits := if signed then s[..1] else "", if signed then s[1..] else s;
      DigitsAre(digits);
      ValueIsPlaceSum(digits);
      assert IsExponentBy(s, e, sign, digits);
    }
    if IsExponent(s, e) {
      var sign, digits :| IsExponentBy(s, e, sign, digits);
      DigitsAre(digits);
      ValueIsPlaceSum(digits);
      NoSign(digits);
      assert if sign == "" then s == digits else s[1..] == digits;
    }
  }

  lemma NoSign(digits: string)
    requires OnlyDigits(digits) && digits != ""
    ensures digits[0] != '+' && digits[0] != '-'
  {
    assert digits[0] in digits;
  }

  lemma MantissaReads(mantissa: string, whole: string, fraction: string)
    ensures SplitPoint(mantissa) == Ok((whole, fraction)) && AllDigits(whole) && AllDigits(fraction) && whole + fraction != ""
       <==> IsMantissa(mantissa, whole, fraction)
  {
    hide First;
    DigitsAre(whole);
    DigitsAre(fraction);
    if IsMantissa(mantissa, whole, fraction) {
      FirstIs(mantissa, IsPoint, |whole|);
      if mantissa == whole + "." + fraction {
        assert mantissa[..|whole|] == whole && mantissa[|whole| + 1..] == fraction;
        FirstIs(fraction, IsPoint, |fraction|);
      }
    }
    if SplitPoint(mantissa) == Ok((whole, fraction)) {
      var i := First(mantissa, IsPoint);
      if i < |mantissa| {
        assert mantissa == mantissa[..i] + "." + mantissa[i + 1..];
      }
    }
  }

  lemma ExponentHasNoMark(x: string)
    requires ParseI32(x).Ok?
    ensures forall j :: 0 <= j < |x| ==> !IsE(x[j])
  {
  }

  lemma MantissaHasNoMark(mantissa: string, whole: string, fraction: string)
    requires IsMantissa(mantissa, whole, fraction)
    ensures mantissa != "" && forall j :: 0 <= j < |mantissa| ==> !IsE(mantissa[j])
    ensures mantissa[0] != '+' && mantissa[0] != '-'
  {
    DigitsAre(whole);
    DigitsAre(fraction);
  }

  lemma ExponentReads(mantissa: string, tail: string, exponent: int)
    requires IsTail(tail, exponent) && forall j :: 0 <= j < |mantissa| ==> !IsE(mantissa[j])
    ensures SplitExponent(mantissa + tail) == Ok((mantissa, exponent))
  {
    hide First, ParseI32;
    var text := mantissa + tail;
    assert tail == "" ==> text == mantissa;
    FirstIs(text, IsE, |mantissa|);
    if tail != "" {
      assert text[|mantissa| + 1..] == tail[1..];
      ExponentIs(tail[1..], exponent);
      ExponentHasNoMark(tail[1..]);
      FirstIs(tail[1..], IsE, |tail| - 1);
    }
    assert text[..|mantissa|] == mantissa;
  }

  lemma ExponentWrites(text: string)
    requires SplitExponent(text).Ok?
    ensures var (mantissa, exponent) := SplitExponent(text).value;
      mantissa <= text && IsTail(text[|mantissa|..], exponent)
  {
    hide ParseI32, IsExponent, First;
    var i := First(text, IsE);
    if i < |text| {
      ExponentIs(text[i + 1..], SplitExponent(text).value.1);
      assert text[i..][1..] == text[i + 1..];
    }
  }

  /** A text parses to a decimal exactly when it writes that decimal. */
  lemma ParsesWhatIsWritten(text: string, d: Decimal)
    ensures ParseDecimal(text) == Ok(d) <==> Writes(text, d)
  {
    hide SplitExponent, SplitPoint, Value, AllDigits, IsMantissa, IsTail, OnlyDigits, PlaceSum;
    if Writes(text, d) {
      var sign, mantissa, tail, whole, fraction :|
        && IsSplit(text, sign, mantissa, tail) && IsTail(tail, d.exponent)
        && IsMantissa(mantissa, whole, fraction) && d.fractionDigits == |fraction|
        && OnlyDigits(whole + fraction) && d.digits == PlaceSum(whole + fraction);
      WrittenParses(text, sign, mantissa, tail, whole, fraction, d);
    }
    if ParseDecimal(text) == Ok(d) {
      ParsedWrites(text, d);
    }
  }

  lemma WrittenParses(text: string, sign: string, mantissa: string, tail: string, whole: string, fraction: string,
                      d: Decimal)
    requires IsSplit(text, sign, mantissa, tail) && IsTail(tail, d.exponent)
    requires IsMantissa(mantissa, whole, fraction) && d.fractionDigits == |fraction|
    requires OnlyDigits(whole + fraction) && d.digits == PlaceSum(whole + fraction)
    ensures ParseDecimal(text) == Ok(d)
  {
    hide SplitExponent, SplitPoint, Value, IsMantissa, IsTail;
    DigitsAre(whole + fraction);
    ValueIsPlaceSum(whole + fraction);
    MantissaHasNoMark(mantissa, whole, fraction);
    ExponentReads(mantissa, tail, d.exponent);
    MantissaReads(mantissa, whole, fraction);
    var rest := mantissa + tail;
    assert sign == "+" ==> text[0] == '+' && text[1..] == rest;
    assert sign == "" ==> text == rest && text[0] == mantissa[0];
  }

  lemma ParsedWrites(text: string, d: Decimal)
    requires ParseDecimal(text) == Ok(d)
    ensures Writes(text, d)
  {
    hide SplitExponent, SplitPoint, Value, IsMantissa, IsTail;
    var sign, rest := if text[0] == '+' then "+" else "", if text[0] == '+' then text[1..] else text;
    var (mantissa, exponent) := SplitExponent(rest).value;
    var (whole, fraction) := SplitPoint(mantissa).value;
    ExponentWrites(rest);
    MantissaReads(mantissa, whole, fraction);
    ValueIsPlaceSum(whole + fraction);
    var tail := rest[|mantissa|..];
    assert rest == mantissa + tail && text == sign + rest;
    assert IsSplit(text, sign, mantissa, tail);
  }

  // ---------------------------------------------------------------- space around the text

  /** The characters with the White_Space property. */
  const SPACES: set<int> := {
    0x9, 0xA, 0xB, 0xC, 0xD, 0x20, 0x85, 0xA0, 0x1680, 0x2000, 0x2001, 0x2002, 0x2003, 0x2004, 0x2005, 0x2006, 0x2007,
    0x2008, 0x2009, 0x200A, 0x2028, 0x2029, 0x202F, 0x205F, 0x3000}

  predicate OnlySpaces(s: string) {
    forall i :: 0 <= i < |s| ==> s[i] as int in SPACES
  }

  /** The text is a written decimal with nothing but space around it. */
  ghost predicate WritesAmount(text: string, d: Decimal) {
    exists before, core, behind ::
      text == before + core + behind && OnlySpaces(before) && OnlySpaces(behind) && Writes(core, d)
  }

  lemma {:induction false} TrimStartIs(before: string, rest: string)
    requires OnlySpaces(before) && (rest != "" ==> !IsWhite(rest[0]))
    ensures TrimStart(before + rest) == rest
    decreases |before|
  {
    if before == "" {
      assert before + rest == rest;
    } else {
      assert (before + rest)[1..] == before[1..] + rest;
      TrimStartIs(before[1..], rest);
    }
  }

  lemma {:induction false} TrimEndIs(rest: string, behind: string)
    requires OnlySpaces(behind) && (rest != "" ==> !IsWhite(rest[|rest| - 1]))
    ensures TrimEnd(rest + behind) == rest
    decreases |behind|
  {
    if behind == "" {
      assert rest + behind == rest;
    } else {
      var n := |behind| - 1;
      assert (rest + behind)[..|rest + behind| - 1] == rest + behind[..n];
      TrimEndIs(rest, behind[..n]);
    }
  }

  lemma {:induction false} TrimmedStart(s: string) returns (before: string)
    ensures OnlySpaces(before) && s == before + TrimStart(s)
    decreases |s|
  {
    before := "";
    if s != "" && IsWhite(s[0]) {
      var more := TrimmedStart(s[1..]);
      before := [s[0]] + more;
      assert s == [s[0]] + s[1..];
    }
  }

  lemma {:induction false} TrimmedEnd(s: string) returns (behind: string)
    ensures OnlySpaces(behind) && s == TrimEnd(s) + behind
    decreases |s|
  {
    behind := "";
    if s != "" && IsWhite(s[|s| - 1]) {
      var more := TrimmedEnd(s[..|s| - 1]);
      behind := more + [s[|s| - 1]];
      assert s == s[..|s| - 1] + [s[|s| - 1]];
    }
  }

  /** A written decimal begins and ends with a visible character. */
  lemma WrittenIsVisible(core: string, d: Decimal)
    requires Writes(core, d)
    ensures core != "" && !IsWhite(core[0]) && !IsWhite(core[|core| - 1])
  {
    hide PlaceSum, IsWhite, IsMantissa, IsExponent, OnlyDigits;
    var sign, mantissa, tail, whole, fraction :|
      && IsSplit(core, sign, mantissa, tail) && IsTail(tail, d.exponent)
      && IsMantissa(mantissa, whole, fraction) && d.fractionDigits == |fraction|
      && OnlyDigits(whole + fraction) && d.digits == PlaceSum(whole + fraction);
    MantissaIsVisible(mantissa, whole, fraction);
    if tail != "" {
      ExponentIsVisible(tail[1..], d.exponent);
      assert tail[|tail| - 1] == tail[1..][|tail| - 2];
    }
    PlusIsVisible();
  }

  lemma PlusIsVisible()
    ensures !IsWhite('+')
  {
  }

  lemma VisibleDigits(s: string)
    requires OnlyDigits(s)
    ensures forall i :: 0 <= i < |s| ==> !IsWhite(s[i])
  {
    assert forall i :: 0 <= i < |s| ==> s[i] in s;
  }

  lemma MantissaIsVisible(mantissa: string, whole: string, fraction: string)
    requires IsMantissa(mantissa, whole, fraction)
    ensures mantissa != "" && !IsWhite(mantissa[0]) && !IsWhite(mantissa[|mantissa| - 1])
  {
    VisibleDigits(whole);
    VisibleDigits(fraction);
  }

  lemma ExponentIsVisible(s: string, e: int)
    requires IsExponent(s, e)
    ensures s != "" && !IsWhite(s[|s| - 1])
  {
    hide PlaceSum;
    var sign, digits :| IsExponentBy(s, e, sign, digits);
    VisibleDigits(digits);
  }

  /** Trimming finds the written decimal, and nothing else can be found in the text. */
  lemma TrimFinds(text: string, d: Decimal)
    ensures WritesAmount(text, d) <==> Writes(Trim(text), d)
  {
    hide Writes;
    if WritesAmount(text, d) {
      var before, core, behind :|
        text == before + core + behind && OnlySpaces(before) && OnlySpaces(behind) && Writes(core, d);
      WrittenIsVisible(core, d);
      assert text == before + (core + behind);
      TrimStartIs(before, core + behind);
      TrimEndIs(core, behind);
    }
    if Writes(Trim(text), d) {
      var before := TrimmedStart(text);
      var behind := TrimmedEnd(TrimStart(text));
      assert text == before + (Trim(text) + behind) == before + Trim(text) + behind;
    }
  }

  // ---------------------------------------------------------------- rounding

  /** The decimal in lamports, rounded half up; the limits are those of the program's integers. */
  function Lamports(d: Decimal): Result<u64, DecimalError> {
    var scale: int := d.exponent - d.fractionDigits + LAMPORTS_PER_SOL_DECIMALS;
    if d.fractionDigits > I32_MAX || d.exponent - d.fractionDigits < I32_MIN || scale > I32_MAX then Err(ScaleOverflow)
    else if scale >= 0 then
      match CheckedPow10(scale)
      case Err(e) => Err(Power(e))
      case Ok(power) => if d.digits * power > U64_MAX then Err(TooLarge) else Ok(d.digits * power)
    else
      match CheckedPow10(-scale)
      case Err(e) => Err(Power(e))
      case Ok(divisor) =>
        var v := HalfUp(d.digits, divisor);
        if v > U64_MAX then Err(TooLarge) else Ok(v)
  }

  function HalfUp(digits: nat, divisor: nat): (v: nat)
    requires divisor > 0
  {
    FloorBounds(digits, divisor);
    var quotient: nat := digits / divisor;
    if 2 * (digits % divisor) >= divisor then quotient + 1 else quotient
  }

  lemma HalfUpBounds(digits: nat, divisor: nat)
    requires divisor > 0
    ensures var v := HalfUp(digits, divisor); (2 * v - 1) * divisor <= 2 * digits < (2 * v + 1) * divisor
  {
  }

  /** The exact amount in lamports. */
  ghost function Exact(d: Decimal): real {
    d.digits as real * RealPow10(d.exponent - d.fractionDigits + LAMPORTS_PER_SOL_DECIMALS)
  }

  /** Nearest lamport, the upper one at the midpoint. */
  ghost predicate IsNearest(v: nat, x: real) {
    v as real - 0.5 <= x < v as real + 0.5
  }

  function DecimalSolToLamports(text: string): Result<u64, DecimalError> {
    var d :- ParseDecimal(Trim(text));
    Lamports(d)
  }

  /** The amount before the range check, inside the supported powers of ten. */
  function Rounded(d: Decimal): (v: nat)
    requires -MAX_DECIMAL_POWER <= d.exponent - d.fractionDigits + LAMPORTS_PER_SOL_DECIMALS <= MAX_DECIMAL_POWER
  {
    var scale: int := d.exponent - d.fractionDigits + LAMPORTS_PER_SOL_DECIMALS;
    if scale >= 0 then d.digits * Pow10(scale) else HalfUp(d.digits, Pow10(-scale))
  }

  /** Twice the quotient `x` against an integer, cleared of the divisor. */
  lemma TwiceAgainst(digits: nat, divisor: nat, x: real, m: int)
    requires divisor > 0 && x * divisor as real == digits as real
    ensures m * divisor <= 2 * digits <==> m as real <= 2.0 * x
  {
    var k := divisor as real;
    assert (m * divisor) as real == m as real * k;
    TwiceProduct(x, k);
    ScaleInequality(2.0 * x, m as real, k);
  }

  lemma TwiceProduct(x: real, k: real)
    ensures 2.0 * x * k == 2.0 * (x * k)
  {
  }

  lemma NearestByDivisor(digits: nat, divisor: nat, x: real)
    requires divisor > 0 && x * divisor as real == digits as real
    ensures IsNearest(HalfUp(digits, divisor), x)
  {
    hide HalfUp;
    var v: nat := HalfUp(digits, divisor);
    HalfUpBounds(digits, divisor);
    TwiceAgainst(digits, divisor, x, 2 * v - 1);
    TwiceAgainst(digits, divisor, x, 2 * v + 1);
  }

  lemma RoundedIsNearest(d: Decimal)
    requires -MAX_DECIMAL_POWER <= d.exponent - d.fractionDigits + LAMPORTS_PER_SOL_DECIMALS <= MAX_DECIMAL_POWER
    ensures IsNearest(Rounded(d), Exact(d))
  {
    hide RealPow10, Pow10, HalfUp, IsNearest;
    var scale: int := d.exponent - d.fractionDigits + LAMPORTS_PER_SOL_DECIMALS;
    if scale >= 0 {
      RealPow10OfNat(scale);
      CastProduct(d.digits, Pow10(scale));
      IntegerIsNearest(Rounded(d), Exact(d));
    } else {
      RealPow10OfNat(-scale);
      RealPow10Add(scale, -scale);
      RealPow10Zero();
      RealRegroup(d.digits as real, RealPow10(scale), RealPow10(-scale));
      NearestByDivisor(d.digits, Pow10(-scale), Exact(d));
    }
  }

  lemma IntegerIsNearest(v: nat, x: real)
    requires v as real == x
    ensures IsNearest(v, x)
  {
  }

  lemma LamportsIsRounded(d: Decimal)
    ensures var scale: int := d.exponent - d.fractionDigits + LAMPORTS_PER_SOL_DECIMALS;
      && (Lamports(d).Ok? <==>
            d.fractionDigits <= I32_MAX && -MAX_DECIMAL_POWER <= scale <= MAX_DECIMAL_POWER && Rounded(d) <= U64_MAX)
      && (Lamports(d).Ok? ==> Lamports(d).value == Rounded(d))
  {
  }

  /** A text converts, to the nearest lamport, exactly when it writes a decimal of supported scale that fits 64 bits. */
  lemma DecimalSolIsNearest(text: string, d: Decimal)
    requires WritesAmount(text, d)
    ensures var scale: int := d.exponent - d.fractionDigits + LAMPORTS_PER_SOL_DECIMALS;
      DecimalSolToLamports(text).Ok? <==>
        && d.fractionDigits <= I32_MAX && -MAX_DECIMAL_POWER <= scale <= MAX_DECIMAL_POWER
        && Exact(d) < U64_MAX as real + 0.5
    ensures DecimalSolToLamports(text).Ok? ==> IsNearest(DecimalSolToLamports(text).value, Exact(d))
  {
    hide Lamports, ParseDecimal, Writes, WritesAmount, Exact, Trim, Rounded;
    TrimFinds(text, d);
    ParsesWhatIsWritten(Trim(text), d);
    LamportsIsRounded(d);
    var scale: int := d.exponent - d.fractionDigits + LAMPORTS_PER_SOL_DECIMALS;
    if -MAX_DECIMAL_POWER <= scale <= MAX_DECIMAL_POWER {
      RoundedIsNearest(d);
      NearestInRange(Rounded(d), Exact(d));
    }
  }

  lemma NearestInRange(v: nat, x: real)
    requires IsNearest(v, x)
    ensures v <= U64_MAX <==> x < U64_MAX as real + 0.5
  {
  }

  /** A text that writes no decimal is refused. */
  lemma OtherTextIsRefused(text: string)
    requires forall d :: !WritesAmount(text, d)
    ensures DecimalSolToLamports(text).Err?
  {
    hide Lamports, ParseDecimal, Writes, WritesAmount, Trim;
    if ParseDecimal(Trim(text)).Ok? {
      TrimFinds(text, ParseDecimal(Trim(text)).value);
      ParsesWhatIsWritten(Trim(text), ParseDecimal(Trim(text)).value);
    }
  }
}
