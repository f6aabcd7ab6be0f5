/**
 Rounded division. Every rounding in the program is a floor or a ceiling of a quotient; the
 lemmas characterise both by the multiplication they invert, so no later proof unfolds `/`.
 */
module Arithmetic {

  function FloorDiv(a: nat, b: nat): (q: nat)
    requires b > 0
  {
    a / b
  }

  function CeilDiv(a: nat, b: nat): (q: nat)
    requires b > 0
  {
    (a + b - 1) / b
  }

  lemma MulMono(a: int, b: int, c: int)
    requires a <= b && c >= 0
    ensures a * c <= b * c
  {
  }

  lemma MulStrictMono(a: int, b: int, c: int)
    requires a < b && c > 0
    ensures a * c < b * c
  {
  }

  lemma MulCancel(a: int, b: int, c: int)
    requires c > 0 && a * c <= b * c
    ensures a <= b
  {
  }

  /** The quotient is the greatest integer whose multiple stays within the dividend. */
  lemma FloorBounds(a: nat, b: nat)
    requires b > 0
    ensures (a / b) * b <= a < (a / b + 1) * b
    ensures a / b >= 0
  {
    assert a == b * (a / b) + a % b;
  }

  lemma FloorGalois(a: nat, b: nat, q: int)
    requires b > 0
    ensures q <= a / b <==> q * b <= a
  {
    FloorBounds(a, b);
    if q <= a / b {
      MulMono(q, a / b, b);
    } else {
      MulMono(a / b + 1, q, b);
    }
  }

  lemma CeilBounds(a: nat, b: nat)
    requires b > 0
    ensures (CeilDiv(a, b) - 1) * b < a <= CeilDiv(a, b) * b
    ensures CeilDiv(a, b) == 0 <==> a == 0
  {
  }

  /** The ceiling is the least integer whose multiple covers the dividend. */
  lemma CeilGalois(a: nat, b: nat, q: int)
    requires b > 0
    ensures CeilDiv(a, b) <= q <==> a <= q * b
  {
    CeilBounds(a, b);
    if CeilDiv(a, b) <= q {
      MulMono(CeilDiv(a, b), q, b);
    } else {
      MulMono(q, CeilDiv(a, b) - 1, b);
    }
  }

  lemma FloorMono(a: nat, a': nat, b: nat)
    requires b > 0 && a <= a'
    ensures a / b <= a' / b
  {
    FloorBounds(a, b);
    FloorGalois(a', b, a / b);
  }

  /** Ceiling as quotient plus one when something remains, the form the program computes. */
  lemma CeilByRemainder(a: nat, b: nat)
    requires b > 0
    ensures CeilDiv(a, b) == a / b + (if a % b == 0 then 0 else 1)
  {
    FloorBounds(a, b);
    assert a == (a / b) * b + a % b;
    var q := a / b + (if a % b == 0 then 0 else 1);
    assert (a / b + 1) * b == (a / b) * b + b;
    CeilGalois(a, b, q);
    CeilGalois(a, b, q - 1);
  }

  function Pow2(n: nat): nat {
    if n == 0 then 1 else 2 * Pow2(n - 1)
  }

  function Pow10(n: nat): (p: nat)
    ensures p >= 1
  {
    if n == 0 then 1 else 10 * Pow10(n - 1)
  }
}
