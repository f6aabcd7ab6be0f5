/** Lexicographic order and decimal text, as the program's string keys use them. */
module Strings {

  /** Character by character, a prefix coming first. */
  predicate Le(a: string, b: string) {
    a == [] || (b != [] && (a[0] < b[0] || (a[0] == b[0] && Le(a[1..], b[1..]))))
  }

  lemma {:induction false} LeTotal(a: string, b: string)
    ensures Le(a, b) || Le(b, a)
    ensures Le(a, b) && Le(b, a) ==> a == b
  {
    if a != [] && b != [] && a[0] == b[0] {
      LeTotal(a[1..], b[1..]);
      assert a == [a[0]] + a[1..] && b == [b[0]] + b[1..];
    }
  }

  lemma {:induction false} LeTransitive(a: string, b: string, c: string)
    requires Le(a, b) && Le(b, c)
    ensures Le(a, c)
  {
    if a != [] && b != [] && c != [] && a[0] == b[0] == c[0] {
      LeTransitive(a[1..], b[1..], c[1..]);
    }
  }

  function Digit(d: nat): (c: char)
    requires d < 10
    ensures c != ':'
  {
    "0123456789"[d]
  }

  /** The decimal text of `n`. */
  function Decimal(n: nat): (s: string)
    ensures s != [] && ':' !in s
  {
    if n < 10 then [Digit(n)] else Decimal(n / 10) + [Digit(n % 10)]
  }

  lemma {:induction false} DecimalInjective(m: nat, n: nat)
    requires Decimal(m) == Decimal(n)
    ensures m == n
  {
    var s, t := Decimal(m), Decimal(n);
    assert s[|s| - 1] == Digit(m % 10) && t[|t| - 1] == Digit(n % 10);
    assert m % 10 == n % 10;
    assert |s| == 1 <==> m < 10;
    assert |t| == 1 <==> n < 10;
    if m >= 10 {
      assert Decimal(m / 10) == s[..|s| - 1];
      assert Decimal(n / 10) == t[..|t| - 1];
      DecimalInjective(m / 10, n / 10);
    }
  }

  /** Two texts that agree as `head + ":" + tail` agree in both parts when no head holds a colon. */
  lemma ColonSplits(h1: string, t1: string, h2: string, t2: string)
    requires ':' !in h1 && ':' !in h2
    requires h1 + ":" + t1 == h2 + ":" + t2
    ensures h1 == h2 && t1 == t2
  {
    var s := h1 + ":" + t1;
    assert s[|h1|] == ':' && s[|h2|] == ':';
    assert |h1| == |h2|;
    assert h1 == s[..|h1|] && h2 == s[..|h2|];
    assert t1 == s[|h1| + 1..] && t2 == s[|h2| + 1..];
  }
}
