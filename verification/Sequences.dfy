/** Order-preserving collection without repetition, as the program's seen-sets and `contains` checks do it. */
module Sequences {

  ghost predicate Distinct<T>(s: seq<T>) {
    forall i, j :: 0 <= i < j < |s| ==> s[i] != s[j]
  }

  /** The elements of `s`, then those of `t` not already listed, each once. */
  function AppendNew<T(==)>(s: seq<T>, t: seq<T>): seq<T>
    decreases |t|
  {
    if t == [] then s
    else AppendNew(if t[0] in s then s else s + [t[0]], t[1..])
  }

  lemma AppendNothing<T>(s: seq<T>, t: seq<T>)
    requires t == []
    ensures AppendNew(s, t) == s
  {
  }

  lemma {:induction false} AppendNewSnoc<T>(s: seq<T>, t: seq<T>, x: T)
    ensures
      var u := AppendNew(s, t);
      AppendNew(s, t + [x]) == if x in u then u else u + [x]
    decreases |t|
  {
    if t == [] {
      assert t + [x] == [x];
    } else {
      assert (t + [x])[1..] == t[1..] + [x];
      AppendNewSnoc(if t[0] in s then s else s + [t[0]], t[1..], x);
    }
  }

  lemma {:induction false} AppendNewKeepsAll<T>(s: seq<T>, t: seq<T>)
    requires Distinct(s)
    ensures Distinct(AppendNew(s, t))
    ensures forall x :: x in AppendNew(s, t) <==> x in s || x in t
    decreases |t|
  {
    if t != [] {
      var s' := if t[0] in s then s else s + [t[0]];
      assert t == [t[0]] + t[1..];
      AppendNewKeepsAll(s', t[1..]);
    }
  }

  /** The first element of `s`, taken out of a rearrangement `t` of it. */
  lemma TakeOut<T>(s: seq<T>, t: seq<T>) returns (k: nat)
    requires s != [] && multiset(s) == multiset(t)
    ensures k < |t| && t[k] == s[0] && multiset(s[1..]) == multiset(t[..k] + t[k + 1..])
  {
    assert s[0] in multiset(t);
    k :| 0 <= k < |t| && t[k] == s[0];
    assert s == [s[0]] + s[1..];
    assert t == t[..k] + [t[k]] + t[k + 1..];
    assert multiset(t) == multiset(t[..k]) + multiset{t[k]} + multiset(t[k + 1..]);
    assert multiset(s) == multiset{s[0]} + multiset(s[1..]);
    assert multiset(t[..k] + t[k + 1..]) == multiset(t[..k]) + multiset(t[k + 1..]);
    assert multiset(s[1..]) == multiset(s) - multiset{s[0]};
  }
}
