/** Little-endian integers and byte strings found at a position. */
module Bytes {
  import opened Machine

  type bytes = seq<u8>

  function LittleEndian(v: nat, n: nat): (b: bytes)
    ensures |b| == n
  {
    if n == 0 then [] else [v % 256] + LittleEndian(v / 256, n - 1)
  }

  function FromLittleEndian(b: bytes): nat {
    if b == [] then 0 else b[0] + 256 * FromLittleEndian(b[1..])
  }

  function Pow256(n: nat): nat {
    if n == 0 then 1 else 256 * Pow256(n - 1)
  }

  lemma {:induction false} LittleEndianRoundTrip(v: nat, n: nat)
    requires v < Pow256(n)
    ensures FromLittleEndian(LittleEndian(v, n)) == v
    decreases n
  {
    if n > 0 {
      LittleEndianRoundTrip(v / 256, n - 1);
      assert LittleEndian(v, n)[1..] == LittleEndian(v / 256, n - 1);
    }
  }

  lemma {:induction false} FromLittleEndianRoundTrip(b: bytes)
    ensures LittleEndian(FromLittleEndian(b), |b|) == b
    ensures FromLittleEndian(b) < Pow256(|b|)
    decreases |b|
  {
    if b != [] {
      FromLittleEndianRoundTrip(b[1..]);
      var v := FromLittleEndian(b);
      assert v % 256 == b[0] && v / 256 == FromLittleEndian(b[1..]);
      assert b == [b[0]] + b[1..];
    }
  }

  lemma Pow256Widths()
    ensures Pow256(4) == U32_MAX + 1
    ensures Pow256(8) == U64_MAX + 1
    ensures Pow256(16) == U128_MAX + 1
  {
  }

  /** `part` stands in `whole` at `pos`. */
  predicate At(whole: bytes, pos: nat, part: bytes) {
    pos + |part| <= |whole| && whole[pos..pos + |part|] == part
  }

  lemma AtSplit(whole: bytes, pos: nat, a: bytes, b: bytes)
    requires At(whole, pos, a + b)
    ensures At(whole, pos, a) && At(whole, pos + |a|, b)
  {
    var part := a + b;
    assert whole[pos..pos + |a|] == part[..|a|] == a;
    assert whole[pos + |a|..pos + |a| + |b|] == part[|a|..] == b;
  }
}
