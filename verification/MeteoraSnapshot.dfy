/** Building a validated snapshot from fetched accounts. */
module MeteoraSnapshot {
  import opened Wrappers
  import opened Machine
  import opened MeteoraTypes
  import opened DirectionalSearch
  import opened MeteoraTraversal
  import opened HydrationPlan

  predicate AcceptsVersion(version: u8) {
    version == BIN_ARRAY_VERSION_V2 || version == BIN_ARRAY_VERSION_V3
  }

  /** One fetched array belongs to the pool, is complete and sits at its derived address. */
  predicate AcceptableArray(pda: Derivation, pool: Pubkey, a: BinArray) {
    && ValidArrayIndex(a.index) && (a.version == 2 || a.version == 3) && a.lbPair == pool
    && |a.bins| == MAX_BIN_PER_ARRAY && a.pubkey == pda(a.index)
  }

  ghost predicate AcceptableArrays(pda: Derivation, pool: Pubkey, arrays: seq<BinArray>) {
    && (forall k :: 0 <= k < |arrays| ==> AcceptableArray(pda, pool, arrays[k]))
    && (forall j, k :: 0 <= j < k < |arrays| ==> arrays[j].index != arrays[k].index)
  }

  /** Accepts exactly a pool's own extension and complete, canonical, distinct arrays, and keeps them in order. */
  method NewSnapshot(pda: Derivation, pool: Pubkey, lbPair: LbPair, inputs: seq<BinArray>,
                     extension: Option<BitmapExtension>,
                     mintX: Pubkey, mintY: Pubkey, unixTimestamp: i64, source: Source)
    returns (r: Result<Snapshot, Failure>)
    ensures r.Ok? <==> (extension.Some? ==> extension.value.lbPair == pool) && AcceptableArrays(pda, pool, inputs)
    ensures r.Ok? ==> r.value == Snapshot(pool, lbPair, inputs, extension, mintX, mintY, unixTimestamp, source)
    ensures r.Ok? ==> ValidSnapshot(r.value)
  {
    if extension.Some? && extension.value.lbPair != pool {
      return Err(InvalidBitmapExtension);
    }
    var validated: seq<BinArray> := [];
    for k := 0 to |inputs|
      invariant validated == inputs[..k]
      invariant AcceptableArrays(pda, pool, validated)
    {
      var input := inputs[k];
      if !ValidArrayIndex(input.index) {
        return Err(ProtocolSearchRangeExceeded);
      }
      if !AcceptsVersion(input.version) {
        return Err(UnsupportedBinArrayVersion);
      }
      if input.lbPair != pool || |input.bins| != MAX_BIN_PER_ARRAY {
        return Err(InvalidBinArray);
      }
      if input.pubkey != pda(input.index) {
        return Err(LegacyOrNonCanonicalBinArray);
      }
      for j := 0 to |validated|
        invariant forall i :: 0 <= i < j ==> validated[i].index != input.index
      {
        if validated[j].index == input.index {
          return Err(InvalidLayout);
        }
      }
      validated := validated + [input];
    }
    return Ok(Snapshot(pool, lbPair, validated, extension, mintX, mintY, unixTimestamp, source));
  }
}
