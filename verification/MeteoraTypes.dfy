/** The Meteora DLMM state the quote engine reads. */
module MeteoraTypes {
  import opened Wrappers
  import opened Machine

  datatype Failure =
    | InvalidLbPair
    | InvalidBinArray
    | UnsupportedBinArrayVersion
    | LegacyOrNonCanonicalBinArray
    | InvalidBitmapExtension
    | BitmapExtensionRequired
    | InvalidLayout
    | UnsupportedToken
    | UnsupportedCollectFeeMode
    | StaleState
    | InsufficientHydration
    | InsufficientLiquidity
    | ArithmeticOverflow
    | PartialFillRejected
    | AccountFootprintExceeded
    | ProtocolSearchRangeExceeded

  const BIN_ARRAY_MIN_INDEX := -6656
  const BIN_ARRAY_MAX_INDEX := 6655
  const INTERNAL_BITMAP_MIN_INDEX := -512
  const INTERNAL_BITMAP_MAX_INDEX := 511
  const NEGATIVE_BITMAP_EXTENSION_MAX_INDEX := -513
  const POSITIVE_BITMAP_EXTENSION_MIN_INDEX := 512
  const MAX_BIN_PER_ARRAY := 70
  const BIN_ARRAY_VERSION_V2 := 2
  const BIN_ARRAY_VERSION_V3 := 3

  const FEE_PRECISION := 1_000_000_000
  const MAX_FEE_RATE := 100_000_000
  const LIMIT_ORDER_FEE_SHARE := 5_000
  const BASIS_POINT_MAX := 10_000
  const VARIABLE_FEE_DENOMINATOR := 100_000_000_000
  const Q64_ONE := 0x1_0000_0000_0000_0000
  const Q64_MAX_EXPONENTIAL := 0x80000

  /** A 64-bit bitmap word. */
  type Word = bv64
  type InternalBitmap = s: seq<Word> | |s| == 16 witness seq(16, _ => 0 as Word)
  type BitmapChunk = s: seq<Word> | |s| == 8 witness seq(8, _ => 0 as Word)
  const EMPTY_CHUNK: BitmapChunk := seq(8, _ => 0 as Word)
  type BitmapRegion = s: seq<BitmapChunk> | |s| == 12 witness seq(12, _ => EMPTY_CHUNK)

  datatype LbPair = LbPair(
    baseFactor: u16,
    filterPeriod: u16,
    decayPeriod: u16,
    reductionFactor: u16,
    variableFeeControl: u32,
    maxVolatilityAccumulator: u32,
    protocolShare: u16,
    baseFeePowerFactor: u8,
    collectFeeMode: u8,
    volatilityAccumulator: u32,
    volatilityReference: u32,
    indexReference: i32,
    lastUpdateTimestamp: i64,
    activeId: i32,
    binStep: u16,
    bitmap: InternalBitmap)

  datatype Bin = Bin(
    amountX: u64,
    amountY: u64,
    price: u128,
    openOrderAmount: u64,
    processedOrderRemainingAmount: u64,
    limitOrderAskSide: u8)

  datatype Volatility = Volatility(accumulator: u32, reference: u32, indexReference: i32)

  datatype BitmapExtension = BitmapExtension(lbPair: Pubkey, positive: BitmapRegion, negative: BitmapRegion)

  datatype BinArray = BinArray(pubkey: Pubkey, index: i64, version: u8, lbPair: Pubkey, bins: seq<Bin>)

  datatype Source = Source(sourceSlot: u64, generationId: u64)

  datatype Snapshot = Snapshot(
    lbPairPubkey: Pubkey,
    lbPair: LbPair,
    binArrays: seq<BinArray>,
    extension: Option<BitmapExtension>,
    mintX: Pubkey,
    mintY: Pubkey,
    unixTimestamp: i64,
    source: Source)

  /** The position of the first array with the index. */
  function FindArray(arrays: seq<BinArray>, index: int): (r: Option<BinArray>)
    ensures r.Some? ==> r.value in arrays && r.value.index == index
    ensures r.None? ==> forall a :: a in arrays ==> a.index != index
  {
    if arrays == [] then None
    else if arrays[0].index == index then Some(arrays[0])
    else FindArray(arrays[1..], index)
  }

  function BinArrayByIndex(snapshot: Snapshot, index: int): (r: Result<Option<BinArray>, Failure>)
  {
    if !(BIN_ARRAY_MIN_INDEX <= index <= BIN_ARRAY_MAX_INDEX) then Err(ProtocolSearchRangeExceeded)
    else Ok(FindArray(snapshot.binArrays, index))
  }
}
