/** Where bins and bitmap bits live. */
module MeteoraAddressing {
  import opened Wrappers
  import opened Machine
  import opened MeteoraTypes
  import opened DirectionalSearch

  // ----- Bin ids

  /** Division truncating toward zero, as the machine does it. */
  function TruncatedQuotient(a: int, b: nat): int
    requires b > 0
  {
    if a >= 0 then a / b else -((-a) / b)
  }

  function TruncatedRemainder(a: int, b: nat): int
    requires b > 0
  {
    a - TruncatedQuotient(a, b) * b
  }

  function ArrayIndexOfBin(binId: i32): (r: Result<int, Failure>)
  {
    var quotient := TruncatedQuotient(binId, MAX_BIN_PER_ARRAY);
    var remainder := TruncatedRemainder(binId, MAX_BIN_PER_ARRAY);
    var index := if binId < 0 && remainder != 0 then quotient - 1 else quotient;
    if ValidArrayIndex(index) then Ok(index) else Err(ProtocolSearchRangeExceeded)
  }

  function BinOffset(binId: i32): (r: Result<nat, Failure>)
  {
    var index :- ArrayIndexOfBin(binId);
    ArrayIndexIsFloor(binId, index);
    Ok(binId - index * MAX_BIN_PER_ARRAY)
  }

  /** The truncating code computes floor division, on negative ids too. */
  lemma ArrayIndexIsFloor(binId: i32, index: int)
    ensures ArrayIndexOfBin(binId) == Ok(index)
       <==> ValidArrayIndex(index) && index * MAX_BIN_PER_ARRAY <= binId < (index + 1) * MAX_BIN_PER_ARRAY
  {
  }

  /** Bin ids of the protocol range correspond one to one to pairs of array index and offset 0..69. */
  lemma BinAddressBijective(binId: i32, index: int, offset: int)
    ensures
      && ArrayIndexOfBin(binId) == Ok(index) && BinOffset(binId) == Ok(offset)
      <==> ValidArrayIndex(index) && 0 <= offset < MAX_BIN_PER_ARRAY && binId == index * MAX_BIN_PER_ARRAY + offset
  {
  }

  // ----- Bitmap bits

  datatype Region = Internal | NegativeExtension | PositiveExtension

  /** One bit of the three bitmaps; the internal bitmap is a single chunk of sixteen words. */
  datatype BitAddress = BitAddress(region: Region, chunk: nat, word: nat, bit: nat) {
    predicate Valid() {
      && bit < 64
      && (if region == Internal then chunk == 0 && word < 16 else chunk < 12 && word < 8)
    }
  }

  function RegionOf(index: int): (r: Result<Region, Failure>)
  {
    if !ValidArrayIndex(index) then Err(ProtocolSearchRangeExceeded)
    else if index <= NEGATIVE_BITMAP_EXTENSION_MAX_INDEX then Ok(NegativeExtension)
    else if index <= INTERNAL_BITMAP_MAX_INDEX then Ok(Internal)
    else Ok(PositiveExtension)
  }

  predicate BitSet(word: Word, bit: nat)
    requires bit < 64
  {
    word & ((1 as Word) << bit) != 0
  }

  function InternalBit(bitmap: InternalBitmap, index: int): (r: Result<bool, Failure>)
  {
    if !(INTERNAL_BITMAP_MIN_INDEX <= index <= INTERNAL_BITMAP_MAX_INDEX) then Err(InvalidLayout) else
    var bitOffset := index - INTERNAL_BITMAP_MIN_INDEX;
    Ok(BitSet(bitmap[bitOffset / 64], bitOffset % 64))
  }

  function ExtensionBit(bitmap: BitmapRegion, index: int, positive: bool): (r: Result<bool, Failure>)
  {
    var logical := if positive then index - POSITIVE_BITMAP_EXTENSION_MIN_INDEX
                   else NEGATIVE_BITMAP_EXTENSION_MAX_INDEX - index;
    if logical < 0 then Err(InvalidLayout) else
    var chunk := logical / 512;
    var word := (logical % 512) / 64;
    if chunk >= 12 then Err(InvalidLayout) else
    Ok(BitSet(bitmap[chunk][word], (logical % 512) % 64))
  }

  function BitmapBit(bitmap: InternalBitmap, extension: Option<BitmapExtension>, index: int): (r: Result<bool, Failure>)
  {
    var region :- RegionOf(index);
    match region
    case Internal => InternalBit(bitmap, index)
    case NegativeExtension =>
      if extension.None? then Err(BitmapExtensionRequired) else ExtensionBit(extension.value.negative, index, false)
    case PositiveExtension =>
      if extension.None? then Err(BitmapExtensionRequired) else ExtensionBit(extension.value.positive, index, true)
  }

  /** The index a bit stands for: extensions count away from the internal bitmap. */
  function IndexOfAddress(a: BitAddress): int {
    match a.region
    case Internal => INTERNAL_BITMAP_MIN_INDEX + 64 * a.word + a.bit
    case PositiveExtension => POSITIVE_BITMAP_EXTENSION_MIN_INDEX + 512 * a.chunk + 64 * a.word + a.bit
    case NegativeExtension => NEGATIVE_BITMAP_EXTENSION_MAX_INDEX - 512 * a.chunk - 64 * a.word - a.bit
  }

  function WordAt(bitmap: InternalBitmap, extension: Option<BitmapExtension>, a: BitAddress): Option<Word>
    requires a.Valid()
  {
    match a.region
    case Internal => Some(bitmap[a.word])
    case PositiveExtension => if extension.None? then None else Some(extension.value.positive[a.chunk][a.word])
    case NegativeExtension => if extension.None? then None else Some(extension.value.negative[a.chunk][a.word])
  }

  /** Every protocol index has a bit, and only one. */
  lemma BitAddressBijective(index: int)
    requires ValidArrayIndex(index)
    ensures exists a: BitAddress :: a.Valid() && IndexOfAddress(a) == index
    ensures forall a: BitAddress, b: BitAddress ::
              a.Valid() && b.Valid() && IndexOfAddress(a) == index && IndexOfAddress(b) == index ==> a == b
  {
    var a := if index <= NEGATIVE_BITMAP_EXTENSION_MAX_INDEX then
      var l := NEGATIVE_BITMAP_EXTENSION_MAX_INDEX - index;
      BitAddress(NegativeExtension, l / 512, (l % 512) / 64, (l % 512) % 64)
    else if index <= INTERNAL_BITMAP_MAX_INDEX then
      BitAddress(Internal, 0, (index - INTERNAL_BITMAP_MIN_INDEX) / 64, (index - INTERNAL_BITMAP_MIN_INDEX) % 64)
    else
      var l := index - POSITIVE_BITMAP_EXTENSION_MIN_INDEX;
      BitAddress(PositiveExtension, l / 512, (l % 512) / 64, (l % 512) % 64);
    assert a.Valid() && IndexOfAddress(a) == index;
  }

  lemma SplitLogicalOffset(chunk: nat, word: nat, bit: nat)
    requires word < 8 && bit < 64
    ensures
      var logical := 512 * chunk + 64 * word + bit;
      logical / 512 == chunk && (logical % 512) / 64 == word && (logical % 512) % 64 == bit
  {
  }

  /** Every bit stands for a protocol index, and reading that index reads exactly that bit. */
  lemma BitmapReadsItsAddress(bitmap: InternalBitmap, extension: Option<BitmapExtension>, a: BitAddress)
    requires a.Valid()
    ensures ValidArrayIndex(IndexOfAddress(a))
    ensures
      var word := WordAt(bitmap, extension, a);
      BitmapBit(bitmap, extension, IndexOfAddress(a))
      == if word.None? then Err(BitmapExtensionRequired) else Ok(BitSet(word.value, a.bit))
  {
    hide BitSet;
    var index := IndexOfAddress(a);
    match a.region {
      case Internal =>
        assert index - INTERNAL_BITMAP_MIN_INDEX == 64 * a.word + a.bit;
      case _ =>
        SplitLogicalOffset(a.chunk, a.word, a.bit);
    }
  }

  /** The three bitmaps as the search reads them. */
  function ReaderOf(bitmap: InternalBitmap, extension: Option<BitmapExtension>): Reader {
    index => BitmapBit(bitmap, extension, index)
  }

  /** An index of the protocol range is unreadable exactly when it lies in a missing extension. */
  lemma BitmapReadable(bitmap: InternalBitmap, extension: Option<BitmapExtension>, index: int)
    ensures Readable(ReaderOf(bitmap, extension), index)
       <==> ValidArrayIndex(index) && (INTERNAL_BITMAP_MIN_INDEX <= index <= INTERNAL_BITMAP_MAX_INDEX || extension.Some?)
    ensures ValidArrayIndex(index) && !Readable(ReaderOf(bitmap, extension), index)
        ==> ReaderOf(bitmap, extension)(index) == Err(BitmapExtensionRequired)
  {
  }
}
