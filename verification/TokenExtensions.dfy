/** The extension list behind a Token-2022 mint: which lists are accepted, and the transfer fee they set. */
module TokenExtensions {
  import opened Wrappers
  import opened Machine
  import opened Bytes

  const MINT_BASE_LEN := 82
  const TLV_START := 166
  const TRANSFER_FEE_CONFIG: u16 := 1
  const METADATA_POINTER: u16 := 18
  const TOKEN_METADATA: u16 := 19
  const TRANSFER_FEE_CONFIG_LEN := 108
  const METADATA_POINTER_LEN := 64
  const MAX_FEE_BASIS_POINTS := 10_000

  datatype ExtensionError =
    | TooShort | NotInitialized | BadLayout | Truncated | Duplicate | BadLength | BadFee | Unsupported

  datatype TransferFee = TransferFee(basisPoints: u16, maximumFee: u64)
  datatype EpochFee = EpochFee(epoch: u64, fee: TransferFee)

  // ---------------------------------------------------------------- one extension

  function ReadU16(b: bytes, at: nat): (v: u16)
    requires at + 2 <= |b|
  {
    var low: int, high: int := b[at], b[at + 1];
    low + 256 * high
  }

  function ReadU64(b: bytes, at: nat): (v: u64)
    requires at + 8 <= |b|
  {
    FromLittleEndianRoundTrip(b[at..at + 8]);
    Pow256Widths();
    FromLittleEndian(b[at..at + 8])
  }

  function ReadEpochFee(b: bytes, at: nat): EpochFee
    requires at + 18 <= |b|
  {
    EpochFee(ReadU64(b, at), TransferFee(ReadU16(b, at + 16), ReadU64(b, at + 8)))
  }

  /** The newer fee from its epoch on, the older one before. */
  function ParseFeeConfig(b: bytes, currentEpoch: u64): Result<TransferFee, ExtensionError> {
    if |b| != TRANSFER_FEE_CONFIG_LEN then Err(BadLength)
    else
      var older, newer := ReadEpochFee(b, 72), ReadEpochFee(b, 90);
      if older.fee.basisPoints > MAX_FEE_BASIS_POINTS || newer.fee.basisPoints > MAX_FEE_BASIS_POINTS then Err(BadFee)
      else Ok(if currentEpoch >= newer.epoch then newer.fee else older.fee)
  }

  // ---------------------------------------------------------------- the walk

  datatype Seen = Seen(fee: Option<TransferFee>, pointer: bool, metadata: bool)

  function Accept(s: Seen, kind: u16, value: bytes, currentEpoch: u64): Result<Seen, ExtensionError> {
    if kind == TRANSFER_FEE_CONFIG then
      if s.fee.Some? then Err(Duplicate)
      else
        var fee :- ParseFeeConfig(value, currentEpoch);
        Ok(s.(fee := Some(fee)))
    else if kind == METADATA_POINTER then
      if s.pointer then Err(Duplicate)
      else if |value| != METADATA_POINTER_LEN then Err(BadLength)
      else Ok(s.(pointer := true))
    else if kind == TOKEN_METADATA then
      if s.metadata then Err(Duplicate) else Ok(s.(metadata := true))
    else Err(Unsupported)
  }

  /** The walk over what is left of the data. */
  function Walk(rest: bytes, s: Seen, currentEpoch: u64): Result<Option<TransferFee>, ExtensionError>
    decreases |rest|
  {
    if |rest| < 2 || ReadU16(rest, 0) == 0 then Ok(s.fee)
    else if |rest| < 4 then Err(Truncated)
    else
      var end := 4 + ReadU16(rest, 2);
      if end > |rest| then Err(Truncated)
      else
        var next :- Accept(s, ReadU16(rest, 0), rest[4..end], currentEpoch);
        Walk(rest[end..], next, currentEpoch)
  }

  const NOTHING_SEEN := Seen(None, false, false)

  function CheckPrefix(data: bytes): Result<(), ExtensionError> {
    if |data| < MINT_BASE_LEN then Err(TooShort)
    else if data[45] != 1 then Err(NotInitialized)
    else if |data| == MINT_BASE_LEN then Ok(())
    else if |data| < TLV_START then Err(BadLayout)
    else if exists i :: MINT_BASE_LEN <= i < TLV_START - 1 && data[i] != 0 then Err(BadLayout)
    else if data[TLV_START - 1] != 1 then Err(BadLayout)
    else Ok(())
  }

  function CurrentTransferFee(data: bytes, currentEpoch: u64): Result<Option<TransferFee>, ExtensionError> {
    var checked :- CheckPrefix(data);
    if |data| < TLV_START then Ok(None) else Walk(data[TLV_START..], NOTHING_SEEN, currentEpoch)
  }

  method CurrentTransferFeeForMint(data: bytes, currentEpoch: u64)
    returns (r: Result<Option<TransferFee>, ExtensionError>)
    ensures r == CurrentTransferFee(data, currentEpoch)
  {
    hide Accept;
    var checked := CheckPrefix(data);
    if checked.Err? {
      return Err(checked.error);
    }
    if |data| == MINT_BASE_LEN {
      return Ok(None);
    }
    var offset := TLV_START;
    var seen := NOTHING_SEEN;
    while true
      invariant TLV_START <= offset <= |data|
      invariant CurrentTransferFee(data, currentEpoch) == Walk(data[offset..], seen, currentEpoch)
      decreases |data| - offset
    {
      ghost var rest := data[offset..];
      if |data| - offset < 2 {
        return Ok(seen.fee);
      }
      var kind := ReadU16(data, offset);
      assert kind == ReadU16(rest, 0);
      if kind == 0 {
        return Ok(seen.fee);
      }
      var headerEnd := offset + 4;
      if headerEnd > |data| {
        return Err(Truncated);
      }
      var length := ReadU16(data, offset + 2);
      assert length == ReadU16(rest, 2);
      var valueEnd := headerEnd + length;
      if valueEnd > |data| {
        return Err(Truncated);
      }
      assert data[headerEnd..valueEnd] == rest[4..4 + length] && data[valueEnd..] == rest[4 + length..];
      var next := Accept(seen, kind, data[headerEnd..valueEnd], currentEpoch);
      if next.Err? {
        return Err(next.error);
      }
      seen, offset := next.value, valueEnd;
    }
  }

  // ---------------------------------------------------------------- what is accepted

  datatype Extension = Extension(kind: u16, value: bytes)

  function Encode(e: Extension): bytes
    requires |e.value| <= U16_MAX
  {
    [e.kind % 256, e.kind / 256, |e.value| % 256, |e.value| / 256] + e.value
  }

  ghost predicate Encodable(list: seq<Extension>) {
    forall k :: 0 <= k < |list| ==> |list[k].value| <= U16_MAX
  }

  function EncodeAll(list: seq<Extension>): bytes
    requires Encodable(list)
  {
    if list == [] then [] else Encode(list[0]) + EncodeAll(list[1..])
  }

  /** The bytes of one fee entry: epoch, maximum, rate. */
  function EncodeEpochFee(f: EpochFee): (b: bytes)
    ensures |b| == 18
  {
    LittleEndian(f.epoch, 8) + LittleEndian(f.fee.maximumFee, 8) + LittleEndian(f.fee.basisPoints, 2)
  }

  /** The bytes of a transfer-fee configuration: authorities and the withheld amount, then two fee entries. */
  function EncodeFeeConfig(leading: bytes, older: EpochFee, newer: EpochFee): bytes {
    leading + EncodeEpochFee(older) + EncodeEpochFee(newer)
  }

  predicate ProperFee(f: EpochFee) {
    f.fee.basisPoints <= 10_000
  }

  /** The configuration holds two proper fees; the newer one applies from its epoch on, the older one before. */
  ghost predicate SetsFee(value: bytes, currentEpoch: u64, fee: TransferFee) {
    exists leading, older, newer ::
      && |leading| == 72 && value == EncodeFeeConfig(leading, older, newer)
      && ProperFee(older) && ProperFee(newer)
      && fee == if currentEpoch < newer.epoch then older.fee else newer.fee
  }

  lemma EpochFeeReads(b: bytes, at: nat, f: EpochFee)
    requires at + 18 <= |b| && b[at..at + 18] == EncodeEpochFee(f)
    ensures ReadEpochFee(b, at) == f
  {
    hide LittleEndian, FromLittleEndian;
    Pow256Widths();
    LittleEndianRoundTrip(f.epoch, 8);
    LittleEndianRoundTrip(f.fee.maximumFee, 8);
    LittleEndianRoundTrip(f.fee.basisPoints, 2);
    AtSplit(b, at, LittleEndian(f.epoch, 8) + LittleEndian(f.fee.maximumFee, 8), LittleEndian(f.fee.basisPoints, 2));
    AtSplit(b, at, LittleEndian(f.epoch, 8), LittleEndian(f.fee.maximumFee, 8));
    PairReads(b[at + 16..at + 18]);
  }

  lemma PairReads(b: bytes)
    requires |b| == 2
    ensures FromLittleEndian(b) == ReadU16(b, 0)
  {
    assert FromLittleEndian(b[1..]) == b[1] as int + 256 * FromLittleEndian([]);
  }

  /** Every 18 bytes are a fee entry. */
  lemma EpochFeeWritten(b: bytes, at: nat)
    requires at + 18 <= |b|
    ensures b[at..at + 18] == EncodeEpochFee(ReadEpochFee(b, at))
  {
    hide LittleEndian, FromLittleEndian;
    FromLittleEndianRoundTrip(b[at..at + 8]);
    FromLittleEndianRoundTrip(b[at + 8..at + 16]);
    FromLittleEndianRoundTrip(b[at + 16..at + 18]);
    PairReads(b[at + 16..at + 18]);
    assert b[at..at + 18] == b[at..at + 8] + b[at + 8..at + 16] + b[at + 16..at + 18];
  }

  /** A configuration written with two fees is read as those fees. */
  lemma FeeConfigReads(leading: bytes, older: EpochFee, newer: EpochFee, currentEpoch: u64)
    requires |leading| == 72
    ensures
      ParseFeeConfig(EncodeFeeConfig(leading, older, newer), currentEpoch)
      == if !ProperFee(older) || !ProperFee(newer) then Err(BadFee)
         else Ok(if currentEpoch < newer.epoch then older.fee else newer.fee)
  {
    hide EncodeEpochFee, ReadEpochFee;
    var b := EncodeFeeConfig(leading, older, newer);
    assert b[72..90] == EncodeEpochFee(older) && b[90..108] == EncodeEpochFee(newer);
    EpochFeeReads(b, 72, older);
    EpochFeeReads(b, 90, newer);
  }

  /** A configuration sets a fee exactly when it is 108 bytes long and both its fees are proper. */
  lemma FeeConfigSets(b: bytes, currentEpoch: u64, fee: TransferFee)
    ensures ParseFeeConfig(b, currentEpoch) == Ok(fee) <==> SetsFee(b, currentEpoch, fee)
    ensures |b| != 108 ==> ParseFeeConfig(b, currentEpoch) == Err(BadLength)
  {
    hide EncodeEpochFee, ReadEpochFee;
    if SetsFee(b, currentEpoch, fee) {
      var leading, older, newer :|
        && |leading| == 72 && b == EncodeFeeConfig(leading, older, newer)
        && ProperFee(older) && ProperFee(newer)
        && fee == if currentEpoch < newer.epoch then older.fee else newer.fee;
      FeeConfigReads(leading, older, newer, currentEpoch);
    }
    if |b| == 108 {
      var older, newer := ReadEpochFee(b, 72), ReadEpochFee(b, 90);
      EpochFeeWritten(b, 72);
      EpochFeeWritten(b, 90);
      assert b == b[..72] + b[72..90] + b[90..108];
      FeeConfigReads(b[..72], older, newer, currentEpoch);
      assert b == EncodeFeeConfig(b[..72], older, newer);
    }
  }

  /** The list ends with the data, or at an uninitialized entry. */
  predicate IsEnd(tail: bytes) {
    |tail| < 2 || (tail[0] == 0 && tail[1] == 0)
  }

  /** A supported extension of the right shape. */
  ghost predicate Supported(e: Extension, currentEpoch: u64) {
    || (e.kind == TRANSFER_FEE_CONFIG && exists fee :: SetsFee(e.value, currentEpoch, fee))
    || (e.kind == METADATA_POINTER && |e.value| == METADATA_POINTER_LEN)
    || e.kind == TOKEN_METADATA
  }

  ghost predicate KindsDiffer(list: seq<Extension>) {
    forall i, j :: 0 <= i < j < |list| ==> list[i].kind != list[j].kind
  }

  /** The kinds that may still come. */
  predicate Open(s: Seen, kind: u16) {
    if kind == TRANSFER_FEE_CONFIG then s.fee.None?
    else if kind == METADATA_POINTER then !s.pointer
    else if kind == TOKEN_METADATA then !s.metadata
    else false
  }

  ghost predicate Permitted(list: seq<Extension>, s: Seen, currentEpoch: u64) {
    && Encodable(list) && KindsDiffer(list)
    && forall k :: 0 <= k < |list| ==> Open(s, list[k].kind) && Supported(list[k], currentEpoch)
  }

  /** The list sets this fee, or none and leaves what there was. */
  ghost predicate ListSets(list: seq<Extension>, already: Option<TransferFee>, currentEpoch: u64,
                           fee: Option<TransferFee>)
  {
    if exists e :: e in list && e.kind == TRANSFER_FEE_CONFIG
    then fee.Some? && exists e :: e in list && e.kind == TRANSFER_FEE_CONFIG && SetsFee(e.value, currentEpoch, fee.value)
    else fee == already
  }

  ghost predicate ReadsAs(rest: bytes, list: seq<Extension>, tail: bytes, s: Seen, currentEpoch: u64) {
    Permitted(list, s, currentEpoch) && IsEnd(tail) && rest == EncodeAll(list) + tail
  }

  lemma EncodeReads(e: Extension, behind: bytes)
    requires |e.value| <= U16_MAX
    ensures var b := Encode(e) + behind;
      && 4 + |e.value| <= |b| && ReadU16(b, 0) == e.kind && ReadU16(b, 2) == |e.value|
      && b[4..4 + |e.value|] == e.value && b[4 + |e.value|..] == behind
  {
  }

  /** A permitted list, encoded, is walked to its fee. */
  lemma {:induction false} PermittedIsAccepted(rest: bytes, list: seq<Extension>, tail: bytes, s: Seen,
                                        currentEpoch: u64)
    requires ReadsAs(rest, list, tail, s, currentEpoch)
    ensures var r := Walk(rest, s, currentEpoch); r.Ok? && ListSets(list, s.fee, currentEpoch, r.value)
    decreases |list|
  {
    hide ParseFeeConfig, SetsFee, Encode, ListSets, Supported, Accept, Walk;
    if list == [] {
      NoneSet(s, currentEpoch);
      assert rest == tail;
      WalkEnds(rest, s, currentEpoch);
    } else {
      var e := list[0];
      var behind := EncodeAll(list[1..]) + tail;
      assert rest == Encode(e) + behind;
      assert Open(s, e.kind) && Supported(e, currentEpoch);
      SupportedIsAccepted(s, e, currentEpoch);
      var next := Accept(s, e.kind, e.value, currentEpoch).value;
      forall k | 0 <= k < |list| - 1 ensures Open(next, list[1..][k].kind) && Supported(list[1..][k], currentEpoch) {
        assert Open(s, list[k + 1].kind) && list[0].kind != list[k + 1].kind;
        StaysOpen(s, e, list[k + 1].kind, currentEpoch);
      }
      PermittedIsAccepted(behind, list[1..], tail, next, currentEpoch);
      WalksOn(e, behind, s, currentEpoch);
      SetsBefore(list, s, currentEpoch, Walk(behind, next, currentEpoch).value);
    }
  }

  lemma WalkEnds(rest: bytes, s: Seen, currentEpoch: u64)
    requires IsEnd(rest)
    ensures Walk(rest, s, currentEpoch) == Ok(s.fee)
  {
  }

  lemma WalksOn(e: Extension, behind: bytes, s: Seen, currentEpoch: u64)
    requires |e.value| <= U16_MAX && e.kind > 0 && Accept(s, e.kind, e.value, currentEpoch).Ok?
    ensures Walk(Encode(e) + behind, s, currentEpoch)
         == Walk(behind, Accept(s, e.kind, e.value, currentEpoch).value, currentEpoch)
  {
    hide Accept, Encode;
    EncodeReads(e, behind);
    var rest := Encode(e) + behind;
    var end := 4 + ReadU16(rest, 2);
    assert rest[4..end] == e.value && rest[end..] == behind;
  }

  lemma StaysOpen(s: Seen, e: Extension, kind: u16, currentEpoch: u64)
    requires Accept(s, e.kind, e.value, currentEpoch).Ok?
    ensures Open(Accept(s, e.kind, e.value, currentEpoch).value, kind) <==> Open(s, kind) && kind != e.kind
  {
  }

  lemma NoneSet(s: Seen, currentEpoch: u64)
    ensures ListSets([], s.fee, currentEpoch, s.fee)
  {
  }

  lemma SupportedIsAccepted(s: Seen, e: Extension, currentEpoch: u64)
    ensures Accept(s, e.kind, e.value, currentEpoch).Ok? <==> Open(s, e.kind) && Supported(e, currentEpoch)
    ensures Accept(s, e.kind, e.value, currentEpoch).Ok? ==>
      var next := Accept(s, e.kind, e.value, currentEpoch).value;
      && (e.kind != TRANSFER_FEE_CONFIG ==> next.fee == s.fee)
      && (e.kind == TRANSFER_FEE_CONFIG ==> next.fee.Some? && SetsFee(e.value, currentEpoch, next.fee.value))
  {
    hide ParseFeeConfig, SetsFee;
    forall fee ensures ParseFeeConfig(e.value, currentEpoch) == Ok(fee) <==> SetsFee(e.value, currentEpoch, fee) {
      FeeConfigSets(e.value, currentEpoch, fee);
    }
    var parsed := ParseFeeConfig(e.value, currentEpoch);
    assert parsed.Ok? ==> parsed == Ok(parsed.value);
  }

  lemma SetsBefore(list: seq<Extension>, s: Seen, currentEpoch: u64, fee: Option<TransferFee>)
    requires list != [] && KindsDiffer(list)
    requires Accept(s, list[0].kind, list[0].value, currentEpoch).Ok?
    requires ListSets(list[1..], Accept(s, list[0].kind, list[0].value, currentEpoch).value.fee, currentEpoch, fee)
    ensures ListSets(list, s.fee, currentEpoch, fee)
  {
    hide Accept, SetsFee;
    SupportedIsAccepted(s, list[0], currentEpoch);
    assert forall e :: e in list <==> e == list[0] || e in list[1..];
  }

  lemma PermittedExtends(e: Extension, more: seq<Extension>, s: Seen, currentEpoch: u64)
    requires |e.value| <= U16_MAX && Accept(s, e.kind, e.value, currentEpoch).Ok?
    requires Permitted(more, Accept(s, e.kind, e.value, currentEpoch).value, currentEpoch)
    ensures Permitted([e] + more, s, currentEpoch)
    ensures EncodeAll([e] + more) == Encode(e) + EncodeAll(more)
  {
    hide Supported, Accept;
    SupportedIsAccepted(s, e, currentEpoch);
    var list := [e] + more;
    forall k | 0 <= k < |list| ensures Open(s, list[k].kind) && Supported(list[k], currentEpoch) {
      if k > 0 {
        assert list[k] == more[k - 1];
        StaysOpen(s, e, list[k].kind, currentEpoch);
      }
    }
    forall j, k | 0 <= j < k < |list| ensures list[j].kind != list[k].kind {
      if j == 0 {
        StaysOpen(s, e, more[k - 1].kind, currentEpoch);
      }
    }
    assert list[1..] == more;
  }

  lemma EncodeWrites(rest: bytes)
    requires |rest| >= 4 && 4 + ReadU16(rest, 2) <= |rest|
    ensures var end := 4 + ReadU16(rest, 2);
      rest == Encode(Extension(ReadU16(rest, 0), rest[4..end])) + rest[end..]
  {
  }

  /** One accepted entry and what is left behind it. */
  lemma WalkStep(rest: bytes, s: Seen, currentEpoch: u64) returns (e: Extension, behind: bytes)
    requires Walk(rest, s, currentEpoch).Ok? && !IsEnd(rest)
    ensures |e.value| <= U16_MAX && rest == Encode(e) + behind && |behind| < |rest|
    ensures Accept(s, e.kind, e.value, currentEpoch).Ok?
    ensures Walk(behind, Accept(s, e.kind, e.value, currentEpoch).value, currentEpoch) == Walk(rest, s, currentEpoch)
  {
    hide Accept, Encode;
    EncodeWrites(rest);
    var end := 4 + ReadU16(rest, 2);
    e, behind := Extension(ReadU16(rest, 0), rest[4..end]), rest[end..];
  }

  /** What the walk accepts is the encoding of a permitted list. */
  lemma {:induction false} AcceptedIsPermitted(rest: bytes, s: Seen, currentEpoch: u64)
    returns (list: seq<Extension>, tail: bytes)
    requires Walk(rest, s, currentEpoch).Ok?
    ensures ReadsAs(rest, list, tail, s, currentEpoch)
    decreases |rest|
  {
    hide Accept, Encode, Supported, Walk, IsEnd;
    if IsEnd(rest) {
      list, tail := [], rest;
      assert rest == [] + rest;
    } else {
      var e, behind := WalkStep(rest, s, currentEpoch);
      var more;
      more, tail := AcceptedIsPermitted(behind, Accept(s, e.kind, e.value, currentEpoch).value, currentEpoch);
      hide EncodeAll;
      list := [e] + more;
      PermittedExtends(e, more, s, currentEpoch);
      assert Encode(e) + (EncodeAll(more) + tail) == Encode(e) + EncodeAll(more) + tail;
    }
  }

  /**
    * A list of extensions yields a fee exactly when they are supported, none twice, up to the end of the
    * data or an uninitialized entry; the fee is the one its transfer-fee extension sets for the epoch.
    */
  lemma WalkAcceptsPermitted(rest: bytes, currentEpoch: u64, fee: Option<TransferFee>)
    ensures Walk(rest, NOTHING_SEEN, currentEpoch) == Ok(fee) <==>
      exists list, tail ::
        ReadsAs(rest, list, tail, NOTHING_SEEN, currentEpoch) && ListSets(list, None, currentEpoch, fee)
  {
    hide Walk, ReadsAs, ListSets;
    if list, tail :| ReadsAs(rest, list, tail, NOTHING_SEEN, currentEpoch) && ListSets(list, None, currentEpoch, fee) {
      PermittedIsAccepted(rest, list, tail, NOTHING_SEEN, currentEpoch);
      OneFee(rest, list, tail, currentEpoch, fee, Walk(rest, NOTHING_SEEN, currentEpoch).value);
    }
    if Walk(rest, NOTHING_SEEN, currentEpoch) == Ok(fee) {
      var list, tail := AcceptedIsPermitted(rest, NOTHING_SEEN, currentEpoch);
      PermittedIsAccepted(rest, list, tail, NOTHING_SEEN, currentEpoch);
    }
  }

  /** A list whose kinds differ sets one fee. */
  lemma OneFee(rest: bytes, list: seq<Extension>, tail: bytes, currentEpoch: u64, a: Option<TransferFee>,
               b: Option<TransferFee>)
    requires ReadsAs(rest, list, tail, NOTHING_SEEN, currentEpoch)
    requires ListSets(list, None, currentEpoch, a) && ListSets(list, None, currentEpoch, b)
    ensures a == b
  {
    hide SetsFee, Encodable;
    if e :| e in list && e.kind == TRANSFER_FEE_CONFIG {
      var x :| x in list && x.kind == TRANSFER_FEE_CONFIG && SetsFee(x.value, currentEpoch, a.value);
      var y :| y in list && y.kind == TRANSFER_FEE_CONFIG && SetsFee(y.value, currentEpoch, b.value);
      assert x == y;
      FeeConfigSets(x.value, currentEpoch, a.value);
      FeeConfigSets(x.value, currentEpoch, b.value);
    }
  }

  // ---------------------------------------------------------------- the whole mint

  /** The base state of an initialized mint. */
  predicate InitializedBase(base: bytes) {
    |base| == 82 && base[45] == 1
  }

  /** Zeros up to where an account's type stands, and the type of a mint. */
  function Padding(): (b: bytes)
    ensures |b| == 83 && forall i :: 0 <= i < 83 ==> b[i] == 0
  {
    seq(83, _ => 0)
  }

  const MINT_TYPE: bytes := [1]

  ghost predicate MintSets(data: bytes, currentEpoch: u64, fee: Option<TransferFee>) {
    || (InitializedBase(data) && fee.None?)
    || exists base, list, tail ::
         && InitializedBase(base) && Permitted(list, NOTHING_SEEN, currentEpoch) && IsEnd(tail)
         && data == base + Padding() + MINT_TYPE + EncodeAll(list) + tail
         && ListSets(list, None, currentEpoch, fee)
  }

  lemma PrefixIs(data: bytes)
    ensures CheckPrefix(data).Ok? <==>
      InitializedBase(data) || (|data| >= 166 && InitializedBase(data[..82]) && data[82..166] == Padding() + MINT_TYPE)
  {
    if |data| >= 166 {
      var padding := data[82..166];
      assert forall i :: MINT_BASE_LEN <= i < TLV_START - 1 ==> data[i] == padding[i - 82];
      assert padding == padding[..83] + [data[165]];
      if CheckPrefix(data).Ok? {
        assert padding[..83] == Padding();
      }
      if padding == Padding() + MINT_TYPE {
        assert forall i :: 0 <= i < 83 ==> padding[i] == 0;
        assert padding[83] == 1;
      }
    }
  }

  /**
    * The fee of a mint: none for a bare initialized mint; behind one, zeros and the account type, the one its
    * permitted extensions set. Nothing else is accepted.
    */
  lemma MintFeeIs(data: bytes, currentEpoch: u64, fee: Option<TransferFee>)
    ensures CurrentTransferFee(data, currentEpoch) == Ok(fee) <==> MintSets(data, currentEpoch, fee)
  {
    hide Walk, ListSets, CheckPrefix, IsEnd, EncodeAll, Supported, Open, KindsDiffer;
    PrefixIs(data);
    if |data| >= TLV_START {
      var rest := data[TLV_START..];
      WalkAcceptsPermitted(rest, currentEpoch, fee);
      if CurrentTransferFee(data, currentEpoch) == Ok(fee) {
        var list, tail :| ReadsAs(rest, list, tail, NOTHING_SEEN, currentEpoch) && ListSets(list, None, currentEpoch, fee);
        Reassembled(data, data[..82], EncodeAll(list), tail);
      }
    }
    if base, list, tail :|
      && InitializedBase(base) && Permitted(list, NOTHING_SEEN, currentEpoch) && IsEnd(tail)
      && data == base + Padding() + MINT_TYPE + EncodeAll(list) + tail
      && ListSets(list, None, currentEpoch, fee)
    {
      Dismantled(data, base, EncodeAll(list), tail);
      assert ReadsAs(data[TLV_START..], list, tail, NOTHING_SEEN, currentEpoch);
    }
  }

  lemma Reassembled(data: bytes, base: bytes, list: bytes, tail: bytes)
    requires |data| >= 166 && base == data[..82] && data[82..166] == Padding() + MINT_TYPE && data[166..] == list + tail
    ensures data == base + Padding() + MINT_TYPE + list + tail
  {
    assert data == data[..82] + data[82..166] + data[166..];
  }

  lemma Dismantled(data: bytes, base: bytes, list: bytes, tail: bytes)
    requires |base| == 82 && data == base + Padding() + MINT_TYPE + list + tail
    ensures |data| >= 166 && data[..82] == base && data[82..166] == Padding() + MINT_TYPE && data[166..] == list + tail
  {
  }
}
