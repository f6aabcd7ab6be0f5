/** The dynamic account layout of an Orca tick array: only initialized ticks carry their data. */
module OrcaTickArray {
  import opened Wrappers
  import opened Machine
  import opened Bytes
  import opened Arithmetic

  const TICK_ARRAY_SIZE := 88
  const WORDS_PER_TICK := 7
  const TICK_DATA_LEN := 112
  const DYNAMIC_MIN_LEN := 60 + TICK_ARRAY_SIZE
  const DYNAMIC_MAX_LEN := 60 + TICK_ARRAY_SIZE * 113
  const DYNAMIC_DISCRIMINATOR: bytes := [17, 216, 246, 142, 225, 199, 218, 56]

  datatype TickError =
    | LengthMismatch | DiscriminatorMismatch | StartIndexMismatch | WhirlpoolMismatch | BitmapRange
    | BitmapLengthMismatch | TagMismatch(index: nat) | Truncated | NotConsumed

  datatype TickData =
    TickData(liquidityNet: i128, liquidityGross: u128, feeGrowthA: u128, feeGrowthB: u128,
             rewardGrowth0: u128, rewardGrowth1: u128, rewardGrowth2: u128)
  datatype Tick = Tick(initialized: bool, data: TickData)
  datatype TickArray = TickArray(startTickIndex: i32, ticks: seq<Tick>)

  const NO_DATA := TickData(0, 0, 0, 0, 0, 0, 0)
  const NO_TICK := Tick(false, NO_DATA)

  // ---------------------------------------------------------------- two's complement

  function Signed32(u: u32): i32 {
    if u <= I32_MAX then u else u - (U32_MAX + 1)
  }

  function Unsigned32(i: i32): u32 {
    if i >= 0 then i else i + (U32_MAX + 1)
  }

  function Signed128(u: u128): i128 {
    if u <= I128_MAX then u else u - (U128_MAX + 1)
  }

  function Unsigned128(i: i128): u128 {
    if i >= 0 then i else i + (U128_MAX + 1)
  }

  lemma SignsInvert(u: u32, i: i32, v: u128, j: i128)
    ensures Unsigned32(Signed32(u)) == u && Signed32(Unsigned32(i)) == i
    ensures Unsigned128(Signed128(v)) == v && Signed128(Unsigned128(j)) == j
  {
  }

  // ---------------------------------------------------------------- tick data: seven 16-byte words

  function Word(b: bytes): (w: u128)
    requires |b| == 16
  {
    FromLittleEndianRoundTrip(b);
    Pow256Widths();
    FromLittleEndian(b)
  }

  function EncodeWords(ws: seq<u128>): (b: bytes)
    ensures |b| == 16 * |ws|
  {
    if ws == [] then [] else LittleEndian(ws[0], 16) + EncodeWords(ws[1..])
  }

  function DecodeWords(b: bytes, n: nat): (ws: seq<u128>)
    requires |b| == 16 * n
    ensures |ws| == n
  {
    if n == 0 then [] else [Word(b[..16])] + DecodeWords(b[16..], n - 1)
  }

  lemma {:induction false} WordsRoundTrip(ws: seq<u128>)
    ensures DecodeWords(EncodeWords(ws), |ws|) == ws
  {
    if ws != [] {
      var b := EncodeWords(ws);
      Pow256Widths();
      LittleEndianRoundTrip(ws[0], 16);
      assert b[..16] == LittleEndian(ws[0], 16) && b[16..] == EncodeWords(ws[1..]);
      WordsRoundTrip(ws[1..]);
    }
  }

  lemma {:induction false} WordBytesRoundTrip(b: bytes, n: nat)
    requires |b| == 16 * n
    ensures EncodeWords(DecodeWords(b, n)) == b
  {
    if n > 0 {
      FromLittleEndianRoundTrip(b[..16]);
      WordBytesRoundTrip(b[16..], n - 1);
      var ws := DecodeWords(b, n);
      assert ws[1..] == DecodeWords(b[16..], n - 1);
      assert b == b[..16] + b[16..];
    } else {
      assert b == [];
    }
  }

  function EncodeData(d: TickData): (b: bytes)
    ensures |b| == TICK_DATA_LEN
  {
    EncodeWords([Unsigned128(d.liquidityNet), d.liquidityGross, d.feeGrowthA, d.feeGrowthB,
                 d.rewardGrowth0, d.rewardGrowth1, d.rewardGrowth2])
  }

  function DecodeData(b: bytes): TickData
    requires |b| == TICK_DATA_LEN
  {
    var ws := DecodeWords(b, WORDS_PER_TICK);
    TickData(Signed128(ws[0]), ws[1], ws[2], ws[3], ws[4], ws[5], ws[6])
  }

  lemma DataRoundTrip(d: TickData)
    ensures DecodeData(EncodeData(d)) == d
  {
    WordsRoundTrip([Unsigned128(d.liquidityNet), d.liquidityGross, d.feeGrowthA, d.feeGrowthB,
                    d.rewardGrowth0, d.rewardGrowth1, d.rewardGrowth2]);
  }

  lemma DataBytesRoundTrip(b: bytes)
    requires |b| == TICK_DATA_LEN
    ensures EncodeData(DecodeData(b)) == b
  {
    var ws := DecodeWords(b, WORDS_PER_TICK);
    WordBytesRoundTrip(b, WORDS_PER_TICK);
    assert ws == [ws[0], ws[1], ws[2], ws[3], ws[4], ws[5], ws[6]];
  }

  /** The source reads the seven fields one by one, each with the same bound check. */
  function ReadData(data: bytes, offset: nat): Result<TickData, TickError> {
    if offset + TICK_DATA_LEN > |data| then Err(Truncated) else Ok(DecodeData(data[offset..offset + TICK_DATA_LEN]))
  }

  // ---------------------------------------------------------------- bitmap

  function Shift(bitmap: nat, i: nat): nat {
    if i == 0 then bitmap else Shift(bitmap / 2, i - 1)
  }

  predicate Bit(bitmap: nat, i: nat) {
    Shift(bitmap, i) % 2 == 1
  }

  function CountOnes(bitmap: nat): nat {
    if bitmap == 0 then 0 else bitmap % 2 + CountOnes(bitmap / 2)
  }

  function BitmapOf(ticks: seq<Tick>): nat {
    if ticks == [] then 0 else (if ticks[0].initialized then 1 else 0) + 2 * BitmapOf(ticks[1..])
  }

  lemma {:induction false} ShiftStep(bitmap: nat, i: nat)
    ensures Shift(bitmap, i + 1) == Shift(bitmap, i) / 2
    decreases i
  {
    if i > 0 {
      ShiftStep(bitmap / 2, i - 1);
    } else {
      assert Shift(bitmap / 2, 0) == bitmap / 2;
    }
  }

  lemma {:induction false} ShiftOfBitmap(ticks: seq<Tick>)
    ensures Shift(BitmapOf(ticks), |ticks|) == 0
    decreases |ticks|
  {
    if ticks != [] {
      assert BitmapOf(ticks) / 2 == BitmapOf(ticks[1..]);
      ShiftOfBitmap(ticks[1..]);
    }
  }

  lemma {:induction false} BitmapBelow(ticks: seq<Tick>)
    ensures BitmapOf(ticks) < Pow2(|ticks|)
    decreases |ticks|
  {
    if ticks != [] {
      BitmapBelow(ticks[1..]);
    }
  }

  lemma {:induction false} Pow2IsPow256(k: nat)
    ensures Pow2(8 * k) == Pow256(k)
  {
    if k > 0 {
      Pow2IsPow256(k - 1);
      var n := 8 * (k - 1);
      assert Pow2(n + 2) == 4 * Pow2(n);
      assert Pow2(n + 4) == 4 * Pow2(n + 2);
      assert Pow2(n + 6) == 4 * Pow2(n + 4);
      assert Pow2(n + 8) == 4 * Pow2(n + 6);
    }
  }

  /** The bitmap of 88 ticks fits its 16 bytes. */
  lemma BitmapFits(ticks: seq<Tick>)
    requires |ticks| == TICK_ARRAY_SIZE
    ensures BitmapOf(ticks) < Pow256(16)
  {
    BitmapBelow(ticks);
    Pow2IsPow256(11);
    assert Pow256(11) <= Pow256(12) <= Pow256(13) <= Pow256(14) <= Pow256(15) <= Pow256(16);
  }

  // ---------------------------------------------------------------- dynamic layout

  predicate Canonical(a: TickArray) {
    |a.ticks| == TICK_ARRAY_SIZE && forall t :: t in a.ticks && !t.initialized ==> t == NO_TICK
  }

  function EncodeTick(t: Tick): bytes {
    if t.initialized then [1] + EncodeData(t.data) else [0]
  }

  function EncodeTicks(ts: seq<Tick>): bytes {
    if ts == [] then [] else EncodeTick(ts[0]) + EncodeTicks(ts[1..])
  }

  function EncodeHead(start: i32, whirlpool: Pubkey, bitmap: nat): (b: bytes)
    ensures |b| == 60
  {
    DYNAMIC_DISCRIMINATOR + LittleEndian(Unsigned32(start), 4) + whirlpool + LittleEndian(bitmap, 16)
  }

  function EncodeDynamic(a: TickArray, whirlpool: Pubkey): bytes {
    EncodeHead(a.startTickIndex, whirlpool, BitmapOf(a.ticks)) + EncodeTicks(a.ticks)
  }

  function Prepend(ts: seq<Tick>, r: Result<(seq<Tick>, nat), TickError>): Result<(seq<Tick>, nat), TickError> {
    if r.Err? then r else Ok((ts + r.value.0, r.value.1))
  }

  /** Ticks `i` and later, and the offset behind them. */
  function DecodeTicks(data: bytes, bitmap: nat, i: nat, offset: nat): Result<(seq<Tick>, nat), TickError>
    decreases TICK_ARRAY_SIZE - i
  {
    if i >= TICK_ARRAY_SIZE then Ok(([], offset))
    else if offset >= |data| then Err(Truncated)
    else if !Bit(bitmap, i) && data[offset] == 0 then
      Prepend([NO_TICK], DecodeTicks(data, bitmap, i + 1, offset + 1))
    else if Bit(bitmap, i) && data[offset] == 1 then
      var d :- ReadData(data, offset + 1);
      Prepend([Tick(true, d)], DecodeTicks(data, bitmap, i + 1, offset + 1 + TICK_DATA_LEN))
    else Err(TagMismatch(i))
  }

  function StartOf(data: bytes): i32
    requires |data| >= 12
  {
    FromLittleEndianRoundTrip(data[8..12]);
    Pow256Widths();
    Signed32(FromLittleEndian(data[8..12]))
  }

  function DecodeDynamic(data: bytes, whirlpool: Pubkey, start: i32): Result<TickArray, TickError> {
    if !(DYNAMIC_MIN_LEN <= |data| <= DYNAMIC_MAX_LEN) then Err(LengthMismatch)
    else if data[..8] != DYNAMIC_DISCRIMINATOR then Err(DiscriminatorMismatch)
    else if StartOf(data) != start then Err(StartIndexMismatch)
    else if data[12..44] != whirlpool then Err(WhirlpoolMismatch)
    else
      var bitmap := Word(data[44..60]);
      if Shift(bitmap, TICK_ARRAY_SIZE) != 0 then Err(BitmapRange)
      else if |data| != DYNAMIC_MIN_LEN + CountOnes(bitmap) * TICK_DATA_LEN then Err(BitmapLengthMismatch)
      else
        var r :- DecodeTicks(data, bitmap, 0, 60);
        if r.1 != |data| then Err(NotConsumed) else Ok(TickArray(start, r.0))
  }

  method DecodeDynamicTickArray(data: bytes, whirlpool: Pubkey, start: i32) returns (r: Result<TickArray, TickError>)
    ensures r == DecodeDynamic(data, whirlpool, start)
  {
    hide ReadData, Bit, Word;
    if !(DYNAMIC_MIN_LEN <= |data| <= DYNAMIC_MAX_LEN) {
      return Err(LengthMismatch);
    }
    if data[..8] != DYNAMIC_DISCRIMINATOR {
      return Err(DiscriminatorMismatch);
    }
    if StartOf(data) != start {
      return Err(StartIndexMismatch);
    }
    if data[12..44] != whirlpool {
      return Err(WhirlpoolMismatch);
    }
    var bitmap := Word(data[44..60]);
    if Shift(bitmap, TICK_ARRAY_SIZE) != 0 {
      return Err(BitmapRange);
    }
    if |data| != DYNAMIC_MIN_LEN + CountOnes(bitmap) * TICK_DATA_LEN {
      return Err(BitmapLengthMismatch);
    }
    var filled := FillTicks(data, bitmap);
    if filled.Err? {
      return Err(filled.error);
    }
    var (ticks, offset) := filled.value;
    return if offset != |data| then Err(NotConsumed) else Ok(TickArray(start, ticks));
  }

  /** The program's loop: the ticks are filled in place while the offset moves on. */
  method FillTicks(data: bytes, bitmap: nat) returns (r: Result<(seq<Tick>, nat), TickError>)
    ensures r == DecodeTicks(data, bitmap, 0, 60)
  {
    hide ReadData, Bit;
    var ticks := new Tick[TICK_ARRAY_SIZE](_ => NO_TICK);
    var offset: nat := 60;
    ghost var all := DecodeTicks(data, bitmap, 0, 60);
    PrependNothing(all);
    for i := 0 to TICK_ARRAY_SIZE
      invariant all == Prepend(ticks[..i], DecodeTicks(data, bitmap, i, offset))
      invariant forall k :: i <= k < TICK_ARRAY_SIZE ==> ticks[k] == NO_TICK
    {
      if offset >= |data| {
        return Err(Truncated);
      }
      var tag := data[offset];
      var initialized := Bit(bitmap, i);
      ghost var before := ticks[..i];
      if !initialized && tag == 0 {
        offset := offset + 1;
        PrependTwice(before, NO_TICK, DecodeTicks(data, bitmap, i + 1, offset));
      } else if initialized && tag == 1 {
        offset := offset + 1;
        var read := ReadData(data, offset);
        if read.Err? {
          return Err(read.error);
        }
        offset := offset + TICK_DATA_LEN;
        ticks[i] := Tick(true, read.value);
        PrependTwice(before, Tick(true, read.value), DecodeTicks(data, bitmap, i + 1, offset));
      } else {
        return Err(TagMismatch(i));
      }
      assert ticks[..i + 1] == before + [ticks[i]];
    }
    assert ticks[..TICK_ARRAY_SIZE] + [] == ticks[..];
    return Ok((ticks[..], offset));
  }

  lemma PrependNothing(r: Result<(seq<Tick>, nat), TickError>)
    ensures Prepend([], r) == r
  {
    if r.Ok? {
      assert [] + r.value.0 == r.value.0;
    }
  }

  lemma PrependTwice(ts: seq<Tick>, t: Tick, r: Result<(seq<Tick>, nat), TickError>)
    ensures Prepend(ts, Prepend([t], r)) == Prepend(ts + [t], r)
  {
    if r.Ok? {
      assert ts + ([t] + r.value.0) == ts + [t] + r.value.0;
    }
  }

  // ---------------------------------------------------------------- round trips

  /** The bytes of one tick, up to the offset behind it. */
  lemma TickReencodes(data: bytes, offset: nat)
    requires offset < |data| && data[offset] <= 1
    requires data[offset] == 1 ==> ReadData(data, offset + 1).Ok?
    ensures data[offset] == 0 ==> EncodeTick(NO_TICK) == data[offset..offset + 1]
    ensures data[offset] == 1 ==>
        EncodeTick(Tick(true, ReadData(data, offset + 1).value)) == data[offset..offset + 1 + TICK_DATA_LEN]
  {
    hide DecodeData, EncodeData;
    if data[offset] == 1 {
      var body := data[offset + 1..offset + 1 + TICK_DATA_LEN];
      DataBytesRoundTrip(body);
      assert data[offset..offset + 1 + TICK_DATA_LEN] == [1] + body;
    }
  }

  lemma Cut(data: bytes, i: nat, j: nat, k: nat)
    requires i <= j <= k <= |data|
    ensures data[i..k] == data[i..j] + data[j..k]
  {
  }

  /** What was decoded, encoded again, is the stretch of bytes it was decoded from. */
  lemma {:induction false} TicksReencode(data: bytes, bitmap: nat, i: nat, offset: nat)
    requires i <= TICK_ARRAY_SIZE && offset <= |data| && Shift(bitmap, TICK_ARRAY_SIZE) == 0
    ensures var r := DecodeTicks(data, bitmap, i, offset);
      r.Ok? ==>
        var (ts, end) := r.value;
        && offset <= end <= |data| && |ts| == TICK_ARRAY_SIZE - i
        && EncodeTicks(ts) == data[offset..end] && BitmapOf(ts) == Shift(bitmap, i)
        && forall t :: t in ts && !t.initialized ==> t == NO_TICK
    decreases TICK_ARRAY_SIZE - i
  {
    hide EncodeTick;
    if i < TICK_ARRAY_SIZE && DecodeTicks(data, bitmap, i, offset).Ok? {
      ShiftStep(bitmap, i);
      TickReencodes(data, offset);
      hide ReadData, Shift;
      var next := if Bit(bitmap, i) then offset + 1 + TICK_DATA_LEN else offset + 1;
      TicksReencode(data, bitmap, i + 1, next);
      var (ts, end) := DecodeTicks(data, bitmap, i, offset).value;
      var rest := DecodeTicks(data, bitmap, i + 1, next).value.0;
      assert ts == [ts[0]] + rest && ts[1..] == rest;
      Cut(data, offset, next, end);
    }
  }

  /** The front of encoded ticks reads back as the first one. */
  lemma TickDecodes(data: bytes, offset: nat, t: Tick, rest: bytes)
    requires offset <= |data| && data[offset..] == EncodeTick(t) + rest
    ensures var next := offset + |EncodeTick(t)|;
      && next <= |data| && data[next..] == rest
      && data[offset] == (if t.initialized then 1 else 0)
      && next == offset + 1 + (if t.initialized then TICK_DATA_LEN else 0)
      && (t.initialized ==> ReadData(data, offset + 1) == Ok(t.data))
  {
    hide DecodeData, EncodeData;
    var first := EncodeTick(t);
    var next := offset + |first|;
    var tail := data[offset..];
    assert tail[..|first|] == first && tail[|first|..] == rest && tail[0] == first[0];
    assert data[next..] == rest && data[offset..next] == first;
    if t.initialized {
      DataRoundTrip(t.data);
      assert data[offset + 1..next] == first[1..] == EncodeData(t.data);
    }
  }

  /** Encoded ticks decode to themselves. */
  lemma {:induction false} TicksDecode(data: bytes, bitmap: nat, ts: seq<Tick>, offset: nat)
    requires |ts| <= TICK_ARRAY_SIZE && offset <= |data| && data[offset..] == EncodeTicks(ts)
    requires Shift(bitmap, TICK_ARRAY_SIZE - |ts|) == BitmapOf(ts)
    requires forall t :: t in ts && !t.initialized ==> t == NO_TICK
    ensures DecodeTicks(data, bitmap, TICK_ARRAY_SIZE - |ts|, offset) == Ok((ts, |data|))
    decreases |ts|
  {
    hide EncodeTick, ReadData, DecodeTicks, BitmapOf, EncodeTicks;
    var i := TICK_ARRAY_SIZE - |ts|;
    TicksSplit(ts);
    if ts == [] {
      assert DecodeTicks(data, bitmap, TICK_ARRAY_SIZE, offset) == Ok(([], offset)) by {
        NothingDecodes(data, bitmap, offset);
      }
    } else {
      ShiftStep(bitmap, i);
      assert ts[0] in ts;
      TickStep(data, bitmap, i, offset, ts[0], EncodeTicks(ts[1..]));
      hide Shift, Bit;
      TicksDecode(data, bitmap, ts[1..], offset + |EncodeTick(ts[0])|);
      assert ts == [ts[0]] + ts[1..];
    }
  }

  lemma NothingDecodes(data: bytes, bitmap: nat, offset: nat)
    ensures DecodeTicks(data, bitmap, TICK_ARRAY_SIZE, offset) == Ok(([], offset))
  {
  }

  lemma TicksSplit(ts: seq<Tick>)
    ensures ts == [] ==> EncodeTicks(ts) == []
    ensures ts != [] ==> EncodeTicks(ts) == EncodeTick(ts[0]) + EncodeTicks(ts[1..])
    ensures ts != [] ==> (BitmapOf(ts) % 2 == 1 <==> ts[0].initialized) && BitmapOf(ts) / 2 == BitmapOf(ts[1..])
  {
    hide EncodeTick;
    if ts != [] {
      BitmapSplit(ts, BitmapOf(ts[1..]));
    }
  }

  lemma BitmapSplit(ts: seq<Tick>, rest: nat)
    requires ts != [] && rest == BitmapOf(ts[1..])
    ensures BitmapOf(ts) % 2 == (if ts[0].initialized then 1 else 0) && BitmapOf(ts) / 2 == rest
  {
  }

  /** One encoded tick is decoded and prepended. */
  lemma TickStep(data: bytes, bitmap: nat, i: nat, offset: nat, t: Tick, rest: bytes)
    requires i < TICK_ARRAY_SIZE && offset <= |data| && data[offset..] == EncodeTick(t) + rest
    requires (Bit(bitmap, i) <==> t.initialized) && (!t.initialized ==> t == NO_TICK)
    ensures offset + |EncodeTick(t)| <= |data| && data[offset + |EncodeTick(t)|..] == rest
    ensures DecodeTicks(data, bitmap, i, offset)
         == Prepend([t], DecodeTicks(data, bitmap, i + 1, offset + |EncodeTick(t)|))
  {
    hide EncodeTick, ReadData, Bit;
    TickDecodes(data, offset, t, rest);
    TickLength(t);
  }

  lemma TickLength(t: Tick)
    ensures |EncodeTick(t)| >= 1
  {
  }

  lemma {:induction false} EncodedLength(ts: seq<Tick>)
    ensures |EncodeTicks(ts)| == |ts| + TICK_DATA_LEN * CountOnes(BitmapOf(ts))
    decreases |ts|
  {
    if ts != [] {
      EncodedLength(ts[1..]);
      BitmapSplit(ts, BitmapOf(ts[1..]));
    }
  }

  /** The bitmap and length agree, so every read of the loop stays inside and the loop ends at the end. */
  lemma {:induction false} TicksConsume(data: bytes, bitmap: nat, i: nat, offset: nat)
    requires i <= TICK_ARRAY_SIZE && Shift(bitmap, TICK_ARRAY_SIZE) == 0
    requires |data| == offset + (TICK_ARRAY_SIZE - i) + TICK_DATA_LEN * CountOnes(Shift(bitmap, i))
    ensures var r := DecodeTicks(data, bitmap, i, offset);
      if r.Ok? then r.value.1 == |data| else r.error.TagMismatch?
    decreases TICK_ARRAY_SIZE - i
  {
    hide DecodeData;
    if i < TICK_ARRAY_SIZE {
      ShiftStep(bitmap, i);
      TicksConsume(data, bitmap, i + 1, if Bit(bitmap, i) then offset + 1 + TICK_DATA_LEN else offset + 1);
    }
  }

  lemma HeadReencodes(data: bytes, whirlpool: Pubkey)
    requires |data| >= 60 && data[..8] == DYNAMIC_DISCRIMINATOR && data[12..44] == whirlpool
    ensures EncodeHead(StartOf(data), whirlpool, Word(data[44..60])) == data[..60]
  {
    hide LittleEndian, FromLittleEndian, Pow256;
    FromLittleEndianRoundTrip(data[8..12]);
    FromLittleEndianRoundTrip(data[44..60]);
    Pow256Widths();
    SignsInvert(FromLittleEndian(data[8..12]), 0, 0, 0);
    assert data[..60] == data[..8] + data[8..12] + data[12..44] + data[44..60];
  }

  lemma HeadDecodes(start: i32, whirlpool: Pubkey, bitmap: nat, rest: bytes)
    requires bitmap < Pow256(16)
    ensures var data := EncodeHead(start, whirlpool, bitmap) + rest;
      && data[..8] == DYNAMIC_DISCRIMINATOR && StartOf(data) == start && data[12..44] == whirlpool
      && Word(data[44..60]) == bitmap && data[60..] == rest
  {
    hide LittleEndian, FromLittleEndian, Pow256;
    var data := EncodeHead(start, whirlpool, bitmap) + rest;
    Pow256Widths();
    SignsInvert(0, start, 0, 0);
    LittleEndianRoundTrip(Unsigned32(start), 4);
    LittleEndianRoundTrip(bitmap, 16);
    assert data[8..12] == LittleEndian(Unsigned32(start), 4);
    assert data[44..60] == LittleEndian(bitmap, 16);
  }

  lemma HeadAndBody(data: bytes)
    requires |data| >= 60
    ensures data == data[..60] + data[60..|data|]
  {
  }

  /** Accepted bytes are reproduced by encoding what they decode to, and no error comes from running past them. */
  lemma DynamicReencodes(data: bytes, whirlpool: Pubkey, start: i32)
    ensures var r := DecodeDynamic(data, whirlpool, start);
      if r.Ok? then Canonical(r.value) && r.value.startTickIndex == start && EncodeDynamic(r.value, whirlpool) == data
      else r.error != Truncated && r.error != NotConsumed
  {
    hide DecodeTicks, EncodeHead, EncodeTicks, StartOf, Word, BitmapOf, Shift, CountOnes;
    if |data| >= 60 && data[..8] == DYNAMIC_DISCRIMINATOR && data[12..44] == whirlpool {
      var bitmap: nat := Word(data[44..60]);
      HeadReencodes(data, whirlpool);
      if Shift(bitmap, TICK_ARRAY_SIZE) == 0 && |data| == DYNAMIC_MIN_LEN + CountOnes(bitmap) * TICK_DATA_LEN {
        ShiftNothing(bitmap);
        TicksConsume(data, bitmap, 0, 60);
        TicksReencode(data, bitmap, 0, 60);
        HeadAndBody(data);
      }
    }
  }

  /** Every canonical array survives encoding and decoding. */
  lemma DynamicDecodes(a: TickArray, whirlpool: Pubkey)
    requires Canonical(a)
    ensures DecodeDynamic(EncodeDynamic(a, whirlpool), whirlpool, a.startTickIndex) == Ok(a)
  {
    hide DecodeTicks, EncodeHead, EncodeTicks, StartOf, Word, BitmapOf, Shift, CountOnes;
    var data := EncodeDynamic(a, whirlpool);
    BitmapFits(a.ticks);
    HeadDecodes(a.startTickIndex, whirlpool, BitmapOf(a.ticks), EncodeTicks(a.ticks));
    EncodedLength(a.ticks);
    OnesBounded(a.ticks);
    ShiftOfBitmap(a.ticks);
    ShiftNothing(BitmapOf(a.ticks));
    TicksDecode(data, BitmapOf(a.ticks), a.ticks, 60);
  }

  lemma ShiftNothing(bitmap: nat)
    ensures Shift(bitmap, 0) == bitmap
  {
  }

  lemma {:induction false} OnesBounded(ticks: seq<Tick>)
    ensures CountOnes(BitmapOf(ticks)) <= |ticks|
    decreases |ticks|
  {
    if ticks != [] {
      OnesBounded(ticks[1..]);
      BitmapSplit(ticks, BitmapOf(ticks[1..]));
    }
  }
}
