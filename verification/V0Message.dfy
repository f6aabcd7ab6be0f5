/**
 The Solana v0 message: the bytes the compiler writes, and an independent decoder that reads any
 number of instructions and lookup tables. Decoding what was written gives back the message.
 */
module V0Message {
  import opened Wrappers
  import opened Machine
  import opened Bytes

  const VERSIONED_MESSAGE_V0_PREFIX: u8 := 0x80

  datatype Header = Header(requiredSignatures: u8, readonlySigned: u8, readonlyUnsigned: u8)
  datatype Instruction = Instruction(programIndex: u8, accounts: seq<u8>, data: bytes)
  datatype Lookup = Lookup(accountKey: Pubkey, writableIndexes: seq<u8>, readonlyIndexes: seq<u8>)
  datatype Message = Message(
    header: Header, staticKeys: seq<Pubkey>, blockhash: Pubkey, instructions: seq<Instruction>, lookups: seq<Lookup>)

  // ----- Encoding

  /** Seven bits per byte, least significant first, the high bit marking that more follow. */
  function EncodeShortvec(v: nat): (b: bytes)
    ensures |b| >= 1
  {
    if v < 128 then [v] else [v % 128 + 128] + EncodeShortvec(v / 128)
  }

  /** The program's loop. */
  method AppendShortvec(output: bytes, value: nat) returns (r: bytes)
    ensures r == output + EncodeShortvec(value)
  {
    r := output;
    var v := value;
    while true
      invariant r + EncodeShortvec(v) == output + EncodeShortvec(value)
      decreases v
    {
      var byte := v % 128;
      ghost var before, rest := r, v / 128;
      v := v / 128;
      if v != 0 {
        byte := byte + 128;
      }
      r := r + [byte];
      if v == 0 {
        return;
      }
      assert before + ([byte] + EncodeShortvec(v)) == r + EncodeShortvec(v);
    }
  }

  function EncodeByteVec(b: bytes): bytes {
    EncodeShortvec(|b|) + b
  }

  function ConcatKeys(keys: seq<Pubkey>): bytes {
    if keys == [] then [] else keys[0] + ConcatKeys(keys[1..])
  }

  function EncodeInstruction(i: Instruction): bytes {
    [i.programIndex] + (EncodeByteVec(i.accounts) + EncodeByteVec(i.data))
  }

  function EncodeLookup(l: Lookup): bytes {
    l.accountKey + (EncodeByteVec(l.writableIndexes) + EncodeByteVec(l.readonlyIndexes))
  }

  function EncodeInstructions(s: seq<Instruction>): bytes {
    if s == [] then [] else EncodeInstruction(s[0]) + EncodeInstructions(s[1..])
  }

  function EncodeLookups(s: seq<Lookup>): bytes {
    if s == [] then [] else EncodeLookup(s[0]) + EncodeLookups(s[1..])
  }

  function HeaderBytes(h: Header): bytes {
    [VERSIONED_MESSAGE_V0_PREFIX, h.requiredSignatures, h.readonlySigned, h.readonlyUnsigned]
  }

  function KeyTable(keys: seq<Pubkey>): bytes {
    EncodeShortvec(|keys|) + ConcatKeys(keys)
  }

  function InstructionTable(s: seq<Instruction>): bytes {
    EncodeShortvec(|s|) + EncodeInstructions(s)
  }

  function LookupTables(s: seq<Lookup>): bytes {
    EncodeShortvec(|s|) + EncodeLookups(s)
  }

  function Encode(m: Message): bytes {
    HeaderBytes(m.header) + (KeyTable(m.staticKeys) + (m.blockhash + (InstructionTable(m.instructions) + LookupTables(m.lookups))))
  }

  // ----- Decoding

  /** A value read at a position, and the position after it. */
  type Parsed<T> = Option<(T, nat)>

  /** At most three bytes, as a compact-u16 length. */
  function ParseShortvec(b: bytes, pos: nat, budget: nat): (r: Parsed<nat>)
    decreases budget
  {
    if budget == 0 || pos >= |b| then None
    else if b[pos] < 128 then Some((b[pos], pos + 1))
    else match ParseShortvec(b, pos + 1, budget - 1)
      case None => None
      case Some((rest, next)) => Some((b[pos] - 128 + 128 * rest, next))
  }

  function ParseBytes(b: bytes, pos: nat, n: nat): (r: Parsed<bytes>)
    ensures r.Some? ==> |r.value.0| == n
  {
    if pos + n <= |b| then Some((b[pos..pos + n], pos + n)) else None
  }

  function ParseByteVec(b: bytes, pos: nat): (r: Parsed<bytes>)
  {
    match ParseShortvec(b, pos, 3)
    case None => None
    case Some((n, next)) => ParseBytes(b, next, n)
  }

  function ParseKeys(b: bytes, pos: nat, n: nat): (r: Parsed<seq<Pubkey>>)
    decreases n
  {
    if n == 0 then Some(([], pos))
    else match ParseBytes(b, pos, 32)
      case None => None
      case Some((key, next)) =>
        match ParseKeys(b, next, n - 1)
        case None => None
        case Some((rest, end)) => Some(([key] + rest, end))
  }

  function ParseInstruction(b: bytes, pos: nat): (r: Parsed<Instruction>)
  {
    if pos >= |b| then None
    else match ParseByteVec(b, pos + 1)
      case None => None
      case Some((accounts, next)) =>
        match ParseByteVec(b, next)
        case None => None
        case Some((data, end)) => Some((Instruction(b[pos], accounts, data), end))
  }

  function ParseLookup(b: bytes, pos: nat): (r: Parsed<Lookup>)
  {
    match ParseBytes(b, pos, 32)
    case None => None
    case Some((key, next)) =>
      match ParseByteVec(b, next)
      case None => None
      case Some((writable, next2)) =>
        match ParseByteVec(b, next2)
        case None => None
        case Some((readonly, end)) => Some((Lookup(key, writable, readonly), end))
  }

  function ParseInstructions(b: bytes, pos: nat, n: nat): (r: Parsed<seq<Instruction>>)
    decreases n
  {
    if n == 0 then Some(([], pos))
    else match ParseInstruction(b, pos)
      case None => None
      case Some((first, next)) =>
        match ParseInstructions(b, next, n - 1)
        case None => None
        case Some((rest, end)) => Some(([first] + rest, end))
  }

  function ParseLookups(b: bytes, pos: nat, n: nat): (r: Parsed<seq<Lookup>>)
    decreases n
  {
    if n == 0 then Some(([], pos))
    else match ParseLookup(b, pos)
      case None => None
      case Some((first, next)) =>
        match ParseLookups(b, next, n - 1)
        case None => None
        case Some((rest, end)) => Some(([first] + rest, end))
  }

  function ParseKeyTable(b: bytes, pos: nat): (r: Parsed<seq<Pubkey>>)
  {
    match ParseShortvec(b, pos, 3)
    case None => None
    case Some((n, next)) => ParseKeys(b, next, n)
  }

  function ParseInstructionTable(b: bytes, pos: nat): (r: Parsed<seq<Instruction>>)
  {
    match ParseShortvec(b, pos, 3)
    case None => None
    case Some((n, next)) => ParseInstructions(b, next, n)
  }

  function ParseLookupTables(b: bytes, pos: nat): (r: Parsed<seq<Lookup>>)
  {
    match ParseShortvec(b, pos, 3)
    case None => None
    case Some((n, next)) => ParseLookups(b, next, n)
  }

  /** A message, if the bytes are one and nothing follows it. */
  function Decode(b: bytes): (r: Option<Message>)
  {
    if |b| < 4 || b[0] != VERSIONED_MESSAGE_V0_PREFIX then None
    else match ParseKeyTable(b, 4)
      case None => None
      case Some((keys, afterKeys)) =>
        match ParseBytes(b, afterKeys, 32)
        case None => None
        case Some((blockhash, afterHash)) =>
          match ParseInstructionTable(b, afterHash)
          case None => None
          case Some((instructions, afterInstructions)) =>
            match ParseLookupTables(b, afterInstructions)
            case None => None
            case Some((lookups, end)) =>
              if end != |b| then None
              else Some(Message(Header(b[1], b[2], b[3]), keys, blockhash, instructions, lookups))
  }

  // ----- Round trip

  /** The largest length three bytes can hold. */
  const SHORTVEC_LIMIT := 0x20_0000

  lemma {:induction false} ShortvecParses(b: bytes, pos: nat, v: nat, budget: nat)
    requires At(b, pos, EncodeShortvec(v))
    requires (budget == 3 && v < 0x20_0000) || (budget == 2 && v < 0x4000) || (budget == 1 && v < 128)
    ensures ParseShortvec(b, pos, budget) == Some((v, pos + |EncodeShortvec(v)|))
    decreases budget
  {
    var e := EncodeShortvec(v);
    assert b[pos..pos + |e|][0] == e[0];
    if v >= 128 {
      assert e == [v % 128 + 128] + EncodeShortvec(v / 128);
      AtSplit(b, pos, [v % 128 + 128], EncodeShortvec(v / 128));
      ShortvecParses(b, pos + 1, v / 128, budget - 1);
    }
  }

  lemma ByteVecParses(b: bytes, pos: nat, v: bytes)
    requires |v| < SHORTVEC_LIMIT && At(b, pos, EncodeByteVec(v))
    ensures ParseByteVec(b, pos) == Some((v, pos + |EncodeByteVec(v)|))
  {
    hide ParseShortvec, EncodeShortvec;
    AtSplit(b, pos, EncodeShortvec(|v|), v);
    ShortvecParses(b, pos, |v|, 3);
  }

  lemma {:induction false} KeysParse(b: bytes, pos: nat, keys: seq<Pubkey>)
    requires At(b, pos, ConcatKeys(keys))
    ensures ParseKeys(b, pos, |keys|) == Some((keys, pos + |ConcatKeys(keys)|))
    decreases |keys|
  {
    if keys != [] {
      AtSplit(b, pos, keys[0], ConcatKeys(keys[1..]));
      KeysParse(b, pos + 32, keys[1..]);
      assert keys == [keys[0]] + keys[1..];
    }
  }

  predicate SmallInstruction(i: Instruction) {
    |i.accounts| < SHORTVEC_LIMIT && |i.data| < SHORTVEC_LIMIT
  }

  predicate SmallLookup(l: Lookup) {
    |l.writableIndexes| < SHORTVEC_LIMIT && |l.readonlyIndexes| < SHORTVEC_LIMIT
  }

  lemma InstructionParses(b: bytes, pos: nat, i: Instruction)
    requires SmallInstruction(i) && At(b, pos, EncodeInstruction(i))
    ensures ParseInstruction(b, pos) == Some((i, pos + |EncodeInstruction(i)|))
  {
    hide ParseByteVec, EncodeByteVec;
    AtSplit(b, pos, [i.programIndex], EncodeByteVec(i.accounts) + EncodeByteVec(i.data));
    assert b[pos..pos + 1][0] == i.programIndex;
    AtSplit(b, pos + 1, EncodeByteVec(i.accounts), EncodeByteVec(i.data));
    ByteVecParses(b, pos + 1, i.accounts);
    ByteVecParses(b, pos + 1 + |EncodeByteVec(i.accounts)|, i.data);
  }

  lemma LookupParses(b: bytes, pos: nat, l: Lookup)
    requires SmallLookup(l) && At(b, pos, EncodeLookup(l))
    ensures ParseLookup(b, pos) == Some((l, pos + |EncodeLookup(l)|))
  {
    hide ParseByteVec, EncodeByteVec;
    AtSplit(b, pos, l.accountKey, EncodeByteVec(l.writableIndexes) + EncodeByteVec(l.readonlyIndexes));
    AtSplit(b, pos + 32, EncodeByteVec(l.writableIndexes), EncodeByteVec(l.readonlyIndexes));
    ByteVecParses(b, pos + 32, l.writableIndexes);
    ByteVecParses(b, pos + 32 + |EncodeByteVec(l.writableIndexes)|, l.readonlyIndexes);
  }

  lemma {:induction false} InstructionsParse(b: bytes, pos: nat, s: seq<Instruction>)
    requires (forall i :: i in s ==> SmallInstruction(i)) && At(b, pos, EncodeInstructions(s))
    ensures ParseInstructions(b, pos, |s|) == Some((s, pos + |EncodeInstructions(s)|))
    decreases |s|
  {
    hide ParseInstruction, EncodeInstruction, SmallInstruction;
    if s != [] {
      AtSplit(b, pos, EncodeInstruction(s[0]), EncodeInstructions(s[1..]));
      InstructionParses(b, pos, s[0]);
      InstructionsParse(b, pos + |EncodeInstruction(s[0])|, s[1..]);
      assert s == [s[0]] + s[1..];
    }
  }

  lemma {:induction false} LookupsParse(b: bytes, pos: nat, s: seq<Lookup>)
    requires (forall l :: l in s ==> SmallLookup(l)) && At(b, pos, EncodeLookups(s))
    ensures ParseLookups(b, pos, |s|) == Some((s, pos + |EncodeLookups(s)|))
    decreases |s|
  {
    hide ParseLookup, EncodeLookup, SmallLookup;
    if s != [] {
      AtSplit(b, pos, EncodeLookup(s[0]), EncodeLookups(s[1..]));
      LookupParses(b, pos, s[0]);
      LookupsParse(b, pos + |EncodeLookup(s[0])|, s[1..]);
      assert s == [s[0]] + s[1..];
    }
  }

  predicate SmallMessage(m: Message) {
    && |m.staticKeys| < SHORTVEC_LIMIT && |m.instructions| < SHORTVEC_LIMIT && |m.lookups| < SHORTVEC_LIMIT
    && (forall i :: i in m.instructions ==> SmallInstruction(i))
    && (forall l :: l in m.lookups ==> SmallLookup(l))
  }

  lemma TablesParse(b: bytes, pos: nat, m: Message)
    requires SmallMessage(m)
    ensures At(b, pos, KeyTable(m.staticKeys)) ==> ParseKeyTable(b, pos) == Some((m.staticKeys, pos + |KeyTable(m.staticKeys)|))
    ensures At(b, pos, InstructionTable(m.instructions)) ==>
              ParseInstructionTable(b, pos) == Some((m.instructions, pos + |InstructionTable(m.instructions)|))
    ensures At(b, pos, LookupTables(m.lookups)) ==>
              ParseLookupTables(b, pos) == Some((m.lookups, pos + |LookupTables(m.lookups)|))
  {
    hide At, ParseShortvec, EncodeShortvec, ParseKeys, ConcatKeys, ParseInstructions, EncodeInstructions,
         ParseLookups, EncodeLookups, SmallInstruction, SmallLookup;
    if At(b, pos, KeyTable(m.staticKeys)) {
      AtSplit(b, pos, EncodeShortvec(|m.staticKeys|), ConcatKeys(m.staticKeys));
      ShortvecParses(b, pos, |m.staticKeys|, 3);
      KeysParse(b, pos + |EncodeShortvec(|m.staticKeys|)|, m.staticKeys);
    }
    if At(b, pos, InstructionTable(m.instructions)) {
      AtSplit(b, pos, EncodeShortvec(|m.instructions|), EncodeInstructions(m.instructions));
      ShortvecParses(b, pos, |m.instructions|, 3);
      InstructionsParse(b, pos + |EncodeShortvec(|m.instructions|)|, m.instructions);
    }
    if At(b, pos, LookupTables(m.lookups)) {
      AtSplit(b, pos, EncodeShortvec(|m.lookups|), EncodeLookups(m.lookups));
      ShortvecParses(b, pos, |m.lookups|, 3);
      LookupsParse(b, pos + |EncodeShortvec(|m.lookups|)|, m.lookups);
    }
  }

  lemma BytesParse(b: bytes, pos: nat, v: bytes)
    requires At(b, pos, v)
    ensures ParseBytes(b, pos, |v|) == Some((v, pos + |v|))
  {
  }

  /** Where each section of an encoded message stands. */
  lemma SectionsAt(m: Message)
    ensures
      var b := Encode(m);
      var keys, instructions, lookups := KeyTable(m.staticKeys), InstructionTable(m.instructions), LookupTables(m.lookups);
      && At(b, 0, HeaderBytes(m.header)) && At(b, 4, keys) && At(b, 4 + |keys|, m.blockhash)
      && At(b, 36 + |keys|, instructions) && At(b, 36 + |keys| + |instructions|, lookups)
      && |b| == 36 + |keys| + |instructions| + |lookups|
  {
    hide KeyTable, InstructionTable, LookupTables;
    var b := Encode(m);
    var keys, instructions, lookups := KeyTable(m.staticKeys), InstructionTable(m.instructions), LookupTables(m.lookups);
    var afterHash := instructions + lookups;
    var afterKeys := m.blockhash + afterHash;
    assert b[0..|b|] == b;
    assert At(b, 0, HeaderBytes(m.header) + (keys + afterKeys));
    hide At;
    AtSplit(b, 0, HeaderBytes(m.header), keys + afterKeys);
    AtSplit(b, 4, keys, afterKeys);
    AtSplit(b, 4 + |keys|, m.blockhash, afterHash);
    AtSplit(b, 36 + |keys|, instructions, lookups);
  }

  lemma HeaderParses(b: bytes, h: Header)
    requires At(b, 0, HeaderBytes(h))
    ensures |b| >= 4 && b[0] == VERSIONED_MESSAGE_V0_PREFIX && Header(b[1], b[2], b[3]) == h
  {
  }

  /** Decoding the written bytes gives back every field of the message. */
  lemma DecodeEncode(m: Message)
    requires SmallMessage(m)
    ensures Decode(Encode(m)) == Some(m)
  {
    hide KeyTable, InstructionTable, LookupTables, ParseKeyTable, ParseInstructionTable, ParseLookupTables,
         SmallMessage,
      At, Encode, HeaderBytes, ParseBytes;
    var b := Encode(m);
    var keys, instructions := KeyTable(m.staticKeys), InstructionTable(m.instructions);
    SectionsAt(m);
    HeaderParses(b, m.header);
    TablesParse(b, 4, m);
    BytesParse(b, 4 + |keys|, m.blockhash);
    TablesParse(b, 36 + |keys|, m);
    TablesParse(b, 36 + |keys| + |instructions|, m);
  }
}
