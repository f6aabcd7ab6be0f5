/** Compiling an account plan into a v0 message: classes, lookup table, header, indices, bytes. */
module V0Compiler {
  import opened Wrappers
  import opened Machine
  import opened Bytes
  import opened MeteoraTypes
  import opened AccountPlan
  import opened V0Accounts
  import opened V0Message

  const SOLANA_MAX_SERIALIZED_TRANSACTION_BYTES := 1232
  const SIGNATURE_BYTES := 64
  const MAX_ACCOUNTS := 256

  datatype LookupTable = LookupTable(accountKey: Pubkey, addresses: seq<Pubkey>)
  datatype Application = Application(
    staticAccounts: seq<UniqueAccount>,
    loadedWritable: seq<UniqueAccount>,
    loadedReadonly: seq<UniqueAccount>,
    lookup: Option<Lookup>)

  datatype Compiled = Compiled(
    source: Source,
    staticKeys: seq<Pubkey>,
    loadedWritable: seq<Pubkey>,
    loadedReadonly: seq<Pubkey>,
    lookup: Option<Lookup>,
    programIndex: u8,
    accountIndexes: seq<u8>,
    messageBytes: bytes,
    transactionBytes: bytes)

  // ----- Privilege classes

  function Class(isSigner: bool, isWritable: bool): UniqueAccount -> bool {
    (u: UniqueAccount) => u.isSigner == isSigner && u.isWritable == isWritable
  }

  /** Writable signers, readonly signers, writable others, readonly others. */
  function Canonical(unique: seq<UniqueAccount>): seq<UniqueAccount> {
    Filter(Class(true, true), unique) + Filter(Class(true, false), unique)
    + Filter(Class(false, true), unique) + Filter(Class(false, false), unique)
  }

  // ----- The lookup table

  predicate ValidTable(table: LookupTable) {
    |table.addresses| <= MAX_ACCOUNTS
    && forall i, j :: 0 <= i < j < |table.addresses| ==> table.addresses[i] != table.addresses[j]
  }

  function AddressPosition(addresses: seq<Pubkey>, key: Pubkey): (k: nat)
    ensures k <= |addresses|
    ensures k < |addresses| ==> addresses[k] == key
    ensures key in addresses ==> k < |addresses|
  {
    if addresses == [] || addresses[0] == key then 0 else 1 + AddressPosition(addresses[1..], key)
  }

  /** The table can carry the account: it neither signs nor is invoked. */
  predicate Loadable(table: LookupTable, u: UniqueAccount) {
    !u.isSigner && !u.isInvoked && u.pubkey in table.addresses
  }

  function Static(table: LookupTable): UniqueAccount -> bool {
    (u: UniqueAccount) => !Loadable(table, u)
  }

  function LoadedAs(table: LookupTable, isWritable: bool): UniqueAccount -> bool {
    (u: UniqueAccount) => Loadable(table, u) && u.isWritable == isWritable
  }

  predicate AllInTable(table: LookupTable, accounts: seq<UniqueAccount>) {
    forall k :: 0 <= k < |accounts| ==> accounts[k].pubkey in table.addresses
  }

  function TableIndexes(table: LookupTable, accounts: seq<UniqueAccount>): (r: seq<u8>)
    requires ValidTable(table) && AllInTable(table, accounts)
    ensures |r| == |accounts|
    ensures forall k :: 0 <= k < |r| ==> r[k] < |table.addresses| && table.addresses[r[k]] == accounts[k].pubkey
  {
    if accounts == [] then []
    else
      TableIndexes(table, accounts[..|accounts| - 1]) + [AddressPosition(table.addresses, accounts[|accounts| - 1].pubkey)]
  }

  function ApplyLookup(canonical: seq<UniqueAccount>, table: Option<LookupTable>): Application
    requires table.Some? ==> ValidTable(table.value)
  {
    if table.None? then Application(canonical, [], [], None)
    else
      var writable := Filter(LoadedAs(table.value, true), canonical);
      var readonly := Filter(LoadedAs(table.value, false), canonical);
      LoadedInTable(table.value, true, canonical);
      LoadedInTable(table.value, false, canonical);
      Application(Filter(Static(table.value), canonical), writable, readonly,
                  if writable == [] && readonly == [] then None
                  else Some(Lookup(table.value.accountKey, TableIndexes(table.value, writable), TableIndexes(table.value, readonly))))
  }

  lemma LoadedInTable(table: LookupTable, isWritable: bool, s: seq<UniqueAccount>)
    ensures AllInTable(table, Filter(LoadedAs(table, isWritable), s))
  {
  }

  /** The program's loop over the canonical accounts. */
  method ApplyLookupTable(canonical: seq<UniqueAccount>, table: Option<LookupTable>)
    returns (r: Result<Application, Failure>)
    ensures table.Some? && !ValidTable(table.value) ==> r.Err?
    ensures (table.Some? ==> ValidTable(table.value)) ==> r == Ok(ApplyLookup(canonical, table))
  {
    if table.None? {
      return Ok(Application(canonical, [], [], None));
    }
    var t := table.value;
    if |t.addresses| > MAX_ACCOUNTS {
      return Err(AccountFootprintExceeded);
    }
    for k := 0 to |t.addresses|
      invariant forall i, j :: 0 <= i < j < k ==> t.addresses[i] != t.addresses[j]
    {
      if t.addresses[k] in t.addresses[..k] {
        return Err(InvalidLayout);
      }
    }
    var app := LoadAccounts(canonical, t);
    return Ok(app);
  }

  method LoadAccounts(canonical: seq<UniqueAccount>, t: LookupTable) returns (r: Application)
    requires ValidTable(t)
    ensures r == ApplyLookup(canonical, Some(t))
  {
    hide Filter, TableIndexes, AddressPosition, ValidTable, AllInTable;
    var staticAccounts: seq<UniqueAccount>, writable: seq<UniqueAccount>, readonly: seq<UniqueAccount> := [], [], [];
    var writableIndexes: seq<u8>, readonlyIndexes: seq<u8> := [], [];
    EmptySelections(t);
    for n := 0 to |canonical|
      invariant staticAccounts == Filter(Static(t), canonical[..n])
      invariant writable == Filter(LoadedAs(t, true), canonical[..n])
      invariant readonly == Filter(LoadedAs(t, false), canonical[..n])
      invariant AllInTable(t, writable) && AllInTable(t, readonly)
      invariant writableIndexes == TableIndexes(t, writable)
      invariant readonlyIndexes == TableIndexes(t, readonly)
    {
      var u := canonical[n];
      assert canonical[..n + 1] == canonical[..n] + [u];
      FilterSnoc(Static(t), canonical[..n], u);
      FilterSnoc(LoadedAs(t, true), canonical[..n], u);
      FilterSnoc(LoadedAs(t, false), canonical[..n], u);
      var position := AddressPosition(t.addresses, u.pubkey);
      if u.isSigner || u.isInvoked || position == |t.addresses| {
        staticAccounts := staticAccounts + [u];
      } else {
        PositionFits(t, u.pubkey);
        if u.isWritable {
          TableIndexesSnoc(t, writable, u);
          writable := writable + [u];
          writableIndexes := writableIndexes + [position];
        } else {
          TableIndexesSnoc(t, readonly, u);
          readonly := readonly + [u];
          readonlyIndexes := readonlyIndexes + [position];
        }
      }
    }
    assert canonical[..|canonical|] == canonical;
    var lookup := if writableIndexes == [] && readonlyIndexes == [] then None
                  else Some(Lookup(t.accountKey, writableIndexes, readonlyIndexes));
    return Application(staticAccounts, writable, readonly, lookup);
  }

  lemma EmptySelections(t: LookupTable)
    requires ValidTable(t)
    ensures Filter(Static(t), []) == [] && Filter(LoadedAs(t, true), []) == [] && Filter(LoadedAs(t, false), []) == []
    ensures AllInTable(t, []) && TableIndexes(t, []) == []
  {
  }

  lemma PositionFits(t: LookupTable, key: Pubkey)
    requires ValidTable(t)
    ensures AddressPosition(t.addresses, key) < |t.addresses| ==> key in t.addresses && AddressPosition(t.addresses, key) <= U8_MAX
  {
  }

  lemma TableIndexesSnoc(t: LookupTable, accounts: seq<UniqueAccount>, u: UniqueAccount)
    requires ValidTable(t) && u.pubkey in t.addresses
    requires AllInTable(t, accounts)
    ensures AllInTable(t, accounts + [u])
    ensures TableIndexes(t, accounts + [u]) == TableIndexes(t, accounts) + [AddressPosition(t.addresses, u.pubkey)]
  {
  }

  // ----- Compilation

  const USER_POSITION := 8
  const PROGRAM_POSITION := 14

  /** The kind each fixed position must hold. */
  function FixedKind(position: nat): Option<Kind> {
    match position
    case 0 => Some(LbPairAccount)
    case 1 => Some(BinArrayBitmapExtension)
    case 2 => Some(ReserveX)
    case 3 => Some(ReserveY)
    case 4 => Some(TokenXMint)
    case 5 => Some(TokenYMint)
    case 6 => Some(TokenXProgram)
    case 7 => Some(TokenYProgram)
    case 8 => Some(User)
    case 9 => Some(UserTokenIn)
    case 10 => Some(UserTokenOut)
    case 11 => Some(Oracle)
    case 12 => Some(HostFeeIn)
    case 13 => Some(EventAuthority)
    case 14 => Some(Program)
    case 15 => Some(MemoProgram)
    case _ => None
  }

  predicate FixedAccountMatches(position: nat, a: Planned) {
    && FixedKind(position) == Some(a.kind)
    && a.isSigner == (position == USER_POSITION)
    && a.isWritable == (position <= 3 || 9 <= position <= 12)
  }

  predicate RemainingAccountMatches(a: Planned) {
    (a.kind.BinArrayQuoteRequired? || a.kind.BinArrayExecutionBuffer?) && !a.isSigner && a.isWritable
  }

  predicate ValidShape(plan: ExecutionPlan) {
    && |plan.fixedAccounts| == 16
    && (forall i :: 0 <= i < 16 ==> FixedAccountMatches(i, plan.fixedAccounts[i]))
    && (forall i :: 0 <= i < |plan.remainingAccounts| ==> RemainingAccountMatches(plan.remainingAccounts[i]))
  }

  /** Every plan the account planner builds has the shape the compiler asks for. */
  lemma PlannedShape(programs: Programs, snapshot: Snapshot, provided: Provided, targets: seq<HydrationPlan.Target>,
                     required: nat, plan: ExecutionPlan)
    requires plan.fixedAccounts == FixedAccounts(programs, snapshot, provided)
    requires plan.remainingAccounts == PlannedArrays(targets, required)
    ensures ValidShape(plan)
  {
  }

  function OrderedAccounts(plan: ExecutionPlan): seq<Planned> {
    plan.fixedAccounts + plan.remainingAccounts
  }

  function KeysOf(accounts: seq<UniqueAccount>): (r: seq<Pubkey>)
    ensures |r| == |accounts|
    ensures forall k :: 0 <= k < |r| ==> r[k] == accounts[k].pubkey
  {
    seq(|accounts|, i requires 0 <= i < |accounts| => accounts[i].pubkey)
  }

  function CombinedAccounts(app: Application): seq<UniqueAccount> {
    app.staticAccounts + app.loadedWritable + app.loadedReadonly
  }

  function AccountIndex(keys: seq<Pubkey>, key: Pubkey): (r: Result<u8, Failure>)
    ensures r.Ok? ==> r.value < |keys| && keys[r.value] == key
    ensures r.Ok? <==> key in keys && AddressPosition(keys, key) <= U8_MAX
  {
    var k := AddressPosition(keys, key);
    if k == |keys| then Err(InvalidLayout)
    else if k > U8_MAX then Err(AccountFootprintExceeded)
    else Ok(k)
  }

  /** The index of every planned account, in order. */
  function AccountIndexes(keys: seq<Pubkey>, accounts: seq<Planned>): (r: Result<seq<u8>, Failure>)
    ensures r.Ok? ==> |r.value| == |accounts|
    ensures r.Ok? ==> forall k :: 0 <= k < |accounts| ==> r.value[k] < |keys| && keys[r.value[k]] == accounts[k].pubkey
  {
    if accounts == [] then Ok([])
    else
      var init :- AccountIndexes(keys, accounts[..|accounts| - 1]);
      var last :- AccountIndex(keys, accounts[|accounts| - 1].pubkey);
      Ok(init + [last])
  }

  const SWAP2_DISCRIMINATOR: bytes := [65, 75, 63, 76, 235, 91, 91, 136]

  function Swap2Data(amountIn: u64, minAmountOut: u64): (b: bytes)
    ensures |b| == 28
  {
    SWAP2_DISCRIMINATOR + LittleEndian(amountIn, 8) + LittleEndian(minAmountOut, 8) + [0, 0, 0, 0]
  }

  function Signers(u: UniqueAccount): bool { u.isSigner }
  function ReadonlySigners(u: UniqueAccount): bool { u.isSigner && !u.isWritable }
  function ReadonlyOthers(u: UniqueAccount): bool { !u.isSigner && !u.isWritable }

  /** The header counts, when each fits a byte. */
  function HeaderOf(accounts: seq<UniqueAccount>): (r: Result<Header, Failure>)
  {
    var signed := |Filter(Signers, accounts)|;
    var readonlySigned := |Filter(ReadonlySigners, accounts)|;
    var readonlyUnsigned := |Filter(ReadonlyOthers, accounts)|;
    if signed > U8_MAX || readonlySigned > U8_MAX || readonlyUnsigned > U8_MAX then Err(AccountFootprintExceeded)
    else Ok(Header(signed, readonlySigned, readonlyUnsigned))
  }

  function Zeros(n: nat): (b: bytes)
    ensures |b| == n && forall i :: 0 <= i < n ==> b[i] == 0
  {
    seq(n, _ => 0)
  }

  /** Empty signatures in front of the message, for simulation. */
  function UnsignedTransaction(signatures: u8, message: bytes): bytes {
    EncodeShortvec(signatures) + Zeros(signatures * SIGNATURE_BYTES) + message
  }

  function LookupsOf(lookup: Option<Lookup>): seq<Lookup> {
    if lookup.None? then [] else [lookup.value]
  }

  function MessageOf(header: Header, app: Application, blockhash: Pubkey, programIndex: u8, indexes: seq<u8>,
                     data: bytes): Message {
    Message(header, KeysOf(app.staticAccounts), blockhash, [Instruction(programIndex, indexes, data)], LookupsOf(app.lookup))
  }

  function Compile(plan: ExecutionPlan, amountIn: u64, minAmountOut: u64, blockhash: Pubkey,
                   table: Option<LookupTable>): (r: Result<Compiled, Failure>)
    // What the meaning of a compilation rests on; nothing else compiles.
    ensures r.Ok? ==> ValidShape(plan) && |OrderedAccounts(plan)| <= MAX_ACCOUNTS && (table.Some? ==> ValidTable(table.value))
  {
    if !ValidShape(plan) then Err(InvalidLayout) else
    var ordered := OrderedAccounts(plan);
    if |ordered| > MAX_ACCOUNTS then Err(AccountFootprintExceeded) else
    var unique := UniqueAccounts(ordered);
    if |unique| > MAX_ACCOUNTS then Err(AccountFootprintExceeded) else
    if table.Some? && !ValidTable(table.value)
    then Err(if |table.value.addresses| > MAX_ACCOUNTS then AccountFootprintExceeded else InvalidLayout) else
    var app := ApplyLookup(Canonical(unique), table);
    var keys := KeysOf(CombinedAccounts(app));
    if |keys| > MAX_ACCOUNTS then Err(AccountFootprintExceeded) else
    var programIndex :- AccountIndex(keys, plan.fixedAccounts[PROGRAM_POSITION].pubkey);
    var indexes :- AccountIndexes(keys, ordered);
    var header :- HeaderOf(app.staticAccounts);
    var message := Encode(MessageOf(header, app, blockhash, programIndex, indexes, Swap2Data(amountIn, minAmountOut)));
    var transaction := UnsignedTransaction(header.requiredSignatures, message);
    if |transaction| > SOLANA_MAX_SERIALIZED_TRANSACTION_BYTES then Err(AccountFootprintExceeded)
    else Ok(Compiled(plan.source, KeysOf(app.staticAccounts), KeysOf(app.loadedWritable), KeysOf(app.loadedReadonly),
                     app.lookup, programIndex, indexes, message, transaction))
  }

  // ----- The program's construction of the bytes

  method AppendKeys(output: bytes, keys: seq<Pubkey>) returns (b: bytes)
    ensures b == output + KeyTable(keys)
  {
    hide EncodeShortvec, ConcatKeys;
    b := AppendShortvec(output, |keys|);
    ConcatNothing(keys);
    for k := 0 to |keys|
      invariant b + ConcatKeys(keys[k..]) == output + KeyTable(keys)
    {
      ConcatStep(keys, k);
      assert b + (keys[k] + ConcatKeys(keys[k + 1..])) == b + keys[k] + ConcatKeys(keys[k + 1..]);
      b := b + keys[k];
    }
    assert b + [] == b;
  }

  method AppendByteVec(output: bytes, v: bytes) returns (b: bytes)
    ensures b == output + EncodeByteVec(v)
  {
    hide EncodeShortvec;
    b := AppendShortvec(output, |v|);
    assert b + v == output + EncodeByteVec(v);
    b := b + v;
  }

  method AppendInstruction(output: bytes, programIndex: u8, indexes: seq<u8>, data: bytes) returns (b: bytes)
    ensures b == output + InstructionTable([Instruction(programIndex, indexes, data)])
  {
    hide EncodeShortvec, EncodeByteVec, InstructionTable;
    b := AppendShortvec(output, 1);
    b := b + [programIndex];
    b := AppendByteVec(b, indexes);
    b := AppendByteVec(b, data);
    SingleInstruction(Instruction(programIndex, indexes, data));
    assert b == output + (EncodeShortvec(1) + ([programIndex] + (EncodeByteVec(indexes) + EncodeByteVec(data))));
  }

  method AppendLookup(output: bytes, lookup: Option<Lookup>) returns (b: bytes)
    ensures b == output + LookupTables(LookupsOf(lookup))
  {
    hide EncodeShortvec, EncodeByteVec, LookupTables, LookupsOf;
    OptionalLookup(lookup);
    if lookup.Some? {
      var l := lookup.value;
      b := AppendShortvec(output, 1);
      b := b + l.accountKey;
      b := AppendByteVec(b, l.writableIndexes);
      b := AppendByteVec(b, l.readonlyIndexes);
      assert b == output + (EncodeShortvec(1)
                            + (l.accountKey + (EncodeByteVec(l.writableIndexes) + EncodeByteVec(l.readonlyIndexes))));
    } else {
      b := AppendShortvec(output, 0);
    }
  }

  method SerializeMessage(header: Header, keys: seq<Pubkey>, blockhash: Pubkey, programIndex: u8, indexes: seq<u8>,
                          data: bytes, lookup: Option<Lookup>)
    returns (b: bytes)
    ensures b == Encode(Message(header, keys, blockhash, [Instruction(programIndex, indexes, data)], LookupsOf(lookup)))
  {
    hide KeyTable, InstructionTable, LookupTables, HeaderBytes, LookupsOf;
    var head := HeaderBytes(header);
    b := AppendKeys(head, keys);
    b := b + blockhash;
    b := AppendInstruction(b, programIndex, indexes, data);
    b := AppendLookup(b, lookup);
    ghost var instructions, lookups := InstructionTable([Instruction(programIndex, indexes, data)]), LookupTables(LookupsOf(lookup));
    assert b == head + KeyTable(keys) + blockhash + instructions + lookups;
    assert b == head + (KeyTable(keys) + (blockhash + (instructions + lookups)));
  }

  lemma ConcatNothing(keys: seq<Pubkey>)
    ensures keys[0..] == keys && keys[|keys|..] == [] && ConcatKeys([]) == []
  {
  }

  lemma ConcatStep(keys: seq<Pubkey>, k: nat)
    requires k < |keys|
    ensures ConcatKeys(keys[k..]) == keys[k] + ConcatKeys(keys[k + 1..])
  {
  }

  lemma SingleInstruction(i: Instruction)
    ensures InstructionTable([i]) == EncodeShortvec(1) + ([i.programIndex] + (EncodeByteVec(i.accounts) + EncodeByteVec(i.data)))
  {
    assert EncodeInstructions([i]) == EncodeInstruction(i) + EncodeInstructions([]);
  }

  lemma OptionalLookup(lookup: Option<Lookup>)
    ensures
      LookupTables(LookupsOf(lookup))
      == if lookup.None? then EncodeShortvec(0)
         else
           var l := lookup.value;
           EncodeShortvec(1) + (l.accountKey + (EncodeByteVec(l.writableIndexes) + EncodeByteVec(l.readonlyIndexes)))
  {
    if lookup.Some? {
      assert EncodeLookups([lookup.value]) == EncodeLookup(lookup.value) + EncodeLookups([]);
    } else {
      assert EncodeLookups([]) == [];
    }
  }

  /** The compiler itself. */
  method CompileSwap2(plan: ExecutionPlan, amountIn: u64, minAmountOut: u64, blockhash: Pubkey,
                      table: Option<LookupTable>)
    returns (r: Result<Compiled, Failure>)
    ensures r.Ok? <==> Compile(plan, amountIn, minAmountOut, blockhash, table).Ok?
    ensures r.Ok? ==> r == Compile(plan, amountIn, minAmountOut, blockhash, table)
  {
    hide Encode, UniqueAccounts, Canonical, ApplyLookup, ValidShape, ValidTable, AccountIndexes, AccountIndex,
         HeaderOf, UnsignedTransaction, EncodeShortvec;
    if !ValidShape(plan) {
      return Err(InvalidLayout);
    }
    var ordered := OrderedAccounts(plan);
    if |ordered| > MAX_ACCOUNTS {
      return Err(AccountFootprintExceeded);
    }
    var unique := CollectUnique(ordered);
    if |unique| > MAX_ACCOUNTS {
      return Err(AccountFootprintExceeded);
    }
    var applied := ApplyLookupTable(Canonical(unique), table);
    if applied.Err? {
      return Err(applied.error);
    }
    var app := applied.value;
    var keys := KeysOf(CombinedAccounts(app));
    if |keys| > MAX_ACCOUNTS {
      return Err(AccountFootprintExceeded);
    }
    ShapeLength(plan);
    var program := AccountIndex(keys, plan.fixedAccounts[PROGRAM_POSITION].pubkey);
    if program.Err? {
      return Err(program.error);
    }
    var indexes := AccountIndexes(keys, ordered);
    if indexes.Err? {
      return Err(indexes.error);
    }
    var header := HeaderOf(app.staticAccounts);
    if header.Err? {
      return Err(header.error);
    }
    var message := SerializeMessage(header.value, KeysOf(app.staticAccounts), blockhash, program.value, indexes.value,
                                    Swap2Data(amountIn, minAmountOut), app.lookup);
    var transaction := AppendShortvec([], header.value.requiredSignatures);
    transaction := transaction + Zeros(header.value.requiredSignatures * SIGNATURE_BYTES) + message;
    TransactionBytes(header.value.requiredSignatures, message);
    if |transaction| > SOLANA_MAX_SERIALIZED_TRANSACTION_BYTES {
      return Err(AccountFootprintExceeded);
    }
    return Ok(Compiled(plan.source, KeysOf(app.staticAccounts), KeysOf(app.loadedWritable), KeysOf(app.loadedReadonly),
                       app.lookup, program.value, indexes.value, message, transaction));
  }

  lemma ShapeLength(plan: ExecutionPlan)
    requires ValidShape(plan)
    ensures |plan.fixedAccounts| == 16
  {
  }

  lemma TransactionBytes(signatures: u8, message: bytes)
    ensures UnsignedTransaction(signatures, message) == [] + EncodeShortvec(signatures) + Zeros(signatures * SIGNATURE_BYTES) + message
  {
  }
}
