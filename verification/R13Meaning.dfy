/**
 The two readers of one message agree: the keys the evidence reader resolves for a compiled message are
 the ones the runtime resolves, so a compiled swap, once recorded, reads as the plan it came from.
 */
module R13Meaning {
  import opened Wrappers
  import opened Machine
  import opened AccountPlan
  import opened V0Message
  import opened V0Compiler
  import opened V0Meaning
  import R13Matching

  /** The text a key is recorded under. */
  type Shown = Pubkey -> string

  ghost predicate ShowsKeys(show: Shown, keys: seq<Pubkey>, texts: seq<string>) {
    |texts| == |keys| && forall i :: 0 <= i < |keys| ==> texts[i] == show(keys[i])
  }

  /** The texts of the table's keys at the indexes. */
  ghost predicate ShowsLoaded(show: Shown, addresses: seq<Pubkey>, indexes: seq<u8>, texts: seq<string>) {
    |texts| == |indexes|
    && forall i :: 0 <= i < |indexes| ==> indexes[i] < |addresses| && texts[i] == show(addresses[indexes[i]])
  }

  /** The record of a transaction with this message: its static keys, what the table loaded, and its instructions. */
  ghost predicate RecordOf(e: R13Matching.Evidence, m: Message, table: Option<LookupTable>, show: Shown) {
    && e.meta.Some? && e.staticKeys.Some? && e.instructions.Some? && e.meta.value.inner.Some?
    && ShowsKeys(show, m.staticKeys, e.staticKeys.value)
    && (if m.lookups == []
        then e.meta.value.loaded == R13Matching.NoneLoaded || e.meta.value.loaded == R13Matching.LoadedAddresses([], [])
        else
          && |m.lookups| == 1 && table.Some? && e.meta.value.loaded.LoadedAddresses?
          && ShowsLoaded(show, table.value.addresses, m.lookups[0].writableIndexes, e.meta.value.loaded.writable)
          && ShowsLoaded(show, table.value.addresses, m.lookups[0].readonlyIndexes, e.meta.value.loaded.readonly))
    && |e.instructions.value| == |m.instructions|
    && forall i :: 0 <= i < |m.instructions| ==> RecordsInstruction(e.instructions.value[i], m.instructions[i])
  }

  ghost predicate RecordsInstruction(raw: R13Matching.RawInstruction, i: Instruction) {
    && raw.Compiled? && raw.program == i.programIndex && raw.data == i.data
    && |raw.accounts| == |i.accounts| && forall k :: 0 <= k < |i.accounts| ==> raw.accounts[k] == i.accounts[k]
  }

  ghost predicate ShowsResolved(show: Shown, keys: seq<Resolved>, texts: seq<string>) {
    |texts| == |keys| && forall i :: 0 <= i < |keys| ==> texts[i] == show(keys[i].pubkey)
  }

  lemma StaticPart(m: Message)
    ensures
      var fixedKeys := StaticResolved(m.header, m.staticKeys);
      |fixedKeys| == |m.staticKeys| && forall i :: 0 <= i < |fixedKeys| ==> fixedKeys[i].pubkey == m.staticKeys[i]
  {
  }

  lemma LoadedPart(addresses: seq<Pubkey>, indexes: seq<u8>, isWritable: bool)
    requires Loaded(addresses, indexes, isWritable).Some?
    ensures
      var keys := Loaded(addresses, indexes, isWritable).value;
      |keys| == |indexes|
      && forall i :: 0 <= i < |keys| ==> indexes[i] < |addresses| && keys[i].pubkey == addresses[indexes[i]]
  {
  }

  /** The keys read from the record are the ones the runtime resolved, in the same order. */
  lemma ReadersAgree(e: R13Matching.Evidence, m: Message, table: Option<LookupTable>, show: Shown,
                     keys: seq<Resolved>, texts: seq<string>)
    requires RecordOf(e, m, table, show) && ResolveKeys(m, table) == Some(keys)
    ensures R13Matching.AccountKeys(e, texts) <==> ShowsResolved(show, keys, texts)
  {
    hide Loaded, StaticResolved, RecordsInstruction;
    StaticPart(m);
    var fixedKeys := StaticResolved(m.header, m.staticKeys);
    if m.lookups != [] {
      var l := m.lookups[0];
      LoadedPart(table.value.addresses, l.writableIndexes, true);
      LoadedPart(table.value.addresses, l.readonlyIndexes, false);
      var writable := Loaded(table.value.addresses, l.writableIndexes, true).value;
      var readonly := Loaded(table.value.addresses, l.readonlyIndexes, false).value;
      assert keys == fixedKeys + writable + readonly;
    }
  }

  /** The instruction at the first coordinate is the planned swap: the program, and every planned account in order. */
  ghost predicate ReadsAsPlanned(plan: ExecutionPlan, show: Shown, ins: R13Matching.Instruction)
    requires |plan.fixedAccounts| == 16
  {
    && ins.program == show(plan.fixedAccounts[PROGRAM_POSITION].pubkey)
    && |ins.accounts| == |OrderedAccounts(plan)|
    && forall j :: 0 <= j < |ins.accounts| ==> ins.accounts[j] == show(OrderedAccounts(plan)[j].pubkey)
  }

  /** A compiled swap, recorded on the chain, is read back as the plan's program over the plan's accounts. */
  lemma CompiledSwapReadsBack(plan: ExecutionPlan, amountIn: u64, minAmountOut: u64, blockhash: Pubkey,
                              table: Option<LookupTable>, m: Message, keys: seq<Resolved>, e: R13Matching.Evidence,
                              show: Shown)
    returns (texts: seq<string>, ins: R13Matching.Instruction)
    requires |plan.fixedAccounts| == 16
    requires ResolveKeys(m, table) == Some(keys) && Means(plan, amountIn, minAmountOut, blockhash, table, m, keys)
    requires RecordOf(e, m, table, show)
    ensures R13Matching.AccountKeys(e, texts)
    ensures
      var at := R13Matching.Coordinate(0, None);
      && R13Matching.Recorded(e, at, e.instructions.value[0]) && R13Matching.Reads(e.instructions.value[0], texts, at, ins)
    ensures ReadsAsPlanned(plan, show, ins) && DecodeSwap2(ins.data) == Some((amountIn, minAmountOut))
  {
    hide ResolveKeys, DecodeSwap2, Asked, RecordOf, R13Matching.AccountKeys, R13Matching.Reads;
    texts := seq(|keys|, i requires 0 <= i < |keys| => show(keys[i].pubkey));
    ReadersAgree(e, m, table, show, keys, texts);
    ins := TheInstruction(plan, amountIn, minAmountOut, blockhash, table, m, keys, e, show, texts);
  }

  lemma TheInstruction(plan: ExecutionPlan, amountIn: u64, minAmountOut: u64, blockhash: Pubkey,
                       table: Option<LookupTable>, m: Message, keys: seq<Resolved>, e: R13Matching.Evidence,
                       show: Shown, texts: seq<string>)
    returns (ins: R13Matching.Instruction)
    requires |plan.fixedAccounts| == 16
    requires Means(plan, amountIn, minAmountOut, blockhash, table, m, keys)
    requires RecordOf(e, m, table, show) && ShowsResolved(show, keys, texts)
    ensures
      var at := R13Matching.Coordinate(0, None);
      && e.instructions.Some? && |e.instructions.value| > 0
      && R13Matching.Recorded(e, at, e.instructions.value[0]) && R13Matching.Reads(e.instructions.value[0], texts, at, ins)
    ensures ReadsAsPlanned(plan, show, ins) && DecodeSwap2(ins.data) == Some((amountIn, minAmountOut))
  {
    hide DecodeSwap2, Asked, ShowsLoaded;
    var i := m.instructions[0];
    assert RecordsInstruction(e.instructions.value[0], i);
    ins := R13Matching.Instruction(
      R13Matching.Coordinate(0, None), texts[i.programIndex],
      seq(|i.accounts|, j requires 0 <= j < |i.accounts| => texts[i.accounts[j]]), i.data);
    assert keys[i.programIndex].pubkey == m.staticKeys[i.programIndex];
  }
}
