/**
 What a compiled message means to the runtime that receives it: decode the bytes, resolve the keys
 through the lookup table, read the privileges off the header, and compare with the plan.
 */
module V0Meaning {
  import opened Wrappers
  import opened Machine
  import opened Bytes
  import opened MeteoraTypes
  import opened AccountPlan
  import opened PlanMeaning
  import opened V0Accounts
  import opened V0Message
  import opened V0Compiler

  datatype Resolved = Resolved(pubkey: Pubkey, isSigner: bool, isWritable: bool)

  /** The privileges of a static key by its position, from the header counts alone. */
  function StaticResolved(h: Header, keys: seq<Pubkey>): (r: seq<Resolved>)
    ensures |r| == |keys|
  {
    seq(|keys|, i requires 0 <= i < |keys| =>
      var signer := i < h.requiredSignatures;
      Resolved(keys[i], signer,
               if signer then i < h.requiredSignatures - h.readonlySigned else i < |keys| - h.readonlyUnsigned))
  }

  /** The keys a table index list loads, if every index is in the table. */
  function Loaded(addresses: seq<Pubkey>, indexes: seq<u8>, isWritable: bool): (r: Option<seq<Resolved>>)
  {
    if exists i :: 0 <= i < |indexes| && indexes[i] >= |addresses| then None
    else Some(seq(|indexes|, i requires 0 <= i < |indexes| => Resolved(addresses[indexes[i]], false, isWritable)))
  }

  /** Static keys, then loaded writable keys, then loaded readonly keys. */
  function ResolveKeys(m: Message, table: Option<LookupTable>): (r: Option<seq<Resolved>>)
  {
    var fixedKeys := StaticResolved(m.header, m.staticKeys);
    if m.lookups == [] then Some(fixedKeys)
    else if |m.lookups| > 1 || table.None? || table.value.accountKey != m.lookups[0].accountKey then None
    else match (Loaded(table.value.addresses, m.lookups[0].writableIndexes, true),
                Loaded(table.value.addresses, m.lookups[0].readonlyIndexes, false))
      case (Some(writable), Some(readonly)) => Some(fixedKeys + writable + readonly)
      case _ => None
  }

  // ----- The shape of a plan

  /** The compiler takes exactly the official order, with a signing user and the official writable accounts. */
  lemma ShapeIsOfficial(plan: ExecutionPlan)
    ensures ValidShape(plan) <==>
      && |plan.fixedAccounts| == 16
      && (forall i :: 0 <= i < 16 ==> OfficialAt(i, plan.fixedAccounts[i]))
      && OnlyArrays(plan.remainingAccounts) && forall i :: 0 <= i < |plan.remainingAccounts| ==> !plan.remainingAccounts[i].isSigner
  {
    hide FixedAccountMatches, FixedKind;
    if |plan.fixedAccounts| == 16 {
      forall i | 0 <= i < 16
        ensures FixedAccountMatches(i, plan.fixedAccounts[i]) <==> OfficialAt(i, plan.fixedAccounts[i])
      {
        OfficialKind(i, plan.fixedAccounts[i]);
      }
    }
  }

  /** The account has the kind of the position, and signs and is writable as that kind must. */
  predicate OfficialAt(i: nat, a: Planned)
    requires i < 16
  {
    && a.kind == OFFICIAL_ORDER[i] && (a.isSigner <==> a.kind == User)
    && (a.isWritable <==> a.kind in {LbPairAccount, BinArrayBitmapExtension, ReserveX, ReserveY, UserTokenIn,
                                     UserTokenOut, Oracle, HostFeeIn})
  }

  lemma OfficialKind(i: nat, a: Planned)
    requires i < 16
    ensures FixedAccountMatches(i, a) <==> OfficialAt(i, a)
  {
    if i < 4 {
      assert i == 0 || i == 1 || i == 2 || i == 3;
    } else if i < 8 {
      assert i == 4 || i == 5 || i == 6 || i == 7;
    } else if i < 12 {
      assert i == 8 || i == 9 || i == 10 || i == 11;
    } else {
      assert i == 12 || i == 13 || i == 14 || i == 15;
    }
  }

  // ----- Canonical order

  ghost predicate SameMembers(a: seq<UniqueAccount>, b: seq<UniqueAccount>) {
    forall x :: x in a <==> x in b
  }

  lemma ClassMembers(unique: seq<UniqueAccount>, isSigner: bool, isWritable: bool)
    requires KeysDistinct(unique)
    ensures
      var c := Filter(Class(isSigner, isWritable), unique);
      KeysDistinct(c) && forall x :: x in c <==> x in unique && x.isSigner == isSigner && x.isWritable == isWritable
  {
  }

  /** Reordering by class keeps exactly the unique accounts. */
  lemma CanonicalKeepsAccounts(unique: seq<UniqueAccount>)
    requires KeysDistinct(unique)
    ensures KeysDistinct(Canonical(unique)) && SameMembers(Canonical(unique), unique)
  {
    hide Filter, Class, KeysDistinct;
    ClassMembers(unique, true, true);
    ClassMembers(unique, true, false);
    ClassMembers(unique, false, true);
    ClassMembers(unique, false, false);
    var a, b := Filter(Class(true, true), unique), Filter(Class(true, false), unique);
    var c, d := Filter(Class(false, true), unique), Filter(Class(false, false), unique);
    DisjointSelections(unique, a, b);
    DisjointSelections(unique, a + b, c);
    DisjointSelections(unique, a + b + c, d);
  }

  /** The static accounts and the loaded ones are together the canonical accounts. */
  lemma LookupKeepsAccounts(canonical: seq<UniqueAccount>, table: Option<LookupTable>)
    requires KeysDistinct(canonical) && (table.Some? ==> ValidTable(table.value))
    ensures
      var all := CombinedAccounts(ApplyLookup(canonical, table));
      KeysDistinct(all) && SameMembers(all, canonical)
  {
    hide Filter, KeysDistinct, TableIndexes, ValidTable;
    if table.Some? {
      var t := table.value;
      var fixedOnes := Filter(Static(t), canonical);
      var w, r := Filter(LoadedAs(t, true), canonical), Filter(LoadedAs(t, false), canonical);
      FilterIsSelection(Static(t), canonical);
      FilterIsSelection(LoadedAs(t, true), canonical);
      FilterIsSelection(LoadedAs(t, false), canonical);
      FilterKeepsDistinct(Static(t), canonical);
      FilterKeepsDistinct(LoadedAs(t, true), canonical);
      FilterKeepsDistinct(LoadedAs(t, false), canonical);
      DisjointSelections(canonical, fixedOnes, w);
      DisjointSelections(canonical, fixedOnes + w, r);
    } else {
      assert CombinedAccounts(ApplyLookup(canonical, table)) == canonical;
    }
  }

  // ----- The header

  /** Accounts sorted into the four classes, in order. */
  ghost predicate Classified(s: seq<UniqueAccount>, a: seq<UniqueAccount>, b: seq<UniqueAccount>,
                             c: seq<UniqueAccount>, d: seq<UniqueAccount>) {
    && s == a + b + c + d
    && (forall i :: 0 <= i < |a| ==> a[i].isSigner && a[i].isWritable)
    && (forall i :: 0 <= i < |b| ==> b[i].isSigner && !b[i].isWritable)
    && (forall i :: 0 <= i < |c| ==> !c[i].isSigner && c[i].isWritable)
    && (forall i :: 0 <= i < |d| ==> !d[i].isSigner && !d[i].isWritable)
  }

  lemma CountOver(p: UniqueAccount -> bool, a: seq<UniqueAccount>, b: seq<UniqueAccount>, c: seq<UniqueAccount>,
                  d: seq<UniqueAccount>)
    ensures |Filter(p, a + b + c + d)| == |Filter(p, a)| + |Filter(p, b)| + |Filter(p, c)| + |Filter(p, d)|
  {
    FilterConcat(p, a + b + c, d);
    FilterConcat(p, a + b, c);
    FilterConcat(p, a, b);
  }

  lemma CountAll(p: UniqueAccount -> bool, a: seq<UniqueAccount>, b: seq<UniqueAccount>, c: seq<UniqueAccount>,
                 d: seq<UniqueAccount>,
                 pa: bool, pb: bool, pc: bool, pd: bool)
    requires forall i :: 0 <= i < |a| ==> p(a[i]) == pa
    requires forall i :: 0 <= i < |b| ==> p(b[i]) == pb
    requires forall i :: 0 <= i < |c| ==> p(c[i]) == pc
    requires forall i :: 0 <= i < |d| ==> p(d[i]) == pd
    ensures |Filter(p, a + b + c + d)|
         == (if pa then |a| else 0) + (if pb then |b| else 0) + (if pc then |c| else 0) + (if pd then |d| else 0)
  {
    hide Filter;
    CountOver(p, a, b, c, d);
    CountOne(p, a, pa);
    CountOne(p, b, pb);
    CountOne(p, c, pc);
    CountOne(p, d, pd);
  }

  lemma CountOne(p: UniqueAccount -> bool, s: seq<UniqueAccount>, all: bool)
    requires forall i :: 0 <= i < |s| ==> p(s[i]) == all
    ensures |Filter(p, s)| == if all then |s| else 0
  {
  }

  /** The header counts of classified accounts are the class sizes. */
  lemma HeaderCounts(s: seq<UniqueAccount>, a: seq<UniqueAccount>, b: seq<UniqueAccount>, c: seq<UniqueAccount>,
                     d: seq<UniqueAccount>)
    requires Classified(s, a, b, c, d)
    ensures |Filter(Signers, s)| == |a| + |b|
    ensures |Filter(ReadonlySigners, s)| == |b|
    ensures |Filter(ReadonlyOthers, s)| == |d|
  {
    hide Filter;
    CountAll(Signers, a, b, c, d, true, true, false, false);
    CountAll(ReadonlySigners, a, b, c, d, false, true, false, false);
    CountAll(ReadonlyOthers, a, b, c, d, false, false, false, true);
  }

  function ResolvedOf(accounts: seq<UniqueAccount>): (r: seq<Resolved>)
    ensures |r| == |accounts|
  {
    seq(|accounts|, i requires 0 <= i < |accounts| => Resolved(accounts[i].pubkey, accounts[i].isSigner, accounts[i].isWritable))
  }

  /** Positions against the header counts give back each static account's privileges. */
  lemma HeaderMeaning(h: Header, s: seq<UniqueAccount>, a: seq<UniqueAccount>, b: seq<UniqueAccount>,
                      c: seq<UniqueAccount>, d: seq<UniqueAccount>)
    requires Classified(s, a, b, c, d) && HeaderOf(s) == Ok(h)
    ensures StaticResolved(h, KeysOf(s)) == ResolvedOf(s)
  {
    hide Filter;
    HeaderCounts(s, a, b, c, d);
    forall i | 0 <= i < |s|
      ensures StaticResolved(h, KeysOf(s))[i] == ResolvedOf(s)[i]
    {
      if i < |a| {
        assert s[i] == a[i];
      } else if i < |a| + |b| {
        assert s[i] == b[i - |a|];
      } else if i < |a| + |b| + |c| {
        assert s[i] == c[i - |a| - |b|];
      } else {
        assert s[i] == d[i - |a| - |b| - |c|];
      }
    }
  }

  ghost predicate InClass(s: seq<UniqueAccount>, isSigner: bool, isWritable: bool) {
    forall i :: 0 <= i < |s| ==> s[i].isSigner == isSigner && s[i].isWritable == isWritable
  }

  lemma ClassIsClass(unique: seq<UniqueAccount>, isSigner: bool, isWritable: bool)
    ensures InClass(Filter(Class(isSigner, isWritable), unique), isSigner, isWritable)
  {
  }

  lemma FilterKeepsClass(p: UniqueAccount -> bool, s: seq<UniqueAccount>, isSigner: bool, isWritable: bool)
    requires InClass(s, isSigner, isWritable)
    ensures InClass(Filter(p, s), isSigner, isWritable)
  {
  }

  /** Selecting from the canonical order keeps the four classes in order. */
  lemma SelectionClassified(p: UniqueAccount -> bool, unique: seq<UniqueAccount>)
    ensures
      exists a, b, c, d :: Classified(Filter(p, Canonical(unique)), a, b, c, d)
  {
    hide Filter;
    var a, b := Filter(Class(true, true), unique), Filter(Class(true, false), unique);
    var c, d := Filter(Class(false, true), unique), Filter(Class(false, false), unique);
    assert Canonical(unique) == a + b + c + d;
    FilterConcat(p, a + b + c, d);
    FilterConcat(p, a + b, c);
    FilterConcat(p, a, b);
    ClassIsClass(unique, true, true);
    ClassIsClass(unique, true, false);
    ClassIsClass(unique, false, true);
    ClassIsClass(unique, false, false);
    FilterKeepsClass(p, a, true, true);
    FilterKeepsClass(p, b, true, false);
    FilterKeepsClass(p, c, false, true);
    FilterKeepsClass(p, d, false, false);
    assert Classified(Filter(p, Canonical(unique)), Filter(p, a), Filter(p, b), Filter(p, c), Filter(p, d));
  }

  /** Without a table the canonical order is itself classified. */
  lemma CanonicalClassified(unique: seq<UniqueAccount>)
    ensures exists a, b, c, d :: Classified(Canonical(unique), a, b, c, d)
  {
    hide Filter;
    ClassIsClass(unique, true, true);
    ClassIsClass(unique, true, false);
    ClassIsClass(unique, false, true);
    ClassIsClass(unique, false, false);
    assert Classified(Canonical(unique), Filter(Class(true, true), unique), Filter(Class(true, false), unique),
                      Filter(Class(false, true), unique), Filter(Class(false, false), unique));
  }

  /** The header of the static accounts describes them, with or without a table. */
  lemma StaticKeysMeaning(unique: seq<UniqueAccount>, table: Option<LookupTable>, h: Header)
    requires table.Some? ==> ValidTable(table.value)
    requires HeaderOf(ApplyLookup(Canonical(unique), table).staticAccounts) == Ok(h)
    ensures
      var s := ApplyLookup(Canonical(unique), table).staticAccounts;
      StaticResolved(h, KeysOf(s)) == ResolvedOf(s)
  {
    hide Filter, Canonical, HeaderOf, StaticResolved, ResolvedOf, KeysOf, TableIndexes;
    var s := ApplyLookup(Canonical(unique), table).staticAccounts;
    if table.Some? {
      SelectionClassified(Static(table.value), unique);
    } else {
      CanonicalClassified(unique);
    }
    var a, b, c, d :| Classified(s, a, b, c, d);
    HeaderMeaning(h, s, a, b, c, d);
  }

  // ----- The loaded accounts

  lemma LoadedMeaning(table: LookupTable, canonical: seq<UniqueAccount>, isWritable: bool)
    requires ValidTable(table)
    ensures
      var s := Filter(LoadedAs(table, isWritable), canonical);
      AllInTable(table, s) && Loaded(table.addresses, TableIndexes(table, s), isWritable) == Some(ResolvedOf(s))
  {
    hide Filter, TableIndexes;
    LoadedInTable(table, isWritable, canonical);
    var s := Filter(LoadedAs(table, isWritable), canonical);
    FilterIsSelection(LoadedAs(table, isWritable), canonical);
    assert forall i :: 0 <= i < |s| ==> s[i] in s;
    var indexes := TableIndexes(table, s);
    assert forall i :: 0 <= i < |s| ==> indexes[i] < |table.addresses| && table.addresses[indexes[i]] == s[i].pubkey;
    assert Loaded(table.addresses, indexes, isWritable).value == ResolvedOf(s);
  }

  /** Resolving the message gives every combined account with its merged privileges. */
  lemma ResolutionMeaning(unique: seq<UniqueAccount>, table: Option<LookupTable>, h: Header, blockhash: Pubkey,
                          programIndex: u8, indexes: seq<u8>, data: bytes)
    requires table.Some? ==> ValidTable(table.value)
    requires HeaderOf(ApplyLookup(Canonical(unique), table).staticAccounts) == Ok(h)
    ensures
      var app := ApplyLookup(Canonical(unique), table);
      ResolveKeys(MessageOf(h, app, blockhash, programIndex, indexes, data), table) == Some(ResolvedOf(CombinedAccounts(app)))
  {
    hide Filter, Canonical, HeaderOf, StaticResolved, TableIndexes, Loaded;
    var canonical := Canonical(unique);
    var app := ApplyLookup(canonical, table);
    StaticKeysMeaning(unique, table, h);
    assert ResolvedOf(CombinedAccounts(app))
        == ResolvedOf(app.staticAccounts) + ResolvedOf(app.loadedWritable) + ResolvedOf(app.loadedReadonly);
    if app.lookup.Some? {
      LoadedMeaning(table.value, canonical, true);
      LoadedMeaning(table.value, canonical, false);
    } else {
      assert CombinedAccounts(app) == app.staticAccounts;
    }
  }

  // ----- The theorem

  /** The instruction data, read back: discriminator, the two amounts, no remaining-account slices. */
  function DecodeSwap2(data: bytes): (r: Option<(nat, nat)>)
  {
    if |data| == 28 && data[..8] == SWAP2_DISCRIMINATOR && data[24..] == [0, 0, 0, 0]
    then Some((FromLittleEndian(data[8..16]), FromLittleEndian(data[16..24])))
    else None
  }

  lemma Swap2DataMeaning(amountIn: u64, minAmountOut: u64)
    ensures DecodeSwap2(Swap2Data(amountIn, minAmountOut)) == Some((amountIn, minAmountOut))
  {
    hide LittleEndian, FromLittleEndian, Pow256;
    Pow256Widths();
    LittleEndianRoundTrip(amountIn, 8);
    LittleEndianRoundTrip(minAmountOut, 8);
    var data := Swap2Data(amountIn, minAmountOut);
    assert data[..8] == SWAP2_DISCRIMINATOR;
    assert data[8..16] == LittleEndian(amountIn, 8);
    assert data[16..24] == LittleEndian(minAmountOut, 8);
    assert data[24..] == [0, 0, 0, 0];
  }

  /** Some account the plan lists under this key asks for the privilege. */
  ghost predicate Asked(plan: ExecutionPlan, key: Pubkey, p: Planned -> bool) {
    SomeMention(OrderedAccounts(plan), key, p)
  }

  /** The table carries the key: it is listed there, and no listing of it in the plan signs or is invoked. */
  ghost predicate Carried(plan: ExecutionPlan, table: Option<LookupTable>, key: Pubkey) {
    && table.Some? && key in table.value.addresses
    && Asked(plan, key, Any) && !Asked(plan, key, WantsSigner) && !Asked(plan, key, Invokes)
  }

  /** The keys behind the static ones are exactly those the table carries, writable ones first. */
  ghost predicate LoadsEverything(plan: ExecutionPlan, table: Option<LookupTable>, m: Message, keys: seq<Resolved>) {
    && |m.staticKeys| <= |keys|
    && (forall i :: 0 <= i < |m.staticKeys| ==> keys[i].pubkey == m.staticKeys[i])
    && (forall i :: 0 <= i < |keys| ==> (i >= |m.staticKeys| <==> Carried(plan, table, keys[i].pubkey)))
    && (forall i, j :: |m.staticKeys| <= i < j < |keys| && keys[j].isWritable ==> keys[i].isWritable)
  }

  /** What a compiled swap means to the runtime. */
  ghost predicate Means(plan: ExecutionPlan, amountIn: u64, minAmountOut: u64, blockhash: Pubkey,
                        table: Option<LookupTable>, m: Message, keys: seq<Resolved>)
    requires |plan.fixedAccounts| == 16
  {
    && m.blockhash == blockhash && |m.instructions| == 1
    && var i := m.instructions[0];
       // The amounts.
       && DecodeSwap2(i.data) == Some((amountIn, minAmountOut))
       // The accounts, in plan order, each with the privileges some listing of its key asks for.
       && |i.accounts| == |OrderedAccounts(plan)|
       && (forall j :: 0 <= j < |i.accounts| ==>
             && i.accounts[j] < |keys|
             && keys[i.accounts[j]] == Resolved(OrderedAccounts(plan)[j].pubkey,
                                                Asked(plan, OrderedAccounts(plan)[j].pubkey, WantsSigner),
                                                Asked(plan, OrderedAccounts(plan)[j].pubkey, WantsWritable)))
       // No key twice, and no key that the plan does not list.
       && (forall j, k :: 0 <= j < k < |keys| ==> keys[j].pubkey != keys[k].pubkey)
       && (forall k :: 0 <= k < |keys| ==> Asked(plan, keys[k].pubkey, Any))
       // The invoked program is a static key.
       && i.programIndex < |m.staticKeys| && m.staticKeys[i.programIndex] == plan.fixedAccounts[PROGRAM_POSITION].pubkey
       // The user signs first and alone, and pays.
       && |keys| > 0 && keys[0] == Resolved(plan.fixedAccounts[USER_POSITION].pubkey, true, true)
       && (forall k :: 0 < k < |keys| ==> !keys[k].isSigner)
       && m.header.requiredSignatures == 1 && m.header.readonlySigned == 0
       // Whatever the table can carry is loaded from it.
       && LoadsEverything(plan, table, m, keys)
  }

  /** The combined accounts of a compilation. */
  function Combined(plan: ExecutionPlan, table: Option<LookupTable>): seq<UniqueAccount>
    requires table.Some? ==> ValidTable(table.value)
  {
    CombinedAccounts(ApplyLookup(Canonical(UniqueAccounts(OrderedAccounts(plan))), table))
  }

  /** Each combined account carries the merged privileges of its key, and every planned key is there. */
  lemma CombinedMeaning(plan: ExecutionPlan, table: Option<LookupTable>)
    requires table.Some? ==> ValidTable(table.value)
    ensures
      var all := Combined(plan, table);
      && KeysDistinct(all)
      && (forall k :: 0 <= k < |all| ==>
            && Asked(plan, all[k].pubkey, Any)
            && (all[k].isSigner <==> Asked(plan, all[k].pubkey, WantsSigner))
            && (all[k].isWritable <==> Asked(plan, all[k].pubkey, WantsWritable))
            && (all[k].isInvoked <==> Asked(plan, all[k].pubkey, Invokes)))
      && (forall j :: 0 <= j < |OrderedAccounts(plan)| ==> OrderedAccounts(plan)[j].pubkey in KeysOf(all))
  {
    hide KeysDistinct, SomeMention, UniqueAccounts, Canonical, ApplyLookup, CombinedAccounts, OrderedAccounts;
    var ordered := OrderedAccounts(plan);
    var unique := UniqueAccounts(ordered);
    UniqueAccountsMerged(ordered);
    CanonicalKeepsAccounts(unique);
    LookupKeepsAccounts(Canonical(unique), table);
    var all := Combined(plan, table);
    forall k | 0 <= k < |all|
      ensures all[k] in unique
    {
      assert all[k] in all;
    }
    forall j | 0 <= j < |ordered|
      ensures ordered[j].pubkey in KeysOf(all)
    {
      var k :| 0 <= k < |unique| && unique[k].pubkey == ordered[j].pubkey;
      assert unique[k] in all;
      var n :| 0 <= n < |all| && all[n] == unique[k];
      assert KeysOf(all)[n] == ordered[j].pubkey;
    }
  }

  /** Only the user is asked to sign. */
  lemma OnlyUserSigns(plan: ExecutionPlan, key: Pubkey)
    requires ValidShape(plan)
    ensures Asked(plan, key, WantsSigner) <==> key == plan.fixedAccounts[USER_POSITION].pubkey
    ensures Asked(plan, plan.fixedAccounts[USER_POSITION].pubkey, WantsWritable)
    ensures Asked(plan, plan.fixedAccounts[PROGRAM_POSITION].pubkey, Invokes)
  {
    var ordered := OrderedAccounts(plan);
    forall i | 0 <= i < |ordered|
      ensures WantsSigner(ordered[i]) <==> i == USER_POSITION
    {
      if i < 16 {
        assert FixedAccountMatches(i, plan.fixedAccounts[i]);
      } else {
        assert RemainingAccountMatches(plan.remainingAccounts[i - 16]);
      }
    }
    assert ordered[USER_POSITION] == plan.fixedAccounts[USER_POSITION];
    assert ordered[PROGRAM_POSITION] == plan.fixedAccounts[PROGRAM_POSITION];
    assert FixedAccountMatches(USER_POSITION, ordered[USER_POSITION]);
    assert FixedAccountMatches(PROGRAM_POSITION, ordered[PROGRAM_POSITION]);
  }

  // ----- Every step of an admitted compilation succeeds

  lemma {:induction false} ClassesPartition(s: seq<UniqueAccount>)
    ensures |Canonical(s)| == |s|
    decreases |s|
  {
    if s != [] {
      var init, last := s[..|s| - 1], s[|s| - 1];
      ClassesPartition(init);
      assert s == init + [last];
      FilterSnoc(Class(true, true), init, last);
      FilterSnoc(Class(true, false), init, last);
      FilterSnoc(Class(false, true), init, last);
      FilterSnoc(Class(false, false), init, last);
    }
  }

  lemma {:induction false} LookupPartition(t: LookupTable, s: seq<UniqueAccount>)
    ensures |Filter(Static(t), s)| + |Filter(LoadedAs(t, true), s)| + |Filter(LoadedAs(t, false), s)| == |s|
    decreases |s|
  {
    if s != [] {
      var init, last := s[..|s| - 1], s[|s| - 1];
      LookupPartition(t, init);
      assert s == init + [last];
      FilterSnoc(Static(t), init, last);
      FilterSnoc(LoadedAs(t, true), init, last);
      FilterSnoc(LoadedAs(t, false), init, last);
    }
  }

  lemma CombinedLength(plan: ExecutionPlan, table: Option<LookupTable>)
    requires table.Some? ==> ValidTable(table.value)
    ensures |Combined(plan, table)| == |UniqueAccounts(OrderedAccounts(plan))|
  {
    hide Filter, Canonical, TableIndexes;
    var unique := UniqueAccounts(OrderedAccounts(plan));
    ClassesPartition(unique);
    if table.Some? {
      LookupPartition(table.value, Canonical(unique));
    }
  }

  lemma {:induction false} AccountIndexesSucceed(keys: seq<Pubkey>, accounts: seq<Planned>)
    requires |keys| <= MAX_ACCOUNTS
    requires forall j :: 0 <= j < |accounts| ==> accounts[j].pubkey in keys
    ensures AccountIndexes(keys, accounts).Ok?
    decreases |accounts|
  {
    if accounts != [] {
      AccountIndexesSucceed(keys, accounts[..|accounts| - 1]);
    }
  }

  /** Signers and invoked programs stay static. */
  lemma PrivilegedStaysStatic(plan: ExecutionPlan, table: Option<LookupTable>, k: nat)
    requires table.Some? ==> ValidTable(table.value)
    requires k < |Combined(plan, table)|
    requires Combined(plan, table)[k].isSigner || Combined(plan, table)[k].isInvoked
    ensures
      var app := ApplyLookup(Canonical(UniqueAccounts(OrderedAccounts(plan))), table);
      k < |app.staticAccounts| && app.staticAccounts[k] == Combined(plan, table)[k]
  {
    hide Filter, Canonical, TableIndexes, UniqueAccounts;
    var canonical := Canonical(UniqueAccounts(OrderedAccounts(plan)));
    var app := ApplyLookup(canonical, table);
    var n := |app.staticAccounts|;
    if table.Some? && k >= n {
      FilterIsSelection(LoadedAs(table.value, true), canonical);
      FilterIsSelection(LoadedAs(table.value, false), canonical);
      var u := Combined(plan, table)[k];
      LoadedElement(app, k);
    }
  }

  lemma LoadedElement(app: Application, k: nat)
    requires |app.staticAccounts| <= k < |CombinedAccounts(app)|
    ensures CombinedAccounts(app)[k] in app.loadedWritable || CombinedAccounts(app)[k] in app.loadedReadonly
  {
  }

  /** The user's entry. */
  lemma UserEntry(plan: ExecutionPlan, table: Option<LookupTable>) returns (k: nat)
    requires ValidShape(plan) && (table.Some? ==> ValidTable(table.value))
    ensures
      var all := Combined(plan, table);
      && k < |all| && all[k].pubkey == plan.fixedAccounts[USER_POSITION].pubkey && all[k].isSigner && all[k].isWritable
      && forall n :: 0 <= n < |all| && all[n].isSigner ==> n == k
  {
    hide Combined, Asked, FixedAccountMatches;
    var all, user := Combined(plan, table), plan.fixedAccounts[USER_POSITION].pubkey;
    CombinedMeaning(plan, table);
    assert OrderedAccounts(plan)[USER_POSITION].pubkey == user;
    k :| 0 <= k < |all| && KeysOf(all)[k] == user;
    OnlyUserSigns(plan, user);
    forall n | 0 <= n < |all| && all[n].isSigner
      ensures n == k
    {
      OnlyUserSigns(plan, all[n].pubkey);
    }
  }

  /** The program's entry, and it is static. */
  lemma ProgramEntry(plan: ExecutionPlan, table: Option<LookupTable>) returns (k: nat)
    requires ValidShape(plan) && (table.Some? ==> ValidTable(table.value))
    ensures
      var app := ApplyLookup(Canonical(UniqueAccounts(OrderedAccounts(plan))), table);
      && k < |app.staticAccounts| && app.staticAccounts[k].pubkey == plan.fixedAccounts[PROGRAM_POSITION].pubkey
      && k < |Combined(plan, table)| && Combined(plan, table)[k] == app.staticAccounts[k]
  {
    hide Combined, Asked, FixedAccountMatches, ApplyLookup, Canonical, UniqueAccounts;
    var all, program := Combined(plan, table), plan.fixedAccounts[PROGRAM_POSITION].pubkey;
    CombinedMeaning(plan, table);
    assert OrderedAccounts(plan)[PROGRAM_POSITION].pubkey == program;
    k :| 0 <= k < |all| && KeysOf(all)[k] == program;
    OnlyUserSigns(plan, program);
    PrivilegedStaysStatic(plan, table, k);
  }

  /** The static accounts begin with the user, their only signer. */
  lemma UserFirst(plan: ExecutionPlan, table: Option<LookupTable>)
    requires ValidShape(plan) && (table.Some? ==> ValidTable(table.value))
    ensures
      var s := ApplyLookup(Canonical(UniqueAccounts(OrderedAccounts(plan))), table).staticAccounts;
      && s != [] && s[0].pubkey == plan.fixedAccounts[USER_POSITION].pubkey && s[0].isSigner && s[0].isWritable
      && |Filter(Signers, s)| == 1 && |Filter(ReadonlySigners, s)| == 0 && |Filter(ReadonlyOthers, s)| < |s|
  {
    hide Combined, Canonical, UniqueAccounts, Filter, TableIndexes, ValidShape, ApplyLookup;
    var unique := UniqueAccounts(OrderedAccounts(plan));
    var app := ApplyLookup(Canonical(unique), table);
    var s := app.staticAccounts;
    var k := UserEntry(plan, table);
    PrivilegedStaysStatic(plan, table, k);
    StaticClassified(unique, table);
    StaticOpensCombined(plan, table);
    var a, b, c, d :| Classified(s, a, b, c, d);
    HeaderCounts(s, a, b, c, d);
    FirstOfClasses(s, a, b, c, d, k);
  }

  lemma StaticClassified(unique: seq<UniqueAccount>, table: Option<LookupTable>)
    requires table.Some? ==> ValidTable(table.value)
    ensures exists a, b, c, d :: Classified(ApplyLookup(Canonical(unique), table).staticAccounts, a, b, c, d)
  {
    hide Filter, Canonical, TableIndexes;
    if table.Some? {
      SelectionClassified(Static(table.value), unique);
      assert ApplyLookup(Canonical(unique), table).staticAccounts == Filter(Static(table.value), Canonical(unique));
    } else {
      CanonicalClassified(unique);
      assert ApplyLookup(Canonical(unique), table).staticAccounts == Canonical(unique);
    }
  }

  lemma StaticOpensCombined(plan: ExecutionPlan, table: Option<LookupTable>)
    requires table.Some? ==> ValidTable(table.value)
    ensures
      var s := ApplyLookup(Canonical(UniqueAccounts(OrderedAccounts(plan))), table).staticAccounts;
      |s| <= |Combined(plan, table)| && forall n :: 0 <= n < |s| ==> s[n] == Combined(plan, table)[n]
  {
  }

  lemma FirstOfClasses(s: seq<UniqueAccount>, a: seq<UniqueAccount>, b: seq<UniqueAccount>, c: seq<UniqueAccount>,
                       d: seq<UniqueAccount>, k: nat)
    requires Classified(s, a, b, c, d)
    requires k < |s| && s[k].isSigner && s[k].isWritable
    requires forall n :: 0 <= n < |s| && s[n].isSigner ==> n == k
    ensures k == 0 && |a| == 1 && b == []
  {
    ClassifiedFlags(s, a, b, c, d);
    SignerIs(s, |a| + |b|, k, 0);
    SignerIs(s, |a| + |b|, k, 1);
  }

  lemma ClassifiedFlags(s: seq<UniqueAccount>, a: seq<UniqueAccount>, b: seq<UniqueAccount>, c: seq<UniqueAccount>,
                        d: seq<UniqueAccount>)
    requires Classified(s, a, b, c, d)
    ensures |a| + |b| <= |s|
    ensures forall i :: 0 <= i < |s| ==> (s[i].isSigner <==> i < |a| + |b|) && (s[i].isSigner && s[i].isWritable <==> i < |a|)
  {
  }

  lemma SignerIs(s: seq<UniqueAccount>, signers: nat, k: nat, i: nat)
    requires signers <= |s| && forall n :: 0 <= n < |s| ==> (s[n].isSigner <==> n < signers)
    requires forall n :: 0 <= n < |s| && s[n].isSigner ==> n == k
    ensures i < signers ==> i == k
  {
    assert i < signers ==> s[i].isSigner;
  }

  lemma StaticFits(plan: ExecutionPlan, table: Option<LookupTable>)
    requires ValidShape(plan) && |OrderedAccounts(plan)| <= MAX_ACCOUNTS && (table.Some? ==> ValidTable(table.value))
    ensures
      var s := ApplyLookup(Canonical(UniqueAccounts(OrderedAccounts(plan))), table).staticAccounts;
      && |Combined(plan, table)| <= MAX_ACCOUNTS
      && HeaderOf(s).Ok? && HeaderOf(s).value.requiredSignatures == 1 && HeaderOf(s).value.readonlySigned == 0
  {
    hide Combined, ApplyLookup, Canonical, UniqueAccounts, Filter, ValidShape, ValidTable;
    UserFirst(plan, table);
    StaticOpensCombined(plan, table);
    CombinedLength(plan, table);
  }

  lemma AppliedLookupIsSmall(canonical: seq<UniqueAccount>, table: Option<LookupTable>)
    requires (table.Some? ==> ValidTable(table.value)) && |canonical| <= MAX_ACCOUNTS
    ensures forall l :: l in LookupsOf(ApplyLookup(canonical, table).lookup) ==> SmallLookup(l)
    ensures |KeysOf(ApplyLookup(canonical, table).staticAccounts)| <= MAX_ACCOUNTS
  {
  }

  /** The message a compilation writes. */
  lemma CompiledMessage(plan: ExecutionPlan, amountIn: u64, minAmountOut: u64, blockhash: Pubkey,
                        table: Option<LookupTable>)
    returns (m: Message, app: Application, h: Header, programIndex: u8, indexes: seq<u8>)
    requires ValidShape(plan) && |OrderedAccounts(plan)| <= MAX_ACCOUNTS && (table.Some? ==> ValidTable(table.value))
    ensures app == ApplyLookup(Canonical(UniqueAccounts(OrderedAccounts(plan))), table) && HeaderOf(app.staticAccounts) == Ok(h)
    ensures AccountIndex(KeysOf(CombinedAccounts(app)), plan.fixedAccounts[PROGRAM_POSITION].pubkey) == Ok(programIndex)
    ensures AccountIndexes(KeysOf(CombinedAccounts(app)), OrderedAccounts(plan)) == Ok(indexes)
    ensures m == MessageOf(h, app, blockhash, programIndex, indexes, Swap2Data(amountIn, minAmountOut)) && SmallMessage(m)
    ensures h.requiredSignatures == 1 && h.readonlySigned == 0
    ensures
      var transaction := UnsignedTransaction(1, Encode(m));
      Compile(plan, amountIn, minAmountOut, blockhash, table)
      == if |transaction| > SOLANA_MAX_SERIALIZED_TRANSACTION_BYTES then Err(AccountFootprintExceeded)
         else Ok(Compiled(plan.source, KeysOf(app.staticAccounts), KeysOf(app.loadedWritable), KeysOf(app.loadedReadonly),
                          app.lookup, programIndex, indexes, Encode(m), transaction))
  {
    hide ApplyLookup, Canonical, UniqueAccounts, Filter, HeaderOf, Encode, UnsignedTransaction, AccountIndexes,
         KeysDistinct, Asked,
      FixedAccountMatches, CombinedAccounts, Swap2Data;
    var ordered := OrderedAccounts(plan);
    var canonical := Canonical(UniqueAccounts(ordered));
    app := ApplyLookup(canonical, table);
    StaticFits(plan, table);
    h := HeaderOf(app.staticAccounts).value;
    CombinedMeaning(plan, table);
    var keys := KeysOf(CombinedAccounts(app));
    AccountIndexesSucceed(keys, ordered);
    indexes := AccountIndexes(keys, ordered).value;
    assert ordered[PROGRAM_POSITION].pubkey in keys;
    programIndex := AccountIndex(keys, plan.fixedAccounts[PROGRAM_POSITION].pubkey).value;
    ClassesPartition(UniqueAccounts(ordered));
    AppliedLookupIsSmall(canonical, table);
    m := MessageOf(h, app, blockhash, programIndex, indexes, Swap2Data(amountIn, minAmountOut));
  }

  lemma AccountsMean(plan: ExecutionPlan, table: Option<LookupTable>, app: Application, indexes: seq<u8>,
                     programIndex: u8)
    requires ValidShape(plan) && (table.Some? ==> ValidTable(table.value))
    requires app == ApplyLookup(Canonical(UniqueAccounts(OrderedAccounts(plan))), table)
    requires AccountIndexes(KeysOf(CombinedAccounts(app)), OrderedAccounts(plan)) == Ok(indexes)
    requires AccountIndex(KeysOf(CombinedAccounts(app)), plan.fixedAccounts[PROGRAM_POSITION].pubkey) == Ok(programIndex)
    ensures
      var keys := ResolvedOf(CombinedAccounts(app));
      var ordered := OrderedAccounts(plan);
      && |indexes| == |ordered|
      && (forall j :: 0 <= j < |indexes| ==>
            && indexes[j] < |keys|
            && keys[indexes[j]] == Resolved(ordered[j].pubkey, Asked(plan, ordered[j].pubkey, WantsSigner),
                                            Asked(plan, ordered[j].pubkey, WantsWritable)))
      && (forall j, k :: 0 <= j < k < |keys| ==> keys[j].pubkey != keys[k].pubkey)
      && (forall k :: 0 <= k < |keys| ==> Asked(plan, keys[k].pubkey, Any))
      && programIndex < |app.staticAccounts|
      && KeysOf(app.staticAccounts)[programIndex] == plan.fixedAccounts[PROGRAM_POSITION].pubkey
      && |keys| > 0 && keys[0] == Resolved(plan.fixedAccounts[USER_POSITION].pubkey, true, true)
      && (forall k :: 0 < k < |keys| ==> !keys[k].isSigner)
  {
    hide ApplyLookup, Canonical, UniqueAccounts, Filter, AccountIndexes, Asked, FixedAccountMatches, ValidTable;
    var all := CombinedAccounts(app);
    CombinedMeaning(plan, table);
    var p := ProgramEntry(plan, table);
    var programKey := plan.fixedAccounts[PROGRAM_POSITION].pubkey;
    assert all[p].pubkey == programKey && KeysOf(all)[programIndex] == all[programIndex].pubkey;
    assert programIndex == p;
    var u := UserEntry(plan, table);
    UserFirst(plan, table);
    StaticOpensCombined(plan, table);
    assert all[0].isSigner;
    assert u == 0;
  }

  /** The fields of a compilation beside its bytes. */
  ghost predicate Describes(c: Compiled, m: Message, keys: seq<Resolved>) {
    var n, w := |m.staticKeys|, |c.loadedWritable|;
    && c.staticKeys == m.staticKeys && LookupsOf(c.lookup) == m.lookups && |m.instructions| == 1
    && c.programIndex == m.instructions[0].programIndex && c.accountIndexes == m.instructions[0].accounts
    && n + w + |c.loadedReadonly| == |keys|
    && AreLoaded(keys[n..n + w], c.loadedWritable, true)
    && AreLoaded(keys[n + w..n + w + |c.loadedReadonly|], c.loadedReadonly, false)
  }

  ghost predicate AreLoaded(part: seq<Resolved>, keys: seq<Pubkey>, isWritable: bool) {
    |part| == |keys| && forall i :: 0 <= i < |part| ==> part[i].pubkey == keys[i] && part[i].isWritable == isWritable
  }

  lemma CompiledDescribes(canonical: seq<UniqueAccount>, table: Option<LookupTable>, c: Compiled, m: Message)
    requires table.Some? ==> ValidTable(table.value)
    requires
      var app := ApplyLookup(canonical, table);
      && m.staticKeys == c.staticKeys == KeysOf(app.staticAccounts) && m.lookups == LookupsOf(c.lookup)
      && c.loadedWritable == KeysOf(app.loadedWritable) && c.loadedReadonly == KeysOf(app.loadedReadonly)
    requires |m.instructions| == 1
    requires c.programIndex == m.instructions[0].programIndex && c.accountIndexes == m.instructions[0].accounts
    ensures Describes(c, m, ResolvedOf(CombinedAccounts(ApplyLookup(canonical, table))))
  {
    hide ApplyLookup, ValidTable, CombinedAccounts, LookupsOf, ResolvedOf, AreLoaded;
    LoadedFlags(canonical, table);
    var app := ApplyLookup(canonical, table);
    PartsAt(app);
    var all, n, w := CombinedAccounts(app), |app.staticAccounts|, |app.loadedWritable|;
    PartResolved(all, app.loadedWritable, n, true);
    PartResolved(all, app.loadedReadonly, n + w, false);
  }

  lemma PartsAt(app: Application)
    ensures
      var all, n, w := CombinedAccounts(app), |app.staticAccounts|, |app.loadedWritable|;
      && |all| == n + w + |app.loadedReadonly|
      && all[n..n + w] == app.loadedWritable && all[n + w..n + w + |app.loadedReadonly|] == app.loadedReadonly
  {
  }

  lemma PartResolved(all: seq<UniqueAccount>, part: seq<UniqueAccount>, at: nat, isWritable: bool)
    requires at + |part| <= |all| && all[at..at + |part|] == part
    requires forall i :: 0 <= i < |part| ==> part[i].isWritable == isWritable
    ensures AreLoaded(ResolvedOf(all)[at..at + |part|], KeysOf(part), isWritable)
  {
    assert ResolvedOf(all)[at..at + |part|] == ResolvedOf(part);
  }

  lemma LoadedFlags(canonical: seq<UniqueAccount>, table: Option<LookupTable>)
    requires table.Some? ==> ValidTable(table.value)
    ensures
      var app := ApplyLookup(canonical, table);
      && (forall i :: 0 <= i < |app.loadedWritable| ==> app.loadedWritable[i].isWritable)
      && (forall i :: 0 <= i < |app.loadedReadonly| ==> !app.loadedReadonly[i].isWritable)
  {
    hide ApplyLookup, ValidTable;
    SelectionsMean(canonical, table);
    var app := ApplyLookup(canonical, table);
    assert forall i :: 0 <= i < |app.loadedWritable| ==> app.loadedWritable[i] in app.loadedWritable;
    assert forall i :: 0 <= i < |app.loadedReadonly| ==> app.loadedReadonly[i] in app.loadedReadonly;
  }

  lemma CombinedParts(app: Application)
    ensures |CombinedAccounts(app)| == |app.staticAccounts| + |app.loadedWritable| + |app.loadedReadonly|
    ensures
      forall i :: 0 <= i < |CombinedAccounts(app)| ==>
        var n, w := |app.staticAccounts|, |app.loadedWritable|;
        CombinedAccounts(app)[i] == if i < n then app.staticAccounts[i]
                                    else if i < n + w then app.loadedWritable[i - n] else app.loadedReadonly[i - n - w]
  {
  }

  /** Which accounts the selections hold. */
  lemma SelectionsMean(canonical: seq<UniqueAccount>, table: Option<LookupTable>)
    requires table.Some? ==> ValidTable(table.value)
    ensures
      var app := ApplyLookup(canonical, table);
      && (forall u :: u in app.staticAccounts ==>
            u.isSigner || u.isInvoked || table.None? || u.pubkey !in table.value.addresses)
      && (forall u :: u in app.loadedWritable + app.loadedReadonly ==>
            !u.isSigner && !u.isInvoked && table.Some? && u.pubkey in table.value.addresses)
      && (forall u :: u in app.loadedWritable ==> u.isWritable)
      && (forall u :: u in app.loadedReadonly ==> !u.isWritable)
  {
    hide Filter, TableIndexes, ValidTable;
    if table.Some? {
      FilterIsSelection(Static(table.value), canonical);
      FilterIsSelection(LoadedAs(table.value, true), canonical);
      FilterIsSelection(LoadedAs(table.value, false), canonical);
    }
  }

  lemma LookupLoadsEverything(plan: ExecutionPlan, table: Option<LookupTable>, app: Application, m: Message)
    requires table.Some? ==> ValidTable(table.value)
    requires app == ApplyLookup(Canonical(UniqueAccounts(OrderedAccounts(plan))), table)
    requires m.staticKeys == KeysOf(app.staticAccounts)
    ensures LoadsEverything(plan, table, m, ResolvedOf(CombinedAccounts(app)))
  {
    hide ApplyLookup, Canonical, UniqueAccounts, OrderedAccounts, Asked, ValidTable, CombinedAccounts;
    var all := CombinedAccounts(app);
    var n, w := |app.staticAccounts|, |app.loadedWritable|;
    CombinedMeaning(plan, table);
    SelectionsMean(Canonical(UniqueAccounts(OrderedAccounts(plan))), table);
    CombinedParts(app);
    forall i | 0 <= i < |all|
      ensures i >= n <==> Carried(plan, table, all[i].pubkey)
      ensures i >= n ==> (all[i].isWritable <==> i < n + w)
    {
      assert i < n ==> all[i] in app.staticAccounts;
      assert n <= i < n + w ==> all[i] in app.loadedWritable;
      if i >= n + w {
        assert all[i] == app.loadedReadonly[i - n - w];
        assert all[i] in app.loadedReadonly;
      }
    }
  }

  /**
   Compilation preserves meaning. For every plan of the right shape and size and every valid table
   there is one message that means the plan; the compiler emits exactly its bytes, behind one empty
   signature, unless they exceed a packet, and the decoder reads the message back from them. The other
   parts of its answer describe the same message.
   */
  lemma CompilePreservesMeaning(plan: ExecutionPlan, amountIn: u64, minAmountOut: u64, blockhash: Pubkey,
                                table: Option<LookupTable>)
    returns (m: Message, keys: seq<Resolved>)
    requires ValidShape(plan) && |OrderedAccounts(plan)| <= MAX_ACCOUNTS && (table.Some? ==> ValidTable(table.value))
    ensures ResolveKeys(m, table) == Some(keys) && Means(plan, amountIn, minAmountOut, blockhash, table, m, keys)
    ensures Decode(Encode(m)) == Some(m)
    ensures
      var r := Compile(plan, amountIn, minAmountOut, blockhash, table);
      var transaction := [1] + Zeros(SIGNATURE_BYTES) + Encode(m);
      && (r.Ok? <==> |transaction| <= SOLANA_MAX_SERIALIZED_TRANSACTION_BYTES)
      && (r.Ok? ==> r.value.messageBytes == Encode(m) && r.value.transactionBytes == transaction && r.value.source == plan.source)
      && (r.Ok? ==> Describes(r.value, m, keys))
      && (r.Err? ==> r.error == AccountFootprintExceeded)
  {
    hide ApplyLookup, Canonical, UniqueAccounts, Filter, AccountIndexes, AccountIndex, Asked, FixedAccountMatches,
         ValidTable, HeaderOf, Encode, Decode,
      Compile, ResolveKeys, SmallMessage, ResolvedOf, CombinedAccounts, KeysOf, DecodeSwap2, Swap2Data;
    var message, app, h, programIndex, indexes := CompiledMessage(plan, amountIn, minAmountOut, blockhash, table);
    m := message;
    keys := ResolvedOf(CombinedAccounts(app));
    ResolutionMeaning(UniqueAccounts(OrderedAccounts(plan)), table, h, blockhash, programIndex, indexes,
                      Swap2Data(amountIn, minAmountOut));
    Swap2DataMeaning(amountIn, minAmountOut);
    AccountsMean(plan, table, app, indexes, programIndex);
    LookupLoadsEverything(plan, table, app, m);
    var r := Compile(plan, amountIn, minAmountOut, blockhash, table);
    if r.Ok? {
      CompiledDescribes(Canonical(UniqueAccounts(OrderedAccounts(plan))), table, r.value, m);
    }
    DecodeEncode(m);
    assert EncodeShortvec(1) == [1];
  }
}
