/** Which transactions carry out a route: two proven swap instructions, the first before the second. */
module R13Matching {
  import opened Wrappers
  import opened Machine
  import opened R13Plan

  const RAYDIUM_CPMM := "CPMMoo8L3F4NbTegBCKVNunggL7H1ZpdTHKxQB5qKP1C"
  const PUMPSWAP := "pAMMBay6oceH9fJKBRHGP5D4bD4sWpmSwMn52FMfXEA"
  const ORCA_WHIRLPOOL := "whirLbMiicVdio4qvUfM5KAg6Ct8VwpYzGff3uctyCc"

  const RAYDIUM_SWAP_BASE_INPUT: seq<u8> := [143, 190, 90, 218, 196, 30, 51, 222]
  const RAYDIUM_SWAP_BASE_OUTPUT: seq<u8> := [55, 217, 98, 86, 163, 74, 180, 173]
  const PUMPSWAP_BUY: seq<u8> := [102, 6, 61, 18, 1, 218, 235, 234]
  const PUMPSWAP_SELL: seq<u8> := [51, 230, 133, 164, 1, 127, 131, 173]
  const ORCA_SWAP: seq<u8> := [248, 198, 158, 145, 225, 117, 135, 200]
  const ORCA_SWAP_V2: seq<u8> := [43, 4, 237, 11, 26, 201, 30, 98]
  const ORCA_SWAP_MIN_DATA_LEN := 42

  datatype MatchError = Malformed | UnsupportedVenue | BadDirection | MintChanged | MintsUnproven

  // ---------------------------------------------------------------- evidence

  datatype RawInstruction = Undecodable | Compiled(program: u64, accounts: seq<u64>, data: seq<u8>)
  datatype InnerGroup = InnerGroup(outer: u64, instructions: seq<RawInstruction>)
  datatype BalanceEntry = BadBalance | Balance(account: u64, mint: string)
  datatype Loaded = NoneLoaded | BadLoaded | LoadedAddresses(writable: seq<string>, readonly: seq<string>)
  datatype ErrField = Missing | Null | Failure
  datatype Header = Header(slot: u64, fee: u64)

  /** A decoded `getTransaction` answer; `None` in a field stands for a field of the wrong shape. */
  datatype Meta = Meta(err: ErrField, loaded: Loaded, inner: Option<seq<InnerGroup>>,
                       pre: Option<seq<BalanceEntry>>, post: Option<seq<BalanceEntry>>)
  datatype Evidence = Evidence(meta: Option<Meta>, staticKeys: Option<seq<string>>,
                               instructions: Option<seq<RawInstruction>>, header: Option<Header>)

  // ---------------------------------------------------------------- instructions in order

  datatype Coordinate = Coordinate(outer: nat, inner: Option<nat>)
  datatype Instruction = Instruction(at: Coordinate, program: string, accounts: seq<string>, data: seq<u8>)

  predicate Precedes(left: Coordinate, right: Coordinate) {
    if left.outer != right.outer then left.outer < right.outer
    else match (left.inner, right.inner)
      case (None, Some(_)) => true
      case (Some(l), Some(r)) => l < r
      case _ => false
  }

  function ResolvedKeys(e: Evidence): Result<seq<string>, MatchError>
    requires e.meta.Some?
  {
    if e.staticKeys.None? then Err(Malformed)
    else match e.meta.value.loaded
      case NoneLoaded => Ok(e.staticKeys.value)
      case BadLoaded => Err(Malformed)
      case LoadedAddresses(w, r) => Ok(e.staticKeys.value + w + r)
  }

  /** The keys an index runs over: the static ones, behind them the loaded writable and then the loaded readonly ones. */
  ghost predicate AccountKeys(e: Evidence, keys: seq<string>) {
    && e.meta.Some? && e.staticKeys.Some? && !e.meta.value.loaded.BadLoaded?
    && var loaded := e.meta.value.loaded;
       var writable := if loaded.LoadedAddresses? then loaded.writable else [];
       var readonly := if loaded.LoadedAddresses? then loaded.readonly else [];
       var n, w := |e.staticKeys.value|, |writable|;
       && |keys| == n + w + |readonly|
       && (forall i :: 0 <= i < n ==> keys[i] == e.staticKeys.value[i])
       && (forall i :: n <= i < n + w ==> keys[i] == writable[i - n])
       && (forall i :: n + w <= i < |keys| ==> keys[i] == readonly[i - n - w])
  }

  lemma ResolvedKeysAre(e: Evidence, keys: seq<string>)
    requires e.meta.Some?
    ensures ResolvedKeys(e) == Ok(keys) <==> AccountKeys(e, keys)
  {
    if AccountKeys(e, keys) {
      assert ResolvedKeys(e).value == keys;
    }
  }

  function Named(accounts: seq<u64>, keys: seq<string>): (r: Result<seq<string>, MatchError>)
    ensures r.Ok? ==> |r.value| == |accounts|
    ensures r.Ok? ==> forall i :: 0 <= i < |accounts| ==> accounts[i] < |keys| && r.value[i] == keys[accounts[i]]
    ensures r.Ok? <==> forall i :: 0 <= i < |accounts| ==> accounts[i] < |keys|
  {
    if accounts == [] then Ok([])
    else if accounts[|accounts| - 1] >= |keys| then Err(Malformed)
    else
      var init :- Named(accounts[..|accounts| - 1], keys);
      Ok(init + [keys[accounts[|accounts| - 1]]])
  }

  function ResolveInstruction(raw: RawInstruction, keys: seq<string>, at: Coordinate): Result<Instruction, MatchError> {
    if raw.Undecodable? || raw.program >= |keys| then Err(Malformed)
    else
      var accounts :- Named(raw.accounts, keys);
      Ok(Instruction(at, keys[raw.program], accounts, raw.data))
  }

  /** What an instruction says: its indexes replaced by the keys at them. */
  ghost predicate Reads(raw: RawInstruction, keys: seq<string>, at: Coordinate, ins: Instruction) {
    && raw.Compiled? && raw.program < |keys| && ins.program == keys[raw.program]
    && |ins.accounts| == |raw.accounts|
    && (forall i :: 0 <= i < |raw.accounts| ==> raw.accounts[i] < |keys| && ins.accounts[i] == keys[raw.accounts[i]])
    && ins.data == raw.data && ins.at == at
  }

  lemma ResolvedReads(raw: RawInstruction, keys: seq<string>, at: Coordinate, ins: Instruction)
    ensures ResolveInstruction(raw, keys, at) == Ok(ins) <==> Reads(raw, keys, at, ins)
  {
    if Reads(raw, keys, at, ins) {
      assert Named(raw.accounts, keys).value == ins.accounts;
    }
  }

  /** The inner instructions of each outer one; a repeated group replaces the earlier one. */
  function GroupsOf(groups: seq<InnerGroup>): map<nat, seq<RawInstruction>> {
    if groups == [] then map[]
    else
      var last := groups[|groups| - 1];
      GroupsOf(groups[..|groups| - 1])[last.outer as nat := last.instructions]
  }

  /** The instruction recorded at a coordinate. */
  function RawAt(e: Evidence, c: Coordinate): Option<RawInstruction> {
    if e.meta.None? || e.instructions.None? || e.meta.value.inner.None? || c.outer >= |e.instructions.value| then None
    else
      var groups := GroupsOf(e.meta.value.inner.value);
      match c.inner
      case None => Some(e.instructions.value[c.outer])
      case Some(i) => if c.outer in groups && i < |groups[c.outer]| then Some(groups[c.outer][i]) else None
  }

  /** The instruction stands at the coordinate: among the outer ones, or in the last group for its outer one. */
  ghost predicate Recorded(e: Evidence, c: Coordinate, raw: RawInstruction) {
    && e.meta.Some? && e.instructions.Some? && e.meta.value.inner.Some? && c.outer < |e.instructions.value|
    && match c.inner
       case None => raw == e.instructions.value[c.outer]
       case Some(i) => exists g :: LastGroup(e.meta.value.inner.value, c.outer, g)
                         && i < |e.meta.value.inner.value[g].instructions|
                         && raw == e.meta.value.inner.value[g].instructions[i]
  }

  ghost predicate LastGroup(groups: seq<InnerGroup>, outer: nat, g: int) {
    0 <= g < |groups| && groups[g].outer == outer && forall h :: g < h < |groups| ==> groups[h].outer != outer
  }

  lemma {:induction false} GroupsAreLast(groups: seq<InnerGroup>, outer: nat)
    ensures outer in GroupsOf(groups) <==> exists g :: LastGroup(groups, outer, g)
    ensures forall g :: LastGroup(groups, outer, g) ==> GroupsOf(groups)[outer] == groups[g].instructions
    decreases |groups|
  {
    if groups != [] {
      var n := |groups| - 1;
      GroupsAreLast(groups[..n], outer);
      if groups[n].outer == outer {
        assert LastGroup(groups, outer, n);
      } else {
        forall g | 0 <= g < n ensures LastGroup(groups, outer, g) <==> LastGroup(groups[..n], outer, g) {
          assert forall h :: g < h < n ==> groups[..n][h] == groups[h];
        }
      }
    }
  }

  lemma RawAtIsRecorded(e: Evidence, c: Coordinate, raw: RawInstruction)
    ensures RawAt(e, c) == Some(raw) <==> Recorded(e, c, raw)
  {
    hide GroupsOf, LastGroup;
    if e.meta.Some? && e.meta.value.inner.Some? {
      GroupsAreLast(e.meta.value.inner.value, c.outer);
    }
  }

  /** The list holds exactly the instructions of the coordinates before `limit`, each in execution order. */
  ghost predicate ResolvedUpTo(e: Evidence, keys: seq<string>, list: seq<Instruction>, limit: Coordinate) {
    && (forall k :: 0 <= k < |list| ==>
          && Precedes(list[k].at, limit) && RawAt(e, list[k].at).Some?
          && ResolveInstruction(RawAt(e, list[k].at).value, keys, list[k].at) == Ok(list[k]))
    && (forall j, k :: 0 <= j < k < |list| ==> Precedes(list[j].at, list[k].at))
    && (forall c :: Precedes(c, limit) && RawAt(e, c).Some? ==> exists k :: 0 <= k < |list| && list[k].at == c)
  }

  ghost predicate AllResolve(e: Evidence, keys: seq<string>) {
    forall c :: RawAt(e, c).Some? ==> ResolveInstruction(RawAt(e, c).value, keys, c).Ok?
  }

  lemma PrecedesIsStrictOrder(a: Coordinate, b: Coordinate, c: Coordinate)
    ensures !Precedes(a, a)
    ensures Precedes(a, b) && Precedes(b, c) ==> Precedes(a, c)
    ensures Precedes(a, b) || Precedes(b, a) || a == b
  {
  }

  /** The next coordinate after a resolved list, with the instruction found there. */
  lemma ResolvedGrows(e: Evidence, keys: seq<string>, list: seq<Instruction>, at: Coordinate, next: Coordinate,
                      item: Instruction)
    requires ResolvedUpTo(e, keys, list, at) && Precedes(at, next)
    requires RawAt(e, at).Some? && ResolveInstruction(RawAt(e, at).value, keys, at) == Ok(item) && item.at == at
    requires forall c :: Precedes(c, next) && !Precedes(c, at) && RawAt(e, c).Some? ==> c == at
    ensures ResolvedUpTo(e, keys, list + [item], next)
  {
    hide ResolveInstruction, RawAt;
    var grown := list + [item];
    forall c | Precedes(c, next) && RawAt(e, c).Some? ensures exists k :: 0 <= k < |grown| && grown[k].at == c {
      if Precedes(c, at) {
        var k :| 0 <= k < |list| && list[k].at == c;
        assert grown[k].at == c;
      } else {
        assert grown[|list|].at == c;
      }
    }
    forall k | 0 <= k < |list| ensures Precedes(grown[k].at, next) {
      PrecedesIsStrictOrder(list[k].at, at, next);
    }
  }

  lemma ResolvedSkips(e: Evidence, keys: seq<string>, list: seq<Instruction>, at: Coordinate, next: Coordinate)
    requires ResolvedUpTo(e, keys, list, at) && (Precedes(at, next) || at == next)
    requires forall c :: Precedes(c, next) && !Precedes(c, at) ==> RawAt(e, c).None?
    ensures ResolvedUpTo(e, keys, list, next)
  {
    hide ResolveInstruction, RawAt;
    forall k | 0 <= k < |list| ensures Precedes(list[k].at, next) {
      PrecedesIsStrictOrder(list[k].at, at, next);
    }
  }

  method ResolveInner(e: Evidence, keys: seq<string>, outer: nat, inner: seq<RawInstruction>, already: seq<Instruction>)
    returns (r: Result<seq<Instruction>, MatchError>)
    requires forall i: nat :: RawAt(e, Coordinate(outer, Some(i))) == if i < |inner| then Some(inner[i]) else None
    requires ResolvedUpTo(e, keys, already, Coordinate(outer, Some(0)))
    ensures r.Ok? ==> ResolvedUpTo(e, keys, r.value, Coordinate(outer + 1, None))
    ensures AllResolve(e, keys) ==> r.Ok?
  {
    hide ResolvedUpTo, ResolveInstruction, RawAt;
    var list := already;
    for i := 0 to |inner|
      invariant ResolvedUpTo(e, keys, list, Coordinate(outer, Some(i)))
    {
      var at := Coordinate(outer, Some(i));
      assert RawAt(e, at) == Some(inner[i]);
      var item := ResolveInstruction(inner[i], keys, at);
      if item.Err? {
        return Err(item.error);
      }
      ResolvedAt(inner[i], keys, at);
      ResolvedGrows(e, keys, list, at, Coordinate(outer, Some(i + 1)), item.value);
      list := list + [item.value];
    }
    assert forall c :: Precedes(c, Coordinate(outer + 1, None)) && !Precedes(c, Coordinate(outer, Some(|inner|))) ==>
        c.outer == outer && c == Coordinate(outer, Some(c.inner.value)) && c.inner.value >= |inner|;
    ResolvedSkips(e, keys, list, Coordinate(outer, Some(|inner|)), Coordinate(outer + 1, None));
    return Ok(list);
  }

  lemma ResolvedAt(raw: RawInstruction, keys: seq<string>, at: Coordinate)
    ensures ResolveInstruction(raw, keys, at).Ok? ==> ResolveInstruction(raw, keys, at).value.at == at
  {
  }

  /** Outer instructions, each followed by its inner ones. */
  method ResolveInstructions(e: Evidence, keys: seq<string>) returns (r: Result<seq<Instruction>, MatchError>)
    requires e.meta.Some?
    ensures r.Ok? ==> e.instructions.Some? && ResolvedUpTo(e, keys, r.value, Coordinate(|e.instructions.value|, None))
    ensures e.instructions.Some? && e.meta.value.inner.Some? && AllResolve(e, keys) ==> r.Ok?
  {
    hide ResolvedUpTo, ResolveInstruction, GroupsOf;
    if e.instructions.None? || e.meta.value.inner.None? {
      return Err(Malformed);
    }
    var outer := e.instructions.value;
    var groups := GroupsOf(e.meta.value.inner.value);
    var list: seq<Instruction> := [];
    NothingBeforeFirst(e, keys);
    for o := 0 to |outer|
      invariant ResolvedUpTo(e, keys, list, Coordinate(o, None))
    {
      var at := Coordinate(o, None);
      var item := ResolveInstruction(outer[o], keys, at);
      assert RawAt(e, at) == Some(outer[o]);
      if item.Err? {
        return Err(item.error);
      }
      ResolvedAt(outer[o], keys, at);
      ResolvedGrows(e, keys, list, at, Coordinate(o, Some(0)), item.value);
      var inner := if o in groups then groups[o] else [];
      var grown := ResolveInner(e, keys, o, inner, list + [item.value]);
      if grown.Err? {
        return Err(grown.error);
      }
      list := grown.value;
    }
    return Ok(list);
  }

  lemma NothingBeforeFirst(e: Evidence, keys: seq<string>)
    ensures ResolvedUpTo(e, keys, [], Coordinate(0, None))
  {
  }

  // ---------------------------------------------------------------- legs

  /** `mintsByAccounts` says that the instruction itself names both mints. */
  datatype MatchedLeg =
    MatchedLeg(at: Coordinate, leg: LegEvidence, userInput: string, userOutput: string, mintsByAccounts: bool)

  function VenueProgram(venue: string): Result<string, MatchError> {
    if venue == "raydium_cpmm" then Ok(RAYDIUM_CPMM)
    else if venue == "pumpswap" then Ok(PUMPSWAP)
    else if venue == "orca" then Ok(ORCA_WHIRLPOOL)
    else Err(UnsupportedVenue)
  }

  function OrcaDirection(data: seq<u8>): Result<bool, MatchError> {
    if |data| < ORCA_SWAP_MIN_DATA_LEN || data[40] > 1 || data[41] > 1 then Err(BadDirection)
    else Ok(data[41] == 1)
  }

  function MatchRaydium(leg: LegEvidence, ins: Instruction): Option<MatchedLeg>
    requires |ins.data| >= 8
  {
    if ins.data[..8] != RAYDIUM_SWAP_BASE_INPUT && ins.data[..8] != RAYDIUM_SWAP_BASE_OUTPUT then None
    else if |ins.accounts| < 13 then None
    else if ins.accounts[3] != leg.poolId || ins.accounts[10] != leg.inputMint || ins.accounts[11] != leg.outputMint then None
    else Some(MatchedLeg(ins.at, leg, ins.accounts[4], ins.accounts[5], true))
  }

  function MatchPumpSwap(leg: LegEvidence, ins: Instruction): Option<MatchedLeg>
    requires |ins.data| >= 8
  {
    if |ins.accounts| < 9 || ins.accounts[0] != leg.poolId then None
    else
      var baseMint, quoteMint := ins.accounts[3], ins.accounts[4];
      if ins.data[..8] == PUMPSWAP_BUY then
        if leg.inputMint != quoteMint || leg.outputMint != baseMint then None
        else Some(MatchedLeg(ins.at, leg, ins.accounts[6], ins.accounts[5], true))
      else if ins.data[..8] == PUMPSWAP_SELL then
        if leg.inputMint != baseMint || leg.outputMint != quoteMint then None
        else Some(MatchedLeg(ins.at, leg, ins.accounts[5], ins.accounts[6], true))
      else None
  }

  function MatchOrca(leg: LegEvidence, ins: Instruction): Result<Option<MatchedLeg>, MatchError>
    requires |ins.data| >= 8
  {
    if ins.data[..8] == ORCA_SWAP_V2 then
      if |ins.accounts| < 15 || ins.accounts[4] != leg.poolId then Ok(None)
      else
        var aToB :- OrcaDirection(ins.data);
        var a, b := ins.accounts[5], ins.accounts[6];
        var (input, output) := if aToB then (a, b) else (b, a);
        var (userInput, userOutput) :=
          if aToB then (ins.accounts[7], ins.accounts[9]) else (ins.accounts[9], ins.accounts[7]);
        if input != leg.inputMint || output != leg.outputMint then Ok(None)
        else Ok(Some(MatchedLeg(ins.at, leg, userInput, userOutput, true)))
    else if ins.data[..8] == ORCA_SWAP then
      if |ins.accounts| < 11 || ins.accounts[2] != leg.poolId then Ok(None)
      else
        var aToB :- OrcaDirection(ins.data);
        var (userInput, userOutput) :=
          if aToB then (ins.accounts[3], ins.accounts[5]) else (ins.accounts[5], ins.accounts[3]);
        Ok(Some(MatchedLeg(ins.at, leg, userInput, userOutput, false)))
    else Ok(None)
  }

  function MatchLeg(leg: LegEvidence, ins: Instruction): Result<Option<MatchedLeg>, MatchError> {
    var program :- VenueProgram(leg.venue);
    if ins.program != program || |ins.data| < 8 then Ok(None)
    else if leg.venue == "raydium_cpmm" then Ok(MatchRaydium(leg, ins))
    else if leg.venue == "pumpswap" then Ok(MatchPumpSwap(leg, ins))
    else MatchOrca(leg, ins)
  }

  /** One kind of swap instruction of one venue: where it keeps the pool, the mints and the user's accounts. */
  datatype Layout = Layout(
    venue: string, program: string, discriminator: seq<u8>, minAccounts: nat, pool: nat,
    mints: Option<(nat, nat)>, userInput: nat, userOutput: nat, aToB: Option<bool>)
  {
    predicate InBounds() {
      && pool < minAccounts && userInput < minAccounts && userOutput < minAccounts
      && (mints.Some? ==> mints.value.0 < minAccounts && mints.value.1 < minAccounts)
    }
  }

  /** The supported swap instructions. */
  function Layouts(): (r: seq<Layout>)
    ensures forall i :: 0 <= i < |r| ==> r[i].InBounds()
  {
    [Layout("raydium_cpmm", RAYDIUM_CPMM, RAYDIUM_SWAP_BASE_INPUT, 13, 3, Some((10, 11)), 4, 5, None),
     Layout("raydium_cpmm", RAYDIUM_CPMM, RAYDIUM_SWAP_BASE_OUTPUT, 13, 3, Some((10, 11)), 4, 5, None),
     Layout("pumpswap", PUMPSWAP, PUMPSWAP_BUY, 9, 0, Some((4, 3)), 6, 5, None),
     Layout("pumpswap", PUMPSWAP, PUMPSWAP_SELL, 9, 0, Some((3, 4)), 5, 6, None),
     Layout("orca", ORCA_WHIRLPOOL, ORCA_SWAP_V2, 15, 4, Some((5, 6)), 7, 9, Some(true)),
     Layout("orca", ORCA_WHIRLPOOL, ORCA_SWAP_V2, 15, 4, Some((6, 5)), 9, 7, Some(false)),
     Layout("orca", ORCA_WHIRLPOOL, ORCA_SWAP, 11, 2, None, 3, 5, Some(true)),
     Layout("orca", ORCA_WHIRLPOOL, ORCA_SWAP, 11, 2, None, 5, 3, Some(false))]
  }

  /** The instruction is the layout's swap, through the leg's pool and, where it names them, between its mints. */
  predicate HasLayout(l: Layout, leg: LegEvidence, ins: Instruction)
    requires l.InBounds()
  {
    && leg.venue == l.venue && ins.program == l.program
    && l.discriminator <= ins.data
    && |ins.accounts| >= l.minAccounts
    && ins.accounts[l.pool] == leg.poolId
    && (l.mints.Some? ==>
          ins.accounts[l.mints.value.0] == leg.inputMint && ins.accounts[l.mints.value.1] == leg.outputMint)
    && (l.aToB.Some? ==>
          && |ins.data| >= ORCA_SWAP_MIN_DATA_LEN && ins.data[40] <= 1
          && ins.data[41] == if l.aToB.value then 1 else 0)
  }

  function AsMatched(l: Layout, leg: LegEvidence, ins: Instruction): MatchedLeg
    requires l.InBounds() && HasLayout(l, leg, ins)
  {
    MatchedLeg(ins.at, leg, ins.accounts[l.userInput], ins.accounts[l.userOutput], l.mints.Some?)
  }

  ghost predicate SwapsAs(l: Layout, leg: LegEvidence, ins: Instruction, m: MatchedLeg)
    requires l.InBounds()
  {
    HasLayout(l, leg, ins) && m == AsMatched(l, leg, ins)
  }

  /** The instruction swaps the leg as `m` records it. */
  ghost predicate Swaps(leg: LegEvidence, ins: Instruction, m: MatchedLeg) {
    exists i :: 0 <= i < |Layouts()| && SwapsAs(Layouts()[i], leg, ins, m)
  }

  lemma SwapsByCase(leg: LegEvidence, ins: Instruction, m: MatchedLeg)
    ensures var l := Layouts();
      && (leg.venue == "raydium_cpmm" ==>
            (Swaps(leg, ins, m) <==> SwapsAs(l[0], leg, ins, m) || SwapsAs(l[1], leg, ins, m)))
      && (leg.venue == "pumpswap" ==>
            (Swaps(leg, ins, m) <==> SwapsAs(l[2], leg, ins, m) || SwapsAs(l[3], leg, ins, m)))
      && (leg.venue == "orca" ==>
            (Swaps(leg, ins, m) <==> SwapsAs(l[4], leg, ins, m) || SwapsAs(l[5], leg, ins, m)
                                     || SwapsAs(l[6], leg, ins, m) || SwapsAs(l[7], leg, ins, m)))
      && (Swaps(leg, ins, m) ==> leg.venue in {"raydium_cpmm", "pumpswap", "orca"})
  {
    hide AsMatched;
    var l := Layouts();
    if Swaps(leg, ins, m) {
      var i :| 0 <= i < |l| && SwapsAs(l[i], leg, ins, m);
      assert i == 0 || i == 1 || i == 2 || i == 3 || i == 4 || i == 5 || i == 6 || i == 7;
      assert leg.venue == l[i].venue;
    }
  }

  lemma Leading(data: seq<u8>, d: seq<u8>)
    requires |d| == 8
    ensures d <= data <==> |data| >= 8 && data[..8] == d
  {
  }

  lemma RaydiumByLayout(leg: LegEvidence, ins: Instruction, m: MatchedLeg)
    requires leg.venue == "raydium_cpmm"
    ensures MatchLeg(leg, ins) == Ok(Some(m)) <==> SwapsAs(Layouts()[0], leg, ins, m) || SwapsAs(Layouts()[1], leg, ins, m)
  {
    Leading(ins.data, RAYDIUM_SWAP_BASE_INPUT);
    Leading(ins.data, RAYDIUM_SWAP_BASE_OUTPUT);
  }

  lemma PumpSwapByLayout(leg: LegEvidence, ins: Instruction, m: MatchedLeg)
    requires leg.venue == "pumpswap"
    ensures MatchLeg(leg, ins) == Ok(Some(m)) <==> SwapsAs(Layouts()[2], leg, ins, m) || SwapsAs(Layouts()[3], leg, ins, m)
  {
    Leading(ins.data, PUMPSWAP_BUY);
    Leading(ins.data, PUMPSWAP_SELL);
    assert PUMPSWAP_BUY[0] != PUMPSWAP_SELL[0];
  }

  lemma OrcaByLayout(leg: LegEvidence, ins: Instruction, m: MatchedLeg)
    requires leg.venue == "orca"
    ensures var l := Layouts(); MatchLeg(leg, ins) == Ok(Some(m)) <==>
      || SwapsAs(l[4], leg, ins, m) || SwapsAs(l[5], leg, ins, m)
      || SwapsAs(l[6], leg, ins, m) || SwapsAs(l[7], leg, ins, m)
  {
    Leading(ins.data, ORCA_SWAP);
    Leading(ins.data, ORCA_SWAP_V2);
    assert ORCA_SWAP[0] != ORCA_SWAP_V2[0];
  }

  /** Matching finds a leg in an instruction exactly when one of the supported layouts does. */
  lemma MatchLegByLayout(leg: LegEvidence, ins: Instruction, m: MatchedLeg)
    ensures MatchLeg(leg, ins) == Ok(Some(m)) <==> Swaps(leg, ins, m)
  {
    hide SwapsAs, Swaps, MatchRaydium, MatchPumpSwap, MatchOrca, Layouts;
    SwapsByCase(leg, ins, m);
    if leg.venue == "raydium_cpmm" {
      RaydiumByLayout(leg, ins, m);
    } else if leg.venue == "pumpswap" {
      PumpSwapByLayout(leg, ins, m);
    } else if leg.venue == "orca" {
      OrcaByLayout(leg, ins, m);
    }
  }

  /** The leg's venue is unknown, or the instruction swaps in its Orca pool without a legible direction. */
  ghost predicate Confuses(leg: LegEvidence, ins: Instruction) {
    || leg.venue !in {"raydium_cpmm", "pumpswap", "orca"}
    || (&& leg.venue == "orca" && ins.program == ORCA_WHIRLPOOL
        && (|| (ORCA_SWAP_V2 <= ins.data && |ins.accounts| >= 15 && ins.accounts[4] == leg.poolId)
            || (ORCA_SWAP <= ins.data && |ins.accounts| >= 11 && ins.accounts[2] == leg.poolId))
        && (|ins.data| < 42 || ins.data[40] > 1 || ins.data[41] > 1))
  }

  lemma MatchLegFails(leg: LegEvidence, ins: Instruction)
    ensures MatchLeg(leg, ins).Err? <==> Confuses(leg, ins)
  {
    Leading(ins.data, ORCA_SWAP);
    Leading(ins.data, ORCA_SWAP_V2);
    assert ORCA_SWAP[0] != ORCA_SWAP_V2[0];
  }

  // ---------------------------------------------------------------- mint evidence

  /** The mint each account holds according to one balance list; a later entry replaces an earlier one. */
  function MintsOf(entries: seq<BalanceEntry>, keys: seq<string>): Result<map<string, string>, MatchError> {
    if entries == [] then Ok(map[])
    else
      var init :- MintsOf(entries[..|entries| - 1], keys);
      var last := entries[|entries| - 1];
      if last.BadBalance? || last.account >= |keys| then Err(Malformed)
      else Ok(init[keys[last.account] := last.mint])
  }

  function Balances(entries: Option<seq<BalanceEntry>>, keys: seq<string>): Result<map<string, string>, MatchError> {
    if entries.None? then Err(Malformed) else MintsOf(entries.value, keys)
  }

  function MintEvidence(account: string, pre: map<string, string>, post: map<string, string>)
    : Result<Option<string>, MatchError>
  {
    if account in pre && account in post && pre[account] != post[account] then Err(MintChanged)
    else if account in pre then Ok(Some(pre[account]))
    else if account in post then Ok(Some(post[account]))
    else Ok(None)
  }

  /** Whether the leg's accounts hold its mints: yes, no, or not to be told from the evidence. */
  function MintsProven(m: MatchedLeg, meta: Meta, keys: seq<string>): Result<Option<bool>, MatchError> {
    if m.mintsByAccounts then Ok(Some(true))
    else
      var pre :- Balances(meta.pre, keys);
      var post :- Balances(meta.post, keys);
      var input :- MintEvidence(m.userInput, pre, post);
      var output :- MintEvidence(m.userOutput, pre, post);
      if input.None? || output.None? then Ok(None)
      else Ok(Some(input.value == m.leg.inputMint && output.value == m.leg.outputMint))
  }

  predicate Legible(entries: Option<seq<BalanceEntry>>, keys: seq<string>) {
    entries.Some? && forall k :: 0 <= k < |entries.value| ==> Names(entries.value[k], keys)
  }

  predicate Names(entry: BalanceEntry, keys: seq<string>) {
    entry.Balance? && entry.account < |keys|
  }

  predicate NamesAccount(entry: BalanceEntry, keys: seq<string>, account: string) {
    Names(entry, keys) && keys[entry.account] == account
  }

  ghost predicate Unnamed(entries: seq<BalanceEntry>, keys: seq<string>, account: string) {
    forall k :: 0 <= k < |entries| ==> !NamesAccount(entries[k], keys, account)
  }

  /** The list's last entry for the account records the mint. */
  ghost predicate Records(entries: seq<BalanceEntry>, keys: seq<string>, account: string, mint: string) {
    exists k :: 0 <= k < |entries| && NamesAccount(entries[k], keys, account) && entries[k].mint == mint
      && forall l :: k < l < |entries| ==> !NamesAccount(entries[l], keys, account)
  }

  /** Some balance list names the account, and each that does records the mint for it. */
  ghost predicate HoldsMint(meta: Meta, keys: seq<string>, account: string, mint: string)
    requires meta.pre.Some? && meta.post.Some?
  {
    && (Unnamed(meta.pre.value, keys, account) || Records(meta.pre.value, keys, account, mint))
    && (Unnamed(meta.post.value, keys, account) || Records(meta.post.value, keys, account, mint))
    && !(Unnamed(meta.pre.value, keys, account) && Unnamed(meta.post.value, keys, account))
  }

  ghost predicate BothMints(m: MatchedLeg, meta: Meta, keys: seq<string>, inputMint: string, outputMint: string) {
    && Legible(meta.pre, keys) && Legible(meta.post, keys)
    && HoldsMint(meta, keys, m.userInput, inputMint) && HoldsMint(meta, keys, m.userOutput, outputMint)
  }

  /** The leg's mints are shown: by the instruction itself, or by both user accounts in the balance lists. */
  ghost predicate MintsShown(m: MatchedLeg, meta: Meta, keys: seq<string>) {
    m.mintsByAccounts || BothMints(m, meta, keys, m.leg.inputMint, m.leg.outputMint)
  }

  /** The evidence tells which mints the leg's accounts hold. */
  ghost predicate MintsDecided(m: MatchedLeg, meta: Meta, keys: seq<string>) {
    m.mintsByAccounts || exists inputMint, outputMint :: BothMints(m, meta, keys, inputMint, outputMint)
  }

  lemma {:induction false} MintsOfRecords(entries: seq<BalanceEntry>, keys: seq<string>, account: string)
    ensures MintsOf(entries, keys).Ok? <==> Legible(Some(entries), keys)
    ensures
      var r := MintsOf(entries, keys);
      r.Ok? ==> (account !in r.value <==> Unnamed(entries, keys, account))
                && forall mint :: (account in r.value && r.value[account] == mint) <==> Records(entries, keys, account, mint)
    decreases |entries|
  {
    if entries != [] {
      var n := |entries| - 1;
      var init := entries[..n];
      MintsOfRecords(init, keys, account);
      assert forall k :: 0 <= k < n ==> init[k] == entries[k];
      if Legible(Some(init), keys) && Names(entries[n], keys) {
        forall mint ensures Records(entries, keys, account, mint) <==>
          if NamesAccount(entries[n], keys, account) then mint == entries[n].mint else Records(init, keys, account, mint)
        {
          RecordsSnoc(entries, keys, account, mint);
        }
      }
    }
  }

  lemma RecordsSnoc(entries: seq<BalanceEntry>, keys: seq<string>, account: string, mint: string)
    requires entries != []
    ensures
      var n := |entries| - 1;
      Records(entries, keys, account, mint) <==>
      if NamesAccount(entries[n], keys, account) then mint == entries[n].mint
      else Records(entries[..n], keys, account, mint)
  {
    var n := |entries| - 1;
    var init := entries[..n];
    assert forall k :: 0 <= k < n ==> init[k] == entries[k];
    if NamesAccount(entries[n], keys, account) {
      if mint == entries[n].mint {
        assert Records(entries, keys, account, mint);
      }
    } else if Records(init, keys, account, mint) {
      var k :| 0 <= k < |init| && NamesAccount(init[k], keys, account) && init[k].mint == mint
        && forall l :: k < l < |init| ==> !NamesAccount(init[l], keys, account);
      assert NamesAccount(entries[k], keys, account);
    }
  }

  lemma EvidenceHolds(account: string, meta: Meta, keys: seq<string>, mint: string)
    requires meta.pre.Some? && meta.post.Some?
    requires MintsOf(meta.pre.value, keys).Ok? && MintsOf(meta.post.value, keys).Ok?
    ensures MintEvidence(account, MintsOf(meta.pre.value, keys).value, MintsOf(meta.post.value, keys).value) == Ok(Some(mint))
       <==> HoldsMint(meta, keys, account, mint)
  {
    hide MintsOf, Unnamed, Records;
    MintsOfRecords(meta.pre.value, keys, account);
    MintsOfRecords(meta.post.value, keys, account);
  }

  /** The proof succeeds exactly when the mints are shown, and answers exactly when they are decided. */
  lemma ProofMeans(m: MatchedLeg, meta: Meta, keys: seq<string>)
    ensures MintsProven(m, meta, keys) == Ok(Some(true)) <==> MintsShown(m, meta, keys)
    ensures MintsProven(m, meta, keys).Ok? && MintsProven(m, meta, keys).value.Some? <==> MintsDecided(m, meta, keys)
  {
    hide MintsOf, MintEvidence, HoldsMint, Legible;
    if !m.mintsByAccounts && meta.pre.Some? && meta.post.Some? {
      MintsOfRecords(meta.pre.value, keys, "");
      MintsOfRecords(meta.post.value, keys, "");
      if MintsOf(meta.pre.value, keys).Ok? && MintsOf(meta.post.value, keys).Ok? {
        var pre, post := MintsOf(meta.pre.value, keys).value, MintsOf(meta.post.value, keys).value;
        forall mint
          ensures MintEvidence(m.userInput, pre, post) == Ok(Some(mint)) <==> HoldsMint(meta, keys, m.userInput, mint)
        {
          EvidenceHolds(m.userInput, meta, keys, mint);
        }
        forall mint
          ensures MintEvidence(m.userOutput, pre, post) == Ok(Some(mint)) <==> HoldsMint(meta, keys, m.userOutput, mint)
        {
          EvidenceHolds(m.userOutput, meta, keys, mint);
        }
        if MintsProven(m, meta, keys).Ok? && MintsProven(m, meta, keys).value.Some? {
          var input := MintEvidence(m.userInput, pre, post).value.value;
          var output := MintEvidence(m.userOutput, pre, post).value.value;
          assert HoldsMint(meta, keys, m.userInput, input) && HoldsMint(meta, keys, m.userOutput, output);
          assert BothMints(m, meta, keys, input, output);
        }
      }
    }
    if meta.pre.None? || meta.post.None? {
      NotLegible(meta, keys);
    }
  }

  lemma ProofsMean(meta: Meta, keys: seq<string>)
    ensures forall m :: MintsProven(m, meta, keys) == Ok(Some(true)) <==> MintsShown(m, meta, keys)
    ensures forall m ::
      MintsProven(m, meta, keys).Ok? && MintsProven(m, meta, keys).value.Some? <==> MintsDecided(m, meta, keys)
  {
    hide MintsProven, MintsShown, MintsDecided;
    forall m
      ensures MintsProven(m, meta, keys) == Ok(Some(true)) <==> MintsShown(m, meta, keys)
      ensures MintsProven(m, meta, keys).Ok? && MintsProven(m, meta, keys).value.Some? <==> MintsDecided(m, meta, keys)
    {
      ProofMeans(m, meta, keys);
    }
  }

  lemma NotLegible(meta: Meta, keys: seq<string>)
    ensures meta.pre.None? ==> !Legible(meta.pre, keys)
    ensures meta.post.None? ==> !Legible(meta.post, keys)
  {
  }

  // ---------------------------------------------------------------- what a transaction holds

  /** `m` is a swap of the leg by the instruction recorded at its coordinate. */
  ghost predicate SwapAt(leg: LegEvidence, e: Evidence, keys: seq<string>, m: MatchedLeg) {
    exists raw, ins :: Recorded(e, m.at, raw) && Reads(raw, keys, m.at, ins) && Swaps(leg, ins, m)
  }

  /** The same swap, as the program finds it. */
  lemma SwapAtFound(leg: LegEvidence, e: Evidence, keys: seq<string>, m: MatchedLeg)
    ensures SwapAt(leg, e, keys, m) <==>
      && RawAt(e, m.at).Some?
      && var ins := ResolveInstruction(RawAt(e, m.at).value, keys, m.at);
         ins.Ok? && Swaps(leg, ins.value, m)
  {
    hide RawAt, ResolveInstruction, Recorded, Reads, Swaps;
    forall raw ensures RawAt(e, m.at) == Some(raw) <==> Recorded(e, m.at, raw) {
      RawAtIsRecorded(e, m.at, raw);
    }
    forall raw, ins ensures ResolveInstruction(raw, keys, m.at) == Ok(ins) <==> Reads(raw, keys, m.at, ins) {
      ResolvedReads(raw, keys, m.at, ins);
    }
  }

  ghost predicate ProvenAt(leg: LegEvidence, e: Evidence, keys: seq<string>, m: MatchedLeg)
    requires e.meta.Some?
  {
    SwapAt(leg, e, keys, m) && MintsShown(m, e.meta.value, keys)
  }

  ghost predicate ProvenPair(route: RouteEvidence, e: Evidence, keys: seq<string>, first: MatchedLeg,
                             second: MatchedLeg)
    requires e.meta.Some?
  {
    Precedes(first.at, second.at) && ProvenAt(route.leg1, e, keys, first) && ProvenAt(route.leg2, e, keys, second)
  }

  predicate Successful(e: Evidence) {
    e.meta.Some? && e.meta.value.err.Null?
  }

  /** The transaction succeeded and a proven swap of the first leg comes before one of the second. */
  ghost predicate HoldsRoute(route: RouteEvidence, e: Evidence) {
    Successful(e) && exists keys, first, second :: AccountKeys(e, keys) && ProvenPair(route, e, keys, first, second)
  }

  /** Every swap of the leg is decodable and says which mints it moved. */
  ghost predicate LegDecides(leg: LegEvidence, e: Evidence, keys: seq<string>)
    requires e.meta.Some?
  {
    && (forall c, raw, ins :: Recorded(e, c, raw) && Reads(raw, keys, c, ins) ==> !Confuses(leg, ins))
    && (forall m :: SwapAt(leg, e, keys, m) ==> MintsDecided(m, e.meta.value, keys))
  }

  ghost predicate DecidesRoute(route: RouteEvidence, e: Evidence, keys: seq<string>)
    requires e.meta.Some?
  {
    && AllResolve(e, keys) && LegDecides(route.leg1, e, keys) && LegDecides(route.leg2, e, keys)
    && Legible(e.meta.value.pre, keys) && Legible(e.meta.value.post, keys)
  }

  /** Nothing in the evidence is malformed or undecided. */
  ghost predicate Decidable(route: RouteEvidence, e: Evidence) {
    && e.meta.Some?
    && (Successful(e) ==>
          && e.instructions.Some? && e.meta.value.inner.Some? && e.header.Some?
          && exists keys :: AccountKeys(e, keys) && DecidesRoute(route, e, keys))
  }

  // ---------------------------------------------------------------- matching

  function MatchLegs(leg: LegEvidence, list: seq<Instruction>): Result<seq<MatchedLeg>, MatchError> {
    if list == [] then Ok([])
    else
      var init :- MatchLegs(leg, list[..|list| - 1]);
      var last :- MatchLeg(leg, list[|list| - 1]);
      Ok(if last.Some? then init + [last.value] else init)
  }

  lemma {:induction false} MatchLegsMembers(leg: LegEvidence, list: seq<Instruction>)
    ensures MatchLegs(leg, list).Ok? <==> forall k :: 0 <= k < |list| ==> MatchLeg(leg, list[k]).Ok?
    ensures MatchLegs(leg, list).Ok? ==>
      forall m :: m in MatchLegs(leg, list).value <==> exists k :: 0 <= k < |list| && MatchLeg(leg, list[k]) == Ok(Some(m))
  {
    hide MatchLeg;
    if list != [] {
      var n := |list| - 1;
      MatchLegsMembers(leg, list[..n]);
      assert forall k :: 0 <= k < n ==> list[..n][k] == list[k];
    }
  }

  /** The matched legs of a fully resolved transaction are its swaps of the leg. */
  lemma MatchLegsAreSwaps(leg: LegEvidence, e: Evidence, keys: seq<string>, list: seq<Instruction>)
    requires e.instructions.Some? && ResolvedUpTo(e, keys, list, Coordinate(|e.instructions.value|, None))
    requires MatchLegs(leg, list).Ok?
    ensures forall m :: m in MatchLegs(leg, list).value <==> SwapAt(leg, e, keys, m)
  {
    hide MatchLegs, MatchLeg, Swaps, ResolveInstruction, SwapAt;
    MatchLegsMembers(leg, list);
    forall m ensures m in MatchLegs(leg, list).value <==> SwapAt(leg, e, keys, m) {
      SwapAtFound(leg, e, keys, m);
      if m in MatchLegs(leg, list).value {
        var k :| 0 <= k < |list| && MatchLeg(leg, list[k]) == Ok(Some(m));
        MatchLegByLayout(leg, list[k], m);
        SwapsWhere(leg, list[k], m);
      }
      if SwapAt(leg, e, keys, m) {
        assert Precedes(m.at, Coordinate(|e.instructions.value|, None));
        var k :| 0 <= k < |list| && list[k].at == m.at;
        MatchLegByLayout(leg, list[k], m);
      }
    }
  }

  lemma SwapsWhere(leg: LegEvidence, ins: Instruction, m: MatchedLeg)
    requires Swaps(leg, ins, m)
    ensures m.at == ins.at && m.leg == leg
  {
  }

  type MintProof = MatchedLeg -> Result<Option<bool>, MatchError>

  predicate Yes(proof: MintProof, first: MatchedLeg, second: MatchedLeg) {
    Precedes(first.at, second.at) && proof(first) == Ok(Some(true)) && proof(second) == Ok(Some(true))
  }

  predicate Unknown(proof: MintProof, first: MatchedLeg, second: MatchedLeg) {
    Precedes(first.at, second.at) && (proof(first) == Ok(None) || proof(second) == Ok(None))
  }

  predicate Before(i: nat, j: nat, k: nat, l: nat) {
    i < k || (i == k && j < l)
  }

  /** The first ordered pair of legs with both mints proven, and whether an earlier pair was undecided. */
  method FindOrderedPair(firsts: seq<MatchedLeg>, seconds: seq<MatchedLeg>, proof: MintProof)
    returns (r: Result<(Option<(nat, nat)>, bool), MatchError>)
    ensures r.Ok? && r.value.0.Some? ==>
      var (k, l) := r.value.0.value;
      && k < |firsts| && l < |seconds| && Yes(proof, firsts[k], seconds[l])
      && forall i, j :: 0 <= i < |firsts| && 0 <= j < |seconds| && Before(i, j, k, l) ==> !Yes(proof, firsts[i], seconds[j])
    ensures r.Ok? && r.value.0.None? ==>
      && (forall i, j :: 0 <= i < |firsts| && 0 <= j < |seconds| ==> !Yes(proof, firsts[i], seconds[j]))
      && (r.value.1 <==> exists i, j :: 0 <= i < |firsts| && 0 <= j < |seconds| && Unknown(proof, firsts[i], seconds[j]))
    ensures r.Err? ==> exists i, j ::
      && 0 <= i < |firsts| && 0 <= j < |seconds| && Precedes(firsts[i].at, seconds[j].at)
      && (proof(firsts[i]).Err? || proof(seconds[j]).Err?)
  {
    hide Precedes;
    var unresolved := false;
    for k := 0 to |firsts|
      invariant forall i, j :: 0 <= i < k && 0 <= j < |seconds| ==> !Yes(proof, firsts[i], seconds[j])
      invariant unresolved <==> exists i, j :: 0 <= i < k && 0 <= j < |seconds| && Unknown(proof, firsts[i], seconds[j])
    {
      for l := 0 to |seconds|
        invariant forall j :: 0 <= j < l ==> !Yes(proof, firsts[k], seconds[j])
        invariant unresolved <==>
          || (exists i, j :: 0 <= i < k && 0 <= j < |seconds| && Unknown(proof, firsts[i], seconds[j]))
          || (exists j :: 0 <= j < l && Unknown(proof, firsts[k], seconds[j]))
      {
        var first, second := firsts[k], seconds[l];
        if !Precedes(first.at, second.at) {
          continue;
        }
        var firstProof := proof(first);
        if firstProof.Err? {
          return Err(firstProof.error);
        }
        var secondProof := proof(second);
        if secondProof.Err? {
          return Err(secondProof.error);
        }
        match (firstProof.value, secondProof.value) {
          case (Some(a), Some(b)) =>
            if a && b {
              assert Yes(proof, first, second);
              return Ok((Some((k, l)), unresolved));
            }
          case _ =>
            unresolved := true;
            assert Unknown(proof, first, second);
        }
      }
    }
    return Ok((None, unresolved));
  }

  /** The legs of a match; amounts and outcome are never resolved. */
  datatype TransactionMatch = TransactionMatch(signature: string, first: MatchedLeg, second: MatchedLeg, outcomeResolved: bool)

  method MatchTransaction(route: RouteEvidence, signature: string, e: Evidence)
    returns (r: Result<Option<TransactionMatch>, MatchError>)
    ensures r.Ok? && r.value.None? ==> !HoldsRoute(route, e)
    ensures r.Ok? && r.value.Some? ==>
      && HoldsRoute(route, e)
      && (exists keys :: AccountKeys(e, keys) && ProvenPair(route, e, keys, r.value.value.first, r.value.value.second))
      && r.value.value.signature == signature && !r.value.value.outcomeResolved
    ensures Decidable(route, e) ==> r.Ok?
  {
    hide ResolvedKeys, AccountKeys, ProvenPair, DecidesRoute;
    if e.meta.None? {
      return Err(Malformed);
    }
    if e.meta.value.err != Null {
      return Ok(None);
    }
    var resolved := ResolvedKeys(e);
    KeysDecide(e);
    if resolved.Err? {
      return Err(resolved.error);
    }
    r := MatchOverKeys(route, signature, e, resolved.value);
  }

  /** The keys of the evidence are the resolved ones, if any. */
  lemma KeysDecide(e: Evidence)
    requires e.meta.Some?
    ensures forall keys :: AccountKeys(e, keys) <==> ResolvedKeys(e) == Ok(keys)
    ensures ResolvedKeys(e).Ok? ==> AccountKeys(e, ResolvedKeys(e).value)
  {
    hide ResolvedKeys, AccountKeys;
    forall keys ensures AccountKeys(e, keys) <==> ResolvedKeys(e) == Ok(keys) {
      ResolvedKeysAre(e, keys);
    }
  }

  method MatchOverKeys(route: RouteEvidence, signature: string, e: Evidence, keys: seq<string>)
    returns (r: Result<Option<TransactionMatch>, MatchError>)
    requires Successful(e)
    ensures r.Ok? && r.value.None? ==> forall first, second :: !ProvenPair(route, e, keys, first, second)
    ensures r.Ok? && r.value.Some? ==>
      && ProvenPair(route, e, keys, r.value.value.first, r.value.value.second)
      && r.value.value.signature == signature && !r.value.value.outcomeResolved
    ensures e.instructions.Some? && e.meta.value.inner.Some? && e.header.Some? && DecidesRoute(route, e, keys) ==> r.Ok?
  {
    hide RawAt, ResolveInstruction, MatchLeg, Swaps, MintsProven, MintsShown, MintsDecided, Precedes, ResolvedUpTo,
         MatchLegs, SwapAt, Legible, MintsOf;
    var meta := e.meta.value;
    var resolved := ResolveInstructions(e, keys);
    if resolved.Err? {
      return Err(resolved.error);
    }
    MatchesWhenDecided(route.leg1, e, keys, resolved.value);
    MatchesWhenDecided(route.leg2, e, keys, resolved.value);
    var firsts := MatchLegs(route.leg1, resolved.value);
    if firsts.Err? {
      return Err(firsts.error);
    }
    var seconds := MatchLegs(route.leg2, resolved.value);
    if seconds.Err? {
      return Err(seconds.error);
    }
    MatchLegsAreSwaps(route.leg1, e, keys, resolved.value);
    MatchLegsAreSwaps(route.leg2, e, keys, resolved.value);
    ProofsMean(meta, keys);
    BalancesWhenLegible(meta, keys);
    var proof: MintProof := m => MintsProven(m, meta, keys);
    var found := FindOrderedPair(firsts.value, seconds.value, proof);
    if found.Err? {
      return Err(found.error);
    }
    var (pair, unresolved) := found.value;
    if pair.None? {
      NoPairFound(route, e, keys, firsts.value, seconds.value, proof);
      if unresolved {
        return Err(MintsUnproven);
      }
      return Ok(None);
    }
    var (first, second) := (firsts.value[pair.value.0], seconds.value[pair.value.1]);
    assert ProvenPair(route, e, keys, first, second);
    if e.header.None? {
      return Err(Malformed);
    }
    var pre := Balances(meta.pre, keys);
    if pre.Err? {
      return Err(pre.error);
    }
    var post := Balances(meta.post, keys);
    if post.Err? {
      return Err(post.error);
    }
    return Ok(Some(TransactionMatch(signature, first, second, false)));
  }

  lemma BalancesWhenLegible(meta: Meta, keys: seq<string>)
    ensures Balances(meta.pre, keys).Ok? <==> Legible(meta.pre, keys)
    ensures Balances(meta.post, keys).Ok? <==> Legible(meta.post, keys)
  {
    hide MintsOf;
    if meta.pre.Some? {
      MintsOfRecords(meta.pre.value, keys, "");
    }
    if meta.post.Some? {
      MintsOfRecords(meta.post.value, keys, "");
    }
  }

  lemma MatchesWhenDecided(leg: LegEvidence, e: Evidence, keys: seq<string>, list: seq<Instruction>)
    requires e.meta.Some? && e.instructions.Some? && ResolvedUpTo(e, keys, list, Coordinate(|e.instructions.value|, None))
    ensures LegDecides(leg, e, keys) ==> MatchLegs(leg, list).Ok?
  {
    hide RawAt, ResolveInstruction, MatchLeg, Swaps, MintsProven, MintsDecided, Precedes, MatchLegs, SwapAt, Confuses,
         Recorded, Reads;
    MatchLegsMembers(leg, list);
    forall k | 0 <= k < |list| ensures MatchLeg(leg, list[k]).Ok? <==> !Confuses(leg, list[k]) {
      MatchLegFails(leg, list[k]);
    }
    forall k | 0 <= k < |list|
      ensures exists raw :: Recorded(e, list[k].at, raw) && Reads(raw, keys, list[k].at, list[k])
    {
      var raw := RawAt(e, list[k].at).value;
      RawAtIsRecorded(e, list[k].at, raw);
      ResolvedReads(raw, keys, list[k].at, list[k]);
    }
  }

  lemma NoPairFound(route: RouteEvidence, e: Evidence, keys: seq<string>, firsts: seq<MatchedLeg>,
                    seconds: seq<MatchedLeg>,
                    proof: MintProof)
    requires e.meta.Some? && proof == (m => MintsProven(m, e.meta.value, keys))
    requires forall m :: m in firsts <==> SwapAt(route.leg1, e, keys, m)
    requires forall m :: m in seconds <==> SwapAt(route.leg2, e, keys, m)
    requires forall i, j :: 0 <= i < |firsts| && 0 <= j < |seconds| ==> !Yes(proof, firsts[i], seconds[j])
    ensures forall first, second :: !ProvenPair(route, e, keys, first, second)
  {
    hide SwapAt, MintsProven, MintsShown, Precedes;
    ProofsMean(e.meta.value, keys);
  }
}
