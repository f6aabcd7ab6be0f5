/** The ordered account list of one swap, and why the arrays of a quote always fit its plan. */
module AccountPlan {
  import opened Wrappers
  import opened Machine
  import opened Sequences
  import opened MeteoraTypes
  import opened MeteoraMath
  import opened DirectionalSearch
  import opened MeteoraAddressing
  import opened MeteoraTraversal
  import opened MeteoraWalk
  import opened HydrationPlan
  import opened MeteoraSnapshot

  datatype Provenance = Derived | HydratedValidated | ExecutionProvided

  datatype Kind =
    | LbPairAccount
    | BinArrayBitmapExtension
    | ReserveX
    | ReserveY
    | UserTokenIn
    | UserTokenOut
    | TokenXMint
    | TokenYMint
    | Oracle
    | HostFeeIn
    | User
    | TokenXProgram
    | TokenYProgram
    | MemoProgram
    | EventAuthority
    | Program
    | BinArrayQuoteRequired(index: int)
    | BinArrayExecutionBuffer(index: int)

  datatype Planned = Planned(kind: Kind, pubkey: Pubkey, isSigner: bool, isWritable: bool, provenance: Provenance)

  datatype Provided = Provided(
    reserveX: Pubkey,
    reserveY: Pubkey,
    userTokenIn: Pubkey,
    userTokenOut: Pubkey,
    oracle: Pubkey,
    user: Pubkey,
    tokenXProgram: Pubkey,
    tokenYProgram: Pubkey)

  /** The program addresses the plan mentions, and the derived ones. */
  datatype Programs = Programs(
    dlmm: Pubkey,
    memo: Pubkey,
    splToken: Pubkey,
    token2022: Pubkey,
    eventAuthority: Pubkey,
    bitmapExtension: Pubkey)

  datatype ExecutionPlan = ExecutionPlan(
    lbPairPubkey: Pubkey,
    swapForY: bool,
    source: Source,
    fixedAccounts: seq<Planned>,
    remainingAccounts: seq<Planned>,
    contention: seq<Pubkey>)

  // ----- The bin arrays of the quote

  /** The planned account at a position: the quote's arrays come first, then the buffers. */
  function PlannedArray(target: Target, required: bool): Planned {
    Planned(if required then BinArrayQuoteRequired(target.index) else BinArrayExecutionBuffer(target.index),
            target.pubkey, false, true, HydratedValidated)
  }

  /** The hydrated accounts of the targets from `position` to `count`, after those in `done`. */
  function HydrateTargets(snapshot: Snapshot, targets: seq<Target>, required: nat, count: nat, position: nat,
                          done: seq<Planned>)
    : (r: Result<seq<Planned>, Failure>)
    requires position <= count <= |targets|
    decreases count - position
  {
    if position == count then Ok(done) else
    var target := targets[position];
    var found :- BinArrayByIndex(snapshot, target.index);
    if found.None? then Err(InsufficientHydration)
    else if target.pubkey != found.value.pubkey then Err(InvalidBinArray)
    else HydrateTargets(snapshot, targets, required, count, position + 1, done + [PlannedArray(target, position < required)])
  }

  /** The accounts of the selected targets, once the selection has passed the checks against the plan. */
  function SelectedAccounts(snapshot: Snapshot, targets: seq<Target>, touched: seq<int>,
                            buffers: seq<int>): (r: Result<seq<Planned>, Failure>)
  {
    var selected := touched + buffers;
    if exists i, j :: 0 <= i < j < |selected| && selected[i] == selected[j] then Err(InvalidLayout)
    else if |selected| > |targets| then Err(InsufficientHydration)
    else if exists i :: 0 <= i < |selected| && targets[i].index != selected[i] then Err(InvalidLayout)
    else HydrateTargets(snapshot, targets, |touched|, |selected|, 0, [])
  }

  /** The indexes of the accounts the quote requires, in list order. */
  function QuoteIndexes(accounts: seq<Planned>): (r: seq<int>)
  {
    if accounts == [] then [] else
    var kind := accounts[|accounts| - 1].kind;
    QuoteIndexes(accounts[..|accounts| - 1]) + if kind.BinArrayQuoteRequired? then [kind.index] else []
  }

  /** The selected accounts, checked at last to require the quote's arrays in the quote's order. */
  function RemainingAccounts(snapshot: Snapshot, targets: seq<Target>, touched: seq<int>,
                             buffers: seq<int>): (r: Result<seq<Planned>, Failure>)
  {
    var accounts :- SelectedAccounts(snapshot, targets, touched, buffers);
    if QuoteIndexes(accounts) != touched then Err(InvalidLayout) else Ok(accounts)
  }

  /** The program's checks and loops. */
  method BuildRemainingAccounts(snapshot: Snapshot, targets: seq<Target>, touched: seq<int>, buffers: seq<int>)
    returns (r: Result<seq<Planned>, Failure>)
    ensures r == RemainingAccounts(snapshot, targets, touched, buffers)
  {
    var selected := touched + buffers;
    var repeated := HasRepeat(touched);
    if repeated {
      ghost var i, j :| 0 <= i < j < |touched| && touched[i] == touched[j];
      assert selected[i] == selected[j];
      return Err(InvalidLayout);
    }
    repeated := HasRepeat(buffers);
    if repeated {
      ghost var i, j :| 0 <= i < j < |buffers| && buffers[i] == buffers[j];
      assert selected[|touched| + i] == selected[|touched| + j];
      return Err(InvalidLayout);
    }
    for k := 0 to |buffers|
      invariant forall i :: 0 <= i < k ==> buffers[i] !in touched
    {
      if buffers[k] in touched {
        ghost var i :| 0 <= i < |touched| && touched[i] == buffers[k];
        assert selected[i] == selected[|touched| + k];
        return Err(InvalidLayout);
      }
    }
    assert forall i, j :: 0 <= i < j < |selected| ==> selected[i] != selected[j];
    if |selected| > |targets| {
      return Err(InsufficientHydration);
    }
    for k := 0 to |touched|
      invariant forall i :: 0 <= i < k ==> targets[i].index == selected[i]
    {
      if targets[k].index != touched[k] {
        assert targets[k].index != selected[k];
        return Err(InvalidLayout);
      }
    }
    for k := 0 to |buffers|
      invariant forall i :: 0 <= i < |touched| + k ==> targets[i].index == selected[i]
    {
      if targets[|touched| + k].index != buffers[k] {
        assert targets[|touched| + k].index != selected[|touched| + k];
        return Err(InvalidLayout);
      }
    }
    var remaining: seq<Planned> := [];
    for position := 0 to |selected|
      invariant HydrateTargets(snapshot, targets, |touched|, |selected|, 0, [])
             == HydrateTargets(snapshot, targets, |touched|, |selected|, position, remaining)
    {
      var target := targets[position];
      var found :- BinArrayByIndex(snapshot, target.index);
      if found.None? {
        return Err(InsufficientHydration);
      }
      if target.pubkey != found.value.pubkey {
        return Err(InvalidBinArray);
      }
      remaining := remaining + [PlannedArray(target, position < |touched|)];
    }
    if QuoteIndexes(remaining) != touched {
      return Err(InvalidLayout);
    }
    return Ok(remaining);
  }

  method HasRepeat(s: seq<int>) returns (repeated: bool)
    ensures repeated <==> exists i, j :: 0 <= i < j < |s| && s[i] == s[j]
  {
    for k := 0 to |s|
      invariant forall i, j :: 0 <= i < j < k ==> s[i] != s[j]
    {
      if s[k] in s[..k] {
        return true;
      }
    }
    return false;
  }

  function PlannedArrays(targets: seq<Target>, required: nat): (r: seq<Planned>)
  {
    seq(|targets|, i requires 0 <= i < |targets| => PlannedArray(targets[i], i < required))
  }

  /** Hydrated at its canonical address. */
  predicate HydratedAt(snapshot: Snapshot, target: Target) {
    ValidArrayIndex(target.index)
    && var found := FindArray(snapshot.binArrays, target.index);
       found.Some? && found.value.pubkey == target.pubkey
  }

  lemma {:induction false} HydrateTargetsIff(snapshot: Snapshot, targets: seq<Target>, required: nat, count: nat,
                                        position: nat, done: seq<Planned>)
    requires position <= count <= |targets| && done == PlannedArrays(targets[..position], required)
    ensures
      var r := HydrateTargets(snapshot, targets, required, count, position, done);
      && (r.Ok? <==> forall k :: position <= k < count ==> HydratedAt(snapshot, targets[k]))
      && (r.Ok? ==> r.value == PlannedArrays(targets[..count], required))
    decreases count - position
  {
    if position < count {
      var more := done + [PlannedArray(targets[position], position < required)];
      if HydratedAt(snapshot, targets[position]) {
        assert more == PlannedArrays(targets[..position + 1], required);
        HydrateTargetsIff(snapshot, targets, required, count, position + 1, more);
      }
    }
  }

  lemma {:induction false} QuoteIndexesOfPlanned(targets: seq<Target>, required: nat)
    ensures
      var indexes := QuoteIndexes(PlannedArrays(targets, required));
      && |indexes| == (if |targets| < required then |targets| else required)
      && forall k :: 0 <= k < |indexes| ==> indexes[k] == targets[k].index
    decreases |targets|
  {
    if targets != [] {
      var init := targets[..|targets| - 1];
      QuoteIndexesOfPlanned(init, required);
      var accounts := PlannedArrays(targets, required);
      assert accounts[..|targets| - 1] == PlannedArrays(init, required);
    }
  }

  /** Whatever the plan: once the earlier checks passed and all targets were hydrated, the order check passes. */
  lemma RequiredOrderHolds(snapshot: Snapshot, targets: seq<Target>, touched: seq<int>, buffers: seq<int>)
    ensures RemainingAccounts(snapshot, targets, touched, buffers)
         == SelectedAccounts(snapshot, targets, touched, buffers)
  {
    hide HydrateTargets;
    if SelectedAccounts(snapshot, targets, touched, buffers).Ok? {
      var selected := touched + buffers;
      HydrateTargetsIff(snapshot, targets, |touched|, |selected|, 0, []);
      QuoteIndexesOfPlanned(targets[..|selected|], |touched|);
      var indexes := QuoteIndexes(PlannedArrays(targets[..|selected|], |touched|));
      assert forall k :: 0 <= k < |indexes| ==> indexes[k] == selected[k];
      assert indexes == touched;
    }
  }

  /**
   For a quote and a plan taken from one snapshot both index lists are runs from the active array,
   so the quote's arrays always stand first in the plan. The account list is built exactly when the
   quote's arrays and the buffers together open the plan and the buffers are hydrated.
   */
  lemma PlanFitsQuote(pda: Derivation, snapshot: Snapshot, requested: u64, swapForY: bool, support: bool, initial: int,
                      indexes: seq<int>, buffers: seq<int>)
    requires ValidSnapshot(snapshot) && AcceptableArrays(pda, snapshot.lbPairPubkey, snapshot.binArrays) && requested > 0
    requires ArrayIndexOfBin(snapshot.lbPair.activeId) == Ok(initial)
    requires Traversal(snapshot, requested, swapForY, support).Ok?
    requires IsRun(BitsOf(snapshot), initial, indexes, swapForY)
    ensures
      var touched := Traversal(snapshot, requested, swapForY, support).value.touchedBinArrays;
      var r := RemainingAccounts(snapshot, TargetsOf(pda, indexes), touched, buffers);
      && (r.Ok? <==> touched + buffers <= indexes && forall b :: b in buffers ==> FindArray(snapshot.binArrays, b).Some?)
      && (r.Ok? ==> r.value == PlannedArrays(TargetsOf(pda, touched + buffers), |touched|))
      // Without buffers only the length can be wrong.
      && (buffers == [] ==> (r.Ok? <==> |touched| <= |indexes|) && (r.Err? ==> r.error == InsufficientHydration))
  {
    hide Traversal, ArrayIndexOfBin, BitmapBit, IsRun, BinsOfRun, TotalCapacity, HydrateTargets, FindArray,
         RemainingAccounts;
    TraversalIsSound(snapshot, requested, swapForY, support, initial);
    var touched := Traversal(snapshot, requested, swapForY, support).value.touchedBinArrays;
    var s := SwapOf(snapshot, swapForY, support).value;
    assert s.swapForY == swapForY && s.Bits() == BitsOf(snapshot);
    RunFits(pda, snapshot, swapForY, initial, touched, indexes, buffers);
    RunLengths(snapshot, swapForY, initial, touched, indexes);
    if buffers == [] {
      assert touched + buffers == touched;
      RunTooLong(pda, snapshot, swapForY, initial, touched, indexes);
    }
  }

  lemma RunLengths(snapshot: Snapshot, swapForY: bool, initial: int, touched: seq<int>, indexes: seq<int>)
    requires IsRun(BitsOf(snapshot), initial, touched, swapForY) && IsRun(BitsOf(snapshot), initial, indexes, swapForY)
    ensures touched <= indexes <==> |touched| <= |indexes|
  {
    if |touched| <= |indexes| {
      RunsAgree(BitsOf(snapshot), initial, touched, indexes, swapForY);
    }
  }

  lemma RunTooLong(pda: Derivation, snapshot: Snapshot, swapForY: bool, initial: int, touched: seq<int>,
                   indexes: seq<int>)
    requires IsRun(BitsOf(snapshot), initial, touched, swapForY)
    ensures |touched| > |indexes| ==> RemainingAccounts(snapshot, TargetsOf(pda, indexes), touched, []) == Err(InsufficientHydration)
  {
    hide BitmapBit, IsRun, HydrateTargets;
    RunAdvances(BitsOf(snapshot), initial, touched, swapForY);
    assert touched + [] == touched;
  }

  lemma RunFits(pda: Derivation, snapshot: Snapshot, swapForY: bool, initial: int, touched: seq<int>,
                indexes: seq<int>, buffers: seq<int>)
    requires AcceptableArrays(pda, snapshot.lbPairPubkey, snapshot.binArrays)
    requires IsRun(BitsOf(snapshot), initial, touched, swapForY) && IsRun(BitsOf(snapshot), initial, indexes, swapForY)
    requires forall k :: 0 <= k < |touched| ==> FindArray(snapshot.binArrays, touched[k]).Some?
    ensures
      var r := RemainingAccounts(snapshot, TargetsOf(pda, indexes), touched, buffers);
      && (r.Ok? <==> touched + buffers <= indexes && forall b :: b in buffers ==> FindArray(snapshot.binArrays, b).Some?)
      && (r.Ok? ==> r.value == PlannedArrays(TargetsOf(pda, touched + buffers), |touched|))
  {
    hide BitmapBit, IsRun, HydrateTargets, FindArray, RemainingAccounts, PlannedArrays, TargetsOf, AcceptableArrays;
    RunAdvances(BitsOf(snapshot), initial, indexes, swapForY);
    ChecksPass(pda, snapshot, indexes, touched, buffers);
    if touched + buffers <= indexes {
      HydratedPrefix(pda, snapshot, indexes, touched, buffers);
    }
  }

  /** Against distinct planned indexes the list checks pass exactly when the selection opens the plan. */
  lemma ChecksPass(pda: Derivation, snapshot: Snapshot, indexes: seq<int>, touched: seq<int>, buffers: seq<int>)
    requires forall j, k :: 0 <= j < k < |indexes| ==> indexes[j] != indexes[k]
    ensures
      var targets, selected := TargetsOf(pda, indexes), touched + buffers;
      && |targets| == |indexes|
      && (selected <= indexes ==>
            RemainingAccounts(snapshot, targets, touched, buffers) == HydrateTargets(snapshot, targets, |touched|, |selected|, 0, []))
      && (!(selected <= indexes) ==> RemainingAccounts(snapshot, targets, touched, buffers).Err?)
  {
    hide HydrateTargets, RemainingAccounts;
    RequiredOrderHolds(snapshot, TargetsOf(pda, indexes), touched, buffers);
  }

  lemma HydratedPrefix(pda: Derivation, snapshot: Snapshot, indexes: seq<int>, touched: seq<int>, buffers: seq<int>)
    requires AcceptableArrays(pda, snapshot.lbPairPubkey, snapshot.binArrays) && touched + buffers <= indexes
    requires forall k :: 0 <= k < |touched| ==> FindArray(snapshot.binArrays, touched[k]).Some?
    requires |TargetsOf(pda, indexes)| == |indexes|
    ensures
      var selected := touched + buffers;
      var r := HydrateTargets(snapshot, TargetsOf(pda, indexes), |touched|, |selected|, 0, []);
      && (r.Ok? <==> forall b :: b in buffers ==> FindArray(snapshot.binArrays, b).Some?)
      && (r.Ok? ==> r.value == PlannedArrays(TargetsOf(pda, selected), |touched|))
  {
    hide HydrateTargets, FindArray, AcceptableArrays, HydratedAt;
    var targets, selected := TargetsOf(pda, indexes), touched + buffers;
    assert forall i :: 0 <= i < |selected| ==> selected[i] == indexes[i];
    assert targets[..|selected|] == TargetsOf(pda, selected);
    HydrateTargetsIff(snapshot, targets, |touched|, |selected|, 0, []);
    forall k | 0 <= k < |selected|
      ensures HydratedAt(snapshot, targets[k]) <==> FindArray(snapshot.binArrays, selected[k]).Some?
    {
      CanonicalArray(pda, snapshot, selected[k]);
    }
    SelectedHydrated(snapshot, touched, buffers);
  }

  lemma SelectedHydrated(snapshot: Snapshot, touched: seq<int>, buffers: seq<int>)
    requires forall k :: 0 <= k < |touched| ==> FindArray(snapshot.binArrays, touched[k]).Some?
    ensures
      var selected := touched + buffers;
      (forall k :: 0 <= k < |selected| ==> FindArray(snapshot.binArrays, selected[k]).Some?)
      <==> forall b :: b in buffers ==> FindArray(snapshot.binArrays, b).Some?
  {
    var selected := touched + buffers;
    if forall k :: 0 <= k < |selected| ==> FindArray(snapshot.binArrays, selected[k]).Some? {
      forall b | b in buffers
        ensures FindArray(snapshot.binArrays, b).Some?
      {
        var k :| 0 <= k < |buffers| && buffers[k] == b;
        assert selected[|touched| + k] == b;
      }
    }
  }

  lemma CanonicalArray(pda: Derivation, snapshot: Snapshot, index: int)
    requires AcceptableArrays(pda, snapshot.lbPairPubkey, snapshot.binArrays)
    ensures HydratedAt(snapshot, Target(index, pda(index))) <==> FindArray(snapshot.binArrays, index).Some?
  {
  }

  // ----- The whole plan

  function FixedAccounts(programs: Programs, snapshot: Snapshot, provided: Provided): (r: seq<Planned>)
    ensures |r| == 16
  {
    var extended := snapshot.extension.Some?;
    [ Planned(LbPairAccount, snapshot.lbPairPubkey, false, true, HydratedValidated),
      Planned(BinArrayBitmapExtension, if extended then programs.bitmapExtension else programs.dlmm, false, true,
              if extended then HydratedValidated else Derived),
      Planned(ReserveX, provided.reserveX, false, true, ExecutionProvided),
      Planned(ReserveY, provided.reserveY, false, true, ExecutionProvided),
      Planned(TokenXMint, snapshot.mintX, false, false, HydratedValidated),
      Planned(TokenYMint, snapshot.mintY, false, false, HydratedValidated),
      Planned(TokenXProgram, provided.tokenXProgram, false, false, ExecutionProvided),
      Planned(TokenYProgram, provided.tokenYProgram, false, false, ExecutionProvided),
      Planned(User, provided.user, true, false, ExecutionProvided),
      Planned(UserTokenIn, provided.userTokenIn, false, true, ExecutionProvided),
      Planned(UserTokenOut, provided.userTokenOut, false, true, ExecutionProvided),
      Planned(Oracle, provided.oracle, false, true, ExecutionProvided),
      Planned(HostFeeIn, programs.dlmm, false, true, Derived),
      Planned(EventAuthority, programs.eventAuthority, false, false, Derived),
      Planned(Program, programs.dlmm, false, false, Derived),
      Planned(MemoProgram, programs.memo, false, false, Derived) ]
  }

  predicate IsSentinel(a: Planned) {
    a.kind in {BinArrayBitmapExtension, HostFeeIn, Program} && a.provenance == Derived
  }

  /** Two accounts may share an address as the two token programs, or as program-address sentinels. */
  predicate IntentionalDuplicate(programs: Programs, left: Planned, right: Planned) {
    || (left.kind == TokenXProgram && right.kind == TokenYProgram)
    || (left.kind == TokenYProgram && right.kind == TokenXProgram)
    || (left.pubkey == programs.dlmm && IsSentinel(left) && IsSentinel(right))
  }

  ghost predicate OnlyIntentionalDuplicates(programs: Programs, accounts: seq<Planned>) {
    forall i, j :: 0 <= i < j < |accounts| && accounts[i].pubkey == accounts[j].pubkey ==>
      IntentionalDuplicate(programs, accounts[i], accounts[j])
  }

  method ValidateDuplicates(programs: Programs, accounts: seq<Planned>) returns (r: Result<(), Failure>)
    ensures r.Ok? <==> OnlyIntentionalDuplicates(programs, accounts)
    ensures r.Err? ==> r.error == InvalidLayout
  {
    for left := 0 to |accounts|
      invariant forall i, j :: 0 <= i < left && i < j < |accounts| && accounts[i].pubkey == accounts[j].pubkey ==>
                  IntentionalDuplicate(programs, accounts[i], accounts[j])
    {
      for right := left + 1 to |accounts|
        invariant forall j :: left < j < right && accounts[left].pubkey == accounts[j].pubkey ==>
                    IntentionalDuplicate(programs, accounts[left], accounts[j])
      {
        if accounts[left].pubkey == accounts[right].pubkey && !IntentionalDuplicate(programs, accounts[left], accounts[right]) {
          return Err(InvalidLayout);
        }
      }
    }
    return Ok(());
  }

  /** The account is locked for writing by the swap; the program's own address stands for an absent account. */
  predicate Contends(programs: Programs, a: Planned) {
    a.isWritable && a.pubkey != programs.dlmm
  }

  ghost predicate ContentionOf(programs: Programs, accounts: seq<Planned>, contention: seq<Pubkey>) {
    && Distinct(contention)
    && forall k :: k in contention <==> exists i :: 0 <= i < |accounts| && Contends(programs, accounts[i]) && accounts[i].pubkey == k
  }

  /** Lists each contended address once, in order of first mention, and nothing else. */
  method ContentionAccounts(programs: Programs, accounts: seq<Planned>) returns (contention: seq<Pubkey>)
    ensures ContentionOf(programs, accounts, contention)
  {
    contention := [];
    for n := 0 to |accounts|
      invariant Distinct(contention)
      invariant forall k :: k in contention <==> exists i :: 0 <= i < n && Contends(programs, accounts[i]) && accounts[i].pubkey == k
    {
      ghost var before := contention;
      if Contends(programs, accounts[n]) && accounts[n].pubkey !in contention {
        contention := contention + [accounts[n].pubkey];
      }
      forall k
        ensures k in contention <==> exists i :: 0 <= i < n + 1 && Contends(programs, accounts[i]) && accounts[i].pubkey == k
      {
        if exists i :: 0 <= i < n && Contends(programs, accounts[i]) && accounts[i].pubkey == k {
          assert k in before;
        }
      }
    }
  }

  function RequireFullFill(quote: TraversalResult): (r: Result<(), Failure>)
  {
    if quote.termination == RequestedInputFullyConsumed && quote.consumedInput == quote.requestedInput && quote.unspentInput == 0
    then Ok(())
    else match quote.termination
      case MissingHydratedBinArray(_) => Err(InsufficientHydration)
      case NeedsBitmapExtension => Err(BitmapExtensionRequired)
      case SearchRangeExceeded => Err(ProtocolSearchRangeExceeded)
      case _ => Err(PartialFillRejected)
  }

  /** For the engine's own quotes a full fill is exactly the termination that says so. */
  lemma FullFillIsTermination(snapshot: Snapshot, requested: u64, swapForY: bool, support: bool)
    requires ValidSnapshot(snapshot) && ArrayIndexOfBin(snapshot.lbPair.activeId).Ok?
    requires Traversal(snapshot, requested, swapForY, support).Ok?
    ensures
      var quote := Traversal(snapshot, requested, swapForY, support).value;
      && (RequireFullFill(quote).Ok? <==> quote.termination == RequestedInputFullyConsumed)
      // Otherwise the error names what was missing.
      && (quote.termination.MissingHydratedBinArray? ==> RequireFullFill(quote) == Err(InsufficientHydration))
      && (quote.termination.NeedsBitmapExtension? ==> RequireFullFill(quote) == Err(BitmapExtensionRequired))
      && (quote.termination.LiquiditySearchExhausted? ==> RequireFullFill(quote) == Err(PartialFillRejected))
  {
    hide WalkArrays, ArrayIndexOfBin, FeeOnInput, UpdateVolatilityReference, IsRun, IsBarrier, IsNext, ClearUntil,
         BinsOfRun, TotalCapacity, BitmapBit;
    var initial := ArrayIndexOfBin(snapshot.lbPair.activeId).value;
    if requested > 0 {
      TraversalIsSound(snapshot, requested, swapForY, support, initial);
    }
  }

  function ValidateProvided(programs: Programs, snapshot: Snapshot, provided: Provided): (r: Result<(), Failure>)
  {
    var tokenPrograms := {programs.splToken, programs.token2022};
    if snapshot.mintX == snapshot.mintY || provided.reserveX == provided.reserveY || provided.userTokenIn == provided.userTokenOut
    then Err(InvalidLayout)
    else if provided.tokenXProgram !in tokenPrograms || provided.tokenYProgram !in tokenPrograms then Err(UnsupportedToken)
    else Ok(())
  }

  method PlanExecution(programs: Programs, snapshot: Snapshot, plan: Plan, quote: TraversalResult, swapForY: bool,
                       provided: Provided, buffers: seq<int>)
    returns (r: Result<ExecutionPlan, Failure>)
    ensures r.Ok? ==>
      && plan.lbPairPubkey == snapshot.lbPairPubkey && plan.swapForY == swapForY && plan.source == snapshot.source
      && r.value.fixedAccounts == FixedAccounts(programs, snapshot, provided)
      && RemainingAccounts(snapshot, plan.targets, quote.touchedBinArrays, buffers) == Ok(r.value.remainingAccounts)
      && OnlyIntentionalDuplicates(programs, r.value.fixedAccounts + r.value.remainingAccounts)
      && ContentionOf(programs, r.value.fixedAccounts + r.value.remainingAccounts, r.value.contention)
    ensures r.Ok? <==>
      && RequireFullFill(quote).Ok?
      && plan.lbPairPubkey == snapshot.lbPairPubkey && plan.swapForY == swapForY && plan.source == snapshot.source
      && ValidateProvided(programs, snapshot, provided).Ok?
      && var remaining := RemainingAccounts(snapshot, plan.targets, quote.touchedBinArrays, buffers);
         remaining.Ok? && OnlyIntentionalDuplicates(programs, FixedAccounts(programs, snapshot, provided) + remaining.value)
  {
    hide RemainingAccounts, FixedAccounts, OnlyIntentionalDuplicates, ContentionOf;
    var filled := RequireFullFill(quote);
    if filled.Err? {
      return Err(filled.error);
    }
    if plan.lbPairPubkey != snapshot.lbPairPubkey {
      return Err(InvalidLbPair);
    }
    if plan.swapForY != swapForY {
      return Err(InvalidLayout);
    }
    if plan.source != snapshot.source {
      return Err(StaleState);
    }
    var valid := ValidateProvided(programs, snapshot, provided);
    if valid.Err? {
      return Err(valid.error);
    }
    var remaining := BuildRemainingAccounts(snapshot, plan.targets, quote.touchedBinArrays, buffers);
    if remaining.Err? {
      return Err(remaining.error);
    }
    var fixedAccounts := FixedAccounts(programs, snapshot, provided);
    var distinct := ValidateDuplicates(programs, fixedAccounts + remaining.value);
    if distinct.Err? {
      return Err(distinct.error);
    }
    var contention := ContentionAccounts(programs, fixedAccounts + remaining.value);
    return Ok(ExecutionPlan(snapshot.lbPairPubkey, swapForY, snapshot.source, fixedAccounts, remaining.value, contention));
  }
}
