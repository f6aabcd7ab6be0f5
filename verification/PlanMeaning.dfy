/** What an execution plan says in terms of addresses: which stands where, which may coincide, which are locked. */
module PlanMeaning {
  import opened Wrappers
  import opened Machine
  import opened MeteoraTypes
  import opened AccountPlan
  import opened Sequences
  import HydrationPlan

  /** The address and the origin of each kind of fixed account. */
  predicate Stands(programs: Programs, snapshot: Snapshot, provided: Provided, a: Planned) {
    match a.kind
    case LbPairAccount => a.pubkey == snapshot.lbPairPubkey && a.provenance == HydratedValidated
    case TokenXMint => a.pubkey == snapshot.mintX && a.provenance == HydratedValidated
    case TokenYMint => a.pubkey == snapshot.mintY && a.provenance == HydratedValidated
    case ReserveX => a.pubkey == provided.reserveX && a.provenance == ExecutionProvided
    case ReserveY => a.pubkey == provided.reserveY && a.provenance == ExecutionProvided
    case TokenXProgram => a.pubkey == provided.tokenXProgram && a.provenance == ExecutionProvided
    case TokenYProgram => a.pubkey == provided.tokenYProgram && a.provenance == ExecutionProvided
    case UserTokenIn => a.pubkey == provided.userTokenIn && a.provenance == ExecutionProvided
    case UserTokenOut => a.pubkey == provided.userTokenOut && a.provenance == ExecutionProvided
    case User => a.pubkey == provided.user && a.provenance == ExecutionProvided
    case Oracle => a.pubkey == provided.oracle && a.provenance == ExecutionProvided
    case EventAuthority => a.pubkey == programs.eventAuthority && a.provenance == Derived
    case MemoProgram => a.pubkey == programs.memo && a.provenance == Derived
    case Program => a.pubkey == programs.dlmm && a.provenance == Derived
    case HostFeeIn => a.pubkey == programs.dlmm && a.provenance == Derived
    case BinArrayBitmapExtension =>
      if snapshot.extension.Some? then a.pubkey == programs.bitmapExtension && a.provenance == HydratedValidated
      else a.pubkey == programs.dlmm && a.provenance == Derived
    case _ => false
  }

  /** The order the on-chain program reads its accounts in. */
  const OFFICIAL_ORDER: seq<Kind> := [
    LbPairAccount, BinArrayBitmapExtension, ReserveX, ReserveY, TokenXMint, TokenYMint, TokenXProgram, TokenYProgram,
    User, UserTokenIn, UserTokenOut, Oracle, HostFeeIn, EventAuthority, Program, MemoProgram]

  /** The account at a position has the kind and flags of the position, and the address of its kind. */
  ghost predicate StandsAt(programs: Programs, snapshot: Snapshot, provided: Provided, s: seq<Planned>, i: nat)
    requires |s| == 16 && i < 16
  {
    && s[i].kind == OFFICIAL_ORDER[i] && Stands(programs, snapshot, provided, s[i])
    && s[i].isSigner == (i == 8) && s[i].isWritable == (i < 4 || 9 <= i <= 12)
  }

  lemma FixedAccountStands(programs: Programs, snapshot: Snapshot, provided: Provided, i: nat)
    requires i < 16
    ensures StandsAt(programs, snapshot, provided, FixedAccounts(programs, snapshot, provided), i)
  {
    if i < 4 {
      assert i == 0 || i == 1 || i == 2 || i == 3;
    } else if i < 8 {
      assert i == 4 || i == 5 || i == 6 || i == 7;
    } else if i < 12 {
      assert i == 8 || i == 9 || i == 10 || i == 11;
    } else {
      assert i == 12 || i == 13 || i == 14 || i == 15;
    }
  }

  lemma FixedAccountsStand(programs: Programs, snapshot: Snapshot, provided: Provided)
    ensures
      var s := FixedAccounts(programs, snapshot, provided);
      |s| == |OFFICIAL_ORDER| == 16 && forall i :: 0 <= i < 16 ==> StandsAt(programs, snapshot, provided, s, i)
  {
    hide FixedAccounts, StandsAt;
    forall i | 0 <= i < 16
      ensures StandsAt(programs, snapshot, provided, FixedAccounts(programs, snapshot, provided), i)
    {
      FixedAccountStands(programs, snapshot, provided, i);
    }
  }

  ghost predicate OnlyArrays(remaining: seq<Planned>) {
    forall i :: 0 <= i < |remaining| ==>
      (remaining[i].kind.BinArrayQuoteRequired? || remaining[i].kind.BinArrayExecutionBuffer?) && remaining[i].isWritable
  }

  /** What the plan adds behind its fixed accounts are writable bin arrays. */
  lemma RemainingAreArrays(snapshot: Snapshot, targets: seq<HydrationPlan.Target>, touched: seq<int>, buffers: seq<int>)
    ensures
      var r := RemainingAccounts(snapshot, targets, touched, buffers);
      r.Ok? ==> OnlyArrays(r.value)
  {
    hide HydrateTargets, QuoteIndexes;
    var selected := touched + buffers;
    if SelectedAccounts(snapshot, targets, touched, buffers).Ok? {
      HydrateTargetsIff(snapshot, targets, |touched|, |selected|, 0, []);
    }
  }

  /** The two token programs may be one; an absent extension, the absent host fee account and the program may be one. */
  predicate MayCoincide(i: nat, j: nat, extended: bool) {
    (i == 6 && j == 7) || (i == 12 && j == 14) || (i == 1 && !extended && (j == 12 || j == 14))
  }

  /** A plan's addresses pass the duplicate check exactly when all others differ. */
  lemma DuplicatesByPlace(programs: Programs, snapshot: Snapshot, provided: Provided, remaining: seq<Planned>)
    requires OnlyArrays(remaining)
    ensures
      var all := FixedAccounts(programs, snapshot, provided) + remaining;
      OnlyIntentionalDuplicates(programs, all) <==>
      forall i, j :: 0 <= i < j < |all| && all[i].pubkey == all[j].pubkey ==> MayCoincide(i, j, snapshot.extension.Some?)
  {
    hide FixedAccounts, IntentionalDuplicate, MayCoincide;
    var all := FixedAccounts(programs, snapshot, provided) + remaining;
    forall i, j | 0 <= i < j < |all|
      ensures all[i].pubkey == all[j].pubkey ==>
                (IntentionalDuplicate(programs, all[i], all[j]) <==> MayCoincide(i, j, snapshot.extension.Some?))
    {
      PairByPlace(programs, snapshot, provided, remaining, i, j);
    }
  }

  lemma PairByPlace(programs: Programs, snapshot: Snapshot, provided: Provided, remaining: seq<Planned>, i: nat, j: nat)
    requires OnlyArrays(remaining) && i < j < 16 + |remaining|
    ensures
      var all := FixedAccounts(programs, snapshot, provided) + remaining;
      all[i].pubkey == all[j].pubkey ==>
        (IntentionalDuplicate(programs, all[i], all[j]) <==> MayCoincide(i, j, snapshot.extension.Some?))
  {
    hide FixedAccounts, IsSentinel, OnlyArrays;
    KindAt(programs, snapshot, provided, remaining, i);
    KindAt(programs, snapshot, provided, remaining, j);
  }

  lemma KindAt(programs: Programs, snapshot: Snapshot, provided: Provided, remaining: seq<Planned>, i: nat)
    requires OnlyArrays(remaining) && i < 16 + |remaining|
    ensures
      var a := (FixedAccounts(programs, snapshot, provided) + remaining)[i];
      && (a.kind == TokenXProgram <==> i == 6) && (a.kind == TokenYProgram <==> i == 7)
      && (IsSentinel(a) <==> i == 12 || i == 14 || (i == 1 && snapshot.extension.None?))
      && (IsSentinel(a) ==> a.pubkey == programs.dlmm)
  {
    hide FixedAccounts;
    var s := FixedAccounts(programs, snapshot, provided);
    if i < 16 {
      FixedAccountStands(programs, snapshot, provided, i);
      assert (s + remaining)[i] == s[i];
    }
  }

  /** The accounts a swap locks: the pool's, the user's two token accounts, the oracle and the bin arrays. */
  ghost predicate Locked(programs: Programs, snapshot: Snapshot, provided: Provided, remaining: seq<Planned>, key: Pubkey) {
    && key != programs.dlmm
    && (|| key in {snapshot.lbPairPubkey, provided.reserveX, provided.reserveY, provided.userTokenIn,
                   provided.userTokenOut, provided.oracle}
        || (snapshot.extension.Some? && key == programs.bitmapExtension)
        || exists i :: 0 <= i < |remaining| && remaining[i].pubkey == key)
  }

  lemma ContentionByAddress(programs: Programs, snapshot: Snapshot, provided: Provided, remaining: seq<Planned>,
                            contention: seq<Pubkey>)
    requires OnlyArrays(remaining)
    requires ContentionOf(programs, FixedAccounts(programs, snapshot, provided) + remaining, contention)
    ensures forall key :: key in contention <==> Locked(programs, snapshot, provided, remaining, key)
  {
    hide FixedAccounts;
    var all := FixedAccounts(programs, snapshot, provided) + remaining;
    forall key
      ensures key in contention <==> Locked(programs, snapshot, provided, remaining, key)
    {
      if i :| 0 <= i < |all| && Contends(programs, all[i]) && all[i].pubkey == key {
        if i < 16 {
          FixedAccountStands(programs, snapshot, provided, i);
        } else {
          assert remaining[i - 16].pubkey == key;
        }
      }
      if Locked(programs, snapshot, provided, remaining, key) {
        var i := LockedAt(programs, snapshot, provided, remaining, key);
        assert Contends(programs, all[i]) && all[i].pubkey == key;
      }
    }
  }

  lemma LockedAt(programs: Programs, snapshot: Snapshot, provided: Provided, remaining: seq<Planned>, key: Pubkey)
    returns (i: nat)
    requires OnlyArrays(remaining) && Locked(programs, snapshot, provided, remaining, key)
    ensures
      var all := FixedAccounts(programs, snapshot, provided) + remaining;
      i < |all| && all[i].isWritable && all[i].pubkey == key
  {
    if k :| 0 <= k < |remaining| && remaining[k].pubkey == key {
      i := 16 + k;
    } else {
      i := if key == snapshot.lbPairPubkey then 0 else if key == provided.reserveX then 2
           else if key == provided.reserveY then 3 else if key == provided.userTokenIn then 9
           else if key == provided.userTokenOut then 10 else if key == provided.oracle then 11 else 1;
    }
  }

  /** The mints, the reserves and the user's accounts come in two different each, under the two known token programs. */
  lemma ProvidedAccepted(programs: Programs, snapshot: Snapshot, provided: Provided)
    ensures
      var r := ValidateProvided(programs, snapshot, provided);
      var different := snapshot.mintX != snapshot.mintY && provided.reserveX != provided.reserveY
        && provided.userTokenIn != provided.userTokenOut;
      && (r.Ok? <==>
            && different
            && (provided.tokenXProgram == programs.splToken || provided.tokenXProgram == programs.token2022)
            && (provided.tokenYProgram == programs.splToken || provided.tokenYProgram == programs.token2022))
      && (r.Err? ==> r.error == if different then UnsupportedToken else InvalidLayout)
  {
  }
}
