/** Which bin arrays to fetch next, and why the answer agrees with the traversal that asked for them. */
module HydrationPlan {
  import opened Wrappers
  import opened Machine
  import opened MeteoraTypes
  import opened DirectionalSearch
  import opened MeteoraAddressing
  import opened MeteoraTraversal
  import opened MeteoraWalk

  datatype Target = Target(index: int, pubkey: Pubkey)
  datatype Plan = Plan(lbPairPubkey: Pubkey, swapForY: bool, source: Source, targets: seq<Target>)

  /** The address derivation of the pool's bin arrays. */
  type Derivation = int -> Pubkey

  function Indexes(targets: seq<Target>): seq<int> {
    seq(|targets|, i requires 0 <= i < |targets| => targets[i].index)
  }

  function TargetsOf(pda: Derivation, indexes: seq<int>): (r: seq<Target>)
    ensures Indexes(r) == indexes
  {
    seq(|indexes|, i requires 0 <= i < |indexes| => Target(indexes[i], pda(indexes[i])))
  }

  function BitsOf(snapshot: Snapshot): Reader {
    ReaderOf(snapshot.lbPair.bitmap, snapshot.extension)
  }

  predicate Passed(index: int, required: int, swapForY: bool) {
    if swapForY then index < required else index > required
  }

  /** The indexes collected from `search` on, after those already in `taken`. */
  function CollectIndexes(read: Reader, search: int, stopAt: Option<int>, swapForY: bool,
                          taken: seq<int>): (r: Result<seq<int>, Failure>)
    requires ValidArrayIndex(search)
    decreases Distance(search, Terminal(swapForY))
  {
    var next :- NextInitialized(read, search, swapForY);
    match next
    case None => Ok(taken)
    case Some(index) =>
      if stopAt.Some? && Passed(index, stopAt.value, swapForY) then Err(StaleState)
      else if stopAt.None? || index == stopAt.value || index == Terminal(swapForY) then Ok(taken + [index])
      else CollectIndexes(read, index + Step(swapForY), stopAt, swapForY, taken + [index])
  }

  function PlanFromSnapshot(pda: Derivation, snapshot: Snapshot, swapForY: bool,
                            stopAt: Option<int>): (r: Result<Plan, Failure>)
  {
    var initial :- ArrayIndexOfBin(snapshot.lbPair.activeId);
    ArrayIndexIsFloor(snapshot.lbPair.activeId, initial);
    var indexes :- CollectIndexes(BitsOf(snapshot), initial, stopAt, swapForY, []);
    if stopAt.Some? && (indexes == [] || indexes[|indexes| - 1] != stopAt.value) then Err(StaleState)
    else Ok(Plan(snapshot.lbPairPubkey, swapForY, snapshot.source, TargetsOf(pda, indexes)))
  }

  /** The program's loop. */
  method BuildPlan(pda: Derivation, snapshot: Snapshot, swapForY: bool, stopAt: Option<int>)
    returns (r: Result<Plan, Failure>)
    ensures r == PlanFromSnapshot(pda, snapshot, swapForY, stopAt)
  {
    hide NextInitialized, BitmapBit, ArrayIndexOfBin;
    var initial :- ArrayIndexOfBin(snapshot.lbPair.activeId);
    ArrayIndexIsFloor(snapshot.lbPair.activeId, initial);
    var search, targets := initial, [];
    ghost var indexes := [];
    while true
      invariant ValidArrayIndex(search)
      invariant targets == TargetsOf(pda, indexes)
      invariant CollectIndexes(BitsOf(snapshot), initial, stopAt, swapForY, [])
             == CollectIndexes(BitsOf(snapshot), search, stopAt, swapForY, indexes)
      decreases Distance(search, Terminal(swapForY))
    {
      var found := SearchInitialized(BitsOf(snapshot), search, swapForY);
      var next :- found;
      if next.None? {
        assert CollectIndexes(BitsOf(snapshot), initial, stopAt, swapForY, []) == Ok(indexes);
        break;
      }
      var index := next.value;
      if stopAt.Some? && Passed(index, stopAt.value, swapForY) {
        return Err(StaleState);
      }
      targets := targets + [Target(index, pda(index))];
      indexes := indexes + [index];
      assert targets == TargetsOf(pda, indexes);
      if stopAt.None? || index == stopAt.value || index == Terminal(swapForY) {
        assert CollectIndexes(BitsOf(snapshot), initial, stopAt, swapForY, []) == Ok(indexes);
        break;
      }
      search := index + Step(swapForY);
    }
    if stopAt.Some? && (targets == [] || targets[|targets| - 1].index != stopAt.value) {
      return Err(StaleState);
    }
    return Ok(Plan(snapshot.lbPairPubkey, swapForY, snapshot.source, targets));
  }

  /** A refreshed snapshot of the same pool: a later generation at no earlier slot. */
  function RequireNewGeneration(snapshot: Snapshot, prior: Plan): (r: Result<(), Failure>)
  {
    if snapshot.lbPairPubkey != prior.lbPairPubkey then Err(InvalidLbPair)
    else if snapshot.source.generationId <= prior.source.generationId
         || snapshot.source.sourceSlot < prior.source.sourceSlot then Err(StaleState)
    else Ok(())
  }

  function InitialPlan(pda: Derivation, snapshot: Snapshot, swapForY: bool): (r: Result<Plan, Failure>)
  {
    PlanFromSnapshot(pda, snapshot, swapForY, None)
  }

  function ExpandPlan(pda: Derivation, snapshot: Snapshot, prior: Plan, missingIndex: int): (r: Result<Plan, Failure>)
  {
    var _ :- RequireNewGeneration(snapshot, prior);
    var plan :- PlanFromSnapshot(pda, snapshot, prior.swapForY, Some(missingIndex));
    if plan.targets == [] || plan.targets[|plan.targets| - 1].index != missingIndex then Err(StaleState)
    else Ok(plan)
  }

  // ----- Plans are runs

  /** With a target: success means the run that ends at the target, and such a run means success. */
  lemma {:induction false} CollectReaches(read: Reader, initial: int, search: int, target: int, swapForY: bool,
                                        taken: seq<int>)
    requires ValidArrayIndex(search)
    requires IsRun(read, initial, taken, swapForY) && search == RunEnd(initial, taken, swapForY)
    ensures
      var r := CollectIndexes(read, search, Some(target), swapForY, taken);
      r.Ok? ==> IsRun(read, initial, r.value, swapForY) && taken <= r.value
    ensures
      forall s :: IsRun(read, initial, s, swapForY) && |taken| < |s| && s[|s| - 1] == target ==>
        CollectIndexes(read, search, Some(target), swapForY, taken) == Ok(s)
    decreases Distance(search, Terminal(swapForY))
  {
    hide NextInitialized, ClearUntil, IsRun;
    var r := CollectIndexes(read, search, Some(target), swapForY, taken);
    NextInitializedIsNearest(read, search, swapForY);
    match NextInitialized(read, search, swapForY) {
      case Ok(Some(index)) =>
        var more := taken + [index];
        RunSnoc(read, initial, taken, index, swapForY);
        assert RunEnd(initial, more, swapForY) == index + Step(swapForY);
        if index != target && index != Terminal(swapForY) {
          CollectReaches(read, initial, index + Step(swapForY), target, swapForY, more);
        }
      case _ =>
    }
    forall s | IsRun(read, initial, s, swapForY) && |taken| < |s| && s[|s| - 1] == target
      ensures r == Ok(s)
    {
      LongerRunContinues(read, initial, search, taken, s, swapForY);
      var index := s[|taken|];
      var more := taken + [index];
      assert s[..|more|] == more;
      if |s| == |more| {
        assert s == more && index == target;
      } else {
        RunAdvances(read, initial, s, swapForY);
        assert Reaches(s[|taken|], s[|s| - 1], swapForY) && s[|taken|] != s[|s| - 1];
      }
    }
  }

  /** The search from the end of a run finds the next element of any longer run. */
  lemma LongerRunContinues(read: Reader, initial: int, search: int, taken: seq<int>, s: seq<int>, swapForY: bool)
    requires ValidArrayIndex(search) && search == RunEnd(initial, taken, swapForY)
    requires IsRun(read, initial, taken, swapForY) && IsRun(read, initial, s, swapForY) && |taken| < |s|
    ensures taken == s[..|taken|]
    ensures IsNext(read, search, s[|taken|], swapForY)
    ensures NextInitialized(read, search, swapForY) == Ok(Some(s[|taken|]))
  {
    hide NextInitialized, ClearUntil;
    RunsAgree(read, initial, taken, s, swapForY);
    RunPrefix(read, initial, s, |taken| + 1, swapForY);
    var u := s[..|taken| + 1];
    assert u == taken + [s[|taken|]];
    RunSnoc(read, initial, taken, s[|taken|], swapForY);
    NextInitializedIff(read, search, s[|taken|], swapForY);
  }

  /** The same pool, in a later generation and at no earlier slot. */
  predicate Refreshes(snapshot: Snapshot, prior: Plan) {
    && snapshot.lbPairPubkey == prior.lbPairPubkey
    && prior.source.generationId < snapshot.source.generationId && prior.source.sourceSlot <= snapshot.source.sourceSlot
  }

  /** `indexes` are exactly the initialized arrays from the active one up to and including `last`. */
  ghost predicate RunTo(snapshot: Snapshot, swapForY: bool, initial: int, indexes: seq<int>, last: int) {
    && IsRun(BitsOf(snapshot), initial, indexes, swapForY)
    && indexes != [] && indexes[|indexes| - 1] == last
  }

  /**
   Expansion succeeds exactly on a newer generation of the same pool in which the missing index is
   still reached, and then lists exactly the initialized arrays up to it, with their addresses.
   */
  lemma ExpansionIsRun(pda: Derivation, snapshot: Snapshot, prior: Plan, missing: int, initial: int, indexes: seq<int>)
    requires ArrayIndexOfBin(snapshot.lbPair.activeId) == Ok(initial)
    ensures
      ExpandPlan(pda, snapshot, prior, missing)
      == Ok(Plan(snapshot.lbPairPubkey, prior.swapForY, snapshot.source, TargetsOf(pda, indexes)))
      <==> Refreshes(snapshot, prior) && RunTo(snapshot, prior.swapForY, initial, indexes, missing)
  {
    hide ArrayIndexOfBin, CollectIndexes, BitmapBit, ClearUntil, TargetsOf, Indexes;
    ArrayIndexIsFloor(snapshot.lbPair.activeId, initial);
    CollectReaches(BitsOf(snapshot), initial, initial, missing, prior.swapForY, []);
    var r := ExpandPlan(pda, snapshot, prior, missing);
    if r == Ok(Plan(snapshot.lbPairPubkey, prior.swapForY, snapshot.source, TargetsOf(pda, indexes))) {
      var collected := CollectIndexes(BitsOf(snapshot), initial, Some(missing), prior.swapForY, []).value;
      assert Indexes(TargetsOf(pda, collected)) == collected;
      assert Indexes(TargetsOf(pda, indexes)) == indexes;
    }
    if RunTo(snapshot, prior.swapForY, initial, indexes, missing) {
      LastTarget(pda, indexes);
    }
  }

  lemma LastTarget(pda: Derivation, indexes: seq<int>)
    requires indexes != []
    ensures
      var t := TargetsOf(pda, indexes);
      t != [] && t[|t| - 1] == Target(indexes[|indexes| - 1], pda(indexes[|indexes| - 1]))
  {
  }

  /** The initial plan is the first array of the run, or empty if nothing is initialized ahead. */
  lemma InitialPlanIsFirst(pda: Derivation, snapshot: Snapshot, swapForY: bool, initial: int)
    requires ArrayIndexOfBin(snapshot.lbPair.activeId) == Ok(initial)
    requires InitialPlan(pda, snapshot, swapForY).Ok?
    ensures
      var indexes := Indexes(InitialPlan(pda, snapshot, swapForY).value.targets);
      && IsRun(BitsOf(snapshot), initial, indexes, swapForY) && |indexes| <= 1
      && (indexes == [] ==> ClearUntil(BitsOf(snapshot), initial, Terminal(swapForY) + Step(swapForY), swapForY))
  {
    hide ArrayIndexOfBin, NextInitialized, BitmapBit, ClearUntil, TargetsOf, Indexes;
    ArrayIndexIsFloor(snapshot.lbPair.activeId, initial);
    NextInitializedIsNearest(BitsOf(snapshot), initial, swapForY);
    var next := NextInitialized(BitsOf(snapshot), initial, swapForY);
    if next.Ok? && next.value.Some? {
      RunSnoc(BitsOf(snapshot), initial, [], next.value.value, swapForY);
      assert [] + [next.value.value] == [next.value.value];
    }
  }

  // ----- Agreement with the traversal

  /** The two snapshots show the same bitmaps around the same active bin. */
  predicate SameView(a: Snapshot, b: Snapshot) {
    a.lbPair.bitmap == b.lbPair.bitmap && a.extension == b.extension && a.lbPair.activeId == b.lbPair.activeId
  }

  /**
   A traversal that stops at a missing array gets exactly what it asked for: expanding on a newer
   snapshot with the same view lists the arrays it touched and the missing one.
   */
  lemma ExpansionAgreesWithTraversal(pda: Derivation, quoted: Snapshot, refreshed: Snapshot, prior: Plan,
                                     requested: u64, support: bool, initial: int)
    requires ValidSnapshot(quoted) && requested > 0
    requires ArrayIndexOfBin(quoted.lbPair.activeId) == Ok(initial)
    requires Traversal(quoted, requested, prior.swapForY, support).Ok?
    requires Traversal(quoted, requested, prior.swapForY, support).value.termination.MissingHydratedBinArray?
    requires SameView(quoted, refreshed) && Refreshes(refreshed, prior)
    ensures
      var stopped := Traversal(quoted, requested, prior.swapForY, support).value;
      var missing := stopped.termination.index;
      ExpandPlan(pda, refreshed, prior, missing)
      == Ok(Plan(refreshed.lbPairPubkey, prior.swapForY, refreshed.source, TargetsOf(pda, stopped.touchedBinArrays + [missing])))
  {
    hide Traversal, ArrayIndexOfBin, ExpandPlan, BitmapBit, ClearUntil, TargetsOf, IsRun, BinsOfRun, TotalCapacity;
    TraversalIsSound(quoted, requested, prior.swapForY, support, initial);
    var stopped := Traversal(quoted, requested, prior.swapForY, support).value;
    var s := SwapOf(quoted, prior.swapForY, support).value;
    var indexes := stopped.touchedBinArrays + [stopped.termination.index];
    assert s.swapForY == prior.swapForY && s.Bits() == BitsOf(refreshed);
    RunSnoc(s.Bits(), initial, stopped.touchedBinArrays, stopped.termination.index, prior.swapForY);
    ExpansionIsRun(pda, refreshed, prior, stopped.termination.index, initial, indexes);
  }
}
