/** The fixed selection of up to three initialized bin arrays on each side of the active bin. */
module BinArraySelector {
  import opened Wrappers
  import opened Machine
  import opened Sequences
  import opened MeteoraTypes
  import opened DirectionalSearch
  import opened MeteoraAddressing
  import opened MeteoraTraversal
  import opened MeteoraWalk
  import opened HydrationPlan

  const MAX_BIN_ARRAYS_PER_DIRECTION := 3

  /** The indexes the selector takes from `index` on, at most `n` of them, up to the first unreadable one. */
  function TakeInitialized(read: Reader, index: int, swapForY: bool, n: nat): (r: seq<int>)
    requires ValidArrayIndex(index)
    ensures |r| <= n
    decreases Distance(index, Terminal(swapForY))
  {
    if n == 0 || !Readable(read, index) then []
    else
      var taken := if Initialized(read, index) then [index] else [];
      if index == Terminal(swapForY) then taken
      else taken + TakeInitialized(read, index + Step(swapForY), swapForY, n - |taken|)
  }

  function Addresses(pda: Derivation, indexes: seq<int>): (r: seq<Pubkey>)
    ensures |r| == |indexes| && forall k :: 0 <= k < |r| ==> r[k] == pda(indexes[k])
  {
    seq(|indexes|, i requires 0 <= i < |indexes| => pda(indexes[i]))
  }

  datatype SelectorError = ActiveIndexFailed | SearchFailed | NoInitializedArrays

  /** Outside the internal bitmap, with no extension to look in. */
  predicate BeyondBitmaps(extension: Option<BitmapExtension>, index: int) {
    !(INTERNAL_BITMAP_MIN_INDEX <= index <= INTERNAL_BITMAP_MAX_INDEX) && extension.None?
  }

  /** What the loop collects after `picked`: it stops where no bitmap reaches and fails on any other unreadable bit. */
  function TakeBits(bitmap: InternalBitmap, extension: Option<BitmapExtension>, index: int, swapForY: bool, n: nat,
                    picked: seq<int>): Result<seq<int>, SelectorError>
    requires ValidArrayIndex(index)
    decreases Distance(index, Terminal(swapForY))
  {
    if n == 0 || BeyondBitmaps(extension, index) then Ok(picked)
    else match BitmapBit(bitmap, extension, index)
      case Err(_) => Err(SearchFailed)
      case Ok(initialized) =>
        var more := if initialized then picked + [index] else picked;
        if index == Terminal(swapForY) then Ok(more)
        else TakeBits(bitmap, extension, index + Step(swapForY), swapForY, if initialized then n - 1 else n, more)
  }

  /** No bit of the protocol range fails to be read where a bitmap reaches, so the search never fails. */
  lemma {:induction false} SearchNeverFails(bitmap: InternalBitmap, extension: Option<BitmapExtension>, index: int,
                                            swapForY: bool, n: nat, picked: seq<int>)
    requires ValidArrayIndex(index)
    ensures TakeBits(bitmap, extension, index, swapForY, n, picked)
         == Ok(picked + TakeInitialized(ReaderOf(bitmap, extension), index, swapForY, n))
    decreases Distance(index, Terminal(swapForY))
  {
    hide BitmapBit, TakeInitialized;
    BitmapReadable(bitmap, extension, index);
    var read := ReaderOf(bitmap, extension);
    assert picked + [] == picked;
    if n == 0 {
      TakeNone(read, index, swapForY);
    } else {
      TakeStep(read, index, swapForY, n);
      if !BeyondBitmaps(extension, index) && index != Terminal(swapForY) {
        var taken := if read(index).value then [index] else [];
        SearchNeverFails(bitmap, extension, index + Step(swapForY), swapForY, n - |taken|, picked + taken);
        var rest := TakeInitialized(read, index + Step(swapForY), swapForY, n - |taken|);
        assert picked + taken + rest == picked + (taken + rest);
      }
    }
  }

  function SelectedIndexes(read: Reader, initial: int): seq<int>
    requires ValidArrayIndex(initial)
  {
    TakeInitialized(read, initial, true, MAX_BIN_ARRAYS_PER_DIRECTION)
    + TakeInitialized(read, initial, false, MAX_BIN_ARRAYS_PER_DIRECTION)
  }

  /** One direction of the program's loop: `ordered` grows by the addresses not seen before. */
  method SelectDirection(pda: Derivation, bitmap: InternalBitmap, extension: Option<BitmapExtension>, start: int,
                         swapForY: bool, already: seq<Pubkey>)
    returns (r: Result<seq<Pubkey>, SelectorError>)
    requires ValidArrayIndex(start)
    ensures r == DirectionSelection(pda, bitmap, extension, start, swapForY, already)
  {
    hide AppendNew, Addresses, BitmapBit;
    var ordered := already;
    AppendNothing(already, Addresses(pda, []));
    var index, taken := start, 0;
    ghost var picked: seq<int> := [];
    while taken < MAX_BIN_ARRAYS_PER_DIRECTION
      invariant ValidArrayIndex(index) && 0 <= taken <= MAX_BIN_ARRAYS_PER_DIRECTION
      invariant TakeBits(bitmap, extension, start, swapForY, MAX_BIN_ARRAYS_PER_DIRECTION, [])
             == TakeBits(bitmap, extension, index, swapForY, MAX_BIN_ARRAYS_PER_DIRECTION - taken, picked)
      invariant ordered == AppendNew(already, Addresses(pda, picked))
      decreases Distance(index, Terminal(swapForY))
    {
      var outside := !(INTERNAL_BITMAP_MIN_INDEX <= index <= INTERNAL_BITMAP_MAX_INDEX);
      if outside && extension.None? {
        return Ok(ordered);
      }
      var initialized := BitmapBit(bitmap, extension, index);
      if initialized.Err? {
        return Err(SearchFailed);
      }
      if initialized.value {
        AppendAddress(pda, already, picked, index);
        if pda(index) !in ordered {
          ordered := ordered + [pda(index)];
        }
        picked := picked + [index];
        taken := taken + 1;
      }
      if index == Terminal(swapForY) {
        return Ok(ordered);
      }
      index := index + Step(swapForY);
    }
    return Ok(ordered);
  }

  function DirectionSelection(pda: Derivation, bitmap: InternalBitmap, extension: Option<BitmapExtension>, start: int,
                              swapForY: bool, already: seq<Pubkey>): Result<seq<Pubkey>, SelectorError>
    requires ValidArrayIndex(start)
  {
    var picked :- TakeBits(bitmap, extension, start, swapForY, MAX_BIN_ARRAYS_PER_DIRECTION, []);
    Ok(AppendNew(already, Addresses(pda, picked)))
  }

  lemma AppendAddress(pda: Derivation, already: seq<Pubkey>, picked: seq<int>, index: int)
    ensures
      var u := AppendNew(already, Addresses(pda, picked));
      AppendNew(already, Addresses(pda, picked + [index])) == if pda(index) in u then u else u + [pda(index)]
  {
    hide AppendNew;
    AppendNewSnoc(already, Addresses(pda, picked), pda(index));
    assert Addresses(pda, picked + [index]) == Addresses(pda, picked) + [pda(index)];
  }

  /** The program's selection, both directions. */
  method SelectBinArrays(pda: Derivation, snapshot: Snapshot) returns (r: Result<seq<Pubkey>, SelectorError>)
    ensures r == Selection(pda, snapshot)
  {
    hide DirectionSelection, ArrayIndexOfBin;
    var start := ArrayIndexOfBin(snapshot.lbPair.activeId);
    if start.Err? {
      return Err(ActiveIndexFailed);
    }
    ArrayIndexIsFloor(snapshot.lbPair.activeId, start.value);
    var bitmap, extension := snapshot.lbPair.bitmap, snapshot.extension;
    var down :- SelectDirection(pda, bitmap, extension, start.value, true, []);
    var ordered :- SelectDirection(pda, bitmap, extension, start.value, false, down);
    r := if ordered == [] then Err(NoInitializedArrays) else Ok(ordered);
  }

  function Selection(pda: Derivation, snapshot: Snapshot): (r: Result<seq<Pubkey>, SelectorError>)
  {
    var start := ArrayIndexOfBin(snapshot.lbPair.activeId);
    if start.Err? then Err(ActiveIndexFailed) else
    ArrayIndexIsFloor(snapshot.lbPair.activeId, start.value);
    var bitmap, extension := snapshot.lbPair.bitmap, snapshot.extension;
    var down :- DirectionSelection(pda, bitmap, extension, start.value, true, []);
    var ordered :- DirectionSelection(pda, bitmap, extension, start.value, false, down);
    if ordered == [] then Err(NoInitializedArrays) else Ok(ordered)
  }

  // ----- What is selected

  lemma TakeStep(read: Reader, index: int, swapForY: bool, n: nat)
    requires ValidArrayIndex(index) && n > 0
    ensures
      TakeInitialized(read, index, swapForY, n)
      == if read(index).Err? then []
         else
           var taken := if read(index).value then [index] else [];
           if index == Terminal(swapForY) then taken
           else taken + TakeInitialized(read, index + Step(swapForY), swapForY, n - |taken|)
  {
  }

  lemma TakeNone(read: Reader, index: int, swapForY: bool)
    requires ValidArrayIndex(index)
    ensures TakeInitialized(read, index, swapForY, 0) == []
  {
  }

  /** Nothing is met from `from` if the way is clear up to an unreadable index or past the end. */
  lemma NothingMet(read: Reader, from: int, stop: int, swapForY: bool)
    requires Reaches(from, stop, swapForY) && ClearUntil(read, from, stop, swapForY) && !Readable(read, stop)
    requires ValidArrayIndex(stop) || stop == Terminal(swapForY) + Step(swapForY)
    ensures forall i :: !IsNext(read, from, i, swapForY)
  {
  }

  lemma ClearOneMore(read: Reader, from: int, index: int, swapForY: bool)
    requires ClearUntil(read, from, index, swapForY) && Readable(read, index) && !Initialized(read, index)
    ensures ClearUntil(read, from, index + Step(swapForY), swapForY)
  {
  }

  lemma {:induction false} TakeExtendsRun(read: Reader, start: int, taken: seq<int>, index: int, swapForY: bool, n: nat)
    requires ValidArrayIndex(index)
    requires IsRun(read, start, taken, swapForY)
    requires Reaches(RunEnd(start, taken, swapForY), index, swapForY)
    requires ClearUntil(read, RunEnd(start, taken, swapForY), index, swapForY)
    ensures
      var more := TakeInitialized(read, index, swapForY, n);
      && IsRun(read, start, taken + more, swapForY)
      && (|more| < n ==> forall i :: !IsNext(read, RunEnd(start, taken + more, swapForY), i, swapForY))
    decreases Distance(index, Terminal(swapForY))
  {
    hide IsRun, ClearUntil, TakeInitialized;
    var from, next := RunEnd(start, taken, swapForY), index + Step(swapForY);
    if n == 0 {
      TakeNone(read, index, swapForY);
      assert taken + [] == taken;
    } else {
      TakeStep(read, index, swapForY, n);
      if !Readable(read, index) {
        assert taken + [] == taken;
        NothingMet(read, from, index, swapForY);
      } else if Initialized(read, index) {
        RunSnoc(read, start, taken, index, swapForY);
        var more := taken + [index];
        assert RunEnd(start, more, swapForY) == next;
        NothingBetween(read, next, swapForY);
        if index == Terminal(swapForY) {
          NothingMet(read, next, next, swapForY);
        } else {
          TakeExtendsRun(read, start, more, next, swapForY, n - 1);
          var rest := TakeInitialized(read, next, swapForY, n - 1);
          assert taken + ([index] + rest) == more + rest;
        }
      } else {
        ClearOneMore(read, from, index, swapForY);
        if index == Terminal(swapForY) {
          assert taken + [] == taken;
          NothingMet(read, from, next, swapForY);
        } else {
          TakeExtendsRun(read, start, taken, next, swapForY, n);
          var rest := TakeInitialized(read, next, swapForY, n);
          assert [] + rest == rest;
        }
      }
    }
  }

  lemma NothingBetween(read: Reader, index: int, swapForY: bool)
    ensures ClearUntil(read, index, index, swapForY)
  {
  }

  lemma TakeIsRun(read: Reader, start: int, swapForY: bool, n: nat)
    requires ValidArrayIndex(start)
    ensures
      var picked := TakeInitialized(read, start, swapForY, n);
      && IsRun(read, start, picked, swapForY)
      && (|picked| < n ==> forall i :: !IsNext(read, RunEnd(start, picked, swapForY), i, swapForY))
  {
    hide TakeInitialized, IsNext;
    assert ClearUntil(read, start, start, swapForY);
    TakeExtendsRun(read, start, [], start, swapForY, n);
    var picked := TakeInitialized(read, start, swapForY, n);
    assert [] + picked == picked;
  }

  /** Merging the two directions keeps every address once. */
  lemma MergedAddresses(pda: Derivation, down: seq<int>, up: seq<int>)
    ensures
      var ordered := AppendNew(AppendNew([], Addresses(pda, down)), Addresses(pda, up));
      && (ordered == [] <==> down + up == [])
      && Distinct(ordered) && forall k :: k in ordered <==> IsAddressOf(pda, down + up, k)
  {
    hide AppendNew, IsAddressOf;
    AppendNewKeepsAll([], Addresses(pda, down));
    AppendNewKeepsAll(AppendNew([], Addresses(pda, down)), Addresses(pda, up));
    AddressesOf(pda, down);
    AddressesOf(pda, up);
    var ordered := AppendNew(AppendNew([], Addresses(pda, down)), Addresses(pda, up));
    forall k
      ensures k in ordered <==> IsAddressOf(pda, down + up, k)
    {
      AddressesConcat(pda, down, up, k);
    }
    if down + up == [] {
      AppendNothing([], Addresses(pda, down));
      AppendNothing([], Addresses(pda, up));
    } else {
      HasAddress(pda, down + up);
    }
  }

  /**
   In each direction the selector takes the run of initialized arrays from the active one, three of
   them unless the run ends sooner; the selected addresses are those arrays' addresses, once each.
   */
  lemma SelectionIsFirstThree(pda: Derivation, snapshot: Snapshot, initial: int)
    requires ArrayIndexOfBin(snapshot.lbPair.activeId) == Ok(initial) && ValidArrayIndex(initial)
    ensures
      var r := Selection(pda, snapshot);
      var picked := SelectedIndexes(BitsOf(snapshot), initial);
      && (r.Ok? <==> picked != [])
      && (r.Ok? ==> Distinct(r.value) && forall k :: k in r.value <==> IsAddressOf(pda, picked, k))
    ensures
      forall swapForY ::
        var picked := TakeInitialized(BitsOf(snapshot), initial, swapForY, MAX_BIN_ARRAYS_PER_DIRECTION);
        && IsRun(BitsOf(snapshot), initial, picked, swapForY)
        && (|picked| < MAX_BIN_ARRAYS_PER_DIRECTION ==>
              forall i :: !IsNext(BitsOf(snapshot), RunEnd(initial, picked, swapForY), i, swapForY))
  {
    hide ArrayIndexOfBin, TakeInitialized, AppendNew, IsNext, IsRun, BitmapBit, IsAddressOf, Distinct;
    var read := BitsOf(snapshot);
    var down := TakeInitialized(read, initial, true, MAX_BIN_ARRAYS_PER_DIRECTION);
    var up := TakeInitialized(read, initial, false, MAX_BIN_ARRAYS_PER_DIRECTION);
    SearchNeverFails(snapshot.lbPair.bitmap, snapshot.extension, initial, true, MAX_BIN_ARRAYS_PER_DIRECTION, []);
    SearchNeverFails(snapshot.lbPair.bitmap, snapshot.extension, initial, false, MAX_BIN_ARRAYS_PER_DIRECTION, []);
    assert [] + down == down && [] + up == up;
    MergedAddresses(pda, down, up);
    TakeIsRun(read, initial, true, MAX_BIN_ARRAYS_PER_DIRECTION);
    TakeIsRun(read, initial, false, MAX_BIN_ARRAYS_PER_DIRECTION);
  }

  /** `key` is the address of one of the arrays. */
  ghost predicate IsAddressOf(pda: Derivation, indexes: seq<int>, key: Pubkey) {
    exists n :: 0 <= n < |indexes| && pda(indexes[n]) == key
  }

  lemma AddressesOf(pda: Derivation, indexes: seq<int>)
    ensures forall k :: k in Addresses(pda, indexes) <==> IsAddressOf(pda, indexes, k)
  {
  }

  lemma HasAddress(pda: Derivation, indexes: seq<int>)
    requires indexes != []
    ensures IsAddressOf(pda, indexes, pda(indexes[0]))
  {
  }

  lemma AddressesConcat(pda: Derivation, s: seq<int>, t: seq<int>, key: Pubkey)
    ensures IsAddressOf(pda, s + t, key) <==> IsAddressOf(pda, s, key) || IsAddressOf(pda, t, key)
  {
    var u := s + t;
    if IsAddressOf(pda, s, key) {
      var n :| 0 <= n < |s| && pda(s[n]) == key;
      assert pda(u[n]) == key;
    }
    if IsAddressOf(pda, t, key) {
      var n :| 0 <= n < |t| && pda(t[n]) == key;
      assert pda(u[|s| + n]) == key;
    }
    if IsAddressOf(pda, u, key) {
      var n :| 0 <= n < |u| && pda(u[n]) == key;
      assert if n < |s| then pda(s[n]) == key else pda(t[n - |s|]) == key;
    }
  }

  /** The snapshot hydrates exactly the selected arrays. */
  ghost predicate HydratesSelection(snapshot: Snapshot, initial: int)
    requires ValidArrayIndex(initial)
  {
    forall i :: FindArray(snapshot.binArrays, i).Some? <==> i in SelectedIndexes(BitsOf(snapshot), initial)
  }

  /** On a snapshot hydrated by the selector, a missing array means that three were already touched. */
  lemma SelectionAdequate(snapshot: Snapshot, requested: u64, swapForY: bool, support: bool, initial: int)
    requires ValidSnapshot(snapshot) && requested > 0
    requires ArrayIndexOfBin(snapshot.lbPair.activeId) == Ok(initial) && ValidArrayIndex(initial)
    requires HydratesSelection(snapshot, initial)
    requires Traversal(snapshot, requested, swapForY, support).Ok?
    requires Traversal(snapshot, requested, swapForY, support).value.termination.MissingHydratedBinArray?
    ensures |Traversal(snapshot, requested, swapForY, support).value.touchedBinArrays| == MAX_BIN_ARRAYS_PER_DIRECTION
  {
    hide Traversal, ArrayIndexOfBin, BitmapBit, IsRun, BinsOfRun, TotalCapacity, TakeInitialized, FindArray, IsNext;
    TraversalIsSound(snapshot, requested, swapForY, support, initial);
    var stopped := Traversal(snapshot, requested, swapForY, support).value;
    var s := SwapOf(snapshot, swapForY, support).value;
    var read, missing, touched := s.Bits(), stopped.termination.index, stopped.touchedBinArrays;
    assert s.swapForY == swapForY && read == BitsOf(snapshot);
    RunSnoc(read, initial, touched, missing, swapForY);
    RunAgainstSelection(read, initial, touched, missing, swapForY);
  }

  lemma ShorterRunIsPicked(read: Reader, initial: int, touched: seq<int>, missing: int, picked: seq<int>,
                           swapForY: bool)
    requires IsRun(read, initial, touched + [missing], swapForY) && IsRun(read, initial, picked, swapForY)
    requires |touched| < |picked|
    ensures missing in picked
  {
    hide IsRun;
    var run := touched + [missing];
    RunsAgree(read, initial, run, picked, swapForY);
    assert run[|touched|] == missing;
  }

  lemma RunAgainstSelection(read: Reader, initial: int, touched: seq<int>, missing: int, swapForY: bool)
    requires ValidArrayIndex(initial) && IsRun(read, initial, touched + [missing], swapForY)
    requires forall k :: 0 <= k < |touched| ==> touched[k] in SelectedIndexes(read, initial)
    requires missing !in SelectedIndexes(read, initial)
    ensures |touched| == MAX_BIN_ARRAYS_PER_DIRECTION
  {
    hide TakeInitialized, IsNext, IsRun;
    var run := touched + [missing];
    var picked := TakeInitialized(read, initial, swapForY, MAX_BIN_ARRAYS_PER_DIRECTION);
    var opposite := TakeInitialized(read, initial, !swapForY, MAX_BIN_ARRAYS_PER_DIRECTION);
    TakeIsRun(read, initial, swapForY, MAX_BIN_ARRAYS_PER_DIRECTION);
    TakeIsRun(read, initial, !swapForY, MAX_BIN_ARRAYS_PER_DIRECTION);
    if |touched| < |picked| {
      ShorterRunIsPicked(read, initial, touched, missing, picked, swapForY);
    } else {
      RunsAgree(read, initial, picked, run, swapForY);
      RunPrefix(read, initial, run, |picked| + 1, swapForY);
      var u := run[..|picked| + 1];
      assert u == picked + [run[|picked|]];
      RunSnoc(read, initial, picked, run[|picked|], swapForY);
      assert |picked| == MAX_BIN_ARRAYS_PER_DIRECTION;
      if |touched| > MAX_BIN_ARRAYS_PER_DIRECTION {
        // The fourth touched array is beyond the third, so the other direction cannot have selected it.
        var fourth := run[MAX_BIN_ARRAYS_PER_DIRECTION];
        assert fourth == touched[MAX_BIN_ARRAYS_PER_DIRECTION];
        RunAdvances(read, initial, run, swapForY);
        RunAdvances(read, initial, opposite, !swapForY);
      }
    }
  }
}
