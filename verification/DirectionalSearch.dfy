/**
 The search for the next initialized bin array, over any bitmap: which indices it finds, when it
 fails, and the runs of consecutive initialized arrays that repeated searches produce.
 */
module DirectionalSearch {
  import opened Wrappers
  import opened MeteoraTypes

  /** A bitmap: one readable bit or a failure per index. */
  type Reader = int -> Result<bool, Failure>

  // ----- Directions

  function Step(swapForY: bool): int {
    if swapForY then -1 else 1
  }

  function Terminal(swapForY: bool): int {
    if swapForY then BIN_ARRAY_MIN_INDEX else BIN_ARRAY_MAX_INDEX
  }

  /** `j` is reached from `i` by zero or more steps in the swap direction. */
  predicate Reaches(i: int, j: int, swapForY: bool) {
    if swapForY then j <= i else i <= j
  }

  /** How many steps lie between `i` and `j`. */
  function Distance(i: int, j: int): nat {
    if i <= j then j - i else i - j
  }

  predicate ValidArrayIndex(index: int) {
    BIN_ARRAY_MIN_INDEX <= index <= BIN_ARRAY_MAX_INDEX
  }

  // ----- One search

  predicate Readable(read: Reader, index: int) {
    ValidArrayIndex(index) && read(index).Ok?
  }

  predicate Initialized(read: Reader, index: int) {
    ValidArrayIndex(index) && read(index) == Ok(true)
  }

  function NextInitialized(read: Reader, start: int, swapForY: bool): (r: Result<Option<int>, Failure>)
    ensures r.Ok? && r.value.Some? ==> ValidArrayIndex(r.value.value) && Reaches(start, r.value.value, swapForY)
    decreases if ValidArrayIndex(start) then 1 + Distance(start, Terminal(swapForY)) else 0
  {
    if !ValidArrayIndex(start) then Err(ProtocolSearchRangeExceeded) else
    var isSet :- read(start);
    if isSet then Ok(Some(start))
    else if start == Terminal(swapForY) then Ok(None)
    else NextInitialized(read, start + Step(swapForY), swapForY)
  }

  /** The indices from `start` up to but not including `stop` are readable and clear. */
  ghost predicate ClearUntil(read: Reader, start: int, stop: int, swapForY: bool) {
    forall k :: Reaches(start, k, swapForY) && Reaches(k, stop, swapForY) && k != stop ==>
      Readable(read, k) && !Initialized(read, k)
  }

  /** `i` is the first initialized index met from `start`. */
  ghost predicate IsNext(read: Reader, start: int, i: int, swapForY: bool) {
    Reaches(start, i, swapForY) && Initialized(read, i) && ClearUntil(read, start, i, swapForY)
  }

  /** `i` is the first unreadable index met from `start`. */
  ghost predicate IsBarrier(read: Reader, start: int, i: int, swapForY: bool) {
    Reaches(start, i, swapForY) && ValidArrayIndex(i) && !Readable(read, i) && ClearUntil(read, start, i, swapForY)
  }

  lemma ClearStep(read: Reader, start: int, stop: int, swapForY: bool)
    requires Readable(read, start) && !Initialized(read, start)
    requires ClearUntil(read, start + Step(swapForY), stop, swapForY)
    ensures ClearUntil(read, start, stop, swapForY)
  {
  }

  /**
   The search finds the nearest set bit. It finds none exactly when every index to the end of the
   range is readable and clear, and it fails exactly at the first index it cannot read.
   */
  lemma {:induction false} NextInitializedIsNearest(read: Reader, start: int, swapForY: bool)
    requires ValidArrayIndex(start)
    ensures
      match NextInitialized(read, start, swapForY)
      case Ok(Some(i)) => IsNext(read, start, i, swapForY)
      case Ok(None) => ClearUntil(read, start, Terminal(swapForY) + Step(swapForY), swapForY)
      case Err(e) => exists i :: IsBarrier(read, start, i, swapForY) && read(i) == Err(e)
    decreases Distance(start, Terminal(swapForY))
  {
    if !Readable(read, start) {
      assert IsBarrier(read, start, start, swapForY);
    } else if !Initialized(read, start) && start != Terminal(swapForY) {
      var next := start + Step(swapForY);
      NextInitializedIsNearest(read, next, swapForY);
      match NextInitialized(read, next, swapForY) {
        case Ok(Some(i)) =>
          ClearStep(read, start, i, swapForY);
        case Ok(None) =>
          ClearStep(read, start, Terminal(swapForY) + Step(swapForY), swapForY);
        case Err(e) =>
          var i :| IsBarrier(read, next, i, swapForY) && read(i) == Err(e);
          ClearStep(read, start, i, swapForY);
          assert IsBarrier(read, start, i, swapForY);
      }
    }
  }

  /** The nearest set bit is what the search returns, whichever way it was found. */
  lemma NextInitializedIff(read: Reader, start: int, i: int, swapForY: bool)
    requires ValidArrayIndex(start)
    ensures NextInitialized(read, start, swapForY) == Ok(Some(i)) <==> IsNext(read, start, i, swapForY)
  {
    NextInitializedIsNearest(read, start, swapForY);
    if IsNext(read, start, i, swapForY) {
      assert Reaches(i, Terminal(swapForY) + Step(swapForY), swapForY);
      match NextInitialized(read, start, swapForY) {
        case Ok(Some(j)) =>
          assert Reaches(i, j, swapForY) || Reaches(j, i, swapForY);
        case Ok(None) =>
        case Err(e) =>
      }
    }
  }

  /** The program's loop. */
  method SearchInitialized(read: Reader, start: int, swapForY: bool) returns (r: Result<Option<int>, Failure>)
    ensures r == NextInitialized(read, start, swapForY)
  {
    if !ValidArrayIndex(start) {
      return Err(ProtocolSearchRangeExceeded);
    }
    var terminal := Terminal(swapForY);
    var index := start;
    while true
      invariant ValidArrayIndex(index)
      invariant NextInitialized(read, index, swapForY) == NextInitialized(read, start, swapForY)
      decreases Distance(index, terminal)
    {
      var isSet :- read(index);
      if isSet {
        return Ok(Some(index));
      }
      if index == terminal {
        return Ok(None);
      }
      index := index + Step(swapForY);
    }
  }

  // ----- Runs of consecutive initialized arrays

  /** Where the search resumes after the run `s` that began at `start`. */
  function RunEnd(start: int, s: seq<int>, swapForY: bool): int {
    if s == [] then start else s[|s| - 1] + Step(swapForY)
  }

  /** `s` lists, in swap direction, consecutive initialized arrays, the first one met from `start` first. */
  ghost predicate IsRun(read: Reader, start: int, s: seq<int>, swapForY: bool) {
    if s == [] then true
    else
      var n := |s| - 1;
      IsRun(read, start, s[..n], swapForY) && IsNext(read, RunEnd(start, s[..n], swapForY), s[n], swapForY)
  }

  lemma RunSnoc(read: Reader, start: int, s: seq<int>, i: int, swapForY: bool)
    ensures IsRun(read, start, s + [i], swapForY)
       <==> IsRun(read, start, s, swapForY) && IsNext(read, RunEnd(start, s, swapForY), i, swapForY)
  {
  }

  lemma {:induction false} RunPrefix(read: Reader, start: int, s: seq<int>, n: nat, swapForY: bool)
    requires n <= |s| && IsRun(read, start, s, swapForY)
    ensures IsRun(read, start, s[..n], swapForY)
    decreases |s|
  {
    if n == |s| {
      assert s[..n] == s;
    } else {
      RunPrefix(read, start, s[..|s| - 1], n, swapForY);
      assert s[..|s| - 1][..n] == s[..n];
    }
  }

  lemma NextUnique(read: Reader, start: int, i: int, j: int, swapForY: bool)
    requires IsNext(read, start, i, swapForY) && IsNext(read, start, j, swapForY)
    ensures i == j
  {
  }

  /** Two runs from one place agree as far as the shorter goes. */
  lemma {:induction false} RunsAgree(read: Reader, start: int, s: seq<int>, t: seq<int>, swapForY: bool)
    requires |s| <= |t|
    requires IsRun(read, start, s, swapForY) && IsRun(read, start, t, swapForY)
    ensures s == t[..|s|]
    decreases |s|
  {
    if s != [] {
      var n := |s| - 1;
      RunPrefix(read, start, t, n + 1, swapForY);
      var u := t[..n + 1];
      assert u[..n] == t[..n];
      RunsAgree(read, start, s[..n], t[..n], swapForY);
      assert IsNext(read, RunEnd(start, s[..n], swapForY), s[n], swapForY);
      assert IsNext(read, RunEnd(start, u[..n], swapForY), u[n], swapForY);
      NextUnique(read, RunEnd(start, s[..n], swapForY), s[n], u[n], swapForY);
      assert s == s[..n] + [s[n]] && u == u[..n] + [u[n]];
    }
  }

  /** A run moves strictly in the swap direction from its start, so it never repeats an index. */
  lemma {:induction false} RunAdvances(read: Reader, start: int, s: seq<int>, swapForY: bool)
    requires IsRun(read, start, s, swapForY)
    ensures forall k :: 0 <= k < |s| ==> Reaches(start, s[k], swapForY) && Initialized(read, s[k])
    ensures forall j, k :: 0 <= j < k < |s| ==> Reaches(s[j], s[k], swapForY) && s[j] != s[k]
    ensures Reaches(start, RunEnd(start, s, swapForY), swapForY)
    decreases |s|
  {
    if s != [] {
      var n := |s| - 1;
      RunAdvances(read, start, s[..n], swapForY);
      assert forall k :: 0 <= k < n ==> s[..n][k] == s[k];
      assert IsNext(read, RunEnd(start, s[..n], swapForY), s[n], swapForY);
      if n > 0 {
        assert RunEnd(start, s[..n], swapForY) == s[n - 1] + Step(swapForY);
        assert forall j :: 0 <= j < n ==> Reaches(s[j], s[n - 1], swapForY);
      }
    }
  }

  /** Every initialized index between the start and the end of a run is in the run. */
  lemma {:induction false} RunIsComplete(read: Reader, start: int, s: seq<int>, i: int, swapForY: bool)
    requires IsRun(read, start, s, swapForY)
    requires Reaches(start, i, swapForY) && Initialized(read, i)
    requires Reaches(i, RunEnd(start, s, swapForY), swapForY) && i != RunEnd(start, s, swapForY)
    ensures i in s
    decreases |s|
  {
    if s != [] {
      var n := |s| - 1;
      var from := RunEnd(start, s[..n], swapForY);
      assert IsNext(read, from, s[n], swapForY);
      if i != s[n] {
        if Reaches(from, i, swapForY) {
          assert Reaches(i, s[n], swapForY);
          assert false;
        } else {
          RunIsComplete(read, start, s[..n], i, swapForY);
          assert i in s[..n];
        }
      }
    }
  }
}
