/** Waiting, within a bound, until the confirmed tip has passed every route's window. */
module R13Maturity {
  import opened Wrappers
  import opened Machine
  import opened R13Plan
  import opened R13History

  const MAX_WAIT_MS := 30000

  datatype EvidenceMaturity = EvidenceMaturity(
    requiredEndSlot: u64, initialTip: Option<u64>, finalTip: Option<u64>,
    pollAttempts: u64, rpcErrors: u64, waitElapsedMs: u64, reached: bool)

  datatype MaturityError =
    | EndSlotMismatch | NoPoll | TooManyErrors | FinalWithoutInitial | NoFinalTip | ReachedTooEarly
    | UnresolvedDespiteTip | AttemptOverflow | ElapsedOverflow | PlanFailed(plan: PlanError)

  function Validate(m: EvidenceMaturity, expectedEndSlot: u64): Result<(), MaturityError> {
    if m.requiredEndSlot != expectedEndSlot then Err(EndSlotMismatch)
    else if m.pollAttempts == 0 then Err(NoPoll)
    else if m.rpcErrors > m.pollAttempts then Err(TooManyErrors)
    else if m.initialTip.None? && m.finalTip.Some? then Err(FinalWithoutInitial)
    else if m.reached then
      if m.finalTip.None? then Err(NoFinalTip)
      else if m.finalTip.value < m.requiredEndSlot then Err(ReachedTooEarly)
      else Ok(())
    else if m.finalTip.Some? && m.finalTip.value >= m.requiredEndSlot then Err(UnresolvedDespiteTip)
    else Ok(())
  }

  /** A record passes exactly if it polled, and claims maturity exactly when its last tip reached the end slot. */
  lemma ValidMeans(m: EvidenceMaturity, expectedEndSlot: u64)
    ensures Validate(m, expectedEndSlot) == Ok(()) <==>
      && m.requiredEndSlot == expectedEndSlot && 0 < m.pollAttempts && m.rpcErrors <= m.pollAttempts
      && (m.finalTip.Some? ==> m.initialTip.Some?)
      && (m.reached <==> m.finalTip.Some? && m.finalTip.value >= expectedEndSlot)
  {
  }

  method ValidateForPlan(m: EvidenceMaturity, plan: ForensicsPlan) returns (r: Result<(), MaturityError>)
    ensures r.Ok? ==> IsRequiredEnd(plan, m.requiredEndSlot)
    ensures forall e :: IsRequiredEnd(plan, e) ==> r == Validate(m, e)
  {
    var expected := RequiredEndSlot(plan);
    if expected.Err? {
      return Err(PlanFailed(expected.error));
    }
    return Validate(m, expected.value);
  }

  /** The answer to every poll, and the milliseconds on the clock after it. */
  type Polls = nat -> Result<u64, RpcError>
  type Clock = nat -> nat

  predicate Reaches(polls: Polls, required: u64, k: nat) {
    polls(k).Ok? && polls(k).value >= required
  }

  function Errors(polls: Polls, n: nat): (e: nat)
    ensures e <= n
  {
    if n == 0 then 0 else Errors(polls, n - 1) + if polls(n - 1).Err? then 1 else 0
  }

  /** The first answered slot among the polls from `k` to `n`. */
  function FirstTip(polls: Polls, k: nat, n: nat): Option<u64>
    requires k <= n
    decreases n - k
  {
    if k == n then None else if polls(k).Ok? then Some(polls(k).value) else FirstTip(polls, k + 1, n)
  }

  function LastTip(polls: Polls, n: nat): Option<u64> {
    if n == 0 then None else if polls(n - 1).Ok? then Some(polls(n - 1).value) else LastTip(polls, n - 1)
  }

  lemma {:induction false} FirstTipGrows(polls: Polls, k: nat, n: nat)
    requires k <= n
    ensures FirstTip(polls, k, n + 1) ==
      if FirstTip(polls, k, n).Some? then FirstTip(polls, k, n)
      else if polls(n).Ok? then Some(polls(n).value) else None
    decreases n - k
  {
    if k < n {
      FirstTipGrows(polls, k + 1, n);
    } else {
      assert FirstTip(polls, n + 1, n + 1) == None;
    }
  }

  /** Some poll before `n` gave the slot, and all before it failed; or all behind it. */
  ghost predicate IsFirst(polls: Polls, n: nat, slot: u64) {
    exists k :: 0 <= k < n && polls(k) == Ok(slot) && forall j :: 0 <= j < k ==> polls(j).Err?
  }

  ghost predicate IsLast(polls: Polls, n: nat, slot: u64) {
    exists k :: 0 <= k < n && polls(k) == Ok(slot) && forall j :: k < j < n ==> polls(j).Err?
  }

  ghost predicate AllFailed(polls: Polls, n: nat) {
    forall j :: 0 <= j < n ==> polls(j).Err?
  }

  ghost function FailedPolls(polls: Polls, n: nat): set<int> {
    set k: int | 0 <= k < n && polls(k).Err?
  }

  /** The tips are the first and the last answered slot of the first `n` polls, and the errors are all others. */
  ghost predicate TellsThePolls(polls: Polls, n: nat, first: Option<u64>, last: Option<u64>, errors: nat) {
    && (if AllFailed(polls, n) then first.None? && last.None?
        else first.Some? && IsFirst(polls, n, first.value) && last.Some? && IsLast(polls, n, last.value))
    && errors == |FailedPolls(polls, n)|
  }

  lemma {:induction false} FirstTipIs(polls: Polls, n: nat)
    ensures FirstTip(polls, 0, n).None? <==> AllFailed(polls, n)
    ensures FirstTip(polls, 0, n).Some? ==> IsFirst(polls, n, FirstTip(polls, 0, n).value)
    decreases n
  {
    if n > 0 {
      FirstTipIs(polls, n - 1);
      FirstTipGrows(polls, 0, n - 1);
    }
  }

  lemma {:induction false} LastTipIs(polls: Polls, n: nat)
    ensures LastTip(polls, n).None? <==> AllFailed(polls, n)
    ensures LastTip(polls, n).Some? ==> IsLast(polls, n, LastTip(polls, n).value)
    decreases n
  {
    if n > 0 {
      LastTipIs(polls, n - 1);
      if polls(n - 1).Err? && LastTip(polls, n).Some? {
        var slot := LastTip(polls, n).value;
        var k :| 0 <= k < n - 1 && polls(k) == Ok(slot) && forall j :: k < j < n - 1 ==> polls(j).Err?;
        assert forall j :: k < j < n ==> polls(j).Err?;
      }
    }
  }

  lemma {:induction false} ErrorsAre(polls: Polls, n: nat)
    ensures Errors(polls, n) == |FailedPolls(polls, n)|
    decreases n
  {
    if n == 0 {
      assert FailedPolls(polls, n) == {};
    } else {
      ErrorsAre(polls, n - 1);
      var before := FailedPolls(polls, n - 1);
      assert FailedPolls(polls, n) == if polls(n - 1).Err? then before + {n - 1} else before;
    }
  }

  lemma RecordTellsThePolls(polls: Polls, n: nat)
    ensures TellsThePolls(polls, n, FirstTip(polls, 0, n), LastTip(polls, n), Errors(polls, n))
  {
    hide IsFirst, IsLast, AllFailed, FailedPolls;
    FirstTipIs(polls, n);
    LastTipIs(polls, n);
    ErrorsAre(polls, n);
  }

  /** The run that stops after poll `n - 1`. */
  function MaturityAfter(polls: Polls, clock: Clock, required: u64, n: nat): EvidenceMaturity
    requires 0 < n <= U64_MAX && clock(n - 1) <= U64_MAX
  {
    EvidenceMaturity(required, FirstTip(polls, 0, n), LastTip(polls, n), n, Errors(polls, n), clock(n - 1),
                     Reaches(polls, required, n - 1))
  }

  /** Polling stops at the first poll that reaches the end slot or comes back after the deadline. */
  ghost predicate StopsAt(polls: Polls, clock: Clock, required: u64, n: nat) {
    && 0 < n && (Reaches(polls, required, n - 1) || clock(n - 1) >= MAX_WAIT_MS)
    && forall k :: 0 <= k < n - 1 ==> !Reaches(polls, required, k) && clock(k) < MAX_WAIT_MS
  }

  /** `deadline` is some poll after which the wait is over; the source leaves it to the clock. */
  method Wait(polls: Polls, clock: Clock, required: u64, ghost deadline: nat)
    returns (r: Result<EvidenceMaturity, MaturityError>)
    requires clock(deadline) >= MAX_WAIT_MS
    ensures r.Ok? ==>
      && 0 < r.value.pollAttempts && clock(r.value.pollAttempts - 1) <= U64_MAX
      && StopsAt(polls, clock, required, r.value.pollAttempts)
      && r.value == MaturityAfter(polls, clock, required, r.value.pollAttempts)
      && TellsThePolls(polls, r.value.pollAttempts, r.value.initialTip, r.value.finalTip, r.value.rpcErrors)
    ensures deadline < U64_MAX && (forall k :: 0 <= k <= deadline ==> clock(k) <= U64_MAX) ==> r.Ok?
  {
    var initialTip: Option<u64>, finalTip: Option<u64> := None, None;
    var pollAttempts, rpcErrors := 0, 0;
    hide TellsThePolls;
    while true
      invariant 0 <= pollAttempts <= deadline && pollAttempts <= U64_MAX
      invariant initialTip == FirstTip(polls, 0, pollAttempts)
      invariant finalTip == LastTip(polls, pollAttempts)
      invariant rpcErrors == Errors(polls, pollAttempts)
      invariant forall k :: 0 <= k < pollAttempts ==> !Reaches(polls, required, k) && clock(k) < MAX_WAIT_MS
      decreases deadline - pollAttempts
    {
      if pollAttempts == U64_MAX {
        return Err(AttemptOverflow);
      }
      pollAttempts := pollAttempts + 1;
      FirstTipGrows(polls, 0, pollAttempts - 1);
      RecordTellsThePolls(polls, pollAttempts);
      var answer := polls(pollAttempts - 1);
      match answer {
        case Ok(slot) =>
          if initialTip.None? {
            initialTip := Some(slot);
          }
          finalTip := Some(slot);
          if slot >= required {
            if clock(pollAttempts - 1) > U64_MAX {
              return Err(ElapsedOverflow);
            }
            return Ok(EvidenceMaturity(required, initialTip, finalTip, pollAttempts, rpcErrors, clock(pollAttempts - 1), true));
          }
        case Err(_) =>
          rpcErrors := rpcErrors + 1;
      }
      if clock(pollAttempts - 1) >= MAX_WAIT_MS {
        if clock(pollAttempts - 1) > U64_MAX {
          return Err(ElapsedOverflow);
        }
        return Ok(EvidenceMaturity(required, initialTip, finalTip, pollAttempts, rpcErrors, clock(pollAttempts - 1), false));
      }
    }
  }

  lemma {:induction false} TipsExistTogether(polls: Polls, n: nat)
    ensures FirstTip(polls, 0, n).None? <==> LastTip(polls, n).None?
  {
    if n > 0 {
      FirstTipGrows(polls, 0, n - 1);
      TipsExistTogether(polls, n - 1);
    }
  }

  lemma {:induction false} LastTipWas(polls: Polls, n: nat)
    ensures LastTip(polls, n).Some? ==> exists k :: 0 <= k < n && polls(k) == Ok(LastTip(polls, n).value)
  {
    if n > 0 && polls(n - 1).Err? {
      LastTipWas(polls, n - 1);
    }
  }

  /** Whatever the answers, regressing slots and errors included, the record of a stopped wait is valid. */
  lemma WaitIsValid(polls: Polls, clock: Clock, required: u64, n: nat)
    requires 0 < n <= U64_MAX && clock(n - 1) <= U64_MAX && StopsAt(polls, clock, required, n)
    ensures Validate(MaturityAfter(polls, clock, required, n), required) == Ok(())
  {
    TipsExistTogether(polls, n);
    LastTipWas(polls, n);
    if !Reaches(polls, required, n - 1) && LastTip(polls, n).Some? {
      var k :| 0 <= k < n && polls(k) == Ok(LastTip(polls, n).value);
      assert !Reaches(polls, required, k);
    }
  }

  method WaitForWindowMaturity(plan: ForensicsPlan, polls: Polls, clock: Clock, ghost deadline: nat)
    returns (r: Result<EvidenceMaturity, MaturityError>)
    requires clock(deadline) >= MAX_WAIT_MS
    ensures r.Ok? ==> IsRequiredEnd(plan, r.value.requiredEndSlot) && Validate(r.value, r.value.requiredEndSlot) == Ok(())
    ensures r.Ok? ==>
      (r.value.reached <==> exists k :: 0 <= k < r.value.pollAttempts && Reaches(polls, r.value.requiredEndSlot, k))
    ensures WellFormed(plan) && deadline < U64_MAX && (forall k :: 0 <= k <= deadline ==> clock(k) <= U64_MAX) ==> r.Ok?
  {
    hide WellFormed;
    var required := RequiredEndSlot(plan);
    WellFormedHasRoutes(plan);
    if required.Err? {
      return Err(PlanFailed(required.error));
    }
    r := Wait(polls, clock, required.value, deadline);
    if r.Ok? {
      WaitIsValid(polls, clock, required.value, r.value.pollAttempts);
    }
  }
}
