/**
  The upload resilience policy of the `push` command
  (src/GprTool/Program.cs, PushCommand.BuildRetryAsyncPolicy and its use).

  The policy is Polly's retry policy (on results) wrapped around a per-attempt
  timeout, or Polly's no-op policy when there is no retry budget. Attempt k
  (counting from 0) answers with `status(k)`; the transport is a parameter.
 */
module Retry {
  import opened Wrappers

  /** An HTTP status code as RestSharp reports it; 0 when no response arrived. */
  type StatusCode = int

  const OK: StatusCode := 200
  const BadRequest: StatusCode := 400
  const Unauthorized: StatusCode := 401
  const Conflict: StatusCode := 409

  /** The fixed delay between attempts and the per-attempt timeout the push command uses. */
  const RetrySleepSeconds: nat := 10
  const TimeoutSeconds: nat := 300

  /** How an attempt's status is treated by the policy. */
  datatype Outcome = TerminalSuccess | TerminalFailure | RetryableFailure

  /** The result predicate handed to `HandleResult`: true means "retry this". */
  predicate IsRetryable(status: StatusCode) {
    status != Unauthorized && status != Conflict && status != BadRequest && status != OK
  }

  /** The classification the predicate stands for: 200 succeeds, 400/401/409 are final failures, the rest is transient. */
  function Classify(status: StatusCode): (o: Outcome)
    ensures o == TerminalSuccess <==> status == OK
    ensures o == TerminalFailure <==> status in {BadRequest, Unauthorized, Conflict}
    ensures o == RetryableFailure <==> IsRetryable(status)
  {
    if status == OK then TerminalSuccess
    else if status == BadRequest || status == Unauthorized || status == Conflict then TerminalFailure
    else RetryableFailure
  }

  datatype Policy =
    | NoOp
    | RetryWithTimeout(retryCount: nat, sleepSeconds: nat, timeoutSeconds: nat)

  /** `BuildRetryAsyncPolicy(retryNumber, retrySleepSeconds, timeoutSeconds)`. */
  function BuildRetryPolicy(retryNumber: int, retrySleepSeconds: nat, timeoutSeconds: nat): (p: Policy)
    ensures p.NoOp? <==> retryNumber <= 0
    ensures p.RetryWithTimeout? ==>
      p.retryCount == retryNumber && p.sleepSeconds == retrySleepSeconds && p.timeoutSeconds == timeoutSeconds
  {
    if retryNumber <= 0 then NoOp
    else RetryWithTimeout(retryNumber, retrySleepSeconds, timeoutSeconds)
  }

  /** The retry budget the push command asks for: `Math.Max(0, Retries)`. */
  function Budget(retries: int): (b: nat)
    ensures b == 0 <==> retries <= 0
    ensures retries >= 0 ==> b == retries
  {
    if retries < 0 then 0 else retries
  }

  /**
    The policy the push command builds from its `--retries` option: no-op for
    a budget of 0 or less, otherwise that many retries, 10 s apart, each attempt
    limited to 300 s.
   */
  function PushPolicy(retries: int): (p: Policy)
    ensures p.NoOp? <==> retries <= 0
    ensures retries > 0 ==> p == RetryWithTimeout(retries, RetrySleepSeconds, TimeoutSeconds)
  {
    BuildRetryPolicy(Budget(retries), RetrySleepSeconds, TimeoutSeconds)
  }

  /** How many retries a policy may make after the first attempt. */
  function RetryCount(p: Policy): nat {
    match p
    case NoOp => 0
    case RetryWithTimeout(n, _, _) => n
  }

  /** The time limit on each attempt; the no-op policy imposes none. */
  function AttemptTimeout(p: Policy): Option<nat> {
    match p
    case NoOp => None
    case RetryWithTimeout(_, _, t) => Some(t)
  }

  /** The delay before each retry. */
  function SleepSeconds(p: Policy): nat {
    match p
    case NoOp => 0
    case RetryWithTimeout(_, s, _) => s
  }

  /** Attempts made from attempt k on, when attempt k is about to start. */
  function AttemptsFrom(retryCount: nat, status: nat -> StatusCode, k: nat): (n: nat)
    requires k <= retryCount
    ensures k + 1 <= n <= retryCount + 1
    decreases retryCount - k
  {
    if k == retryCount || !IsRetryable(status(k)) then k + 1
    else AttemptsFrom(retryCount, status, k + 1)
  }

  /** The number of attempts the policy makes when attempt k answers `status(k)`. */
  function AttemptCount(p: Policy, status: nat -> StatusCode): (n: nat)
    ensures 1 <= n <= RetryCount(p) + 1
  {
    AttemptsFrom(RetryCount(p), status, 0)
  }

  /**
    What a run of n attempts looks like: every attempt but the last asked for a
    retry, and the last one either was not retryable or used up the budget.
   */
  ghost predicate IsAttemptRun(retryCount: nat, status: nat -> StatusCode, n: nat) {
    && 1 <= n <= retryCount + 1
    && (forall k :: 0 <= k < n - 1 ==> IsRetryable(status(k)))
    && (n == retryCount + 1 || !IsRetryable(status(n - 1)))
  }

  lemma {:induction false} AttemptsFromIsRun(retryCount: nat, status: nat -> StatusCode, k: nat)
    requires k <= retryCount
    requires forall j :: 0 <= j < k ==> IsRetryable(status(j))
    ensures IsAttemptRun(retryCount, status, AttemptsFrom(retryCount, status, k))
    decreases retryCount - k
  {
    if k < retryCount && IsRetryable(status(k)) {
      AttemptsFromIsRun(retryCount, status, k + 1);
    }
  }

  /**
    The attempt count is a run: between 1 and retryCount + 1 attempts, stopping
    at the first status that is not retryable.
   */
  lemma AttemptCountIsRun(p: Policy, status: nat -> StatusCode)
    ensures IsAttemptRun(RetryCount(p), status, AttemptCount(p, status))
  {
    AttemptsFromIsRun(RetryCount(p), status, 0);
  }

  /** There is only one run, so the attempt count is fully described by IsAttemptRun. */
  lemma AttemptRunUnique(retryCount: nat, status: nat -> StatusCode, n: nat, m: nat)
    requires IsAttemptRun(retryCount, status, n) && IsAttemptRun(retryCount, status, m)
    ensures n == m
  {
  }

  /** With a zero (or negative) `--retries` the policy is a no-op: one attempt, no timeout, no delay. */
  lemma NoBudgetSingleAttempt(retries: int, status: nat -> StatusCode)
    requires retries <= 0
    ensures PushPolicy(retries) == NoOp
    ensures AttemptCount(PushPolicy(retries), status) == 1
    ensures AttemptTimeout(PushPolicy(retries)) == None
  {
  }

  /** A positive `--retries` R gives R retries, a 10 s delay and a 300 s timeout per attempt. */
  lemma PositiveBudgetPolicy(retries: int)
    requires retries > 0
    ensures RetryCount(PushPolicy(retries)) == retries
    ensures AttemptTimeout(PushPolicy(retries)) == Some(TimeoutSeconds)
    ensures SleepSeconds(PushPolicy(retries)) == RetrySleepSeconds
  {
  }

  /** An attempt that is not retryable ends the run at once, whatever budget is left. */
  lemma {:induction false} TerminalFirstAttempt(p: Policy, status: nat -> StatusCode)
    requires !IsRetryable(status(0))
    ensures AttemptCount(p, status) == 1
  {
    AttemptCountIsRun(p, status);
  }

  /** When every attempt asks for a retry the whole budget is spent: exactly R + 1 attempts. */
  lemma {:induction false} AlwaysRetryableUsesBudget(p: Policy, status: nat -> StatusCode)
    requires forall k :: IsRetryable(status(k))
    ensures AttemptCount(p, status) == RetryCount(p) + 1
  {
    AttemptCountIsRun(p, status);
  }

  /**
    A transient failure followed by a success: with enough budget, the run ends
    at the first success, after exactly (number of failures + 1) attempts.
   */
  lemma {:induction false} SucceedsAfterFailures(p: Policy, status: nat -> StatusCode, failures: nat)
    requires failures <= RetryCount(p)
    requires forall k :: 0 <= k < failures ==> IsRetryable(status(k))
    requires status(failures) == OK
    ensures AttemptCount(p, status) == failures + 1
  {
    AttemptCountIsRun(p, status);
    assert IsAttemptRun(RetryCount(p), status, failures + 1);
    AttemptRunUnique(RetryCount(p), status, AttemptCount(p, status), failures + 1);
  }

  /**
    Arithmetic consequence of a run having at most R + 1 attempts: n attempts
    charged the timeout each, plus the n - 1 delays between them, come to at
    most (R + 1) × (timeout + delay). It bounds the time spent in the policy
    only on the assumption that each attempt lasts at most the timeout; the
    model has no attempt durations.
   */
  lemma WorstCaseDuration(p: Policy, status: nat -> StatusCode)
    requires p.RetryWithTimeout?
    ensures var n := AttemptCount(p, status);
      n * p.timeoutSeconds + (n - 1) * p.sleepSeconds <= (p.retryCount + 1) * (p.timeoutSeconds + p.sleepSeconds)
  {
    var n := AttemptCount(p, status);
    AttemptCountIsRun(p, status);
    assert n <= p.retryCount + 1;
    calc {
      n * p.timeoutSeconds + (n - 1) * p.sleepSeconds;
    <= { MulMonotone(n, p.retryCount + 1, p.timeoutSeconds); MulMonotone(n - 1, p.retryCount + 1, p.sleepSeconds); }
      (p.retryCount + 1) * p.timeoutSeconds + (p.retryCount + 1) * p.sleepSeconds;
    }
  }

  lemma MulMonotone(a: nat, b: nat, c: nat)
    requires a <= b
    ensures a * c <= b * c
  {
  }
}
