/** The wait-and-retry policy both workers build: a fixed set of exception
    kinds is retried up to five times, and the sleep before retry k is
    min(2000, 2^k * 100) milliseconds plus a jitter drawn from [0, 250). */
module Retry {
  import opened Options

  /** `retryCount: 5`. */
  const RetryCount: nat := 5

  /** The cap of the exponential part, in milliseconds. */
  const MaxBaseDelayMs: nat := 2000

  /** The exponential part's unit, in milliseconds. */
  const DelayUnitMs: nat := 100

  /** `Random.Shared.Next(0, 250)` draws from [0, 250). */
  const JitterBoundMs: nat := 250

  /** One jitter draw, in milliseconds. */
  type Jitter = j: nat | j < JitterBoundMs

  function Pow2(k: nat): nat {
    if k == 0 then 1 else 2 * Pow2(k - 1)
  }

  /** `Math.Min(2000, Math.Pow(2, attempt) * 100)`, the exponential part of the
      sleep before retry number `attempt` (1 for the first retry). */
  function BaseDelayMs(attempt: nat): nat {
    var exponential := Pow2(attempt) * DelayUnitMs;
    if exponential < MaxBaseDelayMs then exponential else MaxBaseDelayMs
  }

  /** The `sleepDurationProvider`: base delay plus the jitter drawn for it. */
  function SleepDurationMs(attempt: nat, jitter: Jitter): nat {
    BaseDelayMs(attempt) + jitter
  }

  /** What a policy execution produced: the last attempt's result, how many
      attempts ran, and the sleeps taken between them, in order. */
  datatype Outcome<T, E> = Outcome(result: Result<T, E>, attempts: nat, sleepsMs: seq<nat>)

  /** `ExecuteAsync`: attempt `k` (0 for the first call) yields `op(k)`; a
      failure that `retryable` handles is followed by a sleep and another
      attempt while retries remain, any other result ends the execution. The
      jitter drawn before retry `k` is `jitter(k)`. */
  function Execute<T, E>(op: nat -> Result<T, E>, retryable: E -> bool, jitter: nat -> Jitter): Outcome<T, E> {
    ExecuteFrom(op, retryable, jitter, 0)
  }

  function ExecuteFrom<T, E>(op: nat -> Result<T, E>, retryable: E -> bool, jitter: nat -> Jitter, k: nat): Outcome<T, E>
    requires k <= RetryCount
    decreases RetryCount - k
  {
    var r := op(k);
    if r.Ok? || !retryable(r.error) || k == RetryCount then
      Outcome(r, k + 1, [])
    else
      var rest := ExecuteFrom(op, retryable, jitter, k + 1);
      Outcome(rest.result, rest.attempts, [SleepDurationMs(k + 1, jitter(k + 1))] + rest.sleepsMs)
  }

  /** The first attempt that does not end in a retryable failure, counting
      from `k`, or the last one allowed. */
  predicate Settles<T, E>(op: nat -> Result<T, E>, retryable: E -> bool, k: nat) {
    op(k).Ok? || !retryable(op(k).error) || k == RetryCount
  }

  // ---------------------------------------------------------------------------
  // Properties of the delay schedule.

  /** The exponential part never exceeds 2000 ms, never decreases from one
      retry to the next, and a whole sleep stays below 2250 ms. */
  lemma {:induction false} BaseDelayBounded(attempt: nat, jitter: Jitter)
    ensures BaseDelayMs(attempt) <= MaxBaseDelayMs
    ensures BaseDelayMs(attempt) <= BaseDelayMs(attempt + 1)
    ensures BaseDelayMs(attempt) <= SleepDurationMs(attempt, jitter) < MaxBaseDelayMs + JitterBoundMs
  {
    assert Pow2(attempt + 1) == 2 * Pow2(attempt);
  }

  /** Non-decreasing across any number of retries. */
  lemma {:induction false} BaseDelayMonotone(i: nat, j: nat)
    requires i <= j
    ensures BaseDelayMs(i) <= BaseDelayMs(j)
    decreases j - i
  {
    if i < j {
      BaseDelayBounded(i, 0);
      BaseDelayMonotone(i + 1, j);
    }
  }

  /** Retries 1..5 wait 200, 400, 800, 1600 and 2000 ms before jitter; the
      exponential part reaches the cap at the fifth. */
  lemma DelaySchedule()
    ensures BaseDelayMs(1) == 200 && BaseDelayMs(2) == 400 && BaseDelayMs(3) == 800
    ensures BaseDelayMs(4) == 1600 && BaseDelayMs(5) == 2000
  {
    assert Pow2(4) == 16;
    assert Pow2(5) == 32;
  }

  // ---------------------------------------------------------------------------
  // Properties of an execution.

  /** An execution runs between one and six attempts, sleeps once between every
      two of them, and each sleep is the policy's delay for its retry. */
  lemma {:induction false} ExecuteFromShape<T, E>(op: nat -> Result<T, E>, retryable: E -> bool, jitter: nat -> Jitter, k: nat)
    requires k <= RetryCount
    ensures var o := ExecuteFrom(op, retryable, jitter, k);
            && k < o.attempts <= RetryCount + 1
            && |o.sleepsMs| == o.attempts - 1 - k
            && (forall i :: 0 <= i < |o.sleepsMs| ==> o.sleepsMs[i] == SleepDurationMs(k + 1 + i, jitter(k + 1 + i)))
            && o.result == op(o.attempts - 1)
            && Settles(op, retryable, o.attempts - 1)
            && (forall a :: k <= a < o.attempts - 1 ==> !Settles(op, retryable, a))
    decreases RetryCount - k
  {
    if !Settles(op, retryable, k) {
      ExecuteFromShape(op, retryable, jitter, k + 1);
    }
  }

  /** The execution ends at the first attempt that succeeds, fails with an
      error the policy does not handle, or is the sixth; every attempt before
      it failed with a handled error and was retried. */
  lemma ExecuteShape<T, E>(op: nat -> Result<T, E>, retryable: E -> bool, jitter: nat -> Jitter)
    ensures var o := Execute(op, retryable, jitter);
            && 1 <= o.attempts <= RetryCount + 1
            && |o.sleepsMs| == o.attempts - 1
            && (forall i :: 0 <= i < |o.sleepsMs| ==> o.sleepsMs[i] == SleepDurationMs(i + 1, jitter(i + 1)))
            && o.result == op(o.attempts - 1)
            && (forall a :: 0 <= a < o.attempts - 1 ==> op(a).Err? && retryable(op(a).error))
  {
    ExecuteFromShape(op, retryable, jitter, 0);
  }

  /** An error the policy does not handle is never retried. */
  lemma UnhandledErrorIsNotRetried<T, E>(op: nat -> Result<T, E>, retryable: E -> bool, jitter: nat -> Jitter)
    requires op(0).Err? && !retryable(op(0).error)
    ensures Execute(op, retryable, jitter) == Outcome(op(0), 1, [])
  {
  }

  /** An operation that keeps failing with a handled error runs six times and
      reports the sixth failure. */
  lemma PersistentFailureGivesUp<T, E>(op: nat -> Result<T, E>, retryable: E -> bool, jitter: nat -> Jitter)
    requires forall a :: 0 <= a <= RetryCount ==> op(a).Err? && retryable(op(a).error)
    ensures Execute(op, retryable, jitter).attempts == RetryCount + 1
    ensures Execute(op, retryable, jitter).result == op(RetryCount)
  {
    ExecuteShape(op, retryable, jitter);
  }
}
