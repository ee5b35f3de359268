/**
 * The retry policy both handlers wrap around their storage block: attempts
 * are numbered from 1; an `InterfaceError` or `OperationalError` is retried
 * after a sleep while `attempt < db_conn_retry`, and raised again after
 * that; any other exception leaves the loop at once. What each attempt
 * meets is the environment's business and enters as `fault(attempt)`.
 */
module Retry {

  const DbConnRetry: nat := 3

  /**
   * How an attempt ends: it reaches `commit` (Clean), or raises before the
   * commit takes effect — SQLAlchemy's `InterfaceError`/`OperationalError`
   * (Transient) or any other exception (Fatal).
   */
  datatype Fault = Clean | Transient(message: string) | Fatal(message: string)

  /** The loop's exit: the attempt that committed, or the attempt whose exception escaped. */
  datatype RunResult = Committed(attempts: nat) | GaveUp(attempts: nat, message: string)

  /** The loop from attempt number `attempt` on. */
  function Run(fault: nat -> Fault, attempt: nat): (r: RunResult)
    requires 1 <= attempt <= DbConnRetry
    ensures attempt <= r.attempts <= DbConnRetry
    ensures forall j :: attempt <= j < r.attempts ==> fault(j).Transient?
    ensures r.Committed? <==> fault(r.attempts) == Clean
    ensures r.GaveUp? ==> fault(r.attempts) == Fatal(r.message)
                          || (r.attempts == DbConnRetry && fault(r.attempts) == Transient(r.message))
    decreases DbConnRetry - attempt
  {
    match fault(attempt)
    case Clean => Committed(attempt)
    case Fatal(message) => GaveUp(attempt, message)
    case Transient(message) =>
      if attempt < DbConnRetry then Run(fault, attempt + 1) else GaveUp(attempt, message)
  }

  /** The loop's outcome is decided by the first attempt that is not a transient failure, if any. */
  lemma {:induction false} RunStopsAtFirstNonTransient(fault: nat -> Fault, k: nat)
    requires 1 <= k <= DbConnRetry
    requires forall j :: 1 <= j < k ==> fault(j).Transient?
    requires !fault(k).Transient?
    ensures Run(fault, 1).attempts == k
    ensures Run(fault, 1) == (if fault(k).Clean? then Committed(k) else GaveUp(k, fault(k).message))
  {
  }

  /** Two transient failures followed by a clean attempt: success on the third and last attempt. */
  lemma TransientTwiceThenClean(fault: nat -> Fault)
    requires fault(1).Transient? && fault(2).Transient? && fault(3) == Clean
    ensures Run(fault, 1) == Committed(3)
  {
  }

  /** Three transient failures: the third is raised, after two sleeps. */
  lemma TransientThrice(fault: nat -> Fault)
    requires fault(1).Transient? && fault(2).Transient? && fault(3).Transient?
    ensures Run(fault, 1) == GaveUp(3, fault(3).message)
  {
  }

  /** Any other exception is never retried. */
  lemma FatalNotRetried(fault: nat -> Fault, attempt: nat)
    requires 1 <= attempt <= DbConnRetry && fault(attempt).Fatal?
    ensures Run(fault, attempt) == GaveUp(attempt, fault(attempt).message)
  {
  }
}
