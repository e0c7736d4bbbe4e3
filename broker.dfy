/**
 * The message broker as the two messaging classes see it while connecting. Each connection
 * attempt is a fixed series of broker calls; the broker's answer to an attempt is how many of
 * those calls return before one throws. The answers to successive attempts are given as a
 * sequence, and an attempt beyond the sequence fails at once.
 */
module Broker {

  /** Both retry loops give up after this many failed attempts. */
  const MaxAttempts := 20

  /** How many of an attempt's broker calls return before one throws. */
  datatype Attempt = Attempt(completed: nat)

  function Outcome(broker: seq<Attempt>, k: nat): Attempt {
    if k < |broker| then broker[k] else Attempt(0)
  }

  /** Attempt `k` gets through all `steps` calls. */
  predicate Succeeds(broker: seq<Attempt>, steps: nat, k: nat) {
    Outcome(broker, k).completed >= steps
  }

  /** The index of the first successful attempt from `from` on, or `MaxAttempts` when all of them fail. */
  function FirstSuccess(broker: seq<Attempt>, steps: nat, from: nat): (r: nat)
    requires from <= MaxAttempts
    ensures from <= r <= MaxAttempts
    decreases MaxAttempts - from
  {
    if from == MaxAttempts then MaxAttempts
    else if Succeeds(broker, steps, from) then from
    else FirstSuccess(broker, steps, from + 1)
  }

  /** Some attempt within the limit succeeds. */
  predicate Connects(broker: seq<Attempt>, steps: nat) {
    FirstSuccess(broker, steps, 0) < MaxAttempts
  }

  /** The number of attempts a retry loop makes: through the first success, or all of them. */
  function AttemptsMade(broker: seq<Attempt>, steps: nat): nat {
    if Connects(broker, steps) then FirstSuccess(broker, steps, 0) + 1 else MaxAttempts
  }

  /** `FirstSuccess` is the first success: every attempt before it fails. */
  lemma {:induction false} FirstSuccessSpec(broker: seq<Attempt>, steps: nat, from: nat)
    requires from <= MaxAttempts
    ensures FirstSuccess(broker, steps, from) < MaxAttempts ==> Succeeds(broker, steps, FirstSuccess(broker, steps, from))
    ensures forall k :: from <= k < FirstSuccess(broker, steps, from) ==> !Succeeds(broker, steps, k)
    decreases MaxAttempts - from
  {
    if from < MaxAttempts && !Succeeds(broker, steps, from) {
      FirstSuccessSpec(broker, steps, from + 1);
    }
  }

  /** The loop connects exactly when one of the first twenty attempts succeeds. */
  lemma ConnectsSpec(broker: seq<Attempt>, steps: nat)
    ensures Connects(broker, steps) <==> exists k :: 0 <= k < MaxAttempts && Succeeds(broker, steps, k)
  {
    FirstSuccessSpec(broker, steps, 0);
  }

  /**
   * At most twenty attempts are made, one more than the number of failures when the last one
   * succeeds; an attempt that succeeds after `k` failures ends the loop after `k + 1` attempts.
   */
  lemma AttemptsSpec(broker: seq<Attempt>, steps: nat, k: nat)
    requires k < MaxAttempts && Succeeds(broker, steps, k)
    requires forall j :: 0 <= j < k ==> !Succeeds(broker, steps, j)
    ensures Connects(broker, steps) && FirstSuccess(broker, steps, 0) == k
    ensures AttemptsMade(broker, steps) == k + 1 <= MaxAttempts
  {
    FirstSuccessSpec(broker, steps, 0);
  }

  /** Answers to attempts past the twentieth are never consulted. */
  lemma {:induction false} OnlyTwentyAttempts(broker: seq<Attempt>, other: seq<Attempt>, steps: nat, from: nat)
    requires from <= MaxAttempts
    requires forall k :: from <= k < MaxAttempts ==> Outcome(broker, k) == Outcome(other, k)
    ensures FirstSuccess(broker, steps, from) == FirstSuccess(other, steps, from)
    decreases MaxAttempts - from
  {
    if from < MaxAttempts {
      OnlyTwentyAttempts(broker, other, steps, from + 1);
    }
  }
}
