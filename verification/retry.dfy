/** The retrying transport beneath every request: an exponential-backoff
    policy that repeats a request on a transient outcome, up to a fixed
    number of extra attempts, and otherwise hands back the outcome as it came.
    Backoff timing is not modelled; the attempts the server would answer are
    given as a sequence. */
module Retry {
  import opened Errors

  /** An HTTP status code as the `http` crate admits it. */
  type StatusCode = x: int | 100 <= x <= 999 witness 200

  /** `StatusCode::is_success`. */
  predicate IsSuccess(code: StatusCode) {
    200 <= code <= 299
  }

  /** The outcome of one attempt: a response with its status code and the
      status's rendered text (`StatusCode`'s `Display`, such as
      "520 <unknown status code>"), or a transport error, flagged transient
      when it is a connection-level failure worth repeating. */
  datatype Attempt =
    | Delivered(code: StatusCode, rendered: string)
    | Undelivered(error: HttpError, transient: bool)

  /** Outcomes the policy repeats: server errors and transient transport errors. */
  predicate Transient(a: Attempt) {
    (a.Delivered? && 500 <= a.code <= 599) || (a.Undelivered? && a.transient)
  }

  /** Sends a request through the retry policy, `attempts[i]` being what the
      server answers to attempt `i`. Returns the outcome handed to the caller
      and how many attempts were made. */
  function SendWithRetries(attempts: seq<Attempt>, maxRetries: nat): (r: (Attempt, nat))
    requires |attempts| > maxRetries
    ensures 1 <= r.1 <= maxRetries + 1 && r.0 == attempts[r.1 - 1]
    ensures forall i :: 0 <= i < r.1 - 1 ==> Transient(attempts[i])
    ensures !Transient(r.0) || r.1 == maxRetries + 1
  {
    if maxRetries == 0 || !Transient(attempts[0]) then (attempts[0], 1)
    else
      var (outcome, made) := SendWithRetries(attempts[1..], maxRetries - 1);
      (outcome, made + 1)
  }

  /** A server that fails transiently on every attempt is asked exactly
      `maxRetries + 1` times, and its last answer is what the caller sees. */
  lemma {:induction false} PersistentFailureExhaustsRetries(attempts: seq<Attempt>, maxRetries: nat)
    requires |attempts| > maxRetries
    requires forall i :: 0 <= i < |attempts| ==> Transient(attempts[i])
    ensures SendWithRetries(attempts, maxRetries) == (attempts[maxRetries], maxRetries + 1)
  {
    var r := SendWithRetries(attempts, maxRetries);
    assert Transient(attempts[r.1 - 1]);
  }
}
