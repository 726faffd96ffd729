/** Posting with bounded retries (server-agent/internal/client/client.go). */
module Retry {
  import opened Wrappers
  import opened Powers

  const MAX_ATTEMPTS := 3

  /** Milliseconds. */
  const BACKOFF_BASE := 200

  datatype PostError = Transport(id: nat) | StatusError(code: int) | ContextDone

  predicate Retryable(e: PostError) {
    e.StatusError? ==> e.code >= 500
  }

  /** `postOnce`, given what the transport returns. */
  function PostOnce(reply: Option<int>, id: nat): (err: Option<PostError>)
    ensures err.None? <==> reply.Some? && 200 <= reply.value < 300
    ensures err == Some(Transport(id)) <==> reply.None?
    ensures reply.Some? && !(200 <= reply.value < 300) ==> err == Some(StatusError(reply.value))
    ensures FailsRetryably(err) <==> reply.None? || reply.value >= 500
  {
    if reply.None? then Some(Transport(id))
    else if 200 <= reply.value < 300 then None
    else Some(StatusError(reply.value))
  }

  predicate FailsRetryably(result: Option<PostError>) {
    result.Some? && Retryable(result.value)
  }

  /** How `n` allowed attempts end, if `attempt(i)` is what attempt `i` returns and `cancelled(i)`
      whether the context ends during the wait before it: every attempt but the last failed
      retryably and no wait in between was cut short; then the result is nil for a success, a
      non-retryable error as it is, the last error when all attempts are used up, and the
      context's error when the next wait was cut short. */
  ghost predicate Ends(n: nat, attempt: nat -> Option<PostError>, cancelled: nat -> bool,
                       err: Option<PostError>, tries: nat)
  {
    && 0 < tries <= n
    && (forall i :: 0 <= i < tries - 1 ==> FailsRetryably(attempt(i)))
    && (forall i :: 1 <= i < tries ==> !cancelled(i))
    && if !FailsRetryably(attempt(tries - 1)) then err == attempt(tries - 1)
       else if tries == n then err == attempt(n - 1)
       else cancelled(tries) && err == Some(ContextDone)
  }

  /** There is exactly one number of tries and one result. */
  lemma OneEnd(n: nat, attempt: nat -> Option<PostError>, cancelled: nat -> bool,
               err: Option<PostError>, tries: nat, err': Option<PostError>, tries': nat)
    requires Ends(n, attempt, cancelled, err, tries) && Ends(n, attempt, cancelled, err', tries')
    ensures tries == tries' && err == err'
  {
  }

  /** The delays double, so their sum is one short of the next one. */
  lemma OneMoreWait(base: nat, i: nat)
    requires i > 0
    ensures base * (Pow2(i - 1) - 1) + base * Pow2(i - 1) == base * (Pow2(i) - 1)
  {
    var p := Pow2(i - 1);
    assert Pow2(i) == 2 * p;
    assert base * (p - 1) + base * p == base * (2 * p - 1);
  }

  /** The loop of `postBody` for any attempt limit; `tries` counts the attempts and `waited` sums the delays
      waited out. */
  method RetryLoop(n: nat, base: nat, attempt: nat -> Option<PostError>, cancelled: nat -> bool)
    returns (err: Option<PostError>, tries: nat, waited: nat)
    ensures n > 0 ==> Ends(n, attempt, cancelled, err, tries)
    ensures n > 0 ==> (err.None? <==> exists i :: 0 <= i < tries && attempt(i).None?)
    ensures n > 0 ==> waited == base * (Pow2(tries - 1) - 1)
    ensures n == 0 ==> err.None? && tries == 0 && waited == 0
  {
    var lastErr: Option<PostError> := None;
    tries, waited := 0, 0;
    var i := 0;
    while i < n
      invariant 0 <= i <= n && tries == i
      invariant forall j :: 0 <= j < i ==> FailsRetryably(attempt(j))
      invariant forall j :: 1 <= j < i ==> !cancelled(j)
      invariant if i == 0 then lastErr.None? else lastErr == attempt(i - 1)
      invariant waited == if i == 0 then 0 else base * (Pow2(i - 1) - 1)
    {
      if i > 0 {
        if cancelled(i) {
          return Some(ContextDone), tries, waited;
        }
        OneMoreWait(base, i);
        waited := waited + base * Pow2(i - 1);
      }
      var result := attempt(i);
      tries := tries + 1;
      if result.None? {
        return None, tries, waited;
      }
      if !Retryable(result.value) {
        return result, tries, waited;
      }
      lastErr := result;
      i := i + 1;
    }
    err := lastErr;
  }

  /** What each attempt returns, given what the transport returns for it. */
  function AttemptsOn(replies: nat -> Option<int>): nat -> Option<PostError> {
    (i: nat) => PostOnce(replies(i), i)
  }

  /** No answer, or a status of 500 and above. */
  predicate Retried(reply: Option<int>) {
    reply.None? || reply.value >= 500
  }

  /** `postBody`: three attempts, 200 and 400 milliseconds apart.  Another attempt is made only after
      a transport error or a status of 500 and above.  The result is nil exactly if the last attempt
      got a 2xx, the context's error exactly if it ends during a wait, and else that of the last
      attempt: its status, or the transport's error. */
  method PostBody(replies: nat -> Option<int>, cancelled: nat -> bool)
    returns (err: Option<PostError>, tries: nat, waited: nat)
    ensures Ends(MAX_ATTEMPTS, AttemptsOn(replies), cancelled, err, tries)
    ensures forall i :: 0 <= i < tries - 1 ==> Retried(replies(i)) && !cancelled(i + 1)
    ensures 1 <= tries <= 3
    ensures err.None? <==> replies(tries - 1).Some? && 200 <= replies(tries - 1).value < 300
    ensures err == Some(ContextDone) <==> tries < 3 && cancelled(tries) && Retried(replies(tries - 1))
    ensures err.Some? && err != Some(ContextDone) ==>
      err == Some(if replies(tries - 1).Some? then StatusError(replies(tries - 1).value) else Transport(tries - 1))
    ensures tries < 3 && err != Some(ContextDone) ==> !Retried(replies(tries - 1))
    ensures waited == [0, 200, 600][tries - 1]
  {
    var attempt := AttemptsOn(replies);
    err, tries, waited := RetryLoop(MAX_ATTEMPTS, BACKOFF_BASE, attempt, cancelled);
    assert Pow2(0) == 1 && Pow2(1) == 2 && Pow2(2) == 4;
    forall i | 0 <= i < tries - 1
      ensures Retried(replies(i)) && !cancelled(i + 1)
    {
      assert FailsRetryably(attempt(i)) && attempt(i) == PostOnce(replies(i), i);
    }
  }
}
