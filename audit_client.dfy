/** The call to the language model, wrapped in a retry loop that backs off
    when the service reports that its quota is exhausted (HTTP 429). The
    remote service is a parameter: a function from the request and the
    attempt number to what that attempt produced. Sleeping is recorded as the
    list of waits, in seconds. */
module AuditClient {

  /** The model every audit is sent to. */
  const ModelId := "gemini-3-flash-preview"
  /** `range(3)`: the number of attempts. */
  const MaxAttempts := 3

  datatype Request = Request(model: string, system: string, prompt: string)

  datatype Response = Response(text: string)

  /** What one `generate_content` attempt did: answered, raised
      `ResourceExhausted`, or raised anything else. */
  datatype CallOutcome = Success(response: Response) | RateLimited | OtherError(message: string)

  /** What `safe_audit_call` ends in: a response, `None` once the attempts
      are used up, or an exception that escapes it. */
  datatype AuditResult = Answered(response: Response) | NoResponse | Raised(message: string)

  /** The complete behaviour of one call: its result, how many attempts were
      made and the waits slept between them, in order. */
  datatype Trace = Trace(result: AuditResult, calls: nat, waits: seq<nat>)

  type Remote = (Request, nat) -> CallOutcome

  /** Seconds slept after attempt `attempt` was rate limited. */
  function Backoff(attempt: nat): nat
  {
    attempt * 2 + 3
  }

  /** The waits after attempts 0 .. k-1. */
  function Backoffs(k: nat): (w: seq<nat>)
    ensures |w| == k
    ensures forall i :: 0 <= i < k ==> w[i] == Backoff(i)
  {
    if k == 0 then [] else Backoffs(k - 1) + [Backoff(k - 1)]
  }

  /** The loop from attempt `attempt` on: an answer or a non-quota error ends
      it, a quota error sleeps and moves on, and after the last attempt the
      result is `None`. */
  function Run(req: Request, remote: Remote, attempt: nat): (t: Trace)
    requires attempt <= MaxAttempts
    ensures t.calls <= MaxAttempts - attempt
    ensures attempt < MaxAttempts ==> 1 <= t.calls
    ensures t.result.NoResponse? ==> |t.waits| == t.calls == MaxAttempts - attempt
    ensures !t.result.NoResponse? ==> |t.waits| + 1 == t.calls
    decreases MaxAttempts - attempt
  {
    if attempt == MaxAttempts then Trace(NoResponse, 0, [])
    else
      match remote(req, attempt)
      case Success(r) => Trace(Answered(r), 1, [])
      case OtherError(m) => Trace(Raised(m), 1, [])
      case RateLimited =>
        var rest := Run(req, remote, attempt + 1);
        Trace(rest.result, rest.calls + 1, [Backoff(attempt)] + rest.waits)
  }

  /** Every attempt before `k` was rate limited. */
  predicate RateLimitedBefore(req: Request, remote: Remote, k: nat)
  {
    forall i :: 0 <= i < k ==> remote(req, i).RateLimited?
  }

  /** After `k` rate-limited attempts the call has slept `Backoffs(k)` and
      goes on exactly as a fresh loop started at attempt `k`. */
  lemma {:induction false} RunAfterRateLimits(req: Request, remote: Remote, k: nat)
    requires k <= MaxAttempts && RateLimitedBefore(req, remote, k)
    ensures var rest := Run(req, remote, k);
            Run(req, remote, 0) == Trace(rest.result, k + rest.calls, Backoffs(k) + rest.waits)
  {
    if k > 0 {
      RunAfterRateLimits(req, remote, k - 1);
      var rest := Run(req, remote, k);
      RateLimitedStep(req, remote, k - 1);
      BackoffsThen(k, rest.waits);
    }
  }

  lemma BackoffsThen(k: nat, later: seq<nat>)
    requires k > 0
    ensures Backoffs(k - 1) + ([Backoff(k - 1)] + later) == Backoffs(k) + later
  {
    assert Backoffs(k) == Backoffs(k - 1) + [Backoff(k - 1)];
  }

  /** A rate-limited attempt sleeps its back-off and hands over to the next. */
  lemma RateLimitedStep(req: Request, remote: Remote, a: nat)
    requires a < MaxAttempts && remote(req, a).RateLimited?
    ensures var rest := Run(req, remote, a + 1);
            Run(req, remote, a) == Trace(rest.result, rest.calls + 1, [Backoff(a)] + rest.waits)
  {
  }

  /** Three quota errors in a row: three calls, waits of 3, 5 and 7 seconds
      (the last one after the final attempt too), and no response. */
  lemma ExhaustedRetries(req: Request, remote: Remote)
    requires RateLimitedBefore(req, remote, MaxAttempts)
    ensures Run(req, remote, 0) == Trace(NoResponse, 3, [3, 5, 7])
  {
    RunAfterRateLimits(req, remote, MaxAttempts);
    assert Backoffs(MaxAttempts) == [3, 5, 7];
  }

  /** The first answer is returned at once, after the waits for the
      rate-limited attempts before it. */
  lemma FirstAnswerReturned(req: Request, remote: Remote, k: nat, r: Response)
    requires k < MaxAttempts && RateLimitedBefore(req, remote, k)
    requires remote(req, k) == Success(r)
    ensures Run(req, remote, 0) == Trace(Answered(r), k + 1, Backoffs(k))
  {
    RunAfterRateLimits(req, remote, k);
    assert Backoffs(k) + [] == Backoffs(k);
  }

  /** An error other than a quota error escapes on the attempt where it
      happens; nothing is retried after it. */
  lemma OtherErrorNotRetried(req: Request, remote: Remote, k: nat, m: string)
    requires k < MaxAttempts && RateLimitedBefore(req, remote, k)
    requires remote(req, k) == OtherError(m)
    ensures Run(req, remote, 0) == Trace(Raised(m), k + 1, Backoffs(k))
  {
    RunAfterRateLimits(req, remote, k);
    assert Backoffs(k) + [] == Backoffs(k);
  }

  /** `safe_audit_call(sys_instr, prompt_body)`: at most three attempts at
      `generate_content`, sleeping `2 * attempt + 3` seconds after each quota
      error, returning the first answer and letting any other error escape. */
  method SafeAuditCall(system: string, prompt: string, remote: Remote)
    returns (result: AuditResult, calls: nat, waits: seq<nat>)
    ensures Run(Request(ModelId, system, prompt), remote, 0) == Trace(result, calls, waits)
    ensures 1 <= calls <= MaxAttempts
  {
    var req := Request(ModelId, system, prompt);
    calls, waits := 0, [];
    var attempt := 0;
    while attempt < MaxAttempts
      invariant attempt <= MaxAttempts && calls == attempt && waits == Backoffs(attempt)
      invariant RateLimitedBefore(req, remote, attempt)
    {
      calls := calls + 1;
      match remote(req, attempt) {
        case Success(r) =>
          RunAfterRateLimits(req, remote, attempt);
          assert waits + [] == waits;
          return Answered(r), calls, waits;
        case OtherError(m) =>
          RunAfterRateLimits(req, remote, attempt);
          assert waits + [] == waits;
          return Raised(m), calls, waits;
        case RateLimited =>
          waits := waits + [Backoff(attempt)];
      }
      attempt := attempt + 1;
    }
    RunAfterRateLimits(req, remote, attempt);
    assert waits + [] == waits;
    result := NoResponse;
  }
}
