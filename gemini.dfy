/**
 * The Gemini client's retry loop (`_call_with_retry` in
 * `lib/gemini_client.py`) and its JSON response cleanup. The SDK call is an
 * oracle `sdk(k)`: what the k-th call (counting from 0) produced. Sleeping is
 * recorded as the list of delays slept, in order.
 */
module Gemini {
  import opened Wrappers
  import opened Text
  import opened Values

  /** What one `generate_content` call produced. */
  datatype SdkResponse =
    | Answer(text: string)
      /** `response.text` is None; `finishReason` is the first candidate's
          finish reason when there is a candidate and its reason is truthy. */
    | NoText(finishReason: Option<string>)
      /** The SDK raised; `message` is `str(e)`. */
    | Raised(message: string)

  /** How the loop ended: with the response text, re-raising an error, or giving up. */
  datatype Outcome = Returned(text: string) | Reraised(error: string) | Exhausted(error: string)

  /** The outcome, the number of SDK calls made and the delays slept. */
  datatype Run = Run(outcome: Outcome, calls: nat, delays: seq<int>)

  /** The error an attempt ends with, as `str(e)`, or None when it produced text. */
  function AttemptError(r: SdkResponse): (e: Option<string>)
    ensures r.Answer? <==> e.None?
    ensures r.NoText? && r.finishReason.Some? ==> e == Some("Response blocked: " + r.finishReason.value)
    ensures r.NoText? && r.finishReason.None? ==> e == Some("Empty response from Gemini")
  {
    match r
    case Answer(_) => None
    case NoText(reason) =>
      Some(if reason.Some? then "Response blocked: " + reason.value else "Empty response from Gemini")
    case Raised(m) => Some(m)
  }

  /** Rate limits and server errors are retried: the message mentions 429, 503 or 500. */
  predicate Retryable(error: string) {
    Contains(error, "429") || Contains(error, "503") || Contains(error, "500")
  }

  function Pow2(k: nat): (r: nat)
    ensures r >= 1
  {
    if k == 0 then 1 else 2 * Pow2(k - 1)
  }

  /** The delays slept after the first `k` attempts when all of them failed retryably. */
  function Backoff(baseDelay: int, k: nat): (ds: seq<int>)
    ensures |ds| == k
    ensures forall i :: 0 <= i < k ==> ds[i] == baseDelay * Pow2(i)
  {
    seq(k, i requires 0 <= i < k => baseDelay * Pow2(i))
  }

  function GiveUpMessage(maxRetries: int, lastError: Option<string>): string {
    "Gemini API failed after " + IntToString(maxRetries) + " attempts: " +
      (if lastError.None? then "None" else lastError.value)
  }

  /**
   * The loop from attempt `attempt` on, having seen `lastError` and slept
   * `delays`: a produced text is returned, a retryable error sleeps
   * `baseDelay * 2^attempt` and goes on, any other error is re-raised, and
   * when the attempts run out the loop gives up naming the last error.
   */
  function RetryFrom(maxRetries: int, baseDelay: int, sdk: nat -> SdkResponse,
                     attempt: nat, lastError: Option<string>, delays: seq<int>): Run
    decreases if attempt < maxRetries then maxRetries - attempt else 0
  {
    if attempt >= maxRetries then Run(Exhausted(GiveUpMessage(maxRetries, lastError)), attempt, delays)
    else
      var response := sdk(attempt);
      match AttemptError(response)
      case None => Run(Returned(response.text), attempt + 1, delays)
      case Some(e) =>
        if Retryable(e) then
          RetryFrom(maxRetries, baseDelay, sdk, attempt + 1, Some(e), delays + [baseDelay * Pow2(attempt)])
        else Run(Reraised(e), attempt + 1, delays)
  }

  /** `_call_with_retry`. */
  method CallWithRetry(maxRetries: int, baseDelay: int, sdk: nat -> SdkResponse)
    returns (outcome: Outcome, calls: nat, delays: seq<int>)
    ensures Run(outcome, calls, delays) == RetryFrom(maxRetries, baseDelay, sdk, 0, None, [])
  {
    var lastError: Option<string> := None;
    delays := [];
    var attempt: nat := 0;
    while attempt < maxRetries
      invariant RetryFrom(maxRetries, baseDelay, sdk, attempt, lastError, delays)
             == RetryFrom(maxRetries, baseDelay, sdk, 0, None, [])
      decreases maxRetries - attempt
    {
      var response := sdk(attempt);
      var error := AttemptError(response);
      if error.None? {
        return Returned(response.text), attempt + 1, delays;
      }
      lastError := error;
      if Retryable(error.value) {
        delays := delays + [baseDelay * Pow2(attempt)];
        attempt := attempt + 1;
      } else {
        return Reraised(error.value), attempt + 1, delays;
      }
    }
    return Exhausted(GiveUpMessage(maxRetries, lastError)), attempt, delays;
  }

  // ---------------------------------------------------------------------------
  // Properties of the loop

  /** Attempts `from` up to `to` (exclusive) all ended in retryable errors. */
  predicate RetryableBetween(sdk: nat -> SdkResponse, from: nat, to: nat) {
    forall j :: from <= j < to ==> AttemptError(sdk(j)).Some? && Retryable(AttemptError(sdk(j)).value)
  }

  /**
   * Skipping over a run of retryable failures: the loop reaches attempt `k`
   * remembering the last of them and having slept the doubling delays for each.
   */
  lemma {:induction false} SkipRetryable(maxRetries: int, baseDelay: int, sdk: nat -> SdkResponse,
                                         a: nat, k: nat, lastError: Option<string>)
    requires a <= k && k <= maxRetries
    requires RetryableBetween(sdk, a, k)
    ensures RetryFrom(maxRetries, baseDelay, sdk, a, lastError, Backoff(baseDelay, a)) ==
      RetryFrom(maxRetries, baseDelay, sdk, k, if a == k then lastError else AttemptError(sdk(k - 1)),
                Backoff(baseDelay, k))
    decreases k - a
  {
    if a < k {
      var e := AttemptError(sdk(a));
      assert Backoff(baseDelay, a) + [baseDelay * Pow2(a)] == Backoff(baseDelay, a + 1);
      SkipRetryable(maxRetries, baseDelay, sdk, a + 1, k, e);
    }
  }

  lemma ReachAttempt(maxRetries: int, baseDelay: int, sdk: nat -> SdkResponse, k: nat)
    requires k <= maxRetries
    requires RetryableBetween(sdk, 0, k)
    ensures RetryFrom(maxRetries, baseDelay, sdk, 0, None, []) ==
      RetryFrom(maxRetries, baseDelay, sdk, k, if k == 0 then None else AttemptError(sdk(k - 1)),
                Backoff(baseDelay, k))
  {
    assert Backoff(baseDelay, 0) == [];
    SkipRetryable(maxRetries, baseDelay, sdk, 0, k, None);
  }

  /**
   * After retryable failures on attempts 0..k-1, attempt k decides: a text is
   * returned and an error that is not retryable is re-raised, each after k + 1
   * calls and the k doubling delays.
   */
  lemma AttemptDecides(maxRetries: int, baseDelay: int, sdk: nat -> SdkResponse, k: nat)
    requires k < maxRetries
    requires RetryableBetween(sdk, 0, k)
    ensures var run := RetryFrom(maxRetries, baseDelay, sdk, 0, None, []);
      var e := AttemptError(sdk(k));
      (e.None? ==> run == Run(Returned(sdk(k).text), k + 1, Backoff(baseDelay, k))) &&
      (e.Some? && !Retryable(e.value) ==> run == Run(Reraised(e.value), k + 1, Backoff(baseDelay, k)))
  {
    ReachAttempt(maxRetries, baseDelay, sdk, k);
  }

  /**
   * When every attempt fails retryably the loop makes exactly `maxRetries`
   * calls, sleeps after each of them (the last one included), and gives up
   * with a message naming `maxRetries` and the last error.
   */
  lemma AllRetryableExhausts(maxRetries: int, baseDelay: int, sdk: nat -> SdkResponse)
    requires maxRetries >= 1
    requires RetryableBetween(sdk, 0, maxRetries)
    ensures RetryFrom(maxRetries, baseDelay, sdk, 0, None, []) ==
      Run(Exhausted("Gemini API failed after " + IntToString(maxRetries) + " attempts: " +
                    AttemptError(sdk(maxRetries - 1)).value),
          maxRetries, Backoff(baseDelay, maxRetries))
  {
    ReachAttempt(maxRetries, baseDelay, sdk, maxRetries);
  }

  /** With no attempts allowed the loop never calls the SDK and gives up naming "None". */
  lemma NoAttempts(maxRetries: int, baseDelay: int, sdk: nat -> SdkResponse)
    requires maxRetries <= 0
    ensures RetryFrom(maxRetries, baseDelay, sdk, 0, None, []) ==
      Run(Exhausted("Gemini API failed after " + IntToString(maxRetries) + " attempts: " + "None"), 0, [])
  {
  }

  /**
   * Whatever the SDK does, the loop makes at most `maxRetries` calls, sleeps
   * only after failed calls, and the k-th delay is `baseDelay * 2^k`.
   */
  lemma {:induction false} RetryBounds(maxRetries: int, baseDelay: int, sdk: nat -> SdkResponse,
                                       a: nat, lastError: Option<string>)
    requires a <= maxRetries || a == 0
    ensures var run := RetryFrom(maxRetries, baseDelay, sdk, a, lastError, Backoff(baseDelay, a));
      a <= run.calls && run.calls <= (if maxRetries < 0 then 0 else maxRetries) &&
      run.delays == Backoff(baseDelay, |run.delays|) &&
      (run.outcome.Exhausted? ==> |run.delays| == run.calls) &&
      (!run.outcome.Exhausted? ==> |run.delays| == run.calls - 1)
    decreases if a < maxRetries then maxRetries - a else 0
  {
    if a < maxRetries {
      var e := AttemptError(sdk(a));
      if e.Some? && Retryable(e.value) {
        assert Backoff(baseDelay, a) + [baseDelay * Pow2(a)] == Backoff(baseDelay, a + 1);
        RetryBounds(maxRetries, baseDelay, sdk, a + 1, e);
      }
    }
  }

  /** Consecutive delays double. */
  lemma BackoffDoubles(baseDelay: int, k: nat, i: nat)
    requires i + 1 < k
    ensures Backoff(baseDelay, k)[i + 1] == 2 * Backoff(baseDelay, k)[i]
  {
  }

  /** Text without digits contains none of the retryable status codes. */
  lemma {:induction false} NoDigitsNoCode(s: string, code: string)
    requires forall i :: 0 <= i < |s| ==> !IsDigit(s[i])
    requires code != [] && IsDigit(code[0])
    ensures !Contains(s, code)
    decreases |s|
  {
    if s != [] {
      NoDigitsNoCode(s[1..], code);
    }
  }

  /** A code that starts with a digit, found after a digit-free prefix, lies inside the rest. */
  lemma {:induction false} CodeAfterDigitFree(a: string, b: string, code: string)
    requires forall i :: 0 <= i < |a| ==> !IsDigit(a[i])
    requires code != [] && IsDigit(code[0])
    requires Contains(a + b, code)
    ensures Contains(b, code)
    decreases |a|
  {
    if a == [] {
      assert a + b == b;
    } else {
      assert (a + b)[0] == a[0];
      assert (a + b)[1..] == a[1..] + b;
      CodeAfterDigitFree(a[1..], b, code);
    }
  }

  /**
   * An empty response is never retried; a blocked response is retried
   * exactly when its finish reason mentions one of the codes.
   */
  lemma MissingTextClassification(reason: string)
    ensures !Retryable("Empty response from Gemini")
    ensures Retryable("Response blocked: " + reason) <==> Retryable(reason)
  {
    var empty := "Empty response from Gemini";
    var prefix := "Response blocked: ";
    assert forall i :: 0 <= i < |empty| ==> !IsDigit(empty[i]);
    assert forall i :: 0 <= i < |prefix| ==> !IsDigit(prefix[i]);
    NoDigitsNoCode(empty, "429");
    NoDigitsNoCode(empty, "503");
    NoDigitsNoCode(empty, "500");
    if Retryable(prefix + reason) {
      if Contains(prefix + reason, "429") {
        CodeAfterDigitFree(prefix, reason, "429");
      } else if Contains(prefix + reason, "503") {
        CodeAfterDigitFree(prefix, reason, "503");
      } else {
        CodeAfterDigitFree(prefix, reason, "500");
      }
    }
    if Contains(reason, "429") {
      ContainsInRight(prefix, reason, "429");
    } else if Contains(reason, "503") {
      ContainsInRight(prefix, reason, "503");
    } else if Contains(reason, "500") {
      ContainsInRight(prefix, reason, "500");
    }
  }

  // ---------------------------------------------------------------------------
  // parse_json_response

  /** The response with any code fence removed, handed to the JSON decoder (an oracle). */
  function ParseJsonResponse(response: string, decode: string -> Result<Value>): Result<Value> {
    decode(StripCodeFences(response))
  }

  /** A fenced JSON body is decoded exactly as the bare body would be. */
  lemma ParseFencedJson(lang: string, body: string, decode: string -> Result<Value>)
    requires '\n' !in lang
    ensures ParseJsonResponse(Fence + lang + "\n" + body + "\n" + Fence, decode) == decode(body)
  {
    FencedRoundTrip(lang, body);
  }
}
