/** The inner retry layer (api_caller.py): dispatch on the provider name and
    up to `MaxRetries` attempts with exponential backoff. The provider
    adapters are an oracle: `adapter(n)` is what the n-th call to
    `send_to_llm` would produce if it reached an adapter. Sleeps are recorded
    as the list of delays instead of being slept. */
module ApiCaller {
  import opened Wrappers
  import opened Strings

  const MaxRetries: nat := 3
  const InitialDelay: nat := 1
  const BackoffFactor: nat := 2

  /** The providers `send_to_llm` knows (api_caller.py:41-53). */
  datatype Provider = OpenAI | Gemini | Anthropic | Perplexity | Groq

  function ProviderName(p: Provider): string {
    match p
    case OpenAI => "openai"
    case Gemini => "gemini"
    case Anthropic => "anthropic"
    case Perplexity => "perplexity"
    case Groq => "groq"
  }

  /** The adapter a provider name routes to, if any: the provider of that
      name, and none for any other name. */
  function ProviderOf(name: string): (p: Option<Provider>)
    ensures p.Some? ==> ProviderName(p.value) == name
    ensures forall q :: ProviderName(q) == name ==> p == Some(q)
  {
    if name == "openai" then Some(OpenAI)
    else if name == "gemini" then Some(Gemini)
    else if name == "anthropic" then Some(Anthropic)
    else if name == "perplexity" then Some(Perplexity)
    else if name == "groq" then Some(Groq)
    else None
  }

  /** Exactly the five provider names are routed, each to its own adapter. */
  lemma DispatchExact(name: string)
    ensures ProviderOf(name).Some? <==> exists p :: ProviderName(p) == name
    ensures ProviderOf(name).Some? ==> ProviderName(ProviderOf(name).value) == name
  {
    if ProviderOf(name).None? {
      forall p: Provider
        ensures ProviderName(p) != name
      {
      }
    } else {
      assert ProviderName(ProviderOf(name).value) == name;
    }
  }

  /** What one adapter call produced: an exception, or the returned text. */
  datatype Outcome = Fail | Text(text: string)

  /** `send_to_llm`: an unsupported name raises `ValueError` before any
      adapter is reached, which the caller sees as a failed attempt. */
  function SendToLlm(name: string, adapter: Outcome): (o: Outcome)
    ensures (exists p :: ProviderName(p) == name) ==> o == adapter
    ensures (forall p :: ProviderName(p) != name) ==> o == Fail
  {
    if ProviderOf(name).Some? then adapter else Fail
  }

  /** Attempt `k` of the invocation whose first attempt is call `from`. */
  function Attempt(name: string, adapter: nat -> Outcome, from: nat, k: nat): Outcome {
    SendToLlm(name, adapter(from + k))
  }

  /** An attempt succeeds when it returns text that is not blank
      (api_caller.py:116-117); blank text counts as a failure. */
  predicate Succeeds(o: Outcome) {
    o.Text? && !IsBlank(o.text)
  }

  /** The delay slept after the failure of attempt `k` (0-based): `delay`
      starts at `INITIAL_DELAY` and is multiplied by `BACKOFF_FACTOR` after
      every failure. */
  function Delay(k: nat): nat {
    if k == 0 then InitialDelay else BackoffFactor * Delay(k - 1)
  }

  /** The delays after the failures of attempts `k`, ..., `m - 1`. */
  function DelaysFrom(k: nat, m: nat): seq<nat>
    requires k <= m
    decreases m - k
  {
    if k == m then [] else [Delay(k)] + DelaysFrom(k + 1, m)
  }

  /** One invocation of the wrapper: the text it returns (or `None`), how
      many attempts it made, and the delays it slept, in order. */
  datatype Run = Run(result: Option<string>, calls: nat, sleeps: seq<nat>)

  /** Reference definition, attempt by attempt: attempts `k`, ..., while
      they fail and `k < MaxRetries`; attempt `k` reads `adapter(from + k)`. */
  function Attempts(name: string, adapter: nat -> Outcome, from: nat, k: nat): (run: Run)
    requires k <= MaxRetries
    decreases MaxRetries - k
    ensures |run.sleeps| == if run.result.Some? then run.calls - 1 else run.calls
  {
    if k == MaxRetries then Run(None, 0, [])
    else
      var o := Attempt(name, adapter, from, k);
      if Succeeds(o) then Run(Some(o.text), 1, [])
      else
        var rest := Attempts(name, adapter, from, k + 1);
        Run(rest.result, rest.calls + 1, [Delay(k)] + rest.sleeps)
  }

  /** The sleeps of a run are the backoff delays of its failed attempts, in order. */
  lemma {:induction false} AttemptsSleepBackoff(name: string, adapter: nat -> Outcome, from: nat, k: nat)
    requires k <= MaxRetries
    ensures var run := Attempts(name, adapter, from, k);
            run.sleeps == DelaysFrom(k, k + |run.sleeps|)
    decreases MaxRetries - k
  {
    if k < MaxRetries && !Succeeds(Attempt(name, adapter, from, k)) {
      AttemptsSleepBackoff(name, adapter, from, k + 1);
    }
  }

  /** A run preceded by `n` failed attempts that slept `sleeps`. */
  function After(n: nat, sleeps: seq<nat>, r: Run): Run {
    Run(r.result, r.calls + n, sleeps + r.sleeps)
  }

  lemma {:induction false} DelaysSnoc(k: nat, m: nat)
    requires k <= m
    ensures DelaysFrom(k, m + 1) == DelaysFrom(k, m) + [Delay(m)]
    decreases m - k
  {
    if k < m {
      DelaysSnoc(k + 1, m);
    }
  }

  /** A failed attempt `k` moves into the preceding failures, together
      with its delay. */
  lemma FailedAttemptMoves(name: string, adapter: nat -> Outcome, from: nat, k: nat, sleeps: seq<nat>)
    requires k < MaxRetries
    requires !Succeeds(Attempt(name, adapter, from, k))
    ensures After(k, sleeps, Attempts(name, adapter, from, k))
            == After(k + 1, sleeps + [Delay(k)], Attempts(name, adapter, from, k + 1))
  {
    var rest := Attempts(name, adapter, from, k + 1);
    assert Attempts(name, adapter, from, k) == Run(rest.result, rest.calls + 1, [Delay(k)] + rest.sleeps);
    assert sleeps + ([Delay(k)] + rest.sleeps) == (sleeps + [Delay(k)]) + rest.sleeps;
  }

  /** `generate_content_with_retry` (api_caller.py:108-131): the loop of the
      source, which makes the attempts of the reference definition. */
  method GenerateContentWithRetry(name: string, adapter: nat -> Outcome, from: nat) returns (run: Run)
    ensures run == Attempts(name, adapter, from, 0)
    ensures 1 <= run.calls <= MaxRetries
  {
    var retryCount: nat := 0;
    var delay: nat := InitialDelay;
    var sleeps: seq<nat> := [];
    while retryCount < MaxRetries
      invariant retryCount <= MaxRetries
      invariant delay == Delay(retryCount)
      invariant sleeps == DelaysFrom(0, retryCount)
      invariant Attempts(name, adapter, from, 0) == After(retryCount, sleeps, Attempts(name, adapter, from, retryCount))
    {
      var o := Attempt(name, adapter, from, retryCount);
      if Succeeds(o) {
        return Run(Some(o.text), retryCount + 1, sleeps);
      }
      DelaysSnoc(0, retryCount);
      FailedAttemptMoves(name, adapter, from, retryCount, sleeps);
      sleeps := sleeps + [delay];
      retryCount := retryCount + 1;
      delay := delay * BackoffFactor;
    }
    return Run(None, retryCount, sleeps);
  }

  /** The delays run 1, 2, 4. */
  lemma BackoffDelays()
    ensures DelaysFrom(0, MaxRetries) == [1, 2, 4]
  {
    assert DelaysFrom(3, 3) == [];
    assert DelaysFrom(2, 3) == [4];
    assert DelaysFrom(1, 3) == [2, 4];
  }

  /** Success on attempt `m` after failures since attempt `k`: the text is
      returned unchanged (not stripped), after the delays of the failures
      in between. */
  lemma {:induction false} SuccessAfterFailures(name: string, adapter: nat -> Outcome, from: nat, k: nat, m: nat)
    requires k <= m < MaxRetries
    requires forall j :: k <= j < m ==> !Succeeds(Attempt(name, adapter, from, j))
    requires Succeeds(Attempt(name, adapter, from, m))
    ensures Attempts(name, adapter, from, k)
            == Run(Some(Attempt(name, adapter, from, m).text), m - k + 1, DelaysFrom(k, m))
    decreases m - k
  {
    if k < m {
      assert !Succeeds(Attempt(name, adapter, from, k));
      SuccessAfterFailures(name, adapter, from, k + 1, m);
    }
  }

  /** When every attempt from `k` on fails, the run returns `None` after
      sleeping after every failure, the last one included. */
  lemma {:induction false} AllFail(name: string, adapter: nat -> Outcome, from: nat, k: nat)
    requires k <= MaxRetries
    requires forall j :: k <= j < MaxRetries ==> !Succeeds(Attempt(name, adapter, from, j))
    ensures Attempts(name, adapter, from, k) == Run(None, MaxRetries - k, DelaysFrom(k, MaxRetries))
    decreases MaxRetries - k
  {
    if k < MaxRetries {
      assert !Succeeds(Attempt(name, adapter, from, k));
      AllFail(name, adapter, from, k + 1);
    }
  }

  /** The wrapper returns text exactly when one of its three attempts
      succeeds; what it returns is never blank, and it never makes more
      than three attempts. */
  lemma {:induction false} AttemptsOutcome(name: string, adapter: nat -> Outcome, from: nat, k: nat)
    requires k <= MaxRetries
    ensures var r := Attempts(name, adapter, from, k);
            (r.result.Some? <==> exists j :: k <= j < MaxRetries && Succeeds(Attempt(name, adapter, from, j)))
            && (r.result.Some? ==> !IsBlank(r.result.value))
            && r.calls <= MaxRetries - k
            && (k < MaxRetries ==> r.calls >= 1)
            && (r.result.None? ==> r.calls == MaxRetries - k)
    decreases MaxRetries - k
  {
    if k < MaxRetries {
      AttemptsOutcome(name, adapter, from, k + 1);
      var r := Attempts(name, adapter, from, k + 1);
      if !Succeeds(Attempt(name, adapter, from, k)) && r.result.Some? {
        var j :| k + 1 <= j < MaxRetries && Succeeds(Attempt(name, adapter, from, j));
        assert k <= j;
      }
    }
  }

  /** An unsupported provider name never reaches an adapter: every attempt
      fails, so the wrapper returns `None` after three attempts and the
      delays 1, 2, 4, whatever the adapters would have answered. */
  lemma UnsupportedProviderFails(name: string, adapter: nat -> Outcome, from: nat)
    requires ProviderOf(name).None?
    ensures Attempts(name, adapter, from, 0) == Run(None, 3, [1, 2, 4])
  {
    forall j | 0 <= j < MaxRetries
      ensures !Succeeds(Attempt(name, adapter, from, j))
    {
    }
    AllFail(name, adapter, from, 0);
    BackoffDelays();
  }
}
