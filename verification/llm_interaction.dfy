/** The outer retry layer (llm_interaction.py): the configuration and
    credential lookups, the loop that asks the inner wrapper again while a
    reply lacks the `<<` / `>>` markers, and the option line of
    `config.txt`: the pattern `FlexibleConfigParser` writes, and configparser's
    default pattern, which is the one applied. The environment and
    `config.txt` are passed in as maps; the provider is the oracle of
    `ApiCaller`. */
module LlmInteraction {
  import opened Wrappers
  import opened Strings
  import opened ApiCaller
  import ProjectInputs

  /** `config.txt` as configparser holds it: section name to options, the
      option names lower-cased. */
  type Config = map<string, map<string, string>>

  /** The exceptions raised before any provider call. */
  datatype SetupError =
    | MissingSection(section: string)
    | MissingOption(section: string, option: string)
    | MissingApiKey(variable: string)

  /** `config[section][option]`: a missing section or option raises
      `KeyError`; configparser lower-cases the option name it looks up. */
  function Setting(config: Config, section: string, option: string): (r: Result<string, SetupError>)
    ensures r.Ok? <==> section in config && Lower(option) in config[section]
    ensures r.Ok? ==> r.value == config[section][Lower(option)]
    ensures r.Err? ==> r.error == if section in config then MissingOption(section, option) else MissingSection(section)
  {
    if section !in config then Err(MissingSection(section))
    else if Lower(option) !in config[section] then Err(MissingOption(section, option))
    else Ok(config[section][Lower(option)])
  }

  /** The name of the credential variable (llm_interaction.py:40): the
      provider name upper-cased, character by character, then `_API_KEY`. */
  function ApiKeyVariable(llm: string): (v: string)
    ensures |v| == |llm| + 8
    ensures v[|llm|..] == "_API_KEY"
    ensures forall i :: 0 <= i < |llm| ==> v[i] == UpperChar(llm[i])
  {
    Upper(llm) + "_API_KEY"
  }

  /** Two provider names that differ only in letter case share a credential variable. */
  lemma {:induction false} KeyVariableIgnoresCase(a: string, b: string)
    requires |a| == |b| && forall i :: 0 <= i < |a| ==> UpperChar(a[i]) == UpperChar(b[i])
    ensures ApiKeyVariable(a) == ApiKeyVariable(b)
  {
    var va, vb := ApiKeyVariable(a), ApiKeyVariable(b);
    assert va[..|a|] == vb[..|b|];
    assert va == va[..|a|] + va[|a|..] && vb == vb[..|b|] + vb[|b|..];
  }

  /** The sections and the option the wrapper reads (llm_interaction.py:36-37). */
  const Preferences: string := "Preferences"
  const Models: string := "Models"
  const PreferredLlm: string := "preferred_llm"

  /** What the wrapper reads before its loop (llm_interaction.py:36-42). */
  datatype Setup = Setup(llm: string, model: string, apiKey: string)

  /** The provider name, its model and its key, in the order the source
      reads them; an unset or empty key variable raises `ValueError`. */
  function ReadSetup(config: Config, env: map<string, string>): (r: Result<Setup, SetupError>)
    ensures r.Ok? ==> Setting(config, Preferences, PreferredLlm) == Ok(r.value.llm)
                      && Setting(config, Models, r.value.llm) == Ok(r.value.model)
                      && ApiKeyVariable(r.value.llm) in env && env[ApiKeyVariable(r.value.llm)] == r.value.apiKey
                      && r.value.apiKey != ""
    ensures Setting(config, Preferences, PreferredLlm).Err? ==> r.Err? && !r.error.MissingApiKey? && r.error.section == Preferences
    ensures r.Err? && r.error.MissingApiKey? ==> Setting(config, Preferences, PreferredLlm).Ok?
  {
    match Setting(config, Preferences, PreferredLlm)
    case Err(e) => Err(e)
    case Ok(llm) =>
      match Setting(config, Models, llm)
      case Err(e) => Err(e)
      case Ok(model) =>
        var v := ApiKeyVariable(llm);
        if v !in env || env[v] == "" then Err(MissingApiKey(v))
        else Ok(Setup(llm, model, env[v]))
  }

  /** The credential check: with the configuration present, the wrapper
      fails with `MissingApiKey` exactly when the key variable is unset or
      empty, before any provider call; otherwise it runs the rounds for the
      configured provider. */
  lemma MissingKeyRaises(config: Config, env: map<string, string>, llm: string, check: bool, maxRetries: int, adapter: nat -> Outcome)
    requires Setting(config, Preferences, PreferredLlm) == Ok(llm)
    requires Setting(config, Models, llm).Ok?
    ensures ResponseWithRetry(config, env, check, maxRetries, adapter)
            == if ApiKeyVariable(llm) !in env || env[ApiKeyVariable(llm)] == "" then Err(MissingApiKey(ApiKeyVariable(llm)))
               else Ok(Rounds(llm, adapter, check, maxRetries, 0, 0))
  {
    var v := ApiKeyVariable(llm);
    var model := Setting(config, Models, llm).value;
    assert ReadSetup(config, env) == if v !in env || env[v] == "" then Err(MissingApiKey(v)) else Ok(Setup(llm, model, env[v]));
  }

  /** Both marker halves occur in the text (llm_interaction.py:49). */
  predicate HasMarkers(s: string) {
    Contains(s, "<<") && Contains(s, ">>")
  }

  /** Whether the outer loop returns what the wrapper gave: always without
      the marker check, and with it unless the text is non-empty and lacks
      `<<` or `>>` (a falsy response skips the check). */
  predicate Accepted(check: bool, r: Option<string>) {
    !(check && r.Some? && r.value != "" && !HasMarkers(r.value))
  }

  /** The outer loop's result: the text returned (or `None`), how many
      outer attempts ran, and the adapter calls and delays of all of them. */
  datatype Response = Response(result: Option<string>, rounds: nat, calls: nat, sleeps: seq<nat>)

  /** Reference definition, round by round: outer attempt `attempt`, whose
      wrapper invocation starts at adapter call `from`. */
  function Rounds(llm: string, adapter: nat -> Outcome, check: bool, maxRetries: int, attempt: nat, from: nat): (r: Response)
    decreases maxRetries - attempt
    ensures |r.sleeps| <= r.calls
    ensures r.result.Some? ==> |r.sleeps| < r.calls
  {
    if attempt >= maxRetries then Response(None, 0, 0, [])
    else
      var inner := Attempts(llm, adapter, from, 0);
      if Accepted(check, inner.result) then Response(inner.result, 1, inner.calls, inner.sleeps)
      else
        var rest := Rounds(llm, adapter, check, maxRetries, attempt + 1, from + inner.calls);
        Response(rest.result, rest.rounds + 1, inner.calls + rest.calls, inner.sleeps + rest.sleeps)
  }

  /** `get_response_with_retry` as a function of its inputs. */
  function ResponseWithRetry(config: Config, env: map<string, string>, check: bool, maxRetries: int, adapter: nat -> Outcome): Result<Response, SetupError> {
    match ReadSetup(config, env)
    case Err(e) => Err(e)
    case Ok(setup) => Ok(Rounds(setup.llm, adapter, check, maxRetries, 0, 0))
  }

  /** A response preceded by `n` rejected rounds that made `calls` adapter
      calls and slept `sleeps`. */
  function Behind(n: nat, calls: nat, sleeps: seq<nat>, r: Response): Response {
    Response(r.result, r.rounds + n, r.calls + calls, sleeps + r.sleeps)
  }

  /** The loop's state after `attempt` rejected rounds: the whole response
      is what the remaining rounds give, behind those already made. */
  predicate Resumes(whole: Response, llm: string, adapter: nat -> Outcome, check: bool, maxRetries: int,
                    attempt: nat, calls: nat, sleeps: seq<nat>) {
    whole == Behind(attempt, calls, sleeps, Rounds(llm, adapter, check, maxRetries, attempt, calls))
  }

  /** A rejected round is followed by the rounds from the next attempt on,
      whose first wrapper invocation starts at call `from'`. */
  lemma RoundsAfterRejected(llm: string, adapter: nat -> Outcome, check: bool, maxRetries: int,
                            attempt: nat, from: nat, inner: Run, attempt': nat, from': nat)
    requires attempt < maxRetries && inner == Attempts(llm, adapter, from, 0)
    requires !Accepted(check, inner.result)
    requires attempt' == attempt + 1 && from' == from + inner.calls
    ensures Rounds(llm, adapter, check, maxRetries, attempt, from)
            == Behind(1, inner.calls, inner.sleeps, Rounds(llm, adapter, check, maxRetries, attempt', from'))
  {
    var rest := Rounds(llm, adapter, check, maxRetries, attempt', from');
    var whole := Response(rest.result, rest.rounds + 1, inner.calls + rest.calls, inner.sleeps + rest.sleeps);
    assert Rounds(llm, adapter, check, maxRetries, attempt, from) == whole;
    assert Behind(1, inner.calls, inner.sleeps, rest) == whole;
  }

  /** A round whose wrapper result is accepted ends the loop with it. */
  lemma RoundAccepted(whole: Response, llm: string, adapter: nat -> Outcome, check: bool, maxRetries: int,
                      attempt: nat, calls: nat, sleeps: seq<nat>, inner: Run)
    requires attempt < maxRetries && inner == Attempts(llm, adapter, calls, 0)
    requires Resumes(whole, llm, adapter, check, maxRetries, attempt, calls, sleeps)
    requires Accepted(check, inner.result)
    ensures whole == Response(inner.result, attempt + 1, calls + inner.calls, sleeps + inner.sleeps)
  {
  }

  /** A rejected round is followed by the next one. */
  lemma RoundRejected(whole: Response, llm: string, adapter: nat -> Outcome, check: bool, maxRetries: int,
                      attempt: nat, calls: nat, sleeps: seq<nat>, inner: Run,
                      attempt': nat, calls': nat, sleeps': seq<nat>)
    requires attempt < maxRetries && inner == Attempts(llm, adapter, calls, 0)
    requires Resumes(whole, llm, adapter, check, maxRetries, attempt, calls, sleeps)
    requires !Accepted(check, inner.result)
    requires attempt' == attempt + 1 && calls' == calls + inner.calls && sleeps' == sleeps + inner.sleeps
    ensures Resumes(whole, llm, adapter, check, maxRetries, attempt', calls', sleeps')
  {
    var next := Rounds(llm, adapter, check, maxRetries, attempt', calls');
    RoundsAfterRejected(llm, adapter, check, maxRetries, attempt, calls, inner, attempt', calls');
    ConcatAssoc(sleeps, inner.sleeps, next.sleeps);
  }

  /** Once no outer attempt is left, the result is `None`. */
  lemma RoundsExhausted(whole: Response, llm: string, adapter: nat -> Outcome, check: bool, maxRetries: int,
                        attempt: nat, calls: nat, sleeps: seq<nat>)
    requires attempt >= maxRetries
    requires Resumes(whole, llm, adapter, check, maxRetries, attempt, calls, sleeps)
    ensures whole == Response(None, attempt, calls, sleeps)
  {
    assert sleeps + [] == sleeps;
  }

  /** The loop of `get_response_with_retry` (llm_interaction.py:44-61) once
      the provider is known. The `except` branch is left out: the wrapper it
      guards never raises. */
  method RetryRounds(llm: string, adapter: nat -> Outcome, check: bool, maxRetries: int) returns (r: Response)
    ensures r == Rounds(llm, adapter, check, maxRetries, 0, 0)
  {
    ghost var whole := Rounds(llm, adapter, check, maxRetries, 0, 0);
    var attempt: nat := 0;
    var calls: nat := 0;
    var sleeps: seq<nat> := [];
    assert Resumes(whole, llm, adapter, check, maxRetries, attempt, calls, sleeps) by {
      assert [] + whole.sleeps == whole.sleeps;
    }
    while attempt < maxRetries
      invariant Resumes(whole, llm, adapter, check, maxRetries, attempt, calls, sleeps)
      decreases maxRetries - attempt
    {
      var inner := GenerateContentWithRetry(llm, adapter, calls);
      var response := inner.result;
      if check && response.Some? && response.value != "" && !HasMarkers(response.value) {
        // Marker-less text: another outer attempt.
        ghost var attempt0, calls0, sleeps0 := attempt, calls, sleeps;
        attempt, calls, sleeps := attempt + 1, calls + inner.calls, sleeps + inner.sleeps;
        RoundRejected(whole, llm, adapter, check, maxRetries, attempt0, calls0, sleeps0, inner, attempt, calls, sleeps);
      } else {
        RoundAccepted(whole, llm, adapter, check, maxRetries, attempt, calls, sleeps, inner);
        return Response(response, attempt + 1, calls + inner.calls, sleeps + inner.sleeps);
      }
    }
    RoundsExhausted(whole, llm, adapter, check, maxRetries, attempt, calls, sleeps);
    return Response(None, attempt, calls, sleeps);
  }

  /** `get_response_with_retry` (llm_interaction.py:35-61): read the
      configuration and the key, then run the rounds. */
  method GetResponseWithRetry(config: Config, env: map<string, string>, check: bool, maxRetries: int, adapter: nat -> Outcome)
    returns (r: Result<Response, SetupError>)
    ensures r == ResponseWithRetry(config, env, check, maxRetries, adapter)
  {
    var setup := ReadSetup(config, env);
    if setup.Err? {
      return Err(setup.error);
    }
    var response := RetryRounds(setup.value.llm, adapter, check, maxRetries);
    return Ok(response);
  }

  /** `get_llm_response` (llm_interaction.py:31-33): the language is not
      used, and the marker flag and retry count are passed on unchanged. */
  method GetLlmResponse(config: Config, env: map<string, string>, language: string, includeMarkers: bool, maxRetries: int, adapter: nat -> Outcome)
    returns (r: Result<Response, SetupError>)
    ensures r == ResponseWithRetry(config, env, includeMarkers, maxRetries, adapter)
  {
    r := GetResponseWithRetry(config, env, includeMarkers, maxRetries, adapter);
  }

  /** At most `maxRetries` outer attempts, at least one when any is
      allowed, and between one and three adapter calls for each. */
  lemma {:induction false} RoundBounds(llm: string, adapter: nat -> Outcome, check: bool, maxRetries: int, attempt: nat, from: nat)
    ensures var r := Rounds(llm, adapter, check, maxRetries, attempt, from);
            (attempt >= maxRetries ==> r.rounds == 0)
            && (attempt < maxRetries ==> 1 <= r.rounds <= maxRetries - attempt)
            && r.rounds <= r.calls <= MaxRetries * r.rounds
    decreases maxRetries - attempt
  {
    if attempt < maxRetries {
      AttemptsOutcome(llm, adapter, from, 0);
      var inner := Attempts(llm, adapter, from, 0);
      if !Accepted(check, inner.result) {
        var attempt', from' := attempt + 1, from + inner.calls;
        RoundsAfterRejected(llm, adapter, check, maxRetries, attempt, from, inner, attempt', from');
        RoundBounds(llm, adapter, check, maxRetries, attempt', from');
      }
    }
  }

  /** With the marker check on, a returned text holds both `<<` and `>>`:
      a marker-less text is never kept. Whatever is returned is not blank. */
  lemma {:induction false} ReturnedTextHasMarkers(llm: string, adapter: nat -> Outcome, check: bool, maxRetries: int, attempt: nat, from: nat)
    ensures var r := Rounds(llm, adapter, check, maxRetries, attempt, from);
            r.result.Some? ==> !IsBlank(r.result.value) && (check ==> HasMarkers(r.result.value))
    decreases maxRetries - attempt
  {
    if attempt < maxRetries {
      AttemptsOutcome(llm, adapter, from, 0);
      var inner := Attempts(llm, adapter, from, 0);
      if !Accepted(check, inner.result) {
        var attempt', from' := attempt + 1, from + inner.calls;
        RoundsAfterRejected(llm, adapter, check, maxRetries, attempt, from, inner, attempt', from');
        ReturnedTextHasMarkers(llm, adapter, check, maxRetries, attempt', from');
      }
    }
  }

  /** A `None` from the wrapper ends the outer loop at once: the marker
      check is skipped for it and it is returned. */
  lemma InnerNoneIsReturned(llm: string, adapter: nat -> Outcome, check: bool, maxRetries: int, attempt: nat, from: nat)
    requires attempt < maxRetries
    requires Attempts(llm, adapter, from, 0).result.None?
    ensures Rounds(llm, adapter, check, maxRetries, attempt, from).result.None?
    ensures Rounds(llm, adapter, check, maxRetries, attempt, from).rounds == 1
  {
  }

  /** Without the marker check the first wrapper result is returned as it
      is, after one outer attempt. */
  lemma FirstResultWithoutCheck(llm: string, adapter: nat -> Outcome, maxRetries: int, attempt: nat, from: nat)
    requires attempt < maxRetries
    ensures Rounds(llm, adapter, false, maxRetries, attempt, from).result == Attempts(llm, adapter, from, 0).result
    ensures Rounds(llm, adapter, false, maxRetries, attempt, from).rounds == 1
  {
  }

  /** A provider that never writes both markers gets `None` from the
      checked loop, however many outer attempts are allowed. */
  lemma MarkerlessProviderGetsNothing(llm: string, adapter: nat -> Outcome, maxRetries: int, attempt: nat, from: nat)
    requires forall n :: adapter(n).Text? ==> !HasMarkers(adapter(n).text)
    ensures Rounds(llm, adapter, true, maxRetries, attempt, from).result.None?
  {
    var r := Rounds(llm, adapter, true, maxRetries, attempt, from);
    ReturnedTextHasMarkers(llm, adapter, true, maxRetries, attempt, from);
    if r.result.Some? {
      TextComesFromAdapter(llm, adapter, true, maxRetries, attempt, from);
    }
  }

  /** Any text the loop returns is one the adapters returned. */
  lemma {:induction false} TextComesFromAdapter(llm: string, adapter: nat -> Outcome, check: bool, maxRetries: int, attempt: nat, from: nat)
    ensures var r := Rounds(llm, adapter, check, maxRetries, attempt, from);
            r.result.Some? ==> exists n :: adapter(n) == Text(r.result.value)
    decreases maxRetries - attempt
  {
    if attempt < maxRetries {
      var inner := Attempts(llm, adapter, from, 0);
      if Accepted(check, inner.result) {
        if inner.result.Some? {
          InnerTextFromAdapter(llm, adapter, from, 0);
        }
      } else {
        var attempt', from' := attempt + 1, from + inner.calls;
        RoundsAfterRejected(llm, adapter, check, maxRetries, attempt, from, inner, attempt', from');
        TextComesFromAdapter(llm, adapter, check, maxRetries, attempt', from');
      }
    }
  }

  lemma {:induction false} InnerTextFromAdapter(llm: string, adapter: nat -> Outcome, from: nat, k: nat)
    requires k <= MaxRetries
    ensures var r := Attempts(llm, adapter, from, k);
            r.result.Some? ==> adapter(from + r.calls + k - 1) == Text(r.result.value)
    decreases MaxRetries - k
  {
    if k < MaxRetries && !Succeeds(Attempt(llm, adapter, from, k)) {
      InnerTextFromAdapter(llm, adapter, from, k + 1);
    }
  }

  // ---------------------------------------------------------------------------
  // The option pattern FlexibleConfigParser writes (llm_interaction.py:20-24).
  // It never takes effect; `DefaultPatternAgrees` below shows that the pattern
  // applied instead splits every line the same way.

  predicate IsDelimiter(c: char) {
    c == ':' || c == '='
  }

  /** The index of the first `:` or `=`, or -1. */
  function FirstDelimiter(s: string): (r: int)
    ensures r == -1 ==> forall i :: 0 <= i < |s| ==> !IsDelimiter(s[i])
    ensures r >= 0 ==> r < |s| && IsDelimiter(s[r]) && forall i :: 0 <= i < r ==> !IsDelimiter(s[i])
  {
    if s == [] then -1
    else if IsDelimiter(s[0]) then 0
    else
      var r := FirstDelimiter(s[1..]);
      if r < 0 then -1 else r + 1
  }

  /** The pattern `[^:=\s][^:=]*\s*[:=]\s*(.*)$` written at
      llm_interaction.py:20-24 (and never consulted), matched against one line,
      with the strips configparser applies to the groups: the option name
      (right-stripped, then lower-cased by configparser when stored), the
      delimiter, and the stripped value. */
  function MatchOption(line: string): (r: Option<(string, char, string)>)
    requires '\n' !in line
    ensures r.Some? <==> line != [] && !IsSpace(line[0]) && !IsDelimiter(line[0]) && FirstDelimiter(line) >= 0
    ensures r.Some? ==> r.value.0 != [] && ':' !in r.value.0 && '=' !in r.value.0
                        && IsDelimiter(r.value.1) && IsStripped(r.value.2)
  {
    if line == [] || IsSpace(line[0]) || IsDelimiter(line[0]) then None
    else
      var i := FirstDelimiter(line);
      if i < 0 then None
      else
        var option := line[..i];
        assert !AllSpace(option) by {
          assert option[0] == line[0];
        }
        ProjectInputs.StripStaysInside(option, ':');
        ProjectInputs.StripStaysInside(option, '=');
        Some((Strip(option), line[i], Strip(line[i + 1..])))
  }

  lemma {:induction false} FirstDelimiterIs(s: string, k: int)
    requires 0 <= k < |s| && IsDelimiter(s[k])
    requires forall i :: 0 <= i < k ==> !IsDelimiter(s[i])
    ensures FirstDelimiter(s) == k
    decreases k
  {
    if k > 0 {
      assert !IsDelimiter(s[0]);
      FirstDelimiterIs(s[1..], k - 1);
    }
  }

  /** On a line whose only delimiters are `=`, the option pattern (and so
      configparser, by `DefaultPatternAgrees`) and the params-file reader of
      main.py agree on the key and the value. */
  lemma OptionAgreesWithParams(line: string)
    requires '\n' !in line && ':' !in line && '=' in line
    requires !IsSpace(line[0]) && line[0] != '='
    ensures MatchOption(line).Some? && ProjectInputs.ParamOf(line).Some?
    ensures MatchOption(line).value == (ProjectInputs.ParamOf(line).value.0, '=', ProjectInputs.ParamOf(line).value.1)
  {
    var i := FirstDelimiter(line);
    assert i >= 0 by {
      var j :| 0 <= j < |line| && line[j] == '=';
      assert IsDelimiter(line[j]);
    }
    assert '=' !in line[..i] by {
      forall m | 0 <= m < i
        ensures line[..i][m] != '='
      {
        assert !IsDelimiter(line[m]);
      }
    }
    ProjectInputs.IndexOfCharIs(line, '=', i);
    ProjectInputs.ParamOfIsRawSplit(line);
  }

  lemma ParamOfAt(line: string, e: int)
    requires 0 <= e < |line| && IndexOfChar(line, '=') == e
    ensures ProjectInputs.ParamOf(line) == Some((Strip(line[..e]), Strip(line[e + 1..])))
  {
    ProjectInputs.ParamOfIsRawSplit(line);
  }

  lemma MatchOptionAt(line: string, i: int)
    requires '\n' !in line && line != [] && !IsSpace(line[0]) && !IsDelimiter(line[0])
    requires 0 <= i < |line| && FirstDelimiter(line) == i
    ensures MatchOption(line) == Some((Strip(line[..i]), line[i], Strip(line[i + 1..])))
  {
  }

  /** The line `k:v=w` built from delimiter-free `k` and `v`. */
  lemma ColonLineShape(k: string, v: string, w: string, line: string)
    requires line == k + ":" + v + "=" + w
    requires forall i :: 0 <= i < |k| ==> !IsDelimiter(k[i]) && k[i] != '\n'
    requires forall i :: 0 <= i < |v| ==> !IsDelimiter(v[i]) && v[i] != '\n'
    requires '\n' !in w
    ensures '\n' !in line
    ensures line[|k|] == ':' && line[|k| + 1 + |v|] == '='
    ensures forall i :: 0 <= i < |k| ==> !IsDelimiter(line[i])
    ensures forall i :: 0 <= i < |k| + 1 + |v| ==> line[i] != '='
  {
    forall i | 0 <= i < |line|
      ensures line[i] != '\n' && (i < |k| ==> !IsDelimiter(line[i])) && (i < |k| + 1 + |v| ==> line[i] != '=')
    {
      if i < |k| {
        assert line[i] == k[i];
      } else if i == |k| || i == |k| + 1 + |v| {
      } else if i < |k| + 1 + |v| {
        assert line[i] == v[i - |k| - 1];
      } else {
        assert line[i] == w[i - |k| - 2 - |v|];
      }
    }
  }

  /** The config option pattern and the params-file reader differ once a
      `:` comes before an `=`: the option pattern (like configparser's default
      one, by `DefaultPatternAgrees`) splits at the `:`, the params reader at
      the `=`. */
  lemma ColonBeforeEquals(k: string, v: string, w: string)
    requires k != [] && !IsSpace(k[0])
    requires forall i :: 0 <= i < |k| ==> !IsDelimiter(k[i]) && k[i] != '\n'
    requires forall i :: 0 <= i < |v| ==> !IsDelimiter(v[i]) && v[i] != '\n'
    requires '\n' !in w
    ensures var line := k + ":" + v + "=" + w;
            MatchOption(line) == Some((Strip(k), ':', Strip(v + "=" + w)))
            && ProjectInputs.ParamOf(line) == Some((Strip(k + ":" + v), Strip(w)))
  {
    var line := k + ":" + v + "=" + w;
    var e := |k| + 1 + |v|;
    ColonLineShape(k, v, w, line);
    assert line[..|k|] == k && line[|k| + 1..] == v + "=" + w;
    assert line[..e] == k + ":" + v && line[e + 1..] == w;
    FirstDelimiterIs(line, |k|);
    assert IndexOfChar(line, '=') == e by {
      assert '=' !in line[..e] by {
        forall i | 0 <= i < e
          ensures line[..e][i] != '='
        {
        }
      }
      ProjectInputs.IndexOfCharIs(line, '=', e);
    }
    ParamOfAt(line, e);
    MatchOptionAt(line, |k|);
  }

  // ---------------------------------------------------------------------------
  // The option pattern configparser applies. `RawConfigParser.__init__` binds
  // its `_optcre` to the class's default `OPTCRE` before llm_interaction.py:20
  // assigns the instance attribute, so every line is matched by the default
  // pattern `(?P<option>.*?)\s*(?P<vi>=|:)\s*(?P<value>.*)$`, applied to the
  // stripped line.

  /** Where `\s*(=|:)` matches from index `q`: the index of the delimiter,
      reached over whitespace only, or -1. */
  function DelimAfterSpace(s: string, q: nat): (d: int)
    requires q <= |s|
    ensures d == -1 || (q <= d < |s| && IsDelimiter(s[d]) && forall i :: q <= i < d ==> IsSpace(s[i]))
    decreases |s| - q
  {
    if q == |s| then -1
    else if IsDelimiter(s[q]) then q
    else if IsSpace(s[q]) then DelimAfterSpace(s, q + 1)
    else -1
  }

  /** The lazy group `(?P<option>.*?)`: the shortest length, from `p` on,
      after which `\s*(=|:)` matches, or -1 when there is none. */
  function LazyOption(s: string, p: nat): (r: int)
    requires p <= |s|
    ensures r == -1 || (p <= r <= |s| && DelimAfterSpace(s, r) >= 0)
    ensures forall q :: p <= q <= |s| && (r == -1 || q < r) ==> DelimAfterSpace(s, q) < 0
    decreases |s| - p
  {
    if DelimAfterSpace(s, p) >= 0 then p
    else if p == |s| then -1
    else LazyOption(s, p + 1)
  }

  /** One line as `RawConfigParser._read` treats it with the default pattern:
      no match, or an empty option group (`if not optname`), is a parsing
      error (`None`); otherwise the option group right-stripped, the
      delimiter, and the value group stripped. */
  function DefaultOption(line: string): (r: Option<(string, char, string)>)
    requires '\n' !in line
    ensures FirstDelimiter(line) < 0 ==> r.None?
    ensures r.Some? ==> r.value.0 != [] && IsDelimiter(r.value.1) && IsStripped(r.value.2)
  {
    var p := LazyOption(line, 0);
    if p <= 0 then None
    else
      var d := DelimAfterSpace(line, p);
      var option := line[..p];
      OptionGroupNotBlank(line, p);
      Some((option[..BackSpace(option, 0, |option|)], line[d], Strip(line[SkipSpace(line, d + 1)..])))
  }

  /** A non-empty lazy option group is not all whitespace: had it been, the
      pattern would already have matched with an empty group. */
  lemma OptionGroupNotBlank(line: string, p: int)
    requires p == LazyOption(line, 0) && p > 0
    ensures BackSpace(line[..p], 0, p) > 0
  {
    var option := line[..p];
    if BackSpace(option, 0, p) == 0 {
      var d := DelimAfterSpace(line, p);
      assert forall i :: 0 <= i < d ==> IsSpace(line[i]) by {
        forall i | 0 <= i < d
          ensures IsSpace(line[i])
        {
          if i < p {
            assert option[i] == line[i];
          }
        }
      }
      DelimAfterSpaceIs(line, 0, d);
      assert false;
    }
  }

  /** `DefaultOption` once the lazy group and the delimiter are known. */
  lemma DefaultOptionAt(line: string, p: nat, d: int)
    requires '\n' !in line && p == LazyOption(line, 0) && p > 0 && d == DelimAfterSpace(line, p)
    ensures 0 <= d < |line|
    ensures DefaultOption(line) == Some((line[..p][..BackSpace(line[..p], 0, p)], line[d], Strip(line[SkipSpace(line, d + 1)..])))
  {
  }

  /** `\s*(=|:)` matches from `q` at the delimiter `d` when only whitespace
      lies between them. */
  lemma {:induction false} DelimAfterSpaceIs(s: string, q: nat, d: nat)
    requires q <= d < |s| && IsDelimiter(s[d])
    requires forall i :: q <= i < d ==> IsSpace(s[i])
    ensures DelimAfterSpace(s, q) == d
    decreases d - q
  {
    if q < d {
      assert IsSpace(s[q]) && !IsDelimiter(s[q]);
      DelimAfterSpaceIs(s, q + 1, d);
    }
  }

  /** On the stripped, non-empty lines configparser matches, the default
      pattern splits where the pattern written at llm_interaction.py:20-24
      would: the override is never consulted, and it would change nothing. */
  lemma DefaultPatternAgrees(line: string)
    requires '\n' !in line && IsStripped(line) && line != []
    ensures DefaultOption(line) == MatchOption(line)
  {
    var e := FirstDelimiter(line);
    if e == 0 {
      DelimAfterSpaceIs(line, 0, 0);
    } else if e > 0 {
      var p := LazyOption(line, 0);
      assert 0 < p <= e && DelimAfterSpace(line, p) == e by {
        DelimAfterSpaceIs(line, e, e);
        LazyStopsAtFirst(line, p, e);
      }
      assert DefaultOption(line) == Some((Strip(line[..e]), line[e], Strip(line[e + 1..]))) by {
        DefaultOptionAt(line, p, e);
        OptionGroup(line, p, e);
        ValueGroup(line, e);
      }
      MatchOptionAt(line, e);
    }
  }

  /** On a line that opens with neither whitespace nor a delimiter, the lazy
      option group ends at the whitespace run just before the first delimiter. */
  lemma LazyStopsAtFirst(line: string, p: int, e: nat)
    requires e < |line| && FirstDelimiter(line) == e && e > 0 && !IsSpace(line[0])
    requires p == LazyOption(line, 0)
    ensures 0 < p <= e && DelimAfterSpace(line, p) == e
  {
    DelimAfterSpaceIs(line, e, e);
  }

  /** The right-stripped lazy option group is the strip of everything before
      the first delimiter. */
  lemma OptionGroup(line: string, p: nat, e: nat)
    requires 0 < p <= e < |line| && !IsSpace(line[0])
    requires forall i :: p <= i < e ==> IsSpace(line[i])
    ensures line[..p][..BackSpace(line[..p], 0, p)] == Strip(line[..e])
  {
    var option := line[..p];
    assert line[..e] == option + line[p..e];
    StripBefore(option, line[p..e]);
    SkipSpaceIs(option, 0);
    StripIsSlice(option, 0, BackSpace(option, 0, p));
  }

  /** The value group, after the whitespace `\s*` takes, strips to the strip of
      everything after the delimiter. */
  lemma ValueGroup(line: string, e: nat)
    requires e < |line|
    ensures Strip(line[SkipSpace(line, e + 1)..]) == Strip(line[e + 1..])
  {
    var k := SkipSpace(line, e + 1);
    assert line[e + 1..] == line[e + 1..k] + line[k..];
    StripAfter(line[e + 1..k], line[k..]);
  }
}
