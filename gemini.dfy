/**
 * The scorer of `src/lib/gemini.ts`: `analyzeSEO` walks a fixed list of model names,
 * gives each at most two attempts with a doubling backoff, cleans every reply down to
 * the text from its first `{` to its last `}` (swapped by `substring` when the two are
 * in the wrong order), and after the last model fails chooses between a quota error and
 * a congestion error.
 *
 * The model client and `JSON.parse` are oracles: the i-th model invocation answers with
 * `outcomes[i]`, and `parse` says what `JSON.parse` does with a candidate string.
 * Sleeping is not modelled as time; every delay is recorded instead.
 */
module Gemini {
  import opened Wrappers
  import opened JsString

  /** The candidate models, most preferred first. */
  const MODELS: seq<string> := ["gemini-2.5-flash", "gemini-2.0-flash-lite", "gemini-2.0-flash"]
  const MaxRetriesPerModel: nat := 2
  /** The first backoff of every model, in milliseconds; it doubles after each retryable failure. */
  const BaseDelay: nat := 10000

  /** The message for a reply without braces (kept in three pieces so the verifier can read it cheaply). */
  const NoJsonMessage := "AI response did " + "not contain a " + "valid JSON object"
  const QuotaMessage := "AI Quota Exceeded. You have hit your daily limit for the free tier. Please try again tomorrow or upgrade your API key."
  const CongestionMessage := "AI gateway is currently congested. All fallback models reported high latency or failure."

  /**
   * What the handler reads from a thrown error: `e.status`, `e.response.status` and `e.message`.
   * A status of 0 stands for an absent (or otherwise falsy) status, and "" for an absent message.
   */
  datatype AiError = AiError(status: int, responseStatus: int, message: string)

  /** What one invocation of a model does: it throws, or it replies with text. */
  datatype CallOutcome = Threw(error: AiError) | Replied(text: string)

  /** What `JSON.parse` does with a candidate: it yields a value, or throws a `SyntaxError` with a message. */
  datatype Parse<J> = Parsed(value: J) | Rejected(message: string)

  /**
   * The outcome of one attempt after the reply has been cleaned and parsed; a failure carries
   * its error and whether the controller retries it.
   */
  datatype Attempt<J> = Answer(value: J) | Failed(error: AiError, retryable: bool)

  /** The two errors `analyzeSEO` can finally throw. */
  datatype Exhausted = QuotaExceeded | Congested {
    function Message(): string
    {
      match this
      case QuotaExceeded => QuotaMessage
      case Congested => CongestionMessage
    }
  }

  datatype Outcome<J> = Success(value: J) | Failure(error: Exhausted)

  /** The whole run: its outcome, the model invoked by each call in order, and each sleep in order. */
  datatype Analysis<J> = Analysis(result: Outcome<J>, calls: seq<string>, sleeps: seq<nat>)

  // ---------------------------------------------------------------------------------------
  // Error classification

  /** `e?.status || e?.response?.status || 0` */
  function DerivedStatus(e: AiError): int
  {
    if e.status != 0 then e.status else e.responseStatus
  }

  /** Whether a failed attempt is retried on the same model. */
  predicate IsRetryable(e: AiError)
  {
    var status := DerivedStatus(e);
    var message := ToLower(e.message);
    status == 429 || status == 500 || status == 503
    || Includes(message, "quota") || Includes(message, "fetch failed")
    || Includes(message, "timeout") || Includes(message, "und_err_connect_timeout")
    || Includes(message, "service unavailable")
  }

  /** The error thrown when the cleaned reply holds no `{` or no `}`. */
  const NoJsonError := AiError(0, 0, NoJsonMessage)

  /** The error `JSON.parse` throws; a `SyntaxError` has no status. */
  function ParseError(message: string): AiError
  {
    AiError(0, 0, message)
  }

  /** The final choice, made on the last error alone and on its top-level `status` only. */
  function FinalError(last: Option<AiError>): (r: Exhausted)
    ensures r == QuotaExceeded <==>
              last.Some? && (last.value.status == 429 || Includes(ToLower(last.value.message), "quota"))
  {
    match last
    case Some(e) =>
      if e.status == 429 || Includes(ToLower(e.message), "quota") then QuotaExceeded else Congested
    case None => Congested
  }

  /**
   * The text of the error thrown at the end: the quota message exactly when the last error has
   * status 429 or mentions a quota, in any case.
   */
  lemma FinalMessage(last: Option<AiError>)
    ensures FinalError(last).Message() == QuotaMessage <==>
              last.Some? && (last.value.status == 429 || Includes(ToLower(last.value.message), "quota"))
    ensures FinalError(last).Message() == QuotaMessage || FinalError(last).Message() == CongestionMessage
  {
    assert |QuotaMessage| != |CongestionMessage|;
  }

  // ---------------------------------------------------------------------------------------
  // Response sanitising

  predicate IsAsciiLetter(c: char)
  {
    'a' <= c <= 'z' || 'A' <= c <= 'Z'
  }

  /** The length of the longest prefix of `s` made of ASCII letters (`[a-z]*` under the `i` flag). */
  function LetterRun(s: string): (n: nat)
    ensures n <= |s|
    ensures forall i :: 0 <= i < n ==> IsAsciiLetter(s[i])
    ensures n == |s| || !IsAsciiLetter(s[n])
  {
    if |s| > 0 && IsAsciiLetter(s[0]) then 1 + LetterRun(s[1..]) else 0
  }

  /** `s.replace(/^```[a-z]*\n/i, '')`: removes an opening fence, its language tag and the newline after it. */
  function StripOpeningFence(s: string): string
  {
    if StartsWith(s, "```") then
      var n := LetterRun(s[3..]);
      if 3 + n < |s| && s[3 + n] == '\n' then s[3 + n + 1..] else s
    else s
  }

  /** `s.replace(/\n```$/i, '')`: removes a newline and a closing fence at the very end. */
  function StripClosingFence(s: string): string
  {
    if EndsWith(s, "\n```") then s[..|s| - 4] else s
  }

  /** The text trimmed and, when it starts with three backticks, stripped of its fences and trimmed again. */
  function CleanReply(text: string): string
  {
    var t := Trim(text);
    if StartsWith(t, "```") then Trim(StripClosingFence(StripOpeningFence(t))) else t
  }

  /**
   * `cleaned.substring(cleaned.indexOf('{'), cleaned.lastIndexOf('}') + 1)`, or None when either
   * brace is missing.
   */
  function BraceSlice(s: string): (r: Option<string>)
    ensures r.None? <==> '{' !in s || '}' !in s
    ensures r.Some? && IndexOf(s, '{') <= LastIndexOf(s, '}') ==>
              r.value == s[IndexOf(s, '{')..LastIndexOf(s, '}') + 1]
              && r.value[0] == '{' && r.value[|r.value| - 1] == '}'
    ensures r.Some? && LastIndexOf(s, '}') < IndexOf(s, '{') ==>
              r.value == s[LastIndexOf(s, '}') + 1..IndexOf(s, '{')] && '{' !in r.value
  {
    var first := IndexOf(s, '{');
    var last := LastIndexOf(s, '}');
    if first == -1 || last == -1 then None
    else
      var r := Substring(s, first, last + 1);
      assert last < first ==> r == s[last + 1..first] && r == s[..first][last + 1..];
      Some(r)
  }

  /** The JSON candidate cut out of a raw reply. */
  function ExtractJson(text: string): Option<string>
  {
    BraceSlice(CleanReply(text))
  }

  /** One attempt: the invocation's outcome, then the sanitiser, then `JSON.parse`. */
  function Try<J>(o: CallOutcome, parse: string -> Parse<J>): (a: Attempt<J>)
    ensures a.Failed? ==> a.retryable == IsRetryable(a.error)
  {
    match o
    case Threw(e) => Failed(e, IsRetryable(e))
    case Replied(text) =>
      match ExtractJson(text)
      case None => Failed(NoJsonError, IsRetryable(NoJsonError))
      case Some(candidate) =>
        match parse(candidate)
        case Parsed(v) => Answer(v)
        case Rejected(m) => Failed(ParseError(m), IsRetryable(ParseError(m)))
  }

  /**
   * An attempt answers exactly when the invocation replied, the reply holds a brace slice and
   * `JSON.parse` accepts it, and then with the parsed value; otherwise it fails with the thrown
   * error, the no-JSON error or the parser's error, in that order of precedence.
   */
  lemma TryOutcome<J>(o: CallOutcome, parse: string -> Parse<J>)
    ensures var a := Try(o, parse);
            && (o.Threw? ==> a == Failed(o.error, IsRetryable(o.error)))
            && (a.Answer? <==> o.Replied? && ExtractJson(o.text).Some? && parse(ExtractJson(o.text).value).Parsed?)
            && (a.Answer? ==> a.value == parse(ExtractJson(o.text).value).value)
            && (o.Replied? && ExtractJson(o.text).None? ==> a == Failed(NoJsonError, false))
            && (o.Replied? && ExtractJson(o.text).Some? && parse(ExtractJson(o.text).value).Rejected? ==>
                  a.Failed? && a.error == ParseError(parse(ExtractJson(o.text).value).message))
  {
    NoJsonNotRetryable();
  }

  /** The attempt each invocation makes, in invocation order. */
  function Attempts<J>(os: seq<CallOutcome>, parse: string -> Parse<J>): (r: seq<Attempt<J>>)
    ensures |r| == |os| && forall i :: 0 <= i < |os| ==> r[i] == Try(os[i], parse)
  {
    seq(|os|, i requires 0 <= i < |os| => Try(os[i], parse))
  }

  // ---------------------------------------------------------------------------------------
  // Reference definition of the retry / fallback run

  /** What one model's turn does: an answer, the number of invocations, the sleeps, the last error. */
  datatype Turn<J> = Turn(answer: Option<J>, used: nat, sleeps: seq<nat>, lastError: Option<AiError>)

  /**
   * A model's turn, written out for its two attempts: the second attempt is made only after a
   * retryable failure of the first, and each retryable failure is followed by a sleep.
   */
  function ModelTurn<J>(attempts: seq<Attempt<J>>): (t: Turn<J>)
    requires |attempts| >= MaxRetriesPerModel
    ensures 1 <= t.used <= MaxRetriesPerModel
    ensures t.answer.None? <==> t.lastError.Some?
  {
    match attempts[0]
    case Answer(v) => Turn(Some(v), 1, [], None)
    case Failed(e0, retry0) =>
      if !retry0 then Turn(None, 1, [], Some(e0))
      else
        match attempts[1]
        case Answer(v) => Turn(Some(v), 2, [BaseDelay], None)
        case Failed(e1, retry1) =>
          Turn(None, 2, if retry1 then [BaseDelay, 2 * BaseDelay] else [BaseDelay], Some(e1))
  }

  function Repeat(name: string, n: nat): (r: seq<string>)
    ensures |r| == n && forall i :: 0 <= i < n ==> r[i] == name
  {
    seq(n, _ => name)
  }

  /** Puts earlier calls and sleeps in front of a run. */
  function Prefixed<J>(calls: seq<string>, sleeps: seq<nat>, a: Analysis<J>): Analysis<J>
  {
    Analysis(a.result, calls + a.calls, sleeps + a.sleeps)
  }

  /** The models are given their turns in order, until one answers; `last` is the error so far. */
  function Cascade<J>(models: seq<string>, attempts: seq<Attempt<J>>, last: Option<AiError>): Analysis<J>
    requires |attempts| >= MaxRetriesPerModel * |models|
    decreases |models|
  {
    if models == [] then Analysis(Failure(FinalError(last)), [], [])
    else
      var t := ModelTurn(attempts);
      if t.answer.Some? then Analysis(Success(t.answer.value), Repeat(models[0], t.used), t.sleeps)
      else Prefixed(Repeat(models[0], t.used), t.sleeps,
                    Cascade(models[1..], attempts[t.used..], t.lastError))
  }

  /** The run `analyzeSEO` makes on the given outcomes. */
  function Run<J>(outcomes: seq<CallOutcome>, parse: string -> Parse<J>): Analysis<J>
    requires |outcomes| >= MaxRetriesPerModel * |MODELS|
  {
    Cascade(MODELS, Attempts(outcomes, parse), None)
  }

  /** One step of the run: the first model's turn, then the rest of the run. */
  lemma CascadeUnfold<J>(models: seq<string>, attempts: seq<Attempt<J>>, last: Option<AiError>)
    requires |models| > 0 && |attempts| >= MaxRetriesPerModel * |models|
    ensures var t := ModelTurn(attempts);
            Cascade(models, attempts, last)
            == if t.answer.Some? then Analysis(Success(t.answer.value), Repeat(models[0], t.used), t.sleeps)
               else Prefixed(Repeat(models[0], t.used), t.sleeps,
                             Cascade(models[1..], attempts[t.used..], t.lastError))
  {
  }

  /** Two prefixes in a row are one prefix. */
  lemma PrefixedTwice<J>(c0: seq<string>, s0: seq<nat>, c1: seq<string>, s1: seq<nat>, a: Analysis<J>)
    ensures Prefixed(c0, s0, Prefixed(c1, s1, a)) == Prefixed(c0 + c1, s0 + s1, a)
  {
    assert c0 + (c1 + a.calls) == (c0 + c1) + a.calls;
    assert s0 + (s1 + a.sleeps) == (s0 + s1) + a.sleeps;
  }

  /** A turn whose attempt `i` answers after `i` retryable failures. */
  lemma TurnAnswered<J>(attempts: seq<Attempt<J>>, i: nat)
    requires |attempts| >= MaxRetriesPerModel && i < MaxRetriesPerModel
    requires i == 1 ==> attempts[0].Failed? && attempts[0].retryable
    requires attempts[i].Answer?
    ensures ModelTurn(attempts) == Turn(Some(attempts[i].value), i + 1, [BaseDelay, 2 * BaseDelay][..i], None)
  {
  }

  /** A turn that ends failing after `n` attempts, each but the last failing retryably. */
  lemma TurnFailed<J>(attempts: seq<Attempt<J>>, n: nat)
    requires |attempts| >= MaxRetriesPerModel && 1 <= n <= MaxRetriesPerModel
    requires n == 2 ==> attempts[0].Failed? && attempts[0].retryable
    requires attempts[n - 1].Failed? && (n < MaxRetriesPerModel ==> !attempts[n - 1].retryable)
    ensures ModelTurn(attempts)
            == Turn(None, n, [BaseDelay, 2 * BaseDelay][..if attempts[n - 1].retryable then n else n - 1],
                    Some(attempts[n - 1].error))
  {
  }

  /**
   * The run from model `m` on, after the calls and sleeps so far, is that model's turn, `t`,
   * and then (unless the turn answered) the rest of the run.
   */
  lemma CascadeAfterTurn<J>(models: seq<string>, attempts: seq<Attempt<J>>, m: nat, next: nat,
                            last: Option<AiError>, calls: seq<string>, sleeps: seq<nat>, t: Turn<J>)
    requires m < |models| && next + MaxRetriesPerModel * (|models| - m) <= |attempts|
    requires t == ModelTurn(attempts[next..])
    ensures next + t.used + MaxRetriesPerModel * (|models| - (m + 1)) <= |attempts|
    ensures t.answer.Some? ==>
              Prefixed(calls, sleeps, Cascade(models[m..], attempts[next..], last))
              == Analysis(Success(t.answer.value), calls + Repeat(models[m], t.used), sleeps + t.sleeps)
    ensures t.answer.None? ==>
              Prefixed(calls, sleeps, Cascade(models[m..], attempts[next..], last))
              == Prefixed(calls + Repeat(models[m], t.used), sleeps + t.sleeps,
                          Cascade(models[m + 1..], attempts[next + t.used..], t.lastError))
  {
    CascadeUnfold(models[m..], attempts[next..], last);
    assert models[m..][0] == models[m] && models[m..][1..] == models[m + 1..];
    assert attempts[next..][t.used..] == attempts[next + t.used..];
    if t.answer.None? {
      PrefixedTwice(calls, sleeps, Repeat(models[m], t.used), t.sleeps,
                    Cascade(models[m + 1..], attempts[next + t.used..], t.lastError));
    }
  }

  // ---------------------------------------------------------------------------------------
  // The controller as the source writes it

  /**
   * The body of the loop over the models: up to two attempts on one model, starting at invocation
   * `next`, with `delay` starting at 10000 and doubled after every retryable failure, and the last
   * error overwritten by every failure. `answer` is what `analyzeSEO` returns at once.
   */
  method TryModel<J>(outcomes: seq<CallOutcome>, parse: string -> Parse<J>, next: nat)
    returns (answer: Option<J>, used: nat, sleeps: seq<nat>, lastError: Option<AiError>)
    requires next + MaxRetriesPerModel <= |outcomes|
    ensures Turn(answer, used, sleeps, lastError) == ModelTurn(Attempts(outcomes, parse)[next..])
  {
    ghost var rest := Attempts(outcomes, parse)[next..];
    var delay := BaseDelay;
    answer, used, sleeps, lastError := None, 0, [], None;
    for i := 0 to MaxRetriesPerModel
      invariant used == i
      invariant sleeps == [BaseDelay, 2 * BaseDelay][..i]
      invariant delay == if i == 0 then BaseDelay else if i == 1 then 2 * BaseDelay else 4 * BaseDelay
      invariant 0 < i ==> rest[0].Failed? && rest[0].retryable
      invariant 1 < i ==> rest[1].Failed? && rest[1].retryable
      invariant i == 0 ==> lastError == None
      invariant i == 1 ==> lastError == Some(rest[0].error)
      invariant i == 2 ==> lastError == Some(rest[1].error)
    {
      var attempt := Try(outcomes[next + i], parse);
      assert attempt == rest[i];
      used := used + 1;
      if attempt.Answer? {
        answer, lastError := Some(attempt.value), None;
        TurnAnswered(rest, i);
        return;
      }
      lastError := Some(attempt.error);
      if !IsRetryable(attempt.error) {
        TurnFailed(rest, i + 1);
        return;
      }
      sleeps := sleeps + [delay];
      delay := delay * 2;
    }
    TurnFailed(rest, MaxRetriesPerModel);
  }

  /**
   * `analyzeSEO` after the prompt is built: the loop over `models` in order, which stops at the
   * first answer, and the final choice of error once every model has failed.
   */
  method CycleModels<J>(models: seq<string>, outcomes: seq<CallOutcome>, parse: string -> Parse<J>)
    returns (result: Outcome<J>, calls: seq<string>, sleeps: seq<nat>)
    requires |outcomes| >= MaxRetriesPerModel * |models|
    ensures Analysis(result, calls, sleeps) == Cascade(models, Attempts(outcomes, parse), None)
  {
    ghost var attempts := Attempts(outcomes, parse);
    var lastError: Option<AiError> := None;
    calls, sleeps := [], [];
    var next: nat := 0;
    for m := 0 to |models|
      invariant next + MaxRetriesPerModel * (|models| - m) <= |attempts|
      invariant Cascade(models, attempts, None)
                == Prefixed(calls, sleeps, Cascade(models[m..], attempts[next..], lastError))
    {
      var answer, used, turnSleeps, turnError := TryModel(outcomes, parse, next);
      CascadeAfterTurn(models, attempts, m, next, lastError, calls, sleeps, Turn(answer, used, turnSleeps, turnError));
      calls, sleeps := calls + Repeat(models[m], used), sleeps + turnSleeps;
      if answer.Some? {
        result := Success(answer.value);
        return;
      }
      next, lastError := next + used, turnError;
    }
    result := Failure(FinalError(lastError));
  }

  /** `analyzeSEO` on the fixed model list. */
  method AnalyzeSeo<J>(outcomes: seq<CallOutcome>, parse: string -> Parse<J>)
    returns (result: Outcome<J>, calls: seq<string>, sleeps: seq<nat>)
    requires |outcomes| >= MaxRetriesPerModel * |MODELS|
    ensures Analysis(result, calls, sleeps) == Run(outcomes, parse)
  {
    result, calls, sleeps := CycleModels(MODELS, outcomes, parse);
  }

  // ---------------------------------------------------------------------------------------
  // Properties of the run

  /** The calls made when model `k` is invoked `uses[k]` times, for the first `|uses|` models. */
  function Expand(models: seq<string>, uses: seq<nat>): (r: seq<string>)
    requires |uses| <= |models|
    decreases |uses|
  {
    if uses == [] then [] else Repeat(models[0], uses[0]) + Expand(models[1..], uses[1..])
  }

  /** `calls` invokes a prefix of `models` in order, each model once or twice. */
  predicate Schedule(models: seq<string>, uses: seq<nat>, calls: seq<string>)
  {
    && |uses| <= |models|
    && (forall k :: 0 <= k < |uses| ==> 1 <= uses[k] <= MaxRetriesPerModel)
    && calls == Expand(models, uses)
  }

  /** The sleeps of a turn that slept `n` times: the delay starts at 10 seconds and doubles. */
  function Delays(n: nat): (r: seq<nat>)
    requires n <= MaxRetriesPerModel
    ensures |r| == n
  {
    [BaseDelay, 2 * BaseDelay][..n]
  }

  /** The sleeps of a run whose `k`-th model slept `slept[k]` times, its delay starting afresh. */
  function ExpandSleeps(slept: seq<nat>): seq<nat>
    requires forall k :: 0 <= k < |slept| ==> slept[k] <= MaxRetriesPerModel
    decreases |slept|
  {
    if slept == [] then [] else Delays(slept[0]) + ExpandSleeps(slept[1..])
  }

  /**
   * `sleeps` are those of a run whose `k`-th model was invoked `uses[k]` times and slept after
   * each of its invocations but possibly the last.
   */
  predicate SleepSchedule(uses: seq<nat>, slept: seq<nat>, sleeps: seq<nat>)
  {
    && |slept| == |uses|
    && (forall k :: 0 <= k < |slept| ==> slept[k] <= uses[k] <= slept[k] + 1 && slept[k] <= MaxRetriesPerModel)
    && sleeps == ExpandSleeps(slept)
  }

  /** A turn sleeps after each of its invocations but possibly the last, starting again at 10 seconds. */
  lemma TurnSleeps<J>(attempts: seq<Attempt<J>>)
    requires |attempts| >= MaxRetriesPerModel
    ensures var t := ModelTurn(attempts);
            && |t.sleeps| <= t.used <= |t.sleeps| + 1 && |t.sleeps| <= MaxRetriesPerModel
            && t.sleeps == Delays(|t.sleeps|)
  {
    assert [BaseDelay, 2 * BaseDelay][..1] == [BaseDelay];
  }

  /**
   * The run `r` invokes a prefix of `models` in order, each once or twice, as `uses` says; a
   * failed run has given every model a turn, and a successful one at least the first.
   */
  predicate RunSchedule<J>(models: seq<string>, uses: seq<nat>, r: Analysis<J>)
  {
    && Schedule(models, uses, r.calls)
    && (r.result.Failure? ==> |uses| == |models|)
    && (r.result.Success? ==> |uses| >= 1)
  }

  /** The run `r` follows `uses` in its calls and `slept` in its sleeps. */
  predicate RunPlan<J>(models: seq<string>, uses: seq<nat>, slept: seq<nat>, r: Analysis<J>)
  {
    RunSchedule(models, uses, r) && SleepSchedule(uses, slept, r.sleeps)
  }

  /**
   * Every run follows a schedule: no model is invoked after a model that answered, and each
   * model's sleeps start again at 10 seconds.
   */
  lemma {:induction false} CascadeSchedule<J>(models: seq<string>, attempts: seq<Attempt<J>>, last: Option<AiError>)
    requires |attempts| >= MaxRetriesPerModel * |models|
    ensures exists uses, slept :: RunPlan(models, uses, slept, Cascade(models, attempts, last))
    decreases |models|
  {
    var r := Cascade(models, attempts, last);
    if models == [] {
      var none: seq<nat> := [];
      assert r.calls == Expand(models, none) && r.sleeps == ExpandSleeps(none);
      assert RunPlan(models, none, none, r);
    } else {
      var t := ModelTurn(attempts);
      TurnSleeps(attempts);
      var n := |t.sleeps|;
      if t.answer.Some? {
        var uses: seq<nat> := [t.used];
        var slept: seq<nat> := [n];
        assert Expand(models, uses) == Repeat(models[0], t.used) + Expand(models[1..], []);
        assert ExpandSleeps(slept) == Delays(n) + ExpandSleeps([]);
        assert RunPlan(models, uses, slept, r);
      } else {
        var rest := Cascade(models[1..], attempts[t.used..], t.lastError);
        assert r.calls == Repeat(models[0], t.used) + rest.calls && r.result == rest.result;
        assert r.sleeps == t.sleeps + rest.sleeps;
        CascadeSchedule(models[1..], attempts[t.used..], t.lastError);
        var u, sl :| RunPlan(models[1..], u, sl, rest);
        var uses: seq<nat> := [t.used] + u;
        var slept: seq<nat> := [n] + sl;
        assert uses[0] == t.used && uses[1..] == u;
        assert slept[0] == n && slept[1..] == sl;
        assert Expand(models, uses) == Repeat(models[0], t.used) + rest.calls;
        assert forall k :: 1 <= k < |uses| ==> uses[k] == u[k - 1];
        assert forall k :: 1 <= k < |slept| ==> slept[k] == sl[k - 1];
        assert ExpandSleeps(slept) == Delays(n) + rest.sleeps;
        assert RunPlan(models, uses, slept, r);
      }
    }
  }

  /**
   * Every attempt before the last one the run makes failed; the run succeeds exactly when its
   * last attempt answered, with that answer, and otherwise its error is decided by the error of
   * its last attempt alone.
   */
  lemma {:induction false} CascadeOutcome<J>(models: seq<string>, attempts: seq<Attempt<J>>, last: Option<AiError>)
    requires |attempts| >= MaxRetriesPerModel * |models|
    ensures var r := Cascade(models, attempts, last);
            var n := |r.calls|;
            && n <= |attempts|
            && (n == 0 <==> models == [])
            && (n == 0 ==> r.result == Failure(FinalError(last)))
            && (forall i :: 0 <= i < n - 1 ==> attempts[i].Failed?)
            && (n > 0 ==> (r.result.Success? <==> attempts[n - 1].Answer?))
            && (n > 0 && r.result.Success? ==> r.result.value == attempts[n - 1].value)
            && (n > 0 && r.result.Failure? ==> r.result.error == FinalError(Some(attempts[n - 1].error)))
    decreases |models|
  {
    if models != [] {
      var t := ModelTurn(attempts);
      CascadeUnfold(models, attempts, last);
      if t.answer.None? {
        var rest := Cascade(models[1..], attempts[t.used..], t.lastError);
        CascadeOutcome(models[1..], attempts[t.used..], t.lastError);
        assert Cascade(models, attempts, last) == Prefixed(Repeat(models[0], t.used), t.sleeps, rest);
        assert t.used == 2 || (attempts[0].Failed? && !attempts[0].retryable);
        forall i | 0 <= i < t.used + |rest.calls| - 1
          ensures attempts[i].Failed?
        {
          if i >= t.used {
            assert attempts[i] == attempts[t.used..][i - t.used];
          }
        }
        if |rest.calls| > 0 {
          assert attempts[t.used + |rest.calls| - 1] == attempts[t.used..][|rest.calls| - 1];
        }
      }
    }
  }

  /** The number of attempts that failed with an error the controller retries. */
  function RetryableFailures<J>(attempts: seq<Attempt<J>>): (n: nat)
    ensures n <= |attempts|
  {
    if attempts == [] then 0
    else (if attempts[0].Failed? && attempts[0].retryable then 1 else 0) + RetryableFailures(attempts[1..])
  }

  lemma {:induction false} RetryableFailuresAppend<J>(a: seq<Attempt<J>>, b: seq<Attempt<J>>)
    ensures RetryableFailures(a + b) == RetryableFailures(a) + RetryableFailures(b)
  {
    if a != [] {
      assert (a + b)[0] == a[0] && (a + b)[1..] == a[1..] + b;
      RetryableFailuresAppend(a[1..], b);
    } else {
      assert a + b == b;
    }
  }

  /** A turn sleeps once after each of its retryable failures. */
  lemma TurnSleepCount<J>(attempts: seq<Attempt<J>>)
    requires |attempts| >= MaxRetriesPerModel
    ensures var t := ModelTurn(attempts); |t.sleeps| == RetryableFailures(attempts[..t.used])
  {
    var t := ModelTurn(attempts);
    assert attempts[..t.used][1..] == if t.used == 1 then [] else [attempts[1]];
  }

  /**
   * The run sleeps exactly once after every retryable failure, including one after the second
   * failure of a model, which is followed by the next model or by nothing at all.
   */
  lemma {:induction false} CascadeSleepCount<J>(models: seq<string>, attempts: seq<Attempt<J>>, last: Option<AiError>)
    requires |attempts| >= MaxRetriesPerModel * |models|
    ensures var r := Cascade(models, attempts, last);
            |r.calls| <= |attempts| && |r.sleeps| == RetryableFailures(attempts[..|r.calls|])
    decreases |models|
  {
    if models != [] {
      var t := ModelTurn(attempts);
      TurnSleepCount(attempts);
      if t.answer.None? {
        var rest := Cascade(models[1..], attempts[t.used..], t.lastError);
        CascadeSleepCount(models[1..], attempts[t.used..], t.lastError);
        assert attempts[..t.used + |rest.calls|] == attempts[..t.used] + attempts[t.used..][..|rest.calls|];
        RetryableFailuresAppend(attempts[..t.used], attempts[t.used..][..|rest.calls|]);
      }
    }
  }

  function Sum(s: seq<nat>): nat
  {
    if s == [] then 0 else s[0] + Sum(s[1..])
  }

  lemma {:induction false} SumAppend(a: seq<nat>, b: seq<nat>)
    ensures Sum(a + b) == Sum(a) + Sum(b)
  {
    if a != [] {
      assert (a + b)[0] == a[0] && (a + b)[1..] == a[1..] + b;
      SumAppend(a[1..], b);
    } else {
      assert a + b == b;
    }
  }

  /**
   * The doubling backoff as it shows in the sleeps: every sleep is 10 or 20 seconds, the first is
   * 10 seconds, and a 20-second sleep always comes right after a 10-second one.
   */
  predicate Backoff(sleeps: seq<nat>)
  {
    && (forall k :: 0 <= k < |sleeps| ==> sleeps[k] == BaseDelay || sleeps[k] == 2 * BaseDelay)
    && (|sleeps| > 0 ==> sleeps[0] == BaseDelay)
    && (forall k :: 0 < k < |sleeps| && sleeps[k] == 2 * BaseDelay ==> sleeps[k - 1] == BaseDelay)
  }

  lemma BackoffAppend(a: seq<nat>, b: seq<nat>)
    requires Backoff(a) && Backoff(b)
    ensures Backoff(a + b)
  {
    var s := a + b;
    forall k | 0 < k < |s| && s[k] == 2 * BaseDelay
      ensures s[k - 1] == BaseDelay
    {
      if k > |a| {
        assert s[k] == b[k - |a|] && s[k - 1] == b[k - 1 - |a|];
      } else if k < |a| {
        assert s[k] == a[k] && s[k - 1] == a[k - 1];
      }
    }
  }

  /** One turn backs off in that pattern, sleeps at most twice and at most 30 seconds in all. */
  lemma TurnBackoff<J>(attempts: seq<Attempt<J>>)
    requires |attempts| >= MaxRetriesPerModel
    ensures var t := ModelTurn(attempts);
            Backoff(t.sleeps) && |t.sleeps| <= MaxRetriesPerModel && Sum(t.sleeps) <= 30000
  {
    var t := ModelTurn(attempts);
    assert Sum([BaseDelay]) == BaseDelay + Sum([]);
    assert [BaseDelay, 2 * BaseDelay][1..] == [2 * BaseDelay];
    assert Sum([2 * BaseDelay]) == 2 * BaseDelay + Sum([]);
    assert t.sleeps == [] || t.sleeps == [BaseDelay] || t.sleeps == [BaseDelay, 2 * BaseDelay];
  }

  /** Every run backs off in that pattern and sleeps at most twice per model. */
  lemma {:induction false} CascadeBackoff<J>(models: seq<string>, attempts: seq<Attempt<J>>, last: Option<AiError>)
    requires |attempts| >= MaxRetriesPerModel * |models|
    ensures var r := Cascade(models, attempts, last);
            Backoff(r.sleeps) && |r.sleeps| <= MaxRetriesPerModel * |models|
    decreases |models|
  {
    if models != [] {
      var t := ModelTurn(attempts);
      TurnBackoff(attempts);
      if t.answer.None? {
        var rest := Cascade(models[1..], attempts[t.used..], t.lastError);
        CascadeBackoff(models[1..], attempts[t.used..], t.lastError);
        BackoffAppend(t.sleeps, rest.sleeps);
      }
    }
  }

  /** A run waits at most 30 seconds per model in all. */
  lemma {:induction false} CascadeWait<J>(models: seq<string>, attempts: seq<Attempt<J>>, last: Option<AiError>)
    requires |attempts| >= MaxRetriesPerModel * |models|
    ensures Sum(Cascade(models, attempts, last).sleeps) <= 30000 * |models|
    decreases |models|
  {
    if models != [] {
      var t := ModelTurn(attempts);
      TurnBackoff(attempts);
      if t.answer.None? {
        var rest := Cascade(models[1..], attempts[t.used..], t.lastError);
        CascadeWait(models[1..], attempts[t.used..], t.lastError);
        SumAppend(t.sleeps, rest.sleeps);
      }
    }
  }

  // ---------------------------------------------------------------------------------------
  // Properties of the sanitiser

  /** The cleaned reply is a piece of the reply: cleaning only ever cuts text away. */
  lemma CleanReplyIncluded(text: string)
    ensures Includes(text, CleanReply(text))
  {
    var t := Trim(text);
    if StartsWith(t, "```") {
      var head := StripOpeningFence(t);
      OpeningFenceIncluded(t);
      ClosingFenceIncluded(head);
      IncludesTransitive(text, t, head);
      IncludesTransitive(text, head, StripClosingFence(head));
      IncludesTransitive(text, StripClosingFence(head), Trim(StripClosingFence(head)));
    }
  }

  /** Removing an opening fence keeps a suffix. */
  lemma OpeningFenceIncluded(t: string)
    ensures Includes(t, StripOpeningFence(t))
  {
    var head := StripOpeningFence(t);
    if head != t {
      SuffixIncluded(t, |t| - |head|);
      assert head == t[|t| - |head|..];
    } else {
      PrefixIncluded(t, |t|);
      assert t[..|t|] == t;
    }
  }

  /** Removing a closing fence keeps a prefix. */
  lemma ClosingFenceIncluded(head: string)
    ensures Includes(head, StripClosingFence(head))
  {
    var closed := StripClosingFence(head);
    PrefixIncluded(head, |closed|);
    assert closed == head[..|closed|];
  }

  /** The brace slice is a piece of the text it was cut from. */
  lemma BraceSliceIncluded(s: string)
    requires BraceSlice(s).Some?
    ensures Includes(s, BraceSlice(s).value)
  {
    var first, last := IndexOf(s, '{'), LastIndexOf(s, '}');
    assert OccursAt(s, BraceSlice(s).value, if first <= last then first else last + 1);
  }

  /**
   * The JSON candidate is a piece of the reply, and there is none when the reply has no `{` or
   * no `}` anywhere.
   */
  lemma ExtractJsonIncluded(text: string)
    ensures ExtractJson(text).Some? ==> Includes(text, ExtractJson(text).value)
    ensures '{' !in text || '}' !in text ==> ExtractJson(text).None?
  {
    var cleaned := CleanReply(text);
    CleanReplyIncluded(text);
    if ExtractJson(text).Some? {
      BraceSliceIncluded(cleaned);
      IncludesTransitive(text, cleaned, ExtractJson(text).value);
      IncludedChar(text, cleaned, '{');
      IncludedChar(text, cleaned, '}');
    }
  }

  lemma {:induction false} LetterRunOfTag(tag: string, rest: string)
    requires forall i :: 0 <= i < |tag| ==> IsAsciiLetter(tag[i])
    requires rest == [] || !IsAsciiLetter(rest[0])
    ensures LetterRun(tag + rest) == |tag|
  {
    if tag != [] {
      assert (tag + rest)[1..] == tag[1..] + rest;
      LetterRunOfTag(tag[1..], rest);
    } else {
      assert tag + rest == rest;
    }
  }

  /** The opening fence goes with its language tag and the newline after it. */
  lemma OpeningFenceStripped(tag: string, rest: string)
    requires forall i :: 0 <= i < |tag| ==> IsAsciiLetter(tag[i])
    ensures StripOpeningFence("```" + tag + "\n" + rest) == rest
  {
    var text := "```" + tag + "\n" + rest;
    assert text[..3] == "```";
    assert text[3..] == tag + ("\n" + rest);
    LetterRunOfTag(tag, "\n" + rest);
    assert text[3 + |tag|] == '\n';
    assert text[3 + |tag| + 1..] == rest;
  }

  /** The closing fence goes with the newline before it. */
  lemma ClosingFenceStripped(body: string)
    ensures StripClosingFence(body + "\n```") == body
  {
    var text := body + "\n```";
    assert text[|text| - 4..] == "\n```";
    assert text[..|text| - 4] == body;
  }

  /**
   * A reply wrapped in a Markdown code fence, with or without a language tag, cleans to what the
   * bare reply cleans to, unless the bare reply itself opens with a fence.
   */
  lemma FencedReply(tag: string, body: string)
    requires forall i :: 0 <= i < |tag| ==> IsAsciiLetter(tag[i])
    requires !StartsWith(Trim(body), "```")
    ensures CleanReply("```" + tag + "\n" + body + "\n```") == CleanReply(body)
    ensures ExtractJson("```" + tag + "\n" + body + "\n```") == ExtractJson(body)
  {
    var text := "```" + tag + "\n" + body + "\n```";
    assert text == "```" + tag + "\n" + (body + "\n```");
    assert text[0] == '`' && text[|text| - 1] == '`';
    TrimUnchanged(text);
    assert StartsWith(text, "```") by { assert text[..3] == "```"; }
    OpeningFenceStripped(tag, body + "\n```");
    ClosingFenceStripped(body);
  }

  // ---------------------------------------------------------------------------------------
  // Properties of the error handling

  /** The error for a reply without braces is not retried: the run moves to the next model at once. */
  lemma NoJsonNotRetryable()
    ensures !IsRetryable(NoJsonError)
  {
    NoJsonMessageLacksU();
    NoJsonMessageLacksF();
    LowerAbsent(NoJsonMessage, 'u');
    LowerAbsent(NoJsonMessage, 'f');
    NoRetryKeyword(ToLower(NoJsonMessage));
  }

  /** A message with neither `u` nor `f` names none of the retried failures. */
  lemma NoRetryKeyword(message: string)
    requires 'u' !in message && 'f' !in message
    ensures !Includes(message, "quota") && !Includes(message, "fetch failed") && !Includes(message, "timeout")
    ensures !Includes(message, "und_err_connect_timeout") && !Includes(message, "service unavailable")
  {
    NotIncludesMissingChar(message, "quota", 1);
    NotIncludesMissingChar(message, "fetch failed", 0);
    NotIncludesMissingChar(message, "timeout", 5);
    NotIncludesMissingChar(message, "und_err_connect_timeout", 0);
    NotIncludesMissingChar(message, "service unavailable", 8);
  }

  lemma NoJsonMessageLacksU()
    ensures 'u' !in NoJsonMessage && 'U' !in NoJsonMessage
  {
  }

  lemma NoJsonMessageLacksF()
    ensures 'f' !in NoJsonMessage && 'F' !in NoJsonMessage
  {
  }

  /**
   * The retry decision reads `status` and then `response.status`, but the final choice reads
   * `status` alone: a quota failure reported only through `response.status` is retried as a quota
   * failure and then announced as congestion.
   */
  lemma QuotaOnlyInResponseStatus()
    ensures IsRetryable(AiError(0, 429, ""))
    ensures FinalError(Some(AiError(0, 429, ""))) == Congested
  {
  }

  /** The retry decision ignores the case of the message. */
  lemma MessageCaseIgnored(e: AiError, e': AiError)
    requires DerivedStatus(e) == DerivedStatus(e') && ToLower(e.message) == ToLower(e'.message)
    ensures IsRetryable(e) == IsRetryable(e')
    ensures FinalError(Some(e)) == FinalError(Some(e')) <== e.status == e'.status
  {
  }

  /** A reply without a `{` or without a `}` fails at once and is not retried. */
  lemma ReplyWithoutBraces<J>(text: string, parse: string -> Parse<J>)
    requires '{' !in text || '}' !in text
    ensures Try(Replied(text), parse) == Failed(NoJsonError, false)
  {
    ExtractJsonIncluded(text);
    NoJsonNotRetryable();
  }

  // ---------------------------------------------------------------------------------------
  // Properties of `analyzeSEO`

  lemma {:induction false} CascadeCallCount<J>(models: seq<string>, attempts: seq<Attempt<J>>, last: Option<AiError>)
    requires |attempts| >= MaxRetriesPerModel * |models|
    ensures var n := |Cascade(models, attempts, last).calls|;
            n <= MaxRetriesPerModel * |models| && (models != [] ==> 1 <= n)
    decreases |models|
  {
    if models != [] {
      var t := ModelTurn(attempts);
      if t.answer.None? {
        CascadeCallCount(models[1..], attempts[t.used..], t.lastError);
      }
    }
  }

  lemma {:induction false} ExpandCovers(models: seq<string>, uses: seq<nat>, k: nat)
    requires |uses| <= |models| && k < |uses| && uses[k] >= 1
    ensures models[k] in Expand(models, uses)
    decreases |uses|
  {
    if k == 0 {
      assert Expand(models, uses)[0] == Repeat(models[0], uses[0])[0];
    } else {
      ExpandCovers(models[1..], uses[1..], k - 1);
    }
  }

  /**
   * `analyzeSEO` invokes a model at least once and at most six times, sleeps at most six times
   * and at most 90 seconds in all, backing off 10 then 20 seconds on every model, and gives up
   * only after every one of the three models has been invoked.
   */
  lemma RunBounds<J>(outcomes: seq<CallOutcome>, parse: string -> Parse<J>)
    requires |outcomes| >= MaxRetriesPerModel * |MODELS|
    ensures var r := Run(outcomes, parse);
            && 1 <= |r.calls| <= 6
            && Backoff(r.sleeps) && |r.sleeps| <= 6 && Sum(r.sleeps) <= 90000
            && (r.result.Failure? ==> forall k :: 0 <= k < |MODELS| ==> MODELS[k] in r.calls)
  {
    var attempts := Attempts(outcomes, parse);
    var r := Run(outcomes, parse);
    CascadeCallCount(MODELS, attempts, None);
    CascadeBackoff(MODELS, attempts, None);
    CascadeWait(MODELS, attempts, None);
    CascadeSchedule(MODELS, attempts, None);
    var uses, slept :| RunPlan(MODELS, uses, slept, r);
    if r.result.Failure? {
      forall k | 0 <= k < |MODELS|
        ensures MODELS[k] in r.calls
      {
        ExpandCovers(MODELS, uses, k);
      }
    }
  }

  /**
   * When every invocation fails with status 429, each model is invoked twice, every failure is
   * followed by a sleep (the last one too), and the run ends with the quota error.
   */
  lemma AllRateLimited<J>(outcomes: seq<CallOutcome>, parse: string -> Parse<J>)
    requires |outcomes| >= MaxRetriesPerModel * |MODELS|
    requires forall i :: 0 <= i < |outcomes| ==> outcomes[i] == Threw(AiError(429, 0, ""))
    ensures Run(outcomes, parse)
            == Analysis(Failure(QuotaExceeded),
                        [MODELS[0], MODELS[0], MODELS[1], MODELS[1], MODELS[2], MODELS[2]],
                        [10000, 20000, 10000, 20000, 10000, 20000])
  {
    var e := AiError(429, 0, "");
    var a := Attempts(outcomes, parse);
    assert forall i :: 0 <= i < |a| ==> a[i] == Failed(e, true);
    TurnFailed(a, 2);
    TurnFailed(a[2..], 2);
    TurnFailed(a[4..], 2);
    CascadeUnfold(MODELS, a, None);
    CascadeUnfold(MODELS[1..], a[2..], Some(e));
    CascadeUnfold(MODELS[2..], a[4..], Some(e));
    assert a[2..][2..] == a[4..] && a[4..][2..] == a[6..];
    assert MODELS[1..][1..] == MODELS[2..] && MODELS[2..][1..] == [];
    assert MODELS[1..][0] == MODELS[1] && MODELS[2..][0] == MODELS[2];
  }

  /** A first attempt that fails for good, then an answer: the second model answers, and no sleep is made. */
  lemma FailThenAnswer<J>(models: seq<string>, a: seq<Attempt<J>>, last: Option<AiError>, e: AiError, v: J)
    requires |models| >= 2 && |a| >= MaxRetriesPerModel * |models|
    requires a[0] == Failed(e, false) && a[1] == Answer(v)
    ensures Cascade(models, a, last) == Analysis(Success(v), [models[0], models[1]], [])
  {
    TurnFailed(a, 1);
    assert a[1..][0] == a[1];
    TurnAnswered(a[1..], 0);
    CascadeUnfold(models[1..], a[1..], Some(e));
    var second := Cascade(models[1..], a[1..], Some(e));
    assert second == Analysis(Success(v), Repeat(models[1], 1), []);
    assert Repeat(models[1], 1) == [models[1]] && Repeat(models[0], 1) == [models[0]];
    CascadeUnfold(models, a, last);
    assert Cascade(models, a, last) == Prefixed([models[0]], [], second);
  }

  /**
   * A first reply without braces costs the first model its turn at once, with no sleep, and an
   * answer from the next invocation is the result, attributed to the second model.
   */
  lemma NoJsonFallsThrough<J>(outcomes: seq<CallOutcome>, parse: string -> Parse<J>, v: J)
    requires |outcomes| >= MaxRetriesPerModel * |MODELS|
    requires outcomes[0].Replied? && '{' !in outcomes[0].text
    requires outcomes[1].Replied? && ExtractJson(outcomes[1].text).Some?
    requires parse(ExtractJson(outcomes[1].text).value) == Parsed(v)
    ensures Run(outcomes, parse) == Analysis(Success(v), [MODELS[0], MODELS[1]], [])
  {
    var a := Attempts(outcomes, parse);
    ReplyWithoutBraces(outcomes[0].text, parse);
    assert a[0] == Failed(NoJsonError, false) && a[1] == Answer(v);
    FailThenAnswer(MODELS, a, None, NoJsonError, v);
  }
}
