/**
 * The prompt pipeline of utils/prompt_utils.py: the JSON escape repair, the
 * parse step, the execution state, the retry wrapper around one prompt step,
 * a tactic that threads one state through its steps, and the builder that
 * registers the steps under unique names.
 *
 * The language model, the template rendering and pydantic parsing are
 * oracles: a step's base function is a function of the context and of the
 * attempt's error count that either succeeds with a result and a new
 * context, or fails.
 */
module PromptUtils {
  import opened Wrappers

  // ---------------------------------------------------------------------------
  // fix_json

  /**
   * `fix_json`: `re.sub(r'(\\[^"])', r"\\\1", text)`. Scanning left to right,
   * every backslash followed by a character other than a double quote gets
   * one more backslash in front; a match consumes both characters.
   */
  function FixJson(s: string): (r: string)
    ensures |r| >= |s|
  {
    if |s| >= 2 && s[0] == '\\' && s[1] != '"' then ['\\', '\\', s[1]] + FixJson(s[2..])
    else if s == [] then []
    else [s[0]] + FixJson(s[1..])
  }

  /** Undoes FixJson: a doubled backslash before a non-quote character loses one backslash. */
  function UnfixJson(t: string): string
  {
    if |t| >= 3 && t[0] == '\\' && t[1] == '\\' && t[2] != '"' then ['\\', t[2]] + UnfixJson(t[3..])
    else if t == [] then []
    else [t[0]] + UnfixJson(t[1..])
  }

  /** No backslash of `s` is followed by anything but a double quote. */
  predicate NoBareBackslash(s: string)
  {
    forall i :: 0 <= i < |s| - 1 && s[i] == '\\' ==> s[i + 1] == '"'
  }

  /** The rewrite loses nothing: the text it was applied to can be read back. */
  lemma {:induction false} FixJsonRoundTrip(s: string)
    ensures UnfixJson(FixJson(s)) == s
  {
    if |s| >= 2 && s[0] == '\\' && s[1] != '"' {
      FixJsonRoundTrip(s[2..]);
      var t := ['\\', '\\', s[1]] + FixJson(s[2..]);
      assert t[3..] == FixJson(s[2..]);
      assert UnfixJson(t) == ['\\', s[1]] + s[2..];
    } else if s != [] {
      FixJsonRoundTrip(s[1..]);
      var t := [s[0]] + FixJson(s[1..]);
      assert t[1..] == FixJson(s[1..]);
      if s[0] == '\\' && |s| >= 2 {
        assert s[1] == '"';
        assert s[1..][0] == '"';
        assert FixJson(s[1..])[0] == '"';
        assert t[1] == '"';
      }
      assert UnfixJson(t) == [s[0]] + UnfixJson(t[1..]);
      assert [s[0]] + s[1..] == s;
    }
  }

  /** The text comes back unchanged exactly when it has no backslash the rewrite would double. */
  lemma {:induction false} FixJsonIdentity(s: string)
    ensures FixJson(s) == s <==> NoBareBackslash(s)
  {
    if |s| >= 2 && s[0] == '\\' && s[1] != '"' {
      assert |FixJson(s)| == 3 + |FixJson(s[2..])| > |s|;
    } else if s != [] {
      FixJsonIdentity(s[1..]);
      var tail := s[1..];
      assert FixJson(s) == [s[0]] + FixJson(tail);
      assert FixJson(s) == s <==> FixJson(tail) == tail by {
        if FixJson(s) == s { assert FixJson(s)[1..] == s[1..]; }
        if FixJson(tail) == tail { assert [s[0]] + tail == s; }
      }
      assert NoBareBackslash(s) <==> NoBareBackslash(tail) by {
        if NoBareBackslash(s) {
          forall i | 0 <= i < |tail| - 1 && tail[i] == '\\' ensures tail[i + 1] == '"' {
            assert s[i + 1] == tail[i];
          }
        }
        if NoBareBackslash(tail) {
          forall i | 0 <= i < |s| - 1 && s[i] == '\\' ensures s[i + 1] == '"' {
            if i > 0 { assert s[i] == tail[i - 1]; }
          }
        }
      }
    }
  }

  // ---------------------------------------------------------------------------
  // _parse

  /** What the output type's `parse_raw` does with a text. */
  datatype RawParse<M> = Parsed(model: M) | DecodeFailed | ValidationFailed

  /** `_parse` returns the text itself for a plain output type and a model for a model type. */
  datatype ParseOutput<M> = PlainText(text: string) | ModelValue(model: M)

  /** The RuntimeError `_parse` raises, with the text it last tried. */
  datatype ParseError = JsonDecodeError(value: string) | FieldError(value: string)

  /**
   * `_parse`: a plain output type takes the text as it is. A model type first
   * checks the text with `json.loads` (the oracle `loads`), repairs it with
   * FixJson only if that check fails, and hands the result to `parse_raw`.
   */
  function Parse<M>(value: string, isModel: bool, loads: string -> bool, parseRaw: string -> RawParse<M>)
    : (r: Result<ParseOutput<M>, ParseError>)
    ensures !isModel ==> r == Ok(PlainText(value))
    ensures isModel && r.Ok? ==> r.value.ModelValue?
    ensures isModel && loads(value) ==> (r.Ok? <==> parseRaw(value).Parsed?)
    ensures isModel && !loads(value) ==> (r.Ok? <==> parseRaw(FixJson(value)).Parsed?)
  {
    if !isModel then Ok(PlainText(value))
    else
      var text := if loads(value) then value else FixJson(value);
      match parseRaw(text)
      case Parsed(m) => Ok(ModelValue(m))
      case DecodeFailed => Err(JsonDecodeError(text))
      case ValidationFailed => Err(FieldError(text))
  }

  /** A text that `json.loads` accepts reaches `parse_raw` untouched, and so does one without a bare backslash. */
  lemma ParseRepairsOnlyWhenNeeded<M>(value: string, loads: string -> bool, parseRaw: string -> RawParse<M>)
    requires loads(value) || NoBareBackslash(value)
    ensures Parse(value, true, loads, parseRaw) ==
      match parseRaw(value)
      case Parsed(m) => Ok(ModelValue(m))
      case DecodeFailed => Err(JsonDecodeError(value))
      case ValidationFailed => Err(FieldError(value))
  {
    if !loads(value) {
      FixJsonIdentity(value);
    }
  }

  // ---------------------------------------------------------------------------
  // ExecutionState and the retry wrapper

  /** The state passed from step to step: the context and the errors counted so far. */
  datatype ExecutionState<C> = ExecutionState(context: C, errorCount: int)
  {
    /** `add_error`: one more error, same context. */
    function AddError(): (r: ExecutionState<C>)
      ensures r.errorCount == errorCount + 1 && r.context == context
    {
      this.(errorCount := errorCount + 1)
    }

    /** `update_context`: a new context, same error count. */
    function UpdateContext(c: C): (r: ExecutionState<C>)
      ensures r.context == c && r.errorCount == errorCount
    {
      this.(context := c)
    }
  }

  /** One call of a step's base function: a result and the next context, or an exception. */
  datatype Attempt<R, C> = Success(result: R, next: C) | Failure

  datatype StepError =
    | TooManyErrors   // Exception("Too many errors") from the retry wrapper
    | UnboundResult   // a tactic without steps never binds `result`

  /**
   * The wrapped step: attempts while the error count is below `maxRetry`,
   * counting one error per failure; the first success returns its result
   * with the new context.
   */
  function Retry<R, C>(base: (C, int) -> Attempt<R, C>, maxRetry: int, s: ExecutionState<C>)
    : (r: Result<(R, ExecutionState<C>), StepError>)
    ensures r.Err? ==> r.error == TooManyErrors
    ensures s.errorCount >= maxRetry ==> r.Err?
    ensures r.Ok? ==> s.errorCount <= r.value.1.errorCount < maxRetry
    decreases maxRetry - s.errorCount
  {
    if s.errorCount >= maxRetry then Err(TooManyErrors)
    else
      match base(s.context, s.errorCount)
      case Success(result, next) => Ok((result, s.UpdateContext(next)))
      case Failure => Retry(base, maxRetry, s.AddError())
  }

  /** The wrapped step succeeds exactly when one of its allowed attempts does. */
  lemma {:induction false} RetrySucceedsIff<R, C>(base: (C, int) -> Attempt<R, C>, maxRetry: int, s: ExecutionState<C>)
    ensures Retry(base, maxRetry, s).Ok? <==>
      exists j :: s.errorCount <= j < maxRetry && base(s.context, j).Success?
    decreases maxRetry - s.errorCount
  {
    if s.errorCount < maxRetry && base(s.context, s.errorCount).Failure? {
      RetrySucceedsIff(base, maxRetry, s.AddError());
      if exists j :: s.errorCount <= j < maxRetry && base(s.context, j).Success? {
        var j :| s.errorCount <= j < maxRetry && base(s.context, j).Success?;
        assert j != s.errorCount;
        assert s.AddError().errorCount <= j;
      }
    }
  }

  /**
   * A success is the first successful attempt: every earlier attempt failed,
   * one error was counted for each, and the context is the one that attempt
   * produced.
   */
  lemma {:induction false} RetryFirstSuccess<R, C>(base: (C, int) -> Attempt<R, C>, maxRetry: int, s: ExecutionState<C>)
    requires Retry(base, maxRetry, s).Ok?
    ensures var (result, s2) := Retry(base, maxRetry, s).value;
      && base(s.context, s2.errorCount) == Success(result, s2.context)
      && forall i :: s.errorCount <= i < s2.errorCount ==> base(s.context, i).Failure?
    decreases maxRetry - s.errorCount
  {
    if base(s.context, s.errorCount).Failure? {
      RetryFirstSuccess(base, maxRetry, s.AddError());
    }
  }

  function Max(a: int, b: int): int { if a >= b then a else b }

  /**
   * `Executor._wrap_base_function`'s inner function: a loop over
   * `range(state.error_count, max_retry)` that reassigns the state on each
   * failure.
   */
  method RunWrapped<R, C>(base: (C, int) -> Attempt<R, C>, maxRetry: int, state: ExecutionState<C>)
    returns (r: Result<(R, ExecutionState<C>), StepError>)
    ensures r == Retry(base, maxRetry, state)
  {
    var s := state;
    for i := state.errorCount to Max(state.errorCount, maxRetry)
      invariant s == ExecutionState(state.context, i)
      invariant Retry(base, maxRetry, s) == Retry(base, maxRetry, state)
    {
      var attempt := base(s.context, s.errorCount);
      if attempt.Success? {
        return Ok((attempt.result, s.UpdateContext(attempt.next)));
      }
      s := s.AddError();
    }
    return Err(TooManyErrors);
  }

  // ---------------------------------------------------------------------------
  // Tactic

  /** A wrapped step: the base function and the executor's `max_retry`. */
  datatype Step<R, !C> = Step(base: (C, int) -> Attempt<R, C>, maxRetry: int)

  /** A built tactic: its own copy of the step list. */
  datatype Tactic<R, !C> = Tactic(steps: seq<Step<R, C>>)

  /** The first `n` steps run one after another from `s0`, with the last result (None before any step). */
  function RunSteps<R, C>(steps: seq<Step<R, C>>, n: nat, s0: ExecutionState<C>)
    : (r: Result<(Option<R>, ExecutionState<C>), StepError>)
    requires n <= |steps|
    ensures r.Ok? ==> (r.value.0.Some? <==> n > 0)
    ensures r.Ok? ==> s0.errorCount <= r.value.1.errorCount
    ensures r.Err? ==> r.error == TooManyErrors
  {
    if n == 0 then Ok((None, s0))
    else
      match RunSteps(steps, n - 1, s0)
      case Err(e) => Err(e)
      case Ok((_, s)) =>
        var step := steps[n - 1];
        match Retry(step.base, step.maxRetry, s)
        case Err(e) => Err(e)
        case Ok((result, s2)) => Ok((Some(result), s2))
  }

  /**
   * `Tactic.__call__`: all steps from error count 0; the last step's result
   * and the final state. Without steps it fails on the unbound result; with
   * steps it fails only when a step runs out of errors.
   */
  function Call<R, C>(t: Tactic<R, C>, context: C): (r: Result<(R, ExecutionState<C>), StepError>)
    ensures t.steps == [] <==> r == Err(UnboundResult)
    ensures t.steps != [] && r.Err? ==> r.error == TooManyErrors
    ensures r.Ok? ==> r.value.1.errorCount >= 0
  {
    match RunSteps(t.steps, |t.steps|, ExecutionState(context, 0))
    case Err(e) => Err(e)
    case Ok((None, _)) => Err(UnboundResult)
    case Ok((Some(result), s)) => Ok((result, s))
  }

  lemma {:induction false} RunStepsAfterFailure<R, C>(steps: seq<Step<R, C>>, n: nat, m: nat, s0: ExecutionState<C>)
    requires n <= m <= |steps|
    requires RunSteps(steps, n, s0).Err?
    ensures RunSteps(steps, m, s0) == RunSteps(steps, n, s0)
    decreases m
  {
    if m > n {
      RunStepsAfterFailure(steps, n, m - 1, s0);
    }
  }

  /** `Tactic.__call__` as the source writes it: a loop reassigning `result` and `state`. */
  method CallTactic<R, C>(t: Tactic<R, C>, context: C) returns (r: Result<(R, ExecutionState<C>), StepError>)
    ensures r == Call(t, context)
  {
    var state := ExecutionState(context, 0);
    var result: Option<R> := None;
    for i := 0 to |t.steps|
      invariant RunSteps(t.steps, i, ExecutionState(context, 0)) == Ok((result, state))
    {
      var out := RunWrapped(t.steps[i].base, t.steps[i].maxRetry, state);
      if out.Err? {
        RunStepsAfterFailure(t.steps, i + 1, |t.steps|, ExecutionState(context, 0));
        return Err(out.error);
      }
      result := Some(out.value.0);
      state := out.value.1;
    }
    if result.None? {
      return Err(UnboundResult);
    }
    return Ok((result.value, state));
  }

  /**
   * The retry budget is shared: when every step allows `m` errors, the errors
   * of all steps together stay below `m` in a run that gets through, and the
   * count never goes down from step to step.
   */
  lemma {:induction false} SharedBudget<R, C>(steps: seq<Step<R, C>>, n: nat, s0: ExecutionState<C>, m: int)
    requires n <= |steps|
    requires forall k :: 0 <= k < |steps| ==> steps[k].maxRetry == m
    requires RunSteps(steps, n, s0).Ok?
    ensures s0.errorCount <= RunSteps(steps, n, s0).value.1.errorCount
    ensures n > 0 ==> RunSteps(steps, n, s0).value.1.errorCount < m
  {
    if n > 0 {
      SharedBudget(steps, n - 1, s0, m);
    }
  }

  // ---------------------------------------------------------------------------
  // TacticBuilder

  /**
   * `TacticBuilder`: the names registered so far (the keys of its prompt
   * dictionary, in insertion order) and the wrapped step built for each.
   * The context type after the last step is the input type extended with
   * one field per registered name, so the names also stand for it.
   */
  class TacticBuilder<R, C> {
    var promptNames: seq<string>
    var functions: seq<Step<R, C>>

    /** One step per name, and no name twice. */
    ghost predicate Valid()
      reads this
    {
      && |promptNames| == |functions|
      && forall i, j :: 0 <= i < j < |promptNames| ==> promptNames[i] != promptNames[j]
    }

    constructor()
      ensures Valid() && promptNames == [] && functions == []
    {
      promptNames := [];
      functions := [];
    }

    /**
     * `add_typed_prompt`: the assertion on the name, then one registration and
     * one appended step. `ok` is false where the source's assertion fails, and
     * nothing changes then.
     */
    method AddTypedPrompt(name: string, step: Step<R, C>) returns (ok: bool)
      requires Valid()
      modifies this
      ensures Valid()
      ensures ok <==> name !in old(promptNames)
      ensures ok ==> promptNames == old(promptNames) + [name] && functions == old(functions) + [step]
      ensures !ok ==> promptNames == old(promptNames) && functions == old(functions)
    {
      if name in promptNames {
        return false;
      }
      promptNames := promptNames + [name];
      functions := functions + [step];
      return true;
    }

    /** `build`: a tactic holding a copy of the current steps; later registrations do not reach it. */
    method Build() returns (t: Tactic<R, C>)
      ensures t.steps == functions
    {
      t := Tactic(functions);
    }
  }
}
