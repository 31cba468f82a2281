/** planner.py: the planner interface (plan extraction from planner output,
    the anytime fallback, loading a plan from a log) and the analyser that
    embeds an explanation into a plan. The executor is `Execution.Executor`
    with an unguarded continue. */
module Planner {
  import opened Wrappers
  import opened Strings
  import opened Regex
  import opened Patterns
  import opened Extraction
  import opened ProblemFile
  import opened Selection

  /** `generate_plan`; `stdout` is the planner's output, `None` when the
      planner process fails. */
  function GeneratePlan(stdout: Option<string>): (plan: seq<string>)
    ensures stdout.None? ==> plan == []
    ensures stdout.Some? ==>
      var ms := ActionMatches(stdout.value);
      plan == WithoutNoop(ms[|ms| - (|ms| + 1) / 2..])
    ensures forall a | a in plan :: a != Noop && FullMatch(ActionToken, a)
  {
    if stdout.None? then []
    else
      var ms := ActionMatches(stdout.value);
      var half := PlannerHalf(ms);
      TailTokens(ms, |ms| - |half|);
      WithoutNoop(half)
  }

  const TimeoutPlan: seq<string> := ["partial(plan) due to timeout"]

  /** `result if result else [...]` in `generate_anytime_plan`. */
  function AnytimeFallback(result: seq<string>): (r: seq<string>)
    ensures r != []
    ensures result != [] <==> r == result
    ensures result == [] ==> r == TimeoutPlan
  {
    if result != [] then result else TimeoutPlan
  }

  const MissingLog: seq<string> := ["Log file not found"]

  /** `load_from_log`; `content` is the file's text, `None` when the file
      does not exist. */
  function LoadFromLog(content: Option<string>): (plan: seq<string>)
    ensures content.None? ==> plan == MissingLog
    ensures content.Some? ==> forall a | a in plan :: a != [] && Trimmed(a)
    ensures content.Some? ==> plan == StrippedItems(Split(content.value, '\n'))
  {
    if content.None? then MissingLog
    else
      LogLinesSplit(content.value);
      LogLines(content.value)
  }

  /** Saving a plan of clean lines one per line and loading it back gives
      the plan. */
  lemma LoadSaved(plan: seq<string>)
    requires forall k | 0 <= k < |plan| :: plan[k] != [] && Trimmed(plan[k]) && '\n' !in plan[k]
    ensures LoadFromLog(Some(Join(plan, '\n'))) == plan
  {
    LogRoundTrip(plan);
  }

  /** `insert_explanation` on a plan and the content of the problem file:
      unchanged without a failure or without a response for it; otherwise
      the most probable response is inserted after every action that
      mentions both `goto_waypoint` and `visitor_area`. */
  method InsertExplanation(plan: seq<string>, content: string) returns (r: Result<seq<string>>)
    ensures var failure := FirstSome(plan, FailureIn);
      if Falsy(failure) then r == Ok(plan)
      else if Parse(content).Err? then r == Err(Parse(content).error)
      else
        var response := BestResponse(Parse(content).value, failure.value);
        var names := FirstSome(plan, FetchIn).GetOr(("robot1", "visitor1"));
        if Falsy(response) then r == Ok(plan)
        else r == Ok(Annotated(plan, MentionsVisitorArea,
                               ResponseAction(names.0, response.value, failure.value, names.1)))
  {
    var failure := ExtractFailure(plan);
    if failure.None? || failure.value == "" {
      return Ok(plan);
    }
    var parsed := ParseProblemFile(content);
    if parsed.Err? {
      return Err(parsed.error);
    }
    var response := BestResponse(parsed.value, failure.value);
    if response.None? || response.value == "" {
      return Ok(plan);
    }
    var names := FindFetch(plan);
    var robot, visitor := "robot1", "visitor1";
    if names.Some? {
      robot, visitor := names.value.0, names.value.1;
    }
    var action := ResponseAction(robot, response.value, failure.value, visitor);
    var updated := InsertAfterAnchors(plan, MentionsVisitorArea, action);
    return Ok(updated);
  }
}
