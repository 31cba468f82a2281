/** gui.py: the planning window. Its buttons run the planner for the
    pre-hoc, reactive and post-hoc strategies and set the current plan; the
    post-hoc strategy embeds a response into the plan. Execution is
    `Execution.Executor` with a guarded continue. */
module Gui {
  import opened Wrappers
  import opened Strings
  import opened Regex
  import opened Patterns
  import opened Extraction
  import opened ProblemFile
  import opened Selection
  import opened Execution

  const PlanHeader: string := "Plan:"
  const FoundHeader: string := "Plan found:"
  const ExplainedHeader: string := "Plan with explanation:"
  const WalkHeader: string := "Executing Plan:"
  const FailureMarker: string := "Failure happened!"

  /** The plan one planner run gives in gui.py: the last ⌊n/2⌋ of the n
      action tokens of the output (`int(len(actions) / 2)`), without
      `noop()`. */
  function GuiPlan(stdout: string): (plan: seq<string>)
    ensures var ms := ActionMatches(stdout); plan == WithoutNoop(ms[|ms| - |ms| / 2..])
  {
    var ms := ActionMatches(stdout);
    var half := GuiHalf(ms);
    HalfTail(ms);
    WithoutNoop(half)
  }

  /** Every action of the GUI plan is a complete action token other than
      `noop()`. */
  lemma GuiPlanTokens(stdout: string)
    ensures forall a | a in GuiPlan(stdout) :: a != Noop && FullMatch(ActionToken, a)
  {
    var ms := ActionMatches(stdout);
    TailTokens(ms, |ms| - |ms| / 2);
  }

  /** The GUI's half is the tail the contract of `GuiPlan` names. */
  lemma HalfTail(ms: seq<string>)
    ensures WithoutNoop(GuiHalf(ms)) == WithoutNoop(ms[|ms| - |ms| / 2..])
  {
  }

  /** The loop building `plan_final`: the header, then every action except
      `noop()`. */
  method BuildPlanFinal(header: string, plan: seq<string>) returns (planFinal: seq<string>)
    ensures planFinal == [header] + WithoutNoop(plan)
  {
    planFinal := [header];
    var i := 0;
    while i < |plan|
      invariant i <= |plan|
      invariant planFinal == [header] + WithoutNoop(plan[..i])
    {
      assert plan[..i + 1] == plan[..i] + [plan[i]];
      WithoutNoopAppend(plan[..i], [plan[i]]);
      if plan[i] != Noop {
        planFinal := planFinal + [plan[i]];
      }
      i := i + 1;
    }
    assert plan[..i] == plan;
  }

  /** `'failure' in a` */
  predicate Fails(action: string) {
    Contains(action, "failure")
  }

  /** What the reactive walkthrough lists: the plan up to and including the
      first failing action, followed by the failure notice. */
  function Walkthrough(plan: seq<string>): seq<string> {
    if plan == [] then []
    else if Fails(plan[0]) then [plan[0], FailureMarker]
    else [plan[0]] + Walkthrough(plan[1..])
  }

  /** Without a failing action the walkthrough is the whole plan. */
  lemma {:induction false} WalkthroughWhole(plan: seq<string>)
    requires forall k | 0 <= k < |plan| :: !Fails(plan[k])
    ensures Walkthrough(plan) == plan
  {
    if plan != [] {
      WalkthroughWhole(plan[1..]);
    }
  }

  /** With a failing action, the walkthrough stops right after the first. */
  lemma {:induction false} WalkthroughCut(plan: seq<string>, k: nat)
    requires k < |plan| && Fails(plan[k])
    requires forall j | 0 <= j < k :: !Fails(plan[j])
    ensures Walkthrough(plan) == plan[..k + 1] + [FailureMarker]
  {
    if k > 0 {
      WalkthroughCut(plan[1..], k - 1);
      assert plan[..k + 1] == [plan[0]] + plan[1..][..k];
    }
  }

  /** The walkthrough loop of `run_reactive`, with `break` at the first
      failing action. */
  method Walk(plan: seq<string>) returns (l: seq<string>)
    ensures l == [WalkHeader] + Walkthrough(plan)
  {
    l := [WalkHeader];
    var i := 0;
    while i < |plan|
      invariant i <= |plan|
      invariant l == [WalkHeader] + plan[..i]
      invariant forall j | 0 <= j < i :: !Fails(plan[j])
    {
      var a := plan[i];
      if Fails(a) {
        l := l + [a];
        l := l + [FailureMarker];
        WalkthroughCut(plan, i);
        assert plan[..i + 1] == plan[..i] + [a];
        return;
      }
      l := l + [a];
      assert plan[..i + 1] == plan[..i] + [a];
      i := i + 1;
    }
    WalkthroughWhole(plan);
    assert plan[..i] == plan;
  }

  /** Python's message for `'...' + None`. */
  const NoneConcat: string := "can only concatenate str (not \"NoneType\") to str"

  /** Names as an f-string renders them, `None` when no `fetch_book` was
      found. */
  function Rendered(names: Option<(string, string)>): (string, string) {
    names.GetOr(("None", "None"))
  }

  /** The result of `get_response` for a plan and the content of the problem
      file: the plan with the response action after every `goto_waypoint`
      to `visitor_area`, the plan itself without a response, and an error
      without a failure (a string is concatenated with `None`) or when a
      number of the file is malformed. */
  function Explained(plan: seq<string>, content: string): (r: Result<seq<string>>)
    ensures r.Err? <==> FirstSome(plan, FailureIn).None? || Parse(content).Err?
  {
    var failure := FirstSome(plan, FailureIn);
    if failure.None? then Err(NoneConcat)
    else
      match Parse(content)
      case Err(e) => Err(e)
      case Ok(probabilities) =>
        var response := BestResponse(probabilities, failure.value);
        if Falsy(response) then Ok(plan)
        else
          var names := Rendered(FirstSome(plan, FetchIn));
          Ok(Annotated(plan, GoesToVisitorArea, ResponseAction(names.0, response.value, failure.value, names.1)))
  }

  /** A plan without a `goto_waypoint` to `visitor_area` comes back
      unchanged whenever there is no error. */
  lemma ExplainedUnanchored(plan: seq<string>, content: string)
    requires forall k | 0 <= k < |plan| :: !GoesToVisitorArea(plan[k])
    requires Explained(plan, content).Ok?
    ensures Explained(plan, content).value == plan
  {
    forall action: string {
      AnnotatedUnanchored(plan, GoesToVisitorArea, action);
    }
  }

  /** `get_response` */
  method GetResponse(plan: seq<string>, content: string) returns (r: Result<seq<string>>)
    ensures r == Explained(plan, content)
  {
    var failure := ExtractFailure(plan);
    if failure.None? {
      return Err(NoneConcat);
    }
    var parsed := ParseProblemFile(content);
    if parsed.Err? {
      return Err(parsed.error);
    }
    var response := BestResponse(parsed.value, failure.value);
    if response.None? || response.value == "" {
      return Ok(plan);
    }
    var found := FindFetch(plan);
    var robot, visitor := "None", "None";
    if found.Some? {
      robot, visitor := found.value.0, found.value.1;
    }
    var action := ResponseAction(robot, response.value, failure.value, visitor);
    var updated := InsertAfterAnchors(plan, GoesToVisitorArea, action);
    return Ok(updated);
  }

  class PlanningGui {
    var currentPlan: seq<string>
    const executor: Executor

    constructor()
      ensures currentPlan == [] && fresh(executor)
      ensures executor.guarded && executor.Current() == Initial
    {
      currentPlan := [];
      executor := new Executor(true);
    }

    /** `run_pre_hoc`; `stdout` is the planner's output, `None` when the
        planner process fails, which leaves the plan as it was. */
    method RunPreHoc(stdout: Option<string>)
      modifies this
      ensures currentPlan == if stdout.Some? then GuiPlan(stdout.value) else old(currentPlan)
    {
      if stdout.Some? {
        var actions := ActionMatches(stdout.value);
        var planFinal := BuildPlanFinal(PlanHeader, GuiHalf(actions));
        currentPlan := planFinal[1..];
      }
    }

    /** `run_reactive` with the outputs of its two planner runs: the
        walkthrough of the first plan, then the plan of the second run. */
    method RunReactive(first: Option<string>, second: Option<string>) returns (walk: seq<string>)
      modifies this
      ensures var planned := if first.Some? then GuiPlan(first.value) else old(currentPlan);
        walk == [WalkHeader] + Walkthrough(planned)
        && currentPlan == if second.Some? then GuiPlan(second.value) else planned
    {
      if first.Some? {
        var planFinal := BuildPlanFinal(PlanHeader, GuiHalf(ActionMatches(first.value)));
        currentPlan := planFinal[1..];
      }
      walk := Walk(currentPlan);
      if second.Some? {
        var planFinal := BuildPlanFinal(PlanHeader, GuiHalf(ActionMatches(second.value)));
        currentPlan := planFinal[1..];
      }
    }

    /** `run_post_hoc`: the found plan, then the plan with its explanation;
        an error of `get_response` propagates and leaves the found plan. */
    method RunPostHoc(stdout: Option<string>, content: string) returns (error: Option<string>)
      modifies this
      ensures stdout.None? ==> currentPlan == old(currentPlan) && error.None?
      ensures stdout.Some? ==>
        var r := Explained(GuiPlan(stdout.value), content);
        if r.Ok? then currentPlan == r.value && error.None?
        else currentPlan == GuiPlan(stdout.value) && error == Some(r.error)
    {
      error := None;
      if stdout.Some? {
        var planFinal := BuildPlanFinal(FoundHeader, GuiHalf(ActionMatches(stdout.value)));
        currentPlan := planFinal[1..];
        var r := GetResponse(currentPlan, content);
        if r.Err? {
          return Some(r.error);
        }
        var explained := [ExplainedHeader] + r.value;
        currentPlan := explained[1..];
      }
    }

    /** `start_execution` on the current plan. */
    method StartExecution()
      modifies executor
      ensures executor.Current() == Start(old(executor.Current()), currentPlan)
    {
      executor.StartExecution(currentPlan);
    }
  }
}
