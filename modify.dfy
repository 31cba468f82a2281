/** modify_rddl.py: the details of a post-hoc plan, and the line-by-line
    rewrite of a post-hoc RDDL problem file into a reactive one (fixed
    response probabilities, an initial state recording the fetched book and
    the failure, the reactive names, and the robot's start waypoint). */
module ModifyRddl {
  import opened Wrappers
  import opened Strings
  import opened Regex
  import opened Patterns
  import opened Extraction
  import opened Selection

  /** The `details` dictionary; `None` where the plan has no value. */
  datatype Details = Details(robot: Option<string>, human: Option<string>, book: Option<string>,
                             failure: Option<string>, waypoint: Option<string>)

  lemma AllArgumentsCaptures(name: string)
    ensures !Nullable(AllArguments(name)) && Captures(AllArguments(name)) == 3
  {
    AllArgumentsDeterministic(name);
    var last := Then(Spaces(), Then(Word(true), Then(Lit(")"), Done)));
    assert Captures(last) == 1;
    var middle := Then(Spaces(), Then(Word(true), Then(Lit(","), last)));
    assert Captures(middle) == 2;
    assert AllArguments(name) == Then(Lit(name + "("), Then(Word(true), Then(Lit(","), middle)));
  }

  /** The three arguments of an action that starts with `name(a, b, c)`. */
  function Arguments(name: string, action: string): (r: Option<seq<string>>)
    ensures r.Some? ==> |r.value| == 3
  {
    AllArgumentsCaptures(name);
    match MatchAt(AllArguments(name), action, 0)
    case None => None
    case Some(h) => Some(h.groups)
  }

  function FetchArguments(action: string): Option<seq<string>> {
    Arguments("fetch_book", action)
  }

  function FailureArgument(action: string): Option<string> {
    var a := Arguments("failure_happens", action);
    if a.None? then None else Some(a.value[2])
  }

  function WaypointArgument(action: string): Option<string> {
    var a := Arguments("goto_waypoint", action);
    if a.None? then None else Some(a.value[2])
  }

  /** The value `f` gives for the last action where it gives one. */
  function LastSome<T>(plan: seq<string>, f: string -> Option<T>): (r: Option<T>)
    ensures r.None? <==> forall k | 0 <= k < |plan| :: f(plan[k]).None?
    decreases |plan|
  {
    if plan == [] then None
    else if f(plan[|plan| - 1]).Some? then f(plan[|plan| - 1])
    else LastSome(plan[..|plan| - 1], f)
  }

  /** What `LastSome` finds comes from the last action that gives a value. */
  lemma {:induction false} LastSomeIsLast<T>(plan: seq<string>, f: string -> Option<T>)
    requires LastSome(plan, f).Some?
    ensures exists k | 0 <= k < |plan| :: f(plan[k]) == LastSome(plan, f)
                                          && forall j | k < j < |plan| :: f(plan[j]).None?
    decreases |plan|
  {
    var n := |plan| - 1;
    if f(plan[n]).None? {
      var front := plan[..n];
      LastSomeIsLast(front, f);
      var k :| 0 <= k < |front| && f(front[k]) == LastSome(front, f)
                                && forall j | k < j < |front| :: f(front[j]).None?;
      assert f(plan[k]) == LastSome(plan, f);
      assert forall j | k < j < |plan| :: f(plan[j]).None? by {
        forall j | k < j < |plan| ensures f(plan[j]).None? {
          if j < n { assert plan[j] == front[j]; }
        }
      }
    }
  }

  function Component(a: Option<seq<string>>, i: nat): Option<string>
    requires a.Some? ==> i < |a.value|
  {
    if a.None? then None else Some(a.value[i])
  }

  /** `extract_plan_details` as a value: robot, book and human from the last
      `fetch_book`, the failure from the last `failure_happens`, the
      waypoint from the first `goto_waypoint`. */
  function PlanDetails(plan: seq<string>): Details {
    var fetch := LastSome(plan, FetchArguments);
    assert fetch.Some? ==> |fetch.value| == 3 by {
      if fetch.Some? { LastSomeIsLast(plan, FetchArguments); }
    }
    Details(Component(fetch, 0), Component(fetch, 2), Component(fetch, 1),
            LastSome(plan, FailureArgument), FirstSome(plan, WaypointArgument))
  }

  /** A detail stays `None` exactly when no action supplies it. */
  lemma PlanDetailsAbsent(plan: seq<string>)
    ensures var d := PlanDetails(plan);
      (d.robot.None? <==> forall k | 0 <= k < |plan| :: FetchArguments(plan[k]).None?)
      && (d.book.None? <==> d.robot.None?) && (d.human.None? <==> d.robot.None?)
      && (d.failure.None? <==> forall k | 0 <= k < |plan| :: FailureArgument(plan[k]).None?)
      && (d.waypoint.None? <==> forall k | 0 <= k < |plan| :: WaypointArgument(plan[k]).None?)
  {
  }

  /** Each detail comes from the action the source takes it from: the last
      `fetch_book`, the last `failure_happens`, the first `goto_waypoint`. */
  lemma PlanDetailsSources(plan: seq<string>)
    ensures var d := PlanDetails(plan);
      (d.robot.Some? ==> exists k | 0 <= k < |plan| :: FetchArguments(plan[k]) == Some([d.robot.value, d.book.value, d.human.value])
                                    && forall j | k < j < |plan| :: FetchArguments(plan[j]).None?)
      && (d.failure.Some? ==> exists k | 0 <= k < |plan| :: FailureArgument(plan[k]) == d.failure
                                    && forall j | k < j < |plan| :: FailureArgument(plan[j]).None?)
      && (d.waypoint.Some? ==> exists k | 0 <= k < |plan| :: WaypointArgument(plan[k]) == d.waypoint
                                    && forall j | 0 <= j < k :: WaypointArgument(plan[j]).None?)
  {
    FetchSource(plan);
    FailureSource(plan);
    WaypointSource(plan);
  }

  lemma FetchSource(plan: seq<string>)
    ensures var d := PlanDetails(plan);
      d.robot.Some? ==> exists k | 0 <= k < |plan| :: FetchArguments(plan[k]) == Some([d.robot.value, d.book.value, d.human.value])
                                  && forall j | k < j < |plan| :: FetchArguments(plan[j]).None?
  {
    var fetch := LastSome(plan, FetchArguments);
    if fetch.Some? {
      LastSomeIsLast(plan, FetchArguments);
      var k :| 0 <= k < |plan| && FetchArguments(plan[k]) == fetch
                               && forall j | k < j < |plan| :: FetchArguments(plan[j]).None?;
      var a := fetch.value;
      assert a == [a[0], a[1], a[2]];
      var d := PlanDetails(plan);
      assert d.robot == Some(a[0]) && d.book == Some(a[1]) && d.human == Some(a[2]);
    }
  }

  lemma FailureSource(plan: seq<string>)
    ensures var d := PlanDetails(plan);
      d.failure.Some? ==> exists k | 0 <= k < |plan| :: FailureArgument(plan[k]) == d.failure
                                  && forall j | k < j < |plan| :: FailureArgument(plan[j]).None?
  {
    if PlanDetails(plan).failure.Some? {
      LastSomeIsLast(plan, FailureArgument);
    }
  }

  lemma WaypointSource(plan: seq<string>)
    ensures var d := PlanDetails(plan);
      d.waypoint.Some? ==> exists k | 0 <= k < |plan| :: WaypointArgument(plan[k]) == d.waypoint
                                  && forall j | 0 <= j < k :: WaypointArgument(plan[j]).None?
  {
    if PlanDetails(plan).waypoint.Some? {
      FirstSomeIsFirst(plan, WaypointArgument);
    }
  }

  lemma FirstSomeSnoc<T>(plan: seq<string>, x: string, f: string -> Option<T>)
    ensures FirstSome(plan + [x], f) == if FirstSome(plan, f).Some? then FirstSome(plan, f) else f(x)
    decreases |plan|
  {
    if plan == [] {
      assert plan + [x] == [x];
    } else {
      assert (plan + [x])[1..] == plan[1..] + [x];
      FirstSomeSnoc(plan[1..], x, f);
    }
  }

  lemma LastSomeSnoc<T>(plan: seq<string>, x: string, f: string -> Option<T>)
    ensures LastSome(plan + [x], f) == if f(x).Some? then f(x) else LastSome(plan, f)
  {
    assert (plan + [x])[..|plan|] == plan;
  }

  /** How one more action changes the details. */
  lemma DetailsSnoc(plan: seq<string>, x: string)
    ensures var d, e, fetch := PlanDetails(plan), PlanDetails(plan + [x]), FetchArguments(x);
      (fetch.Some? ==> e.robot == Some(fetch.value[0]) && e.book == Some(fetch.value[1]) && e.human == Some(fetch.value[2]))
      && (fetch.None? ==> e.robot == d.robot && e.book == d.book && e.human == d.human)
      && e.failure == (if FailureArgument(x).Some? then FailureArgument(x) else d.failure)
      && e.waypoint == (if d.waypoint.Some? then d.waypoint else WaypointArgument(x))
  {
    LastSomeSnoc(plan, x, FetchArguments);
    LastSomeSnoc(plan, x, FailureArgument);
    FirstSomeSnoc(plan, x, WaypointArgument);
  }

  /** The loop of `extract_plan_details`, with its `waypoint_found` flag. */
  method ExtractPlanDetails(plan: seq<string>) returns (details: Details)
    ensures details == PlanDetails(plan)
  {
    details := Details(None, None, None, None, None);
    var waypointFound := false;
    var i := 0;
    while i < |plan|
      invariant i <= |plan|
      invariant details == PlanDetails(plan[..i])
      invariant waypointFound <==> details.waypoint.Some?
    {
      var action := plan[i];
      details, waypointFound := TakeAction(plan[..i], details, waypointFound, action);
      assert plan[..i + 1] == plan[..i] + [action];
      i := i + 1;
    }
    assert plan[..i] == plan;
  }

  /** One pass of that loop: the details of `prefix` become those of
      `prefix` and `action`. */
  method TakeAction(ghost prefix: seq<string>, details: Details, waypointFound: bool, action: string)
    returns (next: Details, found: bool)
    requires details == PlanDetails(prefix) && (waypointFound <==> details.waypoint.Some?)
    ensures next == PlanDetails(prefix + [action]) && (found <==> next.waypoint.Some?)
  {
    DetailsSnoc(prefix, action);
    next, found := details, waypointFound;
    var fetch := FetchArguments(action);
    if fetch.Some? {
      next := next.(robot := Some(fetch.value[0]), book := Some(fetch.value[1]), human := Some(fetch.value[2]));
    }
    var failure := FailureArgument(action);
    if failure.Some? {
      next := next.(failure := failure);
    }
    var waypoint := WaypointArgument(action);
    if waypoint.Some? && !found {
      next := next.(waypoint := waypoint);
      found := true;
    }
  }

  /** An entry of the `if`/`elif` chain: a line holding the key of `response`
      and `failure` is replaced by that probability set to `value`. */
  datatype Entry = Entry(response: string, failure: string, value: string)

  const Failures: seq<string> := ["agent_error", "suboptimal_behavior", "agent_inability",
    "unforeseen_circumstances", "uncertainty", "social_norm_violation", "normal_interaction"]

  function Key(response: string, failure: string): (key: string)
    ensures StartsWith(key, "prob_response(")
  {
    assert "prob_response(" + response + ", " + failure + ")"
        == "prob_response(" + (response + ", " + failure + ")");
    "prob_response(" + response + ", " + failure + ")"
  }

  function EntryKey(e: Entry): string {
    Key(e.response, e.failure)
  }

  function EntryLine(e: Entry): string {
    "      " + EntryKey(e) + " = " + e.value + ";\n"
  }

  /** The entries for one failure, the responses in order with their values. */
  function Row(failure: string): seq<Entry> {
    [Entry("why_explanation", failure, "0.2"), Entry("what_explanation", failure, "0.15"),
     Entry("apology", failure, "0.1"), Entry("ask_for_help", failure, "0.25"),
     Entry("narrate_next_action", failure, "0.2"), Entry("continue_without_comment", failure, "0.05")]
  }

  function Rows(failures: seq<string>): (entries: seq<Entry>)
    ensures |entries| == 6 * |failures|
    ensures forall k | 0 <= k < |entries| :: entries[k] == Row(failures[k / 6])[k % 6]
  {
    seq(6 * |failures|, k requires 0 <= k < 6 * |failures| => Row(failures[k / 6])[k % 6])
  }

  /** The chain in its order; its first entry sets the probability of a why
      explanation after an agent error to 0.9, keeping the old value 0.2 in a
      comment. */
  const Chain: seq<Entry> := Rows(Failures)[0 := Entry("why_explanation", "agent_error", "0.9; //0.2")]

  /** The chain: the line of the first entry whose key the line contains,
      else the line itself. */
  function Rechain(line: string, entries: seq<Entry>): string
    decreases |entries|
  {
    if entries == [] then line
    else if Contains(line, EntryKey(entries[0])) then EntryLine(entries[0])
    else Rechain(line, entries[1..])
  }

  /** A line holding a key is replaced by the fixed text of the first key it
      holds. */
  lemma {:induction false} ChainFirstKey(line: string, entries: seq<Entry>, k: nat)
    requires k < |entries| && Contains(line, EntryKey(entries[k]))
    requires forall j | 0 <= j < k :: !Contains(line, EntryKey(entries[j]))
    ensures Rechain(line, entries) == EntryLine(entries[k])
  {
    if k > 0 {
      ChainFirstKey(line, entries[1..], k - 1);
    }
  }

  /** A line holding no key passes the chain unchanged. */
  lemma {:induction false} ChainNoKey(line: string, entries: seq<Entry>)
    requires forall j | 0 <= j < |entries| :: !Contains(line, EntryKey(entries[j]))
    ensures Rechain(line, entries) == line
  {
    if entries != [] {
      ChainNoKey(line, entries[1..]);
    }
  }

  /** The chain's first entry wins: a line holding the key of a why
      explanation after an agent error gets the value 0.9. */
  lemma WhyAgentError(line: string)
    requires Contains(line, Key("why_explanation", "agent_error"))
    ensures Rechain(line, Chain) == EntryLine(Entry("why_explanation", "agent_error", "0.9; //0.2"))
  {
    assert Chain[0] == Entry("why_explanation", "agent_error", "0.9; //0.2");
    ChainFirstKey(line, Chain, 0);
  }

  const Posthoc: string := "posthoc"
  const NfStem: string := "nf_explanation_planning_"
  const NfPosthoc: string := NfStem + Posthoc
  const NfReactive: string := NfStem + "reactive"
  const InstancePosthoc: string := "instance_" + Posthoc
  const InitState: string := "init-state {"
  const StartAt: string := "robot_at(tiago, start_position);"
  const NoneConcat: string := "can only concatenate str (not \"NoneType\") to str"
  const NoneReplace: string := "replace() argument 2 must be str, not None"

  /** The line after the non-fluents rename and the chain, as the
      `init-state {` check sees it. */
  function Prepared(line: string): string {
    var renamed := if Contains(line, "non-fluents " + NfPosthoc) then ReplaceAll(line, NfPosthoc, NfReactive) else line;
    Rechain(renamed, Chain)
  }

  predicate OpensInit(line: string) {
    Contains(Prepared(line), InitState)
  }

  /** The lines that follow `init-state {`; `None` when a detail they need
      is missing. */
  function InitLines(d: Details): Option<seq<string>> {
    if d.book.None? || d.robot.None? || d.human.None? || d.failure.None? then None
    else Some(["        book_fetched(" + d.book.value + ", " + d.robot.value + ", " + d.human.value + ");\n",
               "        failure_triggered(" + d.failure.value + ");\n",
               "        failure_happened = true;\n"])
  }

  /** One turn of the loop of `modify_problem_file`: the lines it appends,
      or the error that ends the run. */
  function RewriteLine(line: string, d: Details): (r: Result<seq<string>>)
    ensures r.Ok? ==> (OpensInit(line) ==> |r.value| == 4) && (!OpensInit(line) ==> |r.value| == 1)
    ensures r.Err? <==> (OpensInit(line) && InitLines(d).None?)
                        || (!OpensInit(line) && d.waypoint.None? && Contains(Finished(Prepared(line)), StartAt))
  {
    var l := Prepared(line);
    if Contains(l, InitState) then
      var extra := InitLines(d);
      if extra.None? then Err(NoneConcat) else Ok([l] + extra.value)
    else
      var l' := Finished(l);
      if Contains(l', StartAt) then
        if d.waypoint.None? then Err(NoneReplace) else Ok([ReplaceAll(l', StartPosition, d.waypoint.value)])
      else Ok([l'])
  }

  /** The instance and non-fluents renames after the chain. */
  function Finished(l: string): string {
    var l1 := if Contains(l, "instance " + InstancePosthoc) then ReplaceAll(l, InstancePosthoc, "instance_reactive") else l;
    if Contains(l1, NfPosthoc) then ReplaceAll(l1, NfPosthoc, NfReactive) else l1
  }

  /** The whole loop: the output lines, or the first error. */
  function RewriteAll(lines: seq<string>, d: Details): Result<seq<string>>
    decreases |lines|
  {
    if lines == [] then Ok([])
    else
      match RewriteLine(lines[0], d)
      case Err(e) => Err(e)
      case Ok(out) =>
        match RewriteAll(lines[1..], d)
        case Err(e) => Err(e)
        case Ok(rest) => Ok(out + rest)
  }

  function InitCount(lines: seq<string>): nat
    decreases |lines|
  {
    if lines == [] then 0 else (if OpensInit(lines[0]) then 1 else 0) + InitCount(lines[1..])
  }

  /** Three lines are added after each `init-state {` line and no others. */
  lemma {:induction false} RewriteAllLength(lines: seq<string>, d: Details)
    requires RewriteAll(lines, d).Ok?
    ensures |RewriteAll(lines, d).value| == |lines| + 3 * InitCount(lines)
    decreases |lines|
  {
    if lines != [] {
      RewriteAllLength(lines[1..], d);
    }
  }

  /** A sub-string of an occurring string occurs. */
  lemma ContainsEnd(s: string, a: string, t: string)
    requires Contains(s, a + t)
    ensures Contains(s, t)
  {
    var i :| 0 <= i <= |s| && StartsWith(s[i..], a + t);
    assert s[i + |a|..][..|t|] == (a + t)[|a|..];
    assert StartsWith(s[i + |a|..], t);
  }

  /** A line none of the checks can touch. */
  predicate Plain(line: string) {
    !Contains(line, "prob_response(") && !Contains(line, InitState) && !Contains(line, Posthoc)
    && !Contains(line, StartAt)
  }

  /** A string holding a string holds its start. */
  lemma ContainsStart(s: string, t: string, p: string)
    requires StartsWith(t, p) && Contains(s, t)
    ensures Contains(s, p)
  {
    var i :| 0 <= i <= |s| && StartsWith(s[i..], t);
    assert StartsWith(s[i..], p);
  }

  /** Every key of the chain starts with `prob_response(`. */
  lemma KeysNeedPrefix(line: string, entries: seq<Entry>)
    ensures forall j | 0 <= j < |entries| :: Contains(line, EntryKey(entries[j])) ==> Contains(line, "prob_response(")
  {
    forall j | 0 <= j < |entries| && Contains(line, EntryKey(entries[j])) ensures Contains(line, "prob_response(") {
      ContainsStart(line, EntryKey(entries[j]), "prob_response(");
    }
  }

  lemma PreparedPlain(line: string)
    requires Plain(line)
    ensures Prepared(line) == line
  {
    if Contains(line, "non-fluents " + NfPosthoc) {
      assert "non-fluents " + NfPosthoc == ("non-fluents " + NfStem) + Posthoc;
      ContainsEnd(line, "non-fluents " + NfStem, Posthoc);
    }
    KeysNeedPrefix(line, Chain);
    ChainNoKey(line, Chain);
  }

  lemma FinishedPlain(line: string)
    requires !Contains(line, Posthoc)
    ensures Finished(line) == line
  {
    if Contains(line, "instance " + InstancePosthoc) {
      assert "instance " + InstancePosthoc == ("instance " + "instance_") + Posthoc;
      ContainsEnd(line, "instance " + "instance_", Posthoc);
    }
    if Contains(line, NfPosthoc) {
      ContainsEnd(line, NfStem, Posthoc);
    }
  }

  /** A plain line is copied as it is. */
  lemma PlainLineKept(line: string, d: Details)
    requires Plain(line)
    ensures RewriteLine(line, d) == Ok([line])
  {
    PreparedPlain(line);
    FinishedPlain(line);
  }

  lemma {:induction false} PlainLinesKept(lines: seq<string>, d: Details)
    requires forall k | 0 <= k < |lines| :: Plain(lines[k])
    ensures RewriteAll(lines, d) == Ok(lines)
    decreases |lines|
  {
    if lines != [] {
      PlainLinesKept(lines[1..], d);
      PlainLineKept(lines[0], d);
      RewriteAllCons(lines, d, [lines[0]], lines[1..]);
      HeadTail(lines);
    }
  }

  lemma HeadTail<T>(xs: seq<T>)
    requires xs != []
    ensures [xs[0]] + xs[1..] == xs
  {
  }

  lemma RewriteAllCons(lines: seq<string>, d: Details, out: seq<string>, rest: seq<string>)
    requires lines != [] && RewriteLine(lines[0], d) == Ok(out) && RewriteAll(lines[1..], d) == Ok(rest)
    ensures RewriteAll(lines, d) == Ok(out + rest)
  {
  }

  /** The result of the loop once the lines `updated` are written. */
  function After(updated: seq<string>, r: Result<seq<string>>): Result<seq<string>> {
    match r
    case Ok(rest) => Ok(updated + rest)
    case Err(e) => Err(e)
  }

  lemma RewriteStep(lines: seq<string>, i: nat, updated: seq<string>, d: Details)
    requires i < |lines|
    ensures var out := RewriteLine(lines[i], d);
      After(updated, RewriteAll(lines[i..], d))
      == if out.Err? then Err(out.error) else After(updated + out.value, RewriteAll(lines[i + 1..], d))
  {
    assert lines[i..][1..] == lines[i + 1..];
    var out := RewriteLine(lines[i], d);
    var rest := RewriteAll(lines[i + 1..], d);
    if out.Ok? && rest.Ok? {
      assert updated + (out.value + rest.value) == (updated + out.value) + rest.value;
    }
  }

  /** An `init-state {` line is kept and followed by the fetched book with
      its robot and human, the failure, and the flag that it happened. */
  lemma InitLineFollowed(line: string, d: Details)
    requires OpensInit(line) && d.book.Some? && d.robot.Some? && d.human.Some? && d.failure.Some?
    ensures RewriteLine(line, d)
         == Ok([Prepared(line),
                "        book_fetched(" + d.book.value + ", " + d.robot.value + ", " + d.human.value + ");\n",
                "        failure_triggered(" + d.failure.value + ");\n",
                "        failure_happened = true;\n"])
  {
    var e := InitLines(d).value;
    assert [Prepared(line)] + e == [Prepared(line), e[0], e[1], e[2]];
  }

  lemma NfRenameUnmixed()
    ensures Unmixed(NfReactive, NfPosthoc)
  {
    NfAnchored();
    UnmixedByChars(NfReactive, NfPosthoc, 24);
  }

  lemma NfAnchored()
    ensures ThreeAnchored(NfReactive, NfPosthoc)
  {
  }

  lemma InstanceRenameUnmixed()
    ensures Unmixed("instance_reactive", InstancePosthoc)
  {
    UnmixedByChars("instance_reactive", InstancePosthoc, 9);
  }

  lemma NfRenameKeepsInstance()
    ensures Unmixed(NfReactive, InstancePosthoc)
  {
    UnmixedByChars(NfReactive, InstancePosthoc, 0);
  }

  /** After the renames no post-hoc non-fluents name is left, and no post-hoc
      instance name once the line declares the post-hoc instance. */
  lemma RenamesApplied(l: string)
    ensures !Contains(Finished(l), NfPosthoc)
    ensures Contains(l, "instance " + InstancePosthoc) ==> !Contains(Finished(l), InstancePosthoc)
  {
    var l1 := if Contains(l, "instance " + InstancePosthoc) then ReplaceAll(l, InstancePosthoc, "instance_reactive") else l;
    if Contains(l, "instance " + InstancePosthoc) {
      InstanceRenameUnmixed();
      ReplaceAvoids(l, InstancePosthoc, "instance_reactive", InstancePosthoc);
    }
    if Contains(l1, NfPosthoc) {
      NfRenameUnmixed();
      ReplaceAvoids(l1, NfPosthoc, NfReactive, NfPosthoc);
      if Contains(l, "instance " + InstancePosthoc) {
        NfRenameKeepsInstance();
        ReplaceAvoids(l1, NfPosthoc, NfReactive, InstancePosthoc);
      }
    }
  }

  /** A line that neither opens the initial state nor places the robot is
      written once, renamed, with no post-hoc name left where the renames
      apply. */
  lemma RenamedLine(line: string, d: Details)
    requires !OpensInit(line) && !Contains(Finished(Prepared(line)), StartAt)
    ensures RewriteLine(line, d) == Ok([Finished(Prepared(line))])
    ensures !Contains(RewriteLine(line, d).value[0], NfPosthoc)
    ensures Contains(Prepared(line), "instance " + InstancePosthoc) ==> !Contains(RewriteLine(line, d).value[0], InstancePosthoc)
  {
    RenamesApplied(Prepared(line));
  }

  const StartPosition: string := "start_position"

  /** No proper end of `start_position` begins the start fact. */
  lemma StartPositionEnds(y: string)
    ensures forall o | 0 < o < |StartPosition| :: !StartsWith(StartAt + y, StartPosition[o..])
  {
    var b := StartAt + y;
    assert b[0] == StartAt[0] == 'r' && b[1] == StartAt[1] == 'o';
    forall o | 0 < o < |StartPosition| ensures !StartsWith(b, StartPosition[o..]) {
      var e := StartPosition[o..];
      if |e| <= |b| {
        if o == 3 {
          assert e[1] == 't' && b[..|e|][1] == b[1];
        } else {
          assert e[0] == StartPosition[o] && b[..|e|][0] == b[0];
        }
      }
    }
  }

  /** The start fact itself receives the waypoint. */
  lemma StartFactReplaced(y: string, wp: string)
    ensures ReplaceAll(StartAt + y, StartPosition, wp) == "robot_at(tiago, " + wp + ");" + ReplaceAll(y, StartPosition, wp)
  {
    var head, tail := "robot_at(tiago, ", ");";
    assert StartAt == head + StartPosition + tail;
    assert forall i | 0 <= i < |head| :: head[i] != 's';
    ReplaceOne(head, StartPosition, tail, y, wp);
  }

  /** No occurrence of `start_position` reaches into the start fact from
      the text before it, so the fact is rewritten on its own. */
  lemma StartFactSplit(x: string, y: string, wp: string)
    ensures ReplaceAll(x + (StartAt + y), StartPosition, wp)
         == ReplaceAll(x, StartPosition, wp) + ("robot_at(tiago, " + wp + ");" + ReplaceAll(y, StartPosition, wp))
  {
    StartPositionEnds(y);
    HeadBlocks(x, StartAt + y, StartPosition);
    ReplaceSplit(x, StartAt + y, StartPosition, wp);
    StartFactReplaced(y, wp);
  }

  /** Replacing `start_position` in a line holding the start fact puts the
      waypoint into that fact. */
  lemma PlacesWaypoint(l: string, wp: string)
    requires Contains(l, StartAt)
    ensures Contains(ReplaceAll(l, StartPosition, wp), "robot_at(tiago, " + wp + ");")
  {
    var i :| 0 <= i <= |l| && StartsWith(l[i..], StartAt);
    var x, y := l[..i], l[i + |StartAt|..];
    assert l == x + (StartAt + y);
    StartFactSplit(x, y, wp);
    var m := "robot_at(tiago, " + wp + ");";
    var rx, ry := ReplaceAll(x, StartPosition, wp), ReplaceAll(y, StartPosition, wp);
    assert rx + (m + ry) == rx + m + ry;
    ContainsMiddle(rx, m, ry);
  }

  /** A line that places the robot at `start_position` is written once, with
      the plan's first waypoint in its place. */
  lemma WaypointLine(line: string, d: Details)
    requires !OpensInit(line) && d.waypoint.Some? && Contains(Finished(Prepared(line)), StartAt)
    ensures RewriteLine(line, d) == Ok([ReplaceAll(Finished(Prepared(line)), StartPosition, d.waypoint.value)])
    ensures Contains(RewriteLine(line, d).value[0], "robot_at(tiago, " + d.waypoint.value + ");")
  {
    PlacesWaypoint(Finished(Prepared(line)), d.waypoint.value);
  }

  /** Where each line's output sits in the loop's output: after the earlier
      lines and three more for each earlier `init-state {` line. */
  lemma RewriteAllAt(lines: seq<string>, d: Details, i: nat)
    requires RewriteAll(lines, d).Ok? && i < |lines|
    ensures RewriteLine(lines[i], d).Ok?
    ensures var out, piece, o := RewriteAll(lines, d).value, RewriteLine(lines[i], d).value, i + 3 * InitCount(lines[..i]);
      o + |piece| <= |out| && out[o..o + |piece|] == piece
  {
    RewriteAllPrefix(lines, d, i);
    RewriteAllLength(lines[..i], d);
  }

  /** Line `i`'s output follows the output of the lines before it. */
  lemma RewriteAllPrefix(lines: seq<string>, d: Details, i: nat)
    requires RewriteAll(lines, d).Ok? && i < |lines|
    ensures RewriteLine(lines[i], d).Ok? && RewriteAll(lines[..i], d).Ok?
    ensures var out, before, piece := RewriteAll(lines, d).value, RewriteAll(lines[..i], d).value, RewriteLine(lines[i], d).value;
      |before| + |piece| <= |out| && out[|before|..|before| + |piece|] == piece
  {
    var f := (line: string) => RewriteLine(line, d);
    RewriteAllCollect(lines, d);
    RewriteAllCollect(lines[..i], d);
    CollectAt(lines, f, i);
  }

  /** The loop is the generic collecting loop over `RewriteLine`. */
  lemma {:induction false} RewriteAllCollect(lines: seq<string>, d: Details)
    ensures RewriteAll(lines, d) == Collect(lines, (line: string) => RewriteLine(line, d))
    decreases |lines|
  {
    if lines != [] {
      RewriteAllCollect(lines[1..], d);
    }
  }

  /** In the output, each `init-state {` line is followed by the three lines
      of the initial state. */
  lemma InitFollowedAt(lines: seq<string>, d: Details, i: nat)
    requires RewriteAll(lines, d).Ok? && i < |lines| && OpensInit(lines[i])
    ensures InitLines(d).Some?
    ensures var out, o := RewriteAll(lines, d).value, i + 3 * InitCount(lines[..i]);
      o + 4 <= |out| && out[o] == Prepared(lines[i]) && out[o + 1..o + 4] == InitLines(d).value
  {
    RewriteAllAt(lines, d, i);
    var out, o := RewriteAll(lines, d).value, i + 3 * InitCount(lines[..i]);
    var piece := RewriteLine(lines[i], d).value;
    assert piece == [Prepared(lines[i])] + InitLines(d).value;
    assert out[o..o + 4][0] == out[o];
    assert out[o..o + 4][1..] == out[o + 1..o + 4];
  }

  /** In the output, a line that is neither an `init-state {` line nor the
      start fact holds no post-hoc non-fluents name. */
  lemma RenamedAt(lines: seq<string>, d: Details, i: nat)
    requires RewriteAll(lines, d).Ok? && i < |lines|
    requires !OpensInit(lines[i]) && !Contains(Finished(Prepared(lines[i])), StartAt)
    ensures var out, o := RewriteAll(lines, d).value, i + 3 * InitCount(lines[..i]);
      o < |out| && out[o] == Finished(Prepared(lines[i])) && !Contains(out[o], NfPosthoc)
  {
    RewriteAllAt(lines, d, i);
    RenamedLine(lines[i], d);
    var out, o := RewriteAll(lines, d).value, i + 3 * InitCount(lines[..i]);
    assert out[o..o + 1][0] == out[o];
  }

  /** In the output, the start fact names the plan's first waypoint. */
  lemma WaypointAt(lines: seq<string>, d: Details, i: nat)
    requires RewriteAll(lines, d).Ok? && i < |lines|
    requires !OpensInit(lines[i]) && Contains(Finished(Prepared(lines[i])), StartAt)
    ensures d.waypoint.Some?
    ensures var out, o := RewriteAll(lines, d).value, i + 3 * InitCount(lines[..i]);
      o < |out| && Contains(out[o], "robot_at(tiago, " + d.waypoint.value + ");")
  {
    RewriteAllAt(lines, d, i);
    WaypointLine(lines[i], d);
    var out, o := RewriteAll(lines, d).value, i + 3 * InitCount(lines[..i]);
    assert out[o..o + 1][0] == out[o];
  }

  /** `modify_problem_file` on the file's content: the text to write, or the
      error that stops the run before anything is written. */
  method ModifyProblemFile(content: string, d: Details) returns (r: Result<string>)
    ensures r == match RewriteAll(ReadLines(content), d)
                 case Ok(lines) => Ok(Concat(lines))
                 case Err(e) => Err(e)
  {
    var lines := ReadLines(content);
    var updated: seq<string> := [];
    var i := 0;
    assert lines[0..] == lines;
    if RewriteAll(lines, d).Ok? {
      assert [] + RewriteAll(lines, d).value == RewriteAll(lines, d).value;
    }
    while i < |lines|
      invariant i <= |lines|
      invariant RewriteAll(lines, d) == After(updated, RewriteAll(lines[i..], d))
    {
      RewriteStep(lines, i, updated, d);
      var out := RewriteLine(lines[i], d);
      if out.Err? {
        return Err(out.error);
      }
      updated := updated + out.value;
      i := i + 1;
    }
    assert lines[i..] == [];
    assert updated + [] == updated;
    r := Ok(Concat(updated));
  }

  /** A file of plain lines is written back unchanged. */
  lemma PlainFileKept(content: string, d: Details)
    requires forall line | line in ReadLines(content) :: Plain(line)
    ensures RewriteAll(ReadLines(content), d) == Ok(ReadLines(content))
    ensures Concat(ReadLines(content)) == content
  {
    PlainLinesKept(ReadLines(content), d);
    ReadLinesPartition(content);
  }
}
