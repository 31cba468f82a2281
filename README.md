# Explanation planning pipeline — a Dafny model

This project models the text-processing core of the explanation-planning
robot system. A library robot fetches books for visitors. A probabilistic
planner (PROST, over RDDL files) produces plans. The Python scripts around the
planner read those plans and the RDDL instance files. From them they derive
explanation actions (`give_response(...)`) and the sentences that explain a
plan under each strategy:

- pre-hoc: the plan is explained before execution by comparing it with an
  alternative instance;
- reactive: the instance is rewritten after a failure and a new plan is made;
- post-hoc: the explanation actions of an executed plan are verbalised;
- mixed-initiative, anytime, replay and compare: these strategies appear only
  in the verbalizer.

The planner interface (`planner.py`) and the Tkinter front end (`gui.py`)
share one executor: a worker thread that shows a plan action by action and
can be paused, continued and stopped.

Modules, from the bottom up:

- `Wrappers`, `Chars`, `Strings`, `Decimal`, `Dict`: Python's `Option`/
  exceptions, character classes, `str` methods (`strip`, `split`, `join`,
  `replace`, `lower`, `in`), `float()` and `:.2f`, and insertion-ordered
  dictionaries with `max(d, key=d.get)`.
- `Regex`: a possessive matcher for the subset of Python regular expressions
  the scripts use (literal text, repeated classes, `\s*(X+)` groups), with
  `re.match`, `re.search`, `re.findall` and `re.sub`. A pattern in the
  deterministic fragment has a declarative language (`Denotes`), and the
  matcher is proved sound and complete for it. `Patterns` writes out every
  regular expression of the scripts and proves each one deterministic,
  except `LooseFetchBook` (`\s*([^,]+)` of reactive.py), whose matches
  `Reactive.FetchMatch` establishes directly.
- `Extraction`, `ProblemFile`, `Selection`, `Responses`: plan and probability
  extraction shared by several scripts.
- `Planner`, `Gui`, `Execution`, `Identification`, `ModifyRddl`, `Reactive`,
  `ReactiveOnline`, `Prehoc`, `Posthoc`, `Verbalizer`: one module per script.

File contents, planner output and simulator output are parameters. A planner
run that fails is `None`. A file's content is its text as Python's text mode
reads it, after `\r\n` and `\r` have been turned into `\n`, so lines are split
at `\n` only. Where Python raises (`float("1.2.3")`, `'...' + None`,
`max` of an empty dictionary), the model returns `Err` with the message.

## Model

| member | source | states |
|---|---|---|
| Chars.ToLower | posthoc.py:53-54 | ASCII capitals move down by 32; every other character is kept; the result is never a capital |
| Strings.Strip | planner.py:61 | `str.strip()` is never longer than the text and has no whitespace at either end |
| Strings.StripSurrounds | planner.py:61 | `str.strip()` result is a contiguous infix of the text with only whitespace cut on both sides |
| Strings.StripEmpty | planner.py:61 | a line strips to nothing exactly when it is all whitespace, so `if line.strip()` drops exactly the blank lines |
| Strings.StripChars | planner.py:61 | stripping adds no character |
| Strings.StripClean | planner.py:61 | stripping a trimmed text changes nothing |
| Strings.Split | reactive.py:24 | `split(';')` gives at least one piece, no piece holds the separator, and joining the pieces gives back the text |
| Strings.NoSep | reactive.py:24 | a text without the separator splits into itself |
| Strings.SplitAfter | reactive.py:24 | splitting stops at the first separator |
| Strings.SplitJoin | reactive.py:24 | splitting undoes joining separator-free pieces |
| Strings.ReplaceAbsent | modify_rddl.py:66 | `replace` of a target that does not occur leaves the text unchanged |
| Strings.ReplaceBySelf | modify_rddl.py:170 | replacing a target by itself leaves the text unchanged |
| Strings.ReplaceAtStart | reactive_online.py:75 | a text that begins with the target is rewritten from its first character and then scanned on |
| Strings.ReplaceNotShorter | reactive_online.py:75 | a replacement no shorter than its target never shortens the text |
| Strings.ReplaceLonger | reactive_online.py:75 | a longer replacement of a target that occurs lengthens the text |
| Strings.ReplaceKeepsTarget | reactive_online.py:75 | a replacement that begins with the target leaves the target in the text |
| Strings.ReplaceChar | posthoc.py:53-54 | replacing one character by another keeps the length and works position by position |
| Strings.Lower | posthoc.py:53-54 | `lower()` lower-cases each character in place (ASCII capitals only), so the length is kept and no ASCII capital is left |
| Strings.ReplaceSplit | modify_rddl.py:175-176 | when no occurrence of the target crosses a boundary, `replace` rewrites the text on each side of it on its own |
| Strings.ReplaceSkipFirst | modify_rddl.py:175-176 | text without the target's first character is copied unchanged by `replace` |
| Strings.ReplaceOne | modify_rddl.py:175-176 | a single occurrence between texts without the target's first character is the one that is replaced |
| Strings.ReplaceAvoids | modify_rddl.py:169-173 | `replace` leaves no occurrence of its target, and creates none of another text, when the replacement cannot help to form it |
| Strings.ContainsAt | posthoc.py:49 | an occurrence at a known position makes `sub in s` true |
| Decimal.ParseFloat | planner.py:209 | `float()` of a `[\d.]+` text succeeds exactly when it has at most one dot and a digit, and the value is never negative |
| Decimal.SplitCount | planner.py:209 | a text splits on a character into one piece more than it holds that character |
| Decimal.NatToString | prehoc.py:127 | `str(n)` is digits without a leading zero whose value is `n` |
| Decimal.Hundredths | prehoc.py:127 | the rounding behind `:.2f` gives the whole number of hundredths nearest to the value, the even one on a tie |
| Decimal.ParseTwoPieces | planner.py:209 | `float()` of digits, a dot and digits is the whole part plus the fraction digits scaled by their power of ten |
| Decimal.FormatRoundTrip | prehoc.py:126-127 | reading a `:.2f` rendering back gives the value rounded to hundredths |
| Dict.Keys | planner.py:209 | the keys of a dictionary, in insertion order |
| Dict.Get | planner.py:164 | `d.get(k)` finds a value exactly when `k` is a key |
| Dict.GetStored | planner.py:164 | what `d.get(k)` returns is stored under `k` |
| Dict.Put | planner.py:209 | `d[k] = v` keeps the key order and appends a new key at the end |
| Dict.PutGet | planner.py:209 | after `d[k] = v`, `d.get(k)` is `v` |
| Dict.PutGetOther | planner.py:209 | `d[k] = v` leaves every other key alone |
| Dict.PutAllUntouched | prehoc.py:59 | a key no pair assigns keeps its value through a dictionary comprehension |
| Dict.PutAllLastWins | prehoc.py:59 | the last pair for a key decides its value |
| Dict.PutDistinct | planner.py:209 | assignment keeps the keys distinct |
| Dict.ArgMaxIndex | parse.py:46 | the position `max(d, key=d.get)` picks holds a largest value, and every earlier value is strictly smaller |
| Dict.ArgMax | planner.py:164 | `max(..., default=None)` is `None` exactly for an empty dictionary, else the first key with a largest value |
| Regex.MatchAt | planner.py:194 | `re.match` at an offset ends inside the text, returns one group per capture, and consumes text for a non-nullable pattern |
| Regex.MatchSound | planner.py:194 | whatever the matcher returns is in the pattern's language, with those groups |
| Regex.MatchComplete | planner.py:194 | for a deterministic pattern, every text of the language at a position is found there, exactly when the pattern ends in literal text |
| Regex.FindAllFrom | planner.py:25 | `re.findall` returns ordered matches inside the text, each one a match of the pattern at its start |
| Regex.FindAllIsScan | planner.py:25 | the result is the leftmost, non-overlapping scan |
| Regex.ScanUnique | planner.py:25 | there is only one such scan, so the result is determined by the specification |
| Regex.FoundTextsMatch | planner.py:25 | every text `re.findall` returns for a deterministic closed pattern matches that pattern as a whole |
| Regex.AbsentLiteral | reactive.py:23 | a pattern starting with text absent from the input finds nothing |
| Regex.Texts | planner.py:25 | one text per match |
| Regex.Column | reactive.py:23 | one group per match, as `re.findall` returns for a one-group pattern |
| Regex.SearchFrom | planner.py:185 | `re.search` returns nothing only when no position matches, else the first matching position and its match |
| Regex.SearchSkips | planner.py:185 | the search passes over positions where nothing matches |
| Regex.SearchIsFirst | planner.py:185 | `re.search` finds the first match of `re.findall` |
| Regex.SubSplices | reactive.py:73-77 | `re.sub` keeps the text between matches and expands the template in place of each match of the scan |
| Regex.SubNoMatch | reactive.py:79-83 | `re.sub` without a match returns the text unchanged |
| Patterns.TokensDeterministic | planner.py:25 | the action-token patterns of the planner and of marker lines are deterministic and end in literal text |
| Patterns.ThirdArgumentDeterministic | planner.py:183 | the `failure_happens` and `goto_waypoint` patterns are deterministic |
| Patterns.FetchBookDeterministic | planner.py:192 | the `fetch_book` name pattern is deterministic |
| Patterns.AllArgumentsDeterministic | modify_rddl.py:23-25 | the three-argument action patterns are deterministic |
| Patterns.ProbabilitiesDeterministic | planner.py:207-211 | the failure and response probability patterns are deterministic |
| Patterns.ActionGroupsDeterministic | reactive_online.py:30 | both `** Actions received: [...]` patterns are deterministic |
| Patterns.BookFailureDeterministic | reactive.py:74 | the failing-book pattern is deterministic for every book name |
| Patterns.PairPatternsDeterministic | prehoc.py:56-57 | the two-name failure, `wants_book` and entry patterns are deterministic |
| Patterns.OtherPatternsDeterministic | posthoc.py:77 | the instance-name and empty-list patterns are deterministic |
| Patterns.GiveResponseDeterministic | prehoc.py:73 | the five-argument `give_response` pattern is deterministic, with or without the `;` |
| Responses.ArgsMatch | prehoc.py:73 | arguments without the character that ends them, separated by `, ` and closed by `)` and the tail, are one match whose groups are the arguments in order |
| Responses.CallMatch | prehoc.py:73 | a `give_response(robot, response, failure, book, human)` call is one match whose five groups are the arguments |
| Responses.NoCallInside | posthoc.py:50 | no match starts inside text that does not hold `give_response(` when a call follows it |
| Responses.SearchFindsCall | posthoc.py:50 | `re.search` finds a call that no other `give_response(` precedes (other actions may), with its five arguments as groups |
| Extraction.WithoutNoop | planner.py:26 | the noop filter drops exactly the `noop()` entries and keeps every other action, with its multiplicity |
| Extraction.WithoutNoopAppend | planner.py:26 | the filter works element by element and keeps the order |
| Extraction.WithoutNoopKeeps | planner.py:26 | a plan without `noop()` passes unchanged |
| Extraction.PlannerHalf | planner.py:26 | `actions[-len(actions)//2:]` keeps the last ⌈n/2⌉ actions |
| Extraction.GuiHalf | gui.py:108-110 | the GUI's slice keeps the last ⌊n/2⌋ actions |
| Extraction.HalvesDiffer | gui.py:108-110 | for an odd number of tokens the GUI keeps one action fewer than the planner interface; for an even number it keeps the same actions |
| Extraction.ActionMatches | planner.py:25 | every token found is a complete action token |
| Extraction.MarkedActionsAreTokens | prehoc.py:41-47 | every action read from marker lines is a complete token and none is `noop()` |
| Extraction.ExtractActions | posthoc.py:64-70 | the loop returns the tokens of the marker lines, without `noop()` |
| Extraction.MarkedActionsAppend | posthoc.py:64-70 | lines are read independently and in order |
| Extraction.UnmarkedLines | prehoc.py:41-47 | lines without the marker contribute nothing |
| Extraction.StrippedItems | reactive.py:24 | stripped items are non-empty, trimmed and no more than the pieces |
| Extraction.StrippedItemsFree | reactive.py:24 | stripping adds no character |
| Extraction.StrippedItemsKeep | reactive.py:24 | clean items are all kept |
| Extraction.ItemsRoundTrip | reactive.py:24 | splitting a joined list of clean items and dropping blanks gives the items back |
| Extraction.GroupActions | reactive_online.py:34 | the actions of a group are clean and hold no `;` |
| Extraction.GroupRoundTrip | reactive_online.py:34 | writing clean actions as a `;` group and reading it gives them back |
| Extraction.PlanFromGroups | reactive_online.py:33-35 | the actions of all groups are clean |
| Extraction.PlanStep | reactive_online.py:33-35 | reading one more group extends the action list by that group's actions |
| Extraction.ReadLinesPartition | modify_rddl.py:58 | `readlines()` pieces concatenate to the content, none is empty, and all but the last end in a newline |
| Extraction.ReadOneLine | modify_rddl.py:58 | a text without a newline is one line |
| Extraction.ReadLinesAfter | modify_rddl.py:58 | each line ends right after its newline |
| Extraction.LogLine | planner.py:60-61 | a first line of the log loads as itself stripped, or not at all when blank, followed by the rest of the log |
| Extraction.LogLast | planner.py:60-61 | a last line without a newline loads as itself stripped, or not at all when blank |
| Extraction.LogJoin | planner.py:60-61 | newline-free lines written one per line load as those lines stripped, without the blank ones, in order |
| Extraction.LogLinesSplit | planner.py:60-61 | the loaded entries are the content's newline-separated lines, stripped, without the blank ones, in file order |
| Extraction.LogRoundTrip | planner.py:60-61 | clean entries written one per line load back as those entries |
| Planner.GeneratePlan | planner.py:19-31 | a failing planner gives no plan; otherwise the last ⌈n/2⌉ tokens without `noop()`, each a complete action token |
| Planner.AnytimeFallback | planner.py:51 | the anytime plan is never empty; it is the planner's plan exactly when that plan is non-empty, and `["partial(plan) due to timeout"]` otherwise |
| Planner.LoadFromLog | planner.py:55-63 | a missing log gives the not-found message; otherwise the plan is the file's lines split at newlines, stripped, without the blank ones, in file order, so every entry is non-empty and trimmed |
| Planner.LoadSaved | planner.py:55-63 | a plan saved one clean action per line loads back as itself |
| Planner.InsertExplanation | planner.py:156-179 | the plan is unchanged without a failure or a response; otherwise the most probable response action follows every `goto_waypoint`/`visitor_area` action, with names from the first `fetch_book` or the defaults; a malformed number is an error |
| Selection.FirstSome | planner.py:184-188 | the scan finds nothing exactly when no action gives a value |
| Selection.FirstSomeIsFirst | planner.py:184-188 | what it finds comes from the first action that gives a value |
| Selection.ScanFirst | gui.py:380-384 | the loop with `return`/`break` returns the first value |
| Selection.ExtractFailure | planner.py:181-188 | the failure is the third argument of the first `failure_happens`, `None` exactly when no action has one |
| Selection.FindFetch | planner.py:190-197 | robot and visitor come from the first action that starts with `fetch_book`, `None` exactly when there is none |
| Selection.Annotated | planner.py:171-179 | the result has one extra action per anchor |
| Selection.InsertAfterAnchors | planner.py:171-179 | the loop builds the plan with the response after every anchor |
| Selection.AnnotatedAppend | planner.py:171-179 | insertion works action by action |
| Selection.AnnotatedUnanchored | gui.py:444-452 | without an anchor the plan comes back unchanged |
| Selection.AnnotatedPlaces | planner.py:173-176 | every action keeps its relative place, and the response follows exactly the anchors |
| Selection.Erase | planner.py:173-176 | removing an action leaves no occurrence of it |
| Selection.AnnotatedErase | planner.py:173-176 | removing the inserted response gives the original plan back |
| ProblemFile.GroupCounts | planner.py:207-211 | the probability patterns have two and three groups |
| ProblemFile.ParseProblemFile | parse.py:3-28 | the method returns the two dictionaries of the file, or the error of a malformed number |
| ProblemFile.StoreFailuresErr | planner.py:208-209 | reading fails exactly when some matched number is not a float |
| ProblemFile.FailureUntouched | planner.py:208-209 | a failure no clause mentions keeps its value |
| ProblemFile.FailureLastWins | planner.py:208-209 | the last clause for a failure decides its probability |
| ProblemFile.ResponseUntouched | gui.py:360-363 | a (response, failure) pair no clause mentions keeps its value |
| ProblemFile.ResponseLastWins | gui.py:360-363 | the last clause for a pair decides its value, filed under the failure |
| ProblemFile.BestResponse | gui.py:412-413 | no response exactly when the failure has no responses; otherwise the first key of that failure's responses whose value is the largest |
| Identification.IdentifyFailureAndResponse | parse.py:31-67 | a malformed number or an empty failure table is an error; otherwise the most probable failure's best response follows every anchor, with the names `robot` and `visitor` |
| Gui.GuiPlan | gui.py:105-118 | the GUI plan is the last ⌊n/2⌋ tokens without `noop()` |
| Gui.GuiPlanTokens | gui.py:105-118 | every action of the GUI plan is a complete action token and none is `noop()` |
| Gui.BuildPlanFinal | gui.py:112-118 | the displayed plan is the header followed by the plan without `noop()` |
| Gui.WalkthroughWhole | gui.py:196-211 | without a failing action the walkthrough lists the whole plan |
| Gui.WalkthroughCut | gui.py:196-211 | with a failing action it stops right after the first one and adds the failure notice |
| Gui.Walk | gui.py:196-211 | the loop with `break` produces the walkthrough |
| Gui.Explained | gui.py:388-454 | `get_response` fails exactly when the plan names no failure (`'...' + None`) or a number is malformed |
| Gui.ExplainedUnanchored | gui.py:441-454 | without a `goto_waypoint` to `visitor_area` the plan comes back unchanged |
| Gui.GetResponse | gui.py:388-454 | the method returns the explained plan, or the error |
| Gui.PlanningGui.constructor | gui.py:10-64 | a new GUI has no plan and a fresh executor |
| Gui.PlanningGui.RunPreHoc | gui.py:67-133 | the current plan becomes the GUI plan of the planner output, or stays when the planner fails |
| Gui.PlanningGui.RunReactive | gui.py:157-225 | the walkthrough of the first plan, then the plan of the second run |
| Gui.PlanningGui.RunPostHoc | gui.py:228-284 | the current plan becomes the explained plan; an error leaves the found plan and is reported |
| Gui.PlanningGui.StartExecution | gui.py:291-303 | the executor takes the start transition on the current plan |
| Execution.InitialInv | planner.py:82-86 | the initial executor satisfies the invariant |
| Execution.ApplyInv | planner.py:88-147 | every transition keeps the invariant: shown actions are the in-order prefix before the worker's position |
| Execution.RunInv | planner.py:88-147 | every sequence of events keeps the invariant |
| Execution.StartCases | planner.py:88-100 | start only sets a status for an empty plan, does nothing while a thread is alive, and otherwise clears the flags and starts at the first action |
| Execution.StepStatus | planner.py:102-129 | the status changes only when an action is shown, at a stop, or at completion with the whole plan shown |
| Execution.PausedShowsNothing | planner.py:116-118 | a paused worker not past the poll shows nothing |
| Execution.PausedRun | planner.py:116-118 | while paused, steps and pauses show nothing |
| Execution.StepAfterStop | planner.py:143-147 | after a stop, the shown plus pending actions never grow |
| Execution.AtMostOneAfterStop | planner.py:143-147 | after a stop and until a start, at most one more action is shown |
| Execution.StopReleasesWaiting | planner.py:143-147 | a stop releases a waiting worker, which shows its next action and then ends |
| Execution.RunsToEnd | planner.py:102-129 | undisturbed, the worker shows every remaining action and completes |
| Execution.UndisturbedRun | planner.py:88-129 | started on a non-empty plan and left alone, the worker shows the plan in order and ends with the completion status |
| Execution.Executor.constructor | planner.py:82-86 | the executor starts in the initial state |
| Execution.Executor.StartExecution | planner.py:88-100 | the state takes the start transition |
| Execution.Executor.PauseExecution | planner.py:131-135 | the state takes the pause transition |
| Execution.Executor.ContinueExecution | gui.py:329-333 | the state takes the continue transition, guarded in the GUI |
| Execution.Executor.StopExecution | planner.py:143-147 | the state takes the stop transition |
| Execution.Executor.WorkerStep | planner.py:102-129 | the state takes one worker step |
| ModifyRddl.Arguments | modify_rddl.py:23-25 | a matched action gives exactly three arguments |
| ModifyRddl.LastSome | modify_rddl.py:27-43 | a detail is missing exactly when no action supplies it |
| ModifyRddl.LastSomeIsLast | modify_rddl.py:27-43 | the detail comes from the last action that supplies it |
| ModifyRddl.PlanDetailsAbsent | modify_rddl.py:27-43 | robot, book and human are missing together, and each detail is missing exactly when no action supplies it |
| ModifyRddl.PlanDetailsSources | modify_rddl.py:27-43 | the details come from the last `fetch_book`, the last `failure_happens` and the first `goto_waypoint` |
| ModifyRddl.FetchSource | modify_rddl.py:29-33 | robot, book and human are the three arguments of the last `fetch_book` |
| ModifyRddl.FailureSource | modify_rddl.py:35-38 | the failure is the third argument of the last `failure_happens` |
| ModifyRddl.WaypointSource | modify_rddl.py:40-43 | the waypoint is the third argument of the first `goto_waypoint` |
| ModifyRddl.DetailsSnoc | modify_rddl.py:27-43 | how one more action changes the details; the waypoint is set once |
| ModifyRddl.TakeAction | modify_rddl.py:27-43 | one pass of the loop turns the details of the actions so far into those of one more action, keeping the flag exactly when a waypoint is known |
| ModifyRddl.ExtractPlanDetails | modify_rddl.py:5-45 | the loop with its `waypoint_found` flag computes the details |
| ModifyRddl.Key | modify_rddl.py:69-158 | every key of the chain is a `prob_response(` key |
| ModifyRddl.Rows | modify_rddl.py:69-158 | the chain has six entries per failure, in order |
| ModifyRddl.ChainFirstKey | modify_rddl.py:69-158 | a line holding a key is replaced by the line of the first key it holds |
| ModifyRddl.ChainNoKey | modify_rddl.py:69-158 | a line holding no key passes unchanged |
| ModifyRddl.WhyAgentError | modify_rddl.py:69-71 | the why-explanation after an agent error is set to 0.9, keeping 0.2 as a comment |
| ModifyRddl.RewriteLine | modify_rddl.py:60-178 | an `init-state {` line becomes four lines and every other line one; an error exactly when a needed detail is missing |
| ModifyRddl.RewriteAllLength | modify_rddl.py:161-167 | three lines are added after each `init-state {` line and no others |
| ModifyRddl.InitLineFollowed | modify_rddl.py:161-167 | an `init-state {` line is kept and followed by `book_fetched(book, robot, human);`, `failure_triggered(failure);` and `failure_happened = true;` |
| ModifyRddl.RenamesApplied | modify_rddl.py:169-173 | after the renames no `nf_explanation_planning_posthoc` is left, and no `instance_posthoc` once the line declares `instance instance_posthoc` |
| ModifyRddl.RenamedLine | modify_rddl.py:160-178 | a line that neither opens the initial state nor holds the start fact is written once, renamed, with no post-hoc name left where the renames apply |
| ModifyRddl.StartFactSplit | modify_rddl.py:175-176 | no `start_position` reaches into the start fact from the text before it, and the fact receives the waypoint |
| ModifyRddl.PlacesWaypoint | modify_rddl.py:175-176 | a line holding `robot_at(tiago, start_position);` comes out holding `robot_at(tiago, <waypoint>);` |
| ModifyRddl.WaypointLine | modify_rddl.py:175-178 | the start-fact line is written once, with the plan's first waypoint in the fact |
| ModifyRddl.RewriteAllPrefix | modify_rddl.py:63-178 | each line's output comes right after the output of the lines before it |
| ModifyRddl.RewriteAllAt | modify_rddl.py:63-178 | each line's output sits in the output after the earlier lines and three more lines per earlier `init-state {` line |
| ModifyRddl.InitFollowedAt | modify_rddl.py:161-167 | in the written lines, each `init-state {` line is directly followed by the three initial-state lines |
| ModifyRddl.RenamedAt | modify_rddl.py:169-173 | in the written lines, a line that is neither an `init-state {` line nor the start fact holds no `nf_explanation_planning_posthoc` |
| ModifyRddl.WaypointAt | modify_rddl.py:175-176 | in the written lines, the start fact names the plan's first waypoint |
| ModifyRddl.PlainLineKept | modify_rddl.py:60-178 | a line none of the checks touch is copied as it is |
| ModifyRddl.PlainLinesKept | modify_rddl.py:60-178 | lines none of the checks touch are copied as they are |
| ModifyRddl.ModifyProblemFile | modify_rddl.py:50-182 | the text written is the rewritten lines joined, or the first error before anything is written |
| ModifyRddl.PlainFileKept | modify_rddl.py:50-182 | a file of plain lines is written back unchanged |
| Reactive.GuardedPlanIsPlan | reactive.py:24 | skipping empty groups changes nothing |
| Reactive.ExtractPlan | reactive.py:20-25 | every extracted action is non-empty, trimmed and holds no `;` |
| Reactive.NoMarkerNoPlan | reactive.py:23 | without the marker the plan is empty |
| Reactive.ActionsLineMatch | reactive.py:23 | a marker line is one match whose group is the list |
| Reactive.PlanOfOneGroup | reactive.py:23-24 | a text with one group gives that group's actions |
| Reactive.PlanRoundTrip | reactive.py:20-25 | a reported round read back gives its actions |
| Reactive.FailingBook | reactive.py:65-70 | the book is `None` exactly when the failing action has no `fetch_book` match, else its second group |
| Reactive.NoFetchNoBook | reactive.py:65-68 | an action without `fetch_book(` names no book |
| Reactive.FetchBookNamesBook | reactive.py:70 | in `fetch_book(robot, book, human)` the book is the second argument |
| Reactive.FetchMatch | reactive.py:65 | the whole action is one match with the three arguments |
| Reactive.EntryZeroed | reactive.py:73-77 | an entry for the failing book is set to 0.0 and keeps its failure name |
| Reactive.EntryMatch | reactive.py:74 | a whole entry is one match, with the failure as its group |
| Reactive.ZeroedText | reactive.py:75 | the template with the failure is the zeroed entry |
| Reactive.OtherBooksKept | reactive.py:73-77 | without an entry for the failing book the text is unchanged |
| Reactive.ZeroedEverywhere | reactive.py:73-77 | every entry for the failing book becomes its 0.0 entry, and the text in between is kept |
| Reactive.HeaderRenamed | reactive.py:79-83 | the header `instance <name>` gets the reactive name |
| Reactive.HeaderMatch | reactive.py:80 | the header is one match ending at the name's end |
| Reactive.GenerateReactiveInstance | reactive.py:61-88 | nothing is written exactly when the failing action names no book; otherwise the zeroed, renamed instance |
| ReactiveOnline.OnlinePlan | reactive_online.py:27-36 | every action is non-empty, trimmed and holds no `;` |
| ReactiveOnline.ExtractPlanActions | reactive_online.py:27-36 | the loop extends the action list group by group |
| ReactiveOnline.NoMarkerNoPlan | reactive_online.py:30-31 | without the marker the plan is empty |
| ReactiveOnline.ActionsBlockMatch | reactive_online.py:30 | a marker block, which may span lines, is one match whose group is the list |
| ReactiveOnline.PlanRoundTrip | reactive_online.py:27-36 | a reported round read back gives its actions, line breaks included |
| ReactiveOnline.DetectTaskFailure | reactive_online.py:60-64 | a failure is detected exactly when some line names the variable and `true` in any case |
| ReactiveOnline.DetectStops | reactive_online.py:61-63 | lines after a reporting line do not matter |
| ReactiveOnline.ModifyInstanceToAvoidFailure | reactive_online.py:66-77 | probabilities are zeroed only for a failed `fetch_book`, and the instance is renamed in every case |
| ReactiveOnline.EntryZeroed | reactive_online.py:73 | an entry's number becomes 0.0, its names and its `;` are kept |
| ReactiveOnline.ZeroedText | reactive_online.py:73 | the template with the two names is the zeroed entry |
| ReactiveOnline.PairMatch | reactive_online.py:73 | an entry is one match that ends before its `;` |
| ReactiveOnline.NoEntriesKept | reactive_online.py:73 | a text without failure probabilities is unchanged |
| ReactiveOnline.RenameAtStart | reactive_online.py:75 | an occurrence at the start gets `_reactive` appended and the rename goes on after it |
| ReactiveOnline.RenameAbsent | reactive_online.py:75 | a text without the name is unchanged |
| ReactiveOnline.RenameNotIdempotent | reactive_online.py:75 | renaming a text that holds the name lengthens it, and renaming again changes it again |
| Prehoc.ContainsFailure | prehoc.py:49-50 | true exactly when some marker line holds a `give_response(` call |
| Prehoc.LineExplanation | prehoc.py:72-80 | at most one sentence per line, none without a call |
| Prehoc.ExplanationsBound | prehoc.py:69-80 | at most one sentence per line |
| Prehoc.AnalyzeExplanation | prehoc.py:69-80 | the loop returns the sentences of the lines |
| Prehoc.ExplainsCall | prehoc.py:73-79 | a line with a five-argument call, and no `give_response(` before it, yields the sentence naming the arguments in their roles |
| Prehoc.NoCallNoExplanation | prehoc.py:72 | lines without a call give no sentence |
| Prehoc.WantedPairs | prehoc.py:59 | one (human, book) pair per match |
| Prehoc.HumanLastWins | prehoc.py:59 | the last `wants_book` for a human decides the book, names stripped |
| Prehoc.FillEntries | prehoc.py:61-65 | the loop fills the nested dictionary, or fails on a malformed number |
| Prehoc.EntryUntouched | prehoc.py:61-65 | a (book, failure) pair no entry names keeps its value |
| Prehoc.EntryLastWins | prehoc.py:61-65 | the last entry for a pair decides its probability |
| Prehoc.StoreEntriesErr | prehoc.py:64 | reading fails exactly when some matched number is not a float |
| Prehoc.ParseInstanceFile | prehoc.py:52-67 | the method returns the human-to-book and book-to-failure maps, or the error |
| Prehoc.Missing | prehoc.py:83-84 | removed actions are those of the first plan not in the second, each with its multiplicity |
| Prehoc.MissingAppend | prehoc.py:83-84 | the filter keeps the order |
| Prehoc.SamePlans | prehoc.py:83-84 | nothing is removed or added exactly when both plans use the same actions |
| Prehoc.ExplanationRemoved | prehoc.py:96-97 | true exactly when a removed action mentions `give_response` |
| Prehoc.BookLoweringsIff | prehoc.py:121-128 | a book yields a lowering exactly for its failures whose new value is strictly lower |
| Prehoc.LoweringsIff | prehoc.py:119-128 | a sentence is emitted exactly for the original pairs whose new value is strictly lower, with both values |
| Prehoc.MissingPairSilent | prehoc.py:123 | a pair missing from the new instance keeps its value and yields no sentence |
| Prehoc.Sentences | prehoc.py:124-128 | one sentence per lowering, in order |
| Prehoc.BookLoop | prehoc.py:121-128 | the inner loop emits the sentences of one book's lowerings |
| Prehoc.LoweringLoop | prehoc.py:119-128 | the nested loops emit the sentences of all lowerings |
| Prehoc.VerbalizePlanDifferences | prehoc.py:82-131 | the report: removed and added actions, whether an explanation was removed, and the lowering sentences |
| Posthoc.Readable | posthoc.py:53-54 | underscores become spaces and capitals small letters, position by position |
| Posthoc.ReadableClean | posthoc.py:53-54 | no underscore survives, and a clean lower-case name reads as itself |
| Posthoc.LineAnalysis | posthoc.py:49-59 | at most one sentence per line, none for a line without the marker |
| Posthoc.AnalysisBound | posthoc.py:45-60 | at most one sentence per line |
| Posthoc.UnmarkedNotAnalysed | posthoc.py:49 | lines without the marker give no sentence |
| Posthoc.AnalyzePlan | posthoc.py:45-60 | the loop returns the sentences of the marker lines |
| Posthoc.ExplainsCall | posthoc.py:49-59 | a marker line with a `give_response(...);` call, and no `give_response(` before it, yields the sentence, with the response and failure made readable |
| Posthoc.Shown | posthoc.py:76-80 | no more lines are shown than given |
| Posthoc.PrintPlanActions | posthoc.py:72-83 | shows the stripped meaningful lines, reports whether any was found, and returns `extract_actions` of the lines |
| Posthoc.EmptyListNotShown | posthoc.py:77 | a marker line listing no action is not shown |
| Verbalizer.Classify | verbalizer.py:33-48 | the strategy named in the context keeps its name |
| Verbalizer.GenericIffUnknown | verbalizer.py:33-48 | the generic instruction goes exactly to an unknown strategy |
| Verbalizer.BuildPrompt | verbalizer.py:26-48 | every prompt starts with the line naming the strategy, `unknown` by default |
| Verbalizer.PromptDetails | verbalizer.py:26-48 | outside post-hoc, the prompt depends only on the strategy, and also on the failure for the reactive strategy; never on the response |
| Verbalizer.ReactivePromptQuotes | verbalizer.py:35-36 | the reactive prompt quotes the failure |
| Verbalizer.PostHocPromptQuotes | verbalizer.py:26-48 | the post-hoc prompt quotes the failure and the response |
| Verbalizer.PostHocInstructionQuotes | verbalizer.py:26-48 | the post-hoc instruction quotes both values |
| Verbalizer.TemplateDefault | verbalizer.py:60-75 | the default answer goes exactly to the strategies without a template |
| Verbalizer.NotPlaceholder | verbalizer.py:60-75 | no canned answer is the model placeholder |
| Verbalizer.MockResponse | verbalizer.py:60-75 | the default answer exactly when the strategy is missing or unknown |
| Verbalizer.MockMentions | verbalizer.py:60-75 | the reactive and post-hoc answers name the failure, and the post-hoc answer names the response |
| Verbalizer.Verbalize | verbalizer.py:17-24 | with the mock switch on, the canned answer, never the placeholder |

## Left out

- Running the planner, the simulator and other processes is not modelled. Their output is a parameter, and a failed run is `None`.
- Reading and writing files is not modelled. File contents are parameters, and a missing file is `None`. The content is taken after text mode's newline translation (`\r\n` and `\r` become `\n`), which is not modelled.
- Sleeping, timing and the anytime time limit are not modelled.
- Threads are not modelled as threads. The executor's worker is a sequence of atomic steps interleaved with the control events.
- The Tkinter widgets and their display are not modelled. Only the label text the executor sets is kept.
- Logging and `print` output are not modelled. `print_plan_actions` returns its shown lines instead of printing them.
- Module-level code and the scripts' `main` functions are not modelled.
- The ROS scripts, server wrappers and the other planner front ends are not part of this model.
- `generate_alternative_plans` and `compare_strategies` are not modelled.
- `call_llm` is a stub returning a constant. The client call it would make is not modelled.
- `Decimal.Hundredths`: rounds the exact real value, ties to even. Python rounds the binary float, so values near a tie may differ.
- `Chars.ToLower`: maps ASCII letters only, because `str.lower()` on non-ASCII letters is not modelled. `\w` and `\d` are likewise ASCII only.
- `Gui.Explained`: `'...' + None` at gui.py:400-401 raises in the source. Here it is an `Err`, not a precondition.
- `Reactive.GenerateReactiveInstance`: the book name is interpolated into the regular expression unescaped. The model treats it as literal text, so a name holding regex metacharacters is not modelled.
- The call at reactive.py:123 passes an argument the function does not take. That `main` path is not modelled.
- `Verbalizer.Verbalize`: the context holds only strings; other value types are not modelled.
- `ModifyRddl.RenamedLine`: the guarantee that no post-hoc name is left is not stated for the start-fact line, because the waypoint written into it may itself hold such a name.
- `Regex.MatchComplete`: proved only for deterministic patterns, where possessive and backtracking matching agree. Every pattern of the scripts is proved to be one except `Patterns.LooseFetchBook`, which is only proved not to match the empty text; `Reactive.FetchMatch` states its match directly.
