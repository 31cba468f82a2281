/** Online reactive replanning (reactive_online.py): the plan is read from the
    `** Actions received: [...]` groups of the planner output (a group may span
    lines), a simulator round is checked for a failed task, and the problem
    instance is rewritten before replanning. */
module ReactiveOnline {
  import opened Wrappers
  import opened Chars
  import opened Strings
  import opened Regex
  import opened Patterns
  import opened Extraction
  import Reactive

  const ActionsPrefix: string := Reactive.ActionsPrefix

  /** The actions of the groups of the planner output, group after group. */
  function OnlinePlan(content: string): (plan: seq<string>)
    ensures forall a | a in plan :: a != [] && Trimmed(a) && ';' !in a
  {
    ActionGroupsDeterministic();
    PlanFromGroups(Column(FindAll(ActionsBlock, content), 0))
  }

  /** `extract_plan_actions` on the content of the plan file: the loop
      extends the action list group by group. */
  method ExtractPlanActions(content: string) returns (actions: seq<string>)
    ensures actions == OnlinePlan(content)
  {
    ActionGroupsDeterministic();
    var groups := Column(FindAll(ActionsBlock, content), 0);
    actions := [];
    var i := 0;
    assert groups[0..] == groups;
    while i < |groups|
      invariant 0 <= i <= |groups|
      invariant actions + PlanFromGroups(groups[i..]) == PlanFromGroups(groups)
    {
      var acts := GroupActions(groups[i]);
      PlanStep(groups, i, actions);
      actions := actions + acts;
      i := i + 1;
    }
    assert groups[i..] == [];
    assert actions + [] == actions;
  }

  /** Without the marker the plan is empty. */
  lemma NoMarkerNoPlan(content: string)
    requires !Contains(content, ActionsPrefix)
    ensures OnlinePlan(content) == []
  {
    ActionGroupsDeterministic();
    AbsentLiteral(ActionsPrefix, Then(Run(NotCloseBracket, 0, true), Then(Lit("]"), Done)), content);
  }

  /** The one match of a group, which may span lines. */
  lemma ActionsBlockMatch(group: string)
    requires AllIn(NotCloseBracket, group)
    ensures var s := ActionsPrefix + group + "]";
      FindAll(ActionsBlock, s) == [Match(0, |s|, [group])]
  {
    ActionGroupsDeterministic();
    var s := ActionsPrefix + (group + "]");
    assert s == ActionsPrefix + group + "]";
    var n := |ActionsPrefix|;
    assert s[0..] == s;
    var close := Then(Lit("]"), Done);
    var body := Then(Run(NotCloseBracket, 0, true), close);
    assert ActionsBlock == Then(Lit(ActionsPrefix), body);
    MatchLit(ActionsPrefix, body, s, 0, group + "]");
    var j := n + |group|;
    SuffixParts(s, n, group, "]");
    MatchLit("]", Done, s, j, []);
    RunThen(NotCloseBracket, 0, true, close, s, n, group, "]", j, Hit(|s|, []));
    assert [group] + [] == [group];
    assert MatchAt(ActionsBlock, s, 0) == Some(Hit(|s|, [group]));
    assert FindAllFrom(ActionsBlock, s, 0) == [Match(0, |s|, [group])] + FindAllFrom(ActionsBlock, s, |s|);
  }

  /** A round's report, read back, gives its actions, also when actions
      contain line breaks. */
  lemma {:induction false} PlanRoundTrip(actions: seq<string>)
    requires forall k | 0 <= k < |actions| :: actions[k] != [] && Trimmed(actions[k])
                                              && AllIn(NotCloseBracket, actions[k]) && ';' !in actions[k]
    ensures OnlinePlan(ActionsPrefix + Join(actions, ';') + "]") == actions
  {
    var group := Join(actions, ';');
    var s := ActionsPrefix + group + "]";
    Reactive.JoinAllIn(actions, ';', NotCloseBracket);
    ActionsBlockMatch(group);
    ActionGroupsDeterministic();
    assert Column(FindAll(ActionsBlock, s), 0) == [group];
    assert PlanFromGroups([group]) == GroupActions(group) + PlanFromGroups([]);
    GroupRoundTrip(actions);
  }

  /* `detect_task_failure` */

  const TaskFailedVar: string := "task_failed"

  /** A simulator line reporting the failed task: the variable name, as
      written, and `true` in any letter case. */
  predicate ReportsFailure(line: string) {
    Contains(line, TaskFailedVar) && Contains(Lower(line), "true")
  }

  /** `detect_task_failure`: the lines are searched in order and the search
      stops at the first line that reports the failure. */
  function DetectTaskFailure(lines: seq<string>): (failed: bool)
    ensures failed <==> exists k | 0 <= k < |lines| :: ReportsFailure(lines[k])
    decreases |lines|
  {
    if lines == [] then false
    else if ReportsFailure(lines[0]) then true
    else
      assert forall k | 1 <= k < |lines| :: lines[k] == lines[1..][k - 1];
      DetectTaskFailure(lines[1..])
  }

  /** The search looks at the earlier lines first: lines after a reporting
      line do not matter. */
  lemma DetectStops(lines: seq<string>, more: seq<string>)
    requires DetectTaskFailure(lines)
    ensures DetectTaskFailure(lines + more)
  {
    var k :| 0 <= k < |lines| && ReportsFailure(lines[k]);
    assert (lines + more)[k] == lines[k];
  }

  /* The instance rewrite of `modify_instance_to_avoid_failure`. */

  const InstanceStem: string := "instance_failure_probability"
  const ReactiveStem: string := InstanceStem + "_reactive"

  /** `re.sub` of two-argument failure probabilities by 0.0. */
  function ZeroPairs(content: string): string {
    PairPatternsDeterministic();
    Sub(PairFailure, content, PairFailureZeroed)
  }

  /** `content.replace("instance_failure_probability", "..._reactive")` */
  function RenameInstance(content: string): string {
    ReplaceAll(content, InstanceStem, ReactiveStem)
  }

  /** `modify_instance_to_avoid_failure` on the instance text: the failure
      probabilities are zeroed only when the failed action is a
      `fetch_book`, and the instance name is renamed in every case. */
  method ModifyInstanceToAvoidFailure(content: string, failedAction: string) returns (written: string)
    ensures Contains(failedAction, "fetch_book") ==> written == RenameInstance(ZeroPairs(content))
    ensures !Contains(failedAction, "fetch_book") ==> written == RenameInstance(content)
  {
    var text := content;
    if Contains(failedAction, "fetch_book") {
      PairPatternsDeterministic();
      text := Sub(PairFailure, text, PairFailureZeroed);
    }
    text := ReplaceAll(text, InstanceStem, ReactiveStem);
    written := text;
  }

  /** `prob_failure(book, failure) = value;` */
  function PairEntry(book: string, failure: string, value: string): string {
    "prob_failure(" + book + ", " + failure + ") = " + value + ";"
  }

  /** An entry's number becomes 0.0, its names are kept, and the `;` after
      the number, which the pattern does not take, stays. */
  lemma EntryZeroed(book: string, failure: string, value: string)
    requires book != [] && AllIn(NotComma, book)
    requires failure != [] && AllIn(NotCloseParen, failure)
    requires value != [] && AllIn(IsDecimalChar, value)
    ensures ZeroPairs(PairEntry(book, failure, value)) == PairEntry(book, failure, "0.0")
  {
    PairPatternsDeterministic();
    var s := PairEntry(book, failure, value);
    var e := |s| - 1;
    PairMatch(book, failure, value);
    assert MatchAt(PairFailure, s, e).None? by {
      assert s[e..] == ";";
    }
    SubFromNoMatch(PairFailure, s, PairFailureZeroed, e);
    assert s[e..] == ";";
    assert Sub(PairFailure, s, PairFailureZeroed)
        == Expand(PairFailureZeroed, [book, failure]) + SubFrom(PairFailure, s, PairFailureZeroed, e);
    ZeroedText(book, failure);
  }

  /** The template filled with the two names. */
  lemma ZeroedText(book: string, failure: string)
    ensures Expand(PairFailureZeroed, [book, failure]) + ";" == PairEntry(book, failure, "0.0")
  {
    var t := PairFailureZeroed;
    var gs := [book, failure];
    assert Expand(t[4..], gs) == ") = 0.0" + [];
    assert Expand(t[3..], gs) == failure + Expand(t[4..], gs);
    assert Expand(t[2..], gs) == ", " + Expand(t[3..], gs);
    assert Expand(t[1..], gs) == book + Expand(t[2..], gs);
    assert Expand(t, gs) == "prob_failure(" + Expand(t[1..], gs);
    assert ") = 0.0" + ";" == ") = " + "0.0" + ";";
  }

  /** `\)\s*=\s*[\d.]+`, what follows the failure name. */
  const PairTail: Pattern := Then(Lit(")"), Then(Spaces(), Then(Lit("="), Then(Spaces(), PairNumber))))

  lemma PairEntryNested(book: string, failure: string, value: string)
    ensures PairEntry(book, failure, value)
            == "prob_failure(" + (book + (", " + (failure + (")" + (" " + ("=" + (" " + (value + ";"))))))))
  {
    assert ") = " == ")" + (" " + ("=" + " "));
  }

  /** An entry is one match that ends before its `;`. */
  lemma PairMatch(book: string, failure: string, value: string)
    requires book != [] && AllIn(NotComma, book)
    requires failure != [] && AllIn(NotCloseParen, failure)
    requires value != [] && AllIn(IsDecimalChar, value)
    ensures var s := PairEntry(book, failure, value);
      MatchAt(PairFailure, s, 0) == Some(Hit(|s| - 1, [book, failure]))
  {
    PairEntryNested(book, failure, value);
    NestedPairMatch(book, ", " + (failure + (")" + (" " + ("=" + (" " + (value + ";")))))), failure, value);
  }

  lemma NestedPairMatch(book: string, u: string, failure: string, value: string)
    requires book != [] && AllIn(NotComma, book)
    requires failure != [] && AllIn(NotCloseParen, failure)
    requires value != [] && AllIn(IsDecimalChar, value)
    requires u == ", " + (failure + (")" + (" " + ("=" + (" " + (value + ";"))))))
    ensures var s := "prob_failure(" + (book + u);
      MatchAt(PairFailure, s, 0) == Some(Hit(|s| - 1, [book, failure]))
  {
    var prefix := "prob_failure(";
    var s := prefix + (book + u);
    assert PairFailure == Then(Lit(prefix), BookName);
    assert s[0..] == s;
    MatchLit(prefix, BookName, s, 0, book + u);
    var i := |prefix|;
    SuffixParts(s, i, book, u);
    CommaFailureMatch(s, i + |book|, failure, value);
    BookNameMatch(s, i, book, u, failure);
  }

  /** `([^,]+)` and everything after it. */
  const BookName: Pattern := Then(Run(NotComma, 1, true), Then(Lit(", "), FailureName))

  /** A book name in front of a match of `, ` and the failure part. */
  lemma BookNameMatch(s: string, i: nat, book: string, u: string, failure: string)
    requires i <= |s| && s[i..] == book + u && book != [] && AllIn(NotComma, book)
    requires u != [] && u[0] == ','
    requires i + |book| <= |s| && MatchAt(Then(Lit(", "), FailureName), s, i + |book|) == Some(Hit(|s| - 1, [failure]))
    ensures MatchAt(BookName, s, i) == Some(Hit(|s| - 1, [book, failure]))
  {
    var gs := [failure];
    RunThen(NotComma, 1, true, Then(Lit(", "), FailureName), s, i, book, u, i + |book|, Hit(|s| - 1, gs));
    assert [book] + gs == [book, failure];
  }

  /** `([^)]+)\)\s*=\s*[\d.]+`, what follows the book name and `, `. */
  const FailureName: Pattern := Then(Run(NotCloseParen, 1, true), PairTail)

  lemma CommaFailureMatch(s: string, i: nat, failure: string, value: string)
    requires i <= |s| && s[i..] == ", " + (failure + (")" + (" " + ("=" + (" " + (value + ";"))))))
    requires failure != [] && AllIn(NotCloseParen, failure)
    requires value != [] && AllIn(IsDecimalChar, value)
    ensures MatchAt(Then(Lit(", "), FailureName), s, i) == Some(Hit(|s| - 1, [failure]))
  {
    var j := i + 2;
    MatchLit(", ", FailureName, s, i, failure + (")" + (" " + ("=" + (" " + (value + ";"))))));
    FailureNameMatch(s, j, failure, value);
  }

  lemma FailureNameMatch(s: string, i: nat, failure: string, value: string)
    requires i <= |s| && s[i..] == failure + (")" + (" " + ("=" + (" " + (value + ";")))))
    requires failure != [] && AllIn(NotCloseParen, failure)
    requires value != [] && AllIn(IsDecimalChar, value)
    ensures MatchAt(FailureName, s, i) == Some(Hit(|s| - 1, [failure]))
  {
    var u := ")" + (" " + ("=" + (" " + (value + ";"))));
    var j := i + |failure|;
    SuffixParts(s, i, failure, u);
    PairTailMatch(s, j, value);
    var e := |s| - 1;
    RunThen(NotCloseParen, 1, true, PairTail, s, i, failure, u, j, Hit(e, []));
    assert [failure] + [] == [failure];
  }

  lemma PairTailMatch(s: string, i: nat, value: string)
    requires i <= |s| && s[i..] == ")" + (" " + ("=" + (" " + (value + ";"))))
    requires value != [] && AllIn(IsDecimalChar, value)
    ensures i < |s| && MatchAt(PairTail, s, i) == Some(Hit(|s| - 1, []))
  {
    var rest := Then(Spaces(), Then(Lit("="), Then(Spaces(), PairNumber)));
    var j := i + 1;
    MatchLit(")", rest, s, i, " " + ("=" + (" " + (value + ";"))));
    PairValueMatch(s, j, value);
  }

  lemma PairValueMatch(s: string, i: nat, value: string)
    requires i <= |s| && s[i..] == " " + ("=" + (" " + (value + ";")))
    requires value != [] && AllIn(IsDecimalChar, value)
    ensures MatchAt(Then(Spaces(), Then(Lit("="), Then(Spaces(), PairNumber))), s, i) == Some(Hit(|s| - 1, []))
  {
    var j := i + 1;
    SuffixParts(s, i, " ", "=" + (" " + (value + ";")));
    PairEqualsMatch(s, j, value);
    var e := |s| - 1;
    RunThen(IsSpace, 0, false, Then(Lit("="), Then(Spaces(), PairNumber)), s, i, " ", "=" + (" " + (value + ";")), j, Hit(e, []));
  }

  lemma PairEqualsMatch(s: string, i: nat, value: string)
    requires i <= |s| && s[i..] == "=" + (" " + (value + ";"))
    requires value != [] && AllIn(IsDecimalChar, value)
    ensures MatchAt(Then(Lit("="), Then(Spaces(), PairNumber)), s, i) == Some(Hit(|s| - 1, []))
  {
    var j := i + 1;
    MatchLit("=", Then(Spaces(), PairNumber), s, i, " " + (value + ";"));
    var k := j + 1;
    SuffixParts(s, j, " ", value + ";");
    PairNumberMatch(s, k, value);
    var e := |s| - 1;
    RunThen(IsSpace, 0, false, PairNumber, s, j, " ", value + ";", k, Hit(e, []));
  }

  /** `[\d.]+`, the number, which stops before the `;`. */
  const PairNumber: Pattern := Then(Run(IsDecimalChar, 1, false), Done)

  lemma PairNumberMatch(s: string, i: nat, value: string)
    requires i <= |s| && s[i..] == value + ";"
    requires value != [] && AllIn(IsDecimalChar, value)
    ensures MatchAt(PairNumber, s, i) == Some(Hit(|s| - 1, []))
  {
    var e := i + |value|;
    SuffixParts(s, i, value, ";");
    assert MatchAt(Done, s, e) == Some(Hit(e, []));
    RunThen(IsDecimalChar, 1, false, Done, s, i, value, ";", e, Hit(e, []));
  }

  /** A text without failure probabilities is kept by the zeroing. */
  lemma NoEntriesKept(content: string)
    requires !Contains(content, "prob_failure(")
    ensures ZeroPairs(content) == content
  {
    PairPatternsDeterministic();
    AbsentLiteral("prob_failure(", PairFailure.tail, content);
    SubNoMatch(PairFailure, content, PairFailureZeroed);
  }

  /** An occurrence of the name at the start gets `_reactive` appended and
      the rename goes on after it. */
  lemma RenameAtStart(rest: string)
    ensures RenameInstance(InstanceStem + rest) == InstanceStem + "_reactive" + RenameInstance(rest)
  {
    ReplaceAtStart(InstanceStem, ReactiveStem, rest);
  }

  /** A text without the name is kept. */
  lemma RenameAbsent(content: string)
    requires !Contains(content, InstanceStem)
    ensures RenameInstance(content) == content
  {
    ReplaceAbsent(content, InstanceStem, ReactiveStem);
  }

  /** The rename is not idempotent: on a text holding the name, renaming
      the renamed text lengthens it again. */
  lemma RenameNotIdempotent(content: string)
    requires Contains(content, InstanceStem)
    ensures |RenameInstance(content)| > |content|
    ensures RenameInstance(RenameInstance(content)) != RenameInstance(content)
  {
    var once := RenameInstance(content);
    ReplaceLonger(content, InstanceStem, ReactiveStem);
    assert ReactiveStem[..|InstanceStem|] == InstanceStem;
    ReplaceKeepsTarget(content, InstanceStem, ReactiveStem);
    ReplaceLonger(once, InstanceStem, ReactiveStem);
  }
}
