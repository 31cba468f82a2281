/** posthoc.py: the post-hoc strategy shows the meaningful action lines of
    the planner's output, returns the plan read from its marker lines
    (`Extraction.ExtractActions`), and verbalises each explanation action
    the plan contains. */
module Posthoc {
  import opened Wrappers
  import opened Chars
  import opened Strings
  import opened Regex
  import opened Patterns
  import opened Extraction
  import opened Responses

  /** The marker of the lines `analyze_plan` and `print_plan_actions` look
      at (longer than the `Actions received:` of `extract_actions`). */
  const ActionsMarker: string := "** Actions received:"

  /** `s.replace("_", " ").lower()`: underscores become spaces and ASCII
      capitals become small letters, character by character. */
  function Readable(s: string): (r: string)
    ensures |r| == |s|
    ensures forall k | 0 <= k < |s| :: r[k] == ToLower(if s[k] == '_' then ' ' else s[k])
  {
    ReplaceChar(s, "_", " ");
    Lower(ReplaceAll(s, "_", " "))
  }

  /** A name in small letters without underscores reads as itself; an
      underscore never survives. */
  lemma ReadableClean(s: string)
    ensures '_' !in Readable(s)
    ensures ('_' !in s && forall k | 0 <= k < |s| :: !('A' <= s[k] <= 'Z')) ==> Readable(s) == s
  {
  }

  lemma GroupCount()
    ensures !Nullable(GiveResponse(";")) && Captures(GiveResponse(";")) == 5
  {
    GiveResponseDeterministic(";");
    ArgsCaptures(4, ";");
    GiveResponseParts(";");
    assert Captures(Then(Lit("give_response("), ArgsPattern(4, ";"))) == 5;
  }

  /** The sentence of `analyze_plan` for one explanation action. */
  function Sentence(robot: string, response: string, failure: string, book: string, human: string): string {
    "The robot " + robot + " needed to provide a " + Readable(response) + " response after encountering a "
    + Readable(failure) + " problem while attempting to deliver " + book + " to " + human + "."
  }

  /** What one line contributes: on a marker line, the sentence of the
      first `give_response(...);` match. */
  function LineAnalysis(line: string): (r: seq<string>)
    ensures |r| <= 1
    ensures !Contains(line, ActionsMarker) ==> r == []
  {
    GroupCount();
    if !Contains(line, ActionsMarker) then []
    else
      match Search(GiveResponse(";"), line)
      case None => []
      case Some(m) => [Sentence(m.groups[0], m.groups[1], m.groups[2], m.groups[3], m.groups[4])]
  }

  /** The explanations `analyze_plan` returns. */
  function Analysis(lines: seq<string>): seq<string> {
    ConcatMap(lines, LineAnalysis)
  }

  /** At most one explanation per line. */
  lemma {:induction false} AnalysisBound(lines: seq<string>)
    ensures |Analysis(lines)| <= |lines|
    decreases |lines|
  {
    if lines != [] {
      AnalysisBound(lines[1..]);
    }
  }

  /** Only marker lines are analysed. */
  lemma {:induction false} UnmarkedNotAnalysed(lines: seq<string>)
    requires forall k | 0 <= k < |lines| :: !Contains(lines[k], ActionsMarker)
    ensures Analysis(lines) == []
    decreases |lines|
  {
    if lines != [] {
      UnmarkedNotAnalysed(lines[1..]);
    }
  }

  /** `analyze_plan(plan_lines)` (posthoc.py:45-60). */
  method AnalyzePlan(lines: seq<string>) returns (explanations: seq<string>)
    ensures explanations == Analysis(lines)
  {
    explanations := [];
    var i := 0;
    while i < |lines|
      invariant i <= |lines|
      invariant explanations + ConcatMap(lines[i..], LineAnalysis) == Analysis(lines)
    {
      ConcatMapStep(lines, i, explanations, LineAnalysis);
      explanations := explanations + LineAnalysis(lines[i]);
      i := i + 1;
    }
    assert lines[i..] == [];
  }

  /** A marker line whose first call is
      `give_response(robot, response, failure, book, human);` yields the
      sentence with robot, book and human verbatim and the response and
      failure made readable. */
  lemma ExplainsCall(pre: string, robot: string, response: string, failure: string, book: string, human: string, post: string)
    requires NoCallStart(pre) && Contains(pre, ActionsMarker)
    requires Argument(robot) && Argument(response) && Argument(failure) && Argument(book) && LastArgument(human)
    ensures Analysis([pre + ResponseCall(robot, response, failure, book, human, ";") + post])
         == [Sentence(robot, response, failure, book, human)]
  {
    var line := pre + ResponseCall(robot, response, failure, book, human, ";") + post;
    CallLine(pre, robot, response, failure, book, human, post, ";");
    ConcatMapOne(line, LineAnalysis);
  }

  /** The line of such a call contributes its sentence (`tail` is the
      `;`, passed as a parameter so that the proof does not unfold the
      pattern on the literal). */
  lemma CallLine(pre: string, robot: string, response: string, failure: string, book: string, human: string, post: string, tail: string)
    requires tail == ";" && NoCallStart(pre) && Contains(pre, ActionsMarker)
    requires Argument(robot) && Argument(response) && Argument(failure) && Argument(book) && LastArgument(human)
    ensures LineAnalysis(pre + ResponseCall(robot, response, failure, book, human, tail) + post)
         == [Sentence(robot, response, failure, book, human)]
  {
    var call := ResponseCall(robot, response, failure, book, human, tail);
    var line := pre + call + post;
    FindsCallIn(line, pre, call, robot, response, failure, book, human, tail, post);
    GiveResponseDeterministic(tail);
    ContainsBefore(pre, call, ActionsMarker);
    ContainsBefore(pre + call, post, ActionsMarker);
    LineOfMatch(line, Match(|pre|, |line| - |post|, [robot, response, failure, book, human]), tail);
  }

  /** A marker line contributes the sentence of its first match. */
  lemma LineOfMatch(line: string, m: Match, tail: string)
    requires tail == ";" && Contains(line, ActionsMarker) && |m.groups| == 5
    requires !Nullable(GiveResponse(tail)) && Search(GiveResponse(tail), line) == Some(m)
    ensures LineAnalysis(line) == [Sentence(m.groups[0], m.groups[1], m.groups[2], m.groups[3], m.groups[4])]
  {
  }

  /** A line `print_plan_actions` shows: a marker line whose list is not
      empty (no `[`, spaces, `]` anywhere in it). */
  predicate Meaningful(line: string) {
    Contains(line, ActionsMarker) && Search(EmptyBrackets, line).None?
  }

  /** The stripped lines `print_plan_actions` shows. */
  function Shown(lines: seq<string>): (r: seq<string>)
    ensures |r| <= |lines|
  {
    StrippedWhere(lines, Meaningful)
  }

  /** `print_plan_actions(plan_lines)` (posthoc.py:72-83): the shown lines,
      whether any was found (otherwise the "no meaningful actions" notice
      is printed), and the plan it returns, which is always
      `extract_actions(plan_lines)`. */
  method PrintPlanActions(lines: seq<string>) returns (plan: seq<string>, shown: seq<string>, found: bool)
    ensures shown == Shown(lines)
    ensures found <==> shown != []
    ensures plan == MarkedActions(lines)
  {
    found := false;
    shown := [];
    var i := 0;
    while i < |lines|
      invariant i <= |lines|
      invariant shown + StrippedWhere(lines[i..], Meaningful) == Shown(lines)
      invariant found <==> shown != []
    {
      StrippedWhereStep(lines, i, shown, Meaningful);
      if Meaningful(lines[i]) {
        shown := shown + [Strip(lines[i])];
        found := true;
      }
      i := i + 1;
    }
    assert lines[i..] == [];
    plan := ExtractActions(lines);
  }

  /** An opening text, spaces and a closing text that does not start
      with a space at `i` are a match of the opening, spaces and closing
      pattern (the empty-list pattern with `[` and `]`). */
  lemma EmptyListMatch(s: string, i: nat, w: string, post: string, o: string, c: string)
    requires c != [] && !IsSpace(c[0])
    requires i <= |s| && s[i..] == o + (w + (c + post)) && AllSpace(w)
    ensures MatchAt(Then(Lit(o), Then(Spaces(), Then(Lit(c), Done))), s, i).Some?
  {
    var rest := Then(Spaces(), Then(Lit(c), Done));
    SuffixParts(s, i, o, w + (c + post));
    SpacesClose(s, i + |o|, w, c, post);
    LitThenSome(o, rest, s, i, w + (c + post));
  }

  /** Spaces `w` and then the closing text `c` at `j`. */
  lemma SpacesClose(s: string, j: nat, w: string, c: string, post: string)
    requires c != [] && !IsSpace(c[0])
    requires j <= |s| && s[j..] == w + (c + post) && AllSpace(w)
    ensures MatchAt(Then(Spaces(), Then(Lit(c), Done)), s, j).Some?
  {
    var e := j + |w|;
    SuffixParts(s, j, w, c + post);
    CloseMatch(s, e, c, post);
    assert (c + post)[0] == c[0];
    assert AllIn(IsSpace, w);
    RunThen(IsSpace, 0, false, Then(Lit(c), Done), s, j, w, c + post, e, Hit(e + |c|, []));
  }

  /** The closing text `c` at `e` ends a match right after it. */
  lemma CloseMatch(s: string, e: nat, c: string, post: string)
    requires e <= |s| && s[e..] == c + post
    ensures MatchAt(Then(Lit(c), Done), s, e) == Some(Hit(e + |c|, []))
  {
    MatchLit(c, Done, s, e, post);
  }

  /** A line holding `[`, spaces and `]` has an empty-list match. */
  lemma EmptyListFound(line: string, i: nat, w: string, post: string, o: string, c: string)
    requires o == "[" && c == "]"
    requires i <= |line| && line[i..] == o + (w + (c + post)) && AllSpace(w)
    ensures !Nullable(EmptyBrackets) && Search(EmptyBrackets, line).Some?
  {
    OtherPatternsDeterministic();
    EmptyListMatch(line, i, w, post, o, c);
  }

  /** A marker line listing no action (`[ ]`) is not shown. */
  lemma EmptyListNotShown(pre: string, w: string, post: string)
    requires AllSpace(w)
    ensures Shown([pre + "[" + w + "]" + post]) == []
  {
    var line := pre + "[" + w + "]" + post;
    assert line[|pre|..] == "[" + (w + ("]" + post));
    EmptyListFound(line, |pre|, w, post, "[", "]");
    assert !Meaningful(line);
    assert [line][1..] == [];
  }
}
