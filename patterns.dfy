/** The regular expressions of the pipeline, each written out item by item.
    `\w` is `Chars.IsWordChar`, `\d` is `Chars.IsDigit`, `\s` is
    `Chars.IsSpace`; a negated class `[^...]` is one of the predicates below.
    A lazy group `(.*?)` followed by `\]` is the run of characters other than
    `]` and newline followed by `]`: the shortest text up to a `]` on the same
    line is the text up to the first `]`, and `.` does not cross a newline. */
module Patterns {
  import opened Chars
  import opened Regex

  predicate NotParen(c: char) { c != '(' && c != ')' }
  predicate NotParenOrDigit(c: char) { NotParen(c) && !IsDigit(c) }
  predicate NotComma(c: char) { c != ',' }
  predicate NotCloseParen(c: char) { c != ')' }
  predicate NotCloseBracket(c: char) { c != ']' }
  predicate NotCloseBracketOrNewline(c: char) { c != ']' && c != '\n' }
  predicate NotSpace(c: char) { !IsSpace(c) }

  function Spaces(): Item { Run(IsSpace, 0, false) }
  function Word(capture: bool): Item { Run(IsWordChar, 1, capture) }

  /** `[a-zA-Z_]+\([^()0-9]*\)`: an action in planner output (planner.py,
      gui.py). */
  const ActionToken: Pattern :=
    Then(Run(IsNameChar, 1, false), Then(Lit("("), Then(Run(NotParenOrDigit, 0, false), Then(Lit(")"), Done))))

  /** `([a-zA-Z_]+\([^()]*\))`: an action on a marker line (prehoc.py,
      posthoc.py); its one group is the whole match. */
  const MarkedToken: Pattern :=
    Then(Run(IsNameChar, 1, false), Then(Lit("("), Then(Run(NotParen, 0, false), Then(Lit(")"), Done))))

  /** `name\(\s*\w+,\s*\w+,\s*(\w+)\s*\)`: a three-argument action whose
      third argument is captured. */
  function ThirdArgument(name: string): Pattern {
    Then(Lit(name + "("), Then(Spaces(), Then(Word(false), Then(Lit(","),
    Then(Spaces(), Then(Word(false), Then(Lit(","),
    Then(Spaces(), Then(Word(true), Then(Spaces(), Then(Lit(")"), Done)))))))))))
  }

  /** `failure_happens\(\s*\w+,\s*\w+,\s*(\w+)\s*\)` (planner.py, gui.py). */
  const FailureHappens: Pattern := ThirdArgument("failure_happens")

  /** `goto_waypoint\(\s*\w+,\s*\w+,\s*(\w+)\s*\)` (gui.py). */
  const GotoWaypoint: Pattern := ThirdArgument("goto_waypoint")

  /** `fetch_book\(\s*(\w+),\s*\w+,\s*(\w+)\s*\)` (planner.py, gui.py). */
  const FetchBook: Pattern :=
    Then(Lit("fetch_book("), Then(Spaces(), Then(Word(true), Then(Lit(","),
    Then(Spaces(), Then(Word(false), Then(Lit(","),
    Then(Spaces(), Then(Word(true), Then(Spaces(), Then(Lit(")"), Done)))))))))))

  /** `name\((\w+),\s*(\w+),\s*(\w+)\)` (modify_rddl.py). */
  function AllArguments(name: string): Pattern {
    Then(Lit(name + "("), Then(Word(true), Then(Lit(","),
    Then(Spaces(), Then(Word(true), Then(Lit(","),
    Then(Spaces(), Then(Word(true), Then(Lit(")"), Done)))))))))
  }

  /** `prob_failure\((\w+)\)\s*=\s*([\d.]+);` */
  const FailureProbability: Pattern :=
    Then(Lit("prob_failure("), Then(Word(true), Then(Lit(")"), Then(Spaces(), Then(Lit("="), Then(Spaces(),
    Then(Run(IsDecimalChar, 1, true), Then(Lit(";"), Done))))))))

  /** `prob_response\((\w+),\s*(\w+)\)\s*=\s*([\d.]+);` */
  const ResponseProbability: Pattern :=
    Then(Lit("prob_response("), Then(Word(true), Then(Lit(","), Then(Spaces(), Then(Word(true), Then(Lit(")"),
    Then(Spaces(), Then(Lit("="), Then(Spaces(), Then(Run(IsDecimalChar, 1, true), Then(Lit(";"), Done)))))))))))

  /** `\*\* Actions received: \[(.*?)\]` (reactive.py). */
  const ActionsLine: Pattern :=
    Then(Lit("** Actions received: ["), Then(Run(NotCloseBracketOrNewline, 0, true), Then(Lit("]"), Done)))

  /** `\*\* Actions received: \[([^\]]*)\]` (reactive_online.py). */
  const ActionsBlock: Pattern :=
    Then(Lit("** Actions received: ["), Then(Run(NotCloseBracket, 0, true), Then(Lit("]"), Done)))

  /** `fetch_book\(([^,]+),\s*([^,]+),\s*([^)]+)\)` (reactive.py). */
  const LooseFetchBook: Pattern :=
    Then(Lit("fetch_book("), Then(Run(NotComma, 1, true), Then(Lit(","),
    Then(SpacedGroup(NotComma), Then(Lit(","), Then(SpacedGroup(NotCloseParen), Then(Lit(")"), Done)))))))

  /** `prob_failure\(<book>, ([^)]+)\)\s*=\s*[0-9.]+;` with the book name
      taken literally (reactive.py). */
  function BookFailure(book: string): Pattern {
    Then(Lit("prob_failure(" + book + ", "), Then(Run(NotCloseParen, 1, true), Then(Lit(")"),
    Then(Spaces(), Then(Lit("="), Then(Spaces(), Then(Run(IsDecimalChar, 1, false), Then(Lit(";"), Done))))))))
  }

  /** `prob_failure(<book>, \1) = 0.0;` */
  function BookFailureZeroed(book: string): seq<Piece> {
    [Text("prob_failure(" + book + ", "), Group(1), Text(") = 0.0;")]
  }

  /** `instance\s+([^\s]+)` (reactive.py). */
  const InstanceName: Pattern :=
    Then(Lit("instance"), Then(Run(IsSpace, 1, false), Then(Run(NotSpace, 1, true), Done)))

  const ReactiveInstanceName: seq<Piece> := [Text("instance instance_failure_probability_reactive")]

  /** `prob_failure\(([^,]+), ([^)]+)\)\s*=\s*[\d.]+` (reactive_online.py). */
  const PairFailure: Pattern :=
    Then(Lit("prob_failure("), Then(Run(NotComma, 1, true), Then(Lit(", "), Then(Run(NotCloseParen, 1, true),
    Then(Lit(")"), Then(Spaces(), Then(Lit("="), Then(Spaces(), Then(Run(IsDecimalChar, 1, false), Done)))))))))

  /** `prob_failure(\1, \2) = 0.0` */
  const PairFailureZeroed: seq<Piece> := [Text("prob_failure("), Group(1), Text(", "), Group(2), Text(") = 0.0")]

  /** `wants_book\(([^,]+), ([^)]+)\)` (prehoc.py). */
  const WantsBook: Pattern :=
    Then(Lit("wants_book("), Then(Run(NotComma, 1, true), Then(Lit(", "), Then(Run(NotCloseParen, 1, true),
    Then(Lit(")"), Done)))))

  /** `prob_failure\(([^,]+), ([^)]+)\)\s*=\s*([0-9.]+);` (prehoc.py). */
  const PairFailureEntry: Pattern :=
    Then(Lit("prob_failure("), Then(Run(NotComma, 1, true), Then(Lit(", "), Then(Run(NotCloseParen, 1, true),
    Then(Lit(")"), Then(Spaces(), Then(Lit("="), Then(Spaces(), Then(Run(IsDecimalChar, 1, true),
    Then(Lit(";"), Done))))))))))

  /** `prob_failure\(([^,]+), ([^)]+)\)\s*=\s*([\d.]+)` (prehoc.py). */
  const PairFailureValue: Pattern :=
    Then(Lit("prob_failure("), Then(Run(NotComma, 1, true), Then(Lit(", "), Then(Run(NotCloseParen, 1, true),
    Then(Lit(")"), Then(Spaces(), Then(Lit("="), Then(Spaces(), Then(Run(IsDecimalChar, 1, true), Done)))))))))

  /** `give_response\(([^,]+), ([^,]+), ([^,]+), ([^,]+), ([^)]+)\)` followed
      by `tail` (prehoc.py with `tail` empty, posthoc.py with `;`). */
  function GiveResponse(tail: string): Pattern {
    Then(Lit("give_response("), Then(Run(NotComma, 1, true), Then(Lit(", "),
    Then(Run(NotComma, 1, true), Then(Lit(", "), Then(Run(NotComma, 1, true), Then(Lit(", "),
    Then(Run(NotComma, 1, true), Then(Lit(", "), Then(Run(NotCloseParen, 1, true), Then(Lit(")" + tail), Done)))))))))))
  }

  /** `\[\s*\]` (posthoc.py). */
  const EmptyBrackets: Pattern := Then(Lit("["), Then(Spaces(), Then(Lit("]"), Done)))

  lemma SpaceIsNotWord()
    ensures forall c :: IsSpace(c) ==> !IsWordChar(c)
  {
  }

  /** `\s*\w+` in front of a deterministic pattern starting with literal
      text. */
  lemma SpacedWord(cap: bool, x: string, rest: Pattern)
    requires x != [] && !IsWordChar(x[0]) && Deterministic(Then(Lit(x), rest))
    ensures Deterministic(Then(Spaces(), Then(Word(cap), Then(Lit(x), rest))))
    ensures Closed(Then(Lit(x), rest)) ==> Closed(Then(Spaces(), Then(Word(cap), Then(Lit(x), rest))))
  {
    SpaceIsNotWord();
    RunBeforeLit(IsWordChar, 1, cap, x, rest);
    RunBeforeRun(IsSpace, 0, false, IsWordChar, 1, cap, Then(Lit(x), rest));
  }

  /** `\s*(\w+)\s*\)` */
  lemma SpacedLastWord()
    ensures Deterministic(Then(Spaces(), Then(Word(true), Then(Spaces(), Then(Lit(")"), Done)))))
    ensures Closed(Then(Spaces(), Then(Word(true), Then(Spaces(), Then(Lit(")"), Done)))))
  {
    SpaceIsNotWord();
    LitDone(")");
    RunBeforeLit(IsSpace, 0, false, ")", Done);
    RunBeforeOptional(IsWordChar, 1, true, IsSpace, false, ")", Done);
    RunBeforeRun(IsSpace, 0, false, IsWordChar, 1, true, Then(Spaces(), Then(Lit(")"), Done)));
  }

  lemma ThirdArgumentDeterministic(name: string)
    ensures !Nullable(ThirdArgument(name)) && Deterministic(ThirdArgument(name)) && Closed(ThirdArgument(name))
  {
    var last := Then(Spaces(), Then(Word(true), Then(Spaces(), Then(Lit(")"), Done))));
    SpacedLastWord();
    LitBefore(",", last);
    SpacedWord(false, ",", last);
    var middle := Then(Spaces(), Then(Word(false), Then(Lit(","), last)));
    LitBefore(",", middle);
    SpacedWord(false, ",", middle);
    LitBefore(name + "(", Then(Spaces(), Then(Word(false), Then(Lit(","), middle))));
  }

  lemma FetchBookDeterministic()
    ensures !Nullable(FetchBook) && Deterministic(FetchBook) && Closed(FetchBook)
  {
    var last := Then(Spaces(), Then(Word(true), Then(Spaces(), Then(Lit(")"), Done))));
    SpacedLastWord();
    LitBefore(",", last);
    SpacedWord(false, ",", last);
    var middle := Then(Spaces(), Then(Word(false), Then(Lit(","), last)));
    LitBefore(",", middle);
    SpacedWord(true, ",", middle);
    LitBefore("fetch_book(", Then(Spaces(), Then(Word(true), Then(Lit(","), middle))));
  }

  lemma AllArgumentsDeterministic(name: string)
    ensures !Nullable(AllArguments(name)) && Deterministic(AllArguments(name)) && Closed(AllArguments(name))
  {
    LitDone(")");
    SpacedWord(true, ")", Done);
    var last := Then(Spaces(), Then(Word(true), Then(Lit(")"), Done)));
    LitBefore(",", last);
    SpacedWord(true, ",", last);
    var middle := Then(Spaces(), Then(Word(true), Then(Lit(","), last)));
    LitBefore(",", middle);
    RunBeforeLit(IsWordChar, 1, true, ",", middle);
    LitBefore(name + "(", Then(Word(true), Then(Lit(","), middle)));
  }

  lemma TokensDeterministic()
    ensures !Nullable(ActionToken) && Deterministic(ActionToken) && Closed(ActionToken)
    ensures !Nullable(MarkedToken) && Deterministic(MarkedToken) && Closed(MarkedToken)
  {
    LitDone(")");
    RunBeforeLit(NotParenOrDigit, 0, false, ")", Done);
    RunBeforeLit(NotParen, 0, false, ")", Done);
    LitBefore("(", Then(Run(NotParenOrDigit, 0, false), Then(Lit(")"), Done)));
    LitBefore("(", Then(Run(NotParen, 0, false), Then(Lit(")"), Done)));
    RunBeforeLit(IsNameChar, 1, false, "(", Then(Run(NotParenOrDigit, 0, false), Then(Lit(")"), Done)));
    RunBeforeLit(IsNameChar, 1, false, "(", Then(Run(NotParen, 0, false), Then(Lit(")"), Done)));
  }

  /** `\s*=\s*([\d.]+)` followed by `tail`. */
  lemma AssignedValue(cap: bool, tail: Pattern)
    requires tail == Done || tail == Then(Lit(";"), Done)
    ensures Deterministic(Then(Spaces(), Then(Lit("="), Then(Spaces(), Then(Run(IsDecimalChar, 1, cap), tail)))))
    ensures Closed(tail) ==> Closed(Then(Spaces(), Then(Lit("="), Then(Spaces(), Then(Run(IsDecimalChar, 1, cap), tail)))))
  {
    if tail == Done {
      RunDone(IsDecimalChar, 1, cap);
    } else {
      LitDone(";");
      RunBeforeLit(IsDecimalChar, 1, cap, ";", Done);
    }
    var value := Then(Run(IsDecimalChar, 1, cap), tail);
    RunBeforeRun(IsSpace, 0, false, IsDecimalChar, 1, cap, tail);
    LitBefore("=", Then(Spaces(), value));
    RunBeforeLit(IsSpace, 0, false, "=", Then(Spaces(), value));
  }

  lemma ProbabilitiesDeterministic()
    ensures !Nullable(FailureProbability) && Deterministic(FailureProbability) && Closed(FailureProbability)
    ensures !Nullable(ResponseProbability) && Deterministic(ResponseProbability) && Closed(ResponseProbability)
  {
    AssignedValue(true, Then(Lit(";"), Done));
    var value := Then(Spaces(), Then(Lit("="), Then(Spaces(), Then(Run(IsDecimalChar, 1, true), Then(Lit(";"), Done)))));
    LitBefore(")", value);
    RunBeforeLit(IsWordChar, 1, true, ")", value);
    LitBefore("prob_failure(", Then(Word(true), Then(Lit(")"), value)));
    SpacedWord(true, ")", value);
    LitBefore(",", Then(Spaces(), Then(Word(true), Then(Lit(")"), value))));
    RunBeforeLit(IsWordChar, 1, true, ",", Then(Spaces(), Then(Word(true), Then(Lit(")"), value))));
    LitBefore("prob_response(", Then(Word(true), Then(Lit(","), Then(Spaces(), Then(Word(true), Then(Lit(")"), value))))));
  }

  lemma ActionGroupsDeterministic()
    ensures !Nullable(ActionsLine) && Deterministic(ActionsLine) && Closed(ActionsLine)
    ensures !Nullable(ActionsBlock) && Deterministic(ActionsBlock) && Closed(ActionsBlock)
  {
    LitDone("]");
    RunBeforeLit(NotCloseBracketOrNewline, 0, true, "]", Done);
    RunBeforeLit(NotCloseBracket, 0, true, "]", Done);
    LitBefore("** Actions received: [", Then(Run(NotCloseBracketOrNewline, 0, true), Then(Lit("]"), Done)));
    LitBefore("** Actions received: [", Then(Run(NotCloseBracket, 0, true), Then(Lit("]"), Done)));
  }

  /** `([^,]+), ([^)]+)\)` followed by a deterministic `rest`. */
  lemma PairArguments(rest: Pattern)
    requires Deterministic(rest) && rest != Done
    ensures Deterministic(Then(Run(NotComma, 1, true), Then(Lit(", "), Then(Run(NotCloseParen, 1, true), Then(Lit(")"), rest)))))
    ensures Closed(rest) ==> Closed(Then(Run(NotComma, 1, true), Then(Lit(", "), Then(Run(NotCloseParen, 1, true), Then(Lit(")"), rest)))))
  {
    LitBefore(")", rest);
    RunBeforeLit(NotCloseParen, 1, true, ")", rest);
    LitBefore(", ", Then(Run(NotCloseParen, 1, true), Then(Lit(")"), rest)));
    RunBeforeLit(NotComma, 1, true, ", ", Then(Run(NotCloseParen, 1, true), Then(Lit(")"), rest)));
  }

  lemma BookFailureDeterministic(book: string)
    ensures !Nullable(BookFailure(book)) && Deterministic(BookFailure(book)) && Closed(BookFailure(book))
  {
    AssignedValue(false, Then(Lit(";"), Done));
    var value := Then(Spaces(), Then(Lit("="), Then(Spaces(), Then(Run(IsDecimalChar, 1, false), Then(Lit(";"), Done)))));
    LitBefore(")", value);
    RunBeforeLit(NotCloseParen, 1, true, ")", value);
    LitBefore("prob_failure(" + book + ", ", Then(Run(NotCloseParen, 1, true), Then(Lit(")"), value)));
  }

  lemma PairPatternsDeterministic()
    ensures !Nullable(PairFailure) && Deterministic(PairFailure)
    ensures !Nullable(PairFailureEntry) && Deterministic(PairFailureEntry) && Closed(PairFailureEntry)
    ensures !Nullable(PairFailureValue) && Deterministic(PairFailureValue)
    ensures !Nullable(WantsBook) && Deterministic(WantsBook) && Closed(WantsBook)
  {
    AssignedValue(false, Done);
    PairArguments(Then(Spaces(), Then(Lit("="), Then(Spaces(), Then(Run(IsDecimalChar, 1, false), Done)))));
    LitBefore("prob_failure(", Then(Run(NotComma, 1, true), Then(Lit(", "), Then(Run(NotCloseParen, 1, true), Then(Lit(")"),
      Then(Spaces(), Then(Lit("="), Then(Spaces(), Then(Run(IsDecimalChar, 1, false), Done)))))))));
    AssignedValue(true, Then(Lit(";"), Done));
    PairArguments(Then(Spaces(), Then(Lit("="), Then(Spaces(), Then(Run(IsDecimalChar, 1, true), Then(Lit(";"), Done))))));
    LitBefore("prob_failure(", Then(Run(NotComma, 1, true), Then(Lit(", "), Then(Run(NotCloseParen, 1, true), Then(Lit(")"),
      Then(Spaces(), Then(Lit("="), Then(Spaces(), Then(Run(IsDecimalChar, 1, true), Then(Lit(";"), Done))))))))));
    AssignedValue(true, Done);
    PairArguments(Then(Spaces(), Then(Lit("="), Then(Spaces(), Then(Run(IsDecimalChar, 1, true), Done)))));
    LitBefore("prob_failure(", Then(Run(NotComma, 1, true), Then(Lit(", "), Then(Run(NotCloseParen, 1, true), Then(Lit(")"),
      Then(Spaces(), Then(Lit("="), Then(Spaces(), Then(Run(IsDecimalChar, 1, true), Done)))))))));
    LitDone(")");
    RunBeforeLit(NotCloseParen, 1, true, ")", Done);
    LitBefore(", ", Then(Run(NotCloseParen, 1, true), Then(Lit(")"), Done)));
    RunBeforeLit(NotComma, 1, true, ", ", Then(Run(NotCloseParen, 1, true), Then(Lit(")"), Done)));
    LitBefore("wants_book(", Then(Run(NotComma, 1, true), Then(Lit(", "), Then(Run(NotCloseParen, 1, true), Then(Lit(")"), Done)))));
  }

  lemma OtherPatternsDeterministic()
    ensures !Nullable(InstanceName) && Deterministic(InstanceName)
    ensures !Nullable(EmptyBrackets) && Deterministic(EmptyBrackets) && Closed(EmptyBrackets)
  {
    RunDone(NotSpace, 1, true);
    RunBeforeRun(IsSpace, 1, false, NotSpace, 1, true, Done);
    LitBefore("instance", Then(Run(IsSpace, 1, false), Then(Run(NotSpace, 1, true), Done)));
    LitDone("]");
    RunBeforeLit(IsSpace, 0, false, "]", Done);
    LitBefore("[", Then(Spaces(), Then(Lit("]"), Done)));
  }

  lemma GiveResponseDeterministic(tail: string)
    ensures !Nullable(GiveResponse(tail)) && Deterministic(GiveResponse(tail)) && Closed(GiveResponse(tail))
  {
    var close := Then(Lit(")" + tail), Done);
    LitDone(")" + tail);
    RunBeforeLit(NotCloseParen, 1, true, ")" + tail, Done);
    var p := Then(Run(NotCloseParen, 1, true), close);
    LitBefore(", ", p);
    RunBeforeLit(NotComma, 1, true, ", ", p);
    var p4 := Then(Run(NotComma, 1, true), Then(Lit(", "), p));
    LitBefore(", ", p4);
    RunBeforeLit(NotComma, 1, true, ", ", p4);
    var p3 := Then(Run(NotComma, 1, true), Then(Lit(", "), p4));
    LitBefore(", ", p3);
    RunBeforeLit(NotComma, 1, true, ", ", p3);
    var p2 := Then(Run(NotComma, 1, true), Then(Lit(", "), p3));
    LitBefore(", ", p2);
    RunBeforeLit(NotComma, 1, true, ", ", p2);
    LitBefore("give_response(", Then(Run(NotComma, 1, true), Then(Lit(", "), p2)));
  }

  lemma LooseFetchBookNotNullable()
    ensures !Nullable(LooseFetchBook)
  {
  }
}
