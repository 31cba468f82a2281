/** Reactive replanning with a fresh planner run (reactive.py): the plan is
    read from the `** Actions received: [...]` lines of the planner output,
    and after a failure the problem instance is rewritten so that the book
    of the failing `fetch_book` action can no longer fail. */
module Reactive {
  import opened Wrappers
  import opened Chars
  import opened Strings
  import opened Regex
  import opened Patterns
  import opened Extraction

  const ActionsPrefix: string := "** Actions received: ["

  /** `[a.strip() for group in groups if group for a in group.split(';') if a.strip()]` */
  function GuardedPlan(groups: seq<string>): seq<string>
    decreases |groups|
  {
    if groups == [] then []
    else (if groups[0] == [] then [] else GroupActions(groups[0])) + GuardedPlan(groups[1..])
  }

  /** Skipping empty groups changes nothing: an empty group has no actions. */
  lemma {:induction false} GuardedPlanIsPlan(groups: seq<string>)
    ensures GuardedPlan(groups) == PlanFromGroups(groups)
    decreases |groups|
  {
    if groups != [] {
      GuardedPlanIsPlan(groups[1..]);
      if groups[0] == [] {
        assert Split([], ';') == [[]];
        assert Strip([]) == [];
        assert GroupActions([]) == [];
      }
    }
  }

  /** `extract_plan` on the text of the planner output. */
  function ExtractPlan(text: string): (plan: seq<string>)
    ensures forall a | a in plan :: a != [] && Trimmed(a) && ';' !in a
  {
    ActionGroupsDeterministic();
    GuardedPlanIsPlan(Column(FindAll(ActionsLine, text), 0));
    GuardedPlan(Column(FindAll(ActionsLine, text), 0))
  }

  /** Without the marker the plan is empty. */
  lemma NoMarkerNoPlan(text: string)
    requires !Contains(text, ActionsPrefix)
    ensures ExtractPlan(text) == []
  {
    ActionGroupsDeterministic();
    AbsentLiteral(ActionsPrefix, Then(Run(NotCloseBracketOrNewline, 0, true), Then(Lit("]"), Done)), text);
  }

  /** Every character of a join is a separator or a character of a part. */
  lemma {:induction false} JoinAllIn(parts: seq<string>, sep: char, cls: CharClass)
    requires cls(sep) && forall k | 0 <= k < |parts| :: AllIn(cls, parts[k])
    ensures AllIn(cls, Join(parts, sep))
    decreases |parts|
  {
    if |parts| > 1 {
      JoinAllIn(parts[1..], sep, cls);
      var j := parts[0] + [sep] + Join(parts[1..], sep);
      assert forall k | 0 <= k < |j| :: k < |parts[0]| ==> j[k] == parts[0][k];
      assert forall k | |parts[0]| < k < |j| :: j[k] == Join(parts[1..], sep)[k - |parts[0]| - 1];
    }
  }

  /** The one match of a marker line, and its group. */
  lemma ActionsLineMatch(group: string)
    requires AllIn(NotCloseBracketOrNewline, group)
    ensures FindAll(ActionsLine, ActionsPrefix + group + "]") == [Match(0, |ActionsPrefix + group + "]"|, [group])]
  {
    MarkerLineMatch(group, ActionsPrefix, "]");
  }

  /** The same, with the marker and the bracket as parameters so that the
      proof does not unfold the pattern on literals. */
  lemma MarkerLineMatch(group: string, prefix: string, close: string)
    requires prefix == ActionsPrefix && close == "]" && AllIn(NotCloseBracketOrNewline, group)
    ensures FindAll(ActionsLine, prefix + group + close) == [Match(0, |prefix + group + close|, [group])]
  {
    ActionGroupsDeterministic();
    var s := prefix + (group + close);
    assert s == prefix + group + close;
    var n := |prefix|;
    assert s[0..] == s;
    var tail := Then(Lit(close), Done);
    var body := Then(Run(NotCloseBracketOrNewline, 0, true), tail);
    assert ActionsLine == Then(Lit(prefix), body);
    MatchLit(prefix, body, s, 0, group + close);
    SuffixParts(s, n, group, close);
    MatchLit(close, Done, s, n + |group|, []);
    assert MatchAt(tail, s, n + |group|) == Some(Hit(|s|, []));
    RunThen(NotCloseBracketOrNewline, 0, true, tail, s, n, group, close, n + |group|, Hit(|s|, []));
    assert [group] + [] == [group];
    assert MatchAt(body, s, n) == Some(Hit(|s|, [group]));
    assert MatchAt(ActionsLine, s, 0) == Some(Hit(|s|, [group]));
    assert FindAllFrom(ActionsLine, s, 0) == [Match(0, |s|, [group])] + FindAllFrom(ActionsLine, s, |s|);
  }

  lemma PlanOfOneGroup(text: string, group: string)
    requires !Nullable(ActionsLine) && Column(FindAll(ActionsLine, text), 0) == [group]
    ensures ExtractPlan(text) == GroupActions(group)
  {
    GuardedPlanIsPlan([group]);
    assert PlanFromGroups([group]) == GroupActions(group) + PlanFromGroups([]);
  }

  /** The planner's report of a round, read back, gives its actions. */
  lemma {:induction false} PlanRoundTrip(actions: seq<string>)
    requires forall k | 0 <= k < |actions| :: actions[k] != [] && Trimmed(actions[k])
                                              && AllIn(NotCloseBracketOrNewline, actions[k]) && ';' !in actions[k]
    ensures ExtractPlan(ActionsPrefix + Join(actions, ';') + "]") == actions
  {
    var group := Join(actions, ';');
    var s := ActionsPrefix + group + "]";
    JoinAllIn(actions, ';', NotCloseBracketOrNewline);
    ActionsLineMatch(group);
    ActionGroupsDeterministic();
    assert Column(FindAll(ActionsLine, s), 0) == [group];
    PlanOfOneGroup(s, group);
    GroupRoundTrip(actions);
  }

  /* The instance rewrite of `generate_reactive_instance`. */

  lemma LooseFetchBookCaptures()
    ensures !Nullable(LooseFetchBook) && Captures(LooseFetchBook) == 3
  {
    LooseFetchBookNotNullable();
    var close := Then(Lit(")"), Done);
    assert Captures(close) == 0;
    var last := Then(SpacedGroup(NotCloseParen), close);
    assert Captures(last) == 1;
    assert Captures(Then(Lit(","), last)) == 1;
    var second := Then(SpacedGroup(NotComma), Then(Lit(","), last));
    assert Captures(second) == 2;
    assert Captures(Then(Lit(","), second)) == 2;
    assert Captures(Then(Run(NotComma, 1, true), Then(Lit(","), second))) == 3;
    assert LooseFetchBook == Then(Lit("fetch_book("), Then(Run(NotComma, 1, true), Then(Lit(","), second)));
  }

  /** The failing book: the second argument of the first
      `fetch_book(...)` match in the failing action, `None` without one. */
  function FailingBook(action: string): (book: Option<string>)
    ensures book.None? <==> FindAll(LooseFetchBook, action) == []
    ensures book.Some? ==> var m := FindAll(LooseFetchBook, action)[0];
                             |m.groups| == 3 && book.value == m.groups[1]
  {
    LooseFetchBookCaptures();
    SearchIsFirst(LooseFetchBook, action, 0);
    match Search(LooseFetchBook, action)
    case None => None
    case Some(m) => Some(m.groups[1])
  }

  /** An action that is not a `fetch_book` names no book. */
  lemma NoFetchNoBook(action: string)
    requires !Contains(action, "fetch_book(")
    ensures FailingBook(action).None?
  {
    AbsentLiteral("fetch_book(", LooseFetchBook.tail, action);
  }

  /** `fetch_book(robot, book, human)` */
  function FetchAction(robot: string, book: string, human: string): string {
    "fetch_book(" + robot + ", " + book + ", " + human + ")"
  }

  /** In `fetch_book(robot, book, human)` the book is the second argument. */
  lemma FetchBookNamesBook(robot: string, book: string, human: string)
    requires robot != [] && AllIn(NotComma, robot)
    requires book != [] && !IsSpace(book[0]) && AllIn(NotComma, book)
    requires human != [] && !IsSpace(human[0]) && AllIn(NotCloseParen, human)
    ensures FailingBook(FetchAction(robot, book, human)) == Some(book)
  {
    LooseFetchBookCaptures();
    FetchMatch(robot, book, human);
  }

  /** The whole action is one match of the `fetch_book` pattern. */
  lemma FetchMatch(robot: string, book: string, human: string)
    requires robot != [] && AllIn(NotComma, robot)
    requires book != [] && !IsSpace(book[0]) && AllIn(NotComma, book)
    requires human != [] && !IsSpace(human[0]) && AllIn(NotCloseParen, human)
    ensures var s := FetchAction(robot, book, human);
      MatchAt(LooseFetchBook, s, 0) == Some(Hit(|s|, [robot, book, human]))
  {
    var u := "," + (" " + (book + ("," + (" " + (human + ")")))));
    FetchActionNested(robot, book, human);
    FetchParts("fetch_book(" + (robot + u), "fetch_book(", robot, u, book, human);
  }

  /** The same, with the call's opening `open` and the text `u` after the
      robot as parameters so that the proof does not unfold the literals. */
  lemma FetchParts(s: string, open: string, robot: string, u: string, book: string, human: string)
    requires open == "fetch_book(" && u == "," + (" " + (book + ("," + (" " + (human + ")")))))
    requires s == open + (robot + u)
    requires robot != [] && AllIn(NotComma, robot)
    requires book != [] && !IsSpace(book[0]) && AllIn(NotComma, book)
    requires human != [] && !IsSpace(human[0]) && AllIn(NotCloseParen, human)
    ensures MatchAt(LooseFetchBook, s, 0) == Some(Hit(|s|, [robot, book, human]))
  {
    var p3 := Then(Lit(","), BookTail);
    var p2 := Then(Run(NotComma, 1, true), p3);
    assert LooseFetchBook == Then(Lit(open), p2);
    assert s[0..] == s;
    MatchLit(open, p2, s, 0, robot + u);
    var j := |open| + |robot|;
    SuffixParts(s, |open|, robot, u);
    CommaBookMatch(s, j, book, human);
    RunThen(NotComma, 1, true, p3, s, |open|, robot, u, j, Hit(|s|, [book, human]));
    assert [robot] + [book, human] == [robot, book, human];
  }

  lemma FetchActionNested(robot: string, book: string, human: string)
    ensures FetchAction(robot, book, human)
            == "fetch_book(" + (robot + ("," + (" " + (book + ("," + (" " + (human + ")")))))))
  {
  }

  /** `\s*([^,]+),\s*([^)]+)\)`, what follows the first comma. */
  const BookTail: Pattern := Then(SpacedGroup(NotComma), Then(Lit(","), HumanTail))

  /** `\s*([^)]+)\)`, what follows the second comma. */
  const HumanTail: Pattern := Then(SpacedGroup(NotCloseParen), Then(Lit(")"), Done))

  lemma CommaBookMatch(s: string, i: nat, book: string, human: string)
    requires i <= |s| && s[i..] == "," + (" " + (book + ("," + (" " + (human + ")")))))
    requires book != [] && !IsSpace(book[0]) && AllIn(NotComma, book)
    requires human != [] && !IsSpace(human[0]) && AllIn(NotCloseParen, human)
    ensures MatchAt(Then(Lit(","), BookTail), s, i) == Some(Hit(|s|, [book, human]))
  {
    var j := i + 1;
    MatchLit(",", BookTail, s, i, " " + (book + ("," + (" " + (human + ")")))));
    BookTailMatch(s, j, book, human);
  }

  lemma BookTailMatch(s: string, i: nat, book: string, human: string)
    requires i <= |s| && s[i..] == " " + (book + ("," + (" " + (human + ")"))))
    requires book != [] && !IsSpace(book[0]) && AllIn(NotComma, book)
    requires human != [] && !IsSpace(human[0]) && AllIn(NotCloseParen, human)
    ensures MatchAt(BookTail, s, i) == Some(Hit(|s|, [book, human]))
  {
    BookTailParts(s, i, " ", book, "," + (" " + (human + ")")), human);
  }

  /** The same, with the space `w` and the text `u` after the book as
      parameters so that the proof does not unfold the literals. */
  lemma BookTailParts(s: string, i: nat, w: string, book: string, u: string, human: string)
    requires w == " " && u == "," + (" " + (human + ")"))
    requires i <= |s| && s[i..] == w + (book + u)
    requires book != [] && !IsSpace(book[0]) && AllIn(NotComma, book)
    requires human != [] && !IsSpace(human[0]) && AllIn(NotCloseParen, human)
    ensures MatchAt(BookTail, s, i) == Some(Hit(|s|, [book, human]))
  {
    SuffixParts(s, i, w, book + u);
    var j := i + 1 + |book|;
    SuffixParts(s, i + 1, book, u);
    CommaHumanMatch(s, j, human);
    SpacedThen(NotComma, Then(Lit(","), HumanTail), s, i, w, book, u, j, Hit(|s|, [human]));
    assert [book] + [human] == [book, human];
  }

  lemma CommaHumanMatch(s: string, i: nat, human: string)
    requires i <= |s| && s[i..] == "," + (" " + (human + ")"))
    requires human != [] && !IsSpace(human[0]) && AllIn(NotCloseParen, human)
    ensures MatchAt(Then(Lit(","), HumanTail), s, i) == Some(Hit(|s|, [human]))
  {
    var j := i + 1;
    MatchLit(",", HumanTail, s, i, " " + (human + ")"));
    HumanTailMatch(s, j, human);
  }

  lemma HumanTailMatch(s: string, i: nat, human: string)
    requires i <= |s| && s[i..] == " " + (human + ")")
    requires human != [] && !IsSpace(human[0]) && AllIn(NotCloseParen, human)
    ensures MatchAt(HumanTail, s, i) == Some(Hit(|s|, [human]))
  {
    SuffixParts(s, i, " ", human + ")");
    var j := i + 1 + |human|;
    SuffixParts(s, i + 1, human, ")");
    MatchLit(")", Done, s, j, []);
    SpacedThen(NotCloseParen, Then(Lit(")"), Done), s, i, " ", human, ")", j, Hit(|s|, []));
    assert [human] + [] == [human];
  }

  /** The instance after the two substitutions: the failing book's failure
      probabilities set to 0.0, and the instance renamed. */
  function ReactiveInstance(content: string, book: string): string {
    BookFailureDeterministic(book);
    OtherPatternsDeterministic();
    Sub(InstanceName, Sub(BookFailure(book), content, BookFailureZeroed(book)), ReactiveInstanceName)
  }

  /** `prob_failure(book, failure) = value;` */
  function FailureEntry(book: string, failure: string, value: string): string {
    "prob_failure(" + book + ", " + failure + ") = " + value + ";"
  }

  lemma BookFailureCaptures(book: string)
    ensures !Nullable(BookFailure(book)) && Captures(BookFailure(book)) == 1
  {
    BookFailureDeterministic(book);
    var semi := Then(Lit(";"), Done);
    var number := Then(Run(IsDecimalChar, 1, false), semi);
    assert Captures(number) == 0;
    var eq := Then(Lit("="), Then(Spaces(), number));
    assert Captures(eq) == 0;
    var close := Then(Lit(")"), Then(Spaces(), eq));
    assert Captures(close) == 0;
    assert BookFailure(book) == Then(Lit("prob_failure(" + book + ", "), Then(Run(NotCloseParen, 1, true), close));
  }

  /** An entry for the failing book, with any failure name and number, is
      set to 0.0 and keeps its failure name. */
  lemma EntryZeroed(book: string, failure: string, value: string)
    requires failure != [] && AllIn(NotCloseParen, failure)
    requires value != [] && AllIn(IsDecimalChar, value)
    ensures Sub(BookFailure(book), FailureEntry(book, failure, value), BookFailureZeroed(book))
            == FailureEntry(book, failure, "0.0")
  {
    BookFailureDeterministic(book);
    var s := FailureEntry(book, failure, value);
    EntryMatch(book, failure, value);
    assert Sub(BookFailure(book), s, BookFailureZeroed(book))
        == Expand(BookFailureZeroed(book), [failure]) + SubFrom(BookFailure(book), s, BookFailureZeroed(book), |s|);
    ZeroedText(book, failure);
  }

  /** `\)\s*=\s*[0-9.]+;`, what follows the failure name. */
  const FailureTail: Pattern := Then(Lit(")"), Then(Spaces(), Then(Lit("="), Then(Spaces(), NumberTail))))

  /** `[0-9.]+;` */
  const NumberTail: Pattern := Then(Run(IsDecimalChar, 1, false), Then(Lit(";"), Done))

  lemma FailureEntryNested(book: string, failure: string, value: string)
    ensures FailureEntry(book, failure, value)
            == ("prob_failure(" + book + ", ") + (failure + (")" + (" " + ("=" + (" " + (value + ";"))))))
  {
    assert ") = " == ")" + (" " + ("=" + " "));
  }

  /** A whole entry is one match of the failing-book pattern. */
  lemma EntryMatch(book: string, failure: string, value: string)
    requires failure != [] && AllIn(NotCloseParen, failure)
    requires value != [] && AllIn(IsDecimalChar, value)
    ensures var s := FailureEntry(book, failure, value);
      MatchAt(BookFailure(book), s, 0) == Some(Hit(|s|, [failure]))
  {
    var prefix := "prob_failure(" + book + ", ";
    var u := ")" + (" " + ("=" + (" " + (value + ";"))));
    var s := prefix + (failure + u);
    FailureEntryNested(book, failure, value);
    var p1 := Then(Run(NotCloseParen, 1, true), FailureTail);
    assert BookFailure(book) == Then(Lit(prefix), p1);
    assert s[0..] == s;
    var i := |prefix|;
    MatchLit(prefix, p1, s, 0, failure + u);
    var j := i + |failure|;
    SuffixParts(s, i, failure, u);
    FailureTailMatch(s, j, value);
    RunThen(NotCloseParen, 1, true, FailureTail, s, i, failure, u, j, Hit(|s|, []));
    assert [failure] + [] == [failure];
  }

  lemma FailureTailMatch(s: string, i: nat, value: string)
    requires i <= |s| && s[i..] == ")" + (" " + ("=" + (" " + (value + ";"))))
    requires value != [] && AllIn(IsDecimalChar, value)
    ensures MatchAt(FailureTail, s, i) == Some(Hit(|s|, []))
  {
    var j := i + 1;
    MatchLit(")", Then(Spaces(), Then(Lit("="), Then(Spaces(), NumberTail))), s, i, " " + ("=" + (" " + (value + ";"))));
    ValueMatch(s, j, value);
  }

  lemma ValueMatch(s: string, i: nat, value: string)
    requires i <= |s| && s[i..] == " " + ("=" + (" " + (value + ";")))
    requires value != [] && AllIn(IsDecimalChar, value)
    ensures MatchAt(Then(Spaces(), Then(Lit("="), Then(Spaces(), NumberTail))), s, i) == Some(Hit(|s|, []))
  {
    ValueParts(s, i, " ", "=", value);
  }

  /** The same, with the space `w` and the sign `eq` as parameters so that
      the proof does not unfold the literals. */
  lemma ValueParts(s: string, i: nat, w: string, eq: string, value: string)
    requires w == " " && eq == "="
    requires i <= |s| && s[i..] == w + (eq + (w + (value + ";")))
    requires value != [] && AllIn(IsDecimalChar, value)
    ensures MatchAt(Then(Spaces(), Then(Lit(eq), Then(Spaces(), NumberTail))), s, i) == Some(Hit(|s|, []))
  {
    var j := i + 1;
    SuffixParts(s, i, w, eq + (w + (value + ";")));
    MatchLit(eq, Then(Spaces(), NumberTail), s, j, w + (value + ";"));
    SpacedNumber(s, j + 1, w, value);
    RunThen(IsSpace, 0, false, Then(Lit(eq), Then(Spaces(), NumberTail)), s, i, w, eq + (w + (value + ";")), j, Hit(|s|, []));
  }

  lemma SpacedNumber(s: string, i: nat, w: string, value: string)
    requires w == " " && i <= |s| && s[i..] == w + (value + ";")
    requires value != [] && AllIn(IsDecimalChar, value)
    ensures MatchAt(Then(Spaces(), NumberTail), s, i) == Some(Hit(|s|, []))
  {
    SuffixParts(s, i, w, value + ";");
    NumberMatch(s, i + 1, value);
    RunThen(IsSpace, 0, false, NumberTail, s, i, w, value + ";", i + 1, Hit(|s|, []));
  }

  lemma NumberMatch(s: string, i: nat, value: string)
    requires i <= |s| && s[i..] == value + ";"
    requires value != [] && AllIn(IsDecimalChar, value)
    ensures MatchAt(NumberTail, s, i) == Some(Hit(|s|, []))
  {
    var j := i + |value|;
    SuffixParts(s, i, value, ";");
    MatchLit(";", Done, s, j, []);
    RunThen(IsDecimalChar, 1, false, Then(Lit(";"), Done), s, i, value, ";", j, Hit(|s|, []));
  }

  /** The template filled with the failure name is the zeroed entry. */
  lemma ZeroedText(book: string, failure: string)
    ensures Expand(BookFailureZeroed(book), [failure]) == FailureEntry(book, failure, "0.0")
  {
    var t := BookFailureZeroed(book);
    assert Expand(t[2..], [failure]) == ") = 0.0;" + [];
    assert Expand(t[1..], [failure]) == failure + Expand(t[2..], [failure]);
    assert Expand(t, [failure]) == "prob_failure(" + book + ", " + Expand(t[1..], [failure]);
    assert ") = " + "0.0" + ";" == ") = 0.0;";
  }

  /** A text with no entry for the failing book keeps every probability. */
  lemma OtherBooksKept(book: string, content: string)
    requires !Contains(content, "prob_failure(" + book + ", ")
    ensures Sub(BookFailure(book), content, BookFailureZeroed(book)) == content
  {
    BookFailureDeterministic(book);
    AbsentLiteral("prob_failure(" + book + ", ", BookFailure(book).tail, content);
    SubNoMatch(BookFailure(book), content, BookFailureZeroed(book));
  }

  /** Every match for the failing book, wherever it is, becomes its entry
      with 0.0, and the text between matches is kept. */
  lemma {:induction false} ZeroedEverywhere(book: string, content: string)
    requires !Nullable(BookFailure(book))
    ensures var ms := FindAll(BookFailure(book), content);
      && Sub(BookFailure(book), content, BookFailureZeroed(book)) == Splice(content, 0, ms, BookFailureZeroed(book))
      && forall m | m in ms :: |m.groups| == 1
           && Expand(BookFailureZeroed(book), m.groups) == FailureEntry(book, m.groups[0], "0.0")
  {
    BookFailureCaptures(book);
    SubSplices(BookFailure(book), content, BookFailureZeroed(book), 0);
    var ms := FindAll(BookFailure(book), content);
    forall m | m in ms
      ensures |m.groups| == 1 && Expand(BookFailureZeroed(book), m.groups) == FailureEntry(book, m.groups[0], "0.0")
    {
      assert m.groups == [m.groups[0]];
      ZeroedText(book, m.groups[0]);
    }
  }

  /** The instance header `instance <name>` gets the reactive name. */
  lemma {:induction false} HeaderRenamed(name: string, rest: string)
    requires name != [] && AllIn(NotSpace, name)
    requires (rest == [] || IsSpace(rest[0])) && !Contains(rest, "instance")
    ensures Sub(InstanceName, "instance " + name + rest, ReactiveInstanceName)
            == "instance instance_failure_probability_reactive" + rest
  {
    OtherPatternsDeterministic();
    var s := "instance" + (" " + (name + rest));
    assert s == "instance " + name + rest;
    var k := 9 + |name|;
    HeaderMatch(s, name, rest);
    forall q | k <= q < |s| ensures MatchAt(InstanceName, s, q).None? {
      assert s[q..] == rest[q - k..];
      assert !StartsWith(rest[q - k..], "instance");
    }
    SubFromNoMatch(InstanceName, s, ReactiveInstanceName, k);
  }

  /** The header `instance <name>` is one match, up to the name's end. */
  lemma HeaderMatch(s: string, name: string, rest: string)
    requires name != [] && AllIn(NotSpace, name) && (rest == [] || IsSpace(rest[0]))
    requires s == "instance" + (" " + (name + rest))
    ensures MatchAt(InstanceName, s, 0) == Some(Hit(9 + |name|, [name]))
  {
    var word := Then(Run(NotSpace, 1, true), Done);
    var p1 := Then(Run(IsSpace, 1, false), word);
    assert InstanceName == Then(Lit("instance"), p1);
    assert s[0..] == s;
    MatchLit("instance", p1, s, 0, " " + (name + rest));
    var i := 8;
    var j := 9;
    var k := 9 + |name|;
    SuffixParts(s, i, " ", name + rest);
    SuffixParts(s, j, name, rest);
    assert MatchAt(Done, s, k) == Some(Hit(k, []));
    RunThen(NotSpace, 1, true, Done, s, j, name, rest, k, Hit(k, []));
    assert [name] + [] == [name];
    RunThen(IsSpace, 1, false, word, s, i, " ", name + rest, j, Hit(k, [name]));
    assert [] + [name] == [name];
  }

  /** `generate_reactive_instance` on the instance text: `None` when the
      failing action names no book (nothing is written), else the text it
      writes. */
  method GenerateReactiveInstance(content: string, failureAction: string) returns (written: Option<string>)
    ensures written.None? <==> FindAll(LooseFetchBook, failureAction) == []
    ensures written.Some? ==> written.value == ReactiveInstance(content, FailingBook(failureAction).value)
  {
    var book := FailingBook(failureAction);
    if book.None? {
      return None;
    }
    BookFailureDeterministic(book.value);
    OtherPatternsDeterministic();
    var text := content;
    text := Sub(BookFailure(book.value), text, BookFailureZeroed(book.value));
    text := Sub(InstanceName, text, ReactiveInstanceName);
    written := Some(text);
  }
}
