/** The five-argument `give_response(robot, response, failure, book, human)`
    action that the planner emits for an explanation, and how the pattern
    `give_response\(([^,]+), ([^,]+), ([^,]+), ([^,]+), ([^)]+)\)` followed
    by a fixed tail reads it back from a line (prehoc.py, posthoc.py). */
module Responses {
  import opened Wrappers
  import opened Chars
  import opened Strings
  import opened Regex
  import opened Patterns

  /** The action text followed by `tail`. */
  function ResponseCall(robot: string, response: string, failure: string, book: string, human: string, tail: string): string {
    "give_response(" + robot + ", " + response + ", " + failure + ", " + book + ", " + human + ")" + tail
  }

  /** An argument the pattern reads as a whole: not empty, and without the
      character that ends it (`,`, or `)` for the last one). */
  predicate Argument(x: string) { x != [] && AllIn(NotComma, x) }
  predicate LastArgument(x: string) { x != [] && AllIn(NotCloseParen, x) }

  /** The literal that opens every match of the pattern. */
  const CallOpen: string := "give_response("

  /** Text that does not hold the opening of a call. */
  predicate NoCallStart(t: string) { !Contains(t, CallOpen) }

  function LastPart(tail: string): Pattern {
    Then(Run(NotCloseParen, 1, true), Then(Lit(")" + tail), Done))
  }

  function NextPart(rest: Pattern): Pattern {
    Then(Run(NotComma, 1, true), Then(Lit(", "), rest))
  }

  lemma GiveResponseParts(tail: string)
    ensures GiveResponse(tail) == Then(Lit("give_response("), ArgsPattern(4, tail))
  {
    assert ArgsPattern(1, tail) == NextPart(LastPart(tail));
    assert ArgsPattern(2, tail) == NextPart(NextPart(LastPart(tail)));
    assert ArgsPattern(3, tail) == NextPart(NextPart(NextPart(LastPart(tail))));
  }

  /** `human)tail` at `i`. */
  lemma LastMatch(s: string, i: nat, human: string, tail: string, post: string)
    requires i <= |s| && s[i..] == human + (")" + tail + post)
    requires LastArgument(human)
    ensures MatchAt(LastPart(tail), s, i) == Some(Hit(|s| - |post|, [human]))
  {
    var u := ")" + tail + post;
    var j := i + |human|;
    SuffixParts(s, i, human, u);
    assert u == (")" + tail) + post;
    MatchLit(")" + tail, Done, s, j, post);
    var e := |s| - |post|;
    RunThen(NotCloseParen, 1, true, Then(Lit(")" + tail), Done), s, i, human, u, j, Hit(e, []));
    assert [human] + [] == [human];
  }

  /** One `x, ` argument at `i` and whatever `rest` matches after it, at `j`. */
  lemma ArgStep(s: string, i: nat, x: string, u: string, j: nat, rest: Pattern, h: Hit)
    requires i <= |s| && s[i..] == x + (", " + u) && Argument(x)
    requires j == i + |x| + 2 <= |s| && MatchAt(rest, s, j) == Some(h)
    ensures MatchAt(NextPart(rest), s, i) == Some(Hit(h.end, [x] + h.groups))
  {
    SuffixParts(s, i, x, ", " + u);
    ArgRun(s, i, x, u, i + |x|, rest, h);
  }

  /** The `, ` after an argument and what `rest` matches after it. */
  lemma CommaThen(s: string, k: nat, u: string, rest: Pattern, h: Hit)
    requires k <= |s| && s[k..] == ", " + u && MatchAt(rest, s, k + 2) == Some(h)
    ensures MatchAt(Then(Lit(", "), rest), s, k) == Some(h)
  {
    MatchLit(", ", rest, s, k, u);
  }

  /** The argument run stops at the comma that follows it. */
  lemma ArgRun(s: string, i: nat, x: string, u: string, k: nat, rest: Pattern, h: Hit)
    requires i <= |s| && s[i..] == x + (", " + u) && Argument(x)
    requires k == i + |x| <= |s| && s[k..] == ", " + u && MatchAt(rest, s, k + 2) == Some(h)
    ensures MatchAt(NextPart(rest), s, i) == Some(Hit(h.end, [x] + h.groups))
  {
    CommaThen(s, k, u, rest, h);
    assert (", " + u)[0] == ',';
    RunThen(NotComma, 1, true, Then(Lit(", "), rest), s, i, x, ", " + u, k, h);
  }

  /** Where the text after an argument begins. */
  lemma ArgRest(s: string, i: nat, x: string, u: string, j: nat)
    requires i <= |s| && s[i..] == x + (", " + u) && j == i + |x| + 2
    ensures j <= |s| && s[j..] == u
  {
    SuffixParts(s, i, x, ", " + u);
    SuffixParts(s, i + |x|, ", ", u);
  }

  /** The pattern for `n` more `x, ` arguments, the last argument and `)tail`. */
  function ArgsPattern(n: nat, tail: string): Pattern {
    if n == 0 then LastPart(tail) else NextPart(ArgsPattern(n - 1, tail))
  }

  /** The argument pattern captures each of its `n + 1` arguments. */
  lemma {:induction false} ArgsCaptures(n: nat, tail: string)
    ensures Captures(ArgsPattern(n, tail)) == n + 1
  {
    if n == 0 {
      assert Captures(Then(Lit(")" + tail), Done)) == 0;
    } else {
      var p := ArgsPattern(n - 1, tail);
      ArgsCaptures(n - 1, tail);
      assert Captures(Then(Lit(", "), p)) == n;
    }
  }

  /** The arguments `args`, each followed by `, `, and then `last`. */
  function ArgsText(args: seq<string>, last: string): (r: string)
    ensures |r| >= |last|
  {
    if args == [] then last else args[0] + (", " + ArgsText(args[1..], last))
  }

  /** Arguments `args` and the last argument `human` at `i`, then `)tail`:
      one match whose groups are the arguments in order. */
  lemma {:induction false} ArgsMatch(s: string, i: nat, args: seq<string>, human: string, tail: string, post: string)
    requires i <= |s| && s[i..] == ArgsText(args, human + (")" + tail + post))
    requires forall x | x in args :: Argument(x)
    requires LastArgument(human)
    ensures MatchAt(ArgsPattern(|args|, tail), s, i) == Some(Hit(|s| - |post|, args + [human]))
    decreases |args|
  {
    var last := human + (")" + tail + post);
    if args == [] {
      LastMatch(s, i, human, tail, post);
      assert args + [human] == [human];
    } else {
      var u := ArgsText(args[1..], last);
      var j := i + |args[0]| + 2;
      ArgRest(s, i, args[0], u, j);
      ArgsMatch(s, j, args[1..], human, tail, post);
      ArgsLink(s, i, args, u, j, tail, Hit(|s| - |post|, args[1..] + [human]), human);
    }
  }

  /** The step of `ArgsMatch`: the first argument in front of a match of
      the rest. */
  lemma ArgsLink(s: string, i: nat, args: seq<string>, u: string, j: nat, tail: string, h: Hit, human: string)
    requires args != [] && i <= |s| && s[i..] == args[0] + (", " + u) && Argument(args[0])
    requires j == i + |args[0]| + 2 <= |s| && MatchAt(ArgsPattern(|args| - 1, tail), s, j) == Some(h)
    requires h.groups == args[1..] + [human]
    ensures MatchAt(ArgsPattern(|args|, tail), s, i) == Some(Hit(h.end, args + [human]))
  {
    ArgStep(s, i, args[0], u, j, ArgsPattern(|args| - 1, tail), h);
    assert [args[0]] + h.groups == args + [human];
  }

  /** The call text is the name and its arguments in the shape `ArgsText` reads. */
  lemma CallText(robot: string, response: string, failure: string, book: string, human: string, tail: string, post: string)
    ensures ResponseCall(robot, response, failure, book, human, tail) + post
         == "give_response(" + ArgsText([robot, response, failure, book], human + (")" + tail + post))
  {
    var last := human + (")" + tail + post);
    assert [book][1..] == [];
    assert ArgsText([book], last) == book + (", " + last);
    assert [failure, book][1..] == [book];
    assert ArgsText([failure, book], last) == failure + (", " + (book + (", " + last)));
    assert [response, failure, book][1..] == [failure, book];
    assert [robot, response, failure, book][1..] == [response, failure, book];
  }

  /** The whole call `give_response(robot, response, failure, book, human)tail`
      at `i` is one match, whose groups are the five arguments. */
  lemma CallMatch(s: string, i: nat, robot: string, response: string, failure: string, book: string, human: string, tail: string, post: string)
    requires i <= |s| && s[i..] == ResponseCall(robot, response, failure, book, human, tail) + post
    requires Argument(robot) && Argument(response) && Argument(failure) && Argument(book) && LastArgument(human)
    ensures MatchAt(GiveResponse(tail), s, i) == Some(Hit(|s| - |post|, [robot, response, failure, book, human]))
  {
    var args := [robot, response, failure, book];
    var u := ArgsText(args, human + (")" + tail + post));
    CallText(robot, response, failure, book, human, tail, post);
    GiveResponseParts(tail);
    MatchLit("give_response(", ArgsPattern(4, tail), s, i, u);
    ArgsMatch(s, i + 14, args, human, tail, post);
    assert args + [human] == [robot, response, failure, book, human];
  }

  /** No match of the pattern starts inside text that does not hold
      `give_response(` and is followed by a `g`: the opening has no proper
      prefix that is also a suffix, so a match could only start inside
      the text by holding its whole opening there. */
  lemma NoCallInside(tail: string, s: string, pre: string)
    requires StartsWith(s, pre) && NoCallStart(pre) && |pre| < |s| && s[|pre|] == 'g'
    ensures Gap(GiveResponse(tail), s, 0, |pre|)
  {
    GiveResponseParts(tail);
    forall q | 0 <= q < |pre| ensures MatchAt(GiveResponse(tail), s, q).None? {
      NoOpenAt(s, pre, q, CallOpen);
    }
  }

  /** The opening does not start at a position `q` of such a text. */
  lemma NoOpenAt(s: string, pre: string, q: nat, open: string)
    requires open == CallOpen
    requires StartsWith(s, pre) && !Contains(pre, open) && |pre| < |s| && s[|pre|] == 'g' && q < |pre|
    ensures !StartsWith(s[q..], open)
  {
    if StartsWith(s[q..], open) {
      if q + |open| <= |pre| {
        ContainsAt(pre, open, q);
      } else {
        var k := |pre| - q;
        assert s[q..][k] == 'g';
        assert forall m | 1 <= m < |open| :: open[m] != 'g';
        assert false;
      }
    }
  }

  /** `re.search` finds a call when no `give_response(` occurs before it,
      with its five arguments as groups. */
  lemma SearchFindsCall(pre: string, robot: string, response: string, failure: string, book: string, human: string, tail: string, post: string)
    requires NoCallStart(pre)
    requires Argument(robot) && Argument(response) && Argument(failure) && Argument(book) && LastArgument(human)
    ensures var s := pre + ResponseCall(robot, response, failure, book, human, tail) + post;
      Search(GiveResponse(tail), s) == Some(Match(|pre|, |s| - |post|, [robot, response, failure, book, human]))
  {
    var call := ResponseCall(robot, response, failure, book, human, tail);
    FindsCallIn(pre + call + post, pre, call, robot, response, failure, book, human, tail, post);
  }

  /** The same, with the line `s` and the call `call` named. */
  lemma FindsCallIn(s: string, pre: string, call: string, robot: string, response: string, failure: string, book: string, human: string, tail: string, post: string)
    requires call == ResponseCall(robot, response, failure, book, human, tail) && s == pre + call + post
    requires NoCallStart(pre)
    requires Argument(robot) && Argument(response) && Argument(failure) && Argument(book) && LastArgument(human)
    ensures Search(GiveResponse(tail), s) == Some(Match(|pre|, |s| - |post|, [robot, response, failure, book, human]))
  {
    GiveResponseDeterministic(tail);
    assert s[|pre|..] == call + post;
    assert s[..|pre|] == pre;
    assert s[|pre|] == call[0] == 'g';
    CallMatch(s, |pre|, robot, response, failure, book, human, tail, post);
    NoCallInside(tail, s, pre);
    SearchFinds(GiveResponse(tail), s, |pre|, Hit(|s| - |post|, [robot, response, failure, book, human]));
  }
}
