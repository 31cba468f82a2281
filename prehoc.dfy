/** prehoc.py: the pre-hoc strategy reads the planner's output (actions of
    the `Actions received:` lines, via `Extraction.ExtractActions`), looks
    for an explanation action, reads the failure probabilities of the
    problem instance, and verbalises how an alternative plan differs from
    the original one. File contents are given as strings. */
module Prehoc {
  import opened Wrappers
  import opened Chars
  import opened Strings
  import opened Regex
  import opened Patterns
  import opened Decimal
  import opened Dict
  import opened Extraction
  import opened Responses
  import opened ProblemFile

  const Call: string := "give_response("

  /** `contains_failure`: true exactly when some marker line holds a
      `give_response(` call. */
  function ContainsFailure(lines: seq<string>): (r: bool)
    ensures r <==> exists k | 0 <= k < |lines| :: Contains(lines[k], Marker) && Contains(lines[k], Call)
    decreases |lines|
  {
    if lines == [] then false
    else
      var here := Contains(lines[0], Marker) && Contains(lines[0], Call);
      var later := ContainsFailure(lines[1..]);
      assert later <==> exists k | 1 <= k < |lines| :: Contains(lines[k], Marker) && Contains(lines[k], Call) by {
        if later {
          var k :| 0 <= k < |lines[1..]| && Contains(lines[1..][k], Marker) && Contains(lines[1..][k], Call);
          assert lines[k + 1] == lines[1..][k];
        }
        if exists k | 1 <= k < |lines| :: Contains(lines[k], Marker) && Contains(lines[k], Call) {
          var k :| 1 <= k < |lines| && Contains(lines[k], Marker) && Contains(lines[k], Call);
          assert lines[1..][k - 1] == lines[k];
        }
      }
      here || later
  }

  lemma CaptureCounts()
    ensures !Nullable(GiveResponse("")) && Captures(GiveResponse("")) == 5
    ensures !Nullable(PairFailureEntry) && Captures(PairFailureEntry) == 3
    ensures !Nullable(PairFailureValue) && Captures(PairFailureValue) == 3
    ensures !Nullable(WantsBook) && Captures(WantsBook) == 2
  {
    GiveResponseDeterministic("");
    PairPatternsDeterministic();
    ArgsCaptures(4, "");
    GiveResponseParts("");
    assert Captures(Then(Lit("give_response("), ArgsPattern(4, ""))) == 5;
    var semi := Then(Run(IsDecimalChar, 1, true), Then(Lit(";"), Done));
    assert Captures(semi) == 1;
    var eq := Then(Lit("="), Then(Spaces(), semi));
    assert Captures(eq) == 1;
    var value := Then(Spaces(), eq);
    assert Captures(value) == 1;
    assert Captures(Then(Lit(")"), value)) == 1;
    assert Captures(Then(Run(NotCloseParen, 1, true), Then(Lit(")"), value))) == 2;
    assert Captures(Then(Lit(", "), Then(Run(NotCloseParen, 1, true), Then(Lit(")"), value)))) == 2;
    assert PairFailureEntry == Then(Lit("prob_failure("), Then(Run(NotComma, 1, true), Then(Lit(", "), Then(Run(NotCloseParen, 1, true), Then(Lit(")"), value)))));
    var bare := Then(Run(IsDecimalChar, 1, true), Done);
    assert Captures(bare) == 1;
    var eq' := Then(Lit("="), Then(Spaces(), bare));
    assert Captures(eq') == 1;
    var open := Then(Spaces(), eq');
    assert Captures(open) == 1;
    assert Captures(Then(Lit(")"), open)) == 1;
    assert Captures(Then(Run(NotCloseParen, 1, true), Then(Lit(")"), open))) == 2;
    assert Captures(Then(Lit(", "), Then(Run(NotCloseParen, 1, true), Then(Lit(")"), open)))) == 2;
    assert PairFailureValue == Then(Lit("prob_failure("), Then(Run(NotComma, 1, true), Then(Lit(", "), Then(Run(NotCloseParen, 1, true), Then(Lit(")"), open)))));
  }

  /** The sentence of `analyze_explanation` for one explanation action. */
  function Sentence(robot: string, response: string, failure: string, book: string, human: string): string {
    "The robot " + robot + " issued a '" + response + "' explanation to " + human
    + ", after experiencing a '" + failure + "' failure while handling " + book + "."
  }

  /** What one line contributes: the sentence of the first five-argument
      `give_response(...)` match of a line containing `give_response(`. */
  function LineExplanation(line: string): (r: seq<string>)
    ensures |r| <= 1
    ensures !Contains(line, Call) ==> r == []
  {
    CaptureCounts();
    if !Contains(line, Call) then []
    else
      match Search(GiveResponse(""), line)
      case None => []
      case Some(m) => [Sentence(m.groups[0], m.groups[1], m.groups[2], m.groups[3], m.groups[4])]
  }

  /** The explanations `analyze_explanation` returns. */
  function Explanations(lines: seq<string>): seq<string> {
    ConcatMap(lines, LineExplanation)
  }

  /** At most one sentence per line. */
  lemma {:induction false} ExplanationsBound(lines: seq<string>)
    ensures |Explanations(lines)| <= |lines|
    decreases |lines|
  {
    if lines != [] {
      ExplanationsBound(lines[1..]);
    }
  }

  /** `analyze_explanation(plan_lines)` (prehoc.py:69-80). */
  method AnalyzeExplanation(lines: seq<string>) returns (explanations: seq<string>)
    ensures explanations == Explanations(lines)
  {
    explanations := [];
    var i := 0;
    while i < |lines|
      invariant i <= |lines|
      invariant explanations + ConcatMap(lines[i..], LineExplanation) == Explanations(lines)
    {
      ConcatMapStep(lines, i, explanations, LineExplanation);
      explanations := explanations + LineExplanation(lines[i]);
      i := i + 1;
    }
    assert lines[i..] == [];
  }

  /** A line holding a `give_response(robot, response, failure, book, human)`
      call, with no other `give_response(` before it, yields the sentence naming
      the five arguments in their roles. */
  lemma ExplainsCall(pre: string, robot: string, response: string, failure: string, book: string, human: string, post: string)
    requires NoCallStart(pre)
    requires Argument(robot) && Argument(response) && Argument(failure) && Argument(book) && LastArgument(human)
    ensures Explanations([pre + ResponseCall(robot, response, failure, book, human, "") + post])
         == [Sentence(robot, response, failure, book, human)]
  {
    var line := pre + ResponseCall(robot, response, failure, book, human, "") + post;
    SearchFindsCall(pre, robot, response, failure, book, human, "", post);
    assert line[|pre|..][..|Call|] == Call;
    ContainsAt(line, Call, |pre|);
    ConcatMapOne(line, LineExplanation);
  }

  /** Lines without a call contribute no explanation. */
  lemma {:induction false} NoCallNoExplanation(lines: seq<string>)
    requires forall k | 0 <= k < |lines| :: !Contains(lines[k], Call)
    ensures Explanations(lines) == []
    decreases |lines|
  {
    if lines != [] {
      NoCallNoExplanation(lines[1..]);
    }
  }

  /* Probabilities of the problem instance. */

  /** book -> failure -> probability */
  type Nested = Dict<string, Dict<string, real>>

  function Name(x: string, strip: bool): string {
    if strip then Strip(x) else x
  }

  /** The stripped (human, book) pairs of the `wants_book` matches. */
  function WantedPairs(ms: seq<Match>): (ps: seq<(string, string)>)
    requires forall m | m in ms :: |m.groups| == 2
    ensures |ps| == |ms|
  {
    seq(|ms|, j requires 0 <= j < |ms| => (Strip(ms[j].groups[0]), Strip(ms[j].groups[1])))
  }

  /** `{h.strip(): b.strip() for h, b in book_wants}` */
  function HumanBooks(ms: seq<Match>): Dict<string, string>
    requires forall m | m in ms :: |m.groups| == 2
  {
    PutAll([], WantedPairs(ms))
  }

  /** The last `wants_book` for a human decides the book, names stripped. */
  lemma HumanLastWins(ms: seq<Match>, k: nat)
    requires forall m | m in ms :: |m.groups| == 2
    requires k < |ms| && forall j | k < j < |ms| :: Strip(ms[j].groups[0]) != Strip(ms[k].groups[0])
    ensures Get(HumanBooks(ms), Strip(ms[k].groups[0])) == Some(Strip(ms[k].groups[1]))
  {
    var ps := WantedPairs(ms);
    assert ps[k] == (Strip(ms[k].groups[0]), Strip(ms[k].groups[1]));
    PutAllLastWins([], ps, k);
  }

  /** The table of failures recorded for `book`, as `d.get(book, {})`. */
  function TableOf(d: Nested, book: string): Dict<string, real> {
    Get(d, book).GetOr([])
  }

  /** `for book, failure, prob in entries: d.setdefault(book, {})[failure] =
      float(prob)` with the names stripped when `strip`; `Err` where `float`
      raises. */
  function StoreEntries(d: Nested, ms: seq<Match>, strip: bool): Result<Nested>
    requires forall m | m in ms :: |m.groups| == 3
    decreases |ms|
  {
    if ms == [] then Ok(d)
    else
      var book, failure := Name(ms[0].groups[0], strip), Name(ms[0].groups[1], strip);
      match ParseFloat(ms[0].groups[2])
      case None => Err(FloatError(ms[0].groups[2]))
      case Some(v) => StoreEntries(Put(d, book, Put(TableOf(d, book), failure, v)), ms[1..], strip)
  }

  /** The loop filling the nested dictionary. */
  method FillEntries(ms: seq<Match>, strip: bool) returns (r: Result<Nested>)
    requires forall m | m in ms :: |m.groups| == 3
    ensures r == StoreEntries([], ms, strip)
  {
    var d: Nested := [];
    var i := 0;
    while i < |ms|
      invariant i <= |ms|
      invariant StoreEntries(d, ms[i..], strip) == StoreEntries([], ms, strip)
    {
      assert ms[i..][1..] == ms[i + 1..];
      var m := ms[i];
      var book, failure := Name(m.groups[0], strip), Name(m.groups[1], strip);
      var p := ParseFloat(m.groups[2]);
      if p.None? {
        return Err(FloatError(m.groups[2]));
      }
      var table := TableOf(d, book);
      d := Put(d, book, Put(table, failure, p.value));
      i := i + 1;
    }
    assert ms[i..] == [];
    return Ok(d);
  }

  /** Storing the first entry and then the others. */
  lemma StoreFirst(d: Nested, ms: seq<Match>, strip: bool) returns (d': Nested)
    requires forall m | m in ms :: |m.groups| == 3
    requires ms != [] && StoreEntries(d, ms, strip).Ok?
    ensures ParseFloat(ms[0].groups[2]).Some?
    ensures d' == Put(d, Name(ms[0].groups[0], strip),
                      Put(TableOf(d, Name(ms[0].groups[0], strip)), Name(ms[0].groups[1], strip), ParseFloat(ms[0].groups[2]).value))
    ensures StoreEntries(d, ms, strip) == StoreEntries(d', ms[1..], strip)
  {
    d' := Put(d, Name(ms[0].groups[0], strip),
              Put(TableOf(d, Name(ms[0].groups[0], strip)), Name(ms[0].groups[1], strip), ParseFloat(ms[0].groups[2]).value));
  }

  /** A (book, failure) pair no entry names keeps its value. */
  lemma {:induction false} EntryUntouched(d: Nested, ms: seq<Match>, strip: bool, b: string, f: string)
    requires forall m | m in ms :: |m.groups| == 3
    requires StoreEntries(d, ms, strip).Ok?
    requires forall j | 0 <= j < |ms| :: Name(ms[j].groups[0], strip) != b || Name(ms[j].groups[1], strip) != f
    ensures Get(TableOf(StoreEntries(d, ms, strip).value, b), f) == Get(TableOf(d, b), f)
    decreases |ms|
  {
    if ms != [] {
      var d' := StoreFirst(d, ms, strip);
      var b', f' := Name(ms[0].groups[0], strip), Name(ms[0].groups[1], strip);
      var v := ParseFloat(ms[0].groups[2]).value;
      var table := Put(TableOf(d, b'), f', v);
      if b' == b {
        PutGet(d, b', table);
        PutGetOther(TableOf(d, b'), f', v, f);
      } else {
        PutGetOther(d, b', table, b);
      }
      LaterEntries(ms, strip, 0, b, f);
      EntryUntouched(d', ms[1..], strip, b, f);
    }
  }

  /** The last entry for a (book, failure) pair decides its probability. */
  lemma {:induction false} EntryLastWins(d: Nested, ms: seq<Match>, strip: bool, k: nat)
    requires forall m | m in ms :: |m.groups| == 3
    requires StoreEntries(d, ms, strip).Ok? && k < |ms|
    requires forall j | k < j < |ms| :: Name(ms[j].groups[0], strip) != Name(ms[k].groups[0], strip)
                                      || Name(ms[j].groups[1], strip) != Name(ms[k].groups[1], strip)
    ensures Get(TableOf(StoreEntries(d, ms, strip).value, Name(ms[k].groups[0], strip)), Name(ms[k].groups[1], strip))
         == ParseFloat(ms[k].groups[2])
    decreases |ms|
  {
    if k == 0 {
      FirstEntryWins(d, ms, strip);
    } else {
      var d' := StoreFirst(d, ms, strip);
      var m := ms[k];
      assert ms[1..][k - 1] == m;
      LaterEntries(ms, strip, k, Name(m.groups[0], strip), Name(m.groups[1], strip));
      EntryLastWins(d', ms[1..], strip, k - 1);
      assert Get(TableOf(StoreEntries(d', ms[1..], strip).value, Name(m.groups[0], strip)), Name(m.groups[1], strip))
          == ParseFloat(m.groups[2]);
    }
  }

  /** The first entry decides its pair when no later entry names it. */
  lemma FirstEntryWins(d: Nested, ms: seq<Match>, strip: bool)
    requires forall m | m in ms :: |m.groups| == 3
    requires StoreEntries(d, ms, strip).Ok? && ms != []
    requires forall j | 0 < j < |ms| :: Name(ms[j].groups[0], strip) != Name(ms[0].groups[0], strip)
                                      || Name(ms[j].groups[1], strip) != Name(ms[0].groups[1], strip)
    ensures Get(TableOf(StoreEntries(d, ms, strip).value, Name(ms[0].groups[0], strip)), Name(ms[0].groups[1], strip))
         == ParseFloat(ms[0].groups[2])
  {
    var d' := StoreFirst(d, ms, strip);
    var b', f' := Name(ms[0].groups[0], strip), Name(ms[0].groups[1], strip);
    var v := ParseFloat(ms[0].groups[2]).value;
    var table := Put(TableOf(d, b'), f', v);
    PutGet(d, b', table);
    PutGet(TableOf(d, b'), f', v);
    LaterEntries(ms, strip, 0, b', f');
    EntryUntouched(d', ms[1..], strip, b', f');
  }

  /** Entries after `k` that do not name (b, f), seen from the second entry on. */
  lemma LaterEntries(ms: seq<Match>, strip: bool, k: nat, b: string, f: string)
    requires forall m | m in ms :: |m.groups| == 3
    requires k < |ms| && forall j | k < j < |ms| :: Name(ms[j].groups[0], strip) != b || Name(ms[j].groups[1], strip) != f
    ensures forall j | k <= j < |ms| - 1 :: Name(ms[1..][j].groups[0], strip) != b || Name(ms[1..][j].groups[1], strip) != f
  {
    forall j | k <= j < |ms| - 1
      ensures Name(ms[1..][j].groups[0], strip) != b || Name(ms[1..][j].groups[1], strip) != f
    {
      assert ms[1..][j] == ms[j + 1];
    }
  }

  /** Reading fails exactly when some matched number is not a float. */
  lemma {:induction false} StoreEntriesErr(d: Nested, ms: seq<Match>, strip: bool)
    requires forall m | m in ms :: |m.groups| == 3
    ensures StoreEntries(d, ms, strip).Err? <==> exists k | 0 <= k < |ms| :: Unread(ms[k], 2)
    decreases |ms|
  {
    if ms != [] && ParseFloat(ms[0].groups[2]).Some? {
      var b, f := Name(ms[0].groups[0], strip), Name(ms[0].groups[1], strip);
      var v := ParseFloat(ms[0].groups[2]).value;
      var d' := Put(d, b, Put(TableOf(d, b), f, v));
      assert StoreEntries(d, ms, strip) == StoreEntries(d', ms[1..], strip);
      StoreEntriesErr(d', ms[1..], strip);
      LaterUnread(ms, 2);
    } else if ms != [] {
      assert Unread(ms[0], 2);
    }
  }

  /** What `parse_instance_file` returns for the content of the instance:
      the human -> book map and the book -> failure -> probability map. */
  function InstanceFile(content: string): Result<(Dict<string, string>, Nested)> {
    CaptureCounts();
    var humans := HumanBooks(FindAll(WantsBook, content));
    var probs := StoreEntries([], FindAll(PairFailureEntry, content), true);
    if probs.Err? then Err(probs.error) else Ok((humans, probs.value))
  }

  /** `parse_instance_file` on the content of the file (prehoc.py:52-67). */
  method ParseInstanceFile(content: string) returns (r: Result<(Dict<string, string>, Nested)>)
    ensures r == InstanceFile(content)
  {
    CaptureCounts();
    var humans := HumanBooks(FindAll(WantsBook, content));
    var probs := FillEntries(FindAll(PairFailureEntry, content), true);
    if probs.Err? {
      return Err(probs.error);
    }
    return Ok((humans, probs.value));
  }

  /* Comparing the original plan and instance with the alternative ones. */

  /** `[a for a in xs if a not in ys]` */
  function Missing(xs: seq<string>, ys: seq<string>): (r: seq<string>)
    ensures forall a | a in r :: a in xs && a !in ys
    ensures forall a :: multiset(r)[a] == if a in ys then 0 else multiset(xs)[a]
    decreases |xs|
  {
    if xs == [] then []
    else
      assert xs == [xs[0]] + xs[1..];
      (if xs[0] in ys then [] else [xs[0]]) + Missing(xs[1..], ys)
  }

  /** The filter keeps the order of `xs`. */
  lemma {:induction false} MissingAppend(a: seq<string>, b: seq<string>, ys: seq<string>)
    ensures Missing(a + b, ys) == Missing(a, ys) + Missing(b, ys)
    decreases |a|
  {
    if a == [] {
      assert a + b == b;
    } else {
      assert (a + b)[1..] == a[1..] + b;
      MissingAppend(a[1..], b, ys);
    }
  }

  /** Nothing is removed and nothing added exactly when both plans use the
      same actions. */
  lemma SamePlans(original: seq<string>, alternative: seq<string>)
    ensures (Missing(original, alternative) == [] && Missing(alternative, original) == [])
        <==> (forall a :: a in original <==> a in alternative)
  {
    var removed, added := Missing(original, alternative), Missing(alternative, original);
    if removed == [] && added == [] {
      forall a | a in original ensures a in alternative {
        assert multiset(removed)[a] == 0;
      }
      forall a | a in alternative ensures a in original {
        assert multiset(added)[a] == 0;
      }
    }
  }

  /** `any("give_response" in a for a in removed)`: the removed actions
      include an explanation, so the failure was avoided. */
  function ExplanationRemoved(removed: seq<string>): (r: bool)
    ensures r <==> exists k | 0 <= k < |removed| :: Contains(removed[k], "give_response")
    decreases |removed|
  {
    if removed == [] then false
    else
      var later := ExplanationRemoved(removed[1..]);
      assert later <==> exists k | 1 <= k < |removed| :: Contains(removed[k], "give_response") by {
        if later {
          var k :| 0 <= k < |removed[1..]| && Contains(removed[1..][k], "give_response");
          assert removed[k + 1] == removed[1..][k];
        }
        if exists k | 1 <= k < |removed| :: Contains(removed[k], "give_response") {
          var k :| 1 <= k < |removed| && Contains(removed[k], "give_response");
          assert removed[1..][k - 1] == removed[k];
        }
      }
      Contains(removed[0], "give_response") || later
  }

  /** A failure probability the alternative instance lowered. */
  datatype Lowering = Lowering(book: string, failure: string, original: real, lowered: real)

  /** `new_probs.get(book, {}).get(failure, original_prob)` */
  function NewValue(alternative: Nested, book: string, failure: string, original: real): real {
    Get(TableOf(alternative, book), failure).GetOr(original)
  }

  /** The lowerings found for one book, in the order of its failures. */
  function BookLowerings(book: string, table: Dict<string, real>, alternative: Nested): seq<Lowering>
    decreases |table|
  {
    if table == [] then []
    else
      var (failure, p) := table[0];
      var q := NewValue(alternative, book, failure, p);
      (if q < p then [Lowering(book, failure, p, q)] else []) + BookLowerings(book, table[1..], alternative)
  }

  /** All lowerings, book after book. */
  function Lowerings(original: Nested, alternative: Nested): seq<Lowering>
    decreases |original|
  {
    if original == [] then []
    else BookLowerings(original[0].0, original[0].1, alternative) + Lowerings(original[1..], alternative)
  }

  /** The lowering the comparison reports for entry `j` of book entry `i`,
      when the alternative value is strictly lower. */
  ghost predicate Lowers(original: Nested, alternative: Nested, l: Lowering, i: nat, j: nat) {
    && i < |original| && j < |original[i].1|
    && l.book == original[i].0
    && l.failure == original[i].1[j].0
    && l.original == original[i].1[j].1
    && l.lowered == NewValue(alternative, l.book, l.failure, l.original)
    && l.lowered < l.original
  }

  lemma {:induction false} BookLoweringsIff(book: string, table: Dict<string, real>, alternative: Nested, l: Lowering)
    ensures l in BookLowerings(book, table, alternative) <==>
      exists j | 0 <= j < |table| :: l.book == book && l.failure == table[j].0 && l.original == table[j].1
                                     && l.lowered == NewValue(alternative, book, table[j].0, table[j].1)
                                     && l.lowered < l.original
    decreases |table|
  {
    if table != [] {
      BookLoweringsIff(book, table[1..], alternative, l);
      var (failure, p) := table[0];
      if exists j | 0 <= j < |table| :: l.book == book && l.failure == table[j].0 && l.original == table[j].1
                                        && l.lowered == NewValue(alternative, book, table[j].0, table[j].1)
                                        && l.lowered < l.original {
        var j :| 0 <= j < |table| && l.book == book && l.failure == table[j].0 && l.original == table[j].1
                 && l.lowered == NewValue(alternative, book, table[j].0, table[j].1) && l.lowered < l.original;
        if j > 0 {
          assert table[1..][j - 1] == table[j];
        }
      }
      if l in BookLowerings(book, table[1..], alternative) {
        var j :| 0 <= j < |table[1..]| && l.book == book && l.failure == table[1..][j].0 && l.original == table[1..][j].1
                 && l.lowered == NewValue(alternative, book, table[1..][j].0, table[1..][j].1) && l.lowered < l.original;
        assert table[j + 1] == table[1..][j];
      }
    }
  }

  /** A sentence is emitted for exactly the original (book, failure) pairs
      whose alternative value is strictly lower, with both values. */
  lemma {:induction false} LoweringsIff(original: Nested, alternative: Nested, l: Lowering)
    ensures l in Lowerings(original, alternative) <==>
      exists i, j | 0 <= i < |original| && 0 <= j < |original[i].1| :: Lowers(original, alternative, l, i, j)
    decreases |original|
  {
    if original != [] {
      LoweringsIff(original[1..], alternative, l);
      BookLoweringsIff(original[0].0, original[0].1, alternative, l);
      if exists i, j | 0 <= i < |original| && 0 <= j < |original[i].1| :: Lowers(original, alternative, l, i, j) {
        var i, j :| 0 <= i < |original| && 0 <= j < |original[i].1| && Lowers(original, alternative, l, i, j);
        if i > 0 {
          assert original[1..][i - 1] == original[i];
          assert Lowers(original[1..], alternative, l, i - 1, j);
        }
      }
      if l in BookLowerings(original[0].0, original[0].1, alternative) {
        var j :| 0 <= j < |original[0].1| && l.book == original[0].0 && l.failure == original[0].1[j].0
                 && l.original == original[0].1[j].1
                 && l.lowered == NewValue(alternative, original[0].0, original[0].1[j].0, original[0].1[j].1)
                 && l.lowered < l.original;
        assert Lowers(original, alternative, l, 0, j);
      }
      if l in Lowerings(original[1..], alternative) {
        var i, j :| 0 <= i < |original[1..]| && 0 <= j < |original[1..][i].1| && Lowers(original[1..], alternative, l, i, j);
        assert original[i + 1] == original[1..][i];
        assert Lowers(original, alternative, l, i + 1, j);
      }
    }
  }

  /** A pair the alternative instance does not mention keeps its original
      value and yields no sentence. */
  lemma MissingPairSilent(original: Nested, alternative: Nested, book: string, failure: string)
    requires Get(TableOf(alternative, book), failure).None?
    ensures forall l | l in Lowerings(original, alternative) :: l.book != book || l.failure != failure
  {
    forall l | l in Lowerings(original, alternative) ensures l.book != book || l.failure != failure {
      LoweringsIff(original, alternative, l);
    }
  }

  /** The sentence for one lowered probability. */
  function LoweringSentence(l: Lowering): string {
    "In the alternative instance, the probability of the failure '" + l.failure + "' for book '" + l.book
    + "' was lowered from " + FormatSigned(l.original) + " to " + FormatSigned(l.lowered)
    + ", leading to a plan that avoids failure."
  }

  function Sentences(ls: seq<Lowering>): (r: seq<string>)
    ensures |r| == |ls| && forall k | 0 <= k < |ls| :: r[k] == LoweringSentence(ls[k])
  {
    seq(|ls|, k requires 0 <= k < |ls| => LoweringSentence(ls[k]))
  }

  /** What `verbalize_plan_differences` reports: the removed and the added
      actions, whether an explanation action was removed, and the lowering
      sentences, or the error raised while reading the probabilities. */
  datatype Comparison = Comparison(removed: seq<string>, added: seq<string>, avoided: bool,
                                   sentences: Result<seq<string>>)

  function Compare(originalActions: seq<string>, newActions: seq<string>,
                   originalContent: string, newContent: string): Comparison
  {
    CaptureCounts();
    var removed := Missing(originalActions, newActions);
    var added := Missing(newActions, originalActions);
    var original := StoreEntries([], FindAll(PairFailureValue, originalContent), false);
    var alternative := StoreEntries([], FindAll(PairFailureValue, newContent), false);
    var sentences :=
      if original.Err? then Err(original.error)
      else if alternative.Err? then Err(alternative.error)
      else Ok(Sentences(Lowerings(original.value, alternative.value)));
    Comparison(removed, added, ExplanationRemoved(removed), sentences)
  }

  /** The inner loop, over the failures of one book. */
  method BookLoop(book: string, table: Dict<string, real>, alternative: Nested) returns (explanations: seq<string>)
    ensures explanations == Sentences(BookLowerings(book, table, alternative))
  {
    explanations := [];
    var j := 0;
    while j < |table|
      invariant j <= |table|
      invariant explanations + Sentences(BookLowerings(book, table[j..], alternative))
             == Sentences(BookLowerings(book, table, alternative))
    {
      var failure, p := table[j].0, table[j].1;
      var q := NewValue(alternative, book, failure, p);
      var here := if q < p then [Lowering(book, failure, p, q)] else [];
      BookStep(book, table, alternative, j, here, explanations);
      explanations := explanations + Sentences(here);
      j := j + 1;
    }
    assert table[j..] == [];
  }

  /** Moving one failure of the book from what is left to what was found. */
  lemma BookStep(book: string, table: Dict<string, real>, alternative: Nested, j: nat, here: seq<Lowering>, done: seq<string>)
    requires j < |table|
    requires here == (var q := NewValue(alternative, book, table[j].0, table[j].1);
                      if q < table[j].1 then [Lowering(book, table[j].0, table[j].1, q)] else [])
    requires done + Sentences(BookLowerings(book, table[j..], alternative)) == Sentences(BookLowerings(book, table, alternative))
    ensures (done + Sentences(here)) + Sentences(BookLowerings(book, table[j + 1..], alternative))
         == Sentences(BookLowerings(book, table, alternative))
  {
    var rest := BookLowerings(book, table[j + 1..], alternative);
    assert BookLowerings(book, table[j..], alternative) == here + rest by {
      assert table[j..][1..] == table[j + 1..];
      assert table[j..][0] == table[j];
    }
    SentencesAppend(here, rest);
    ConcatAssoc(done, Sentences(here), Sentences(rest));
  }

  /** The nested loops over the original probabilities. */
  method LoweringLoop(original: Nested, alternative: Nested) returns (explanations: seq<string>)
    ensures explanations == Sentences(Lowerings(original, alternative))
  {
    explanations := [];
    var i := 0;
    while i < |original|
      invariant i <= |original|
      invariant explanations + Sentences(Lowerings(original[i..], alternative)) == Sentences(Lowerings(original, alternative))
    {
      var (book, table) := original[i];
      assert original[i..][1..] == original[i + 1..];
      SentencesAppend(BookLowerings(book, table, alternative), Lowerings(original[i + 1..], alternative));
      var found := BookLoop(book, table, alternative);
      explanations := explanations + found;
      i := i + 1;
    }
    assert original[i..] == [];
  }

  lemma SentencesAppend(a: seq<Lowering>, b: seq<Lowering>)
    ensures Sentences(a + b) == Sentences(a) + Sentences(b)
  {
  }

  /** `verbalize_plan_differences` with the contents of the two instance
      files (prehoc.py:82-128); the printing is replaced by the result. */
  method VerbalizePlanDifferences(originalActions: seq<string>, newActions: seq<string>,
                                  originalContent: string, newContent: string) returns (c: Comparison)
    ensures c == Compare(originalActions, newActions, originalContent, newContent)
    ensures c.removed == Missing(originalActions, newActions) && c.added == Missing(newActions, originalActions)
  {
    CaptureCounts();
    var removed := Missing(originalActions, newActions);
    var added := Missing(newActions, originalActions);
    var avoided := ExplanationRemoved(removed);
    var original := FillEntries(FindAll(PairFailureValue, originalContent), false);
    if original.Err? {
      return Comparison(removed, added, avoided, Err(original.error));
    }
    var alternative := FillEntries(FindAll(PairFailureValue, newContent), false);
    if alternative.Err? {
      return Comparison(removed, added, avoided, Err(alternative.error));
    }
    var explanations := LoweringLoop(original.value, alternative.value);
    return Comparison(removed, added, avoided, Ok(explanations));
  }
}
