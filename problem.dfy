/** The probability clauses of an RDDL problem file, `prob_failure(F) = p;`
    and `prob_response(R, F) = p;`, read into dictionaries the way every
    `parse_problem_file` of the repository does (planner.py, gui.py,
    parse.py): failures map to their probability, and each failure maps to
    the probabilities of its responses. A later clause overwrites the value
    of an earlier one and keeps the key where it first appeared. */
module ProblemFile {
  import opened Wrappers
  import opened Regex
  import opened Patterns
  import opened Decimal
  import opened Dict
  import opened Chars

  type Table = Dict<string, real>

  datatype Probabilities = Probabilities(failures: Table, responses: Dict<string, Table>)

  function FloatError(t: string): string {
    "could not convert string to float: '" + t + "'"
  }

  /** `for f, p in matches: d[f] = float(p)`, with `Err` where `float`
      raises. */
  function StoreFailures(d: Table, ms: seq<Match>): Result<Table>
    requires forall m | m in ms :: |m.groups| == 2
    decreases |ms|
  {
    if ms == [] then Ok(d)
    else
      match ParseFloat(ms[0].groups[1])
      case None => Err(FloatError(ms[0].groups[1]))
      case Some(v) => StoreFailures(Put(d, ms[0].groups[0], v), ms[1..])
  }

  /** `for r, f, p in matches: d.setdefault(f, {})[r] = float(p)` */
  function StoreResponses(d: Dict<string, Table>, ms: seq<Match>): Result<Dict<string, Table>>
    requires forall m | m in ms :: |m.groups| == 3
    decreases |ms|
  {
    if ms == [] then Ok(d)
    else
      var r, f := ms[0].groups[0], ms[0].groups[1];
      match ParseFloat(ms[0].groups[2])
      case None => Err(FloatError(ms[0].groups[2]))
      case Some(v) => StoreResponses(Put(d, f, Put(Get(d, f).GetOr([]), r, v)), ms[1..])
  }

  lemma GroupCounts()
    ensures !Nullable(FailureProbability) && Captures(FailureProbability) == 2
    ensures !Nullable(ResponseProbability) && Captures(ResponseProbability) == 3
  {
    ProbabilitiesDeterministic();
    var value := Then(Run(IsDecimalChar, 1, true), Then(Lit(";"), Done));
    assert Captures(value) == 1;
    var eq := Then(Lit("="), Then(Spaces(), value));
    assert Captures(eq) == 1;
    var tail := Then(Lit(")"), Then(Spaces(), eq));
    assert Captures(tail) == 1;
    assert FailureProbability == Then(Lit("prob_failure("), Then(Word(true), tail));
    assert Captures(ResponseProbability) == 1 + Captures(Then(Lit(","), Then(Spaces(), Then(Word(true), Then(Lit(")"),
      Then(Spaces(), Then(Lit("="), Then(Spaces(), value))))))));
  }

  /** The dictionaries `parse_problem_file` returns for the file content. */
  function Parse(content: string): Result<Probabilities> {
    GroupCounts();
    var failures := StoreFailures([], FindAll(FailureProbability, content));
    if failures.Err? then Err(failures.error)
    else
      var responses := StoreResponses([], FindAll(ResponseProbability, content));
      if responses.Err? then Err(responses.error)
      else Ok(Probabilities(failures.value, responses.value))
  }

  /** `parse_problem_file` on the content of the file (planner.py:199-215,
      gui.py:340-365, parse.py:3-28). */
  method ParseProblemFile(content: string) returns (r: Result<Probabilities>)
    ensures r == Parse(content)
  {
    GroupCounts();
    var failureMatches := FindAll(FailureProbability, content);
    var failures: Table := [];
    var i := 0;
    while i < |failureMatches|
      invariant i <= |failureMatches|
      invariant StoreFailures(failures, failureMatches[i..]) == StoreFailures([], failureMatches)
    {
      assert failureMatches[i..][1..] == failureMatches[i + 1..];
      var m := failureMatches[i];
      var p := ParseFloat(m.groups[1]);
      if p.None? {
        return Err(FloatError(m.groups[1]));
      }
      failures := Put(failures, m.groups[0], p.value);
      i := i + 1;
    }
    assert failureMatches[i..] == [];
    var responseMatches := FindAll(ResponseProbability, content);
    var responses: Dict<string, Table> := [];
    i := 0;
    while i < |responseMatches|
      invariant i <= |responseMatches|
      invariant StoreResponses(responses, responseMatches[i..]) == StoreResponses([], responseMatches)
    {
      assert responseMatches[i..][1..] == responseMatches[i + 1..];
      var m := responseMatches[i];
      var p := ParseFloat(m.groups[2]);
      if p.None? {
        return Err(FloatError(m.groups[2]));
      }
      var failure := m.groups[1];
      var table := Get(responses, failure).GetOr([]);
      responses := Put(responses, failure, Put(table, m.groups[0], p.value));
      i := i + 1;
    }
    assert responseMatches[i..] == [];
    r := Ok(Probabilities(failures, responses));
  }

  /** The number in group `i` of `m` is not a float. */
  predicate Unread(m: Match, i: nat) {
    i < |m.groups| && ParseFloat(m.groups[i]).None?
  }

  /** When the first number reads, a number that does not read is among the
      later ones. */
  lemma LaterUnread(ms: seq<Match>, i: nat)
    requires ms != [] && !Unread(ms[0], i)
    ensures (exists k | 0 <= k < |ms| :: Unread(ms[k], i)) <==> (exists k | 0 <= k < |ms[1..]| :: Unread(ms[1..][k], i))
  {
    if exists k | 0 <= k < |ms| :: Unread(ms[k], i) {
      var k :| 0 <= k < |ms| && Unread(ms[k], i);
      assert ms[1..][k - 1] == ms[k];
    }
    if exists k | 0 <= k < |ms[1..]| :: Unread(ms[1..][k], i) {
      var k :| 0 <= k < |ms[1..]| && Unread(ms[1..][k], i);
      assert ms[1..][k] == ms[k + 1];
    }
  }

  /** Reading fails exactly when some matched number is not a float. */
  lemma {:induction false} StoreFailuresErr(d: Table, ms: seq<Match>)
    requires forall m | m in ms :: |m.groups| == 2
    ensures StoreFailures(d, ms).Err? <==> exists k | 0 <= k < |ms| :: Unread(ms[k], 1)
    decreases |ms|
  {
    if ms != [] && ParseFloat(ms[0].groups[1]).Some? {
      var d' := Put(d, ms[0].groups[0], ParseFloat(ms[0].groups[1]).value);
      assert StoreFailures(d, ms) == StoreFailures(d', ms[1..]);
      StoreFailuresErr(d', ms[1..]);
      LaterUnread(ms, 1);
    } else if ms != [] {
      assert Unread(ms[0], 1);
    }
  }

  /** A failure no clause mentions keeps the value it had. */
  lemma {:induction false} FailureUntouched(d: Table, ms: seq<Match>, f: string)
    requires forall m | m in ms :: |m.groups| == 2
    requires StoreFailures(d, ms).Ok? && forall j | 0 <= j < |ms| :: ms[j].groups[0] != f
    ensures Get(StoreFailures(d, ms).value, f) == Get(d, f)
    decreases |ms|
  {
    if ms != [] {
      var v := ParseFloat(ms[0].groups[1]).value;
      PutGetOther(d, ms[0].groups[0], v, f);
      FailureUntouched(Put(d, ms[0].groups[0], v), ms[1..], f);
    }
  }

  /** The last clause for a failure decides its probability. */
  lemma {:induction false} FailureLastWins(d: Table, ms: seq<Match>, k: nat)
    requires forall m | m in ms :: |m.groups| == 2
    requires StoreFailures(d, ms).Ok? && k < |ms|
    requires forall j | k < j < |ms| :: ms[j].groups[0] != ms[k].groups[0]
    ensures Get(StoreFailures(d, ms).value, ms[k].groups[0]) == ParseFloat(ms[k].groups[1])
    decreases |ms|
  {
    StoreFailuresStep(d, ms);
    var p := ParseFloat(ms[0].groups[1]);
    var d' := Put(d, ms[0].groups[0], p.value);
    if k == 0 {
      PutGet(d, ms[0].groups[0], p.value);
      FailureUntouched(d', ms[1..], ms[0].groups[0]);
      assert p == Some(p.value);
    } else {
      FailureLastWins(d', ms[1..], k - 1);
      assert ms[1..][k - 1] == ms[k];
    }
  }

  /** A successful read stores the first clause and goes on with the rest. */
  lemma StoreFailuresStep(d: Table, ms: seq<Match>)
    requires forall m | m in ms :: |m.groups| == 2
    requires ms != [] && StoreFailures(d, ms).Ok?
    ensures ParseFloat(ms[0].groups[1]).Some?
    ensures StoreFailures(d, ms) == StoreFailures(Put(d, ms[0].groups[0], ParseFloat(ms[0].groups[1]).value), ms[1..])
  {
  }

  /** The responses recorded for failure `f`, as `d.get(f, {})`. */
  function ResponsesOf(d: Dict<string, Table>, f: string): Table {
    Get(d, f).GetOr([])
  }

  /** A (response, failure) pair no clause mentions keeps its value. */
  lemma {:induction false} ResponseUntouched(d: Dict<string, Table>, ms: seq<Match>, r: string, f: string)
    requires forall m | m in ms :: |m.groups| == 3
    requires StoreResponses(d, ms).Ok?
    requires forall j | 0 <= j < |ms| :: ms[j].groups[0] != r || ms[j].groups[1] != f
    ensures Get(ResponsesOf(StoreResponses(d, ms).value, f), r) == Get(ResponsesOf(d, f), r)
    decreases |ms|
  {
    if ms != [] {
      var r', f' := ms[0].groups[0], ms[0].groups[1];
      var v := ParseFloat(ms[0].groups[2]).value;
      var table := Put(ResponsesOf(d, f'), r', v);
      var d' := Put(d, f', table);
      if f' == f {
        PutGet(d, f', table);
        PutGetOther(ResponsesOf(d, f'), r', v, r);
      } else {
        PutGetOther(d, f', table, f);
      }
      ResponseUntouched(d', ms[1..], r, f);
    }
  }

  /** The last clause for a (response, failure) pair decides its value, and
      it is filed under the failure. */
  lemma {:induction false} ResponseLastWins(d: Dict<string, Table>, ms: seq<Match>, k: nat)
    requires forall m | m in ms :: |m.groups| == 3
    requires StoreResponses(d, ms).Ok? && k < |ms|
    requires forall j | k < j < |ms| :: ms[j].groups[0] != ms[k].groups[0] || ms[j].groups[1] != ms[k].groups[1]
    ensures Get(ResponsesOf(StoreResponses(d, ms).value, ms[k].groups[1]), ms[k].groups[0]) == ParseFloat(ms[k].groups[2])
    decreases |ms|
  {
    if k == 0 {
      ResponseFirstWins(d, ms);
    } else {
      StoreResponsesStep(d, ms);
      var f' := ms[0].groups[1];
      var table := Put(ResponsesOf(d, f'), ms[0].groups[0], ParseFloat(ms[0].groups[2]).value);
      ResponseLastWins(Put(d, f', table), ms[1..], k - 1);
      assert ms[1..][k - 1] == ms[k];
    }
  }

  /** The first clause decides its pair's value when no later clause names
      the pair. */
  lemma ResponseFirstWins(d: Dict<string, Table>, ms: seq<Match>)
    requires forall m | m in ms :: |m.groups| == 3
    requires ms != [] && StoreResponses(d, ms).Ok?
    requires forall j | 0 < j < |ms| :: ms[j].groups[0] != ms[0].groups[0] || ms[j].groups[1] != ms[0].groups[1]
    ensures Get(ResponsesOf(StoreResponses(d, ms).value, ms[0].groups[1]), ms[0].groups[0]) == ParseFloat(ms[0].groups[2])
  {
    StoreResponsesStep(d, ms);
    var r', f' := ms[0].groups[0], ms[0].groups[1];
    var p := ParseFloat(ms[0].groups[2]);
    var table := Put(ResponsesOf(d, f'), r', p.value);
    var d' := Put(d, f', table);
    var rest := ms[1..];
    forall j | 0 <= j < |rest| ensures rest[j].groups[0] != r' || rest[j].groups[1] != f' {
      assert rest[j] == ms[j + 1];
    }
    ResponseUntouched(d', rest, r', f');
    PutGet(d, f', table);
    PutGet(ResponsesOf(d, f'), r', p.value);
    assert p == Some(p.value);
  }

  /** A successful read files the first clause and goes on with the rest. */
  lemma StoreResponsesStep(d: Dict<string, Table>, ms: seq<Match>)
    requires forall m | m in ms :: |m.groups| == 3
    requires ms != [] && StoreResponses(d, ms).Ok?
    ensures ParseFloat(ms[0].groups[2]).Some?
    ensures var f := ms[0].groups[1];
      StoreResponses(d, ms)
      == StoreResponses(Put(d, f, Put(ResponsesOf(d, f), ms[0].groups[0], ParseFloat(ms[0].groups[2]).value)), ms[1..])
  {
  }

  /** The most probable response for `failure`: the first of the largest
      values of its response dictionary; `None` when it has none. */
  function BestResponse(p: Probabilities, failure: string): (r: Option<string>)
    ensures r.None? <==> ResponsesOf(p.responses, failure) == []
    ensures r.Some? ==> r.value in Keys(ResponsesOf(p.responses, failure))
    ensures var t := ResponsesOf(p.responses, failure);
      r.Some? ==> exists i | 0 <= i < |t| :: t[i].0 == r.value
                    && (forall j | 0 <= j < |t| :: t[j].1 <= t[i].1)
                    && (forall j | 0 <= j < i :: t[j].1 < t[i].1)
  {
    ArgMax(ResponsesOf(p.responses, failure))
  }
}
