/** Looking things up in a plan, a list of action strings, and inserting a
    response action into it: the helpers that the explanation step of
    planner.py, gui.py and parse.py share. */
module Selection {
  import opened Wrappers
  import opened Strings
  import opened Regex
  import opened Patterns

  lemma ThirdArgumentCaptures(name: string)
    ensures !Nullable(ThirdArgument(name)) && Captures(ThirdArgument(name)) == 1
  {
    ThirdArgumentDeterministic(name);
    var close := Then(Spaces(), Then(Lit(")"), Done));
    assert Captures(close) == 0;
    var third := Then(Spaces(), Then(Word(true), close));
    assert Captures(third) == 1;
    var second := Then(Spaces(), Then(Word(false), Then(Lit(","), third)));
    assert Captures(second) == 1;
    assert ThirdArgument(name) == Then(Lit(name + "("), Then(Spaces(), Then(Word(false), Then(Lit(","), second))));
  }

  lemma FetchBookCaptures()
    ensures !Nullable(FetchBook) && Captures(FetchBook) == 2
  {
    FetchBookDeterministic();
    var close := Then(Spaces(), Then(Lit(")"), Done));
    var third := Then(Spaces(), Then(Word(true), close));
    assert Captures(third) == 1;
    var second := Then(Spaces(), Then(Word(false), Then(Lit(","), third)));
    assert Captures(second) == 1;
    assert FetchBook == Then(Lit("fetch_book("), Then(Spaces(), Then(Word(true), Then(Lit(","), second))));
  }

  /** The failure named by a `failure_happens(...)` anywhere in the action
      (`re.search`). */
  function FailureIn(action: string): Option<string> {
    ThirdArgumentCaptures("failure_happens");
    match Search(FailureHappens, action)
    case None => None
    case Some(m) => Some(m.groups[0])
  }

  /** Robot and visitor of an action that starts with `fetch_book(...)`
      (`re.match`). */
  function FetchIn(action: string): Option<(string, string)> {
    FetchBookCaptures();
    match MatchAt(FetchBook, action, 0)
    case None => None
    case Some(h) => Some((h.groups[0], h.groups[1]))
  }

  /** Python's `not x` for a string that may be `None`. */
  predicate Falsy(x: Option<string>) {
    x.None? || x.value == ""
  }

  /** The value `f` gives for the first action where it gives one. */
  function FirstSome<T>(plan: seq<string>, f: string -> Option<T>): (r: Option<T>)
    ensures r.None? <==> forall k | 0 <= k < |plan| :: f(plan[k]).None?
  {
    if plan == [] then None
    else if f(plan[0]).Some? then f(plan[0])
    else FirstSome(plan[1..], f)
  }

  /** What `FirstSome` finds comes from the first action that gives a
      value. */
  lemma {:induction false} FirstSomeIsFirst<T>(plan: seq<string>, f: string -> Option<T>)
    requires FirstSome(plan, f).Some?
    ensures exists k | 0 <= k < |plan| :: f(plan[k]) == FirstSome(plan, f)
                                          && forall j | 0 <= j < k :: f(plan[j]).None?
  {
    if f(plan[0]).None? {
      FirstSomeIsFirst(plan[1..], f);
      var k :| 0 <= k < |plan[1..]| && f(plan[1..][k]) == FirstSome(plan[1..], f)
                                    && forall j | 0 <= j < k :: f(plan[1..][j]).None?;
      assert f(plan[k + 1]) == FirstSome(plan, f);
      assert forall j | 0 <= j < k + 1 :: f(plan[j]).None? by {
        forall j | 0 <= j < k + 1 ensures f(plan[j]).None? {
          if j > 0 { assert plan[j] == plan[1..][j - 1]; }
        }
      }
    }
  }

  /** The loop `for action in plan: ... if m: return ...` (with `break` in
      gui.py): the first value found, `None` when there is none. */
  method ScanFirst<T>(plan: seq<string>, f: string -> Option<T>) returns (r: Option<T>)
    ensures r == FirstSome(plan, f)
  {
    var i := 0;
    while i < |plan|
      invariant i <= |plan|
      invariant FirstSome(plan[i..], f) == FirstSome(plan, f)
    {
      assert plan[i..][1..] == plan[i + 1..];
      var v := f(plan[i]);
      if v.Some? {
        return v;
      }
      i := i + 1;
    }
    return None;
  }

  /** `extract_failure` (planner.py) and `extract_failure_from_plan`
      (gui.py): the third argument of the first `failure_happens(...)` in
      plan order. */
  method ExtractFailure(plan: seq<string>) returns (failure: Option<string>)
    ensures failure == FirstSome(plan, FailureIn)
    ensures failure.None? <==> forall k | 0 <= k < |plan| :: FailureIn(plan[k]).None?
    ensures failure.Some? ==> exists k | 0 <= k < |plan| :: FailureIn(plan[k]) == failure
                                && forall j | 0 <= j < k :: FailureIn(plan[j]).None?
  {
    failure := ScanFirst(plan, FailureIn);
    if failure.Some? {
      FirstSomeIsFirst(plan, FailureIn);
    }
  }

  /** The `fetch_book` scan of `extract_names` (planner.py) and
      `get_response` (gui.py): robot and visitor of the first action that
      starts with `fetch_book(...)`. */
  method FindFetch(plan: seq<string>) returns (names: Option<(string, string)>)
    ensures names == FirstSome(plan, FetchIn)
    ensures names.None? <==> forall k | 0 <= k < |plan| :: FetchIn(plan[k]).None?
    ensures names.Some? ==> exists k | 0 <= k < |plan| :: FetchIn(plan[k]) == names
                              && forall j | 0 <= j < k :: FetchIn(plan[j]).None?
  {
    names := ScanFirst(plan, FetchIn);
    if names.Some? {
      FirstSomeIsFirst(plan, FetchIn);
    }
  }

  /** The anchor of planner.py and parse.py: an action mentioning both
      `goto_waypoint` and `visitor_area`. */
  predicate MentionsVisitorArea(action: string) {
    Contains(action, "goto_waypoint") && Contains(action, "visitor_area")
  }

  /** The anchor of gui.py: an action starting with a `goto_waypoint(...)`
      whose third argument is exactly `visitor_area`. */
  predicate GoesToVisitorArea(action: string) {
    ThirdArgumentCaptures("goto_waypoint");
    match MatchAt(GotoWaypoint, action, 0)
    case None => false
    case Some(h) => h.groups[0] == "visitor_area"
  }

  /** `give_response(robot, response, failure, visitor)` as an action string. */
  function ResponseAction(robot: string, response: string, failure: string, visitor: string): string {
    "give_response(" + robot + ", " + response + ", " + failure + ", " + visitor + ")"
  }

  function AnchorCount(plan: seq<string>, anchor: string -> bool): nat {
    if plan == [] then 0 else (if anchor(plan[0]) then 1 else 0) + AnchorCount(plan[1..], anchor)
  }

  /** The plan with `action` placed right after every anchor action. */
  function Annotated(plan: seq<string>, anchor: string -> bool, action: string): (r: seq<string>)
    ensures |r| == |plan| + AnchorCount(plan, anchor)
  {
    if plan == [] then []
    else (if anchor(plan[0]) then [plan[0], action] else [plan[0]]) + Annotated(plan[1..], anchor, action)
  }

  /** The loop building `updated_plan`: append each action, and the
      response action after each anchor. */
  method InsertAfterAnchors(plan: seq<string>, anchor: string -> bool, action: string)
    returns (updated: seq<string>)
    ensures updated == Annotated(plan, anchor, action)
  {
    updated := [];
    var i := 0;
    while i < |plan|
      invariant i <= |plan|
      invariant updated == Annotated(plan[..i], anchor, action)
    {
      var a := plan[i];
      assert plan[..i + 1] == plan[..i] + [a];
      AnnotatedAppend(plan[..i], [a], anchor, action);
      if anchor(a) {
        updated := updated + [a, action];
      } else {
        updated := updated + [a];
      }
      i := i + 1;
    }
    assert plan[..i] == plan;
  }

  lemma {:induction false} AnnotatedAppend(a: seq<string>, b: seq<string>, anchor: string -> bool, action: string)
    ensures Annotated(a + b, anchor, action) == Annotated(a, anchor, action) + Annotated(b, anchor, action)
    ensures AnchorCount(a + b, anchor) == AnchorCount(a, anchor) + AnchorCount(b, anchor)
    decreases |a|
  {
    if a != [] {
      assert (a + b)[1..] == a[1..] + b;
      AnnotatedAppend(a[1..], b, anchor, action);
    } else {
      assert a + b == b;
    }
  }

  /** Without an anchor the plan comes back unchanged. */
  lemma {:induction false} AnnotatedUnanchored(plan: seq<string>, anchor: string -> bool, action: string)
    requires forall k | 0 <= k < |plan| :: !anchor(plan[k])
    ensures Annotated(plan, anchor, action) == plan
    ensures AnchorCount(plan, anchor) == 0
  {
    if plan != [] {
      AnnotatedUnanchored(plan[1..], anchor, action);
    }
  }

  /** Where action `k` of the plan lands: after the earlier actions and the
      responses inserted among them; the response follows it exactly when
      it is an anchor, otherwise the next action of the plan does. */
  lemma AnnotatedPlaces(plan: seq<string>, anchor: string -> bool, action: string, k: nat)
    requires k < |plan|
    ensures var r, pos := Annotated(plan, anchor, action), k + AnchorCount(plan[..k], anchor);
      pos < |r| && r[pos] == plan[k]
      && (anchor(plan[k]) ==> pos + 1 < |r| && r[pos + 1] == action)
      && (!anchor(plan[k]) && k + 1 < |plan| ==> pos + 1 < |r| && r[pos + 1] == plan[k + 1])
  {
    var before, after := plan[..k], plan[k + 1..];
    assert plan == before + ([plan[k]] + after);
    AnnotatedAppend(before, [plan[k]] + after, anchor, action);
    AnnotatedAppend([plan[k]], after, anchor, action);
    if !anchor(plan[k]) && k + 1 < |plan| {
      assert after == [plan[k + 1]] + after[1..];
      AnnotatedAppend([plan[k + 1]], after[1..], anchor, action);
    }
  }

  /** The plan without any occurrence of `x`. */
  function Erase(xs: seq<string>, x: string): (r: seq<string>)
    ensures x !in r
  {
    if xs == [] then [] else (if xs[0] == x then [] else [xs[0]]) + Erase(xs[1..], x)
  }

  /** Only the response action is added: removing it gives the plan back,
      when the plan did not already contain it. */
  lemma {:induction false} AnnotatedErase(plan: seq<string>, anchor: string -> bool, action: string)
    requires action !in plan
    ensures Erase(Annotated(plan, anchor, action), action) == plan
  {
    if plan != [] {
      AnnotatedErase(plan[1..], anchor, action);
      var piece := if anchor(plan[0]) then [plan[0], action] else [plan[0]];
      EraseAppend(piece, Annotated(plan[1..], anchor, action), action);
      if anchor(plan[0]) {
        EraseAppend([plan[0]], [action], action);
      }
    }
  }

  lemma {:induction false} EraseAppend(a: seq<string>, b: seq<string>, x: string)
    ensures Erase(a + b, x) == Erase(a, x) + Erase(b, x)
    decreases |a|
  {
    if a != [] {
      assert (a + b)[1..] == a[1..] + b;
      EraseAppend(a[1..], b, x);
    } else {
      assert a + b == b;
    }
  }
}
