/** From planner output to plans: the action scanner shared by the planner
    interface and the GUI, the scanner of `Actions received:` lines used by
    the pre-hoc and post-hoc scripts, the `;`-separated action groups of the
    reactive scripts, and the lines of a saved plan log. */
module Extraction {
  import opened Chars
  import opened Strings
  import opened Regex
  import opened Patterns

  const Noop: string := "noop()"

  /** `[a for a in xs if a != 'noop()']` */
  function WithoutNoop(xs: seq<string>): (r: seq<string>)
    ensures |r| <= |xs| && Noop !in r
    ensures forall a | a in r :: a in xs
    ensures forall a | a != Noop :: multiset(r)[a] == multiset(xs)[a]
    decreases |xs|
  {
    if xs == [] then []
    else
      assert xs == [xs[0]] + xs[1..];
      (if xs[0] == Noop then [] else [xs[0]]) + WithoutNoop(xs[1..])
  }

  /** The filter works element by element, so it keeps the order. */
  lemma {:induction false} WithoutNoopAppend(a: seq<string>, b: seq<string>)
    ensures WithoutNoop(a + b) == WithoutNoop(a) + WithoutNoop(b)
    decreases |a|
  {
    if a != [] {
      WithoutNoopAppend(a[1..], b);
      var head: seq<string> := if a[0] == Noop then [] else [a[0]];
      assert (a + b)[0] == a[0];
      assert (a + b)[1..] == a[1..] + b;
      ConcatAssoc(head, WithoutNoop(a[1..]), WithoutNoop(b));
    } else {
      assert a + b == b;
    }
  }

  /** A plan without `noop()` passes the filter unchanged. */
  lemma {:induction false} WithoutNoopKeeps(xs: seq<string>)
    requires Noop !in xs
    ensures WithoutNoop(xs) == xs
    decreases |xs|
  {
    if xs != [] {
      WithoutNoopKeeps(xs[1..]);
      assert xs == [xs[0]] + xs[1..];
    }
  }

  /** Python's `xs[k:]`: a negative `k` counts from the end. */
  function SliceFrom<T>(xs: seq<T>, k: int): seq<T> {
    var start := if k < 0 then (if |xs| + k < 0 then 0 else |xs| + k)
                 else (if k > |xs| then |xs| else k);
    xs[start..]
  }

  /** `actions[-len(actions)//2:]` (planner.py). The unary minus applies
      before the floor division, so the start is `(-n)//2`, which is minus
      the ceiling of `n/2`: the last ⌈n/2⌉ actions are kept. */
  function PlannerHalf(actions: seq<string>): (r: seq<string>)
    ensures |r| == (|actions| + 1) / 2
    ensures r == actions[|actions| - |r|..]
  {
    SliceFrom(actions, (-|actions|) / 2)
  }

  /** `actions[len(actions)-plan_length:len(actions)]` with
      `plan_length = int(len(actions) / 2)` (gui.py). */
  function GuiHalf(actions: seq<string>): (r: seq<string>)
    ensures |r| == |actions| / 2
    ensures r == actions[|actions| - |actions| / 2..]
  {
    var planLength := |actions| / 2;
    actions[|actions| - planLength..|actions|]
  }

  /** The GUI keeps one action fewer than the planner interface when the
      number of scanned actions is odd, and the same actions when it is
      even. */
  lemma HalvesDiffer(actions: seq<string>)
    ensures |actions| % 2 == 1 ==> GuiHalf(actions) == PlannerHalf(actions)[1..]
    ensures |actions| % 2 == 0 ==> GuiHalf(actions) == PlannerHalf(actions)
  {
    var n := |actions|;
    if n % 2 == 1 {
      assert PlannerHalf(actions)[1..] == actions[n - (n + 1) / 2 + 1..];
    }
  }

  /** `re.findall(r"[a-zA-Z_]+\([^()0-9]*\)", stdout)`: every text found is
      a complete action token. */
  function ActionMatches(stdout: string): (r: seq<string>)
    ensures forall a | a in r :: FullMatch(ActionToken, a)
  {
    TokensDeterministic();
    FoundTextsMatch(ActionToken, stdout);
    Texts(stdout, FindAll(ActionToken, stdout))
  }

  /** Dropping `noop()` from the last action tokens leaves action tokens
      other than `noop()`. */
  lemma TailTokens(ms: seq<string>, k: nat)
    requires k <= |ms| && forall a | a in ms :: FullMatch(ActionToken, a)
    ensures forall a | a in WithoutNoop(ms[k..]) :: a != Noop && FullMatch(ActionToken, a)
  {
    forall a | a in ms[k..] ensures a in ms {
      var j :| 0 <= j < |ms[k..]| && ms[k..][j] == a;
      assert ms[k + j] == a;
    }
  }

  const Marker: string := "Actions received:"

  /** The actions on one line of `extract_actions` (prehoc.py, posthoc.py):
      the `([a-zA-Z_]+\([^()]*\))` tokens of a marker line, without
      `noop()`. */
  function LineActions(line: string): seq<string> {
    if Contains(line, Marker) then WithoutNoop(Texts(line, FindAll(MarkedToken, line))) else []
  }

  /** What `extract_actions` returns for `plan_lines`. */
  function MarkedActions(lines: seq<string>): seq<string> {
    ConcatMap(lines, LineActions)
  }

  /** Every action read from marker lines is a complete action token, and
      none is `noop()`. */
  lemma {:induction false} MarkedActionsAreTokens(lines: seq<string>)
    ensures forall a | a in MarkedActions(lines) :: a != Noop && FullMatch(MarkedToken, a)
    decreases |lines|
  {
    if lines != [] {
      MarkedActionsAreTokens(lines[1..]);
      assert MarkedActions(lines) == LineActions(lines[0]) + MarkedActions(lines[1..]);
      TokensDeterministic();
      FoundTextsMatch(MarkedToken, lines[0]);
    }
  }

  /** `extract_actions(plan_lines)` (prehoc.py:41-47, posthoc.py:64-70). */
  method ExtractActions(lines: seq<string>) returns (actions: seq<string>)
    ensures actions == MarkedActions(lines)
  {
    actions := [];
    var i := 0;
    while i < |lines|
      invariant i <= |lines|
      invariant actions + ConcatMap(lines[i..], LineActions) == MarkedActions(lines)
    {
      ConcatMapStep(lines, i, actions, LineActions);
      actions := actions + LineActions(lines[i]);
      i := i + 1;
    }
    assert lines[i..] == [];
  }

  /** Lines are scanned independently and in order. */
  lemma MarkedActionsAppend(a: seq<string>, b: seq<string>)
    ensures MarkedActions(a + b) == MarkedActions(a) + MarkedActions(b)
  {
    ConcatMapAppend(a, b, LineActions);
  }

  /** Lines without the marker contribute nothing. */
  lemma {:induction false} UnmarkedLines(lines: seq<string>)
    requires forall k | 0 <= k < |lines| :: !Contains(lines[k], Marker)
    ensures MarkedActions(lines) == []
    decreases |lines|
  {
    if lines != [] {
      UnmarkedLines(lines[1..]);
    }
  }

  /** `[a.strip() for a in parts if a.strip()]` */
  function StrippedItems(parts: seq<string>): (r: seq<string>)
    ensures |r| <= |parts|
    ensures forall a | a in r :: a != [] && Trimmed(a)
    decreases |parts|
  {
    if parts == [] then []
    else
      var a := Strip(parts[0]);
      (if a == [] then [] else [a]) + StrippedItems(parts[1..])
  }

  /** Stripping adds no character. */
  lemma {:induction false} StrippedItemsFree(parts: seq<string>, c: char)
    requires forall k | 0 <= k < |parts| :: c !in parts[k]
    ensures forall a | a in StrippedItems(parts) :: c !in a
    decreases |parts|
  {
    if parts != [] {
      StrippedItemsFree(parts[1..], c);
      var a := Strip(parts[0]);
      assert c !in parts[0];
      assert c !in a by {
        if c in a {
          StripChars(parts[0], c);
        }
      }
      var head := if a == [] then [] else [a];
      assert StrippedItems(parts) == head + StrippedItems(parts[1..]);
      FreeJoin(head, StrippedItems(parts[1..]), c);
    }
  }

  lemma FreeJoin(head: seq<string>, tail: seq<string>, c: char)
    requires forall a | a in head :: c !in a
    requires forall a | a in tail :: c !in a
    ensures forall a | a in head + tail :: c !in a
  {
  }

  /** Items that are already stripped and non-empty are all kept. */
  lemma {:induction false} StrippedItemsKeep(parts: seq<string>)
    requires forall k | 0 <= k < |parts| :: parts[k] != [] && Trimmed(parts[k])
    ensures StrippedItems(parts) == parts
    decreases |parts|
  {
    if parts != [] {
      StrippedItemsKeep(parts[1..]);
      StripClean(parts[0]);
      Cons(parts);
    }
  }

  lemma Cons<T>(s: seq<T>)
    requires s != []
    ensures s == [s[0]] + s[1..]
  {
  }

  /** Splitting a joined list of clean items and dropping blanks gives the
      items back. */
  lemma ItemsRoundTrip(items: seq<string>, sep: char)
    requires forall k | 0 <= k < |items| :: items[k] != [] && Trimmed(items[k]) && sep !in items[k]
    ensures StrippedItems(Split(Join(items, sep), sep)) == items
  {
    if items == [] {
      assert Split([], sep) == [[]];
      assert Strip([]) == [];
    } else {
      SplitJoin(items, sep);
      StrippedItemsKeep(items);
    }
  }

  /** The actions of one `** Actions received: [...]` group:
      `[a.strip() for a in group.split(';') if a.strip()]`. */
  function GroupActions(group: string): (r: seq<string>)
    ensures forall a | a in r :: a != [] && Trimmed(a) && ';' !in a
  {
    StrippedItemsFree(Split(group, ';'), ';');
    StrippedItems(Split(group, ';'))
  }

  /** Writing clean actions as a `;`-separated group and reading the group
      gives the actions back. */
  lemma GroupRoundTrip(actions: seq<string>)
    requires forall k | 0 <= k < |actions| :: actions[k] != [] && Trimmed(actions[k]) && ';' !in actions[k]
    ensures GroupActions(Join(actions, ';')) == actions
  {
    ItemsRoundTrip(actions, ';');
  }

  /** The actions of all groups, group after group. */
  function PlanFromGroups(groups: seq<string>): (r: seq<string>)
    ensures forall a | a in r :: a != [] && Trimmed(a) && ';' !in a
    decreases |groups|
  {
    if groups == [] then [] else GroupActions(groups[0]) + PlanFromGroups(groups[1..])
  }

  /** Moving one group from what is left to what was read. */
  lemma {:induction false} PlanStep(groups: seq<string>, i: nat, actions: seq<string>)
    requires i < |groups|
    ensures actions + PlanFromGroups(groups[i..]) == (actions + GroupActions(groups[i])) + PlanFromGroups(groups[i + 1..])
  {
    PlanFromSuffix(groups, i);
    ConcatAssoc(actions, GroupActions(groups[i]), PlanFromGroups(groups[i + 1..]));
  }

  lemma {:induction false} PlanFromSuffix(groups: seq<string>, i: nat)
    requires i < |groups|
    ensures PlanFromGroups(groups[i..]) == GroupActions(groups[i]) + PlanFromGroups(groups[i + 1..])
  {
    var rest := groups[i..];
    assert rest[0] == groups[i] && rest[1..] == groups[i + 1..];
  }

  lemma ConcatAssoc(x: seq<string>, y: seq<string>, z: seq<string>)
    ensures x + (y + z) == (x + y) + z
  {
  }

  /** The pieces `f` gives for each line, joined in order. */
  function ConcatMap(lines: seq<string>, f: string -> seq<string>): seq<string>
    decreases |lines|
  {
    if lines == [] then [] else f(lines[0]) + ConcatMap(lines[1..], f)
  }

  /** Joining is done line by line: the lines of two blocks give the pieces
      of the first block followed by those of the second. */
  lemma {:induction false} ConcatMapAppend(a: seq<string>, b: seq<string>, f: string -> seq<string>)
    ensures ConcatMap(a + b, f) == ConcatMap(a, f) + ConcatMap(b, f)
    decreases |a|
  {
    if a == [] {
      assert a + b == b;
    } else {
      ConcatMapAppend(a[1..], b, f);
      var x := f(a[0]);
      assert (a + b)[0] == a[0];
      assert (a + b)[1..] == a[1..] + b;
      ConcatAssoc(x, ConcatMap(a[1..], f), ConcatMap(b, f));
    }
  }

  /** A single line gives its own pieces. */
  lemma ConcatMapOne(line: string, f: string -> seq<string>)
    ensures ConcatMap([line], f) == f(line)
  {
    assert [line][1..] == [];
  }

  /** Moving one line from what is left to what was joined. */
  lemma ConcatMapStep(lines: seq<string>, i: nat, done: seq<string>, f: string -> seq<string>)
    requires i < |lines| && done + ConcatMap(lines[i..], f) == ConcatMap(lines, f)
    ensures (done + f(lines[i])) + ConcatMap(lines[i + 1..], f) == ConcatMap(lines, f)
  {
    var rest := ConcatMap(lines[i + 1..], f);
    assert ConcatMap(lines[i..], f) == f(lines[i]) + rest by {
      assert lines[i..][1..] == lines[i + 1..];
      assert lines[i..][0] == lines[i];
    }
    ConcatAssoc(done, f(lines[i]), rest);
  }

  /** The stripped lines that `keep` accepts, in their order. */
  function StrippedWhere(lines: seq<string>, keep: string -> bool): (r: seq<string>)
    ensures |r| <= |lines|
    decreases |lines|
  {
    if lines == [] then []
    else (if keep(lines[0]) then [Strip(lines[0])] else []) + StrippedWhere(lines[1..], keep)
  }

  /** Moving one line from what is left to what was kept. */
  lemma StrippedWhereStep(lines: seq<string>, i: nat, done: seq<string>, keep: string -> bool)
    requires i < |lines| && done + StrippedWhere(lines[i..], keep) == StrippedWhere(lines, keep)
    ensures keep(lines[i]) ==> (done + [Strip(lines[i])]) + StrippedWhere(lines[i + 1..], keep) == StrippedWhere(lines, keep)
    ensures !keep(lines[i]) ==> done + StrippedWhere(lines[i + 1..], keep) == StrippedWhere(lines, keep)
  {
    var rest := StrippedWhere(lines[i + 1..], keep);
    var head: seq<string> := if keep(lines[i]) then [Strip(lines[i])] else [];
    assert StrippedWhere(lines[i..], keep) == head + rest by {
      assert lines[i..][1..] == lines[i + 1..];
      assert lines[i..][0] == lines[i];
    }
    ConcatAssoc(done, head, rest);
    assert [] + rest == rest;
  }

  /** `f.readlines()` on content `c`, the text after text mode has turned
      `\r\n` and `\r` into `\n`: every line keeps its `\n`, and a last line
      without one is kept when it is not empty. */
  function ReadLines(c: string): (lines: seq<string>)
    decreases |c|
  {
    if c == [] then []
    else
      var rest := ReadLines(c[1..]);
      if c[0] == '\n' || rest == [] then [[c[0]]] + rest
      else [[c[0]] + rest[0]] + rest[1..]
  }

  function Concat(parts: seq<string>): string
    decreases |parts|
  {
    if parts == [] then [] else parts[0] + Concat(parts[1..])
  }

  /** The lines put back together are the content, no line is empty, and
      only the last line can lack a final `\n`. */
  lemma ReadLinesPartition(c: string)
    ensures Concat(ReadLines(c)) == c
    ensures forall k | 0 <= k < |ReadLines(c)| :: ReadLines(c)[k] != []
    ensures forall k | 0 <= k < |ReadLines(c)| - 1 :: ReadLines(c)[k][|ReadLines(c)[k]| - 1] == '\n'
  {
    ReadLinesConcat(c);
    ReadLinesNonEmpty(c);
    ReadLinesEnds(c);
  }

  lemma {:induction false} ReadLinesConcat(c: string)
    ensures Concat(ReadLines(c)) == c
    decreases |c|
  {
    if c != [] {
      ReadLinesConcat(c[1..]);
      var rest := ReadLines(c[1..]);
      var lines := ReadLines(c);
      if c[0] == '\n' || rest == [] {
        assert lines[1..] == rest;
        assert c == [c[0]] + c[1..];
      } else {
        assert lines[1..] == rest[1..];
        assert Concat(rest) == rest[0] + Concat(rest[1..]);
        assert c == [c[0]] + c[1..];
      }
    }
  }

  lemma {:induction false} ReadLinesNonEmpty(c: string)
    ensures forall k | 0 <= k < |ReadLines(c)| :: ReadLines(c)[k] != []
    decreases |c|
  {
    if c != [] {
      ReadLinesNonEmpty(c[1..]);
    }
  }

  lemma {:induction false} ReadLinesEnds(c: string)
    ensures forall k | 0 <= k < |ReadLines(c)| - 1 :: ReadLines(c)[k] != [] && ReadLines(c)[k][|ReadLines(c)[k]| - 1] == '\n'
    decreases |c|
  {
    if c != [] {
      ReadLinesEnds(c[1..]);
      ReadLinesNonEmpty(c[1..]);
      var rest := ReadLines(c[1..]);
      var lines := ReadLines(c);
      if c[0] == '\n' || rest == [] {
        assert lines[1..] == rest;
      } else {
        assert lines[1..] == rest[1..];
        if |rest| > 1 {
          assert lines[0][|lines[0]| - 1] == rest[0][|rest[0]| - 1];
        }
      }
    }
  }

  /** A line without a newline is read as one line. */
  lemma {:induction false} ReadOneLine(a: string)
    requires a != [] && '\n' !in a
    ensures ReadLines(a) == [a]
    decreases |a|
  {
    if |a| > 1 {
      ReadOneLine(a[1..]);
      assert [a[0]] + a[1..] == a;
    } else {
      assert a[1..] == [] && a == [a[0]];
    }
  }

  /** Reading stops each line after its newline. */
  lemma {:induction false} ReadLinesAfter(a: string, t: string)
    requires '\n' !in a
    ensures ReadLines(a + "\n" + t) == [a + "\n"] + ReadLines(t)
    decreases |a|
  {
    if a == [] {
      assert [] + "\n" + t == "\n" + t;
      assert ("\n" + t)[1..] == t;
    } else {
      ReadLinesAfter(a[1..], t);
      assert (a + "\n" + t)[1..] == a[1..] + "\n" + t;
      assert [a[0]] + (a[1..] + "\n") == a + "\n";
    }
  }

  /** The lines of the content, stripped, without blank ones
      (`load_from_log`, planner.py:60-61). */
  function LogLines(c: string): seq<string> {
    StrippedItems(ReadLines(c))
  }

  lemma StrippedCons(x: string, rest: seq<string>)
    ensures StrippedItems([x] + rest) == (if Strip(x) == [] then [] else [Strip(x)]) + StrippedItems(rest)
  {
    assert ([x] + rest)[1..] == rest;
  }

  /** Any first line is loaded as itself stripped, or dropped when blank,
      and the rest of the log is loaded after it. */
  lemma LogLine(e: string, t: string)
    requires '\n' !in e
    ensures LogLines(e + "\n" + t) == (if Strip(e) == [] then [] else [Strip(e)]) + LogLines(t)
  {
    ReadLinesAfter(e, t);
    StripSpace(e, '\n');
    StrippedCons(e + "\n", ReadLines(t));
  }

  /** A last line without a newline is loaded as itself stripped, or not
      at all when blank. */
  lemma LogLast(e: string)
    requires '\n' !in e
    ensures LogLines(e) == (if Strip(e) == [] then [] else [Strip(e)])
  {
    if e == [] {
      assert Strip(e) == [] by { StripClean(e); }
    } else {
      ReadOneLine(e);
      StrippedCons(e, []);
    }
  }

  /** Lines free of newlines, written one per line, load as those lines
      stripped, without the blank ones, in order. */
  lemma {:induction false} LogJoin(parts: seq<string>)
    requires |parts| >= 1 && forall k | 0 <= k < |parts| :: '\n' !in parts[k]
    ensures LogLines(Join(parts, '\n')) == StrippedItems(parts)
    decreases |parts|
  {
    if |parts| == 1 {
      LogLast(parts[0]);
      StrippedCons(parts[0], []);
      assert [parts[0]] + [] == parts;
    } else {
      LogJoin(parts[1..]);
      LogLine(parts[0], Join(parts[1..], '\n'));
      StrippedCons(parts[0], parts[1..]);
      Cons(parts);
    }
  }

  /** The log's entries are the lines of the content separated at newlines,
      stripped, without the blank ones, in file order. */
  lemma LogLinesSplit(c: string)
    ensures LogLines(c) == StrippedItems(Split(c, '\n'))
  {
    LogJoin(Split(c, '\n'));
  }

  lemma LogStep(e: string, t: string, rest: seq<string>)
    requires e != [] && Trimmed(e) && '\n' !in e && LogLines(t) == rest
    ensures LogLines(e + "\n" + t) == [e] + rest
  {
    LogLine(e, t);
    StripClean(e);
  }

  /** A clean entry alone is read back as itself. */
  lemma LogOne(e: string)
    requires e != [] && Trimmed(e) && '\n' !in e
    ensures LogLines(e) == [e]
  {
    ReadOneLine(e);
    StripClean(e);
    StrippedCons(e, []);
    assert [e] + [] == [e];
  }

  /** A log whose entries are clean, non-empty and one per line loads back
      as those entries. */
  lemma {:induction false} LogRoundTrip(entries: seq<string>)
    requires forall k | 0 <= k < |entries| :: entries[k] != [] && Trimmed(entries[k]) && '\n' !in entries[k]
    ensures LogLines(Join(entries, '\n')) == entries
    decreases |entries|
  {
    if |entries| == 1 {
      assert Join(entries, '\n') == entries[0];
      LogOne(entries[0]);
      assert [entries[0]] == entries;
    } else if |entries| > 1 {
      var e := entries[0];
      var t := Join(entries[1..], '\n');
      LogRoundTrip(entries[1..]);
      LogStep(e, t, entries[1..]);
      assert Join(entries, '\n') == e + "\n" + t;
      Cons(entries);
    }
  }
}
