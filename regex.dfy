/** The fragment of Python's `re` module the pipeline uses: patterns made of
    literal text, repeated character classes and the `\s*(X+)` group, matched
    leftmost-first by `re.match`, `re.search`, `re.findall` and `re.sub`.

    A pattern is matched possessively: every class run takes as many
    characters as it can. For the patterns the pipeline writes this is what
    Python's backtracking matcher finds, because whatever follows a run
    cannot start with a character of the run's class (`Deterministic`); the
    lemmas `MatchSound` and `MatchComplete` relate the matcher to the plain
    language meaning of a pattern (`Denotes`). */
module Regex {
  import opened Wrappers
  import opened Chars
  import opened Strings

  type CharClass = char -> bool

  datatype Item =
    | Lit(text: string)
      /** `X{min,}` for a class `X`; `capture` when written inside `( )`. */
    | Run(cls: CharClass, min: nat, capture: bool)
      /** `\s*(X+)` where `X` contains every whitespace character. */
    | SpacedGroup(cls: CharClass)

  datatype Pattern = Done | Then(head: Item, tail: Pattern)

  /** The end of a match and the text of its groups, left to right. */
  datatype Hit = Hit(end: nat, groups: seq<string>)

  /** A match found by a scan: where it starts and ends, and its groups. */
  datatype Match = Match(start: nat, end: nat, groups: seq<string>)

  predicate AllIn(cls: CharClass, t: string) {
    forall k | 0 <= k < |t| :: cls(t[k])
  }

  /** Number of capturing groups. */
  function Captures(p: Pattern): nat {
    match p
    case Done => 0
    case Then(Run(_, _, cap), rest) => (if cap then 1 else 0) + Captures(rest)
    case Then(SpacedGroup(_), rest) => 1 + Captures(rest)
    case Then(Lit(_), rest) => Captures(rest)
  }

  /** Whether the pattern matches the empty text. */
  predicate Nullable(p: Pattern) {
    match p
    case Done => true
    case Then(Lit(t), rest) => t == [] && Nullable(rest)
    case Then(Run(_, min, _), rest) => min == 0 && Nullable(rest)
    case Then(SpacedGroup(_), _) => false
  }

  /** Whether a text the pattern matches can begin with `c`. */
  predicate CanStart(p: Pattern, c: char) {
    match p
    case Done => false
    case Then(Lit(t), rest) => if t == [] then CanStart(rest, c) else c == t[0]
    case Then(Run(cls, min, _), rest) => cls(c) || (min == 0 && CanStart(rest, c))
    case Then(SpacedGroup(cls), _) => IsSpace(c) || cls(c)
  }

  /** Every run is either last or followed by something that cannot start
      inside the run's class, so no backtracking into the run can help. */
  predicate Deterministic(p: Pattern) {
    match p
    case Done => true
    case Then(Lit(_), rest) => Deterministic(rest)
    case Then(Run(cls, _, _), rest) =>
      (rest == Done || (!Nullable(rest) && forall c :: CanStart(rest, c) ==> !cls(c)))
      && Deterministic(rest)
    case Then(SpacedGroup(_), _) => false
  }

  /** The pattern ends in literal text, so each match has exactly one end. */
  predicate Closed(p: Pattern) {
    match p
    case Done => false
    case Then(Lit(_), Done) => true
    case Then(_, rest) => Closed(rest)
  }

  /* Building deterministic patterns item by item. */

  lemma LitDone(x: string)
    ensures Deterministic(Then(Lit(x), Done)) && Closed(Then(Lit(x), Done))
  {
  }

  lemma RunDone(cls: CharClass, min: nat, cap: bool)
    ensures Deterministic(Then(Run(cls, min, cap), Done))
  {
  }

  lemma LitBefore(x: string, rest: Pattern)
    requires Deterministic(rest) && rest != Done
    ensures Deterministic(Then(Lit(x), rest)) && (Closed(rest) ==> Closed(Then(Lit(x), rest)))
  {
  }

  lemma RunBeforeLit(cls: CharClass, min: nat, cap: bool, x: string, rest: Pattern)
    requires x != [] && !cls(x[0]) && Deterministic(Then(Lit(x), rest))
    ensures Deterministic(Then(Run(cls, min, cap), Then(Lit(x), rest)))
    ensures Closed(Then(Lit(x), rest)) ==> Closed(Then(Run(cls, min, cap), Then(Lit(x), rest)))
  {
  }

  lemma RunBeforeRun(cls: CharClass, min: nat, cap: bool, cls': CharClass, min': nat, cap': bool, rest: Pattern)
    requires min' >= 1 && (forall c :: cls'(c) ==> !cls(c)) && Deterministic(Then(Run(cls', min', cap'), rest))
    ensures Deterministic(Then(Run(cls, min, cap), Then(Run(cls', min', cap'), rest)))
    ensures Closed(Then(Run(cls', min', cap'), rest)) ==> Closed(Then(Run(cls, min, cap), Then(Run(cls', min', cap'), rest)))
  {
  }

  /** A run followed by an optional run and then literal text. */
  lemma RunBeforeOptional(cls: CharClass, min: nat, cap: bool, cls': CharClass, cap': bool, x: string, rest: Pattern)
    requires x != [] && !cls(x[0]) && (forall c :: cls'(c) ==> !cls(c))
    requires Deterministic(Then(Run(cls', 0, cap'), Then(Lit(x), rest)))
    ensures Deterministic(Then(Run(cls, min, cap), Then(Run(cls', 0, cap'), Then(Lit(x), rest))))
    ensures Closed(Then(Lit(x), rest)) ==> Closed(Then(Run(cls, min, cap), Then(Run(cls', 0, cap'), Then(Lit(x), rest))))
  {
  }

  /** End of the longest run of `cls` characters starting at `i`. */
  function RunEnd(cls: CharClass, s: string, i: nat): (j: nat)
    requires i <= |s|
    ensures i <= j <= |s|
    ensures AllIn(cls, s[i..j])
    ensures j == |s| || !cls(s[j])
    decreases |s| - i
  {
    if i < |s| && cls(s[i]) then
      var j := RunEnd(cls, s, i + 1);
      assert forall k | 0 <= k < j - i :: s[i..j][k] == s[i + k];
      j
    else i
  }

  /** Matching `p` at position `i` of `s`, as `re.match` does at offset
      `i`: `None` when there is no match there. */
  function MatchAt(p: Pattern, s: string, i: nat): (r: Option<Hit>)
    requires i <= |s|
    ensures r.Some? ==> i <= r.value.end <= |s|
    ensures r.Some? ==> |r.value.groups| == Captures(p)
    ensures r.Some? && !Nullable(p) ==> r.value.end > i
    decreases p
  {
    match p
    case Done => Some(Hit(i, []))
    case Then(Lit(t), rest) =>
      if StartsWith(s[i..], t) then MatchAt(rest, s, i + |t|) else None
    case Then(Run(cls, min, cap), rest) =>
      var j := RunEnd(cls, s, i);
      if j - i < min then None
      else
        (match MatchAt(rest, s, j)
         case None => None
         case Some(h) => Some(Hit(h.end, (if cap then [s[i..j]] else []) + h.groups)))
    case Then(SpacedGroup(cls), rest) =>
      var j := RunEnd(IsSpace, s, i);
      var e := RunEnd(cls, s, j);
      // `X+` takes what follows the spaces; when only spaces are there,
      // backtracking gives the last space to the group.
      var g := if e > j then j else j - 1;
      if e == j && (j == i || !cls(s[j - 1])) then None
      else
        match MatchAt(rest, s, e)
        case None => None
        case Some(h) => Some(Hit(h.end, [s[g..e]] + h.groups))
  }

  /** The language of a pattern: `t` is matched as a whole, giving `gs`. */
  ghost predicate Denotes(p: Pattern, t: string, gs: seq<string>)
    decreases p, 0
  {
    match p
    case Done => t == [] && gs == []
    case Then(Lit(x), rest) => StartsWith(t, x) && Denotes(rest, t[|x|..], gs)
    case Then(Run(cls, min, cap), rest) =>
      exists k | min <= k <= |t| :: RunSplit(cls, cap, rest, t, gs, k)
    case Then(SpacedGroup(cls), rest) =>
      exists a, k | 0 <= a < k <= |t| :: SpacedSplit(cls, rest, t, gs, a, k)
  }

  /** The run takes the first `k` characters of `t`. */
  ghost predicate RunSplit(cls: CharClass, cap: bool, rest: Pattern, t: string, gs: seq<string>, k: nat)
    requires k <= |t|
    decreases rest, 1
  {
    AllIn(cls, t[..k]) &&
    if cap then |gs| >= 1 && gs[0] == t[..k] && Denotes(rest, t[k..], gs[1..])
    else Denotes(rest, t[k..], gs)
  }

  /** The spaces take `t[..a]` and the group `t[a..k]`. */
  ghost predicate SpacedSplit(cls: CharClass, rest: Pattern, t: string, gs: seq<string>, a: nat, k: nat)
    requires a <= k <= |t|
    decreases rest, 1
  {
    AllSpace(t[..a]) && AllIn(cls, t[a..k]) && |gs| >= 1 && gs[0] == t[a..k]
    && Denotes(rest, t[k..], gs[1..])
  }

  lemma DenotesLit(x: string, rest: Pattern, u: string, gs: seq<string>)
    requires Denotes(rest, u, gs)
    ensures Denotes(Then(Lit(x), rest), x + u, gs)
  {
    assert (x + u)[..|x|] == x;
    assert (x + u)[|x|..] == u;
  }

  lemma DenotesRun(cls: CharClass, min: nat, cap: bool, rest: Pattern, v: string, u: string, gs: seq<string>)
    requires min <= |v| && AllIn(cls, v) && Denotes(rest, u, gs)
    ensures Denotes(Then(Run(cls, min, cap), rest), v + u, (if cap then [v] else []) + gs)
  {
    var t, k := v + u, |v|;
    assert t[..k] == v && t[k..] == u;
    var gs' := (if cap then [v] else []) + gs;
    if cap {
      assert gs'[1..] == gs;
    } else {
      assert gs' == gs;
    }
    assert AllIn(cls, t[..k]);
    assert RunSplit(cls, cap, rest, t, gs', k);
  }

  lemma DenotesSpaced(cls: CharClass, rest: Pattern, w: string, v: string, u: string, gs: seq<string>)
    requires AllSpace(w) && v != [] && AllIn(cls, v) && Denotes(rest, u, gs)
    ensures Denotes(Then(SpacedGroup(cls), rest), w + v + u, [v] + gs)
  {
    var t, a, k := w + v + u, |w|, |w| + |v|;
    assert t[..a] == w && t[a..k] == v && t[k..] == u;
    assert ([v] + gs)[1..] == gs;
    assert SpacedSplit(cls, rest, t, [v] + gs, a, k);
  }

  /** Whatever the matcher returns is in the pattern's language. */
  lemma {:induction false} MatchSound(p: Pattern, s: string, i: nat)
    requires i <= |s| && MatchAt(p, s, i).Some?
    ensures Denotes(p, s[i..MatchAt(p, s, i).value.end], MatchAt(p, s, i).value.groups)
    decreases p
  {
    match p
    case Done =>
    case Then(Lit(x), rest) =>
      MatchSound(rest, s, i + |x|);
      SoundLit(x, rest, s, i);
    case Then(Run(cls, min, cap), rest) =>
      MatchSound(rest, s, RunEnd(cls, s, i));
      SoundRun(cls, min, cap, rest, s, i);
    case Then(SpacedGroup(cls), rest) =>
      MatchSound(rest, s, RunEnd(cls, s, RunEnd(IsSpace, s, i)));
      SoundSpaced(cls, rest, s, i);
  }

  lemma SoundLit(x: string, rest: Pattern, s: string, i: nat)
    requires i <= |s| && MatchAt(Then(Lit(x), rest), s, i).Some?
    requires i + |x| <= |s| && MatchAt(rest, s, i + |x|).Some?
    requires Denotes(rest, s[i + |x|..MatchAt(rest, s, i + |x|).value.end], MatchAt(rest, s, i + |x|).value.groups)
    ensures Denotes(Then(Lit(x), rest), s[i..MatchAt(Then(Lit(x), rest), s, i).value.end],
                    MatchAt(Then(Lit(x), rest), s, i).value.groups)
  {
    var h := MatchAt(rest, s, i + |x|).value;
    assert MatchAt(Then(Lit(x), rest), s, i) == Some(h);
    LitJoin(x, rest, s, i, h.end, h.groups);
  }

  lemma LitJoin(x: string, rest: Pattern, s: string, i: nat, end: nat, gs: seq<string>)
    requires i + |x| <= end <= |s| && StartsWith(s[i..], x) && Denotes(rest, s[i + |x|..end], gs)
    ensures Denotes(Then(Lit(x), rest), s[i..end], gs)
  {
    assert s[i..i + |x|] == s[i..][..|x|];
    DenotesLit(x, rest, s[i + |x|..end], gs);
    SliceSplit(s, i, i + |x|, end);
  }

  lemma SoundRun(cls: CharClass, min: nat, cap: bool, rest: Pattern, s: string, i: nat)
    requires i <= |s| && MatchAt(Then(Run(cls, min, cap), rest), s, i).Some?
    requires MatchAt(rest, s, RunEnd(cls, s, i)).Some?
    requires Denotes(rest, s[RunEnd(cls, s, i)..MatchAt(rest, s, RunEnd(cls, s, i)).value.end],
                     MatchAt(rest, s, RunEnd(cls, s, i)).value.groups)
    ensures Denotes(Then(Run(cls, min, cap), rest), s[i..MatchAt(Then(Run(cls, min, cap), rest), s, i).value.end],
                    MatchAt(Then(Run(cls, min, cap), rest), s, i).value.groups)
  {
    var j := RunEnd(cls, s, i);
    var h := MatchAt(rest, s, j).value;
    assert MatchAt(Then(Run(cls, min, cap), rest), s, i) == Some(Hit(h.end, (if cap then [s[i..j]] else []) + h.groups));
    DenotesRun(cls, min, cap, rest, s[i..j], s[j..h.end], h.groups);
    SliceSplit(s, i, j, h.end);
  }

  lemma SoundSpaced(cls: CharClass, rest: Pattern, s: string, i: nat)
    requires i <= |s| && MatchAt(Then(SpacedGroup(cls), rest), s, i).Some?
    requires MatchAt(rest, s, RunEnd(cls, s, RunEnd(IsSpace, s, i))).Some?
    requires Denotes(rest, s[RunEnd(cls, s, RunEnd(IsSpace, s, i))..MatchAt(rest, s, RunEnd(cls, s, RunEnd(IsSpace, s, i))).value.end],
                     MatchAt(rest, s, RunEnd(cls, s, RunEnd(IsSpace, s, i))).value.groups)
    ensures Denotes(Then(SpacedGroup(cls), rest), s[i..MatchAt(Then(SpacedGroup(cls), rest), s, i).value.end],
                    MatchAt(Then(SpacedGroup(cls), rest), s, i).value.groups)
  {
    var j := RunEnd(IsSpace, s, i);
    var e := RunEnd(cls, s, j);
    var g := if e > j then j else j - 1;
    var h := MatchAt(rest, s, e).value;
    SpacedHit(cls, rest, s, i, j, e, g);
    SpacedParts(cls, rest, s, i, j, e, g, h.end, h.groups);
  }

  /** Spaces from `i` to `j`, a group from `g` to `e` and a text of `rest`
      up to `end` are a text of the spaced group followed by `rest`. */
  lemma SpacedParts(cls: CharClass, rest: Pattern, s: string, i: nat, j: nat, e: nat, g: nat, end: nat, gs: seq<string>)
    requires i <= g < e <= end <= |s| && i <= j <= e
    requires AllIn(IsSpace, s[i..j]) && AllIn(cls, s[j..e])
    requires e == j ==> cls(s[j - 1]) && g == j - 1
    requires e > j ==> g == j
    requires Denotes(rest, s[e..end], gs)
    ensures Denotes(Then(SpacedGroup(cls), rest), s[i..end], [s[g..e]] + gs)
  {
    var w, v, u := s[i..g], s[g..e], s[e..end];
    AllInSlice(IsSpace, s, i, j, i, g);
    SpacesAllIn(w);
    if e == j {
      assert v == [s[j - 1]];
    } else {
      AllInSlice(cls, s, j, e, g, e);
    }
    DenotesSpaced(cls, rest, w, v, u, gs);
    SliceSplit(s, g, e, end);
    SliceSplit(s, i, g, end);
    assert s[i..end] == w + (v + u);
    assert w + (v + u) == w + v + u;
  }

  /** What a match of the spaced group at `i` consists of: spaces up to
      `j`, the group from `g` to `e`, then the rest of the pattern. */
  lemma SpacedHit(cls: CharClass, rest: Pattern, s: string, i: nat, j: nat, e: nat, g: int)
    requires i <= |s| && MatchAt(Then(SpacedGroup(cls), rest), s, i).Some?
    requires j == RunEnd(IsSpace, s, i) && e == RunEnd(cls, s, j) && g == (if e > j then j else j - 1)
    ensures i <= g < e && (e == j ==> cls(s[j - 1]) && g == j - 1)
    ensures MatchAt(rest, s, e).Some?
    ensures MatchAt(Then(SpacedGroup(cls), rest), s, i) == Some(Hit(MatchAt(rest, s, e).value.end, [s[g..e]] + MatchAt(rest, s, e).value.groups))
  {
  }

  lemma SliceSplit(s: string, a: nat, b: nat, c: nat)
    requires a <= b <= c <= |s|
    ensures s[a..c] == s[a..b] + s[b..c]
  {
  }

  lemma SpacesAllIn(t: string)
    requires AllIn(IsSpace, t)
    ensures AllSpace(t)
  {
    assert forall k | 0 <= k < |t| :: IsSpace(t[k]);
  }

  /** A match of a non-nullable pattern is not empty. */
  lemma {:induction false} DenotesNonEmpty(p: Pattern, t: string, gs: seq<string>)
    requires Denotes(p, t, gs) && !Nullable(p)
    ensures t != [] && CanStart(p, t[0])
    decreases p
  {
    match p
    case Then(Lit(x), rest) =>
      if x == [] {
        DenotesNonEmpty(rest, t, gs);
      }
    case Then(Run(cls, min, cap), rest) =>
      var k :| min <= k <= |t| && RunSplit(cls, cap, rest, t, gs, k);
      if k == 0 {
        assert t[k..] == t;
        if cap { DenotesNonEmpty(rest, t, gs[1..]); } else { DenotesNonEmpty(rest, t, gs); }
      } else {
        assert t[..k][0] == t[0];
      }
    case Then(SpacedGroup(cls), rest) =>
      var a, k :| 0 <= a < k <= |t| && SpacedSplit(cls, rest, t, gs, a, k);
      if a > 0 {
        assert t[..a][0] == t[0];
      } else {
        assert t[a..k][0] == t[0];
      }
  }

  lemma AllInSlice(cls: CharClass, s: string, a: nat, b: nat, c: nat, d: nat)
    requires a <= c <= d <= b <= |s| && AllIn(cls, s[a..b])
    ensures AllIn(cls, s[c..d])
  {
    assert forall q | 0 <= q < d - c :: s[c..d][q] == s[a..b][q + c - a];
  }

  /** The longest run starting at `i` covers every shorter one. */
  lemma RunCovers(cls: CharClass, s: string, i: nat, k: nat)
    requires i + k <= |s| && AllIn(cls, s[i..i + k])
    ensures RunEnd(cls, s, i) >= i + k
  {
  }

  /** For a deterministic pattern the matcher misses nothing: a text in the
      pattern's language that starts at `i` is found there, and when the
      pattern ends in literal text it is found exactly, groups included. */
  lemma {:induction false} MatchComplete(p: Pattern, s: string, i: nat, j: nat, gs: seq<string>)
    requires i <= j <= |s| && Deterministic(p) && Denotes(p, s[i..j], gs)
    ensures MatchAt(p, s, i).Some?
    ensures Closed(p) ==> MatchAt(p, s, i) == Some(Hit(j, gs))
    decreases p
  {
    match p
    case Done =>
    case Then(Lit(x), rest) =>
      LitParts(x, rest, s, i, j, gs);
      MatchComplete(rest, s, i + |x|, j, gs);
      assert MatchAt(p, s, i) == MatchAt(rest, s, i + |x|);
    case Then(Run(cls, min, cap), rest) =>
      if rest == Done {
        RunLast(cls, min, cap, s, i, j, gs);
        assert Closed(p) == Closed(Done);
      } else {
        var gs' := RunForced(cls, min, cap, rest, s, i, j, gs);
        var e := RunEnd(cls, s, i);
        MatchComplete(rest, s, e, j, gs');
        var h := MatchAt(rest, s, e).value;
        assert MatchAt(p, s, i) == Some(Hit(h.end, (if cap then [s[i..e]] else []) + h.groups));
        assert Closed(p) ==> Closed(rest);
      }
  }

  lemma LitParts(x: string, rest: Pattern, s: string, i: nat, j: nat, gs: seq<string>)
    requires i <= j <= |s| && Denotes(Then(Lit(x), rest), s[i..j], gs)
    ensures i + |x| <= j && StartsWith(s[i..], x) && Denotes(rest, s[i + |x|..j], gs)
  {
    var t := s[i..j];
    assert s[i..][..|x|] == t[..|x|];
    assert t[|x|..] == s[i + |x|..j];
  }

  /** A run that ends the pattern is found whenever it is long enough. */
  lemma RunLast(cls: CharClass, min: nat, cap: bool, s: string, i: nat, j: nat, gs: seq<string>)
    requires i <= j <= |s| && Denotes(Then(Run(cls, min, cap), Done), s[i..j], gs)
    ensures MatchAt(Then(Run(cls, min, cap), Done), s, i).Some?
  {
    var t := s[i..j];
    var k :| min <= k <= |t| && RunSplit(cls, cap, Done, t, gs, k);
    assert t[..k] == s[i..i + k];
    RunCovers(cls, s, i, k);
  }

  /** In a deterministic pattern a run ends exactly where the longest run
      ends: the rest of the match begins with a character outside it. */
  lemma RunForced(cls: CharClass, min: nat, cap: bool, rest: Pattern, s: string, i: nat, j: nat, gs: seq<string>)
    returns (gs': seq<string>)
    requires i <= j <= |s| && !Nullable(rest) && (forall c :: CanStart(rest, c) ==> !cls(c))
    requires Denotes(Then(Run(cls, min, cap), rest), s[i..j], gs)
    ensures i + min <= RunEnd(cls, s, i) <= j
    ensures Denotes(rest, s[RunEnd(cls, s, i)..j], gs')
    ensures gs == (if cap then [s[i..RunEnd(cls, s, i)]] else []) + gs'
  {
    var t := s[i..j];
    var k :| min <= k <= |t| && RunSplit(cls, cap, rest, t, gs, k);
    gs' := if cap then gs[1..] else gs;
    assert t[..k] == s[i..i + k];
    assert t[k..] == s[i + k..j];
    RunCovers(cls, s, i, k);
    DenotesNonEmpty(rest, t[k..], gs');
    assert s[i + k] == t[k..][0];
    RunStops(cls, s, i, i + k);
    assert cap ==> gs == [gs[0]] + gs[1..];
  }

  /** A run stops at the first character outside its class. */
  lemma {:induction false} RunStops(cls: CharClass, s: string, i: nat, m: nat)
    requires i <= m < |s| && !cls(s[m])
    ensures RunEnd(cls, s, i) <= m
    decreases m - i
  {
    if i < m && cls(s[i]) {
      RunStops(cls, s, i + 1, m);
    }
  }

  /** No match starts anywhere in `[a, b)`. */
  ghost predicate Gap(p: Pattern, s: string, a: nat, b: nat)
    requires b <= |s|
  {
    forall q | a <= q < b :: MatchAt(p, s, q).None?
  }

  /** `ms` is the leftmost, non-overlapping scan of `s` from `i`: each match
      starts at the first position at or after the previous match's end
      where the pattern matches, and no match is left in between. */
  ghost predicate IsScan(p: Pattern, s: string, i: nat, ms: seq<Match>)
    requires i <= |s|
    decreases |ms|
  {
    if ms == [] then Gap(p, s, i, |s|)
    else
      i <= ms[0].start <= |s| && Gap(p, s, i, ms[0].start)
      && MatchAt(p, s, ms[0].start) == Some(Hit(ms[0].end, ms[0].groups))
      && IsScan(p, s, ms[0].end, ms[1..])
  }

  /** `re.findall` (and `re.finditer`) from position `i`. */
  function FindAllFrom(p: Pattern, s: string, i: nat): (ms: seq<Match>)
    requires i <= |s| && !Nullable(p)
    ensures Ordered(s, i, ms)
    ensures forall m | m in ms :: m.start <= m.end <= |s| && |m.groups| == Captures(p)
    ensures forall m | m in ms :: MatchAt(p, s, m.start) == Some(Hit(m.end, m.groups))
    decreases |s| - i
  {
    if i == |s| then []
    else
      match MatchAt(p, s, i)
      case Some(h) => [Match(i, h.end, h.groups)] + FindAllFrom(p, s, h.end)
      case None => FindAllFrom(p, s, i + 1)
  }

  function FindAll(p: Pattern, s: string): seq<Match>
    requires !Nullable(p)
  {
    FindAllFrom(p, s, 0)
  }

  /** The matched texts, as `re.findall` returns them for a pattern
      without groups. */
  function Texts(s: string, ms: seq<Match>): (ts: seq<string>)
    requires forall m | m in ms :: m.start <= m.end <= |s|
    ensures |ts| == |ms|
  {
    seq(|ms|, k requires 0 <= k < |ms| => s[ms[k].start..ms[k].end])
  }

  /** The `n`-th group of every match (0-based). */
  function Column(ms: seq<Match>, n: nat): (gs: seq<string>)
    requires forall m | m in ms :: n < |m.groups|
    ensures |gs| == |ms|
  {
    seq(|ms|, k requires 0 <= k < |ms| => ms[k].groups[n])
  }

  /** `re.fullmatch(p, t)` succeeds. */
  predicate FullMatch(p: Pattern, t: string) {
    MatchAt(p, t, 0).Some? && MatchAt(p, t, 0).value.end == |t|
  }

  /** The text of a match of a deterministic pattern that ends in literal
      text is, on its own, matched as a whole, with the same groups. */
  lemma Rematch(p: Pattern, s: string, i: nat, h: Hit)
    requires i <= |s| && Deterministic(p) && Closed(p) && MatchAt(p, s, i) == Some(h)
    ensures i <= h.end <= |s| && MatchAt(p, s[i..h.end], 0) == Some(Hit(h.end - i, h.groups))
  {
    MatchSound(p, s, i);
    var t := s[i..h.end];
    assert t[0..|t|] == t;
    MatchComplete(p, t, 0, |t|, h.groups);
    assert |t| == h.end - i;
  }

  /** Every text `re.findall` returns for such a pattern is itself a
      complete match. */
  lemma FoundTextsMatch(p: Pattern, s: string)
    requires Deterministic(p) && Closed(p) && !Nullable(p)
    ensures forall t | t in Texts(s, FindAll(p, s)) :: FullMatch(p, t)
  {
    var ms := FindAll(p, s);
    forall t | t in Texts(s, ms)
      ensures FullMatch(p, t)
    {
      var k :| 0 <= k < |ms| && Texts(s, ms)[k] == t;
      assert ms[k] in ms;
      Rematch(p, s, ms[k].start, Hit(ms[k].end, ms[k].groups));
    }
  }

  /** A pattern that begins with literal text finds nothing in a text that
      does not contain that text. */
  lemma AbsentLiteral(x: string, rest: Pattern, s: string)
    requires x != [] && !Contains(s, x)
    ensures FindAll(Then(Lit(x), rest), s) == []
  {
    var p := Then(Lit(x), rest);
    assert forall q | 0 <= q < |s| :: !StartsWith(s[q..], x);
    assert IsScan(p, s, 0, []);
    ScanUnique(p, s, 0, []);
  }

  /** A non-nullable pattern never matches at the end of the text. */
  lemma NoMatchAtEnd(p: Pattern, s: string)
    requires !Nullable(p)
    ensures MatchAt(p, s, |s|).None?
  {
  }

  /** `FindAllFrom` is the leftmost, non-overlapping scan. */
  lemma {:induction false} FindAllIsScan(p: Pattern, s: string, i: nat)
    requires i <= |s| && !Nullable(p)
    ensures IsScan(p, s, i, FindAllFrom(p, s, i))
    decreases |s| - i
  {
    NoMatchAtEnd(p, s);
    if i < |s| {
      match MatchAt(p, s, i)
      case Some(h) =>
        FindAllIsScan(p, s, h.end);
        var ms := FindAllFrom(p, s, i);
        assert ms == [Match(i, h.end, h.groups)] + FindAllFrom(p, s, h.end);
        assert ms[1..] == FindAllFrom(p, s, h.end);
      case None =>
        FindAllIsScan(p, s, i + 1);
        assert FindAllFrom(p, s, i) == FindAllFrom(p, s, i + 1);
        ScanExtend(p, s, i, FindAllFrom(p, s, i + 1));
    }
  }

  lemma ScanExtend(p: Pattern, s: string, i: nat, ms: seq<Match>)
    requires i < |s| && MatchAt(p, s, i).None? && IsScan(p, s, i + 1, ms)
    ensures IsScan(p, s, i, ms)
  {
    if ms != [] {
      assert Gap(p, s, i + 1, ms[0].start);
    }
  }

  /** There is only one leftmost, non-overlapping scan. */
  lemma {:induction false} ScanUnique(p: Pattern, s: string, i: nat, ms: seq<Match>)
    requires i <= |s| && !Nullable(p) && IsScan(p, s, i, ms)
    ensures ms == FindAllFrom(p, s, i)
    decreases |s| - i
  {
    if i < |s| {
      match MatchAt(p, s, i)
      case Some(h) =>
        ScanHit(p, s, i, ms, h);
        ScanUnique(p, s, h.end, ms[1..]);
        assert ms == [ms[0]] + ms[1..];
      case None =>
        ScanMiss(p, s, i, ms);
        ScanUnique(p, s, i + 1, ms);
    } else {
      NoMatchAtEnd(p, s);
    }
  }

  /** A scan from a position where the pattern matches takes that match first. */
  lemma ScanHit(p: Pattern, s: string, i: nat, ms: seq<Match>, h: Hit)
    requires i < |s| && !Nullable(p) && IsScan(p, s, i, ms) && MatchAt(p, s, i) == Some(h)
    ensures h.end <= |s| && ms != [] && ms[0] == Match(i, h.end, h.groups) && IsScan(p, s, h.end, ms[1..])
    ensures FindAllFrom(p, s, i) == [ms[0]] + FindAllFrom(p, s, h.end)
  {
    assert ms != [] && ms[0].start == i;
  }

  /** A scan passes over a position where the pattern does not match. */
  lemma ScanMiss(p: Pattern, s: string, i: nat, ms: seq<Match>)
    requires i < |s| && !Nullable(p) && IsScan(p, s, i, ms) && MatchAt(p, s, i).None?
    ensures IsScan(p, s, i + 1, ms)
    ensures FindAllFrom(p, s, i) == FindAllFrom(p, s, i + 1)
  {
    if ms != [] {
      assert i < ms[0].start;
    }
  }

  /** `re.search` from position `i`: the first position where the pattern
      matches. */
  function SearchFrom(p: Pattern, s: string, i: nat): (r: Option<Match>)
    requires i <= |s| && !Nullable(p)
    ensures r.None? ==> Gap(p, s, i, |s|)
    ensures r.Some? ==> i <= r.value.start < |s| && Gap(p, s, i, r.value.start)
                        && MatchAt(p, s, r.value.start) == Some(Hit(r.value.end, r.value.groups))
                        && |r.value.groups| == Captures(p)
    decreases |s| - i
  {
    if i == |s| then None
    else
      match MatchAt(p, s, i)
      case Some(h) => Some(Match(i, h.end, h.groups))
      case None => SearchFrom(p, s, i + 1)
  }

  function Search(p: Pattern, s: string): Option<Match>
    requires !Nullable(p)
  {
    SearchFrom(p, s, 0)
  }

  /** `re.search` from a position where the pattern matches returns that
      match. */
  lemma SearchHere(p: Pattern, s: string, i: nat)
    requires i < |s| && !Nullable(p) && MatchAt(p, s, i).Some?
    ensures SearchFrom(p, s, i) == Some(Match(i, MatchAt(p, s, i).value.end, MatchAt(p, s, i).value.groups))
  {
  }

  /** `re.search` passes over positions where nothing matches. */
  lemma {:induction false} SearchSkips(p: Pattern, s: string, i: nat, k: nat)
    requires i <= k <= |s| && !Nullable(p) && Gap(p, s, i, k)
    ensures SearchFrom(p, s, i) == SearchFrom(p, s, k)
    decreases k - i
  {
    if i < k {
      SearchSkips(p, s, i + 1, k);
    }
  }

  /** `re.search` returns the match at the first position where one
      starts. */
  lemma SearchFinds(p: Pattern, s: string, i: nat, h: Hit)
    requires i < |s| && !Nullable(p) && Gap(p, s, 0, i) && MatchAt(p, s, i) == Some(h)
    ensures Search(p, s) == Some(Match(i, h.end, h.groups))
  {
    SearchSkips(p, s, 0, i);
    SearchHere(p, s, i);
  }

  /** `re.search` finds the first match of `re.findall`. */
  lemma {:induction false} SearchIsFirst(p: Pattern, s: string, i: nat)
    requires i <= |s| && !Nullable(p)
    ensures SearchFrom(p, s, i) == if FindAllFrom(p, s, i) == [] then None else Some(FindAllFrom(p, s, i)[0])
    decreases |s| - i
  {
    if i < |s| && MatchAt(p, s, i).None? {
      SearchIsFirst(p, s, i + 1);
    }
  }

  /** A replacement template of `re.sub`: text and group references `\n`. */
  datatype Piece = Text(text: string) | Group(index: nat)

  function Expand(template: seq<Piece>, gs: seq<string>): string
    decreases |template|
  {
    if template == [] then []
    else
      (match template[0]
       case Text(t) => t
       case Group(n) => if 1 <= n <= |gs| then gs[n - 1] else [])
      + Expand(template[1..], gs)
  }

  /** `re.sub` from position `i`: every match of the scan is replaced by the
      expanded template, everything else is copied. */
  function SubFrom(p: Pattern, s: string, template: seq<Piece>, i: nat): string
    requires i <= |s| && !Nullable(p)
    decreases |s| - i
  {
    if i == |s| then []
    else
      match MatchAt(p, s, i)
      case Some(h) => Expand(template, h.groups) + SubFrom(p, s, template, h.end)
      case None => [s[i]] + SubFrom(p, s, template, i + 1)
  }

  function Sub(p: Pattern, s: string, template: seq<Piece>): string
    requires !Nullable(p)
  {
    SubFrom(p, s, template, 0)
  }

  /** The matches of a scan are in order and inside the text. */
  ghost predicate Ordered(s: string, i: nat, ms: seq<Match>)
    decreases |ms|
  {
    if ms == [] then i <= |s|
    else i <= ms[0].start <= ms[0].end <= |s| && Ordered(s, ms[0].end, ms[1..])
  }

  /** The text between consecutive matches, with each match replaced. */
  function Splice(s: string, i: nat, ms: seq<Match>, template: seq<Piece>): string
    requires Ordered(s, i, ms)
    decreases |ms|
  {
    if ms == [] then s[i..]
    else s[i..ms[0].start] + Expand(template, ms[0].groups) + Splice(s, ms[0].end, ms[1..], template)
  }

  /** `re.sub` keeps the text outside the matches of `re.findall` verbatim
      and puts the expanded template in place of each match. */
  lemma {:induction false} SubSplices(p: Pattern, s: string, template: seq<Piece>, i: nat)
    requires i <= |s| && !Nullable(p)
    ensures SubFrom(p, s, template, i) == Splice(s, i, FindAllFrom(p, s, i), template)
    decreases |s| - i
  {
    if i < |s| {
      match MatchAt(p, s, i)
      case Some(h) =>
        SubSplices(p, s, template, h.end);
        SubHit(p, s, template, i, h);
      case None =>
        SubSplices(p, s, template, i + 1);
        SubMiss(p, s, template, i);
    }
  }

  /** A match at `i` is replaced, and the rest is spliced as before. */
  lemma SubHit(p: Pattern, s: string, template: seq<Piece>, i: nat, h: Hit)
    requires i < |s| && !Nullable(p) && MatchAt(p, s, i) == Some(h) && h.end <= |s|
    requires SubFrom(p, s, template, h.end) == Splice(s, h.end, FindAllFrom(p, s, h.end), template)
    ensures SubFrom(p, s, template, i) == Splice(s, i, FindAllFrom(p, s, i), template)
  {
    var rest := FindAllFrom(p, s, h.end);
    var ms := FindAllFrom(p, s, i);
    var e := Expand(template, h.groups);
    assert SubFrom(p, s, template, i) == e + SubFrom(p, s, template, h.end);
    assert ms == [Match(i, h.end, h.groups)] + rest;
    assert ms[1..] == rest;
    assert Splice(s, i, ms, template) == s[i..i] + e + Splice(s, h.end, rest, template);
    assert s[i..i] + e == e;
  }

  /** Where no match starts, the character is kept. */
  lemma SubMiss(p: Pattern, s: string, template: seq<Piece>, i: nat)
    requires i < |s| && !Nullable(p) && MatchAt(p, s, i).None?
    requires SubFrom(p, s, template, i + 1) == Splice(s, i + 1, FindAllFrom(p, s, i + 1), template)
    ensures SubFrom(p, s, template, i) == Splice(s, i, FindAllFrom(p, s, i), template)
  {
    var ms := FindAllFrom(p, s, i + 1);
    assert FindAllFrom(p, s, i) == ms;
    assert SubFrom(p, s, template, i) == [s[i]] + SubFrom(p, s, template, i + 1);
    SpliceStep(s, i, ms, template);
  }

  lemma SpliceStep(s: string, i: nat, ms: seq<Match>, template: seq<Piece>)
    requires i < |s| && Ordered(s, i + 1, ms)
    ensures Ordered(s, i, ms)
    ensures Splice(s, i, ms, template) == [s[i]] + Splice(s, i + 1, ms, template)
  {
    if ms == [] {
      assert s[i..] == [s[i]] + s[i + 1..];
    } else {
      var m := ms[0];
      assert Ordered(s, i, ms);
      var rest := Expand(template, m.groups) + Splice(s, m.end, ms[1..], template);
      assert Splice(s, i, ms, template) == s[i..m.start] + rest;
      assert Splice(s, i + 1, ms, template) == s[i + 1..m.start] + rest;
      assert s[i..m.start] == [s[i]] + s[i + 1..m.start];
      TextAssoc([s[i]], s[i + 1..m.start], rest);
    }
  }

  lemma TextAssoc(a: string, b: string, c: string)
    ensures (a + b) + c == a + (b + c)
  {
  }

  /** With no match, `re.sub` returns the text unchanged. */
  lemma SubNoMatch(p: Pattern, s: string, template: seq<Piece>)
    requires !Nullable(p) && FindAll(p, s) == []
    ensures Sub(p, s, template) == s
  {
    SubSplices(p, s, template, 0);
  }

  /* Matching on text whose shape is known. */

  /** A run stops right after a stretch of class characters that is not
      followed by another one. */
  lemma {:induction false} RunEndOf(cls: CharClass, s: string, i: nat, v: string)
    requires i + |v| <= |s| && s[i..i + |v|] == v && AllIn(cls, v)
    requires i + |v| == |s| || !cls(s[i + |v|])
    ensures RunEnd(cls, s, i) == i + |v|
    decreases |v|
  {
    if v != [] {
      assert s[i] == v[0];
      assert s[i + 1..i + |v|] == v[1..];
      RunEndOf(cls, s, i + 1, v[1..]);
    }
  }

  /** A known suffix splits into its known parts. */
  lemma SuffixParts(s: string, i: nat, a: string, b: string)
    requires i <= |s| && s[i..] == a + b
    ensures i + |a| <= |s| && s[i..i + |a|] == a && s[i + |a|..] == b
  {
    assert s[i..i + |a|] == s[i..][..|a|];
    assert s[i + |a|..] == s[i..][|a|..];
  }

  /** Literal text at `i` is stepped over. */
  lemma MatchLit(x: string, rest: Pattern, s: string, i: nat, u: string)
    requires i <= |s| && s[i..] == x + u
    ensures i + |x| <= |s| && s[i + |x|..] == u
    ensures MatchAt(Then(Lit(x), rest), s, i) == MatchAt(rest, s, i + |x|)
  {
    SuffixParts(s, i, x, u);
    assert s[i..][..|x|] == x;
  }

  /** Literal text `x` at `i` followed by a match of the rest. */
  lemma LitThenSome(x: string, rest: Pattern, s: string, i: nat, u: string)
    requires i + |x| <= |s| && s[i..] == x + u && MatchAt(rest, s, i + |x|).Some?
    ensures MatchAt(Then(Lit(x), rest), s, i).Some?
  {
    MatchLit(x, rest, s, i, u);
  }

  /** A run over exactly the class characters `v` at `i` ends after `v`. */
  lemma RunOver(cls: CharClass, s: string, i: nat, v: string, u: string)
    requires i <= |s| && s[i..] == v + u && AllIn(cls, v)
    requires u == [] || !cls(u[0])
    ensures i + |v| <= |s| && s[i..i + |v|] == v && s[i + |v|..] == u
    ensures RunEnd(cls, s, i) == i + |v|
  {
    SuffixParts(s, i, v, u);
    if u != [] {
      assert s[i + |v|] == u[0];
    }
    RunEndOf(cls, s, i, v);
  }

  /** Spaces `w` and then the group `v` at `i`: the spaces end where `v`
      starts and the group run ends after `v`. */
  lemma SpacedOver(cls: CharClass, s: string, i: nat, w: string, v: string, u: string)
    requires i <= |s| && s[i..] == w + (v + u)
    requires AllIn(IsSpace, w) && v != [] && !IsSpace(v[0]) && AllIn(cls, v)
    requires u == [] || !cls(u[0])
    ensures i + |w| + |v| <= |s| && s[i + |w|..i + |w| + |v|] == v && s[i + |w| + |v|..] == u
    ensures RunEnd(IsSpace, s, i) == i + |w| && RunEnd(cls, s, i + |w|) == i + |w| + |v|
  {
    var j := i + |w|;
    SuffixParts(s, i, w, v + u);
    assert s[j] == v[0];
    RunEndOf(IsSpace, s, i, w);
    RunOver(cls, s, j, v, u);
  }

  /** A run `v` at `i` followed by a match of the rest. */
  lemma RunThen(cls: CharClass, min: nat, cap: bool, rest: Pattern, s: string, i: nat, v: string, u: string, j: nat, h: Hit)
    requires i <= |s| && s[i..] == v + u && AllIn(cls, v) && min <= |v|
    requires u == [] || !cls(u[0])
    requires j == i + |v| <= |s| && MatchAt(rest, s, j) == Some(h)
    ensures MatchAt(Then(Run(cls, min, cap), rest), s, i) == Some(Hit(h.end, (if cap then [v] else []) + h.groups))
  {
    RunOver(cls, s, i, v, u);
    RunStep(cls, min, cap, rest, s, i, j, h);
  }

  /** The run pattern takes the whole run up to `j` and goes on there. */
  lemma RunStep(cls: CharClass, min: nat, cap: bool, rest: Pattern, s: string, i: nat, j: nat, h: Hit)
    requires i + min <= j <= |s| && RunEnd(cls, s, i) == j && MatchAt(rest, s, j) == Some(h)
    ensures MatchAt(Then(Run(cls, min, cap), rest), s, i) == Some(Hit(h.end, (if cap then [s[i..j]] else []) + h.groups))
  {
  }

  /** Spaces `w` and the group `v` at `i` followed by a match of the rest. */
  lemma SpacedThen(cls: CharClass, rest: Pattern, s: string, i: nat, w: string, v: string, u: string, j: nat, h: Hit)
    requires i <= |s| && s[i..] == w + (v + u)
    requires AllIn(IsSpace, w) && v != [] && !IsSpace(v[0]) && AllIn(cls, v)
    requires u == [] || !cls(u[0])
    requires j == i + |w| + |v| <= |s| && MatchAt(rest, s, j) == Some(h)
    ensures MatchAt(Then(SpacedGroup(cls), rest), s, i) == Some(Hit(h.end, [v] + h.groups))
  {
    SpacedOver(cls, s, i, w, v, u);
    SpacedStep(cls, rest, s, i, i + |w|, j, h);
  }

  /** The spaced group takes the spaces up to `k` and the run up to `j`,
      and goes on there. */
  lemma SpacedStep(cls: CharClass, rest: Pattern, s: string, i: nat, k: nat, j: nat, h: Hit)
    requires i <= k < j <= |s| && RunEnd(IsSpace, s, i) == k && RunEnd(cls, s, k) == j
    requires MatchAt(rest, s, j) == Some(h)
    ensures MatchAt(Then(SpacedGroup(cls), rest), s, i) == Some(Hit(h.end, [s[k..j]] + h.groups))
  {
  }

  /** Where no match starts, `re.sub` copies the rest of the text. */
  lemma {:induction false} SubFromNoMatch(p: Pattern, s: string, template: seq<Piece>, k: nat)
    requires !Nullable(p) && k <= |s| && forall q | k <= q < |s| :: MatchAt(p, s, q).None?
    ensures SubFrom(p, s, template, k) == s[k..]
    decreases |s| - k
  {
    if k < |s| {
      SubFromNoMatch(p, s, template, k + 1);
      assert s[k..] == [s[k]] + s[k + 1..];
    }
  }
}
