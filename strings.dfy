/** The Python `str` operations the pipeline relies on, on `seq<char>`. */
module Strings {
  import opened Chars

  predicate StartsWith(s: string, prefix: string) {
    |prefix| <= |s| && s[..|prefix|] == prefix
  }

  /** Python's `sub in s`. */
  predicate Contains(s: string, sub: string) {
    exists i | 0 <= i <= |s| :: StartsWith(s[i..], sub)
  }

  lemma ContainsAt(s: string, sub: string, i: nat)
    requires i <= |s| && StartsWith(s[i..], sub)
    ensures Contains(s, sub)
  {
  }

  /** A string contains every one of its infixes. */
  lemma ContainsMiddle(a: string, b: string, c: string)
    ensures Contains(a + b + c, b)
  {
    assert (a + b + c)[|a|..][..|b|] == b;
    ContainsAt(a + b + c, b, |a|);
  }

  /** Text added on either side keeps an occurrence. */
  lemma ContainsWider(a: string, s: string, b: string, sub: string)
    requires Contains(s, sub)
    ensures Contains(a + s + b, sub)
  {
    var i :| 0 <= i <= |s| && StartsWith(s[i..], sub);
    assert (a + s + b)[|a| + i..][..|sub|] == s[i..][..|sub|];
    ContainsAt(a + s + b, sub, |a| + i);
  }

  /** Text added after keeps an occurrence. */
  lemma ContainsBefore(s: string, b: string, sub: string)
    requires Contains(s, sub)
    ensures Contains(s + b, sub)
  {
    var i :| 0 <= i <= |s| && StartsWith(s[i..], sub);
    assert (s + b)[i..][..|sub|] == s[i..][..|sub|];
    ContainsAt(s + b, sub, i);
  }

  lemma ContainsTail(s: string, sub: string)
    requires |s| > 0
    ensures Contains(s, sub) <==> StartsWith(s, sub) || Contains(s[1..], sub)
  {
    if Contains(s, sub) && !StartsWith(s, sub) {
      var i :| 0 <= i <= |s| && StartsWith(s[i..], sub);
      assert i != 0;
      assert s[1..][i - 1..] == s[i..];
    }
    if Contains(s[1..], sub) {
      var i :| 0 <= i <= |s[1..]| && StartsWith(s[1..][i..], sub);
      assert s[1..][i..] == s[i + 1..];
    }
    if StartsWith(s, sub) {
      assert s[0..] == s;
    }
  }

  /** An occurrence in a suffix is one in the whole text. */
  lemma ContainsSuffix(s: string, k: nat, sub: string)
    requires k <= |s| && Contains(s[k..], sub)
    ensures Contains(s, sub)
  {
    var i :| 0 <= i <= |s[k..]| && StartsWith(s[k..][i..], sub);
    assert s[k..][i..] == s[k + i..];
    ContainsAt(s, sub, k + i);
  }

  ghost predicate AllSpace(t: string) {
    forall k | 0 <= k < |t| :: IsSpace(t[k])
  }

  /** `str.replace(target, repl)`: every non-overlapping occurrence of `target`,
      scanned from the left, becomes `repl`; an empty `target` inserts `repl`
      before every character and at the end. */
  function ReplaceAll(s: string, target: string, repl: string): string
    decreases |s|
  {
    if |target| == 0 then
      if s == [] then repl else repl + [s[0]] + ReplaceAll(s[1..], target, repl)
    else if s == [] then []
    else if StartsWith(s, target) then repl + ReplaceAll(s[|target|..], target, repl)
    else [s[0]] + ReplaceAll(s[1..], target, repl)
  }

  /** Replacing a string that does not occur changes nothing. */
  lemma {:induction false} ReplaceAbsent(s: string, target: string, repl: string)
    requires |target| > 0 && !Contains(s, target)
    ensures ReplaceAll(s, target, repl) == s
    decreases |s|
  {
    if s != [] {
      ContainsTail(s, target);
      ReplaceAbsent(s[1..], target, repl);
    }
  }

  /** Replacing a string by itself changes nothing. */
  lemma {:induction false} ReplaceBySelf(s: string, target: string)
    requires |target| > 0
    ensures ReplaceAll(s, target, target) == s
    decreases |s|
  {
    if s != [] {
      if StartsWith(s, target) {
        ReplaceBySelf(s[|target|..], target);
        assert s == target + s[|target|..];
      } else {
        ReplaceBySelf(s[1..], target);
        assert s == [s[0]] + s[1..];
      }
    }
  }

  /** A text that begins with `target` is rewritten from its first character on. */
  lemma ReplaceAtStart(target: string, repl: string, rest: string)
    requires |target| > 0
    ensures ReplaceAll(target + rest, target, repl) == repl + ReplaceAll(rest, target, repl)
  {
    assert StartsWith(target + rest, target);
    assert (target + rest)[|target|..] == rest;
  }

  /** A replacement at least as long as its target never shortens the text. */
  lemma {:induction false} ReplaceNotShorter(s: string, target: string, repl: string)
    requires 0 < |target| <= |repl|
    ensures |ReplaceAll(s, target, repl)| >= |s|
    decreases |s|
  {
    if s != [] {
      if StartsWith(s, target) {
        ReplaceNotShorter(s[|target|..], target, repl);
      } else {
        ReplaceNotShorter(s[1..], target, repl);
      }
    }
  }

  /** A longer replacement of a target that occurs lengthens the text. */
  lemma {:induction false} ReplaceLonger(s: string, target: string, repl: string)
    requires 0 < |target| < |repl| && Contains(s, target)
    ensures |ReplaceAll(s, target, repl)| > |s|
    decreases |s|
  {
    ContainsTail(s, target);
    if StartsWith(s, target) {
      ReplaceNotShorter(s[|target|..], target, repl);
    } else {
      ReplaceLonger(s[1..], target, repl);
    }
  }

  /** When the replacement begins with the target, the target still occurs
      after replacing it. */
  lemma {:induction false} ReplaceKeepsTarget(s: string, target: string, repl: string)
    requires |target| > 0 && StartsWith(repl, target) && Contains(s, target)
    ensures Contains(ReplaceAll(s, target, repl), target)
    decreases |s|
  {
    ContainsTail(s, target);
    var r := ReplaceAll(s, target, repl);
    if StartsWith(s, target) {
      assert r[..|target|] == repl[..|target|];
      ContainsAt(r, target, 0);
    } else {
      ReplaceKeepsTarget(s[1..], target, repl);
      assert r[1..] == ReplaceAll(s[1..], target, repl);
      ContainsTail(r, target);
    }
  }

  /** Replacing one character by another works character by character. */
  lemma {:induction false} ReplaceChar(s: string, target: string, repl: string)
    requires |target| == 1 && |repl| == 1
    ensures |ReplaceAll(s, target, repl)| == |s|
    ensures forall k | 0 <= k < |s| :: ReplaceAll(s, target, repl)[k] == if s[k] == target[0] then repl[0] else s[k]
    decreases |s|
  {
    if s != [] {
      ReplaceChar(s[1..], target, repl);
      var r := ReplaceAll(s, target, repl);
      assert StartsWith(s, target) <==> s[0] == target[0];
      if StartsWith(s, target) {
        assert s[|target|..] == s[1..];
        assert r == repl + ReplaceAll(s[1..], target, repl);
      } else {
        assert r == [s[0]] + ReplaceAll(s[1..], target, repl);
      }
    }
  }

  /** No occurrence of `target` in `a + b` starts in `a` and ends in `b`. */
  predicate NoStraddle(a: string, b: string, target: string) {
    forall p | 0 <= p < |a| && |a| < p + |target| :: !StartsWith((a + b)[p..], target)
  }

  /** The left-to-right scan of `str.replace` reaches a boundary that no
      occurrence crosses, so the text on each side is rewritten on its own. */
  lemma {:induction false} ReplaceSplit(a: string, b: string, target: string, repl: string)
    requires |target| > 0 && NoStraddle(a, b, target)
    ensures ReplaceAll(a + b, target, repl) == ReplaceAll(a, target, repl) + ReplaceAll(b, target, repl)
    decreases |a|
  {
    if a == [] {
      assert a + b == b;
    } else if StartsWith(a + b, target) {
      assert (a + b)[0..] == a + b;
      assert a[..|target|] == (a + b)[..|target|];
      StraddleShift(a, b, target, |target|);
      ReplaceSplit(a[|target|..], b, target, repl);
      SplitStep(a, b, target, repl, |target|, repl);
    } else {
      StraddleShift(a, b, target, 1);
      ReplaceSplit(a[1..], b, target, repl);
      SplitStep(a, b, target, repl, 1, [a[0]]);
    }
  }

  /** One step of `ReplaceSplit`: `a + b` and `a` are rewritten from the
      same first piece `head`, which takes `n` characters. */
  lemma SplitStep(a: string, b: string, target: string, repl: string, n: nat, head: string)
    requires 0 < n <= |a|
    requires ReplaceAll(a + b, target, repl) == head + ReplaceAll((a + b)[n..], target, repl)
    requires ReplaceAll(a, target, repl) == head + ReplaceAll(a[n..], target, repl)
    requires ReplaceAll(a[n..] + b, target, repl) == ReplaceAll(a[n..], target, repl) + ReplaceAll(b, target, repl)
    ensures ReplaceAll(a + b, target, repl) == ReplaceAll(a, target, repl) + ReplaceAll(b, target, repl)
  {
    assert (a + b)[n..] == a[n..] + b;
    assert head + (ReplaceAll(a[n..], target, repl) + ReplaceAll(b, target, repl))
        == (head + ReplaceAll(a[n..], target, repl)) + ReplaceAll(b, target, repl);
  }

  /** No occurrence crosses the boundary when no proper end of `target`
      begins `b`. */
  lemma HeadBlocks(a: string, b: string, target: string)
    requires forall o | 0 < o < |target| :: !StartsWith(b, target[o..])
    ensures NoStraddle(a, b, target)
  {
    forall p | 0 <= p < |a| && |a| < p + |target| ensures !StartsWith((a + b)[p..], target) {
      var o := |a| - p;
      if |target| <= |(a + b)[p..]| {
        assert (a + b)[p..][..|target|][o..] == b[..|target| - o];
      }
    }
  }

  /** No occurrence crosses the boundary when no end of `a` shorter than
      `target` begins it. */
  lemma TailBlocks(a: string, b: string, target: string)
    requires forall q | 0 <= q < |a| && |a| < q + |target| :: !StartsWith(target, a[q..])
    ensures NoStraddle(a, b, target)
  {
    forall p | 0 <= p < |a| && |a| < p + |target| ensures !StartsWith((a + b)[p..], target) {
      if |target| <= |(a + b)[p..]| {
        assert (a + b)[p..][..|target|][..|a| - p] == a[p..];
      }
    }
  }

  /** Text without the first character of the target is copied by the scan. */
  lemma ReplaceSkipFirst(a: string, rest: string, target: string, repl: string)
    requires |target| > 0 && forall i | 0 <= i < |a| :: a[i] != target[0]
    ensures ReplaceAll(a + rest, target, repl) == a + ReplaceAll(rest, target, repl)
  {
    forall p | 0 <= p < |a| && |a| < p + |target| ensures !StartsWith((a + rest)[p..], target) {
      if |target| <= |(a + rest)[p..]| {
        assert (a + rest)[p..][..|target|][0] == a[p];
      }
    }
    forall p | 0 <= p <= |a| ensures !StartsWith(a[p..], target) {
      if p < |a| && |target| <= |a[p..]| {
        assert a[p..][..|target|][0] == a[p];
      }
    }
    ReplaceAbsent(a, target, repl);
    ReplaceSplit(a, rest, target, repl);
  }

  /** A single occurrence between texts without the target's first
      character is the one replaced there. */
  lemma ReplaceOne(head: string, target: string, tail: string, y: string, repl: string)
    requires |target| > 0
    requires forall i | 0 <= i < |head| :: head[i] != target[0]
    requires forall i | 0 <= i < |tail| :: tail[i] != target[0]
    ensures ReplaceAll(head + target + tail + y, target, repl) == head + repl + tail + ReplaceAll(y, target, repl)
  {
    var r := ReplaceAll(y, target, repl);
    assert head + target + tail + y == head + (target + (tail + y));
    ReplaceSkipFirst(head, target + (tail + y), target, repl);
    ReplaceAtStart(target, repl, tail + y);
    ReplaceSkipFirst(tail, y, target, repl);
    assert head + (repl + (tail + r)) == head + repl + tail + r;
  }

  /** The boundary stays uncrossed when text is taken off the front. */
  lemma StraddleShift(a: string, b: string, target: string, n: nat)
    requires n <= |a| && NoStraddle(a, b, target)
    ensures NoStraddle(a[n..], b, target)
  {
    var a' := a[n..];
    forall p | 0 <= p < |a'| && |a'| < p + |target| ensures !StartsWith((a' + b)[p..], target) {
      assert (a' + b)[p..] == (a + b)[p + n..];
    }
  }

  /** `w` cannot be formed around an inserted `repl`: `repl` does not hold
      it, no end of `repl` begins it, and no proper end of `w` begins
      `repl` or is begun by it. */
  predicate Unmixed(repl: string, w: string) {
    !Contains(repl, w)
    && (forall k | 0 <= k < |repl| :: |repl| - k < |w| ==> !StartsWith(w, repl[k..]))
    && (forall j | 0 < j < |w| :: !StartsWith(repl, w[j..]) && !StartsWith(w[j..], repl))
  }

  /** `repl` holds the first three characters of `w` at no position but
      the first, and `w` those of `repl` likewise. */
  predicate ThreeAnchored(repl: string, w: string) {
    3 <= |w| <= |repl|
    && (forall i | 0 < i < |repl| - 2 :: !(repl[i] == w[0] && repl[i + 1] == w[1] && repl[i + 2] == w[2]))
    && (forall j | 0 < j < |w| - 2 :: !(w[j] == repl[0] && w[j + 1] == repl[1] && w[j + 2] == repl[2]))
  }

  /** A sufficient test for `Unmixed` by characters: besides the anchoring,
      `repl` and `w` differ at `k`, and their last one or two characters
      begin neither the other. */
  lemma UnmixedByChars(repl: string, w: string, k: nat)
    requires ThreeAnchored(repl, w) && k < |w| && repl[k] != w[k]
    requires repl[|repl| - 1] != w[0] && !(repl[|repl| - 2] == w[0] && repl[|repl| - 1] == w[1])
    requires w[|w| - 1] != repl[0] && !(w[|w| - 2] == repl[0] && w[|w| - 1] == repl[1])
    ensures Unmixed(repl, w)
  {
    WholeAbsent(repl, w, k);
    EndsBeginNot(repl, w);
    EndsBeginNot(w, repl);
  }

  lemma WholeAbsent(repl: string, w: string, k: nat)
    requires ThreeAnchored(repl, w) && k < |w| && repl[k] != w[k]
    ensures !Contains(repl, w)
  {
    forall i | 0 <= i <= |repl| ensures !StartsWith(repl[i..], w) {
      if i == 0 {
        assert repl[0..][..|w|][k] == repl[k];
      } else if i + |w| <= |repl| {
        assert repl[i..][..|w|][0] == repl[i] && repl[i..][..|w|][1] == repl[i + 1] && repl[i..][..|w|][2] == repl[i + 2];
      }
    }
  }

  /** No proper end of `x` shorter than `y` begins `y`, when `x` holds the
      first three characters of `y` only at its start and its last one or
      two characters do not begin `y`. */
  lemma EndsBeginNot(x: string, y: string)
    requires 3 <= |x| && 3 <= |y|
    requires forall i | 0 < i < |x| - 2 :: !(x[i] == y[0] && x[i + 1] == y[1] && x[i + 2] == y[2])
    requires x[|x| - 1] != y[0] && !(x[|x| - 2] == y[0] && x[|x| - 1] == y[1])
    ensures forall q | 0 < q < |x| :: !StartsWith(y, x[q..]) && (|y| < |x| - q ==> !StartsWith(x[q..], y))
  {
    forall q | 0 < q < |x| ensures !StartsWith(y, x[q..]) && (|y| < |x| - q ==> !StartsWith(x[q..], y)) {
      var v := x[q..];
      if |v| >= 3 {
        assert v[0] == x[q] && v[1] == x[q + 1] && v[2] == x[q + 2];
        if |v| <= |y| {
          assert y[..|v|][0] == y[0] && y[..|v|][1] == y[1] && y[..|v|][2] == y[2];
        } else {
          assert v[..|y|][0] == v[0] && v[..|y|][1] == v[1] && v[..|y|][2] == v[2];
        }
      } else if |v| == 2 {
        assert y[..2][0] == y[0] && y[..2][1] == y[1];
      } else {
        assert y[..1][0] == y[0];
      }
    }
  }

  /** A proper end of such a `w` that begins the rewritten text begins the
      original one. */
  lemma {:induction false} ReplacedHead(x: string, target: string, repl: string, w: string, j: nat)
    requires |target| > 0 && 0 < j < |w| && Unmixed(repl, w)
    requires StartsWith(ReplaceAll(x, target, repl), w[j..])
    ensures StartsWith(x, w[j..])
    decreases |x|
  {
    if !StartsWith(x, target) {
      var v := w[j..];
      var r := ReplaceAll(x, target, repl);
      assert r == [x[0]] + ReplaceAll(x[1..], target, repl);
      assert v == [w[j]] + w[j + 1..];
      if j + 1 < |w| {
        assert r[1..][..|w[j + 1..]|] == r[..|v|][1..];
        ReplacedHead(x[1..], target, repl, w, j + 1);
        assert x[..|v|] == [x[0]] + x[1..][..|v| - 1];
      }
    }
  }

  /** Replacing removes every occurrence of the target and creates no
      occurrence of another text, when the replacement cannot help to form
      either. */
  lemma {:induction false} ReplaceAvoids(s: string, target: string, repl: string, w: string)
    requires |target| > 0 && |w| > 0 && Unmixed(repl, w)
    requires w == target || !Contains(s, w)
    ensures !Contains(ReplaceAll(s, target, repl), w)
    decreases |s|
  {
    if s != [] {
      var n := if StartsWith(s, target) then |target| else 1;
      if w != target {
        SuffixAbsent(s, n, w);
        SuffixAbsent(s, 0, w);
        assert s[0..] == s;
      }
      ReplaceAvoids(s[n..], target, repl, w);
      if StartsWith(s, target) {
        assert ReplaceAll(s, target, repl) == repl + ReplaceAll(s[n..], target, repl);
        NoneAroundRepl(repl, ReplaceAll(s[n..], target, repl), w);
      } else {
        assert ReplaceAll(s, target, repl) == [s[0]] + ReplaceAll(s[1..], target, repl);
        NoneAfterChar(s, target, repl, w);
      }
    }
  }

  /** A suffix of a text without `w` holds no `w`. */
  lemma SuffixAbsent(s: string, k: nat, w: string)
    requires k <= |s| && !Contains(s, w)
    ensures !Contains(s[k..], w)
  {
    forall i | 0 <= i <= |s[k..]| ensures !StartsWith(s[k..][i..], w) {
      assert s[k..][i..] == s[k + i..];
    }
  }

  /** No occurrence of `w` starts in an inserted `repl`. */
  lemma NoneAroundRepl(repl: string, r: string, w: string)
    requires |w| > 0 && Unmixed(repl, w) && !Contains(r, w)
    ensures !Contains(repl + r, w)
  {
    var t := repl + r;
    forall q | 0 <= q <= |t| ensures !StartsWith(t[q..], w) {
      if q >= |repl| {
        assert t[q..] == r[q - |repl|..];
      } else if q + |w| <= |repl| {
        assert repl[q..][..|w|] == t[q..][..|w|];
      } else {
        assert |repl| - q < |w|;
        assert t[q..][..|repl[q..]|] == repl[q..];
      }
    }
  }

  /** No occurrence of `w` starts at a kept first character that does not
      begin one in the original text. */
  lemma NoneAfterChar(s: string, target: string, repl: string, w: string)
    requires s != [] && |target| > 0 && |w| > 0 && Unmixed(repl, w) && !StartsWith(s, w)
    requires !Contains(ReplaceAll(s[1..], target, repl), w)
    ensures !Contains([s[0]] + ReplaceAll(s[1..], target, repl), w)
  {
    var r' := ReplaceAll(s[1..], target, repl);
    var t := [s[0]] + r';
    forall q | 0 <= q <= |t| ensures !StartsWith(t[q..], w) {
      if q >= 1 {
        assert t[q..] == r'[q - 1..];
      } else if |w| > 1 && StartsWith(r', w[1..]) {
        ReplacedHead(s[1..], target, repl, w, 1);
        assert s[..|w|] == [s[0]] + s[1..][..|w| - 1];
      } else if |w| > 1 {
        assert t[1..] == r';
      }
    }
  }

  /** Leading whitespace removed (`str.lstrip()`). */
  function StripLeft(s: string): (r: string)
    ensures |r| <= |s| && r == s[|s| - |r|..]
    ensures AllSpace(s[..|s| - |r|])
    ensures r == [] || !IsSpace(r[0])
    decreases |s|
  {
    if |s| > 0 && IsSpace(s[0]) then
      var r := StripLeft(s[1..]);
      LeftStep(s, r);
      r
    else s
  }

  lemma LeftStep(s: string, r: string)
    requires |s| > 0 && IsSpace(s[0]) && |r| <= |s| - 1
    requires r == s[1..][|s| - 1 - |r|..] && AllSpace(s[1..][..|s| - 1 - |r|])
    ensures r == s[|s| - |r|..] && AllSpace(s[..|s| - |r|])
  {
    assert s[1..][|s| - 1 - |r|..] == s[|s| - |r|..];
    var t := s[1..][..|s| - 1 - |r|];
    assert s[..|s| - |r|] == [s[0]] + t;
    forall k | 0 <= k < |s| - |r| ensures IsSpace(s[k]) {
      if k > 0 {
        assert s[k] == t[k - 1];
      }
    }
  }

  /** Trailing whitespace removed (`str.rstrip()`). */
  function StripRight(s: string): (r: string)
    ensures |r| <= |s| && r == s[..|r|]
    ensures AllSpace(s[|r|..])
    ensures r == [] || !IsSpace(r[|r| - 1])
    decreases |s|
  {
    if |s| > 0 && IsSpace(s[|s| - 1]) then
      var r := StripRight(s[..|s| - 1]);
      RightStep(s, r);
      r
    else s
  }

  lemma RightStep(s: string, r: string)
    requires |s| > 0 && IsSpace(s[|s| - 1]) && |r| <= |s| - 1
    requires r == s[..|s| - 1][..|r|] && AllSpace(s[..|s| - 1][|r|..])
    ensures r == s[..|r|] && AllSpace(s[|r|..])
  {
    assert s[..|s| - 1][..|r|] == s[..|r|];
    var t := s[..|s| - 1][|r|..];
    assert s[|r|..] == t + [s[|s| - 1]];
    forall k | |r| <= k < |s| ensures IsSpace(s[k]) {
      if k < |s| - 1 {
        assert s[k] == t[k - |r|];
      }
    }
  }

  /** No whitespace at either end. */
  predicate Trimmed(s: string) {
    s == [] || (!IsSpace(s[0]) && !IsSpace(s[|s| - 1]))
  }

  /** `s` is `r` with whitespace before and after it. */
  ghost predicate Surrounds(s: string, r: string) {
    exists a | 0 <= a <= |s| - |r| :: SurroundsAt(s, r, a)
  }

  /** `s` is whitespace, then `r` from position `a`, then whitespace. */
  ghost predicate SurroundsAt(s: string, r: string, a: nat)
    requires a + |r| <= |s|
  {
    s[a..a + |r|] == r && AllSpace(s[..a]) && AllSpace(s[a + |r|..])
  }

  /** `str.strip()`: the text between the leading and the trailing whitespace. */
  function Strip(s: string): (r: string)
    ensures |r| <= |s|
    ensures Trimmed(r)
  {
    var l := StripLeft(s);
    var r := StripRight(l);
    StripParts(s, l, r);
    r
  }

  /** `s.strip()` is a contiguous part of `s` with only whitespace around it. */
  lemma StripSurrounds(s: string)
    ensures Surrounds(s, Strip(s))
  {
    StripParts(s, StripLeft(s), StripRight(StripLeft(s)));
  }

  /** A text strips to nothing exactly when it is all whitespace. */
  lemma StripEmpty(s: string)
    ensures Strip(s) == [] <==> AllSpace(s)
  {
    StripParts(s, StripLeft(s), StripRight(StripLeft(s)));
  }

  /** A character of `s.strip()` is a character of `s`. */
  lemma StripChars(s: string, c: char)
    requires c in Strip(s)
    ensures c in s
  {
    StripSurrounds(s);
    SurroundedChars(s, Strip(s), c);
  }

  lemma SurroundedChars(s: string, r: string, c: char)
    requires Surrounds(s, r) && c in r
    ensures c in s
  {
    var a :| 0 <= a <= |s| - |r| && SurroundsAt(s, r, a);
    var i :| 0 <= i < |r| && r[i] == c;
    assert s[a + i] == c;
  }

  /** `r` lies in `s` between whitespace when it is a left strip's right
      strip. */
  lemma StripParts(s: string, l: string, r: string)
    requires |l| <= |s| && l == s[|s| - |l|..] && AllSpace(s[..|s| - |l|])
    requires |r| <= |l| && r == l[..|r|] && AllSpace(l[|r|..]) && (l == [] || !IsSpace(l[0]))
    requires r == [] || !IsSpace(r[|r| - 1])
    ensures Surrounds(s, r)
    ensures Trimmed(r)
    ensures r == [] <==> AllSpace(s)
  {
    var a := |s| - |l|;
    assert s[a..a + |r|] == l[..|r|];
    assert s[a + |r|..] == l[|r|..];
    assert SurroundsAt(s, r, a);
    if r == [] {
      assert l[|r|..] == l;
      assert s[..|s| - |l|] == s;
    } else {
      assert s[a] == r[0];
    }
  }

  /** A text without surrounding whitespace is its own strip. */
  lemma StripClean(s: string)
    requires Trimmed(s)
    ensures Strip(s) == s
  {
  }

  /** `sep.join(parts)` */
  function Join(parts: seq<string>, sep: char): string
    decreases |parts|
  {
    if |parts| == 0 then []
    else if |parts| == 1 then parts[0]
    else parts[0] + [sep] + Join(parts[1..], sep)
  }

  /** `s.split(sep)` for a one-character separator: the pieces between the
      separators, in order; joining them again gives back `s`. */
  function Split(s: string, sep: char): (parts: seq<string>)
    ensures |parts| >= 1
    ensures forall k | 0 <= k < |parts| :: sep !in parts[k]
    ensures Join(parts, sep) == s
    decreases |s|
  {
    if s == [] then [[]]
    else
      var rest := Split(s[1..], sep);
      if s[0] == sep then
        assert Join([[]] + rest, sep) == [sep] + Join(rest, sep) by {
          assert ([[]] + rest)[1..] == rest;
        }
        [[]] + rest
      else
        var parts := [[s[0]] + rest[0]] + rest[1..];
        assert Join(parts, sep) == s by {
          if |rest| > 1 {
            assert parts[1..] == rest[1..];
            assert Join(rest, sep) == rest[0] + [sep] + Join(rest[1..], sep);
          }
          assert s == [s[0]] + s[1..];
        }
        parts
  }

  /** A text without the separator is one piece. */
  lemma {:induction false} NoSep(s: string, sep: char)
    requires sep !in s
    ensures Split(s, sep) == [s]
    decreases |s|
  {
    if s != [] {
      NoSep(s[1..], sep);
      assert [s[0]] + s[1..] == s;
    }
  }

  /** Splitting stops at the first separator. */
  lemma {:induction false} SplitAfter(a: string, sep: char, t: string)
    requires sep !in a
    ensures Split(a + [sep] + t, sep) == [a] + Split(t, sep)
    decreases |a|
  {
    if a == [] {
      assert [] + [sep] + t == [sep] + t;
      assert ([sep] + t)[1..] == t;
    } else {
      var s := a + [sep] + t;
      assert s[0] == a[0] && a[0] != sep;
      assert s[1..] == a[1..] + [sep] + t;
      SplitAfter(a[1..], sep, t);
      var rest := Split(s[1..], sep);
      assert rest[0] == a[1..] && rest[1..] == Split(t, sep);
      assert Split(s, sep) == [[s[0]] + rest[0]] + rest[1..];
      assert [a[0]] + a[1..] == a;
    }
  }

  /** Splitting undoes joining pieces that do not contain the separator. */
  lemma {:induction false} SplitJoin(parts: seq<string>, sep: char)
    requires |parts| >= 1 && forall k | 0 <= k < |parts| :: sep !in parts[k]
    ensures Split(Join(parts, sep), sep) == parts
    decreases |parts|
  {
    if |parts| == 1 {
      NoSep(parts[0], sep);
    } else {
      SplitJoin(parts[1..], sep);
      SplitAfter(parts[0], sep, Join(parts[1..], sep));
      assert [parts[0]] + parts[1..] == parts;
    }
  }

  /** `lstrip` of a text followed by a space. */
  lemma {:induction false} StripLeftSpace(s: string, c: char)
    requires IsSpace(c)
    ensures StripLeft(s + [c]) == if AllSpace(s) then [] else StripLeft(s) + [c]
    decreases |s|
  {
    if s == [] {
      assert [] + [c] == [c];
      assert [c][1..] == [];
    } else if IsSpace(s[0]) {
      StripLeftSpace(s[1..], c);
      assert (s + [c])[1..] == s[1..] + [c];
      assert AllSpace(s) == AllSpace(s[1..]) by {
        assert forall k | 0 <= k < |s[1..]| :: s[1..][k] == s[k + 1];
      }
    }
  }

  /** A trailing space does not change `str.strip()`. */
  lemma StripSpace(s: string, c: char)
    requires IsSpace(c)
    ensures Strip(s + [c]) == Strip(s)
  {
    StripLeftSpace(s, c);
    if AllSpace(s) {
      StripEmpty(s);
    } else {
      var l := StripLeft(s);
      assert (l + [c])[..|l + [c]| - 1] == l;
    }
  }

  /** ASCII `str.lower()`. */
  function Lower(s: string): (r: string)
    ensures |r| == |s|
    ensures forall k | 0 <= k < |s| :: r[k] == ToLower(s[k])
    ensures forall k | 0 <= k < |r| :: !('A' <= r[k] <= 'Z')
  {
    seq(|s|, k requires 0 <= k < |s| => ToLower(s[k]))
  }
}
