/** Option and Result, the two failure-compatible wrappers the model uses for
    Python's `None` results and raised exceptions. */
module Wrappers {

  datatype Option<+T> = None | Some(value: T) {
    function GetOr(default: T): T {
      match this
      case Some(v) => v
      case None => default
    }
  }

  /** `Err` stands for a Python exception escaping the modelled function; the
      message names the exception. */
  datatype Result<+T> = Ok(value: T) | Err(error: string)

  /** A loop that appends the output of `f` for each item in turn and stops
      at the first error. */
  function Collect<X, Y>(xs: seq<X>, f: X -> Result<seq<Y>>): Result<seq<Y>>
    decreases |xs|
  {
    if xs == [] then Ok([])
    else
      match f(xs[0])
      case Err(e) => Err(e)
      case Ok(out) =>
        match Collect(xs[1..], f)
        case Err(e) => Err(e)
        case Ok(rest) => Ok(out + rest)
  }

  /** A run that succeeds on two pieces writes the output of each in turn. */
  lemma {:induction false} CollectAppend<X, Y>(a: seq<X>, b: seq<X>, f: X -> Result<seq<Y>>)
    requires Collect(a + b, f).Ok?
    ensures Collect(a, f).Ok? && Collect(b, f).Ok?
    ensures Collect(a + b, f).value == Collect(a, f).value + Collect(b, f).value
    decreases |a|
  {
    if a == [] {
      assert a + b == b;
    } else {
      assert (a + b)[0] == a[0] && (a + b)[1..] == a[1..] + b;
      CollectAppend(a[1..], b, f);
      var first := f(a[0]).value;
      var r1, rb := Collect(a[1..], f).value, Collect(b, f).value;
      assert first + (r1 + rb) == (first + r1) + rb;
    }
  }

  /** In a run that succeeds, the output for item `i` follows the output for
      the items before it. */
  lemma CollectAt<X, Y>(xs: seq<X>, f: X -> Result<seq<Y>>, i: nat)
    requires Collect(xs, f).Ok? && i < |xs|
    ensures f(xs[i]).Ok? && Collect(xs[..i], f).Ok?
    ensures var out, before, piece := Collect(xs, f).value, Collect(xs[..i], f).value, f(xs[i]).value;
      |before| + |piece| <= |out| && out[|before|..|before| + |piece|] == piece
  {
    assert xs == xs[..i] + xs[i..];
    CollectAppend(xs[..i], xs[i..], f);
    var tail := xs[i..];
    assert tail[0] == xs[i];
    var before, piece, after := Collect(xs[..i], f).value, f(xs[i]).value, Collect(tail[1..], f).value;
    assert Collect(tail, f).value == piece + after;
    assert (before + (piece + after))[|before|..|before| + |piece|] == piece;
  }
}
