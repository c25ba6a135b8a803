/**
 * Reference definitions for the two ways a line scanner can keep a value:
 * the last line that yields one wins, or the first line that yields one wins.
 */
module Scans {
  import opened Wrappers

  /** The value `f` yields on the last element of `xs` that yields one. */
  function LastSome<X, T>(xs: seq<X>, f: X -> Option<T>): Option<T>
    decreases |xs|
  {
    if |xs| == 0 then None
    else if f(xs[|xs| - 1]).Some? then f(xs[|xs| - 1])
    else LastSome(xs[..|xs| - 1], f)
  }

  /** The value `f` yields on the first element of `xs` that yields one. */
  function FirstSome<X, T>(xs: seq<X>, f: X -> Option<T>): Option<T>
    decreases |xs|
  {
    if |xs| == 0 then None
    else if f(xs[0]).Some? then f(xs[0])
    else FirstSome(xs[1..], f)
  }

  /** LastSome finds a value exactly when some element yields one. */
  lemma {:induction false} LastSomeFound<X, T>(xs: seq<X>, f: X -> Option<T>)
    ensures LastSome(xs, f).Some? <==> exists i :: 0 <= i < |xs| && f(xs[i]).Some?
    decreases |xs|
  {
    if |xs| > 0 && f(xs[|xs| - 1]).None? {
      var init := xs[..|xs| - 1];
      LastSomeFound(init, f);
      if exists i :: 0 <= i < |xs| && f(xs[i]).Some? {
        var i :| 0 <= i < |xs| && f(xs[i]).Some?;
        assert init[i] == xs[i];
      }
    }
  }

  /** When LastSome finds a value, it is the one of the latest element that yields any. */
  lemma {:induction false} LastSomeIsLatest<X, T>(xs: seq<X>, f: X -> Option<T>, i: nat)
    requires i < |xs| && f(xs[i]).Some?
    requires forall j :: i < j < |xs| ==> f(xs[j]).None?
    ensures LastSome(xs, f) == f(xs[i])
    decreases |xs|
  {
    if i < |xs| - 1 {
      var init := xs[..|xs| - 1];
      assert init[i] == xs[i];
      assert forall j :: i < j < |init| ==> f(init[j]).None? by {
        forall j | i < j < |init| ensures f(init[j]).None? { assert init[j] == xs[j]; }
      }
      LastSomeIsLatest(init, f, i);
    }
  }

  /** Appending an element only matters to FirstSome when nothing before it yielded a value. */
  lemma {:induction false} FirstSomeAppend<X, T>(xs: seq<X>, x: X, f: X -> Option<T>)
    ensures FirstSome(xs + [x], f) == if FirstSome(xs, f).Some? then FirstSome(xs, f) else f(x)
    decreases |xs|
  {
    if |xs| > 0 {
      assert (xs + [x])[0] == xs[0];
      assert (xs + [x])[1..] == xs[1..] + [x];
      FirstSomeAppend(xs[1..], x, f);
    }
  }

  /** FirstSome finds a value exactly when some element yields one, and then it is the earliest one. */
  lemma {:induction false} FirstSomeIsEarliest<X, T>(xs: seq<X>, f: X -> Option<T>)
    ensures FirstSome(xs, f).Some? <==> exists i :: 0 <= i < |xs| && f(xs[i]).Some?
    ensures forall i :: 0 <= i < |xs| && f(xs[i]).Some? && (forall j :: 0 <= j < i ==> f(xs[j]).None?) ==>
              FirstSome(xs, f) == f(xs[i])
    decreases |xs|
  {
    if |xs| > 0 {
      var rest := xs[1..];
      FirstSomeIsEarliest(rest, f);
      assert forall i :: 0 <= i < |rest| ==> rest[i] == xs[i + 1];
      if f(xs[0]).None? {
        if exists i :: 0 <= i < |xs| && f(xs[i]).Some? {
          var i :| 0 <= i < |xs| && f(xs[i]).Some?;
          assert f(rest[i - 1]).Some?;
        }
        forall i | 0 <= i < |xs| && f(xs[i]).Some? && (forall j :: 0 <= j < i ==> f(xs[j]).None?)
          ensures FirstSome(xs, f) == f(xs[i])
        {
          assert 0 < i;
          assert forall j :: 0 <= j < i - 1 ==> f(rest[j]).None? by {
            forall j | 0 <= j < i - 1 ensures f(rest[j]).None? { assert rest[j] == xs[j + 1]; }
          }
        }
      }
    }
  }

  /**
   * A loop over `reversed(xs)` that returns at the first element yielding a
   * value: it computes LastSome, and says which element it stopped at.
   */
  method FindLast<X, T>(xs: seq<X>, f: X -> Option<T>) returns (r: Option<T>)
    ensures r.Some? <==> exists i :: 0 <= i < |xs| && f(xs[i]).Some?
    ensures r.Some? ==> exists i :: 0 <= i < |xs| && f(xs[i]) == r &&
                          forall j :: i < j < |xs| ==> f(xs[j]).None?
    ensures r == LastSome(xs, f)
  {
    LastSomeFound(xs, f);
    var i := |xs|;
    while i > 0
      invariant 0 <= i <= |xs|
      invariant forall j :: i <= j < |xs| ==> f(xs[j]).None?
    {
      i := i - 1;
      var x := f(xs[i]);
      if x.Some? {
        LastSomeIsLatest(xs, f, i);
        return x;
      }
    }
    return None;
  }
}
