/**
 * The pieces of Python's `str` that the log extractors rely on: `isspace`,
 * `strip`, `startswith`, `in`, `lower`, `split` and `re.findall` of one
 * character class.
 */
module Text {
  import opened Wrappers

  /**
   * `str.isspace()` for one character; CPython's regex engine uses the same
   * set for `\s` in a str pattern.
   */
  predicate IsSpace(c: char)
  {
    var n := c as int;
    || (9 <= n <= 13) || (28 <= n <= 32) || n == 0x85 || n == 0xA0 || n == 0x1680
    || (0x2000 <= n <= 0x200A) || n == 0x2028 || n == 0x2029 || n == 0x202F
    || n == 0x205F || n == 0x3000
  }

  /** An ASCII decimal digit. */
  predicate IsDigit(c: char)
  {
    '0' <= c <= '9'
  }

  /** The character classes the extractors' regular expressions repeat. */
  datatype CharClass =
    | Digits           // \d
    | DigitsDots       // [\d.]
    | DigitsDotsMinus  // [-\d.]
    | Whitespace       // \s
    | NotNewline       // .

  predicate InClass(c: char, cls: CharClass)
  {
    match cls
    case Digits => IsDigit(c)
    case DigitsDots => IsDigit(c) || c == '.'
    case DigitsDotsMinus => IsDigit(c) || c == '.' || c == '-'
    case Whitespace => IsSpace(c)
    case NotNewline => c != '\n'
  }

  predicate AllIn(s: string, cls: CharClass)
  {
    forall k :: 0 <= k < |s| ==> InClass(s[k], cls)
  }

  /** End of the longest run of `cls` characters starting at `i`: a greedy `[cls]*` at `i`. */
  function RunEnd(s: string, i: nat, cls: CharClass): (r: nat)
    requires i <= |s|
    ensures i <= r <= |s|
    ensures forall k :: i <= k < r ==> InClass(s[k], cls)
    ensures r == |s| || !InClass(s[r], cls)
    decreases |s| - i
  {
    if i < |s| && InClass(s[i], cls) then RunEnd(s, i + 1, cls) else i
  }

  /** `lit` occurs in `s` at position `i`. */
  predicate HasAt(s: string, i: nat, lit: string)
  {
    i + |lit| <= |s| && s[i..i + |lit|] == lit
  }

  /** `s.startswith(lit)`. */
  predicate StartsWith(s: string, lit: string)
  {
    HasAt(s, 0, lit)
  }

  /** `lit in s`. */
  predicate Contains(s: string, lit: string)
  {
    exists i :: 0 <= i <= |s| && HasAt(s, i, lit)
  }

  /** ASCII lower case; every other character is left alone. */
  function FoldCase(c: char): char
  {
    if 'A' <= c <= 'Z' then (c as int - 'A' as int + 'a' as int) as char else c
  }

  /**
   * `s.lower()` as far as searching it for a lower-case ASCII word goes:
   * of the non-ASCII characters only U+212A and U+0130 lower to ASCII, and
   * neither can complete "gap", "ambiguity" or "overall".
   */
  function Lower(s: string): (r: string)
    ensures |r| == |s|
    ensures forall k :: 0 <= k < |s| ==> r[k] == FoldCase(s[k])
  {
    seq(|s|, k requires 0 <= k < |s| => FoldCase(s[k]))
  }

  /** `lit` occurs at `i` when ASCII letters are compared without regard to case (`re.I`). */
  predicate HasAtCaseless(s: string, i: nat, lit: string)
  {
    i + |lit| <= |s| && forall k :: 0 <= k < |lit| ==> FoldCase(s[i + k]) == FoldCase(lit[k])
  }

  /**
   * Searching the lower-cased text for a lower-case word finds it exactly
   * where the original text holds the word up to the case of ASCII letters.
   */
  lemma LowerContains(s: string, w: string)
    requires forall k :: 0 <= k < |w| ==> FoldCase(w[k]) == w[k]
    ensures Contains(Lower(s), w) <==> exists i :: 0 <= i <= |s| && HasAtCaseless(s, i, w)
  {
    var low := Lower(s);
    forall i | 0 <= i <= |s| ensures HasAt(low, i, w) <==> HasAtCaseless(s, i, w) {
      if i + |w| <= |s| {
        if HasAtCaseless(s, i, w) {
          forall k | 0 <= k < |w| ensures low[i..i + |w|][k] == w[k] { assert low[i..i + |w|][k] == low[i + k]; }
        }
        if HasAt(low, i, w) {
          forall k | 0 <= k < |w| ensures FoldCase(s[i + k]) == FoldCase(w[k]) { assert low[i..i + |w|][k] == low[i + k]; }
        }
      }
    }
  }

  /** How many whitespace characters `s` starts with: where `s.lstrip()` begins. */
  function LeadingSpace(s: string): (n: nat)
    ensures n <= |s| && (n == |s| || !IsSpace(s[n]))
    ensures forall k :: 0 <= k < n ==> IsSpace(s[k])
    decreases |s|
  {
    if |s| == 0 || !IsSpace(s[0]) then 0
    else
      var n := LeadingSpace(s[1..]);
      assert forall k :: 1 <= k < n + 1 ==> s[k] == s[1..][k - 1];
      n + 1
  }

  /** Where the trailing whitespace of `s` begins: where `s.rstrip()` ends. */
  function TextEnd(s: string): (m: nat)
    ensures m <= |s| && (m == 0 || !IsSpace(s[m - 1]))
    ensures forall k :: m <= k < |s| ==> IsSpace(s[k])
    decreases |s|
  {
    if |s| == 0 || !IsSpace(s[|s| - 1]) then |s|
    else
      var m := TextEnd(s[..|s| - 1]);
      assert forall k :: 0 <= k < |s| - 1 ==> s[k] == s[..|s| - 1][k];
      m
  }

  /**
   * `s.strip()`: the slice of `s` that starts after its leading whitespace
   * and leaves only whitespace behind it.
   */
  function Strip(s: string): (r: string)
    ensures LeadingSpace(s) + |r| <= |s| && r == s[LeadingSpace(s)..LeadingSpace(s) + |r|]
    ensures forall k :: LeadingSpace(s) + |r| <= k < |s| ==> IsSpace(s[k])
    ensures r == [] || (!IsSpace(r[0]) && !IsSpace(r[|r| - 1]))
    ensures (|s| == 0 || (!IsSpace(s[0]) && !IsSpace(s[|s| - 1]))) ==> r == s
  {
    var a := LeadingSpace(s);
    var b := TextEnd(s);
    if a == |s| then []
    else
      assert !IsSpace(s[a]);
      s[a..b]
  }

  /** Stripping keeps only characters of `s`, so it keeps any class they all belong to. */
  lemma StripKeepsClass(s: string, cls: CharClass)
    requires AllIn(s, cls)
    ensures AllIn(Strip(s), cls)
  {
    var r := Strip(s);
    var a := LeadingSpace(s);
    SliceKeepsClass(s, a, a + |r|, cls);
  }

  /** A slice keeps any class all characters of the text belong to. */
  lemma SliceKeepsClass(s: string, a: nat, b: nat, cls: CharClass)
    requires a <= b <= |s| && AllIn(s, cls)
    ensures AllIn(s[a..b], cls)
  {
    var t := s[a..b];
    forall k | 0 <= k < |t|
      ensures InClass(t[k], cls)
    {
      assert t[k] == s[a + k];
    }
  }

  /** Position of the first `c` in `s` (`s.find(c)`, with None for -1). */
  function IndexOf(s: string, c: char): (r: Option<nat>)
    ensures r.Some? ==> r.value < |s| && s[r.value] == c && c !in s[..r.value]
    ensures r.None? ==> c !in s
  {
    if |s| == 0 then None
    else if s[0] == c then Some(0)
    else match IndexOf(s[1..], c)
      case None => None
      case Some(i) => assert s[..i + 1] == [s[0]] + s[1..][..i]; Some(i + 1)
  }

  /** `s.split(sep)` for a one-character separator. */
  function Split(s: string, sep: char): (parts: seq<string>)
    ensures |parts| >= 1
    ensures forall k :: 0 <= k < |parts| ==> sep !in parts[k]
    decreases |s|
  {
    match IndexOf(s, sep)
    case None => [s]
    case Some(i) => [s[..i]] + Split(s[i + 1..], sep)
  }

  /** `sep.join(parts)`. */
  function Join(parts: seq<string>, sep: char): string
  {
    if |parts| == 0 then ""
    else if |parts| == 1 then parts[0]
    else parts[0] + [sep] + Join(parts[1..], sep)
  }

  /** Joining the pieces of a split gives the text back. */
  lemma {:induction false} JoinSplit(s: string, sep: char)
    ensures Join(Split(s, sep), sep) == s
    decreases |s|
  {
    match IndexOf(s, sep)
    case None =>
    case Some(i) =>
      calc {
        Join(Split(s, sep), sep);
        Join([s[..i]] + Split(s[i + 1..], sep), sep);
        { JoinCons(s[..i], Split(s[i + 1..], sep), sep); }
        s[..i] + [sep] + Join(Split(s[i + 1..], sep), sep);
        { JoinSplit(s[i + 1..], sep); }
        s[..i] + [sep] + s[i + 1..];
        { Rejoin(s, i); }
        s;
      }
  }

  /** Joining a first piece in front of at least one more puts a separator between them. */
  lemma JoinCons(head: string, tail: seq<string>, sep: char)
    requires |tail| >= 1
    ensures Join([head] + tail, sep) == head + [sep] + Join(tail, sep)
  {
    assert ([head] + tail)[1..] == tail;
  }

  /** A text is its part before `i`, its character at `i`, and its part after. */
  lemma Rejoin(s: string, i: nat)
    requires i < |s|
    ensures s[..i] + [s[i]] + s[i + 1..] == s
  {
  }

  /** Splitting a join of separator-free pieces gives the pieces back. */
  lemma {:induction false} SplitJoin(parts: seq<string>, sep: char)
    requires |parts| >= 1
    requires forall k :: 0 <= k < |parts| ==> sep !in parts[k]
    ensures Split(Join(parts, sep), sep) == parts
    decreases |parts|
  {
    if |parts| > 1 {
      var s := Join(parts, sep);
      var rest := Join(parts[1..], sep);
      assert s == parts[0] + [sep] + rest;
      assert s[|parts[0]|] == sep;
      assert s[..|parts[0]|] == parts[0];
      assert IndexOf(s, sep) == Some(|parts[0]|);
      assert s[|parts[0]| + 1..] == rest;
      SplitJoin(parts[1..], sep);
    }
  }

  /** Index of the first `cls` character of `s`, or `|s|` when there is none. */
  function FirstIn(s: string, cls: CharClass): (r: nat)
    ensures r <= |s|
    ensures forall k :: 0 <= k < r ==> !InClass(s[k], cls)
    ensures r < |s| ==> InClass(s[r], cls)
  {
    if |s| == 0 || InClass(s[0], cls) then 0 else 1 + FirstIn(s[1..], cls)
  }

  /**
   * `re.findall("[cls]+", s)`: the leftmost match starts at the first class
   * character and, being greedy, runs to the next character outside the class;
   * the search then resumes after it.
   */
  function Runs(s: string, cls: CharClass): (r: seq<string>)
    ensures forall k :: 0 <= k < |r| ==> |r[k]| > 0 && AllIn(r[k], cls)
    decreases |s|
  {
    var i := FirstIn(s, cls);
    if i == |s| then []
    else
      var e := RunEnd(s, i, cls);
      [s[i..e]] + Runs(s[e..], cls)
  }

  /** `s[a..b]` is a run of `cls` that cannot be extended to either side. */
  predicate IsMaximalRun(s: string, a: nat, b: nat, cls: CharClass)
  {
    && a < b <= |s|
    && (forall k :: a <= k < b ==> InClass(s[k], cls))
    && (a == 0 || !InClass(s[a - 1], cls))
    && (b == |s| || !InClass(s[b], cls))
  }

  /** Spans moved `d` characters to the right. */
  function Shift(spans: seq<(nat, nat)>, d: nat): (r: seq<(nat, nat)>)
    ensures |r| == |spans|
    ensures forall k :: 0 <= k < |r| ==> r[k] == (spans[k].0 + d, spans[k].1 + d)
  {
    seq(|spans|, k requires 0 <= k < |spans| => (spans[k].0 + d, spans[k].1 + d))
  }

  /**
   * Where the runs `re.findall("[cls]+", s)` reports lie: the maximal runs of
   * the class, from left to right, with every class character inside one.
   */
  function RunSpans(s: string, cls: CharClass): (r: seq<(nat, nat)>)
    ensures forall k :: 0 <= k < |r| ==> IsMaximalRun(s, r[k].0, r[k].1, cls)
    ensures forall k :: 0 < k < |r| ==> r[k - 1].1 < r[k].0
    ensures forall j :: 0 <= j < |s| && InClass(s[j], cls) ==> exists k :: 0 <= k < |r| && r[k].0 <= j < r[k].1
    decreases |s|
  {
    var i := FirstIn(s, cls);
    if i == |s| then []
    else
      var e := RunEnd(s, i, cls);
      var rest := RunSpans(s[e..], cls);
      var r := [(i, e)] + Shift(rest, e);
      SpansOfTail(s, cls, i, e, rest, r);
      SpansOfTailCover(s, cls, i, e, rest, r);
      r
  }

  /** A maximal run of the text after a non-class character is one of the whole text, moved into place. */
  lemma ShiftedRun(s: string, e: nat, a: nat, b: nat, cls: CharClass)
    requires e <= |s| && (e == |s| || !InClass(s[e], cls))
    requires IsMaximalRun(s[e..], a, b, cls)
    ensures 0 < a && IsMaximalRun(s, a + e, b + e, cls)
  {
    var t := s[e..];
    assert InClass(t[a], cls);
    assert a > 0 by { assert e < |s| ==> t[0] == s[e]; }
    forall x | a + e <= x < b + e ensures InClass(s[x], cls) { assert s[x] == t[x - e]; }
    assert s[a + e - 1] == t[a - 1];
    assert b + e < |s| ==> s[b + e] == t[b];
  }

  /** The first run followed by the runs of the text after it, moved into place. */
  lemma SpansOfTail(s: string, cls: CharClass, i: nat, e: nat, rest: seq<(nat, nat)>, r: seq<(nat, nat)>)
    requires i == FirstIn(s, cls) && i < |s| && e == RunEnd(s, i, cls)
    requires forall k :: 0 <= k < |rest| ==> IsMaximalRun(s[e..], rest[k].0, rest[k].1, cls)
    requires forall k :: 0 < k < |rest| ==> rest[k - 1].1 < rest[k].0
    requires r == [(i, e)] + Shift(rest, e)
    ensures forall k :: 0 <= k < |r| ==> IsMaximalRun(s, r[k].0, r[k].1, cls)
    ensures forall k :: 0 < k < |r| ==> r[k - 1].1 < r[k].0
  {
    SpansOfTailMaximal(s, cls, i, e, rest, r);
    SpansOfTailOrdered(s, cls, i, e, rest, r);
  }

  lemma SpansOfTailMaximal(s: string, cls: CharClass, i: nat, e: nat, rest: seq<(nat, nat)>, r: seq<(nat, nat)>)
    requires i == FirstIn(s, cls) && i < |s| && e == RunEnd(s, i, cls)
    requires forall k :: 0 <= k < |rest| ==> IsMaximalRun(s[e..], rest[k].0, rest[k].1, cls)
    requires r == [(i, e)] + Shift(rest, e)
    ensures forall k :: 0 <= k < |r| ==> IsMaximalRun(s, r[k].0, r[k].1, cls) && (k > 0 ==> r[k].0 > e)
  {
    forall k | 0 <= k < |r| ensures IsMaximalRun(s, r[k].0, r[k].1, cls) && (k > 0 ==> r[k].0 > e) {
      if k > 0 {
        TailSpan(s, cls, e, rest, r, k);
      }
    }
  }

  lemma SpansOfTailOrdered(s: string, cls: CharClass, i: nat, e: nat, rest: seq<(nat, nat)>, r: seq<(nat, nat)>)
    requires e <= |s|
    requires forall k :: 0 <= k < |r| ==> k > 0 ==> r[k].0 > e
    requires forall k :: 0 < k < |rest| ==> rest[k - 1].1 < rest[k].0
    requires |r| > 0 && r[0].1 == e && r == [(i, e)] + Shift(rest, e)
    ensures forall k :: 0 < k < |r| ==> r[k - 1].1 < r[k].0
  {
    forall k | 1 < k < |r| ensures r[k - 1].1 < r[k].0 {
      assert r[k - 1] == (rest[k - 2].0 + e, rest[k - 2].1 + e);
      assert r[k] == (rest[k - 1].0 + e, rest[k - 1].1 + e);
    }
  }

  /** A later span is a maximal run of the text after the first one, moved into place. */
  lemma TailSpan(s: string, cls: CharClass, e: nat, rest: seq<(nat, nat)>, r: seq<(nat, nat)>, k: nat)
    requires e <= |s| && (e == |s| || !InClass(s[e], cls))
    requires 0 < k < |r| && |r| == |rest| + 1
    requires IsMaximalRun(s[e..], rest[k - 1].0, rest[k - 1].1, cls)
    requires r[k] == (rest[k - 1].0 + e, rest[k - 1].1 + e)
    ensures IsMaximalRun(s, r[k].0, r[k].1, cls) && r[k].0 > e
  {
    ShiftedRun(s, e, rest[k - 1].0, rest[k - 1].1, cls);
  }

  /** Every class character lies in the first run or in a run of the text after it. */
  lemma SpansOfTailCover(s: string, cls: CharClass, i: nat, e: nat, rest: seq<(nat, nat)>, r: seq<(nat, nat)>)
    requires i == FirstIn(s, cls) && i < |s| && e == RunEnd(s, i, cls)
    requires forall j :: 0 <= j < |s[e..]| && InClass(s[e..][j], cls) ==>
               exists k :: 0 <= k < |rest| && rest[k].0 <= j < rest[k].1
    requires r == [(i, e)] + Shift(rest, e)
    ensures forall j :: 0 <= j < |s| && InClass(s[j], cls) ==> exists k :: 0 <= k < |r| && r[k].0 <= j < r[k].1
  {
    forall j | 0 <= j < |s| && InClass(s[j], cls) ensures exists k :: 0 <= k < |r| && r[k].0 <= j < r[k].1 {
      if j < e {
        assert r[0].0 <= j < r[0].1;
      } else {
        assert s[e..][j - e] == s[j];
        var k :| 0 <= k < |rest| && rest[k].0 <= j - e < rest[k].1;
        assert r[k + 1] == (rest[k].0 + e, rest[k].1 + e);
      }
    }
  }

  /** The texts `findall` returns are those of RunSpans, in the same order. */
  lemma {:induction false} RunsAreSpanTexts(s: string, cls: CharClass)
    ensures |Runs(s, cls)| == |RunSpans(s, cls)|
    ensures forall k :: 0 <= k < |Runs(s, cls)| ==> Runs(s, cls)[k] == s[RunSpans(s, cls)[k].0..RunSpans(s, cls)[k].1]
    decreases |s|
  {
    var i := FirstIn(s, cls);
    if i < |s| {
      var e := RunEnd(s, i, cls);
      RunsAreSpanTexts(s[e..], cls);
      TailTexts(s, i, e, Runs(s[e..], cls), RunSpans(s[e..], cls), Runs(s, cls), RunSpans(s, cls));
    }
  }

  /** Texts of the tail's spans are the texts of those spans moved into place. */
  lemma TailTexts(s: string, i: nat, e: nat, runs: seq<string>, spans: seq<(nat, nat)>, allRuns: seq<string>, allSpans: seq<(nat, nat)>)
    requires i < e <= |s| && |runs| == |spans|
    requires forall k :: 0 <= k < |spans| ==> spans[k].0 <= spans[k].1 <= |s| - e
    requires forall k :: 0 <= k < |runs| ==> runs[k] == s[e..][spans[k].0..spans[k].1]
    requires allRuns == [s[i..e]] + runs && allSpans == [(i, e)] + Shift(spans, e)
    ensures |allRuns| == |allSpans|
    ensures forall k :: 0 <= k < |allRuns| ==> allSpans[k].0 <= allSpans[k].1 <= |s| && allRuns[k] == s[allSpans[k].0..allSpans[k].1]
  {
    forall k | 0 < k < |allRuns| ensures allSpans[k].0 <= allSpans[k].1 <= |s| && allRuns[k] == s[allSpans[k].0..allSpans[k].1] {
      var (a, b) := spans[k - 1];
      assert allRuns[k] == s[e..][a..b];
      assert allSpans[k] == (a + e, b + e);
      assert s[e..][a..b] == s[a + e..b + e];
    }
  }
  /** No character of `s` is in the class. */
  predicate NoneIn(s: string, cls: CharClass)
  {
    forall k :: 0 <= k < |s| ==> !InClass(s[k], cls)
  }

  /** FirstIn is the only position with no class character before it and one at it (or the end). */
  lemma FirstInUnique(s: string, q: nat, cls: CharClass)
    requires q <= |s| && (forall k :: 0 <= k < q ==> !InClass(s[k], cls))
    requires q == |s| || InClass(s[q], cls)
    ensures FirstIn(s, cls) == q
  {
  }

  /** RunEnd is the only end of a run of the class that the next character does not continue. */
  lemma RunEndUnique(s: string, i: nat, b: nat, cls: CharClass)
    requires i <= b <= |s| && (forall k :: i <= k < b ==> InClass(s[k], cls))
    requires b == |s| || !InClass(s[b], cls)
    ensures RunEnd(s, i, cls) == b
  {
  }

  /** Text without class characters contributes no run, and does not change the runs after it. */
  lemma RunsSkip(x: string, y: string, cls: CharClass)
    requires NoneIn(x, cls)
    ensures Runs(x + y, cls) == Runs(y, cls)
  {
    SkipFirstIn(x, y, cls);
    RunsShifted(x, y, FirstIn(y, cls), cls);
  }

  /** When the first class character of `x + y` is that of `y`, the runs of both are the same. */
  lemma RunsShifted(x: string, y: string, q: nat, cls: CharClass)
    requires q == FirstIn(y, cls) && FirstIn(x + y, cls) == |x| + q
    ensures Runs(x + y, cls) == Runs(y, cls)
  {
    var s := x + y;
    if q < |y| {
      SkipRunEnd(x, y, q, cls);
      RunsShiftedFrom(x, y, q, RunEnd(y, q, cls), cls);
    } else {
      RunsUnfold(s, |s|, |s|, cls);
      RunsUnfold(y, |y|, |y|, cls);
    }
  }

  lemma RunsShiftedFrom(x: string, y: string, q: nat, e: nat, cls: CharClass)
    requires q < |y| && q == FirstIn(y, cls) && FirstIn(x + y, cls) == |x| + q
    requires e == RunEnd(y, q, cls) && RunEnd(x + y, |x| + q, cls) == |x| + e
    ensures Runs(x + y, cls) == Runs(y, cls)
  {
    SkipSlices(x, y, q, e);
    RunsSameFirst(x + y, |x| + q, |x| + e, y, q, e, cls);
  }

  /** Two texts whose first runs and what follows them agree have the same runs. */
  lemma RunsSameFirst(s: string, i: nat, e: nat, t: string, j: nat, f: nat, cls: CharClass)
    requires FirstIn(s, cls) == i < |s| && RunEnd(s, i, cls) == e
    requires FirstIn(t, cls) == j < |t| && RunEnd(t, j, cls) == f
    requires s[i..e] == t[j..f] && s[e..] == t[f..]
    ensures Runs(s, cls) == Runs(t, cls)
  {
    RunsUnfold(s, i, e, cls);
    RunsUnfold(t, j, f, cls);
  }

  /** The runs of `s` once its first run is known to span `i..e`; none when `i` is the end. */
  lemma RunsUnfold(s: string, i: nat, e: nat, cls: CharClass)
    requires FirstIn(s, cls) == i && (i < |s| ==> RunEnd(s, i, cls) == e) && (i == |s| ==> e == i)
    ensures i == |s| ==> Runs(s, cls) == []
    ensures i < |s| ==> e <= |s| && Runs(s, cls) == [s[i..e]] + Runs(s[e..], cls)
  {
  }

  /** The first class character of `x + y` is the first one of `y`, moved by `|x|`. */
  lemma SkipFirstIn(x: string, y: string, cls: CharClass)
    requires NoneIn(x, cls)
    ensures FirstIn(x + y, cls) == |x| + FirstIn(y, cls)
  {
    var s := x + y;
    var q := FirstIn(y, cls);
    forall k | 0 <= k < |x| + q ensures !InClass(s[k], cls) {
      if k >= |x| { assert s[k] == y[k - |x|]; }
    }
    assert |x| + q < |s| ==> s[|x| + q] == y[q];
    FirstInUnique(s, |x| + q, cls);
  }

  /** A run of `y` ends at the same place, moved by `|x|`, in `x + y`. */
  lemma SkipRunEnd(x: string, y: string, q: nat, cls: CharClass)
    requires q <= |y|
    ensures RunEnd(x + y, |x| + q, cls) == |x| + RunEnd(y, q, cls)
  {
    var s := x + y;
    var e := RunEnd(y, q, cls);
    forall k | |x| + q <= k < |x| + e ensures InClass(s[k], cls) { assert s[k] == y[k - |x|]; }
    assert |x| + e < |s| ==> s[|x| + e] == y[e];
    RunEndUnique(s, |x| + q, |x| + e, cls);
  }

  lemma SkipSlices(x: string, y: string, q: nat, e: nat)
    requires q <= e <= |y|
    ensures (x + y)[|x| + q..|x| + e] == y[q..e] && (x + y)[|x| + e..] == y[e..]
  {
  }

  /** A run at the start of the text, not continued by what follows, is the first run reported. */
  lemma RunsHead(t: string, y: string, cls: CharClass)
    requires |t| > 0 && AllIn(t, cls) && (|y| == 0 || !InClass(y[0], cls))
    ensures Runs(t + y, cls) == [t] + Runs(y, cls)
  {
    var s := t + y;
    assert s[0] == t[0];
    forall k | 0 <= k < |t| ensures InClass(s[k], cls) { assert s[k] == t[k]; }
    assert |t| < |s| ==> s[|t|] == y[0];
    RunEndUnique(s, 0, |t|, cls);
    assert s[0..|t|] == t && s[|t|..] == y;
  }

  /** Text without class characters has no run. */
  lemma RunsNone(s: string, cls: CharClass)
    requires NoneIn(s, cls)
    ensures Runs(s, cls) == []
  {
    FirstInUnique(s, |s|, cls);
  }

  /** One run between text without class characters is the only run. */
  lemma RunsOfOne(head: string, x: string, post: string, cls: CharClass)
    requires NoneIn(head, cls) && NoneIn(post, cls) && |x| > 0 && AllIn(x, cls)
    ensures Runs(head + x + post, cls) == [x]
  {
    assert head + x + post == head + (x + post);
    RunsSkip(head, x + post, cls);
    RunsHead(x, post, cls);
    RunsNone(post, cls);
  }

  /** Two runs kept apart by text without class characters are the only two runs. */
  lemma RunsOfTwo(head: string, x: string, mid: string, y: string, post: string, cls: CharClass)
    requires NoneIn(head, cls) && NoneIn(mid, cls) && NoneIn(post, cls) && |mid| > 0
    requires |x| > 0 && AllIn(x, cls) && |y| > 0 && AllIn(y, cls)
    ensures Runs(head + x + mid + y + post, cls) == [x, y]
  {
    var rest := mid + y + post;
    NestRight(head, x, mid, y, post);
    assert rest[0] == mid[0];
    RunsSkip(head, x + rest, cls);
    RunsHead(x, rest, cls);
    RunsOfOne(mid, y, post, cls);
    PairOfSingletons(x, y);
  }

  lemma NestRight(a: string, b: string, c: string, d: string, e: string)
    ensures a + b + c + d + e == a + (b + (c + d + e))
  {
    assert a + b + c + d + e == a + (b + c + d + e);
    assert b + c + d + e == b + (c + d + e);
  }

  lemma PairOfSingletons<T>(x: T, y: T)
    ensures [x] + [y] == [x, y]
  {
  }

  /** With whitespace exactly before `a` and from `b` on, `strip()` leaves `s[a..b]`. */
  lemma StripKnown(s: string, a: nat, b: nat)
    requires a < b <= |s| && !IsSpace(s[a]) && !IsSpace(s[b - 1])
    requires forall k :: 0 <= k < a ==> IsSpace(s[k])
    requires forall k :: b <= k < |s| ==> IsSpace(s[k])
    ensures Strip(s) == s[a..b]
  {
    LeadingSpaceIs(s, a);
    var r := Strip(s);
    StrippedLength(s, a, b, r);
  }

  /** Whitespace exactly before a non-space character at `a` is the leading whitespace. */
  lemma LeadingSpaceIs(s: string, a: nat)
    requires a < |s| && !IsSpace(s[a]) && forall k :: 0 <= k < a ==> IsSpace(s[k])
    ensures LeadingSpace(s) == a
  {
    var n := LeadingSpace(s);
    assert n <= a by {
      assert forall k :: 0 <= k < n ==> IsSpace(s[k]);
    }
    assert n >= a by {
      assert n == |s| || !IsSpace(s[n]);
    }
  }

  /** The stripped text starting at `a` runs to the last non-space character before `b`. */
  lemma StrippedLength(s: string, a: nat, b: nat, r: string)
    requires a < b <= |s| && !IsSpace(s[a]) && !IsSpace(s[b - 1])
    requires forall k :: b <= k < |s| ==> IsSpace(s[k])
    requires a + |r| <= |s| && r == s[a..a + |r|]
    requires forall k :: a + |r| <= k < |s| ==> IsSpace(s[k])
    requires r == [] || !IsSpace(r[|r| - 1])
    ensures r == s[a..b]
  {
    assert a + |r| > b - 1;
    assert r != [] && r[|r| - 1] == s[a + |r| - 1];
    assert a + |r| - 1 < b;
  }

  /** The first `c` of `s` is the one with no `c` before it. */
  lemma IndexOfUnique(s: string, c: char, k: nat)
    requires k < |s| && s[k] == c && c !in s[..k]
    ensures IndexOf(s, c) == Some(k)
  {
    match IndexOf(s, c)
    case None =>
    case Some(m) =>
      assert forall j :: 0 <= j < k ==> s[..k][j] == s[j];
      assert forall j :: 0 <= j < m ==> s[..m][j] == s[j];
  }

  /** A text without some character of `lit` does not contain `lit`. */
  lemma LacksLetter(s: string, lit: string, k: nat)
    requires k < |lit| && lit[k] !in s
    ensures !Contains(s, lit)
  {
    forall i | 0 <= i <= |s|
      ensures !HasAt(s, i, lit)
    {
      if i + |lit| <= |s| {
        assert s[i..i + |lit|][k] == s[i + k];
      }
    }
  }

  /** No character of `s` folds to `c`. */
  predicate FoldFree(s: string, c: char)
  {
    forall j :: 0 <= j < |s| ==> FoldCase(s[j]) != c
  }

  lemma FoldFreeConcat(x: string, y: string, c: char)
    requires FoldFree(x, c) && FoldFree(y, c)
    ensures FoldFree(x + y, c)
  {
    assert forall j :: |x| <= j < |x + y| ==> (x + y)[j] == y[j - |x|];
  }

  /** Concatenation regrouped: three pieces in a row may be read as the one they make. */
  lemma Regroup(x: string, p: string, w: string, q: string, g: string, post: string, mid: string)
    requires mid == p + w + q
    ensures x + p + w + q + g + post == x + mid + g + post
  {
  }

  /** A text where the character `lit` has at `k` occurs only at `p + k`, and `lit` is not at `p`, does not contain `lit`. */
  lemma LetterOnlyAt(s: string, lit: string, k: nat, p: nat)
    requires k < |lit| && !HasAt(s, p, lit)
    requires forall j :: 0 <= j < |s| && s[j] == lit[k] ==> j == p + k
    ensures !Contains(s, lit)
  {
    forall i | 0 <= i <= |s|
      ensures !HasAt(s, i, lit)
    {
      if i + |lit| <= |s| {
        assert s[i..i + |lit|][k] == s[i + k];
      }
    }
  }

  /**
   * `lit` read without regard to case starts nowhere before `p` when the
   * character it has at `k` occurs, up to case, neither before `p + k` in
   * `s` nor earlier in `lit`.
   */
  lemma NoCaselessBefore(s: string, lit: string, k: nat, p: nat)
    requires k < |lit| && p + k <= |s|
    requires forall j :: 0 <= j < p + k ==> FoldCase(s[j]) != FoldCase(lit[k])
    ensures forall i :: 0 <= i < p ==> !HasAtCaseless(s, i, lit)
  {
    forall i | 0 <= i < p
      ensures !HasAtCaseless(s, i, lit)
    {
      assert FoldCase(s[i + k]) != FoldCase(lit[k]);
    }
  }
}
