/**
 * The regular expressions of the log extractors, each as a matcher at one
 * position, together with Python's `re.search` (leftmost match) and
 * `re.finditer` (successive non-overlapping leftmost matches).
 *
 * Every pattern here is made of greedy runs whose following element cannot
 * begin with a character of the run, so the backtracking engine never gives
 * characters back, with two exceptions handled explicitly: `[0-9]*\.?[0-9]+`
 * (DecimalEnd) and `\s*(.+)` at the very end of the text (RestOfLine).
 */
module Regex {
  import opened Wrappers
  import opened Text
  import opened Numbers

  /** How a `name:` is separated from the value it introduces. */
  datatype Gap =
    | OneSpace  // "label: (...)"
    | AnySpace  // "label:\s*(...)"

  datatype Pattern =
    /** `(\d+)\s+distinct patterns`, ignoring case */
    | DistinctPatterns
    /** `with\s+(\d+)\s+columns`, ignoring case */
    | WithColumns
    /** `(\d+)\s+(?:constant|invariant)\s+sites`, ignoring case */
    | ConstantSites
    /** `([0-9]*\.?[0-9]+)%` */
    | Percentage
    /** `<word>\s+([0-9]*\.?[0-9]+)`, ignoring case */
    | NumberAfter(word: string)
    /** `([-+]?\d+\.\d+)` */
    | SignedFixedPoint
    /** `<name>:` then the gap, then `([cls]+)<suffix>`; the class holds no whitespace */
    | Field(name: string, gap: Gap, cls: CharClass, suffix: string)
    /** `<name>:` then the gap, then `(.+)` */
    | FieldText(name: string, gap: Gap)

  /** A match: where it starts and ends, and the text of its one group. */
  datatype Match = Match(start: nat, end: nat, group: string)

  /** What the group of each pattern can hold. */
  predicate GroupShape(p: Pattern, g: string)
  {
    match p
    case DistinctPatterns => IsDigitString(g)
    case WithColumns => IsDigitString(g)
    case ConstantSites => IsDigitString(g)
    case Percentage => IsUnsignedDecimal(g)
    case NumberAfter(_) => IsUnsignedDecimal(g)
    case SignedFixedPoint => IsSignedFixedPoint(g)
    case Field(_, _, cls, _) => |g| > 0 && AllIn(g, cls)
    case FieldText(_, _) => |g| > 0 && AllIn(g, NotNewline)
  }

  /**
   * End of the match of `[0-9]*\.?[0-9]+` at `k`: greedy digits, then a point
   * only if a digit follows it, otherwise the engine gives back characters
   * until the last one read is a digit.
   */
  function DecimalEnd(s: string, k: nat): (r: Option<nat>)
    requires k <= |s|
    ensures r.Some? ==> k < r.value <= |s| && IsUnsignedDecimal(s[k..r.value])
  {
    var e1 := RunEnd(s, k, Digits);
    if e1 + 1 < |s| && s[e1] == '.' && IsDigit(s[e1 + 1]) then
      var e2 := RunEnd(s, e1 + 1, Digits);
      PointedRunIsDecimal(s, k, e1, e2);
      Some(e2)
    else if e1 > k then
      DigitRunIsDecimal(s, k, e1);
      Some(e1)
    else None
  }

  /** Digits, a point, then at least one digit: an unsigned decimal. */
  lemma PointedRunIsDecimal(s: string, a: nat, dot: nat, b: nat)
    requires a <= dot < b <= |s| && s[dot] == '.'
    requires forall j :: a <= j < dot ==> IsDigit(s[j])
    requires dot + 1 < b && forall j :: dot < j < b ==> IsDigit(s[j])
    ensures IsUnsignedDecimal(s[a..b])
  {
    PointSplit(s, a, dot, b);
  }

  /** Digits around a single point: the point is the first one, and both sides are digits. */
  lemma PointSplit(s: string, a: nat, dot: nat, b: nat)
    requires a <= dot < b <= |s| && s[dot] == '.'
    requires forall j :: a <= j < dot ==> IsDigit(s[j])
    requires forall j :: dot < j < b ==> IsDigit(s[j])
    ensures IndexOf(s[a..b], '.') == Some(dot - a)
    ensures s[a..b][..dot - a] == s[a..dot] && AllIn(s[a..dot], Digits)
    ensures s[a..b][dot - a + 1..] == s[dot + 1..b] && AllIn(s[dot + 1..b], Digits)
  {
    CutAtPoint(s, a, dot, b);
    DigitSlice(s, a, dot);
    DigitSlice(s, dot + 1, b);
  }

  /** A slice of digits is all digits. */
  lemma DigitSlice(s: string, a: nat, b: nat)
    requires a <= b <= |s| && forall j :: a <= j < b ==> IsDigit(s[j])
    ensures AllIn(s[a..b], Digits)
  {
    var t := s[a..b];
    assert forall j :: 0 <= j < |t| ==> t[j] == s[a + j];
  }

  /** A non-empty run of digits is an unsigned decimal without a point. */
  lemma DigitRunIsDecimal(s: string, a: nat, b: nat)
    requires a < b <= |s| && forall j :: a <= j < b ==> IsDigit(s[j])
    ensures IsUnsignedDecimal(s[a..b])
  {
    var t := s[a..b];
    assert forall j :: 0 <= j < |t| ==> t[j] == s[a + j];
    assert '.' !in t;
  }

  /** Cutting `s[a..b]` at its first point, which lies after a run of digits. */
  lemma CutAtPoint(s: string, a: nat, dot: nat, b: nat)
    requires a <= dot < b <= |s| && s[dot] == '.'
    requires forall j :: a <= j < dot ==> IsDigit(s[j])
    ensures IndexOf(s[a..b], '.') == Some(dot - a)
    ensures s[a..b][..dot - a] == s[a..dot]
    ensures s[a..b][dot - a + 1..] == s[dot + 1..b]
  {
    assert s[a..b][dot - a] == '.';
    assert forall j :: 0 <= j < dot - a ==> s[a..b][j] == s[a + j];
  }

  /** In an unsigned decimal, a point is the only one and has a digit after it. */
  lemma DecimalPoint(t: string, i: nat)
    ensures IsUnsignedDecimal(t) && i < |t| && !IsDigit(t[i]) ==>
              t[i] == '.' && i + 1 < |t| && IsDigit(t[i + 1])
              && forall j :: 0 <= j < |t| && j != i ==> IsDigit(t[j])
  {
    if IsUnsignedDecimal(t) && i < |t| && !IsDigit(t[i]) {
      match IndexOf(t, '.')
      case None =>
      case Some(k) =>
        assert forall j :: 0 <= j < k ==> IsDigit(t[j]) by {
          forall j | 0 <= j < k ensures IsDigit(t[j]) { assert t[j] == t[..k][j]; }
        }
        assert forall j :: k < j < |t| ==> IsDigit(t[j]) by {
          forall j | k < j < |t| ensures IsDigit(t[j]) { assert t[j] == t[k + 1..][j - k - 1]; }
        }
        assert t[k + 1] == t[k + 1..][0];
    }
  }

  /** DecimalEnd picks the longest prefix of `s[k..]` that `[0-9]*\.?[0-9]+` matches in full. */
  lemma DecimalEndIsLongest(s: string, k: nat)
    requires k <= |s|
    ensures DecimalEnd(s, k).Some? ==> forall e :: DecimalEnd(s, k).value < e <= |s| ==> !IsUnsignedDecimal(s[k..e])
    ensures DecimalEnd(s, k).None? ==> forall e :: k < e <= |s| ==> !IsUnsignedDecimal(s[k..e])
  {
    var e1 := RunEnd(s, k, Digits);
    var dotDigit := e1 + 1 < |s| && s[e1] == '.' && IsDigit(s[e1 + 1]);
    forall e | k < e <= |s| && (DecimalEnd(s, k).None? || DecimalEnd(s, k).value < e)
      ensures !IsUnsignedDecimal(s[k..e])
    {
      var t := s[k..e];
      if dotDigit {
        var e2 := RunEnd(s, e1 + 1, Digits);
        assert e2 < e;
        DecimalPoint(t, e1 - k);
        DecimalPoint(t, e2 - k);
        assert t[e1 - k] == s[e1] && t[e2 - k] == s[e2];
      } else if e1 > k {
        assert e1 < e;
        DecimalPoint(t, e1 - k);
        assert t[e1 - k] == s[e1];
        assert e1 - k + 1 < |t| ==> t[e1 - k + 1] == s[e1 + 1];
      } else {
        DecimalPoint(t, 0);
        assert t[0] == s[k];
        assert 1 < |t| ==> t[1] == s[k + 1];
      }
    }
  }

  /** Where the value after `name:` starts, if the gap allows one. */
  function ValueStart(s: string, q: nat, gap: Gap): (r: Option<nat>)
    requires q <= |s|
    ensures r.Some? ==> q <= r.value <= |s|
  {
    match gap
    case OneSpace => if q < |s| && s[q] == ' ' then Some(q + 1) else None
    case AnySpace => Some(RunEnd(s, q, Whitespace))
  }

  /** The largest `k` in `[lo, hi)` with `s[k] != '\n'`. */
  function LastNonNewline(s: string, lo: nat, hi: nat): (r: Option<nat>)
    requires lo <= hi <= |s|
    ensures r.Some? ==> lo <= r.value < hi && s[r.value] != '\n'
    ensures r.Some? ==> forall k :: r.value < k < hi ==> s[k] == '\n'
    ensures r.None? ==> forall k :: lo <= k < hi ==> s[k] == '\n'
    decreases hi
  {
    if hi == lo then None
    else if s[hi - 1] != '\n' then Some(hi - 1)
    else LastNonNewline(s, lo, hi - 1)
  }

  /**
   * The `(.+)` after `name:` that starts at `i` and whose colon ends at `q`.
   * With `\s*` the whitespace may swallow newlines; when it reaches the end of
   * the text, the engine gives back whitespace until `.+` can take one
   * character that is not a newline.
   */
  function RestOfLine(s: string, i: nat, q: nat, gap: Gap): (r: Option<Match>)
    requires i < q <= |s|
    ensures r.Some? ==> r.value.start == i && i < r.value.end <= |s|
    ensures r.Some? ==> |r.value.group| > 0 && AllIn(r.value.group, NotNewline)
  {
    match gap
    case OneSpace =>
      if q < |s| && s[q] == ' ' then
        var e := RunEnd(s, q + 1, NotNewline);
        if e > q + 1 then Some(Match(i, e, s[q + 1..e])) else None
      else None
    case AnySpace =>
      var w := RunEnd(s, q, Whitespace);
      if w < |s| then
        var e := RunEnd(s, w, NotNewline);
        assert e > w by { assert s[w] != '\n'; }
        Some(Match(i, e, s[w..e]))
      else
        match LastNonNewline(s, q, w)
        case Some(k) => Some(Match(i, k + 1, s[k..k + 1]))
        case None => None
  }

  /** `(\d+)\s+distinct patterns`, ignoring case, at `i`. */
  function MatchDistinctPatterns(s: string, i: nat): (r: Option<Match>)
    requires i <= |s|
    ensures r.Some? ==> r.value.start == i && i < r.value.end <= |s| && IsDigitString(r.value.group)
  {
    var e := RunEnd(s, i, Digits);
    var w := RunEnd(s, e, Whitespace);
    if e > i && w > e && HasAtCaseless(s, w, "distinct patterns") then Some(Match(i, w + 17, s[i..e]))
    else None
  }

  /** `with\s+(\d+)\s+columns`, ignoring case, at `i`. */
  function MatchWithColumns(s: string, i: nat): (r: Option<Match>)
    requires i <= |s|
    ensures r.Some? ==> r.value.start == i && i < r.value.end <= |s| && IsDigitString(r.value.group)
  {
    if !HasAtCaseless(s, i, "with") then None
    else
      var w1 := RunEnd(s, i + 4, Whitespace);
      var e := RunEnd(s, w1, Digits);
      var w2 := RunEnd(s, e, Whitespace);
      if w1 > i + 4 && e > w1 && w2 > e && HasAtCaseless(s, w2, "columns") then Some(Match(i, w2 + 7, s[w1..e]))
      else None
  }

  /**
   * `(\d+)\s+(?:constant|invariant)\s+sites`, ignoring case, at `i`; the two
   * alternatives differ in their first letter, so at most one applies.
   */
  function MatchConstantSites(s: string, i: nat): (r: Option<Match>)
    requires i <= |s|
    ensures r.Some? ==> r.value.start == i && i < r.value.end <= |s| && IsDigitString(r.value.group)
  {
    var e := RunEnd(s, i, Digits);
    var w := RunEnd(s, e, Whitespace);
    var word := if HasAtCaseless(s, w, "constant") then 8 else if HasAtCaseless(s, w, "invariant") then 9 else 0;
    if e > i && w > e && word > 0 then
      var w2 := RunEnd(s, w + word, Whitespace);
      if w2 > w + word && HasAtCaseless(s, w2, "sites") then Some(Match(i, w2 + 5, s[i..e])) else None
    else None
  }

  /** `([0-9]*\.?[0-9]+)%` at `i`. */
  function MatchPercentage(s: string, i: nat): (r: Option<Match>)
    requires i <= |s|
    ensures r.Some? ==> r.value.start == i && i < r.value.end <= |s| && IsUnsignedDecimal(r.value.group)
  {
    match DecimalEnd(s, i)
    case Some(e) => if e < |s| && s[e] == '%' then Some(Match(i, e + 1, s[i..e])) else None
    case None => None
  }

  /** `<word>\s+([0-9]*\.?[0-9]+)`, ignoring case, at `i`. */
  function MatchNumberAfter(word: string, s: string, i: nat): (r: Option<Match>)
    requires i <= |s|
    ensures r.Some? ==> r.value.start == i && i < r.value.end <= |s| && IsUnsignedDecimal(r.value.group)
  {
    if !HasAtCaseless(s, i, word) then None
    else
      var w := RunEnd(s, i + |word|, Whitespace);
      if w == i + |word| then None
      else match DecimalEnd(s, w)
        case Some(e) => Some(Match(i, e, s[w..e]))
        case None => None
  }

  /**
   * `([-+]?\d+\.\d+)` at `i`; when a sign is taken and the rest fails, the
   * retry without it fails too, because `\d+` cannot start on a sign.
   */
  function MatchSignedFixedPoint(s: string, i: nat): (r: Option<Match>)
    requires i <= |s|
    ensures r.Some? ==> r.value.start == i && i < r.value.end <= |s| && IsSignedFixedPoint(r.value.group)
  {
    var d := if i < |s| && (s[i] == '+' || s[i] == '-') then i + 1 else i;
    var e1 := RunEnd(s, d, Digits);
    if e1 > d && e1 + 1 < |s| && s[e1] == '.' && IsDigit(s[e1 + 1]) then
      var e2 := RunEnd(s, e1 + 1, Digits);
      SignedFixedPointSlice(s, i, d, e1, e2);
      Some(Match(i, e2, s[i..e2]))
    else None
  }

  /** Digits from `d` to a point at `dot`, digits after it up to `e`, and at most a sign before `d`, read as `[-+]?\d+\.\d+`. */
  lemma SignedFixedPointSlice(s: string, i: nat, d: nat, dot: nat, e: nat)
    requires i <= d < dot && dot + 1 < e <= |s|
    requires d == i || (d == i + 1 && (s[i] == '+' || s[i] == '-'))
    requires forall j :: d <= j < dot ==> IsDigit(s[j])
    requires s[dot] == '.'
    requires forall j :: dot < j < e ==> IsDigit(s[j])
    ensures IsSignedFixedPoint(s[i..e])
  {
    assert SplitSign(s[i..e]).1 == s[d..e] by {
      assert d == i ==> s[i..e][0] == s[d];
    }
    PointSplit(s, d, dot, e);
  }

  /** `<name>:` then the gap, then `([cls]+)<suffix>`, at `i`. */
  function MatchField(name: string, gap: Gap, cls: CharClass, suffix: string, s: string, i: nat): (r: Option<Match>)
    requires i <= |s|
    ensures r.Some? ==> r.value.start == i && i < r.value.end <= |s| && |r.value.group| > 0 && AllIn(r.value.group, cls)
  {
    if !HasAt(s, i, name + ":") then None
    else match ValueStart(s, i + |name| + 1, gap)
      case None => None
      case Some(w) =>
        var e := RunEnd(s, w, cls);
        if e > w && HasAt(s, e, suffix) then Some(Match(i, e + |suffix|, s[w..e])) else None
  }

  /** The value classes of `Field`: none of them holds whitespace. */
  predicate SpaceFree(cls: CharClass)
  {
    cls.Digits? || cls.DigitsDots? || cls.DigitsDotsMinus?
  }

  /**
   * Where `name: ([cls]+)` matches, `name:\s*([cls]+)` matches too, with the
   * same group: the single blank is all the whitespace there is.
   */
  lemma OneSpaceFieldIsAnySpaceField(name: string, cls: CharClass, suffix: string, s: string, i: nat)
    requires SpaceFree(cls) && i <= |s|
    requires MatchField(name, OneSpace, cls, suffix, s, i).Some?
    ensures MatchField(name, AnySpace, cls, suffix, s, i) == MatchField(name, OneSpace, cls, suffix, s, i)
  {
    var q := i + |name| + 1;
    assert s[q] == ' ';
    assert InClass(s[q + 1], cls);
    assert !IsSpace(s[q + 1]);
    assert RunEnd(s, q + 1, Whitespace) == q + 1;
    assert RunEnd(s, q, Whitespace) == q + 1;
  }

  /** The match of `p` that starts exactly at `i`, if any. */
  function MatchAt(p: Pattern, s: string, i: nat): (r: Option<Match>)
    requires i <= |s|
    ensures r.Some? ==> r.value.start == i && i < r.value.end <= |s|
    ensures r.Some? ==> GroupShape(p, r.value.group)
  {
    match p
    case DistinctPatterns => MatchDistinctPatterns(s, i)
    case WithColumns => MatchWithColumns(s, i)
    case ConstantSites => MatchConstantSites(s, i)
    case Percentage => MatchPercentage(s, i)
    case NumberAfter(word) => MatchNumberAfter(word, s, i)
    case SignedFixedPoint => MatchSignedFixedPoint(s, i)
    case Field(name, gap, cls, suffix) => MatchField(name, gap, cls, suffix, s, i)
    case FieldText(name, gap) => if !HasAt(s, i, name + ":") then None else RestOfLine(s, i, i + |name| + 1, gap)
  }

  /** `re.search(p, s[from:])`: the match that starts leftmost. */
  function Search(p: Pattern, s: string, from: nat): (r: Option<Match>)
    requires from <= |s|
    ensures r.Some? ==> from <= r.value.start <= |s| && MatchAt(p, s, r.value.start) == r
    ensures r.Some? ==> forall i :: from <= i < r.value.start ==> MatchAt(p, s, i).None?
    ensures r.None? ==> forall i :: from <= i <= |s| ==> MatchAt(p, s, i).None?
    decreases |s| - from
  {
    if MatchAt(p, s, from).Some? then MatchAt(p, s, from)
    else if from == |s| then None
    else Search(p, s, from + 1)
  }

  /** `re.search(p, s).group(1)`: the group of the leftmost match, if any. */
  function FirstGroup(p: Pattern, s: string): (r: Option<string>)
    ensures r.Some? ==> GroupShape(p, r.value)
  {
    match Search(p, s, 0)
    case None => None
    case Some(m) => Some(m.group)
  }

  /** The group `re.search` reports is the one of the first position where `p` matches. */
  lemma FirstGroupIsLeftmost(p: Pattern, s: string, i: nat)
    requires i <= |s| && MatchAt(p, s, i).Some?
    requires forall j :: 0 <= j < i ==> MatchAt(p, s, j).None?
    ensures FirstGroup(p, s) == Some(MatchAt(p, s, i).value.group)
  {
    var m := Search(p, s, 0);
    assert m.Some? && m.value.start == i;
  }

  /** `re.search` finds nothing exactly when `p` matches nowhere. */
  lemma FirstGroupAbsent(p: Pattern, s: string)
    ensures FirstGroup(p, s).None? <==> forall i :: 0 <= i <= |s| ==> MatchAt(p, s, i).None?
  {
    if FirstGroup(p, s).Some? {
      var m := Search(p, s, 0).value;
      assert MatchAt(p, s, m.start).Some?;
    }
  }

  /**
   * Whatever `name: ([cls]+)<suffix>` finds, `name:\s*([cls]+)<suffix>` finds
   * as well, at the same place or earlier.
   */
  lemma AnySpaceFieldFindsNoLater(name: string, cls: CharClass, suffix: string, s: string)
    requires SpaceFree(cls)
    requires Search(Field(name, OneSpace, cls, suffix), s, 0).Some?
    ensures Search(Field(name, AnySpace, cls, suffix), s, 0).Some?
    ensures Search(Field(name, AnySpace, cls, suffix), s, 0).value.start <=
            Search(Field(name, OneSpace, cls, suffix), s, 0).value.start
  {
    var i := Search(Field(name, OneSpace, cls, suffix), s, 0).value.start;
    OneSpaceFieldIsAnySpaceField(name, cls, suffix, s, i);
    assert MatchAt(Field(name, AnySpace, cls, suffix), s, i).Some?;
  }

  /** `int()` of a group made of digits. */
  function GroupInt(g: Option<string>): (r: Option<int>)
    requires g.Some? ==> IsDigitString(g.value)
    ensures r.Some? <==> g.Some?
    ensures r.Some? ==> PyInt(g.value) == r && r.value >= 0
  {
    match g
    case None => None
    case Some(t) => PyIntOfDigitString(t); Some(DigitsValue(t) as int)
  }

  /** `float()` of a group made by `[0-9]*\.?[0-9]+`. */
  function GroupDecimal(g: Option<string>): (r: Option<real>)
    requires g.Some? ==> IsUnsignedDecimal(g.value)
    ensures r.Some? <==> g.Some?
    ensures r.Some? ==> r.value >= 0.0
  {
    match g
    case None => None
    case Some(t) => Some(DecimalValue(t))
  }

  /** `float()` of such a group never raises: it is the group's exact value. */
  lemma GroupDecimalIsFloat(g: Option<string>)
    requires g.Some? && IsUnsignedDecimal(g.value)
    ensures GroupDecimal(g) == PyFloat(g.value)
    ensures GroupDecimal(g) == Some(DecimalValue(g.value))
  {
    PyFloatOfUnsignedDecimal(g.value);
  }

  /** `re.finditer(p, s)` from `from`: each search resumes where the previous match ended. */
  function FindAll(p: Pattern, s: string, from: nat): (ms: seq<Match>)
    requires from <= |s|
    ensures forall k :: 0 <= k < |ms| ==> from <= ms[k].start < ms[k].end <= |s|
    ensures forall k :: 0 < k < |ms| ==> ms[k - 1].end <= ms[k].start
    decreases |s| - from
  {
    var found := Search(p, s, from);
    if found.None? then []
    else
      var m := found.value;
      var rest := FindAll(p, s, m.end);
      var ms := [m] + rest;
      assert ms[0] == m;
      assert forall k :: 0 < k < |ms| ==> ms[k] == rest[k - 1];
      ms
  }

  /** `finditer` after a match resumes at the end of that match. */
  lemma FindAllStep(p: Pattern, s: string, from: nat)
    requires from <= |s| && Search(p, s, from).Some?
    ensures FindAll(p, s, from) == [Search(p, s, from).value] + FindAll(p, s, Search(p, s, from).value.end)
  {
  }

  /** `m` is a match of `p` at its own start. */
  predicate IsMatchOf(p: Pattern, s: string, m: Match)
  {
    m.start <= |s| && MatchAt(p, s, m.start) == Some(m)
  }

  /** Each match `finditer` reports is a match of `p` at its own start. */
  lemma {:induction false} FindAllMatches(p: Pattern, s: string, from: nat)
    requires from <= |s|
    ensures forall k :: 0 <= k < |FindAll(p, s, from)| ==> IsMatchOf(p, s, FindAll(p, s, from)[k])
    decreases |s| - from
  {
    if Search(p, s, from).Some? {
      FindAllStep(p, s, from);
      FindAllMatches(p, s, Search(p, s, from).value.end);
      ConsAll(p, s, Search(p, s, from).value, FindAll(p, s, Search(p, s, from).value.end));
    }
  }

  /** A match put in front of a list of matches. */
  lemma ConsAll(p: Pattern, s: string, m: Match, rest: seq<Match>)
    requires IsMatchOf(p, s, m) && forall k :: 0 <= k < |rest| ==> IsMatchOf(p, s, rest[k])
    ensures forall k :: 0 <= k < |[m] + rest| ==> IsMatchOf(p, s, ([m] + rest)[k])
  {
    assert forall k :: 0 < k < |[m] + rest| ==> ([m] + rest)[k] == rest[k - 1];
  }

  /**
   * `finditer` misses nothing: every position where a match could start is
   * either the start of a reported match or inside one.
   */
  lemma {:induction false} FindAllCovers(p: Pattern, s: string, from: nat, i: nat)
    requires from <= i <= |s| && MatchAt(p, s, i).Some?
    ensures exists k :: 0 <= k < |FindAll(p, s, from)| &&
              (FindAll(p, s, from)[k].start == i ||
               FindAll(p, s, from)[k].start < i < FindAll(p, s, from)[k].end)
    decreases |s| - from
  {
    var ms := FindAll(p, s, from);
    var m := Search(p, s, from).value;
    assert ms[0] == m;
    if m.end <= i {
      FindAllCovers(p, s, m.end, i);
      var rest := FindAll(p, s, m.end);
      assert ms == [m] + rest;
      var k :| 0 <= k < |rest| && (rest[k].start == i || rest[k].start < i < rest[k].end);
      assert ms[k + 1] == rest[k];
    }
  }

  /**
   * `([0-9]*\.?[0-9]+)%` matches at `i` exactly when a decimal reaching up to
   * a `%` starts there.
   */
  lemma PercentageMeaning(s: string, i: nat)
    requires i <= |s|
    ensures MatchPercentage(s, i).Some? <==>
              exists j :: i < j < |s| && s[j] == '%' && IsUnsignedDecimal(s[i..j])
    ensures forall j :: i < j < |s| && s[j] == '%' && IsUnsignedDecimal(s[i..j]) ==>
              MatchPercentage(s, i).value.group == s[i..j]
  {
    DecimalEndIsLongest(s, i);
    forall j | i < j < |s| && s[j] == '%' && IsUnsignedDecimal(s[i..j])
      ensures DecimalEnd(s, i) == Some(j)
    {
      var e := DecimalEnd(s, i).value;
      DecimalPoint(s[i..e], j - i);
      assert forall x :: 0 <= x < e - i ==> s[i..e][x] == s[i + x];
    }
  }

  // ---------------------------------------------------------------------
  // What each pattern matches, stated without the greedy scan: a match
  // exists exactly when the text splits the way the pattern reads, and the
  // group is the one the backtracking engine reports first.
  // ---------------------------------------------------------------------

  /** `s[a..b]` is a non-empty stretch of `cls`: what `[cls]+` can take from `a` to `b`. */
  predicate RunOf(s: string, a: nat, b: nat, cls: CharClass)
  {
    a < b <= |s| && forall k :: a <= k < b ==> InClass(s[k], cls)
  }

  /** A word that starts with a lower-case letter, found ignoring case, starts with neither whitespace nor a digit. */
  lemma CaselessLetter(s: string, w: nat, lit: string)
    requires |lit| > 0 && 'a' <= lit[0] <= 'z' && HasAtCaseless(s, w, lit)
    ensures w < |s| && !IsSpace(s[w]) && !IsDigit(s[w]) && s[w] != '.'
  {
    assert FoldCase(s[w + 0]) == FoldCase(lit[0]);
  }

  /** A whitespace character is no digit. */
  lemma SpaceIsNoDigit(c: char)
    requires IsSpace(c)
    ensures !IsDigit(c) && c != '.'
  {
  }

  /** `(\d+)\s+distinct patterns` read at `i`: digits up to `e`, whitespace up to `w`, then the words. */
  predicate DistinctPatternsAt(s: string, i: nat, e: nat, w: nat)
  {
    RunOf(s, i, e, Digits) && RunOf(s, e, w, Whitespace) && HasAtCaseless(s, w, "distinct patterns")
  }

  lemma DistinctPatternsMeaning(s: string, i: nat)
    requires i <= |s|
    ensures MatchDistinctPatterns(s, i).Some? <==> exists e: nat, w: nat :: DistinctPatternsAt(s, i, e, w)
    ensures forall e: nat, w: nat :: DistinctPatternsAt(s, i, e, w) ==> MatchDistinctPatterns(s, i) == Some(Match(i, w + 17, s[i..e]))
  {
    var e0 := RunEnd(s, i, Digits);
    if MatchDistinctPatterns(s, i).Some? {
      assert DistinctPatternsAt(s, i, e0, RunEnd(s, e0, Whitespace));
    }
    forall e: nat, w: nat | DistinctPatternsAt(s, i, e, w)
      ensures MatchDistinctPatterns(s, i) == Some(Match(i, w + 17, s[i..e]))
    {
      SpaceIsNoDigit(s[e]);
      RunEndUnique(s, i, e, Digits);
      CaselessLetter(s, w, "distinct patterns");
      RunEndUnique(s, e, w, Whitespace);
    }
  }
  /** `with\s+(\d+)\s+columns` read at `i`: the word, whitespace up to `w1`, digits up to `e`, whitespace up to `w2`, the word. */
  predicate WithColumnsAt(s: string, i: nat, w1: nat, e: nat, w2: nat)
  {
    HasAtCaseless(s, i, "with") && RunOf(s, i + 4, w1, Whitespace) && RunOf(s, w1, e, Digits)
    && RunOf(s, e, w2, Whitespace) && HasAtCaseless(s, w2, "columns")
  }

  lemma WithColumnsMeaning(s: string, i: nat)
    requires i <= |s|
    ensures MatchWithColumns(s, i).Some? <==> exists w1: nat, e: nat, w2: nat :: WithColumnsAt(s, i, w1, e, w2)
    ensures forall w1: nat, e: nat, w2: nat :: WithColumnsAt(s, i, w1, e, w2) ==>
              MatchWithColumns(s, i) == Some(Match(i, w2 + 7, s[w1..e]))
  {
    if MatchWithColumns(s, i).Some? {
      WithColumnsRead(s, i);
    }
    forall w1: nat, e: nat, w2: nat | WithColumnsAt(s, i, w1, e, w2)
      ensures MatchWithColumns(s, i) == Some(Match(i, w2 + 7, s[w1..e]))
    {
      WithColumnsFound(s, i, w1, e, w2);
    }
  }

  /** The runs the match scans read the text the pattern's way. */
  lemma WithColumnsRead(s: string, i: nat)
    requires i <= |s| && MatchWithColumns(s, i).Some?
    ensures var w1 := RunEnd(s, i + 4, Whitespace); var e := RunEnd(s, w1, Digits);
      WithColumnsAt(s, i, w1, e, RunEnd(s, e, Whitespace))
  {
  }

  /** A reading of the pattern at `i` is the match reported there. */
  lemma WithColumnsFound(s: string, i: nat, w1: nat, e: nat, w2: nat)
    requires WithColumnsAt(s, i, w1, e, w2)
    ensures MatchWithColumns(s, i) == Some(Match(i, w2 + 7, s[w1..e]))
  {
    WithColumnsEnds(s, i, w1, e, w2);
  }

  /** Each run of such a reading ends where the scan stops. */
  lemma WithColumnsEnds(s: string, i: nat, w1: nat, e: nat, w2: nat)
    requires WithColumnsAt(s, i, w1, e, w2)
    ensures RunEnd(s, i + 4, Whitespace) == w1 && RunEnd(s, w1, Digits) == e && RunEnd(s, e, Whitespace) == w2
  {
    assert IsDigit(s[w1]);
    RunEndUnique(s, i + 4, w1, Whitespace);
    SpaceIsNoDigit(s[e]);
    RunEndUnique(s, w1, e, Digits);
    CaselessLetter(s, w2, "columns");
    RunEndUnique(s, e, w2, Whitespace);
  }

  /** `constant` or `invariant`, ignoring case, at `w`, ending at `v`. */
  predicate SitesWordAt(s: string, w: nat, v: nat)
  {
    (HasAtCaseless(s, w, "constant") && v == w + 8) || (HasAtCaseless(s, w, "invariant") && v == w + 9)
  }

  /** Only one of the two words can stand at `w`, and neither starts with whitespace. */
  lemma SitesWords(s: string, w: nat, v: nat)
    requires SitesWordAt(s, w, v)
    ensures !IsSpace(s[w]) && (HasAtCaseless(s, w, "constant") <==> v == w + 8)
  {
    assert "constant"[0] == 'c' && "invariant"[0] == 'i';
    if HasAtCaseless(s, w, "constant") {
      CaselessFirst(s, w, "constant");
      if HasAtCaseless(s, w, "invariant") {
        CaselessFirst(s, w, "invariant");
      }
    } else {
      CaselessFirst(s, w, "invariant");
    }
  }

  /** The first character of a caseless match folds to the first of the word. */
  lemma CaselessFirst(s: string, w: nat, lit: string)
    requires |lit| > 0 && HasAtCaseless(s, w, lit)
    ensures w < |s| && FoldCase(s[w]) == FoldCase(lit[0])
  {
    assert FoldCase(s[w + 0]) == FoldCase(lit[0]);
  }

  /** `(\d+)\s+(?:constant|invariant)\s+sites` read at `i`. */
  predicate ConstantSitesAt(s: string, i: nat, e: nat, w: nat, v: nat, w2: nat)
  {
    RunOf(s, i, e, Digits) && RunOf(s, e, w, Whitespace) && SitesWordAt(s, w, v)
    && RunOf(s, v, w2, Whitespace) && HasAtCaseless(s, w2, "sites")
  }

  lemma ConstantSitesMeaning(s: string, i: nat)
    requires i <= |s|
    ensures MatchConstantSites(s, i).Some? <==> exists e: nat, w: nat, v: nat, w2: nat :: ConstantSitesAt(s, i, e, w, v, w2)
    ensures forall e: nat, w: nat, v: nat, w2: nat :: ConstantSitesAt(s, i, e, w, v, w2) ==>
              MatchConstantSites(s, i) == Some(Match(i, w2 + 5, s[i..e]))
  {
    if MatchConstantSites(s, i).Some? {
      var e := RunEnd(s, i, Digits);
      var w := RunEnd(s, e, Whitespace);
      var v := if HasAtCaseless(s, w, "constant") then w + 8 else w + 9;
      ConstantSitesRead(s, i, e, w, v);
    }
    forall e: nat, w: nat, v: nat, w2: nat | ConstantSitesAt(s, i, e, w, v, w2)
      ensures MatchConstantSites(s, i) == Some(Match(i, w2 + 5, s[i..e]))
    {
      ConstantSitesFound(s, i, e, w, v, w2);
    }
  }

  /** The runs the match scans read the text the pattern's way. */
  lemma ConstantSitesRead(s: string, i: nat, e: nat, w: nat, v: nat)
    requires i <= |s| && MatchConstantSites(s, i).Some?
    requires e == RunEnd(s, i, Digits) && w == RunEnd(s, e, Whitespace)
    requires v == if HasAtCaseless(s, w, "constant") then w + 8 else w + 9
    ensures ConstantSitesAt(s, i, e, w, v, RunEnd(s, v, Whitespace))
  {
  }

  /** A reading of the pattern at `i` is the match reported there. */
  lemma ConstantSitesFound(s: string, i: nat, e: nat, w: nat, v: nat, w2: nat)
    requires ConstantSitesAt(s, i, e, w, v, w2)
    ensures MatchConstantSites(s, i) == Some(Match(i, w2 + 5, s[i..e]))
  {
    ConstantSitesEnds(s, i, e, w, v, w2);
    SitesWords(s, w, v);
  }

  /** Each run of such a reading ends where the scan stops. */
  lemma ConstantSitesEnds(s: string, i: nat, e: nat, w: nat, v: nat, w2: nat)
    requires ConstantSitesAt(s, i, e, w, v, w2)
    ensures RunEnd(s, i, Digits) == e && RunEnd(s, e, Whitespace) == w && RunEnd(s, v, Whitespace) == w2
  {
    SpaceIsNoDigit(s[e]);
    RunEndUnique(s, i, e, Digits);
    SitesWords(s, w, v);
    RunEndUnique(s, e, w, Whitespace);
    CaselessLetter(s, w2, "sites");
    RunEndUnique(s, v, w2, Whitespace);
  }

  /** `<word>\s+([0-9]*\.?[0-9]+)` read at `i`: the word, whitespace up to `w`, a decimal from `w` to `e`. */
  predicate NumberAfterAt(word: string, s: string, i: nat, w: nat, e: nat)
  {
    HasAtCaseless(s, i, word) && RunOf(s, i + |word|, w, Whitespace) && w < e <= |s| && IsUnsignedDecimal(s[w..e])
  }

  /** No decimal starting at `w` reaches past `e`. */
  predicate LongestDecimal(s: string, w: nat, e: nat)
  {
    forall x :: e < x <= |s| && w <= x ==> !IsUnsignedDecimal(s[w..x])
  }

  /**
   * The match exists exactly when the text reads that way, and its group is
   * the longest decimal there.
   */
  lemma NumberAfterMeaning(word: string, s: string, i: nat)
    requires i <= |s|
    ensures MatchNumberAfter(word, s, i).Some? <==> exists w: nat, e: nat :: NumberAfterAt(word, s, i, w, e)
    ensures forall w: nat, e: nat :: NumberAfterAt(word, s, i, w, e) && LongestDecimal(s, w, e) ==>
              MatchNumberAfter(word, s, i) == Some(Match(i, e, s[w..e]))
  {
    if MatchNumberAfter(word, s, i).Some? {
      NumberAfterRead(word, s, i);
      var w := RunEnd(s, i + |word|, Whitespace);
      assert NumberAfterAt(word, s, i, w, DecimalEnd(s, w).value);
    }
    forall w: nat, e: nat | NumberAfterAt(word, s, i, w, e)
      ensures MatchNumberAfter(word, s, i).Some?
      ensures LongestDecimal(s, w, e) ==> MatchNumberAfter(word, s, i) == Some(Match(i, e, s[w..e]))
    {
      NumberAfterFound(word, s, i, w, e);
    }
  }

  /** The runs the match scans read the text the pattern's way. */
  lemma NumberAfterRead(word: string, s: string, i: nat)
    requires i <= |s| && MatchNumberAfter(word, s, i).Some?
    ensures var w := RunEnd(s, i + |word|, Whitespace);
            DecimalEnd(s, w).Some? && NumberAfterAt(word, s, i, w, DecimalEnd(s, w).value)
  {
  }

  /** A decimal after the word is matched, and the longest one is the group reported. */
  lemma NumberAfterFound(word: string, s: string, i: nat, w: nat, e: nat)
    requires NumberAfterAt(word, s, i, w, e)
    ensures MatchNumberAfter(word, s, i).Some?
    ensures LongestDecimal(s, w, e) ==> MatchNumberAfter(word, s, i) == Some(Match(i, e, s[w..e]))
  {
    DecimalStartsPlain(s, w, e);
    RunEndUnique(s, i + |word|, w, Whitespace);
    DecimalEndAt(s, w, e);
    NumberAfterByEnds(word, s, i, w, DecimalEnd(s, w).value);
  }

  /** With the whitespace ending at `w` and the decimal scan at `d`, the match is the decimal. */
  lemma NumberAfterByEnds(word: string, s: string, i: nat, w: nat, d: nat)
    requires HasAtCaseless(s, i, word) && i + |word| < w <= |s| && RunEnd(s, i + |word|, Whitespace) == w
    requires DecimalEnd(s, w) == Some(d)
    ensures MatchNumberAfter(word, s, i) == Some(Match(i, d, s[w..d]))
  {
  }

  /** A decimal from `w` to `e` makes the scan find one there, ending at `e` when none is longer. */
  lemma DecimalEndAt(s: string, w: nat, e: nat)
    requires w < e <= |s| && IsUnsignedDecimal(s[w..e])
    ensures DecimalEnd(s, w).Some?
    ensures LongestDecimal(s, w, e) ==> DecimalEnd(s, w) == Some(e)
  {
    DecimalEndIsLongest(s, w);
  }

  /** A decimal starts with a digit or a point, neither of them whitespace. */
  lemma DecimalStartsPlain(s: string, w: nat, e: nat)
    requires w < e <= |s| && IsUnsignedDecimal(s[w..e])
    ensures !IsSpace(s[w])
  {
    assert s[w..e][0] == s[w];
    if !IsDigit(s[w]) {
      DecimalPoint(s[w..e], 0);
    }
  }

  /** `([-+]?\d+\.\d+)` read at `i`: an optional sign, digits from `d` to the point at `dot`, digits up to `e`. */
  predicate FixedPointAt(s: string, i: nat, d: nat, dot: nat, e: nat)
  {
    (d == i || (d == i + 1 && i < |s| && (s[i] == '+' || s[i] == '-')))
    && RunOf(s, d, dot, Digits) && dot < |s| && s[dot] == '.' && RunOf(s, dot + 1, e, Digits)
  }

  lemma SignedFixedPointMeaning(s: string, i: nat)
    requires i <= |s|
    ensures MatchSignedFixedPoint(s, i).Some? <==> exists d: nat, dot: nat, e: nat :: FixedPointAt(s, i, d, dot, e)
    ensures forall d: nat, dot: nat, e: nat :: FixedPointAt(s, i, d, dot, e) && (e == |s| || !IsDigit(s[e])) ==>
              MatchSignedFixedPoint(s, i) == Some(Match(i, e, s[i..e]))
  {
    if MatchSignedFixedPoint(s, i).Some? {
      var d := if i < |s| && (s[i] == '+' || s[i] == '-') then i + 1 else i;
      SignedFixedPointRead(s, i, d, RunEnd(s, d, Digits));
    }
    forall d: nat, dot: nat, e: nat | FixedPointAt(s, i, d, dot, e) && (e == |s| || !IsDigit(s[e]))
      ensures MatchSignedFixedPoint(s, i) == Some(Match(i, e, s[i..e]))
    {
      FixedPointFound(s, i, d, dot, e);
    }
  }

  /** The runs the match scans read the text the pattern's way. */
  lemma SignedFixedPointRead(s: string, i: nat, d: nat, dot: nat)
    requires i <= |s| && MatchSignedFixedPoint(s, i).Some?
    requires d == (if i < |s| && (s[i] == '+' || s[i] == '-') then i + 1 else i) && d <= |s| && dot == RunEnd(s, d, Digits)
    ensures dot + 1 <= |s| && FixedPointAt(s, i, d, dot, RunEnd(s, dot + 1, Digits))
  {
    assert d < dot && dot + 1 < |s| && s[dot] == '.' && IsDigit(s[dot + 1]);
    RunOfEnd(s, d, Digits);
    RunOfEnd(s, dot + 1, Digits);
  }

  /** A run the scan takes from `a` is a stretch of the class, when non-empty. */
  lemma RunOfEnd(s: string, a: nat, cls: CharClass)
    requires a < |s| && InClass(s[a], cls)
    ensures RunOf(s, a, RunEnd(s, a, cls), cls)
  {
  }

  /** A fixed-point number read in full at `i` is the one the match reports. */
  lemma FixedPointFound(s: string, i: nat, d: nat, dot: nat, e: nat)
    requires FixedPointAt(s, i, d, dot, e) && (e == |s| || !IsDigit(s[e]))
    ensures MatchSignedFixedPoint(s, i) == Some(Match(i, e, s[i..e]))
  {
    var d0 := if i < |s| && (s[i] == '+' || s[i] == '-') then i + 1 else i;
    assert d == d0 by {
      if d == i { assert IsDigit(s[i]); }
    }
    RunEndUnique(s, d, dot, Digits);
    assert IsDigit(s[dot + 1]);
    RunEndUnique(s, dot + 1, e, Digits);
  }

  /** What the gap after `name:` can take, from `q` up to `w`. */
  predicate GapAt(s: string, q: nat, w: nat, gap: Gap)
  {
    match gap
    case OneSpace => q < |s| && s[q] == ' ' && w == q + 1
    case AnySpace => q <= w <= |s| && forall k :: q <= k < w ==> IsSpace(s[k])
  }

  /** `<name>:`, the gap up to `w`, `[cls]+` from `w` to `e`, then the suffix, read at `i`. */
  predicate FieldAt(name: string, gap: Gap, cls: CharClass, suffix: string, s: string, i: nat, w: nat, e: nat)
  {
    HasAt(s, i, name + ":") && GapAt(s, i + |name| + 1, w, gap) && RunOf(s, w, e, cls) && HasAt(s, e, suffix)
  }

  /**
   * For the value classes in use, whose suffix cannot continue the value,
   * the field matches exactly when the text reads that way, and the group is
   * the whole run of the class.
   */
  lemma FieldMeaning(name: string, gap: Gap, cls: CharClass, suffix: string, s: string, i: nat)
    requires i <= |s| && SpaceFree(cls) && (suffix == [] || !InClass(suffix[0], cls))
    ensures MatchField(name, gap, cls, suffix, s, i).Some? <==> exists w: nat, e: nat :: FieldAt(name, gap, cls, suffix, s, i, w, e)
    ensures forall w: nat, e: nat :: FieldAt(name, gap, cls, suffix, s, i, w, e) && (e == |s| || !InClass(s[e], cls)) ==>
              MatchField(name, gap, cls, suffix, s, i) == Some(Match(i, e + |suffix|, s[w..e]))
  {
    var q := i + |name| + 1;
    if MatchField(name, gap, cls, suffix, s, i).Some? {
      var w := ValueStart(s, q, gap).value;
      assert FieldAt(name, gap, cls, suffix, s, i, w, RunEnd(s, w, cls));
    }
    forall w: nat, e: nat | FieldAt(name, gap, cls, suffix, s, i, w, e)
      ensures MatchField(name, gap, cls, suffix, s, i).Some?
      ensures e == |s| || !InClass(s[e], cls) ==> MatchField(name, gap, cls, suffix, s, i) == Some(Match(i, e + |suffix|, s[w..e]))
    {
      FieldFound(name, gap, cls, suffix, s, i, w, e);
    }
  }

  /** A field read at `i` is matched; when its run is the whole run of the class, with that very run as the group. */
  lemma FieldFound(name: string, gap: Gap, cls: CharClass, suffix: string, s: string, i: nat, w: nat, e: nat)
    requires SpaceFree(cls) && (suffix == [] || !InClass(suffix[0], cls))
    requires FieldAt(name, gap, cls, suffix, s, i, w, e)
    ensures MatchField(name, gap, cls, suffix, s, i).Some?
    ensures e == |s| || !InClass(s[e], cls) ==> MatchField(name, gap, cls, suffix, s, i) == Some(Match(i, e + |suffix|, s[w..e]))
  {
    FieldMatched(name, gap, cls, suffix, s, i, w, e);
    if e == |s| || !InClass(s[e], cls) {
      FieldExact(name, gap, cls, suffix, s, i, w, e);
    }
  }

  lemma FieldMatched(name: string, gap: Gap, cls: CharClass, suffix: string, s: string, i: nat, w: nat, e: nat)
    requires SpaceFree(cls) && (suffix == [] || !InClass(suffix[0], cls))
    requires FieldAt(name, gap, cls, suffix, s, i, w, e)
    ensures MatchField(name, gap, cls, suffix, s, i).Some?
  {
    GapEnds(s, i + |name| + 1, w, gap, cls);
    FieldRun(s, w, e, cls, suffix);
  }

  lemma FieldExact(name: string, gap: Gap, cls: CharClass, suffix: string, s: string, i: nat, w: nat, e: nat)
    requires SpaceFree(cls) && (suffix == [] || !InClass(suffix[0], cls))
    requires FieldAt(name, gap, cls, suffix, s, i, w, e) && (e == |s| || !InClass(s[e], cls))
    ensures MatchField(name, gap, cls, suffix, s, i) == Some(Match(i, e + |suffix|, s[w..e]))
  {
    GapEnds(s, i + |name| + 1, w, gap, cls);
    FieldRun(s, w, e, cls, suffix);
  }

  /** A gap followed by a character of a class without whitespace ends where ValueStart says. */
  lemma GapEnds(s: string, q: nat, w: nat, gap: Gap, cls: CharClass)
    requires SpaceFree(cls) && q <= |s| && GapAt(s, q, w, gap) && w < |s| && InClass(s[w], cls)
    ensures ValueStart(s, q, gap) == Some(w)
  {
    assert !IsSpace(s[w]);
    if gap.AnySpace? {
      RunEndUnique(s, q, w, Whitespace);
    }
  }

  /** The run of the class from `w` reaches at least `e`, and exactly `e` when the suffix or the text's end stops it there. */
  lemma FieldRun(s: string, w: nat, e: nat, cls: CharClass, suffix: string)
    requires RunOf(s, w, e, cls) && HasAt(s, e, suffix) && (suffix == [] || !InClass(suffix[0], cls))
    ensures RunEnd(s, w, cls) > w && HasAt(s, RunEnd(s, w, cls), suffix)
    ensures e == |s| || !InClass(s[e], cls) ==> RunEnd(s, w, cls) == e
  {
    if suffix != [] {
      assert s[e] == s[e..e + |suffix|][0];
      RunEndUnique(s, w, e, cls);
    } else if e == |s| || !InClass(s[e], cls) {
      RunEndUnique(s, w, e, cls);
    } else {
      assert RunEnd(s, w, cls) >= e;
    }
  }

  /** Whitespace after the colon, through `w`, then a stretch of the line from `w` to `e`: what `\s*(.+)` or ` (.+)` can read. */
  predicate RestOfLineAt(s: string, q: nat, gap: Gap, w: nat, e: nat)
  {
    GapAt(s, q, w, gap) && RunOf(s, w, e, NotNewline)
  }

  /**
   * The text after the colon matches exactly when it reads that way. When a
   * line's text follows the gap, the group is the rest of that line; when
   * only whitespace is left after the colon, the engine gives back whitespace
   * and the group is the last character that is not a newline.
   */
  lemma RestOfLineMeaning(s: string, i: nat, q: nat, gap: Gap)
    requires i < q <= |s|
    ensures RestOfLine(s, i, q, gap).Some? <==> exists w: nat, e: nat :: RestOfLineAt(s, q, gap, w, e)
    ensures forall w: nat :: GapAt(s, q, w, gap) && w < |s| && s[w] != '\n' && (gap.OneSpace? || !IsSpace(s[w])) ==>
              var r := RestOfLine(s, i, q, gap);
              r.Some? && r.value.group == s[w..r.value.end] && (r.value.end == |s| || s[r.value.end] == '\n')
    ensures gap.AnySpace? && GapAt(s, q, |s|, gap) && RestOfLine(s, i, q, gap).Some? ==>
              var r := RestOfLine(s, i, q, gap);
              q < r.value.end && r.value.group == [s[r.value.end - 1]] && s[r.value.end - 1] != '\n'
              && forall k :: r.value.end <= k < |s| ==> s[k] == '\n'
  {
    if RestOfLine(s, i, q, gap).Some? {
      RestOfLineRead(s, i, q, gap);
    }
    forall w: nat, e: nat | RestOfLineAt(s, q, gap, w, e)
      ensures RestOfLine(s, i, q, gap).Some?
    {
      RestOfLineFound(s, i, q, gap, w, e);
    }
    forall w: nat | GapAt(s, q, w, gap) && w < |s| && s[w] != '\n' && (gap.OneSpace? || !IsSpace(s[w]))
      ensures var r := RestOfLine(s, i, q, gap);
        r.Some? && r.value.group == s[w..r.value.end] && (r.value.end == |s| || s[r.value.end] == '\n')
    {
      RestOfLineFromText(s, i, q, gap, w);
    }
  }

  /** A match reads the text the pattern's way. */
  lemma RestOfLineRead(s: string, i: nat, q: nat, gap: Gap)
    requires i < q <= |s| && RestOfLine(s, i, q, gap).Some?
    ensures exists w: nat, e: nat :: RestOfLineAt(s, q, gap, w, e)
  {
    var r := RestOfLine(s, i, q, gap);
    match gap
    case OneSpace =>
      assert RestOfLineAt(s, q, gap, q + 1, r.value.end);
    case AnySpace =>
      var w := RunEnd(s, q, Whitespace);
      if w < |s| {
        assert RestOfLineAt(s, q, gap, w, r.value.end);
      } else {
        var k := r.value.end - 1;
        assert RestOfLineAt(s, q, gap, k, k + 1);
      }
  }

  /** A reading of the pattern is matched. */
  lemma RestOfLineFound(s: string, i: nat, q: nat, gap: Gap, w: nat, e: nat)
    requires i < q <= |s| && RestOfLineAt(s, q, gap, w, e)
    ensures RestOfLine(s, i, q, gap).Some?
  {
    if gap.AnySpace? {
      var v := RunEnd(s, q, Whitespace);
      if v == |s| {
        assert s[w] != '\n';
        assert LastNonNewline(s, q, v).Some?;
      }
    }
  }

  /** When a line's text follows the gap, the group is the rest of that line. */
  lemma RestOfLineFromText(s: string, i: nat, q: nat, gap: Gap, w: nat)
    requires i < q <= |s|
    requires GapAt(s, q, w, gap) && w < |s| && s[w] != '\n' && (gap.OneSpace? || !IsSpace(s[w]))
    ensures var r := RestOfLine(s, i, q, gap);
      r.Some? && r.value.group == s[w..r.value.end] && (r.value.end == |s| || s[r.value.end] == '\n')
  {
    if gap.AnySpace? {
      RunEndUnique(s, q, w, Whitespace);
    }
  }
  // ---------------------------------------------------------------------
  // The leftmost match in lines of a known shape
  // ---------------------------------------------------------------------

  /** Every character of an unsigned decimal is a digit or a point. */
  lemma DecimalCharAt(t: string, i: nat)
    requires i < |t|
    ensures IsUnsignedDecimal(t) ==> IsDigit(t[i]) || t[i] == '.'
  {
    if IsUnsignedDecimal(t) { UnsignedDecimalChars(t); }
  }

  /** A decimal followed by a character that cannot continue it, or by the end, is the longest one there. */
  lemma DecimalStops(s: string, w: nat, e: nat)
    requires w < e <= |s| && (e == |s| || (!IsDigit(s[e]) && s[e] != '.'))
    ensures LongestDecimal(s, w, e)
  {
    forall x | e < x <= |s| && w <= x
      ensures !IsUnsignedDecimal(s[w..x])
    {
      DecimalCharAt(s[w..x], e - w);
      assert s[w..x][e - w] == s[e];
    }
  }

  /**
   * In `pre`, `word`, a blank, a decimal `g`, then text that cannot continue
   * it, `re.search` finds `g` after `word` when the character `word` has at
   * `k` occurs, up to case, neither in `pre` nor earlier in `word`.
   */
  lemma NumberAfterFirst(word: string, pre: string, g: string, post: string, k: nat)
    requires k < |word| && IsUnsignedDecimal(g)
    requires forall j :: 0 <= j < |pre| ==> FoldCase(pre[j]) != FoldCase(word[k])
    requires forall j :: 0 <= j < k ==> FoldCase(word[j]) != FoldCase(word[k])
    requires post == [] || (!IsDigit(post[0]) && post[0] != '.')
    ensures FirstGroup(NumberAfter(word), pre + word + " " + g + post) == Some(g)
  {
    var s := pre + word + " " + g + post;
    var p := |pre|;
    var w := p + |word| + 1;
    var e := w + |g|;
    forall j | 0 <= j < p + k
      ensures FoldCase(s[j]) != FoldCase(word[k])
    {
      if j < p {
        assert s[j] == pre[j];
      } else {
        assert s[j] == word[j - p];
      }
    }
    assert forall j :: 0 <= j < |word| ==> s[p + j] == word[j];
    assert s[w..e] == g;
    assert s[p + |word|] == ' ';
    assert e < |s| ==> s[e] == post[0];
    NumberAfterFirstAt(word, s, p, e, k);
  }

  /** The same, for a text whose parts are given by position. */
  lemma NumberAfterFirstAt(word: string, s: string, p: nat, e: nat, k: nat)
    requires k < |word| && p + |word| + 1 < e <= |s|
    requires forall j :: 0 <= j < p + k ==> FoldCase(s[j]) != FoldCase(word[k])
    requires forall j :: 0 <= j < |word| ==> s[p + j] == word[j]
    requires s[p + |word|] == ' ' && IsUnsignedDecimal(s[p + |word| + 1..e])
    requires e == |s| || (!IsDigit(s[e]) && s[e] != '.')
    ensures FirstGroup(NumberAfter(word), s) == Some(s[p + |word| + 1..e])
  {
    var w := p + |word| + 1;
    NoCaselessBefore(s, word, k, p);
    NumberAfterNoneBefore(word, s, p);
    NumberAfterReadAt(word, s, p, e);
    FirstGroupIsLeftmost(NumberAfter(word), s, p);
  }

  /** Where the word does not stand, the pattern does not match. */
  lemma NumberAfterNoneBefore(word: string, s: string, p: nat)
    requires p <= |s| && forall i :: 0 <= i < p ==> !HasAtCaseless(s, i, word)
    ensures forall j :: 0 <= j < p ==> MatchAt(NumberAfter(word), s, j).None?
  {
    forall j | 0 <= j < p
      ensures MatchAt(NumberAfter(word), s, j).None?
    {
      assert !HasAtCaseless(s, j, word);
    }
  }

  /** The word, a blank and a decimal that nothing continues match with the decimal as the group. */
  lemma NumberAfterReadAt(word: string, s: string, p: nat, e: nat)
    requires p + |word| + 1 < e <= |s|
    requires forall j :: 0 <= j < |word| ==> s[p + j] == word[j]
    requires s[p + |word|] == ' ' && IsUnsignedDecimal(s[p + |word| + 1..e])
    requires e == |s| || (!IsDigit(s[e]) && s[e] != '.')
    ensures MatchAt(NumberAfter(word), s, p) == Some(Match(p, e, s[p + |word| + 1..e]))
  {
    var w := p + |word| + 1;
    ExactIsCaseless(s, p, word);
    DecimalStops(s, w, e);
    assert RunOf(s, p + |word|, w, Whitespace);
    NumberAfterFound(word, s, p, w, e);
  }

  /** The word itself is found when case is ignored. */
  lemma ExactIsCaseless(s: string, p: nat, word: string)
    requires p + |word| <= |s| && forall j :: 0 <= j < |word| ==> s[p + j] == word[j]
    ensures HasAtCaseless(s, p, word)
  {
  }

  /**
   * In `pre`, a decimal `g`, `%`, then anything, `re.search` finds `g` when
   * `pre` holds neither a digit nor a point.
   */
  lemma PercentageFirst(pre: string, g: string, post: string)
    requires IsUnsignedDecimal(g)
    requires forall j :: 0 <= j < |pre| ==> !IsDigit(pre[j]) && pre[j] != '.'
    ensures FirstGroup(Percentage, pre + g + "%" + post) == Some(g)
  {
    var s := pre + g + "%" + post;
    var p := |pre|;
    var e := p + |g|;
    forall i | 0 <= i < p
      ensures MatchAt(Percentage, s, i).None?
    {
      assert s[i] == pre[i];
      NoPercentageAt(s, i);
    }
    assert s[p..e] == g && s[e] == '%';
    PercentageAt(s, p, e);
    FirstGroupIsLeftmost(Percentage, s, p);
  }

  /** No percentage starts at a character that is neither a digit nor a point. */
  lemma NoPercentageAt(s: string, i: nat)
    requires i < |s| && !IsDigit(s[i]) && s[i] != '.'
    ensures MatchAt(Percentage, s, i).None?
  {
    forall j | i < j < |s|
      ensures !IsUnsignedDecimal(s[i..j])
    {
      DecimalCharAt(s[i..j], 0);
      assert s[i..j][0] == s[i];
    }
    PercentageMeaning(s, i);
  }

  /** A decimal followed by `%` is the percentage matched at its start. */
  lemma PercentageAt(s: string, p: nat, e: nat)
    requires p < e < |s| && IsUnsignedDecimal(s[p..e]) && s[e] == '%'
    ensures MatchAt(Percentage, s, p).Some? && MatchAt(Percentage, s, p).value.group == s[p..e]
  {
    PercentageMeaning(s, p);
  }
}
