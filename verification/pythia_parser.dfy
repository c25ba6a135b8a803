/**
 * The IQ-TREE 3.x log readers of `pypythia_iqtree_parser.py`: the alignment
 * composition (patterns, gaps, invariant sites) and the RF-distance summary.
 *
 * Both walk the stripped lines of the log once, in order, keeping a few
 * optional fields; the final record needs every field. Each field is shown
 * equal to a reference definition over the whole log (the last line that
 * yields a value, or the first).
 */
module PythiaParser {
  import opened Wrappers
  import opened Text
  import opened Numbers
  import opened Regex
  import opened Scans

  // ---------------------------------------------------------------------
  // Alignment composition
  // ---------------------------------------------------------------------

  /** The pattern count a log line reports: the number before "distinct patterns". */
  function PatternsOf(raw: string): Option<int>
  {
    var line := Strip(raw);
    if Contains(line, "distinct patterns") then GroupInt(FirstGroup(DistinctPatterns, line))
    else None
  }

  /** The column count a pattern line reports: the number in "with N columns". */
  function ColumnsOf(raw: string): Option<int>
  {
    var line := Strip(raw);
    if Contains(line, "distinct patterns") then GroupInt(FirstGroup(WithColumns, line))
    else None
  }

  /** The constant-site count a log line reports. */
  function ConstantsOf(raw: string): Option<int>
  {
    var line := Strip(raw);
    if Contains(line, "constant sites") || Contains(line, "invariant sites") then
      GroupInt(FirstGroup(ConstantSites, line))
    else None
  }

  /** The first percentage of a line, as a proportion. */
  function FirstPercentage(line: string): (r: Option<real>)
    ensures r.Some? ==> r.value >= 0.0
  {
    Proportion(GroupDecimal(FirstGroup(Percentage, line)))
  }

  /** A decimal that ends at a `%` starting at `i` and ending before `j`. */
  predicate PercentAt(s: string, i: nat, j: nat)
  {
    i < j < |s| && s[j] == '%' && IsUnsignedDecimal(s[i..j])
  }

  /** No percentage starts before `i`. */
  predicate NoPercentBefore(s: string, i: nat)
  {
    forall a: nat, b: nat :: a < i && b < |s| ==> !PercentAt(s, a, b)
  }

  /**
   * The first percentage is there exactly when some decimal ends at a `%`,
   * and it is the value of the one that starts first, divided by 100.
   */
  lemma FirstPercentageMeaning(line: string)
    ensures FirstPercentage(line).None? <==> forall i: nat, j: nat :: !PercentAt(line, i, j)
    ensures forall i: nat, j: nat :: PercentAt(line, i, j) && NoPercentBefore(line, i) ==>
              FirstPercentage(line) == Some(DecimalValue(line[i..j]) / 100.0)
  {
    FirstPercentageAbsent(line);
    forall i: nat, j: nat | PercentAt(line, i, j) && NoPercentBefore(line, i)
      ensures FirstPercentage(line) == Some(DecimalValue(line[i..j]) / 100.0)
    {
      FirstPercentageValue(line, i, j);
    }
  }

  lemma FirstPercentageValue(line: string, i: nat, j: nat)
    requires PercentAt(line, i, j) && NoPercentBefore(line, i)
    ensures FirstPercentage(line) == Some(DecimalValue(line[i..j]) / 100.0)
  {
    FirstPercentageFound(line, i, j);
    PercentOfGroup(line, line[i..j]);
  }

  lemma FirstPercentageAbsent(line: string)
    ensures FirstGroup(Percentage, line).None? <==> forall i: nat, j: nat :: !PercentAt(line, i, j)
    ensures FirstPercentage(line).None? <==> FirstGroup(Percentage, line).None?
  {
    FirstGroupAbsent(Percentage, line);
    forall i: nat | i <= |line| {
      PercentageMatchEnds(line, i);
    }
    forall i: nat, j: nat | PercentAt(line, i, j)
      ensures MatchAt(Percentage, line, i).Some?
    {
      assert MatchAt(Percentage, line, i) == MatchPercentage(line, i);
      PercentageMeaning(line, i);
    }
  }

  /** A percentage match at `i` is a decimal that ends at a `%`. */
  lemma PercentageMatchEnds(line: string, i: nat)
    requires i <= |line|
    ensures MatchAt(Percentage, line, i).Some? ==> PercentAt(line, i, MatchAt(Percentage, line, i).value.end - 1)
  {
    assert MatchAt(Percentage, line, i) == MatchPercentage(line, i);
  }

  lemma FirstPercentageFound(line: string, i: nat, j: nat)
    requires PercentAt(line, i, j) && NoPercentBefore(line, i)
    ensures FirstGroup(Percentage, line) == Some(line[i..j])
  {
    forall a: nat | a < i
      ensures MatchAt(Percentage, line, a).None?
    {
      PercentageMatchEnds(line, a);
    }
    assert MatchAt(Percentage, line, i) == MatchPercentage(line, i);
    PercentageMeaning(line, i);
    FirstGroupIsLeftmost(Percentage, line, i);
  }

  /** In a line whose text before a percentage holds no digit and no point, the first percentage is that one. */
  lemma FirstPercentageOfText(pre: string, g: string, post: string)
    requires IsUnsignedDecimal(g)
    requires forall j :: 0 <= j < |pre| ==> !IsDigit(pre[j]) && pre[j] != '.'
    ensures FirstPercentage(pre + g + "%" + post) == Some(DecimalValue(g) / 100.0)
  {
    var line := pre + g + "%" + post;
    PercentageFirst(pre, g, post);
    PercentOfGroup(line, g);
  }

  /** A percentage group `g` gives the value of `g` divided by 100. */
  lemma PercentOfGroup(line: string, g: string)
    requires FirstGroup(Percentage, line) == Some(g)
    ensures FirstPercentage(line) == Some(DecimalValue(g) / 100.0)
  {
    GroupProportion(g);
  }

  lemma GroupProportion(g: string)
    requires IsUnsignedDecimal(g)
    ensures Proportion(GroupDecimal(Some(g))) == Some(DecimalValue(g) / 100.0)
  {
    ProportionOf(GroupDecimal(Some(g)), DecimalValue(g));
  }

  /** The gap proportion of the "TOTAL" row of the composition table: its first percentage. */
  function TotalGapOf(raw: string): Option<real>
  {
    var line := Strip(raw);
    if StartsWith(line, "*") && Contains(line, "TOTAL") && Contains(line, "%") then FirstPercentage(line) else None
  }

  /** The "TOTAL" row as IQ-TREE 3 prints it, "****  TOTAL  G%  ...", gives G / 100. */
  lemma TotalRowGap(g: string, post: string)
    requires IsUnsignedDecimal(g) && (post == [] || !IsSpace(post[|post| - 1]))
    ensures TotalGapOf("****  TOTAL  " + g + "%" + post) == Some(DecimalValue(g) / 100.0)
  {
    var head := "****  TOTAL  ";
    TotalRowShape(head, g, post);
    TotalHeadUnnumbered(head);
    FirstPercentageOfText(head, g, post);
  }

  lemma TotalHeadUnnumbered(head: string)
    requires head == "****  TOTAL  "
    ensures forall j :: 0 <= j < |head| ==> !IsDigit(head[j]) && head[j] != '.'
  {
  }

  /** Such a row is already stripped and passes every test of TotalGapOf. */
  lemma TotalRowShape(head: string, g: string, post: string)
    requires head == "****  TOTAL  "
    requires IsUnsignedDecimal(g) && (post == [] || !IsSpace(post[|post| - 1]))
    ensures var line := head + g + "%" + post;
      Strip(line) == line && StartsWith(line, "*") && Contains(line, "TOTAL") && Contains(line, "%")
  {
    var line := head + g + "%" + post;
    if post == [] {
      assert line == head + g + "%";
      EndsUnspaced(head, g, "%");
    } else {
      assert line == head + (g + "%") + post;
      EndsUnspaced(head, g + "%", post);
    }
    TotalRowWords(head, g, post);
  }

  lemma TotalRowWords(head: string, g: string, post: string)
    requires head == "****  TOTAL  "
    ensures var line := head + g + "%" + post;
      StartsWith(line, "*") && Contains(line, "TOTAL") && Contains(line, "%")
  {
    var line := head + g + "%" + post;
    assert line == head + (g + "%" + post);
    assert line[..1] == head[..1] == "*";
    assert line[6..11] == head[6..11] == "TOTAL";
    assert line[|head| + |g|..|head| + |g| + 1] == "%";
    assert HasAt(line, 6, "TOTAL") && HasAt(line, |head| + |g|, "%");
  }

  /** The gap proportion of an "overall gap/ambiguity" line: its first percentage. */
  function OverallGapOf(raw: string): Option<real>
  {
    var line := Strip(raw);
    var lower := Lower(line);
    if (Contains(lower, "gap") || Contains(lower, "ambiguity")) && Contains(line, "%") && Contains(lower, "overall") then
      FirstPercentage(line)
    else None
  }

  /**
   * What one log line yields for each field. The loop below is stated for
   * any such readers; IqTree3Readers are the ones the parser uses.
   */
  datatype LineReaders = LineReaders(
    patterns: string -> Option<int>,
    columns: string -> Option<int>,
    constants: string -> Option<int>,
    totalGap: string -> Option<real>,
    overallGap: string -> Option<real>)

  const IqTree3Readers := LineReaders(PatternsOf, ColumnsOf, ConstantsOf, TotalGapOf, OverallGapOf)

  /** The proportion of invariant sites a constant-sites line gives, once `columns` sites are known. */
  function InvariantOf(rd: LineReaders, columns: Option<int>, raw: string): (r: Option<real>)
    ensures r.Some? <==> rd.constants(raw).Some? && columns.Some? && columns.value > 0
  {
    match rd.constants(raw)
    case None => None
    case Some(n) =>
      if columns.Some? && columns.value > 0 then
        Some(n as real / columns.value as real)
      else None
  }

  /** What the composition loop keeps between lines. */
  datatype Composition = Composition(patterns: Option<int>, columns: Option<int>, invariantShare: Option<real>, gaps: Option<real>)

  /** One iteration of the loop of `get_patterns_gaps_invariant`. */
  function CompositionStep(rd: LineReaders, c: Composition, raw: string): Composition
  {
    var patterns := Override(c.patterns, rd.patterns(raw));
    var columns := Override(c.columns, rd.columns(raw));
    var invariantShare := Override(c.invariantShare, InvariantOf(rd, columns, raw));
    var gaps := Override(c.gaps, rd.totalGap(raw));
    var gaps' := if gaps.None? then rd.overallGap(raw) else gaps;
    Composition(patterns, columns, invariantShare, gaps')
  }

  /** The loop over the first `|lines|` lines, from all fields unset. */
  function CompositionScan(rd: LineReaders, lines: seq<string>): Composition
    decreases |lines|
  {
    if |lines| == 0 then Composition(None, None, None, None)
    else CompositionStep(rd, CompositionScan(rd, lines[..|lines| - 1]), lines[|lines| - 1])
  }

  /** A later pattern line overrides an earlier one: patterns comes from the last line that reports it. */
  lemma {:induction false} PatternsFromLastLine(rd: LineReaders, lines: seq<string>)
    ensures CompositionScan(rd, lines).patterns == LastSome(lines, rd.patterns)
    decreases |lines|
  {
    if |lines| > 0 { PatternsFromLastLine(rd, lines[..|lines| - 1]); }
  }

  lemma {:induction false} ColumnsFromLastLine(rd: LineReaders, lines: seq<string>)
    ensures CompositionScan(rd, lines).columns == LastSome(lines, rd.columns)
    decreases |lines|
  {
    if |lines| > 0 { ColumnsFromLastLine(rd, lines[..|lines| - 1]); }
  }

  /**
   * The invariant proportion each line would set, given the column count
   * known once that line is read (from it or an earlier line).
   */
  function InvariantUpdates(rd: LineReaders, lines: seq<string>): (r: seq<Option<real>>)
    ensures |r| == |lines|
    ensures forall i :: 0 <= i < |lines| ==> r[i] == InvariantOf(rd, LastSome(lines[..i + 1], rd.columns), lines[i])
  {
    seq(|lines|, i requires 0 <= i < |lines| => InvariantOf(rd, LastSome(lines[..i + 1], rd.columns), lines[i]))
  }

  function Identity<T>(x: T): T { x }

  /**
   * The invariant proportion comes from the last constant-sites line read
   * while a positive column count was known; constant-sites lines read before
   * that leave it as it was.
   */
  lemma {:induction false} InvariantFromLastUpdate(rd: LineReaders, lines: seq<string>)
    ensures CompositionScan(rd, lines).invariantShare == LastSome(InvariantUpdates(rd, lines), Identity)
    decreases |lines|
  {
    if |lines| > 0 {
      var init := lines[..|lines| - 1];
      var last := lines[|lines| - 1];
      var u := InvariantUpdates(rd, lines);
      assert u[..|u| - 1] == InvariantUpdates(rd, init) by {
        forall i | 0 <= i < |init| ensures u[i] == InvariantUpdates(rd, init)[i] {
          assert lines[..i + 1] == init[..i + 1];
        }
      }
      assert lines[..|lines|] == lines;
      var columns := LastSome(lines, rd.columns);
      calc {
        CompositionScan(rd, lines).invariantShare;
        Override(CompositionScan(rd, init).invariantShare, InvariantOf(rd, CompositionScan(rd, lines).columns, last));
        { ColumnsFromLastLine(rd, lines); }
        Override(CompositionScan(rd, init).invariantShare, InvariantOf(rd, columns, last));
        { InvariantFromLastUpdate(rd, init); }
        Override(LastSome(InvariantUpdates(rd, init), Identity), Identity(u[|u| - 1]));
        LastSome(u, Identity);
      }
    }
  }

  /** The same, as a statement about line numbers. */
  lemma InvariantFromLastQualifyingLine(rd: LineReaders, lines: seq<string>, i: nat)
    requires i < |lines| && InvariantUpdates(rd, lines)[i].Some?
    requires forall j :: i < j < |lines| ==> InvariantUpdates(rd, lines)[j].None?
    ensures CompositionScan(rd, lines).invariantShare
            == Some(rd.constants(lines[i]).value as real / LastSome(lines[..i + 1], rd.columns).value as real)
  {
    InvariantFromLastUpdate(rd, lines);
    LastSomeIsLatest(InvariantUpdates(rd, lines), Identity, i);
  }

  /** Without a constant-sites line read after a positive column count, the invariant proportion stays unset. */
  lemma InvariantUnsetWithoutUpdate(rd: LineReaders, lines: seq<string>)
    ensures CompositionScan(rd, lines).invariantShare.None?
            <==> forall i :: 0 <= i < |lines| ==> InvariantUpdates(rd, lines)[i].None?
  {
    InvariantFromLastUpdate(rd, lines);
    LastSomeFound(InvariantUpdates(rd, lines), Identity);
  }

  /**
   * The gap proportion comes from the last "TOTAL" row; only if there is none
   * does the first "overall" gap line count, since that fallback fires only
   * while the proportion is unset.
   */
  lemma {:induction false} GapsFromTotalOrOverall(rd: LineReaders, lines: seq<string>)
    ensures CompositionScan(rd, lines).gaps
            == if LastSome(lines, rd.totalGap).Some? then LastSome(lines, rd.totalGap) else FirstSome(lines, rd.overallGap)
    decreases |lines|
  {
    if |lines| > 0 {
      var init := lines[..|lines| - 1];
      GapsFromTotalOrOverall(rd, init);
      FirstSomeAppend(init, lines[|lines| - 1], rd.overallGap);
      assert init + [lines[|lines| - 1]] == lines;
    }
  }

  /** The message `get_patterns_gaps_invariant` raises with. */
  const CompositionError := ValueError("Error parsing IQ-TREE log")

  /** The gap proportion: the last "TOTAL" row, else the first "overall" line. */
  function GapsOfLog(lines: seq<string>): Option<real>
  {
    if LastSome(lines, TotalGapOf).Some? then LastSome(lines, TotalGapOf) else FirstSome(lines, OverallGapOf)
  }

  /**
   * `get_patterns_gaps_invariant` on the lines of a log: the three values
   * when every one was found, otherwise the ValueError.
   */
  function GetPatternsGapsInvariant(lines: seq<string>): (r: Result<(int, real, real)>)
    ensures var invariantShare := LastSome(InvariantUpdates(IqTree3Readers, lines), Identity);
            && (r.Ok? <==> LastSome(lines, PatternsOf).Some? && GapsOfLog(lines).Some? && invariantShare.Some?)
            && (r.Ok? ==> r.value == (LastSome(lines, PatternsOf).value, GapsOfLog(lines).value, invariantShare.value))
            && (r.Err? ==> r.error == CompositionError)
  {
    var c := CompositionScan(IqTree3Readers, lines);
    PatternsFromLastLine(IqTree3Readers, lines);
    GapsFromTotalOrOverall(IqTree3Readers, lines);
    InvariantFromLastUpdate(IqTree3Readers, lines);
    if c.patterns.None? || c.gaps.None? || c.invariantShare.None? then Err(CompositionError)
    else Ok((c.patterns.value, c.gaps.value, c.invariantShare.value))
  }

  // ---------------------------------------------------------------------
  // RF-distance summary
  // ---------------------------------------------------------------------

  /**
   * `get_value_from_line(line, key)` of `pypythia.utils`, which is not part of
   * this model: the number it returns, or None where it raises.
   */
  type ValueFromLine = (string, string) -> Option<real>

  const ToposKey := "Number of unique topologies:"
  const RelativeKey := "Average relative RF distance:"

  /** A topology-count line whose value the helper cannot read: the loop raises there. */
  predicate ToposFails(gv: ValueFromLine, raw: string)
  {
    var line := Strip(raw);
    Contains(line, "Number of unique topologies") && gv(line, ToposKey).None?
  }

  /** The topology count a line gives, truncated to an int. */
  function ToposOf(gv: ValueFromLine, raw: string): Option<int>
  {
    var line := Strip(raw);
    if Contains(line, "Number of unique topologies") then
      match gv(line, ToposKey)
      case None => None
      case Some(x) => Some(Truncate(x))
    else None
  }

  /** The text between the first `:` and the first `(` after it, stripped, read as a float. */
  function AbsoluteText(line: string): Option<real>
  {
    match IndexOf(line, ':')
    case None => None
    case Some(k) =>
      var after := Strip(line[k + 1..]);
      var absText := match IndexOf(after, '(') case None => after case Some(j) => after[..j];
      PyFloat(Strip(absText))
  }

  /** The absolute distance a line gives; the "(absolute A)" form is read after the other one. */
  function AbsOf(raw: string): Option<real>
  {
    var line := Strip(raw);
    var fromAverage := if Contains(line, "Average RF distance:") && Contains(line, "relative") then AbsoluteText(line) else None;
    var fromAbsolute :=
      if Contains(line, RelativeKey) && Contains(line, "absolute") then GroupDecimal(FirstGroup(NumberAfter("absolute"), line))
      else None;
    Override(fromAverage, fromAbsolute)
  }

  /** The relative distance a line gives; the "relative RF distance:" form is read after the other one. */
  function RelOf(gv: ValueFromLine, raw: string): Option<real>
  {
    var line := Strip(raw);
    var fromAverage :=
      if Contains(line, "Average RF distance:") && Contains(line, "relative") then GroupDecimal(FirstGroup(NumberAfter("relative"), line))
      else None;
    var fromRelative := if Contains(line, RelativeKey) && Contains(line, "absolute") then gv(line, RelativeKey) else None;
    Override(fromAverage, fromRelative)
  }

  /**
   * The line "Average RF distance: A (relative R)" gives A as the absolute
   * and R as the relative distance.
   */
  lemma AverageLine(gv: ValueFromLine, a: string, r: string)
    requires IsUnsignedDecimal(a) && IsUnsignedDecimal(r)
    ensures var line := "Average RF distance: " + a + " (relative " + r + ")";
      AbsOf(line) == Some(DecimalValue(a)) && RelOf(gv, line) == Some(DecimalValue(r))
  {
    var head := "Average RF distance: ";
    AverageShape(head, a, r);
    AverageAbsolute(head, a, r);
    AverageRelative(head, a, r);
  }

  /** Such a line is already stripped, holds both words of its form and not "absolute". */
  lemma AverageShape(head: string, a: string, r: string)
    requires head == "Average RF distance: " && IsUnsignedDecimal(a) && IsUnsignedDecimal(r)
    ensures var line := head + a + " (relative " + r + ")";
      && Strip(line) == line && Contains(line, "Average RF distance:") && Contains(line, "relative")
      && !Contains(line, "absolute")
  {
    var line := head + a + " (relative " + r + ")";
    AverageLacksAbsolute(head, a, r);
    EndsUnspaced(head, a + " (relative " + r, ")");
    assert line == head + (a + " (relative " + r) + ")";
    AverageWords(head, a, " (relative ", r, ")");
  }

  lemma AverageLacksAbsolute(head: string, a: string, r: string)
    requires head == "Average RF distance: " && IsUnsignedDecimal(a) && IsUnsignedDecimal(r)
    ensures !Contains(head + a + " (relative " + r + ")", "absolute")
  {
    var line := head + a + " (relative " + r + ")";
    DecimalLacks(a, 'b');
    DecimalLacks(r, 'b');
    assert 'b' !in line;
    LacksLetter(line, "absolute", 1);
  }

  lemma AverageWords(head: string, a: string, mid: string, r: string, post: string)
    requires head == "Average RF distance: " && mid == " (relative "
    ensures var line := head + a + mid + r + post;
      Contains(line, "Average RF distance:") && Contains(line, "relative")
  {
    var line := head + a + mid + r + post;
    assert line[..20] == head[..20] == "Average RF distance:";
    assert HasAt(line, 0, "Average RF distance:");
    assert line[|head| + |a| + 2..|head| + |a| + 10] == mid[2..10] == "relative";
    assert HasAt(line, |head| + |a| + 2, "relative");
  }

  /** The text between `:` and `(` of such a line is A. */
  lemma AverageAbsolute(head: string, a: string, r: string)
    requires head == "Average RF distance: " && IsUnsignedDecimal(a) && IsUnsignedDecimal(r)
    ensures AbsoluteText(head + a + " (relative " + r + ")") == Some(DecimalValue(a))
  {
    assert head[..19] == "Average RF distance";
    AbsoluteBetween(head, a, " (relative ", r, ")");
  }

  /**
   * When a line's first `:` ends its head, followed by one space, an
   * unsigned decimal A, a space and a `(`, the text between `:` and `(` is A.
   */
  lemma AbsoluteBetween(head: string, a: string, mid: string, r: string, post: string)
    requires |head| >= 2 && head[|head| - 2] == ':' && head[|head| - 1] == ' ' && ':' !in head[..|head| - 2]
    requires IsUnsignedDecimal(a) && |mid| >= 2 && mid[0] == ' ' && mid[1] == '('
    requires |post| > 0 && !IsSpace(post[|post| - 1])
    ensures AbsoluteText(head + a + mid + r + post) == Some(DecimalValue(a))
  {
    var line := head + a + mid + r + post;
    var rest := a + mid + r + post;
    AfterHeadColon(head, a, mid, r, post);
    AbsoluteBeforeParen(a, mid, r, post);
    AbsoluteTextIs(line, |head| - 2, rest, |a| + 1);
    PyFloatOfUnsignedDecimal(a);
  }

  /** The first `:` of such a line ends its head, and what follows it strips to the rest of the line. */
  lemma AfterHeadColon(head: string, a: string, mid: string, r: string, post: string)
    requires |head| >= 2 && head[|head| - 2] == ':' && head[|head| - 1] == ' ' && ':' !in head[..|head| - 2]
    requires IsUnsignedDecimal(a) && |post| > 0 && !IsSpace(post[|post| - 1])
    ensures var line := head + a + mid + r + post;
      IndexOf(line, ':') == Some(|head| - 2) && Strip(line[|head| - 1..]) == a + mid + r + post
  {
    var line := head + a + mid + r + post;
    var rest := a + mid + r + post;
    assert line == head + rest;
    HeadColonFirst(head, rest);
    AfterHeadStrips(head, rest);
  }

  /** The colon that ends a head without another colon is the first one of the line. */
  lemma HeadColonFirst(head: string, rest: string)
    requires |head| >= 2 && head[|head| - 2] == ':' && ':' !in head[..|head| - 2]
    ensures IndexOf(head + rest, ':') == Some(|head| - 2)
  {
    var line := head + rest;
    var k := |head| - 2;
    assert line[..k] == head[..k];
    IndexOfUnique(line, ':', k);
  }

  /** After the head's colon come one blank and the rest, which strips to itself. */
  lemma AfterHeadStrips(head: string, rest: string)
    requires |head| >= 2 && head[|head| - 1] == ' '
    requires |rest| > 0 && !IsSpace(rest[0]) && !IsSpace(rest[|rest| - 1])
    ensures Strip((head + rest)[|head| - 1..]) == rest
  {
    var t := (head + rest)[|head| - 1..];
    assert t == [' '] + rest;
    StripKnown(t, 1, |t|);
    assert t[1..|t|] == rest;
  }

  lemma AbsoluteTextIs(line: string, k: nat, after: string, j: nat)
    requires IndexOf(line, ':') == Some(k) && Strip(line[k + 1..]) == after && IndexOf(after, '(') == Some(j)
    ensures AbsoluteText(line) == PyFloat(Strip(after[..j]))
  {
  }

  /** In A followed by " (", the text before the first `(`, stripped, is A. */
  lemma AbsoluteBeforeParen(a: string, mid: string, r: string, post: string)
    requires IsUnsignedDecimal(a) && |mid| >= 2 && mid[0] == ' ' && mid[1] == '('
    ensures var rest := a + mid + r + post;
      IndexOf(rest, '(') == Some(|a| + 1) && Strip(rest[..|a| + 1]) == a
  {
    var rest := a + mid + r + post;
    DecimalLacks(a, '(');
    assert forall j :: 0 <= j < |a| ==> rest[..|a| + 1][j] == a[j];
    assert rest[..|a| + 1] == a + " ";
    IndexOfUnique(rest, '(', |a| + 1);
    StripKnown(a + " ", 0, |a|);
    assert (a + " ")[0..|a|] == a;
  }

  /** The number after "relative" of such a line is R. */
  lemma AverageRelative(head: string, a: string, r: string)
    requires head == "Average RF distance: " && IsUnsignedDecimal(a) && IsUnsignedDecimal(r)
    ensures GroupDecimal(FirstGroup(NumberAfter("relative"), head + a + " (relative " + r + ")")) == Some(DecimalValue(r))
  {
    assert " (relative " == " (" + "relative" + " ";
    var pre := head + a + " (";
    assert FoldFree(head, 'l') && FoldFree(" (", 'l');
    DecimalFoldFree(a, 'l');
    FoldFreeConcat(head, a, 'l');
    FoldFreeConcat(head + a, " (", 'l');
    assert FoldCase("relative"[2]) == 'l';
    NumberAfterFirst("relative", pre, r, ")", 2);
    Regroup(head + a, " (", "relative", " ", r, ")", " (relative ");
    GroupDecimalIsFloat(Some(r));
  }

  /**
   * The line "Average relative RF distance: R (absolute A)" gives A as the
   * absolute distance and, as the relative one, what the helper reads after
   * "Average relative RF distance:".
   */
  lemma RelativeLine(gv: ValueFromLine, r: string, a: string)
    requires IsUnsignedDecimal(r) && IsUnsignedDecimal(a)
    ensures var line := RelativeKey + " " + r + " (absolute " + a + ")";
      AbsOf(line) == Some(DecimalValue(a)) && RelOf(gv, line) == gv(line, RelativeKey)
  {
    var head := RelativeKey + " ";
    RelativeShape(head, r, a);
    RelativeNotAverage(head, r, a);
    RelativeAbsolute(head, r, a);
  }

  /** Such a line is already stripped and holds both words the reader looks for. */
  lemma RelativeShape(head: string, r: string, a: string)
    requires head == RelativeKey + " " && IsUnsignedDecimal(r) && IsUnsignedDecimal(a)
    ensures var line := head + r + " (absolute " + a + ")";
      Strip(line) == line && Contains(line, RelativeKey) && Contains(line, "absolute")
  {
    EndsUnspaced(head, r + " (absolute " + a, ")");
    assert head + r + " (absolute " + a + ")" == head + (r + " (absolute " + a) + ")";
    RelativeWords(head, r, " (absolute ", a, ")");
  }

  lemma RelativeWords(head: string, r: string, mid: string, a: string, post: string)
    requires head == RelativeKey + " " && mid == " (absolute "
    ensures var line := head + r + mid + a + post;
      Contains(line, RelativeKey) && Contains(line, "absolute")
  {
    var line := head + r + mid + a + post;
    assert line[..|RelativeKey|] == head[..|RelativeKey|] == RelativeKey;
    assert HasAt(line, 0, RelativeKey);
    assert line[|head| + |r| + 2..|head| + |r| + 10] == mid[2..10] == "absolute";
    assert HasAt(line, |head| + |r| + 2, "absolute");
  }

  /** Text that starts and ends with a non-space character is its own strip. */
  lemma EndsUnspaced(head: string, body: string, tail: string)
    requires |head| > 0 && !IsSpace(head[0]) && |tail| > 0 && !IsSpace(tail[|tail| - 1])
    ensures Strip(head + body + tail) == head + body + tail
  {
    var s := head + body + tail;
    assert s[0] == head[0] && s[|s| - 1] == tail[|tail| - 1];
  }

  /** Such a line does not hold "Average RF distance:": its only `F` follows "Average relative R". */
  lemma RelativeNotAverage(head: string, r: string, a: string)
    requires head == RelativeKey + " " && IsUnsignedDecimal(r) && IsUnsignedDecimal(a)
    ensures !Contains(head + r + " (absolute " + a + ")", "Average RF distance:")
  {
    var line := head + r + " (absolute " + a + ")";
    DecimalLacks(r, 'F');
    DecimalLacks(a, 'F');
    forall j | 0 <= j < |line|
      ensures line[j] == 'F' ==> j == 18
    {
      if j < |head| {
        assert line[j] == head[j];
      } else if j < |head| + |r| {
        assert line[j] == r[j - |head|] && r[j - |head|] in r;
      } else if j < |head| + |r| + 11 {
        assert line[j] == " (absolute "[j - |head| - |r|];
      } else if j < |head| + |r| + 11 + |a| {
        assert line[j] == a[j - |head| - |r| - 11] && a[j - |head| - |r| - 11] in a;
      }
    }
    assert line[9] == 'e';
    LetterOnlyAt(line, "Average RF distance:", 9, 9);
  }

  /** The number after "absolute" of such a line is A. */
  lemma RelativeAbsolute(head: string, r: string, a: string)
    requires head == "Average relative RF distance: " && IsUnsignedDecimal(r) && IsUnsignedDecimal(a)
    ensures GroupDecimal(FirstGroup(NumberAfter("absolute"), head + r + " (absolute " + a + ")")) == Some(DecimalValue(a))
  {
    assert " (absolute " == " (" + "absolute" + " ";
    var pre := head + r + " (";
    assert FoldFree(head, 'b') && FoldFree(" (", 'b');
    DecimalFoldFree(r, 'b');
    FoldFreeConcat(head, r, 'b');
    FoldFreeConcat(head + r, " (", 'b');
    assert FoldCase("absolute"[1]) == 'b';
    NumberAfterFirst("absolute", pre, a, ")", 1);
    Regroup(head + r, " (", "absolute", " ", a, ")", " (absolute ");
    GroupDecimalIsFloat(Some(a));
  }

  /**
   * What one line yields to the RF loop: whether the helper raises on it, and
   * the topology count, relative and absolute distance it gives. The loop
   * and its lemmas hold for any such readers; RfReadersOf(gv) are the ones
   * the parser uses.
   */
  datatype RfReaders = RfReaders(
    fails: string -> bool,
    topos: string -> Option<int>,
    rel: string -> Option<real>,
    abs: string -> Option<real>)

  function RfReadersOf(gv: ValueFromLine): RfReaders
  {
    RfReaders(raw => ToposFails(gv, raw), raw => ToposOf(gv, raw), raw => RelOf(gv, raw), AbsOf)
  }

  datatype RfDistances = RfDistances(numTopos: Option<int>, rel: Option<real>, abs: Option<real>)

  /** One iteration of the loop of `get_iqtree_rfdist_results`; the topology helper's exception escapes. */
  function RfStep(rd: RfReaders, d: RfDistances, raw: string): Result<RfDistances>
  {
    if rd.fails(raw) then Err(HelperError("get_value_from_line"))
    else Ok(RfDistances(Override(d.numTopos, rd.topos(raw)), Override(d.rel, rd.rel(raw)), Override(d.abs, rd.abs(raw))))
  }

  function RfScan(rd: RfReaders, lines: seq<string>): Result<RfDistances>
    decreases |lines|
  {
    if |lines| == 0 then Ok(RfDistances(None, None, None))
    else match RfScan(rd, lines[..|lines| - 1])
      case Err(e) => Err(e)
      case Ok(d) => RfStep(rd, d, lines[|lines| - 1])
  }

  /**
   * The loop raises exactly when the helper fails on some line; otherwise
   * each value comes from the last line that gives one.
   */
  lemma {:induction false} RfFromLastLines(rd: RfReaders, lines: seq<string>)
    ensures RfScan(rd, lines).Err? <==> exists i :: 0 <= i < |lines| && rd.fails(lines[i])
    ensures RfScan(rd, lines).Ok? ==>
              RfScan(rd, lines).value == RfDistances(LastSome(lines, rd.topos), LastSome(lines, rd.rel), LastSome(lines, rd.abs))
    decreases |lines|
  {
    if |lines| > 0 {
      var init := lines[..|lines| - 1];
      RfFromLastLines(rd, init);
      assert forall i :: 0 <= i < |init| ==> init[i] == lines[i];
    }
  }

  const RfError := ValueError("Error parsing IQ-TREE RF-distance log.")

  /**
   * `get_iqtree_rfdist_results` on the lines of a log: the topology count
   * and the relative and absolute distances, each from the last line that
   * gives it, or an error when one is missing.
   */
  function GetIqtreeRfdistResults(gv: ValueFromLine, lines: seq<string>): (r: Result<(int, real, real)>)
    ensures (exists i :: 0 <= i < |lines| && ToposFails(gv, lines[i])) ==> r == Err(HelperError("get_value_from_line"))
    ensures (forall i :: 0 <= i < |lines| ==> !ToposFails(gv, lines[i])) ==>
              var rd := RfReadersOf(gv);
              var n := LastSome(lines, rd.topos);
              var rel := LastSome(lines, rd.rel);
              var abs := LastSome(lines, AbsOf);
              && (r.Ok? <==> n.Some? && rel.Some? && abs.Some?)
              && (r.Ok? ==> r.value == (n.value, rel.value, abs.value))
              && (r.Err? ==> r.error == RfError)
  {
    var rd := RfReadersOf(gv);
    RfFromLastLines(rd, lines);
    RfErrorIsHelper(rd, lines);
    match RfScan(rd, lines)
    case Err(e) => Err(e)
    case Ok(d) =>
      if d.abs.None? || d.rel.None? || d.numTopos.None? then Err(RfError)
      else Ok((d.numTopos.value, d.rel.value, d.abs.value))
  }

  /** The only exception the loop lets escape is the helper's. */
  lemma {:induction false} RfErrorIsHelper(rd: RfReaders, lines: seq<string>)
    ensures RfScan(rd, lines).Err? ==> RfScan(rd, lines).error == HelperError("get_value_from_line")
    decreases |lines|
  {
    if |lines| > 0 { RfErrorIsHelper(rd, lines[..|lines| - 1]); }
  }
}
