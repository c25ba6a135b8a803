/**
 * The older log readers of `pypythia.iqtree_parser.py`: the alignment
 * composition read from lines that start with a fixed heading, and the
 * RF-distance summary averaged over every line that gives two numbers.
 *
 * The composition reader takes the lines as the file yields them, line
 * terminators included and nothing stripped; the RF reader strips each line.
 */
module LegacyParser {
  import opened Wrappers
  import opened Text
  import opened Numbers
  import opened Scans

  // ---------------------------------------------------------------------
  // Alignment composition
  // ---------------------------------------------------------------------

  /**
   * What one piece adds to `[int(x.strip()) for x in pieces if x.strip()]`:
   * nothing when it is blank, its int otherwise, or None when `int()` raises.
   */
  function PieceInts(piece: string): (r: Option<seq<int>>)
    ensures Strip(piece) == "" ==> r == Some([])
    ensures Strip(piece) != "" ==> (r.Some? <==> PyInt(Strip(piece)).Some?)
    ensures r.Some? && Strip(piece) != "" ==> r.value == [PyInt(Strip(piece)).value]
  {
    var t := Strip(piece);
    if t == "" then Some([])
    else match PyInt(t)
      case None => None
      case Some(n) => Some([n])
  }

  /** Everything `read` yields on the pieces, in order, or None as soon as one piece fails. */
  function ReadEach<T>(pieces: seq<string>, read: string -> Option<seq<T>>): (r: Option<seq<T>>)
    ensures r.Some? <==> forall k :: 0 <= k < |pieces| ==> read(pieces[k]).Some?
    decreases |pieces|
  {
    if |pieces| == 0 then Some([])
    else
      var rest := ReadEach(pieces[1..], read);
      assert forall k :: 1 <= k < |pieces| ==> pieces[k] == pieces[1..][k - 1];
      match read(pieces[0])
      case None => None
      case Some(v) => if rest.None? then None else Some(v + rest.value)
  }

  /** The list comprehension: the blank pieces are dropped and every other one must read as an int. */
  function ReadInts(pieces: seq<string>): (r: Option<seq<int>>)
    ensures r.Some? <==> forall k :: 0 <= k < |pieces| ==> Readable(pieces[k])
  {
    ReadEach(pieces, PieceInts)
  }

  /** A piece the list comprehension skips or reads. */
  predicate Readable(piece: string)
  {
    PieceInts(piece).Some?
  }

  /** How many pieces are not blank. */
  function Kept(pieces: seq<string>): nat
    decreases |pieces|
  {
    if |pieces| == 0 then 0 else (if Strip(pieces[0]) == "" then 0 else 1) + Kept(pieces[1..])
  }

  /** A list that reads has one int per non-blank piece. */
  lemma {:induction false} ReadIntsKeepsNonBlank(pieces: seq<string>)
    ensures ReadInts(pieces).Some? ==> |ReadInts(pieces).value| == Kept(pieces)
    decreases |pieces|
  {
    if |pieces| > 0 {
      ReadIntsKeepsNonBlank(pieces[1..]);
      var _ := PieceInts(pieces[0]);
    }
  }

  /** Two pieces that read give their values one after the other. */
  lemma ReadEachPair<T>(p: string, q: string, read: string -> Option<seq<T>>)
    requires read(p).Some? && read(q).Some?
    ensures ReadEach([p, q], read) == Some(read(p).value + read(q).value)
  {
    assert [p, q][1..] == [q] && [q][1..] == [];
    assert ReadEach([q], read) == Some(read(q).value + []);
    assert read(q).value + [] == read(q).value;
  }

  /**
   * The pattern count of an "Alignment sites / patterns: S / P" line: the
   * second of exactly two numbers after the only colon. A line with another
   * colon, a piece that is not an int or a different count gives nothing.
   */
  function SitesPatternsOf(line: string): Option<int>
  {
    var halves := Split(line, ':');
    if |halves| != 2 then None
    else match ReadInts(Split(halves[1], '/'))
      case None => None
      case Some(numbers) => if |numbers| == 2 then Some(numbers[1]) else None
  }

  /**
   * The percentage of a "Gaps: G%" or "Invariant sites: I%" line as a
   * proportion: the first run of digits and points after the only colon,
   * divided by 100. A run that is not a float (two points, say) gives nothing.
   */
  function PercentOf(line: string): Option<real>
  {
    var halves := Split(line, ':');
    if |halves| != 2 then None
    else
      var runs := Runs(halves[1], DigitsDots);
      if |runs| == 0 then None else Proportion(PyFloat(runs[0]))
  }

  predicate IsSitesLine(line: string) { StartsWith(line, "Alignment sites") }
  predicate IsGapsLine(line: string) { StartsWith(line, "Gaps") }
  predicate IsInvariantLine(line: string) { StartsWith(line, "Invariant sites") || StartsWith(line, "Constant sites") }

  datatype Composition = Composition(patterns: Option<int>, gaps: Option<real>, invariantShare: Option<real>)

  /** How many fields of `c` and `d` differ. */
  function Changed(c: Composition, d: Composition): nat
  {
    (if c.patterns != d.patterns then 1 else 0)
    + (if c.gaps != d.gaps then 1 else 0)
    + (if c.invariantShare != d.invariantShare then 1 else 0)
  }

  /**
   * One iteration of the loop: the labels are tried in turn and only the
   * first that fits is read. A line that starts with whitespace fits none.
   */
  function LegacyStep(c: Composition, line: string): (r: Composition)
    ensures Changed(c, r) <= 1
    ensures |line| > 0 && IsSpace(line[0]) ==> r == c
  {
    HeadingsStartWithLetters(line);
    if IsSitesLine(line) then c.(patterns := Override(c.patterns, SitesPatternsOf(line)))
    else if IsGapsLine(line) then c.(gaps := Override(c.gaps, PercentOf(line)))
    else if IsInvariantLine(line) then c.(invariantShare := Override(c.invariantShare, PercentOf(line)))
    else c
  }

  function LegacyScan(lines: seq<string>): Composition
    decreases |lines|
  {
    if |lines| == 0 then Composition(None, None, None)
    else LegacyStep(LegacyScan(lines[..|lines| - 1]), lines[|lines| - 1])
  }

  function PatternsOf(line: string): Option<int>
  {
    if IsSitesLine(line) then SitesPatternsOf(line) else None
  }

  function GapsOf(line: string): Option<real>
  {
    if !IsSitesLine(line) && IsGapsLine(line) then PercentOf(line) else None
  }

  function InvariantOf(line: string): Option<real>
  {
    if !IsSitesLine(line) && !IsGapsLine(line) && IsInvariantLine(line) then PercentOf(line) else None
  }

  /** Each field comes from the last line that carries its heading and reads. */
  lemma {:induction false} FieldsFromLastLines(lines: seq<string>)
    ensures LegacyScan(lines) == Composition(LastSome(lines, PatternsOf), LastSome(lines, GapsOf), LastSome(lines, InvariantOf))
    decreases |lines|
  {
    if |lines| > 0 { FieldsFromLastLines(lines[..|lines| - 1]); }
  }

  /** Each heading starts with a capital letter. */
  lemma HeadingsStartWithLetters(line: string)
    ensures IsSitesLine(line) ==> line[0] == 'A'
    ensures IsGapsLine(line) ==> line[0] == 'G'
    ensures IsInvariantLine(line) ==> line[0] == 'I' || line[0] == 'C'
  {
    if IsSitesLine(line) { assert line[0] == line[..15][0]; }
    if IsGapsLine(line) { assert line[0] == line[..4][0]; }
    if StartsWith(line, "Invariant sites") { assert line[0] == line[..15][0]; }
    if StartsWith(line, "Constant sites") { assert line[0] == line[..14][0]; }
  }

  /** The labels start with different letters, so the order of the tests never matters. */
  lemma LabelsExclusive(line: string)
    ensures IsSitesLine(line) ==> !IsGapsLine(line) && !IsInvariantLine(line)
    ensures IsGapsLine(line) ==> !IsInvariantLine(line)
  {
    if |line| > 0 {
      assert IsSitesLine(line) ==> line[0] == 'A';
      assert IsGapsLine(line) ==> line[0] == 'G';
      assert IsInvariantLine(line) ==> line[0] == 'I' || line[0] == 'C';
    }
  }

  /** The ValueError the reader raises when a field is missing; it names the log file. */
  function CompositionError(logFile: string): PyError
  {
    ValueError("Error parsing IQ-TREE log file: " + logFile)
  }

  /** `get_patterns_gaps_invariant` on the lines of the file `logFile`. */
  function GetPatternsGapsInvariant(logFile: string, lines: seq<string>): (r: Result<(int, real, real)>)
    ensures r.Ok? <==> LastSome(lines, PatternsOf).Some? && LastSome(lines, GapsOf).Some? && LastSome(lines, InvariantOf).Some?
    ensures r.Ok? ==> r.value == (LastSome(lines, PatternsOf).value, LastSome(lines, GapsOf).value, LastSome(lines, InvariantOf).value)
    ensures r.Err? ==> r.error == CompositionError(logFile)
  {
    var c := LegacyScan(lines);
    FieldsFromLastLines(lines);
    if c.patterns.None? || c.gaps.None? || c.invariantShare.None? then Err(CompositionError(logFile))
    else Ok((c.patterns.value, c.gaps.value, c.invariantShare.value))
  }

  /**
   * A line "H: G" followed by text without digits, points or colons, where
   * the heading H holds no colon, gives G / 100.
   */
  lemma PercentLine(heading: string, g: string, tail: string)
    requires ':' !in heading && ':' !in tail && NoneIn(tail, DigitsDots) && IsUnsignedDecimal(g)
    ensures PercentOf(heading + ": " + g + tail) == Some(DecimalValue(g) / 100.0)
  {
    var line := heading + ": " + g + tail;
    var rest := " " + g + tail;
    HeadingJoined(heading, g, tail);
    DecimalLacks(g, ':');
    assert ':' !in rest;
    SplitJoin([heading, rest], ':');
    RunsOfOne(" ", g, tail, DigitsDots);
    PercentOfRun(line, heading, rest, g);
    PercentValue(g);
  }

  lemma HeadingJoined(heading: string, g: string, tail: string)
    ensures heading + ": " + g + tail == Join([heading, " " + g + tail], ':')
  {
    assert [heading, " " + g + tail][1..] == [" " + g + tail];
    assert heading + ": " + g + tail == heading + [':'] + (" " + g + tail);
  }

  lemma PercentOfRun(line: string, heading: string, rest: string, g: string)
    requires Split(line, ':') == [heading, rest] && Runs(rest, DigitsDots) == [g]
    ensures PercentOf(line) == Proportion(PyFloat(g))
  {
  }

  /** `float(G) / 100.0` for an unsigned decimal G. */
  lemma PercentValue(g: string)
    requires IsUnsignedDecimal(g)
    ensures Proportion(PyFloat(g)) == Some(DecimalValue(g) / 100.0)
  {
    PyFloatOfUnsignedDecimal(g);
    ProportionOf(PyFloat(g), DecimalValue(g));
  }

  /** The line "Gaps: G%" gives the gap proportion G / 100. */
  lemma GapsLine(g: string)
    requires IsUnsignedDecimal(g)
    ensures GapsOf("Gaps: " + g + "%\n") == Some(DecimalValue(g) / 100.0)
  {
    assert "Gaps: " == "Gaps" + ": ";
    PercentTail("%\n");
    PercentLine("Gaps", g, "%\n");
    GapsByHeading("Gaps", g, "%\n");
  }

  lemma GapsByHeading(heading: string, g: string, tail: string)
    requires heading == "Gaps"
    ensures var line := heading + ": " + g + tail; GapsOf(line) == PercentOf(line)
  {
    var line := heading + ": " + g + tail;
    assert line[..4] == heading;
    LabelsExclusive(line);
  }

  /** The line "Invariant sites: I%" gives the invariant share I / 100. */
  lemma InvariantLine(g: string)
    requires IsUnsignedDecimal(g)
    ensures InvariantOf("Invariant sites: " + g + "%\n") == Some(DecimalValue(g) / 100.0)
  {
    assert "Invariant sites: " == "Invariant sites" + ": ";
    PercentTail("%\n");
    PercentLine("Invariant sites", g, "%\n");
    InvariantByHeading("Invariant sites", g, "%\n");
  }

  lemma InvariantByHeading(heading: string, g: string, tail: string)
    requires heading == "Invariant sites"
    ensures var line := heading + ": " + g + tail; InvariantOf(line) == PercentOf(line)
  {
    var line := heading + ": " + g + tail;
    assert line[..15] == heading;
    LabelsExclusive(line);
  }

  lemma PercentTail(tail: string)
    requires tail == "%\n"
    ensures ':' !in tail && NoneIn(tail, DigitsDots)
  {
  }

  /** Padding a word with a blank in front and a blank or line end behind is undone by `strip()`. */
  lemma StripPadded(t: string, after: char)
    requires |t| > 0 && !IsSpace(t[0]) && !IsSpace(t[|t| - 1]) && IsSpace(after)
    ensures Strip(" " + t + [after]) == t
  {
    var s := " " + t + [after];
    assert s[1] == t[0] && s[|t|] == t[|t| - 1];
    StripKnown(s, 1, |t| + 1);
    assert s[1..|t| + 1] == t;
  }

  /** The line the log prints, "Alignment sites / patterns: S / P", gives P. */
  lemma SitesPatternsOfPrintedLine(sites: nat, patterns: nat)
    ensures SitesPatternsOf("Alignment sites / patterns: " + NatToString(sites) + " / " + NatToString(patterns) + "\n")
            == Some(patterns)
  {
    var a := NatToString(sites);
    var b := NatToString(patterns);
    var line := "Alignment sites / patterns: " + a + " / " + b + "\n";
    var left := " " + a + " ";
    var right := " " + b + "\n";
    PrintedLineSplits(a, b);
    ReadPaddedInts(sites, patterns);
    SitesPatternsOfPieces(line, left + "/" + right, [left, right], sites, patterns);
  }

  /** The pattern count is the second int read after the colon. */
  lemma SitesPatternsOfPieces(line: string, numbers: string, pieces: seq<string>, x: int, y: int)
    requires |Split(line, ':')| == 2 && Split(line, ':')[1] == numbers
    requires Split(numbers, '/') == pieces && ReadInts(pieces) == Some([x, y])
    ensures SitesPatternsOf(line) == Some(y)
  {
  }

  /** The printed line splits into the heading and the two padded numbers. */
  lemma PrintedLineSplits(a: string, b: string)
    requires IsDigitString(a) && IsDigitString(b)
    ensures Split("Alignment sites / patterns: " + a + " / " + b + "\n", ':')
            == ["Alignment sites / patterns", (" " + a + " ") + "/" + (" " + b + "\n")]
    ensures Split((" " + a + " ") + "/" + (" " + b + "\n"), '/') == [" " + a + " ", " " + b + "\n"]
  {
    var heading := "Alignment sites / patterns";
    var left := " " + a + " ";
    var right := " " + b + "\n";
    var numbers := left + "/" + right;
    PrintedLineIsJoined(a, b);
    PaddedHasNo(a, ' ', ':');
    PaddedHasNo(b, '\n', ':');
    PaddedHasNo(a, ' ', '/');
    PaddedHasNo(b, '\n', '/');
    assert ':' !in numbers;
    assert ':' !in heading;
    SplitJoin([heading, numbers], ':');
    SplitJoin([left, right], '/');
  }

  /** The printed line is the heading and the padded numbers joined by `:`, and those are joined by `/`. */
  lemma PrintedLineIsJoined(a: string, b: string)
    ensures "Alignment sites / patterns: " + a + " / " + b + "\n"
            == Join(["Alignment sites / patterns", (" " + a + " ") + "/" + (" " + b + "\n")], ':')
    ensures (" " + a + " ") + "/" + (" " + b + "\n") == Join([" " + a + " ", " " + b + "\n"], '/')
  {
    var heading := "Alignment sites / patterns";
    var left := " " + a + " ";
    var right := " " + b + "\n";
    var numbers := left + "/" + right;
    assert [left, right][1..] == [right];
    assert [heading, numbers][1..] == [numbers];
    calc {
      Join([heading, numbers], ':');
      heading + ":" + numbers;
      "Alignment sites / patterns: " + a + " / " + b + "\n";
    }
  }

  /** A digit string padded with a blank and `after` holds no `c` that is neither. */
  lemma PaddedHasNo(t: string, after: char, c: char)
    requires IsDigitString(t) && !IsDigit(c) && c != ' ' && c != after
    ensures c !in " " + t + [after]
  {
    NoDigitIs(t, c);
  }

  /** Both padded numbers read back as the naturals that were printed. */
  lemma ReadPaddedInts(sites: nat, patterns: nat)
    ensures ReadInts([" " + NatToString(sites) + " ", " " + NatToString(patterns) + "\n"]) == Some([sites as int, patterns as int])
  {
    var p := " " + NatToString(sites) + " ";
    var q := " " + NatToString(patterns) + "\n";
    calc {
      ReadInts([p, q]);
      ReadEach([p, q], PieceInts);
      { PaddedNatReads(sites, ' '); PaddedNatReads(patterns, '\n'); ReadEachPair(p, q, PieceInts); }
      Some([sites as int] + [patterns as int]);
      { var x, y := sites as int, patterns as int; assert [x] + [y] == [x, y]; }
      Some([sites as int, patterns as int]);
    }
  }

  /** A natural printed between a blank and a whitespace character is one piece that reads as it. */
  lemma PaddedNatReads(n: nat, after: char)
    requires IsSpace(after)
    ensures PieceInts(" " + NatToString(n) + [after]) == Some([n as int])
  {
    var a := NatToString(n);
    DigitIsNotSpace(a[0]);
    DigitIsNotSpace(a[|a| - 1]);
    StripPadded(a, after);
    PyIntOfDigitString(a);
  }

  /** A digit string holds no `c` other than a digit. */
  lemma NoDigitIs(t: string, c: char)
    requires IsDigitString(t) && !IsDigit(c)
    ensures c !in t
  {
  }

  // ---------------------------------------------------------------------
  // RF-distance summary
  // ---------------------------------------------------------------------

  /** An RF line whose two numbers are read: the absolute distance, then the relative one. */
  predicate IsRfLine(line: string)
  {
    Contains(line, "Robinson-Foulds") || Contains(line, "RF distance")
  }

  /**
   * The absolute distance a line appends: the first of exactly two runs of
   * digits and points, if it reads as a float.
   */
  function AbsEntries(raw: string): (r: seq<real>)
    ensures |r| <= 1
    ensures var values := Runs(Strip(raw), DigitsDots);
      && (|r| == 1 <==> IsRfLine(Strip(raw)) && |values| == 2 && PyFloat(values[0]).Some?)
      && (|r| == 1 ==> r[0] == PyFloat(values[0]).value)
  {
    var line := Strip(raw);
    if !IsRfLine(line) then []
    else
      var values := Runs(line, DigitsDots);
      if |values| != 2 then []
      else match PyFloat(values[0])
        case None => []
        case Some(a) => [a]
  }

  /**
   * The relative distance a line appends: the second run, read only once the
   * first has been appended, since a failing first read leaves the line.
   */
  function RelEntries(raw: string): (r: seq<real>)
    ensures |r| <= |AbsEntries(raw)|
    ensures var values := Runs(Strip(raw), DigitsDots);
      && (|r| == 1 <==> |AbsEntries(raw)| == 1 && PyFloat(values[1]).Some?)
      && (|r| == 1 ==> r[0] == PyFloat(values[1]).value)
  {
    var line := Strip(raw);
    if !IsRfLine(line) then []
    else
      var values := Runs(line, DigitsDots);
      if |values| != 2 then []
      else match PyFloat(values[0])
        case None => []
        case Some(_) =>
          match PyFloat(values[1])
          case None => []
          case Some(r) => [r]
  }

  /** Everything `f` yields on the elements of `xs`, in order. */
  function Collect<T>(xs: seq<string>, f: string -> seq<T>): seq<T>
    decreases |xs|
  {
    if |xs| == 0 then [] else Collect(xs[..|xs| - 1], f) + f(xs[|xs| - 1])
  }

  /** The two lists the loop appends to. */
  datatype RfLists = RfLists(abs: seq<real>, rel: seq<real>)

  /** One iteration of the loop of `get_iqtree_rfdist_results`. */
  function RfStep(d: RfLists, raw: string): RfLists
  {
    var line := Strip(raw);
    if !IsRfLine(line) then d
    else
      var values := Runs(line, DigitsDots);
      if |values| != 2 then d
      else match PyFloat(values[0])
        case None => d
        case Some(a) =>
          match PyFloat(values[1])
          case None => RfLists(d.abs + [a], d.rel)
          case Some(r) => RfLists(d.abs + [a], d.rel + [r])
  }

  function RfScan(lines: seq<string>): RfLists
    decreases |lines|
  {
    if |lines| == 0 then RfLists([], []) else RfStep(RfScan(lines[..|lines| - 1]), lines[|lines| - 1])
  }

  /** The lists hold every line's entries in file order, and the relative list is never the longer. */
  lemma {:induction false} RfListsCollect(lines: seq<string>)
    ensures RfScan(lines) == RfLists(Collect(lines, AbsEntries), Collect(lines, RelEntries))
    ensures |RfScan(lines).rel| <= |RfScan(lines).abs|
    decreases |lines|
  {
    if |lines| > 0 {
      RfListsCollect(lines[..|lines| - 1]);
      RfStepAppendsEntries(RfScan(lines[..|lines| - 1]), lines[|lines| - 1]);
    }
  }

  /** One line appends its absolute entry, then its relative entry. */
  lemma RfStepAppendsEntries(d: RfLists, raw: string)
    ensures RfStep(d, raw) == RfLists(d.abs + AbsEntries(raw), d.rel + RelEntries(raw))
  {
    assert d.abs + [] == d.abs && d.rel + [] == d.rel;
  }

  /**
   * A stripped RF line whose only digits and points are two unsigned
   * decimals X and Y appends X as an absolute and Y as a relative distance.
   */
  lemma RfLineEntries(head: string, x: string, mid: string, y: string, post: string)
    requires NoneIn(head, DigitsDots) && NoneIn(mid, DigitsDots) && NoneIn(post, DigitsDots) && |mid| > 0
    requires IsUnsignedDecimal(x) && IsUnsignedDecimal(y)
    requires var line := head + x + mid + y + post; Strip(line) == line && IsRfLine(line)
    ensures AbsEntries(head + x + mid + y + post) == [DecimalValue(x)]
    ensures RelEntries(head + x + mid + y + post) == [DecimalValue(y)]
  {
    UnsignedDecimalChars(x);
    UnsignedDecimalChars(y);
    RunsOfTwo(head, x, mid, y, post, DigitsDots);
    EntriesOfRuns(head + x + mid + y + post, x, y);
  }

  lemma EntriesOfRuns(line: string, x: string, y: string)
    requires Strip(line) == line && IsRfLine(line) && Runs(line, DigitsDots) == [x, y]
    requires IsUnsignedDecimal(x) && IsUnsignedDecimal(y)
    ensures AbsEntries(line) == [DecimalValue(x)] && RelEntries(line) == [DecimalValue(y)]
  {
    PyFloatOfUnsignedDecimal(x);
    PyFloatOfUnsignedDecimal(y);
    AbsOfRuns(line, x, y, DecimalValue(x));
    RelOfRuns(line, x, y, DecimalValue(x), DecimalValue(y));
  }

  /** Two runs whose first reads as `v`: the line appends `v` to the absolute list. */
  lemma AbsOfRuns(line: string, x: string, y: string, v: real)
    requires Strip(line) == line && IsRfLine(line) && Runs(line, DigitsDots) == [x, y]
    requires PyFloat(x) == Some(v)
    ensures AbsEntries(line) == [v]
  {
  }

  /** Two runs that read as `v` and `w`: the line appends `w` to the relative list. */
  lemma RelOfRuns(line: string, x: string, y: string, v: real, w: real)
    requires Strip(line) == line && IsRfLine(line) && Runs(line, DigitsDots) == [x, y]
    requires PyFloat(x) == Some(v) && PyFloat(y) == Some(w)
    ensures RelEntries(line) == [w]
  {
  }

  /** "Average RF distance: A (relative R)" appends A to the absolute and R to the relative list. */
  lemma AverageRfLine(a: string, r: string)
    requires IsUnsignedDecimal(a) && IsUnsignedDecimal(r)
    ensures var line := "Average RF distance: " + a + " (relative " + r + ")";
      AbsEntries(line) == [DecimalValue(a)] && RelEntries(line) == [DecimalValue(r)]
  {
    AverageRfWords("Average RF distance: ", " (relative ");
    RfLineAt("Average RF distance: ", a, " (relative ", r, 8);
  }

  lemma AverageRfWords(head: string, mid: string)
    requires head == "Average RF distance: " && mid == " (relative "
    ensures NoneIn(head, DigitsDots) && NoneIn(mid, DigitsDots) && |mid| > 0
    ensures head[8..19] == "RF distance" && !IsSpace(head[0])
  {
  }

  /**
   * "Average relative RF distance: R (absolute A)" appends R to the absolute
   * and A to the relative list: the reader takes the numbers in the order
   * they are printed, whatever the words around them say.
   */
  lemma RelativeRfLine(r: string, a: string)
    requires IsUnsignedDecimal(r) && IsUnsignedDecimal(a)
    ensures var line := "Average relative RF distance: " + r + " (absolute " + a + ")";
      AbsEntries(line) == [DecimalValue(r)] && RelEntries(line) == [DecimalValue(a)]
  {
    RelativeRfWords("Average relative RF distance: ", " (absolute ");
    RfLineAt("Average relative RF distance: ", r, " (absolute ", a, 17);
  }

  lemma RelativeRfWords(head: string, mid: string)
    requires head == "Average relative RF distance: " && mid == " (absolute "
    ensures NoneIn(head, DigitsDots) && NoneIn(mid, DigitsDots) && |mid| > 0
    ensures head[17..28] == "RF distance" && !IsSpace(head[0])
  {
    assert head[17..28] == "RF distance";
  }

  /** A line of two numbers that holds "RF distance" in its head appends the numbers in printed order. */
  lemma RfLineAt(head: string, x: string, mid: string, y: string, at: nat)
    requires NoneIn(head, DigitsDots) && NoneIn(mid, DigitsDots) && |mid| > 0
    requires at + 11 <= |head| && head[at..at + 11] == "RF distance" && !IsSpace(head[0])
    requires IsUnsignedDecimal(x) && IsUnsignedDecimal(y)
    ensures AbsEntries(head + x + mid + y + ")") == [DecimalValue(x)]
    ensures RelEntries(head + x + mid + y + ")") == [DecimalValue(y)]
  {
    RfLineShape(head, x, mid, y, at);
    assert NoneIn(")", DigitsDots);
    RfLineEntries(head, x, mid, y, ")");
  }

  /** A line that starts with its head, holds "RF distance" there and ends in `)` is stripped and an RF line. */
  lemma RfLineShape(head: string, x: string, mid: string, y: string, at: nat)
    requires at + 11 <= |head| && head[at..at + 11] == "RF distance" && !IsSpace(head[0])
    ensures var line := head + x + mid + y + ")";
      Strip(line) == line && IsRfLine(line)
  {
    var line := head + x + mid + y + ")";
    assert line[0] == head[0] && line[|line| - 1] == ')';
    assert line[at..at + 11] == head[at..at + 11];
    assert HasAt(line, at, "RF distance");
  }

  /** A line contributes a relative distance exactly when both its numbers read. */
  predicate BothRead(raw: string)
  {
    |RelEntries(raw)| == 1
  }

  /** What `f` collects is non-empty exactly when `f` yields something on some element. */
  lemma {:induction false} CollectNonEmpty<T>(xs: seq<string>, f: string -> seq<T>)
    ensures |Collect(xs, f)| > 0 <==> exists i :: 0 <= i < |xs| && |f(xs[i])| > 0
    decreases |xs|
  {
    if |xs| > 0 {
      var init := xs[..|xs| - 1];
      CollectNonEmpty(init, f);
      assert forall i :: 0 <= i < |init| ==> init[i] == xs[i];
      if exists i :: 0 <= i < |xs| && |f(xs[i])| > 0 {
        var i :| 0 <= i < |xs| && |f(xs[i])| > 0;
        if i < |init| { assert |f(init[i])| > 0; }
      }
    }
  }

  /** The relative list is non-empty exactly when some line has both numbers read. */
  lemma RelNonEmpty(lines: seq<string>)
    ensures |Collect(lines, RelEntries)| > 0 <==> exists i :: 0 <= i < |lines| && BothRead(lines[i])
  {
    CollectNonEmpty(lines, RelEntries);
    assert forall i :: 0 <= i < |lines| ==> (BothRead(lines[i]) <==> |RelEntries(lines[i])| > 0) by {
      forall i | 0 <= i < |lines| ensures BothRead(lines[i]) <==> |RelEntries(lines[i])| > 0 {
        var _ := RelEntries(lines[i]);
      }
    }
  }

  function Sum(xs: seq<real>): real
    decreases |xs|
  {
    if |xs| == 0 then 0.0 else Sum(xs[..|xs| - 1]) + xs[|xs| - 1]
  }

  /** `np.mean` over exact reals. */
  function Mean(xs: seq<real>): real
    requires |xs| > 0
  {
    Sum(xs) / |xs| as real
  }

  /** The sum lies between the count times the least and the count times the greatest element. */
  lemma {:induction false} SumBounds(xs: seq<real>, lo: real, hi: real)
    requires forall k :: 0 <= k < |xs| ==> lo <= xs[k] <= hi
    ensures |xs| as real * lo <= Sum(xs) <= |xs| as real * hi
    decreases |xs|
  {
    if |xs| > 0 {
      var init := xs[..|xs| - 1];
      assert forall k :: 0 <= k < |init| ==> init[k] == xs[k];
      SumBounds(init, lo, hi);
      assert |xs| as real * lo == |init| as real * lo + lo;
      assert |xs| as real * hi == |init| as real * hi + hi;
    }
  }

  /** A mean lies within the range of the averaged values. */
  lemma MeanBounds(xs: seq<real>, lo: real, hi: real)
    requires |xs| > 0
    requires forall k :: 0 <= k < |xs| ==> lo <= xs[k] <= hi
    ensures lo <= Mean(xs) <= hi
  {
    SumBounds(xs, lo, hi);
    var n := |xs| as real;
    DivideBounds(Sum(xs), n, lo, hi);
  }

  lemma DivideBounds(s: real, n: real, lo: real, hi: real)
    requires n > 0.0 && n * lo <= s <= n * hi
    ensures lo <= s / n <= hi
  {
    assert s / n * n == s;
  }

  /** The ValueError raised when no RF line was read; it names the log file. */
  function RfError(logFile: string): PyError
  {
    ValueError("Error parsing RF distances from IQ-TREE log: " + logFile)
  }

  /**
   * `get_iqtree_rfdist_results` on the lines of the file `logFile`: the
   * number of absolute distances read and the means of both lists, or the
   * error when no line had both numbers read.
   */
  function GetIqtreeRfdistResults(logFile: string, lines: seq<string>): (r: Result<(int, real, real)>)
    ensures r.Ok? <==> exists i :: 0 <= i < |lines| && BothRead(lines[i])
    ensures r.Ok? ==> var abs := Collect(lines, AbsEntries);
                      var rel := Collect(lines, RelEntries);
                      |abs| > 0 && |rel| > 0 && r.value == (|abs|, Mean(rel), Mean(abs))
    ensures r.Err? ==> r.error == RfError(logFile)
  {
    var d := RfScan(lines);
    RfListsCollect(lines);
    RelNonEmpty(lines);
    if |d.abs| == 0 || |d.rel| == 0 then Err(RfError(logFile))
    else Ok((|d.abs|, Mean(d.rel), Mean(d.abs)))
  }

  /**
   * `get_iqtree_rfdist_results` as the file is written: the module binds no
   * `np` (the star import brings in only type names), so the return statement
   * raises NameError instead of averaging. It never returns a value.
   */
  function GetIqtreeRfdistResultsAsWritten(logFile: string, lines: seq<string>): (r: Result<(int, real, real)>)
    ensures r.Err?
  {
    var d := RfScan(lines);
    if |d.abs| == 0 || |d.rel| == 0 then Err(RfError(logFile)) else Err(NameError("np"))
  }

  /** Every log the averaging reader gives values for makes the written reader raise NameError. */
  lemma RfMeanNameUnbound(logFile: string, lines: seq<string>)
    requires exists i :: 0 <= i < |lines| && BothRead(lines[i])
    ensures GetIqtreeRfdistResults(logFile, lines).Ok?
    ensures GetIqtreeRfdistResultsAsWritten(logFile, lines) == Err(NameError("np"))
  {
    RfListsCollect(lines);
    RelNonEmpty(lines);
  }
}
