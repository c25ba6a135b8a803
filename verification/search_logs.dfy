/**
 * The search and evaluation log readers of `parse_iqtree_logs.py`.
 *
 * The script defines `parse_iqtree_log` and `parse_iqtree_eval_log` twice.
 * The first definitions allow any whitespace after each `name:` and leave an
 * absent iteration count as `None`; the later ones, which are the bindings a
 * caller sees, want exactly one blank and default the count to 0. Both are
 * one engine here, told apart by the Gap and the default.
 *
 * Each field is the group of the leftmost match in the whole file. The
 * `float()` calls may raise (a group such as `1.2.3` or `-`); the handler
 * around the whole body then returns the fields set so far, so a failure
 * blanks the field it was reading and every later one. An unreadable file
 * gives the record as first initialised.
 */
module SearchLogs {
  import opened Wrappers
  import opened Text
  import opened Numbers
  import opened Regex

  /** `Log-likelihood of the tree:` then `[-\d.]+`. */
  function LikelihoodOfTree(gap: Gap): Pattern { Field("Log-likelihood of the tree", gap, DigitsDotsMinus, "") }

  /** `Total number of iterations:` then `\d+`. */
  function IterationCount(gap: Gap): Pattern { Field("Total number of iterations", gap, Digits, "") }

  /** `Total time:` then `[\d.]+` and ` seconds`. */
  function TotalTime(gap: Gap): Pattern { Field("Total time", gap, DigitsDots, " seconds") }

  /** `Model of evolution:` then the rest of the line. */
  function ModelOfEvolution(gap: Gap): Pattern { FieldText("Model of evolution", gap) }

  /** `Log-likelihood:` then `[-\d.]+`. */
  function EvalLikelihood(gap: Gap): Pattern { Field("Log-likelihood", gap, DigitsDotsMinus, "") }

  /** `Time:` then `[\d.]+` and ` seconds`. */
  function EvalTime(gap: Gap): Pattern { Field("Time", gap, DigitsDots, " seconds") }

  /** What `float(re.search(p, s).group(1))` does: no match, a value, or an exception. */
  datatype Reading = Absent | Read(value: real) | Fails

  function FloatField(p: Pattern, s: string): (r: Reading)
    ensures r.Absent? <==> FirstGroup(p, s).None?
    ensures r.Fails? <==> FirstGroup(p, s).Some? && PyFloat(FirstGroup(p, s).value).None?
    ensures r.Read? ==> PyFloat(FirstGroup(p, s).value) == Some(r.value)
  {
    match FirstGroup(p, s)
    case None => Absent
    case Some(g) =>
      match PyFloat(g)
      case None => Fails
      case Some(x) => Read(x)
  }

  /** The value a reading stores in its field. */
  function Found(r: Reading): Option<real>
  {
    if r.Read? then Some(r.value) else None
  }

  datatype SearchLog = SearchLog(logLikelihood: Option<real>, iterations: Option<int>, runtime: Option<real>, model: Option<string>)

  /** The record before anything is read. */
  function Unread(unsetIterations: Option<int>): SearchLog
  {
    SearchLog(None, unsetIterations, None, None)
  }

  /** The iteration count: `int()` of its digits, or the default. */
  function IterationsIn(gap: Gap, s: string, unsetIterations: Option<int>): (r: Option<int>)
    ensures FirstGroup(IterationCount(gap), s).None? ==> r == unsetIterations
    ensures FirstGroup(IterationCount(gap), s).Some? ==>
              r.Some? && r == PyInt(FirstGroup(IterationCount(gap), s).value) && r.value >= 0
  {
    match FirstGroup(IterationCount(gap), s)
    case None => unsetIterations
    case Some(g) => GroupInt(Some(g))
  }

  /** The model name: the rest of its line, stripped. */
  function ModelIn(gap: Gap, s: string): (r: Option<string>)
    ensures r.Some? <==> FirstGroup(ModelOfEvolution(gap), s).Some?
    ensures r.Some? ==> r.value == Strip(FirstGroup(ModelOfEvolution(gap), s).value)
    ensures r.Some? ==> AllIn(r.value, NotNewline)
  {
    match FirstGroup(ModelOfEvolution(gap), s)
    case None => None
    case Some(g) => StripKeepsClass(g, NotNewline); Some(Strip(g))
  }

  /**
   * `parse_iqtree_log` on the file's content (None when it cannot be read):
   * each field comes from the first match of its pattern, in the order
   * log-likelihood, iterations, runtime, model; a `float()` that raises
   * leaves its own field and all later ones as initialised.
   */
  function ParseSearchLog(gap: Gap, unsetIterations: Option<int>, content: Option<string>): (r: SearchLog)
    ensures r.iterations != unsetIterations ==> r.iterations.Some? && r.iterations.value >= 0
    ensures r.model.Some? ==> AllIn(r.model.value, NotNewline)
    ensures r.model.Some? ==> r.model.value == [] || (!IsSpace(r.model.value[0]) && !IsSpace(r.model.value[|r.model.value| - 1]))
    ensures content.None? ==> r == Unread(unsetIterations)
    ensures content.Some? && FloatField(LikelihoodOfTree(gap), content.value).Fails? ==>
              r == Unread(unsetIterations)
    ensures content.Some? && !FloatField(LikelihoodOfTree(gap), content.value).Fails? ==>
              && r.logLikelihood == Found(FloatField(LikelihoodOfTree(gap), content.value))
              && r.iterations == IterationsIn(gap, content.value, unsetIterations)
              && (FloatField(TotalTime(gap), content.value).Fails? ==> r.runtime.None? && r.model.None?)
              && (!FloatField(TotalTime(gap), content.value).Fails? ==>
                    r.runtime == Found(FloatField(TotalTime(gap), content.value)) &&
                    r.model == ModelIn(gap, content.value))
  {
    match content
    case None => Unread(unsetIterations)
    case Some(s) =>
      var llh := FloatField(LikelihoodOfTree(gap), s);
      if llh.Fails? then Unread(unsetIterations)
      else
        var iterations := IterationsIn(gap, s, unsetIterations);
        var time := FloatField(TotalTime(gap), s);
        if time.Fails? then SearchLog(Found(llh), iterations, None, None)
        else SearchLog(Found(llh), iterations, Found(time), ModelIn(gap, s))
  }

  /** The binding callers see: one blank after each colon, iterations default to 0. */
  function ParseIqtreeLog(content: Option<string>): SearchLog
  {
    ParseSearchLog(OneSpace, Some(0), content)
  }

  /** The first definition: any whitespace after each colon, iterations default to None. */
  function ParseIqtreeLogFirst(content: Option<string>): SearchLog
  {
    ParseSearchLog(AnySpace, None, content)
  }

  /**
   * The log-likelihood is the value at the first place where its label and a
   * readable number stand, and nothing earlier in the file matters.
   */
  lemma SearchLikelihoodIsLeftmost(gap: Gap, unsetIterations: Option<int>, s: string, i: nat, x: real)
    requires i <= |s| && MatchAt(LikelihoodOfTree(gap), s, i).Some?
    requires forall j :: 0 <= j < i ==> MatchAt(LikelihoodOfTree(gap), s, j).None?
    requires PyFloat(MatchAt(LikelihoodOfTree(gap), s, i).value.group) == Some(x)
    ensures ParseSearchLog(gap, unsetIterations, Some(s)).logLikelihood == Some(x)
  {
    FirstGroupIsLeftmost(LikelihoodOfTree(gap), s, i);
  }

  /**
   * A file the later reader finds a log-likelihood label in, the first reader
   * finds one in as well, no later in the file.
   */
  lemma FirstReaderSeesNewerLabels(s: string)
    requires FirstGroup(LikelihoodOfTree(OneSpace), s).Some?
    ensures FirstGroup(LikelihoodOfTree(AnySpace), s).Some?
    ensures Search(LikelihoodOfTree(AnySpace), s, 0).value.start <= Search(LikelihoodOfTree(OneSpace), s, 0).value.start
  {
    AnySpaceFieldFindsNoLater("Log-likelihood of the tree", DigitsDotsMinus, "", s);
  }

  // ---------------------------------------------------------------------
  // Evaluation logs
  // ---------------------------------------------------------------------

  datatype EvalLog = EvalLog(logLikelihood: Option<real>, runtime: Option<real>)

  /**
   * `parse_iqtree_eval_log`: the first `Log-likelihood:` value, then the first
   * `Time: ... seconds` value; a failing log-likelihood read leaves both unset.
   */
  function ParseEvalLog(gap: Gap, content: Option<string>): (r: EvalLog)
    ensures content.None? ==> r == EvalLog(None, None)
    ensures content.Some? && FloatField(EvalLikelihood(gap), content.value).Fails? ==> r == EvalLog(None, None)
    ensures content.Some? && !FloatField(EvalLikelihood(gap), content.value).Fails? ==>
              r == EvalLog(Found(FloatField(EvalLikelihood(gap), content.value)),
                           Found(FloatField(EvalTime(gap), content.value)))
  {
    match content
    case None => EvalLog(None, None)
    case Some(s) =>
      var llh := FloatField(EvalLikelihood(gap), s);
      if llh.Fails? then EvalLog(None, None)
      else EvalLog(Found(llh), Found(FloatField(EvalTime(gap), s)))
  }

  /**
   * The evaluation log-likelihood is the value at the first place where
   * `Log-likelihood:` and a readable number stand.
   */
  lemma EvalLikelihoodIsLeftmost(gap: Gap, s: string, i: nat, x: real)
    requires i <= |s| && MatchAt(EvalLikelihood(gap), s, i).Some?
    requires forall j :: 0 <= j < i ==> MatchAt(EvalLikelihood(gap), s, j).None?
    requires PyFloat(MatchAt(EvalLikelihood(gap), s, i).value.group) == Some(x)
    ensures ParseEvalLog(gap, Some(s)).logLikelihood == Some(x)
  {
    FirstGroupIsLeftmost(EvalLikelihood(gap), s, i);
  }

  /** A file with no `Log-likelihood:` label yields no evaluation log-likelihood. */
  lemma EvalLikelihoodNeedsLabel(gap: Gap, s: string)
    requires forall i :: 0 <= i <= |s| ==> !HasAt(s, i, "Log-likelihood:")
    ensures ParseEvalLog(gap, Some(s)).logLikelihood.None?
  {
    assert "Log-likelihood" + ":" == "Log-likelihood:";
    forall i | 0 <= i <= |s|
      ensures MatchAt(EvalLikelihood(gap), s, i).None?
    {
      assert !HasAt(s, i, "Log-likelihood" + ":");
    }
    FirstGroupAbsent(EvalLikelihood(gap), s);
  }

  // ---------------------------------------------------------------------
  // Aggregated logs
  // ---------------------------------------------------------------------

  /** The groups of a list of matches, in order. */
  function Groups(ms: seq<Match>): (gs: seq<string>)
    ensures |gs| == |ms|
    ensures forall k :: 0 <= k < |ms| ==> gs[k] == ms[k].group
  {
    seq(|ms|, k requires 0 <= k < |ms| => ms[k].group)
  }

  /** The groups of every match of `first`, then of every match of `second`, each in file order. */
  function TwoPassGroups(first: Pattern, second: Pattern, s: string): seq<string>
  {
    Groups(FindAll(first, s, 0)) + Groups(FindAll(second, s, 0))
  }

  /**
   * Every value `get_all_iqtree_llhs_from_aggregated` would read: all
   * `Log-likelihood:` groups, then all `Log-likelihood of the tree:` groups.
   */
  function AggregatedGroups(s: string): seq<string>
  {
    TwoPassGroups(EvalLikelihood(AnySpace), LikelihoodOfTree(AnySpace), s)
  }

  /** `xs` is what appending `read(g)` for each `g` of `gs` collects before the first read that fails. */
  predicate ReadsUntilFailure<T(==)>(gs: seq<string>, read: string -> Option<T>, xs: seq<T>)
  {
    && |xs| <= |gs|
    && (forall k :: 0 <= k < |xs| ==> read(gs[k]) == Some(xs[k]))
    && (|xs| < |gs| ==> read(gs[|xs|]).None?)
  }

  /** Appends `read(g)` for each group in turn until a read fails. */
  method ReadUntilFailure<T(==)>(gs: seq<string>, read: string -> Option<T>) returns (xs: seq<T>)
    ensures ReadsUntilFailure(gs, read, xs)
  {
    xs := [];
    var i := 0;
    while i < |gs|
      invariant i <= |gs| && |xs| == i
      invariant forall k :: 0 <= k < i ==> read(gs[k]) == Some(xs[k])
    {
      var x := read(gs[i]);
      if x.None? {
        return;
      }
      xs := xs + [x.value];
      i := i + 1;
    }
  }

  /**
   * `get_all_iqtree_llhs_from_aggregated`: the values read from every match
   * of the two patterns, stopping at the first that `float()` rejects; an
   * unreadable file gives the empty list.
   */
  method GetAllLlhsFromAggregated(content: Option<string>) returns (llhs: seq<real>)
    ensures content.None? ==> llhs == []
    ensures content.Some? ==> ReadsUntilFailure(AggregatedGroups(content.value), PyFloat, llhs)
  {
    if content.None? {
      return [];
    }
    // The two finditer loops run one after the other, so together they read
    // the concatenation of their groups.
    llhs := ReadUntilFailure(AggregatedGroups(content.value), PyFloat);
  }
}
