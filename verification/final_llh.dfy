/**
 * The final log-likelihood reader of `iqtree_parser.py`.
 *
 * `get_iqtree_llh` walks the lines of an IQ-TREE log from the last to the
 * first and returns the first number `[-+]?\d+\.\d+` on a line that mentions
 * "Optimal log-likelihood" or "BEST SCORE FOUND"; a marked line without such
 * a number is passed over. `get_all_iqtree_llhs` does this for every path
 * listed in a file. `read_file_contents` is not part of this model: it is a
 * parameter from a path to the file's lines, or None when it raises.
 */
module FinalLlh {
  import opened Wrappers
  import opened Text
  import opened Numbers
  import opened Regex
  import opened Scans
  import opened CustomTypes

  /** The line announces the final score. */
  predicate IsScoreLine(line: string)
  {
    Contains(line, "Optimal log-likelihood") || Contains(line, "BEST SCORE FOUND")
  }

  /** The value a single line contributes: the first signed decimal of a score line. */
  function LineLikelihood(line: string): (r: Option<real>)
    ensures r.Some? <==> IsScoreLine(line) && FirstGroup(SignedFixedPoint, line).Some?
    ensures r.Some? ==>
              var (negative, body) := SplitSign(FirstGroup(SignedFixedPoint, line).value);
              r.value == Signed(negative, DecimalValue(body))
  {
    if IsScoreLine(line) then
      match FirstGroup(SignedFixedPoint, line)
      case None => None
      case Some(g) => PyFloatOfSignedFixedPoint(g); PyFloat(g)
    else None
  }

  /** The message of the ValueError raised when no line yields a value. */
  function NotFound(logFile: FilePath): string
  {
    "Log-likelihood not found in " + logFile
  }

  /** Reference: the value of the latest line that yields one, or the ValueError. */
  function FinalLikelihood(logFile: FilePath, lines: seq<string>): Result<real>
  {
    match LastSome(lines, LineLikelihood)
    case None => Err(ValueError(NotFound(logFile)))
    case Some(x) => Ok(x)
  }

  /**
   * `get_iqtree_llh` on the lines of `logFile`: the value of the last line
   * that yields one; when none does, the ValueError naming the file.
   */
  method GetIqtreeLlh(logFile: FilePath, lines: seq<string>) returns (r: Result<real>)
    ensures r.Ok? <==> exists i :: 0 <= i < |lines| && LineLikelihood(lines[i]).Some?
    ensures r.Ok? ==> exists i :: 0 <= i < |lines| && LineLikelihood(lines[i]) == Some(r.value) &&
                        forall j :: i < j < |lines| ==> LineLikelihood(lines[j]).None?
    ensures r.Err? ==> r.error == ValueError(NotFound(logFile))
    ensures r == FinalLikelihood(logFile, lines)
  {
    var found := FindLast(lines, LineLikelihood);
    if found.Some? {
      return Ok(found.value);
    }
    return Err(ValueError(NotFound(logFile)));
  }

  /** What reading one listed log gives: its final value, or the exception on the way. */
  function LikelihoodAt(path: FilePath, read: FilePath -> Option<seq<string>>): Result<real>
  {
    match read(path)
    case None => Err(HelperError("read_file_contents"))
    case Some(lines) => FinalLikelihood(path, lines)
  }

  /**
   * `[f(x) for x in xs]` when `f` may raise: every value in order, or the
   * exception of the first element that raises.
   */
  method MapUntilError<X, T>(xs: seq<X>, f: X -> Result<T>) returns (r: Result<seq<T>>)
    ensures r.Ok? <==> forall k :: 0 <= k < |xs| ==> f(xs[k]).Ok?
    ensures r.Ok? ==> |r.value| == |xs| && forall k :: 0 <= k < |xs| ==> f(xs[k]) == Ok(r.value[k])
    ensures r.Err? ==> exists k :: 0 <= k < |xs| && f(xs[k]) == Err(r.error) &&
                                   forall j :: 0 <= j < k ==> f(xs[j]).Ok?
  {
    var ys: seq<T> := [];
    var k := 0;
    while k < |xs|
      invariant k <= |xs| && |ys| == k
      invariant forall j :: 0 <= j < k ==> f(xs[j]) == Ok(ys[j])
    {
      var y := f(xs[k]);
      if y.Err? {
        return Err(y.error);
      }
      ys := ys + [y.value];
      k := k + 1;
    }
    return Ok(ys);
  }

  /**
   * `get_all_iqtree_llhs`: one value per listed path, in list order; the
   * first path whose log cannot be read or holds no value raises, and
   * nothing is returned. Each path is read as GetIqtreeLlh reads it
   * (its result is FinalLikelihood).
   */
  method GetAllIqtreeLlhs(logListFile: FilePath, read: FilePath -> Option<seq<string>>) returns (r: Result<seq<real>>)
    ensures read(logListFile).None? ==> r == Err(HelperError("read_file_contents"))
    ensures read(logListFile).Some? ==>
              var paths := read(logListFile).value;
              && (r.Ok? <==> forall k :: 0 <= k < |paths| ==> LikelihoodAt(paths[k], read).Ok?)
              && (r.Ok? ==> |r.value| == |paths| &&
                            forall k :: 0 <= k < |paths| ==> LikelihoodAt(paths[k], read) == Ok(r.value[k]))
              && (r.Err? ==> exists k :: 0 <= k < |paths| && LikelihoodAt(paths[k], read) == Err(r.error) &&
                                         forall j :: 0 <= j < k ==> LikelihoodAt(paths[j], read).Ok?)
  {
    var listed := read(logListFile);
    if listed.None? {
      return Err(HelperError("read_file_contents"));
    }
    r := MapUntilError(listed.value, path => LikelihoodAt(path, read));
  }
}
