/**
 * The argument vectors the IQ-TREE wrapper class builds, the files it then
 * reads, and the default prefix of its log-parsing entry points.
 *
 * Every vector is the executable followed by a list of settings, each
 * written `-key` or `-key value`; ReadCommand reads such a vector back the way
 * a command-line parser would, and reads each builder's vector back as
 * exactly the settings the builder passes, when no value starts with `-`.
 */
module IqTree {
  import opened Wrappers
  import opened Text
  import opened Numbers
  import opened CustomTypes

  /**
   * Keyword settings in call order (a dict's order of insertion), their values
   * already turned into text; `None` is a flag written without a value.
   */
  type Flags = seq<(string, Option<string>)>

  /** The tokens of one setting. */
  function EntryTokens(entry: (string, Option<string>)): seq<string>
  {
    match entry.1
    case None => ["-" + entry.0]
    case Some(v) => ["-" + entry.0, v]
  }

  /** How many settings carry a value. */
  function ValuedCount(flags: Flags): nat
  {
    if |flags| == 0 then 0 else (if flags[0].1.Some? then 1 else 0) + ValuedCount(flags[1..])
  }

  /** The tokens of all settings, in order. */
  function FlagTokens(flags: Flags): (tokens: seq<string>)
    ensures |tokens| == |flags| + ValuedCount(flags)
    ensures |flags| > 0 ==> tokens[0] == "-" + flags[0].0
  {
    if |flags| == 0 then [] else EntryTokens(flags[0]) + FlagTokens(flags[1..])
  }

  /** Settings are written one after the other. */
  lemma {:induction false} FlagTokensAppend(a: Flags, b: Flags)
    ensures FlagTokens(a + b) == FlagTokens(a) + FlagTokens(b)
    decreases |a|
  {
    if |a| > 0 {
      assert (a + b)[1..] == a[1..] + b;
      FlagTokensAppend(a[1..], b);
    } else {
      assert a + b == b;
    }
  }

  lemma FlagTokensSingle(entry: (string, Option<string>))
    ensures FlagTokens([entry]) == EntryTokens(entry)
  {
    assert [entry][1..] == [];
  }

  lemma FlagTokensCons(entry: (string, Option<string>), rest: Flags)
    ensures FlagTokens([entry] + rest) == EntryTokens(entry) + FlagTokens(rest)
  {
    assert ([entry] + rest)[1..] == rest;
  }

  lemma FlagTokensTriple(a: (string, Option<string>), b: (string, Option<string>), c: (string, Option<string>))
    ensures FlagTokens([a, b, c]) == EntryTokens(a) + EntryTokens(b) + EntryTokens(c)
  {
    FlagTokensSingle(c);
    FlagTokensCons(b, [c]);
    FlagTokensCons(a, [b, c]);
    assert [b] + [c] == [b, c] && [a] + [b, c] == [a, b, c];
  }

  /** Three settings with values are written as three key-value pairs. */
  lemma ValuedTripleTokens(a: string, x: string, b: string, y: string, c: string, z: string)
    ensures FlagTokens([Valued(a, x), Valued(b, y), Valued(c, z)]) == ["-" + a, x, "-" + b, y, "-" + c, z]
  {
    FlagTokensTriple(Valued(a, x), Valued(b, y), Valued(c, z));
  }

  /** No value could be mistaken for a flag. */
  predicate PlainValues(flags: Flags)
  {
    forall k :: 0 <= k < |flags| ==> flags[k].1.None? || !StartsWith(flags[k].1.value, "-")
  }

  /**
   * Reads settings back from tokens: a token `-key` is a flag, and takes the
   * next token as its value unless that one is a flag too.
   */
  function ReadFlags(tokens: seq<string>): Option<Flags>
    decreases |tokens|
  {
    if |tokens| == 0 then Some([])
    else if !StartsWith(tokens[0], "-") then None
    else
      var key := tokens[0][1..];
      if |tokens| > 1 && !StartsWith(tokens[1], "-") then
        match ReadFlags(tokens[2..])
        case None => None
        case Some(rest) => Some([(key, Some(tokens[1]))] + rest)
      else
        match ReadFlags(tokens[1..])
        case None => None
        case Some(rest) => Some([(key, None)] + rest)
  }

  /** Reading the written settings gives them back, as long as no value looks like a flag. */
  lemma {:induction false} ReadFlagTokens(flags: Flags)
    requires PlainValues(flags)
    ensures ReadFlags(FlagTokens(flags)) == Some(flags)
    decreases |flags|
  {
    if |flags| > 0 {
      var tokens := FlagTokens(flags);
      var (key, value) := flags[0];
      assert PlainValues(flags[1..]) by {
        forall k | 0 <= k < |flags[1..]|
          ensures flags[1..][k].1.None? || !StartsWith(flags[1..][k].1.value, "-")
        {
          assert flags[1..][k] == flags[k + 1];
        }
      }
      ReadFlagTokens(flags[1..]);
      var rest := FlagTokens(flags[1..]);
      assert ("-" + key)[1..] == key;
      assert StartsWith("-" + key, "-") by { assert ("-" + key)[..1] == "-"; }
      match value
      case None =>
        assert tokens == ["-" + key] + rest;
        assert tokens[1..] == rest;
        if |rest| > 0 {
          assert rest[0] == "-" + flags[1..][0].0;
          assert ("-" + flags[1..][0].0)[..1] == "-";
        }
        assert [(key, None)] + flags[1..] == flags;
      case Some(v) =>
        assert !StartsWith(flags[0].1.value, "-");
        assert tokens == ["-" + key, v] + rest;
        assert tokens[2..] == rest;
        assert [(key, Some(v))] + flags[1..] == flags;
    }
  }

  /** An argument vector as IQ-TREE sees it: the program and its settings. */
  datatype Invocation = Invocation(exe: Executable, settings: Flags)

  function ReadCommand(cmd: Command): Option<Invocation>
  {
    if |cmd| == 0 then None
    else match ReadFlags(cmd[1..])
      case None => None
      case Some(settings) => Some(Invocation(cmd[0], settings))
  }

  /** A vector that is the executable followed by written settings reads back as those settings. */
  lemma ReadWrittenCommand(exe: Executable, settings: Flags)
    requires PlainValues(settings)
    ensures ReadCommand([exe] + FlagTokens(settings)) == Some(Invocation(exe, settings))
  {
    ReadFlagTokens(settings);
    assert ([exe] + FlagTokens(settings))[1..] == FlagTokens(settings);
  }

  /** The value a setting written `-key value` carries. */
  function Valued(key: string, value: string): (string, Option<string>)
  {
    (key, Some(value))
  }

  /** The settings `_base_cmd` passes before the caller's keyword settings. */
  function BaseSettings(msa: FilePath, model: Model, prefix: string): Flags
  {
    [Valued("s", msa), Valued("m", model), Valued("pre", prefix)]
  }

  lemma BaseSettingsTokens(msa: FilePath, model: Model, prefix: string)
    ensures FlagTokens(BaseSettings(msa, model, prefix)) == ["-s", msa, "-m", model, "-pre", prefix]
  {
    var f := BaseSettings(msa, model, prefix);
    assert "-" + "s" == "-s" && "-" + "m" == "-m" && "-" + "pre" == "-pre";
    FlagTokensSingle(f[2]);
    FlagTokensCons(f[1], f[2..]);
    FlagTokensCons(f[0], f[1..]);
    assert f == [f[0]] + f[1..] && f[1..] == [f[1]] + f[2..] && f[2..] == [f[2]];
  }

  /** `IQTree._base_cmd`. */
  function BaseCommand(exe: Executable, msa: FilePath, model: Model, prefix: string, flags: Flags): (cmd: Command)
    ensures |cmd| == 7 + |flags| + ValuedCount(flags)
    ensures cmd[..7] == [exe, "-s", msa, "-m", model, "-pre", prefix]
    ensures cmd[7..] == FlagTokens(flags)
  {
    [exe, "-s", msa, "-m", model, "-pre", prefix] + FlagTokens(flags)
  }

  /** A base command whose settings start with `own` holds the tokens of `own` right after the fixed part. */
  lemma BaseCommandOwnSettings(exe: Executable, msa: FilePath, model: Model, prefix: string, own: Flags, flags: Flags)
    ensures var cmd := BaseCommand(exe, msa, model, prefix, own + flags);
            var n := |FlagTokens(own)|;
            && |cmd| == 7 + n + |FlagTokens(flags)|
            && cmd[7..7 + n] == FlagTokens(own)
            && cmd[7 + n..] == FlagTokens(flags)
  {
    FlagTokensAppend(own, flags);
    SplitTail(BaseCommand(exe, msa, model, prefix, own + flags), 7, FlagTokens(own), FlagTokens(flags));
  }

  /** A sequence whose tail from `p` is `a + b` holds `a` and then `b` from `p` on. */
  lemma SplitTail<T>(xs: seq<T>, p: nat, a: seq<T>, b: seq<T>)
    requires p <= |xs| && xs[p..] == a + b
    ensures |xs| == p + |a| + |b|
    ensures xs[p..p + |a|] == a && xs[p + |a|..] == b
  {
    assert xs[p..p + |a|] == xs[p..][..|a|];
    assert xs[p + |a|..] == xs[p..][|a|..];
  }

  /** ReadCommand reads the base vector as the alignment, the model, the prefix, then the caller's settings in order. */
  lemma BaseCommandReads(exe: Executable, msa: FilePath, model: Model, prefix: string, flags: Flags)
    requires PlainValues(BaseSettings(msa, model, prefix) + flags)
    ensures ReadCommand(BaseCommand(exe, msa, model, prefix, flags))
            == Some(Invocation(exe, BaseSettings(msa, model, prefix) + flags))
  {
    var fixed := BaseSettings(msa, model, prefix);
    calc {
      BaseCommand(exe, msa, model, prefix, flags);
      [exe] + (["-s", msa, "-m", model, "-pre", prefix] + FlagTokens(flags));
      { BaseSettingsTokens(msa, model, prefix); }
      [exe] + (FlagTokens(fixed) + FlagTokens(flags));
      { FlagTokensAppend(fixed, flags); }
      [exe] + FlagTokens(fixed + flags);
    }
    ReadWrittenCommand(exe, fixed + flags);
  }

  /** The vector `IQTree._run_rfdist` runs. */
  function RfDistCommand(exe: Executable, trees: FilePath, prefix: string, flags: Flags): (cmd: Command)
    ensures |cmd| == 5 + |flags| + ValuedCount(flags)
    ensures cmd[..5] == [exe, "-rfdist", trees, "-pre", prefix]
    ensures cmd[5..] == FlagTokens(flags)
  {
    [exe, "-rfdist", trees, "-pre", prefix] + FlagTokens(flags)
  }

  lemma RfDistCommandReads(exe: Executable, trees: FilePath, prefix: string, flags: Flags)
    requires PlainValues([Valued("rfdist", trees), Valued("pre", prefix)] + flags)
    ensures ReadCommand(RfDistCommand(exe, trees, prefix, flags))
            == Some(Invocation(exe, [Valued("rfdist", trees), Valued("pre", prefix)] + flags))
  {
    var fixed := [Valued("rfdist", trees), Valued("pre", prefix)];
    calc {
      RfDistCommand(exe, trees, prefix, flags);
      [exe] + (["-rfdist", trees, "-pre", prefix] + FlagTokens(flags));
      { assert "-" + "rfdist" == "-rfdist" && "-" + "pre" == "-pre";
        FlagTokensSingle(fixed[1]);
        FlagTokensCons(fixed[0], [fixed[1]]);
        assert [fixed[0]] + [fixed[1]] == fixed; }
      [exe] + (FlagTokens(fixed) + FlagTokens(flags));
      { FlagTokensAppend(fixed, flags); }
      [exe] + FlagTokens(fixed + flags);
    }
    ReadWrittenCommand(exe, fixed + flags);
  }

  /** The key of the first caller setting that is one of `taken`, if any. */
  function FirstTaken(flags: Flags, taken: set<string>): (r: Option<string>)
    ensures r.Some? ==> r.value in taken && exists k :: 0 <= k < |flags| && flags[k].0 == r.value
    ensures r.None? <==> forall k :: 0 <= k < |flags| ==> flags[k].0 !in taken
  {
    if |flags| == 0 then None
    else if flags[0].0 in taken then Some(flags[0].0)
    else
      var r := FirstTaken(flags[1..], taken);
      assert forall k :: 1 <= k < |flags| ==> flags[k] == flags[1..][k - 1];
      r
  }

  /** The exception Python raises when a call names the same keyword twice. */
  function DuplicateKeyword(key: string): PyError
  {
    TypeError("IQTree._base_cmd() got multiple values for keyword argument '" + key + "'")
  }

  /** The starting-tree request `pars{N}`: N parsimony trees. */
  function ParsimonyTreeSpec(nTrees: int): string
  {
    "pars{" + IntToString(nTrees) + "}"
  }

  /** The settings `infer_parsimony_trees` writes before the caller's: `-start` alone, then `-tree pars{N}`. */
  function ParsimonySettings(nTrees: int): Flags
  {
    [("start", None), Valued("tree", ParsimonyTreeSpec(nTrees))]
  }

  lemma ParsimonySettingsTokens(nTrees: int)
    ensures FlagTokens(ParsimonySettings(nTrees)) == ["-start", "-tree", ParsimonyTreeSpec(nTrees)]
  {
    var own := ParsimonySettings(nTrees);
    assert "-" + "start" == "-start" && "-" + "tree" == "-tree";
    FlagTokensSingle(own[1]);
    FlagTokensCons(own[0], own[1..]);
    assert own == [own[0]] + own[1..] && own[1..] == [own[1]];
  }

  /**
   * `IQTree.infer_parsimony_trees`: the command and the tree file it names.
   * A caller setting named `start` or `tree` clashes with the keywords the
   * method passes itself.
   */
  function InferParsimonyTrees(exe: Executable, msa: FilePath, model: Model, prefix: string, nTrees: int, flags: Flags)
    : (r: Result<(Command, FilePath)>)
    ensures r.Err? <==> exists k :: 0 <= k < |flags| && flags[k].0 in {"start", "tree"}
    ensures r.Ok? ==> r.value.1 == prefix + ".treefile"
    ensures r.Ok? ==> |r.value.0| == 10 + |flags| + ValuedCount(flags)
    ensures r.Ok? ==> r.value.0[..7] == [exe, "-s", msa, "-m", model, "-pre", prefix]
    ensures r.Ok? ==> r.value.0[7..10] == ["-start", "-tree", ParsimonyTreeSpec(nTrees)]
    ensures r.Ok? ==> r.value.0[10..] == FlagTokens(flags)
  {
    match FirstTaken(flags, {"start", "tree"})
    case Some(key) => Err(DuplicateKeyword(key))
    case None =>
      var own := ParsimonySettings(nTrees);
      ParsimonySettingsTokens(nTrees);
      BaseCommandOwnSettings(exe, msa, model, prefix, own, flags);
      Ok((BaseCommand(exe, msa, model, prefix, own + flags), prefix + ".treefile"))
  }

  /**
   * ReadCommand reads the parsimony vector as the alignment, the model, the
   * prefix, `-start` without a value, `-tree pars{N}`, then the caller's settings.
   */
  lemma InferParsimonyTreesReads(exe: Executable, msa: FilePath, model: Model, prefix: string, nTrees: int, flags: Flags)
    requires InferParsimonyTrees(exe, msa, model, prefix, nTrees, flags).Ok?
    requires PlainValues(BaseSettings(msa, model, prefix) + ParsimonySettings(nTrees) + flags)
    ensures ReadCommand(InferParsimonyTrees(exe, msa, model, prefix, nTrees, flags).value.0)
            == Some(Invocation(exe, BaseSettings(msa, model, prefix) + ParsimonySettings(nTrees) + flags))
  {
    var own := ParsimonySettings(nTrees);
    assert BaseSettings(msa, model, prefix) + own + flags == BaseSettings(msa, model, prefix) + (own + flags);
    BaseCommandReads(exe, msa, model, prefix, own + flags);
  }

  /** The tree count written into `pars{N}` reads back as N. */
  lemma ParsimonyTreeSpecReads(nTrees: int)
    ensures var t := ParsimonyTreeSpec(nTrees);
            |t| >= 6 && t[..5] == "pars{" && t[|t| - 1] == '}' && PyInt(t[5..|t| - 1]) == Some(nTrees)
  {
    Braced(IntToString(nTrees));
    PyIntReadsIntToString(nTrees);
  }

  /** `pars{` and `}` around a text can be taken off again. */
  lemma Braced(d: string)
    ensures var t := "pars{" + d + "}";
            |t| >= 6 && t[..5] == "pars{" && t[|t| - 1] == '}' && t[5..|t| - 1] == d
  {
  }

  /** The tree count written into `-tree pars{N}` reads back as N. */
  lemma ParsimonyTreeCount(exe: Executable, msa: FilePath, model: Model, prefix: string, nTrees: int, flags: Flags)
    requires InferParsimonyTrees(exe, msa, model, prefix, nTrees, flags).Ok?
    ensures var t := InferParsimonyTrees(exe, msa, model, prefix, nTrees, flags).value.0[9];
            |t| >= 6 && t[..5] == "pars{" && t[|t| - 1] == '}' && PyInt(t[5..|t| - 1]) == Some(nTrees)
  {
    var cmd := InferParsimonyTrees(exe, msa, model, prefix, nTrees, flags).value.0;
    assert cmd[9] == cmd[7..10][2] == ParsimonyTreeSpec(nTrees);
    ParsimonyTreeSpecReads(nTrees);
  }

  /**
   * `IQTree.infer_tree`: the command and the tree file it names. A caller
   * setting named `start` clashes with the starting-tree keyword.
   */
  function InferTree(exe: Executable, msa: FilePath, model: Model, prefix: string, startingTree: string, flags: Flags)
    : (r: Result<(Command, FilePath)>)
    ensures r.Err? <==> exists k :: 0 <= k < |flags| && flags[k].0 == "start"
    ensures r.Ok? ==> r.value.1 == prefix + ".treefile"
    ensures r.Ok? ==> |r.value.0| == 9 + |flags| + ValuedCount(flags)
    ensures r.Ok? ==> r.value.0[..7] == [exe, "-s", msa, "-m", model, "-pre", prefix]
    ensures r.Ok? ==> r.value.0[7..9] == ["-start", startingTree]
    ensures r.Ok? ==> r.value.0[9..] == FlagTokens(flags)
  {
    match FirstTaken(flags, {"start"})
    case Some(key) => Err(DuplicateKeyword(key))
    case None =>
      assert "-" + "start" == "-start";
      FlagTokensSingle(Valued("start", startingTree));
      BaseCommandOwnSettings(exe, msa, model, prefix, [Valued("start", startingTree)], flags);
      Ok((BaseCommand(exe, msa, model, prefix, [Valued("start", startingTree)] + flags), prefix + ".treefile"))
  }

  /**
   * ReadCommand reads the inference vector as the alignment, the model, the
   * prefix, the starting tree, then the caller's settings.
   */
  lemma InferTreeReads(exe: Executable, msa: FilePath, model: Model, prefix: string, startingTree: string, flags: Flags)
    requires InferTree(exe, msa, model, prefix, startingTree, flags).Ok?
    requires PlainValues(BaseSettings(msa, model, prefix) + [Valued("start", startingTree)] + flags)
    ensures ReadCommand(InferTree(exe, msa, model, prefix, startingTree, flags).value.0)
            == Some(Invocation(exe, BaseSettings(msa, model, prefix) + [Valued("start", startingTree)] + flags))
  {
    var own := [Valued("start", startingTree)];
    assert BaseSettings(msa, model, prefix) + own + flags == BaseSettings(msa, model, prefix) + (own + flags);
    BaseCommandReads(exe, msa, model, prefix, own + flags);
  }

  /** The settings `evaluate_tree` writes before the caller's. */
  function EvaluateSettings(msa: FilePath, tree: FilePath, model: Model, prefix: string): Flags
  {
    [Valued("s", msa), Valued("t", tree), Valued("m", model), Valued("pre", prefix), Valued("n", "0")]
  }

  lemma EvaluateSettingsTokens(msa: FilePath, tree: FilePath, model: Model, prefix: string)
    ensures FlagTokens(EvaluateSettings(msa, tree, model, prefix))
            == ["-s", msa, "-t", tree, "-m", model, "-pre", prefix, "-n", "0"]
  {
    var first := [Valued("s", msa), Valued("t", tree), Valued("m", model)];
    var last := [Valued("pre", prefix), Valued("n", "0")];
    calc {
      FlagTokens(EvaluateSettings(msa, tree, model, prefix));
      { assert EvaluateSettings(msa, tree, model, prefix) == first + last; }
      FlagTokens(first + last);
      { FlagTokensAppend(first, last); }
      FlagTokens(first) + FlagTokens(last);
      { ValuedTripleTokens("s", msa, "t", tree, "m", model);
        assert "-" + "s" == "-s" && "-" + "t" == "-t" && "-" + "m" == "-m";
        EvaluateRunTokens(prefix); }
      ["-s", msa, "-t", tree, "-m", model] + ["-pre", prefix, "-n", "0"];
      ["-s", msa, "-t", tree, "-m", model, "-pre", prefix, "-n", "0"];
    }
  }

  lemma EvaluateRunTokens(prefix: string)
    ensures FlagTokens([Valued("pre", prefix), Valued("n", "0")]) == ["-pre", prefix, "-n", "0"]
  {
    assert "-" + "pre" == "-pre" && "-" + "n" == "-n";
    FlagTokensSingle(Valued("n", "0"));
    FlagTokensCons(Valued("pre", prefix), [Valued("n", "0")]);
    assert [Valued("pre", prefix)] + [Valued("n", "0")] == [Valued("pre", prefix), Valued("n", "0")];
  }

  /** `IQTree.evaluate_tree`: the command and the log file it names. */
  function EvaluateTree(exe: Executable, msa: FilePath, tree: FilePath, model: Model, prefix: string, flags: Flags)
    : (r: (Command, FilePath))
    ensures r.1 == prefix + ".log"
    ensures |r.0| == 11 + |flags| + ValuedCount(flags)
    ensures r.0[..11] == [exe, "-s", msa, "-t", tree, "-m", model, "-pre", prefix, "-n", "0"]
    ensures r.0[11..] == FlagTokens(flags)
  {
    ([exe, "-s", msa, "-t", tree, "-m", model, "-pre", prefix, "-n", "0"] + FlagTokens(flags), prefix + ".log")
  }

  /** ReadCommand reads the evaluation vector as the fixed settings, no search, then the caller's. */
  lemma EvaluateTreeReads(exe: Executable, msa: FilePath, tree: FilePath, model: Model, prefix: string, flags: Flags)
    requires PlainValues(EvaluateSettings(msa, tree, model, prefix) + flags)
    ensures ReadCommand(EvaluateTree(exe, msa, tree, model, prefix, flags).0)
            == Some(Invocation(exe, EvaluateSettings(msa, tree, model, prefix) + flags))
  {
    var fixed := EvaluateSettings(msa, tree, model, prefix);
    calc {
      EvaluateTree(exe, msa, tree, model, prefix, flags).0;
      [exe] + (["-s", msa, "-t", tree, "-m", model, "-pre", prefix, "-n", "0"] + FlagTokens(flags));
      { EvaluateSettingsTokens(msa, tree, model, prefix); }
      [exe] + (FlagTokens(fixed) + FlagTokens(flags));
      { FlagTokensAppend(fixed, flags); }
      [exe] + FlagTokens(fixed + flags);
    }
    ReadWrittenCommand(exe, fixed + flags);
  }

  /** The settings `run_significance_tests` writes before the caller's. */
  function SignificanceSettings(msa: FilePath, trees: FilePath, reference: FilePath, model: Model, prefix: string): Flags
  {
    [ Valued("s", msa), Valued("z", trees), Valued("te", reference), Valued("m", model), Valued("pre", prefix)
    , Valued("n", "0"), Valued("zb", "10000"), ("zw", None), ("au", None) ]
  }

  lemma SignificanceSettingsTokens(msa: FilePath, trees: FilePath, reference: FilePath, model: Model, prefix: string)
    ensures FlagTokens(SignificanceSettings(msa, trees, reference, model, prefix))
            == ["-s", msa, "-z", trees, "-te", reference, "-m", model, "-pre", prefix, "-n", "0", "-zb", "10000", "-zw", "-au"]
  {
    var first := [Valued("s", msa), Valued("z", trees), Valued("te", reference)];
    var middle := [Valued("m", model), Valued("pre", prefix), Valued("n", "0")];
    var last := [Valued("zb", "10000"), ("zw", None), ("au", None)];
    calc {
      FlagTokens(SignificanceSettings(msa, trees, reference, model, prefix));
      { assert SignificanceSettings(msa, trees, reference, model, prefix) == first + (middle + last); }
      FlagTokens(first + (middle + last));
      { FlagTokensAppend(first, middle + last); FlagTokensAppend(middle, last); }
      FlagTokens(first) + (FlagTokens(middle) + FlagTokens(last));
      { ValuedTripleTokens("s", msa, "z", trees, "te", reference);
        ValuedTripleTokens("m", model, "pre", prefix, "n", "0");
        assert "-" + "s" == "-s" && "-" + "z" == "-z" && "-" + "te" == "-te";
        assert "-" + "m" == "-m" && "-" + "pre" == "-pre" && "-" + "n" == "-n";
        TestTokens(); }
      ["-s", msa, "-z", trees, "-te", reference] + (["-m", model, "-pre", prefix, "-n", "0"] + ["-zb", "10000", "-zw", "-au"]);
      ["-s", msa, "-z", trees, "-te", reference, "-m", model, "-pre", prefix, "-n", "0", "-zb", "10000", "-zw", "-au"];
    }
  }

  lemma TestTokens()
    ensures FlagTokens([Valued("zb", "10000"), ("zw", None), ("au", None)]) == ["-zb", "10000", "-zw", "-au"]
  {
    assert "-" + "zb" == "-zb" && "-" + "zw" == "-zw" && "-" + "au" == "-au";
    FlagTokensTriple(Valued("zb", "10000"), ("zw", None), ("au", None));
  }

  /** `IQTree.run_significance_tests`: the command and the report file it names. */
  function RunSignificanceTests(exe: Executable, msa: FilePath, trees: FilePath, reference: FilePath, model: Model,
                                prefix: string, flags: Flags): (r: (Command, FilePath))
    ensures r.1 == prefix + ".iqtree"
    ensures |r.0| == 17 + |flags| + ValuedCount(flags)
    ensures r.0[..17] == [exe, "-s", msa, "-z", trees, "-te", reference, "-m", model, "-pre", prefix,
                          "-n", "0", "-zb", "10000", "-zw", "-au"]
    ensures r.0[17..] == FlagTokens(flags)
  {
    ([exe, "-s", msa, "-z", trees, "-te", reference, "-m", model, "-pre", prefix,
      "-n", "0", "-zb", "10000", "-zw", "-au"] + FlagTokens(flags), prefix + ".iqtree")
  }

  lemma SignificanceTestsRead(exe: Executable, msa: FilePath, trees: FilePath, reference: FilePath, model: Model,
                              prefix: string, flags: Flags)
    requires PlainValues(SignificanceSettings(msa, trees, reference, model, prefix) + flags)
    ensures ReadCommand(RunSignificanceTests(exe, msa, trees, reference, model, prefix, flags).0)
            == Some(Invocation(exe, SignificanceSettings(msa, trees, reference, model, prefix) + flags))
  {
    SignificanceTestsTokens(exe, msa, trees, reference, model, prefix, flags);
    ReadWrittenCommand(exe, SignificanceSettings(msa, trees, reference, model, prefix) + flags);
  }

  lemma SignificanceTestsTokens(exe: Executable, msa: FilePath, trees: FilePath, reference: FilePath, model: Model,
                                prefix: string, flags: Flags)
    ensures RunSignificanceTests(exe, msa, trees, reference, model, prefix, flags).0
            == [exe] + FlagTokens(SignificanceSettings(msa, trees, reference, model, prefix) + flags)
  {
    var fixed := SignificanceSettings(msa, trees, reference, model, prefix);
    calc {
      RunSignificanceTests(exe, msa, trees, reference, model, prefix, flags).0;
      [exe] + (["-s", msa, "-z", trees, "-te", reference, "-m", model, "-pre", prefix,
                "-n", "0", "-zb", "10000", "-zw", "-au"] + FlagTokens(flags));
      { SignificanceSettingsTokens(msa, trees, reference, model, prefix); }
      [exe] + (FlagTokens(fixed) + FlagTokens(flags));
      { FlagTokensAppend(fixed, flags); }
      [exe] + FlagTokens(fixed + flags);
    }
  }

  /** `os.path.join(directory, name)` on POSIX paths. */
  function JoinPath(directory: string, name: string): (r: string)
    ensures StartsWith(name, "/") ==> r == name
    ensures !StartsWith(name, "/") ==> |r| >= |directory| + |name|
    ensures !StartsWith(name, "/") ==> r[..|directory|] == directory && r[|r| - |name|..] == name
  {
    if StartsWith(name, "/") then name
    else if |directory| == 0 || directory[|directory| - 1] == '/' then directory + name
    else directory + "/" + name
  }

  /** The index of the last `/` in `p`, if any. */
  function LastSlash(p: string): (r: Option<nat>)
    ensures r.Some? ==> r.value < |p| && p[r.value] == '/' && '/' !in p[r.value + 1..]
    ensures r.None? ==> '/' !in p
  {
    if |p| == 0 then None
    else if p[|p| - 1] == '/' then Some(|p| - 1)
    else
      var r := LastSlash(p[..|p| - 1]);
      assert r.Some? ==> p[r.value + 1..] == p[..|p| - 1][r.value + 1..] + [p[|p| - 1]];
      assert r.None? ==> p == p[..|p| - 1] + [p[|p| - 1]];
      r
  }

  /** `os.path.basename(p)`: what follows the last `/`. */
  function Basename(p: string): string
  {
    match LastSlash(p)
    case None => p
    case Some(k) => p[k + 1..]
  }

  /** `os.path.dirname(p)` for a path whose directory part has no trailing slashes. */
  function Dirname(p: string): string
  {
    match LastSlash(p)
    case None => ""
    case Some(k) => p[..k]
  }

  /** Joining a file name to a directory gives a path whose last component is that name, inside that directory. */
  lemma {:induction false} JoinPathParts(directory: string, name: string)
    requires '/' !in name && |directory| > 0 && directory[|directory| - 1] != '/'
    ensures Basename(JoinPath(directory, name)) == name
    ensures Dirname(JoinPath(directory, name)) == directory
  {
    var p := JoinPath(directory, name);
    assert !StartsWith(name, "/") by { assert |name| > 0 ==> name[0] != '/'; }
    assert p == directory + "/" + name;
    LastSlashAfter(directory + "/", name);
  }

  /** Appending a text with no `/` leaves the last `/` where it was. */
  lemma {:induction false} LastSlashAfter(head: string, tail: string)
    requires |head| > 0 && head[|head| - 1] == '/' && '/' !in tail
    ensures LastSlash(head + tail) == Some(|head| - 1)
    decreases |tail|
  {
    if |tail| == 0 {
      assert head + tail == head;
    } else {
      var p := head + tail;
      var init := tail[..|tail| - 1];
      assert tail == init + [tail[|tail| - 1]];
      assert p[|p| - 1] == tail[|tail| - 1];
      assert p[..|p| - 1] == head + init;
      LastSlashAfter(head, init);
    }
  }

  /**
   * The prefix a log-parsing entry point runs IQ-TREE with: the caller's when
   * it is a non-empty string, otherwise `stem` inside the temporary directory.
   */
  function EffectivePrefix(prefix: Option<string>, tmpdir: string, stem: string): (r: string)
    ensures prefix.Some? && prefix.value != "" ==> r == prefix.value
    ensures prefix.None? || prefix.value == "" ==> r == JoinPath(tmpdir, stem)
  {
    if prefix.None? || prefix.value == "" then JoinPath(tmpdir, stem) else prefix.value
  }

  /** What a log-parsing entry point runs and which file it then reads. */
  datatype Plan = Plan(command: Command, logFile: FilePath)

  /** `IQTree.get_rfdistance_results` up to reading the log. */
  function RfDistancePlan(exe: Executable, trees: FilePath, prefix: Option<string>, tmpdir: string, flags: Flags)
    : (p: Plan)
    ensures |p.command| >= 5 && p.command[3] == "-pre" && p.logFile == p.command[4] + ".log"
    ensures prefix.Some? && prefix.value != "" ==> p.command[4] == prefix.value
    ensures p.command == RfDistCommand(exe, trees, p.command[4], flags)
  {
    var pre := EffectivePrefix(prefix, tmpdir, "rfdist");
    Plan(RfDistCommand(exe, trees, pre, flags), pre + ".log")
  }

  /** `IQTree.get_patterns_gaps_invariant` up to reading the log; it passes no extra settings. */
  function PatternsGapsInvariantPlan(exe: Executable, msa: FilePath, model: Model, prefix: Option<string>, tmpdir: string)
    : (p: Plan)
    ensures |p.command| == 7 && p.command[5] == "-pre" && p.logFile == p.command[6] + ".log"
    ensures prefix.Some? && prefix.value != "" ==> p.command[6] == prefix.value
    ensures p.command == BaseCommand(exe, msa, model, p.command[6], [])
  {
    var pre := EffectivePrefix(prefix, tmpdir, "parse");
    Plan(BaseCommand(exe, msa, model, pre, []), pre + ".log")
  }

  /** Without a usable prefix, the RF-distance log is `rfdist.log` inside the temporary directory. */
  lemma DefaultRfDistanceLog(exe: Executable, trees: FilePath, prefix: Option<string>, tmpdir: string, flags: Flags)
    requires prefix.None? || prefix.value == ""
    requires |tmpdir| > 0 && tmpdir[|tmpdir| - 1] != '/'
    ensures Dirname(RfDistancePlan(exe, trees, prefix, tmpdir, flags).logFile) == tmpdir
    ensures Basename(RfDistancePlan(exe, trees, prefix, tmpdir, flags).logFile) == "rfdist.log"
  {
    var stem := "rfdist";
    assert RfDistancePlan(exe, trees, prefix, tmpdir, flags).logFile == JoinPath(tmpdir, stem) + ".log";
    DefaultStems();
    DefaultLogFile(tmpdir, stem);
  }

  /** Without a usable prefix, the composition log is `parse.log` inside the temporary directory. */
  lemma DefaultCompositionLog(exe: Executable, msa: FilePath, model: Model, prefix: Option<string>, tmpdir: string)
    requires prefix.None? || prefix.value == ""
    requires |tmpdir| > 0 && tmpdir[|tmpdir| - 1] != '/'
    ensures Dirname(PatternsGapsInvariantPlan(exe, msa, model, prefix, tmpdir).logFile) == tmpdir
    ensures Basename(PatternsGapsInvariantPlan(exe, msa, model, prefix, tmpdir).logFile) == "parse.log"
  {
    var stem := "parse";
    assert PatternsGapsInvariantPlan(exe, msa, model, prefix, tmpdir).logFile == JoinPath(tmpdir, stem) + ".log";
    DefaultStems();
    DefaultLogFile(tmpdir, stem);
  }

  /** The default stems are plain file names. */
  lemma DefaultStems()
    ensures '/' !in "rfdist" && "rfdist" + ".log" == "rfdist.log"
    ensures '/' !in "parse" && "parse" + ".log" == "parse.log"
  {
  }

  lemma DefaultLogFile(tmpdir: string, stem: string)
    requires |tmpdir| > 0 && tmpdir[|tmpdir| - 1] != '/' && '/' !in stem && |stem| > 0
    ensures Dirname(JoinPath(tmpdir, stem) + ".log") == tmpdir
    ensures Basename(JoinPath(tmpdir, stem) + ".log") == stem + ".log"
  {
    assert stem[0] != '/';
    assert !StartsWith(stem, "/");
    assert '/' !in stem + ".log" by {
      forall k | 0 <= k < |stem + ".log"| ensures (stem + ".log")[k] != '/' {
        if k < |stem| { assert (stem + ".log")[k] == stem[k]; }
      }
    }
    assert (stem + ".log")[0] == stem[0];
    assert JoinPath(tmpdir, stem) + ".log" == JoinPath(tmpdir, stem + ".log");
    JoinPathParts(tmpdir, stem + ".log");
  }
}
