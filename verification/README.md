# IQ-TREE driver scripts: command vectors and log readers

This project models the pure core of the IQ-TREE driver scripts of the
difficulty-prediction training-data pipeline. It also proves what that core
computes. The core has two layers.

**Command vectors** (`rules/scripts/pypythia_iqtree.py`, module `IqTree`).

- `_base_cmd`, the vector of `_run_rfdist`, `infer_parsimony_trees`,
  `infer_tree`, `evaluate_tree` and `run_significance_tests` each build the
  argument list that IQ-TREE is started with. The last four also give the
  file they name (`prefix + ".treefile" | ".log" | ".iqtree"`).
- Keyword settings are an ordered list `seq<(string, Option<string>)>`. `None`
  is a flag written without a value.
- Besides stating the token layout, the model defines `ReadCommand`, which
  parses a vector back the way a command-line parser would. It proves that
  `ReadCommand` reads each builder's vector back as exactly the settings the
  builder passes (a round trip), when no value starts with `-`. A value such
  as `-1` would be read as a second flag.
- The default-prefix rule of `get_rfdistance_results` and
  `get_patterns_gaps_invariant` is modelled as well. A missing or empty
  prefix becomes `rfdist` or `parse` inside the temporary directory, which is
  a parameter here.

**Log readers.** Each one turns the text of a log into a record or a Python
exception. Exceptions are modelled as values: `Result`, or `Option` where the
code swallows them.

- `rules/scripts/pypythia_iqtree_parser.py` (module `PythiaParser`): the
  IQ-TREE 3.x composition reader (patterns, gaps, invariant sites) and the
  RF-distance summary reader.
- `rules/scripts/pypythia.iqtree_parser.py` (module `LegacyParser`): the
  older line-prefix variants of the same two readers.
- `rules/scripts/parse_iqtree_logs.py` (module `SearchLogs`): the search-log
  and evaluation-log readers (both definitions of each) and the aggregated
  log-likelihood collector.
- `rules/scripts/iqtree_parser.py` (module `FinalLlh`): the backward scan
  for the final log-likelihood, and its use over a list of logs.

Every loop over lines is proved equal to a reference definition over the
whole log (module `Scans`):

- a field that later lines overwrite is the value of the last line that
  yields one;
- a fallback that fires only while a field is unset is the first such line.

Supporting modules:

- `Regex` models each regular expression as a matcher at one position. On top
  of it sit `re.search` (the leftmost match, which continues past a label
  that is not followed by a number) and `re.finditer`.
- `Numbers` models `int()`, `float()` and `str()` on decimal text, with exact
  rational values.
- `Text` models `strip`, `split`, `in`, `startswith`, `lower` and
  `re.findall` of one character class.

What the readers do, as the code is written:

- Each reader raises one fixed `ValueError` message, not one per field.
- In the composition readers, a later line overwrites an earlier one, except
  the "overall" gap line, which applies only while gaps is unset.
- The final log-likelihood reader looks only for "Optimal log-likelihood" and
  "BEST SCORE FOUND" lines. It takes the first `[-+]?\d+\.\d+` on the last
  such line that has one.
- The search-log reader takes runtime from "Total time: S seconds" and
  iterations from "Total number of iterations: N" only. The count defaults to
  0 in the effective definition and to None in the first one.

## Model

| member | source | states |
|---|---|---|
| IqTree.FlagTokens | rules/scripts/pypythia_iqtree.py:37-43 | every setting adds one token, plus one more when it has a value; the first token is `-key` of the first setting |
| IqTree.FlagTokensAppend | rules/scripts/pypythia_iqtree.py:38-43 | settings are written one after the other, in call order |
| IqTree.ReadFlagTokens | rules/scripts/pypythia_iqtree.py:37-43 | reading the written tokens back gives exactly the settings, values and flags alike, when no value starts with `-` |
| IqTree.BaseCommand | rules/scripts/pypythia_iqtree.py:44-53 | the vector is `exe -s msa -m model -pre prefix` (7 tokens), then the settings' tokens; its length is 7 plus one or two per setting |
| IqTree.BaseCommandReads | rules/scripts/pypythia_iqtree.py:34-53 | ReadCommand reads the base vector as the alignment, model and prefix, followed by the caller's settings in order |
| IqTree.RfDistCommand | rules/scripts/pypythia_iqtree.py:61-75 | the vector is `exe -rfdist trees -pre prefix`, then the settings, with no `-s` or `-m` |
| IqTree.RfDistCommandReads | rules/scripts/pypythia_iqtree.py:61-75 | it reads back as the trees file, the prefix, then the caller's settings |
| IqTree.InferParsimonyTrees | rules/scripts/pypythia_iqtree.py:102-106 | a caller setting named `start` or `tree` raises TypeError; otherwise the vector is `exe -s msa -m model -pre prefix -start -tree pars{N}`, then the caller's settings, and the result names `prefix.treefile` |
| IqTree.InferParsimonyTreesReads | rules/scripts/pypythia_iqtree.py:102-104 | ReadCommand reads the parsimony vector as the alignment, model and prefix, `-start` as a bare flag, `-tree pars{N}`, then the caller's settings |
| IqTree.ParsimonyTreeCount | rules/scripts/pypythia_iqtree.py:103 | the `pars{N}` token written into the vector reads back as N |
| IqTree.InferTree | rules/scripts/pypythia_iqtree.py:170-174 | a caller setting named `start` raises TypeError; otherwise the vector is `exe -s msa -m model -pre prefix -start <tree>`, then the caller's settings, and the result names `prefix.treefile` |
| IqTree.InferTreeReads | rules/scripts/pypythia_iqtree.py:170-172 | ReadCommand reads the inference vector as the alignment, model and prefix, the starting tree, then the caller's settings |
| IqTree.EvaluateTree | rules/scripts/pypythia_iqtree.py:196-211 | the 11 fixed tokens `exe -s msa -t tree -m model -pre prefix -n 0`, then the settings; the result names `prefix.log` |
| IqTree.EvaluateTreeReads | rules/scripts/pypythia_iqtree.py:196-209 | ReadCommand reads the evaluation vector as its fixed settings, including no search (`-n 0`), then the caller's |
| IqTree.RunSignificanceTests | rules/scripts/pypythia_iqtree.py:235-254 | the 17 fixed tokens ending `-n 0 -zb 10000 -zw -au`, then the settings; the result names `prefix.iqtree` |
| IqTree.SignificanceTestsRead | rules/scripts/pypythia_iqtree.py:235-252 | ReadCommand reads the test vector as its fixed settings, with `-zw` and `-au` as bare flags, then the caller's settings |
| IqTree.JoinPath | rules/scripts/pypythia_iqtree.py:124 | `os.path.join`: an absolute name replaces the directory; otherwise the result starts with the directory and ends with the name |
| IqTree.JoinPathParts | rules/scripts/pypythia_iqtree.py:124 | joining a plain file name to a directory gives a path whose basename is the name and whose dirname is the directory |
| IqTree.EffectivePrefix | rules/scripts/pypythia_iqtree.py:123-124 | a non-empty prefix is used as given; None or `""` becomes the stem inside the temporary directory |
| IqTree.RfDistancePlan | rules/scripts/pypythia_iqtree.py:122-127 | the command is the `-rfdist` vector for the trees file and the caller's settings, the log read is the prefix passed after `-pre` plus `.log`, and a usable caller prefix is passed unchanged |
| IqTree.PatternsGapsInvariantPlan | rules/scripts/pypythia_iqtree.py:144-148 | the command is the base vector for the alignment and model with no extra settings, the log read is the `-pre` value plus `.log`, and a usable caller prefix is passed unchanged |
| IqTree.DefaultRfDistanceLog | rules/scripts/pypythia_iqtree.py:122-127 | without a usable prefix the RF log is `rfdist.log` inside the temporary directory |
| IqTree.DefaultCompositionLog | rules/scripts/pypythia_iqtree.py:144-148 | without a usable prefix the composition log is `parse.log` inside the temporary directory |
| PythiaParser.FirstPercentageMeaning | rules/scripts/pypythia_iqtree_parser.py:59-61 | a line gives no percentage exactly when no decimal there is followed by `%`; otherwise it gives the value of the decimal that starts first, divided by 100 |
| PythiaParser.FirstPercentageOfText | rules/scripts/pypythia_iqtree_parser.py:59-61 | when the text before `G%` holds no digit and no point, the percentage read is G / 100 |
| PythiaParser.TotalRowGap | rules/scripts/pypythia_iqtree_parser.py:56-61 | the row "****  TOTAL  G%  ..." sets gaps to G / 100 |
| PythiaParser.InvariantOf | rules/scripts/pypythia_iqtree_parser.py:45-52 | a line sets the invariant share only when it reports a constant-site count and a positive column count is known |
| PythiaParser.PatternsFromLastLine | rules/scripts/pypythia_iqtree_parser.py:31-35 | the pattern count is the one of the last "distinct patterns" line that reports one |
| PythiaParser.ColumnsFromLastLine | rules/scripts/pypythia_iqtree_parser.py:36-39 | the column count is the one of the last pattern line that reports one |
| PythiaParser.InvariantFromLastUpdate | rules/scripts/pypythia_iqtree_parser.py:37-52 | the invariant share comes from the last constant-sites line read while a positive column count was known, using the count known at that line |
| PythiaParser.InvariantFromLastQualifyingLine | rules/scripts/pypythia_iqtree_parser.py:45-52 | that share is the constant count of that line divided by the latest column count at or before it |
| PythiaParser.InvariantUnsetWithoutUpdate | rules/scripts/pypythia_iqtree_parser.py:45-52 | the share stays unset exactly when no constant-sites line comes with a known positive column count |
| PythiaParser.GapsFromTotalOrOverall | rules/scripts/pypythia_iqtree_parser.py:57-69 | gaps come from the last `*`/TOTAL/% row; only when there is none does the first "overall" gap line count |
| PythiaParser.GetPatternsGapsInvariant | rules/scripts/pypythia_iqtree_parser.py:20-74 | the three values are returned exactly when all were found, each from its reference line; otherwise the ValueError |
| PythiaParser.AverageLine | rules/scripts/pypythia_iqtree_parser.py:103-115 | the line "Average RF distance: A (relative R)" gives A as the absolute distance (the text between `:` and `(`) and R as the relative one |
| PythiaParser.RelativeLine | rules/scripts/pypythia_iqtree_parser.py:117-127 | the line "Average relative RF distance: R (absolute A)" gives A as the absolute distance and, as the relative one, what the value helper reads after the label |
| PythiaParser.RfFromLastLines | rules/scripts/pypythia_iqtree_parser.py:95-127 | the loop raises exactly when the value helper fails on a topology line; otherwise each field comes from the last line that gives it |
| PythiaParser.RfErrorIsHelper | rules/scripts/pypythia_iqtree_parser.py:99-101 | the only exception the loop lets escape is the topology helper's |
| PythiaParser.GetIqtreeRfdistResults | rules/scripts/pypythia_iqtree_parser.py:91-132 | a helper failure propagates; otherwise the result is (topologies, relative, absolute) from their last lines when all three exist, or the ValueError |
| LegacyParser.PieceInts | rules/scripts/pypythia.iqtree_parser.py:27 | a blank piece is skipped, any other piece must read as an int |
| LegacyParser.ReadInts | rules/scripts/pypythia.iqtree_parser.py:27 | the list comprehension succeeds exactly when every piece is blank or an int |
| LegacyParser.ReadIntsKeepsNonBlank | rules/scripts/pypythia.iqtree_parser.py:27 | the list it builds has one int per non-blank piece |
| LegacyParser.LegacyStep | rules/scripts/pypythia.iqtree_parser.py:22-49 | a line updates at most one field, and a line starting with whitespace updates none |
| LegacyParser.LabelsExclusive | rules/scripts/pypythia.iqtree_parser.py:23-41 | no line carries two of the headings, so the order of the tests never matters |
| LegacyParser.FieldsFromLastLines | rules/scripts/pypythia.iqtree_parser.py:21-49 | each field comes from the last line carrying its heading whose value reads |
| LegacyParser.SitesPatternsOfPrintedLine | rules/scripts/pypythia.iqtree_parser.py:23-30 | the printed line "Alignment sites / patterns: S / P" gives P |
| LegacyParser.PercentLine | rules/scripts/pypythia.iqtree_parser.py:35-38 | a line "H: G" followed by text with no digit, point or colon gives G / 100 |
| LegacyParser.GapsLine | rules/scripts/pypythia.iqtree_parser.py:32-38 | the line "Gaps: G%" sets gaps to G / 100 |
| LegacyParser.InvariantLine | rules/scripts/pypythia.iqtree_parser.py:41-47 | the line "Invariant sites: I%" sets the invariant share to I / 100 |
| LegacyParser.GetPatternsGapsInvariant | rules/scripts/pypythia.iqtree_parser.py:17-54 | the three values are returned exactly when each has a reference line; otherwise the ValueError naming the file |
| LegacyParser.AbsEntries | rules/scripts/pypythia.iqtree_parser.py:74-80 | a stripped line that mentions "Robinson-Foulds" or "RF distance" and holds exactly two runs of digits and points adds `float()` of the first run when it reads, and nothing otherwise |
| LegacyParser.RelEntries | rules/scripts/pypythia.iqtree_parser.py:74-80 | such a line adds `float()` of the second run exactly when the first run also read, since a failing first read skips the line |
| LegacyParser.AverageRfLine | rules/scripts/pypythia.iqtree_parser.py:75-80 | "Average RF distance: A (relative R)" adds A to the absolute and R to the relative list |
| LegacyParser.RelativeRfLine | rules/scripts/pypythia.iqtree_parser.py:75-80 | "Average relative RF distance: R (absolute A)" adds R to the absolute and A to the relative list, because the numbers are taken in printed order |
| LegacyParser.RfLineAt | rules/scripts/pypythia.iqtree_parser.py:74-80 | any line holding "RF distance" with exactly two numbers adds the first to the absolute and the second to the relative list |
| LegacyParser.RfListsCollect | rules/scripts/pypythia.iqtree_parser.py:72-82 | the two lists hold every line's entries in file order, and the relative list is never the longer |
| LegacyParser.RelNonEmpty | rules/scripts/pypythia.iqtree_parser.py:84 | the relative list is non-empty exactly when some line had both numbers read |
| LegacyParser.MeanBounds | rules/scripts/pypythia.iqtree_parser.py:87 | an average lies within the range of the averaged values |
| LegacyParser.GetIqtreeRfdistResults | rules/scripts/pypythia.iqtree_parser.py:69-87 | values are returned exactly when some line had both numbers read: the count of absolute distances and the means of both lists; otherwise the ValueError |
| LegacyParser.GetIqtreeRfdistResultsAsWritten | rules/scripts/pypythia.iqtree_parser.py:84-87 | as written, the reader never returns a value |
| LegacyParser.RfMeanNameUnbound | rules/scripts/pypythia.iqtree_parser.py:87 | every log that the averaging reader gives values for makes the written reader raise NameError |
| SearchLogs.FloatField | rules/scripts/parse_iqtree_logs.py:112-114 | a field is absent exactly when its pattern matches nowhere, and fails exactly when `float()` rejects the group |
| SearchLogs.IterationsIn | rules/scripts/parse_iqtree_logs.py:117-119 | without a match the count is the default; with one it is `int()` of the digits and never negative |
| SearchLogs.ModelIn | rules/scripts/parse_iqtree_logs.py:127-129 | the model is the stripped rest of its line, so it holds no newline |
| SearchLogs.ParseSearchLog | rules/scripts/parse_iqtree_logs.py:92-134 | an unreadable file or a failing log-likelihood read gives the initial record; otherwise each field comes from the first match, and a failing runtime read blanks runtime and model |
| SearchLogs.SearchLikelihoodIsLeftmost | rules/scripts/parse_iqtree_logs.py:112-114 | the log-likelihood is read at the first place where its label and a number stand |
| SearchLogs.FirstReaderSeesNewerLabels | rules/scripts/parse_iqtree_logs.py:18-20 | where the effective reader finds a log-likelihood, the first definition finds one too, no later in the file |
| SearchLogs.ParseEvalLog | rules/scripts/parse_iqtree_logs.py:136-164 | the first `Log-likelihood:` value and the first `Time: ... seconds` value; a failing log-likelihood read leaves both unset |
| SearchLogs.EvalLikelihoodIsLeftmost | rules/scripts/parse_iqtree_logs.py:152-154 | the evaluation log-likelihood is read at the first place where its label and a number stand |
| SearchLogs.EvalLikelihoodNeedsLabel | rules/scripts/parse_iqtree_logs.py:152-154 | a file without the `Log-likelihood:` label yields no evaluation log-likelihood |
| SearchLogs.ReadUntilFailure | rules/scripts/parse_iqtree_logs.py:62-65 | the values are the reads of the groups in order, stopping before the first group `float()` rejects |
| SearchLogs.GetAllLlhsFromAggregated | rules/scripts/parse_iqtree_logs.py:55-68 | all `Log-likelihood:` values, then all `Log-likelihood of the tree:` values, each in file order and not interleaved, cut at the first unreadable group; an unreadable file gives the empty list |
| FinalLlh.LineLikelihood | rules/scripts/iqtree_parser.py:8-11 | a line yields a value exactly when it is a score line with a signed decimal; the value is that decimal's exact value with its sign |
| Scans.FindLast | rules/scripts/iqtree_parser.py:7-11 | the backward loop finds a value exactly when some line yields one, and it is the latest such line's |
| FinalLlh.GetIqtreeLlh | rules/scripts/iqtree_parser.py:5-12 | the value of the last line that yields one, skipping marked lines without a number; otherwise the ValueError naming the file |
| FinalLlh.MapUntilError | rules/scripts/iqtree_parser.py:17 | a list comprehension whose call may raise: every value in order, or the exception of the first element that raises |
| FinalLlh.GetAllIqtreeLlhs | rules/scripts/iqtree_parser.py:14-17 | one value per listed path, in list order, or the error of the first path that fails; a list file that cannot be read raises |
| Scans.LastSomeFound | rules/scripts/pypythia_iqtree_parser.py:25-35 | a last-line-wins field is set exactly when some line yields a value |
| Scans.LastSomeIsLatest | rules/scripts/pypythia_iqtree_parser.py:25-35 | a last-line-wins field holds the value of the latest line that yields one |
| Scans.FirstSomeIsEarliest | rules/scripts/pypythia_iqtree_parser.py:65-69 | a first-line-wins field is set exactly when some line yields a value, and holds the earliest such value |
| Regex.Search | rules/scripts/pypythia_iqtree_parser.py:33 | `re.search` reports the match at the leftmost position where the pattern matches, and no match only when it matches nowhere |
| Regex.FirstGroupIsLeftmost | rules/scripts/pypythia_iqtree_parser.py:33-35 | the group `re.search` reports is the one at the first matching position |
| Regex.FirstGroupAbsent | rules/scripts/pypythia_iqtree_parser.py:33-35 | `re.search` finds nothing exactly when the pattern matches at no position |
| Regex.MatchDistinctPatterns | rules/scripts/pypythia_iqtree_parser.py:33 | a match of `(\d+)\s+distinct patterns` captures a digit string |
| Regex.DistinctPatternsMeaning | rules/scripts/pypythia_iqtree_parser.py:33 | the pattern matches at a position exactly when digits, whitespace and the words stand there (ignoring case), and the group is those digits |
| Regex.MatchWithColumns | rules/scripts/pypythia_iqtree_parser.py:37 | a match of `with\s+(\d+)\s+columns` captures a digit string |
| Regex.WithColumnsMeaning | rules/scripts/pypythia_iqtree_parser.py:37 | the pattern matches exactly when "with", whitespace, digits, whitespace and "columns" stand there, and the group is the digits |
| Regex.MatchConstantSites | rules/scripts/pypythia_iqtree_parser.py:47 | a match of the constant-or-invariant-sites pattern captures a digit string |
| Regex.ConstantSitesMeaning | rules/scripts/pypythia_iqtree_parser.py:47 | the pattern matches exactly when digits, whitespace, "constant" or "invariant", whitespace and "sites" stand there, and the group is the digits |
| Regex.DecimalEnd | rules/scripts/pypythia_iqtree_parser.py:59 | `[0-9]*\.?[0-9]+` at a position matches a non-empty unsigned decimal |
| Regex.DecimalEndIsLongest | rules/scripts/pypythia_iqtree_parser.py:59 | that match is the longest decimal starting there, and there is none when it fails |
| Regex.MatchPercentage | rules/scripts/pypythia_iqtree_parser.py:59 | a match of `([0-9]*\.?[0-9]+)%` captures an unsigned decimal |
| Regex.PercentageMeaning | rules/scripts/pypythia_iqtree_parser.py:59 | the percentage pattern matches at a position exactly when the longest decimal there is followed by `%` |
| Regex.PercentageFirst | rules/scripts/pypythia_iqtree_parser.py:59 | when the text before `G%` holds no digit and no point, `re.search` finds G |
| Regex.MatchNumberAfter | rules/scripts/pypythia_iqtree_parser.py:113 | a match of `relative\s+([0-9]*\.?[0-9]+)` or the `absolute` form captures an unsigned decimal |
| Regex.NumberAfterMeaning | rules/scripts/pypythia_iqtree_parser.py:113 | the pattern matches exactly when the word, whitespace and a decimal stand there, and the group is the longest decimal |
| Regex.NumberAfterFirst | rules/scripts/pypythia_iqtree_parser.py:113-115 | in a line "... word G ..." where the word cannot start earlier, `re.search` finds G |
| Regex.MatchSignedFixedPoint | rules/scripts/iqtree_parser.py:9 | a match of `([-+]?\d+\.\d+)` captures an optional sign, digits, a point and digits |
| Regex.SignedFixedPointSlice | rules/scripts/iqtree_parser.py:9 | text of that shape is what `[-+]?\d+\.\d+` accepts in full |
| Regex.SignedFixedPointMeaning | rules/scripts/iqtree_parser.py:9 | the pattern matches exactly when an optional sign, digits, a point and digits stand there, and the match is all of them |
| Regex.MatchField | rules/scripts/parse_iqtree_logs.py:112 | a match of `name: ([cls]+)suffix` captures a non-empty run of the class |
| Regex.FieldMeaning | rules/scripts/parse_iqtree_logs.py:112-124 | the field pattern matches exactly when the label, the gap, a run of the class and the suffix stand there, and the group is the whole run |
| Regex.RestOfLine | rules/scripts/parse_iqtree_logs.py:127 | a match of `name: (.+)` captures a non-empty text without a newline |
| Regex.RestOfLineMeaning | rules/scripts/parse_iqtree_logs.py:127 | the pattern matches exactly when text follows the gap; the group is the rest of that line, or, when only whitespace follows the colon, the last character that is not a newline |
| Regex.OneSpaceFieldIsAnySpaceField | rules/scripts/parse_iqtree_logs.py:18 | where `name: ([cls]+)` matches, `name:\s*([cls]+)` matches with the same group |
| Regex.AnySpaceFieldFindsNoLater | rules/scripts/parse_iqtree_logs.py:18 | the `\s*` form finds a match no later than the single-blank form |
| Regex.GroupInt | rules/scripts/pypythia_iqtree_parser.py:35 | `int()` of a `\d+` group never raises and is never negative |
| Regex.GroupDecimal | rules/scripts/pypythia_iqtree_parser.py:61 | a `[0-9]*\.?[0-9]+` group gives a value exactly when there is a group, and it is never negative |
| Regex.GroupDecimalIsFloat | rules/scripts/pypythia_iqtree_parser.py:61 | `float()` of such a group never raises and is the group's exact value |
| Regex.FindAll | rules/scripts/parse_iqtree_logs.py:62 | `re.finditer` reports matches in increasing order, without overlap |
| Regex.FindAllMatches | rules/scripts/parse_iqtree_logs.py:62-63 | each reported match is a match of the pattern at its own start |
| Regex.FindAllCovers | rules/scripts/parse_iqtree_logs.py:62-63 | every position where a match could start is the start of a reported match or lies inside one |
| Text.Strip | rules/scripts/pypythia_iqtree_parser.py:26 | the result is the slice after the leading whitespace, only whitespace follows it, it neither starts nor ends with whitespace, and text without surrounding whitespace is unchanged |
| Text.StripKnown | rules/scripts/pypythia_iqtree_parser.py:26 | with whitespace exactly before `a` and from `b` on, `strip()` gives `s[a..b]` |
| Text.StripKeepsClass | rules/scripts/parse_iqtree_logs.py:129 | stripping keeps the text within any character class it was in |
| Text.Split | rules/scripts/pypythia.iqtree_parser.py:26 | `split` gives at least one piece, and no piece holds the separator |
| Text.JoinSplit | rules/scripts/pypythia.iqtree_parser.py:26 | joining the pieces with the separator gives the line back |
| Text.SplitJoin | rules/scripts/pypythia.iqtree_parser.py:26 | splitting pieces that hold no separator, once joined, gives the pieces back |
| Text.Runs | rules/scripts/pypythia.iqtree_parser.py:36 | each run `re.findall(r"[\d.]+")` reports is non-empty and made of digits and points |
| Text.RunSpans | rules/scripts/pypythia.iqtree_parser.py:36 | the runs lie at maximal stretches of the class, left to right, and every class character is inside one |
| Text.RunsAreSpanTexts | rules/scripts/pypythia.iqtree_parser.py:36 | the texts `findall` returns are exactly the texts of those stretches, in order |
| Text.RunsSkip | rules/scripts/pypythia.iqtree_parser.py:36 | text without class characters in front adds no run and does not change the runs after it |
| Text.RunsOfTwo | rules/scripts/pypythia.iqtree_parser.py:77-78 | two runs kept apart by text without class characters are the only two runs |
| Text.LowerContains | rules/scripts/pypythia_iqtree_parser.py:65-66 | searching the lower-cased line for a lower-case word finds it exactly where the line holds the word up to ASCII case |
| Text.IndexOf | rules/scripts/pypythia_iqtree_parser.py:107 | the first occurrence of a character, or None when it does not occur |
| Numbers.PyIntOfDigitString | rules/scripts/pypythia_iqtree_parser.py:35 | `int()` of a digit string gives the number its digits spell |
| Numbers.PyIntReadsIntToString | rules/scripts/pypythia_iqtree.py:103 | `int(str(n)) == n` for every int |
| Numbers.PyFloatOfUnsignedDecimal | rules/scripts/pypythia_iqtree_parser.py:61 | `float()` of an unsigned decimal is its exact value |
| Numbers.PyFloatOfSignedFixedPoint | rules/scripts/iqtree_parser.py:11 | `float()` of a signed fixed-point text is the signed exact value |
| Numbers.Truncate | rules/scripts/pypythia_iqtree_parser.py:101 | `int()` of a float drops the fraction toward zero: the result lies within 1 of the input, on the zero side |

## Findings

| source | as written | input that shows it | evidently intended | confidence | as-written member | corrected member |
|---|---|---|---|---|---|---|
| rules/scripts/pypythia.iqtree_parser.py:87 | `return len(abs_rfdist), np.mean(rel_rfdist), np.mean(abs_rfdist)`, but the module only star-imports `pypythia.custom_types`, which binds type names and no `np` | any log with a line mentioning "RF distance" with exactly two numbers, e.g. `RF distance 1 2`: the lists fill, the return raises NameError | the count of absolute distances and the means of both lists | medium, not executed: it holds if the star import resolves to the type-alias module of this repository | LegacyParser.GetIqtreeRfdistResultsAsWritten, LegacyParser.RfMeanNameUnbound | LegacyParser.GetIqtreeRfdistResults |

## Left out

- `run_iqtree_command` (rules/scripts/pypythia_iqtree.py:10-16) runs a child process and wraps its exceptions. The model computes the vector each method runs and the file it names, but not the run.
- The temporary directory of `get_rfdistance_results` and `get_patterns_gaps_invariant` is a parameter. Acquiring and removing it is not modelled.
- `get_tree_info`, `get_model_selection`, `get_likelihood` and `get_runtime` (rules/scripts/pypythia_iqtree.py:256-306) forward to functions that the parser module does not define.
- `save_data_iqtree.py`, `collect_msa_features_iqtree.py` and the `__main__` blocks of `parse_iqtree_logs.py` are database, workflow and printing glue. Errors printed to stderr are not modelled.
- `get_value_from_line` (from `pypythia.utils`) and `read_file_contents` (from `utils`) are not part of this model. They are function parameters: the number a line gives or None where the helper raises, and a path's lines or None where reading raises.
- Opening and decoding files (`encoding`, `errors="ignore"`) is not modelled. The readers take the text or lines, or None for a file that cannot be opened.
- `str(value)` of keyword settings is taken as already done: settings carry text.
- Numbers.PyFloat: the spellings of infinity and NaN give None, where `float()` accepts them. The number patterns the readers use cannot capture them; the one place such text reaches `float()` is the absolute distance between `:` and `(` of an "Average RF distance" line (PythiaParser.AbsoluteText), which the model then leaves unset where Python would store an infinity or NaN.
- Numbers.PyInt: only ASCII digits are read, where Python's `int()` also accepts other Unicode decimal digits. Likewise `\d`, `[0-9]` and `re.I` are ASCII-only here. CPython also refuses to convert between `int` and decimal text of more than 4300 digits (ValueError); the model has no such limit, because no count in an IQ-TREE log comes near it.
- Regex.GroupInt: states that `int()` of a `\d+` group never raises, which holds in CPython only up to that 4300-digit limit. This affects rules/scripts/pypythia_iqtree_parser.py:35 and rules/scripts/parse_iqtree_logs.py:117-119.
- Numbers.PyIntReadsIntToString: states `int(str(n)) == n` for every int, where CPython's `str()` raises for an int of more than 4300 digits. The one use, the tree count written into `pars{N}` (rules/scripts/pypythia_iqtree.py:103), is far below that limit.
- Text.Lower: folds only ASCII letters. Python's `lower()` also folds other letters, but of the non-ASCII characters only U+0130 and U+212A lower to ASCII letters (`i` with a combining dot, and `k`). Neither can complete "gap", "ambiguity" or "overall" where the ASCII fold would not, so the gap fallback (rules/scripts/pypythia_iqtree_parser.py:65-66) decides the same way.
- Values are exact rationals. Python's float rounding and `np.mean`'s floating-point summation are not modelled.
- Python keyword arguments are keyed by identifier. The model allows any key text, and repeated keys in the caller's own settings are kept in order, as a flag list.
