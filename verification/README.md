# MSBuild output line parser

This project models the core of the MSBuild converter in CodeChecker's report
converter (`Parser` in
`tools/report-converter/codechecker_report_converter/analyzers/msbuild/parser.py`).
The converter reads the console output of an MSBuild run one line at a time.
For each line, `_parse_line`:

- strips the leading whitespace;
- matches the line against the diagnostic expression
  `prefix>path(line,column): severity analyzer_id: message [project]`;
- turns a match into one report: the file, the line and column numbers, the
  stripped message and the analyzer id as the checker name;
- reads the next line from the iterator.

The model has one module per concern:

- `Text`: the character classes the expression uses (`\s`, `\S`, `\d`, `\w`,
  `[:\d]`, `[\S \t]`), runs of a class, `str.lstrip`, `str.strip`, and `int()`
  on a digit run.
- `Options`: the `Option` type used for "no match".
- `LineGrammar`: the pieces of a diagnostic line (`Fields`) and how they are
  written out (`Render`). A *split* of a line is a well-formed `Fields` whose
  rendering starts the line. The *greedy* split is the one the backtracking
  regular-expression engine reports: every piece before the message is fixed
  by the text, the message is the longest possible, and for that message the
  project is the longest possible.
- `LineMatcher`: an executable matcher, `Match`, that reads the line stage by
  stage, with proofs that it is exactly the expression's `re.match`:
  - it returns a split;
  - it finds one whenever one exists;
  - the split it returns is the greedy one, and the greedy split is unique.
- `PosixPath`: `posixpath.dirname`, `posixpath.join` and `posixpath.normpath`,
  and the composition `Resolve` that turns a reported path into the report's
  file path.
- `FileCache`: the parser's get-or-create map from paths to file objects.
- `MsBuildParser`: one call of `_parse_line`. The iterator is a sequence of
  lines with a cursor. The result is the reports with the next line, or the
  escaping `StopIteration`.

Every line number cited below refers to
`tools/report-converter/codechecker_report_converter/analyzers/msbuild/parser.py`.

## Model

| member | source | states |
|---|---|---|
| Text.IsSpace | tools/report-converter/codechecker_report_converter/analyzers/msbuild/parser.py:57 | `\s` and `str.isspace` on ASCII: space, tab, line feed, carriage return, `\v`, `\f` and the separators U+001C..U+001F |
| Text.IsDigit | tools/report-converter/codechecker_report_converter/analyzers/msbuild/parser.py:38-40 | `\d` on ASCII: the digits 0 to 9 |
| Text.IsWordChar | tools/report-converter/codechecker_report_converter/analyzers/msbuild/parser.py:44 | `\w` on ASCII: letters, digits and underscore |
| Text.In | tools/report-converter/codechecker_report_converter/analyzers/msbuild/parser.py:34-48 | membership in the classes the expression uses: `\s`, `\S`, `\d`, `\w`, `[:\d]`, `[\S \t]`, and `/` or not `/` for path splitting |
| Text.LStrip | tools/report-converter/codechecker_report_converter/analyzers/msbuild/parser.py:57 | `line.lstrip()` is a suffix of the line: everything cut off is whitespace, and what is kept is empty or starts with a non-space character |
| Text.LStripAppend | tools/report-converter/codechecker_report_converter/analyzers/msbuild/parser.py:57 | left-stripping a concatenation: a blank first part vanishes, otherwise only the first part is stripped and the rest is kept verbatim |
| Text.Strip | tools/report-converter/codechecker_report_converter/analyzers/msbuild/parser.py:69 | `str.strip()` gives a trimmed infix that starts where the leading whitespace run ends, and only whitespace follows it |
| Text.StripLeavesBlanks | tools/report-converter/codechecker_report_converter/analyzers/msbuild/parser.py:69 | the text is the leading blanks, then the stripped text, then trailing blanks: stripping drops nothing but whitespace |
| Text.StripIsTheTrimmedCore | tools/report-converter/codechecker_report_converter/analyzers/msbuild/parser.py:69 | any non-empty trimmed text surrounded by whitespace is what `strip` gives back |
| Text.StripOfBlank | tools/report-converter/codechecker_report_converter/analyzers/msbuild/parser.py:69 | an all-whitespace message strips to the empty string |
| Text.DecimalValue | tools/report-converter/codechecker_report_converter/analyzers/msbuild/parser.py:67-68 | `int()` on a non-empty digit run: the base-10 value of the digits; its meaning is given by `DecimalRoundTrip` (it inverts `DecimalText`) and `LeadingZeroIgnored` |
| Text.DecimalText | tools/report-converter/codechecker_report_converter/analyzers/msbuild/parser.py:67-68 | the canonical decimal writing of a number is a non-empty digit run with no leading zero |
| Text.DecimalRoundTrip | tools/report-converter/codechecker_report_converter/analyzers/msbuild/parser.py:67-68 | `int()` of a number's decimal writing is that number |
| Text.LeadingZeroIgnored | tools/report-converter/codechecker_report_converter/analyzers/msbuild/parser.py:67-68 | `int()` of a digit run ignores a leading zero, so `007` and `7` give the same line number |
| LineGrammar.WellFormed | tools/report-converter/codechecker_report_converter/analyzers/msbuild/parser.py:34-48 | each piece has the character class its group demands: `[:\d]+` prefix, whitespace-free path, digit line and column, `error` or `warning`, `\w+` id, `[\S \t]+` message, whitespace gap, `\S+` project; `MatchSound` and `MatchFindsEverySplit` relate it to the matcher |
| LineGrammar.Render | tools/report-converter/codechecker_report_converter/analyzers/msbuild/parser.py:32-49 | the text the expression consumes for given pieces, `prefix>path(line,column): severity id: message gap [project]`; `SplitLocationInverts` and `RenderedLineMatches` read it back |
| LineGrammar.IsSplit | tools/report-converter/codechecker_report_converter/analyzers/msbuild/parser.py:32-49 | the declarative grammar: well-formed pieces whose rendering starts the line, with nothing required after the `]`; `MatchNoneIffNoSplit` ties it to the matcher in both directions |
| LineGrammar.IsGreedy | tools/report-converter/codechecker_report_converter/analyzers/msbuild/parser.py:32-49 | the split backtracking reports: a split at least as greedy as every split (longest message, then longest project); `MatchIsGreedy`, `GreedySplitIsMatch` and `EquallyGreedySplitsAgree` show it is exactly `Match` |
| LineMatcher.Match | tools/report-converter/codechecker_report_converter/analyzers/msbuild/parser.py:32-49 | `re.match` of the expression on the left-stripped line: the stages run in order, and no match at any stage means no match; `MatchSound`, `MatchIsGreedy` and `MatchNoneIffNoSplit` give its meaning |
| LineMatcher.SplitIsStaged | tools/report-converter/codechecker_report_converter/analyzers/msbuild/parser.py:32-49 | reading the expression one group at a time, each on what the previous groups leave, accepts exactly the splits of the whole line |
| LineMatcher.MatchPrefix | tools/report-converter/codechecker_report_converter/analyzers/msbuild/parser.py:34 | reads the digit-and-colon run and requires `>` right after it; `MatchPrefixSound` and `MatchPrefixFindsIt` give its meaning |
| LineMatcher.MatchPrefixSound | tools/report-converter/codechecker_report_converter/analyzers/msbuild/parser.py:34 | a prefix the matcher reads is a non-empty run of digits and colons followed by `>` |
| LineMatcher.MatchPrefixFindsIt | tools/report-converter/codechecker_report_converter/analyzers/msbuild/parser.py:34 | whenever some `[:\d]+>` starts the line, the matcher reads exactly that prefix |
| LineMatcher.SplitLocation | tools/report-converter/codechecker_report_converter/analyzers/msbuild/parser.py:36-40 | cuts a whitespace-free run ending in `(digits,digits):` into path, line and column; `SplitLocationSound` and `SplitLocationInverts` give its meaning |
| LineMatcher.SplitLocationSound | tools/report-converter/codechecker_report_converter/analyzers/msbuild/parser.py:36-40 | the path, line and column cut from a whitespace-free run write back to that run, and they are well formed |
| LineMatcher.SplitLocationInverts | tools/report-converter/codechecker_report_converter/analyzers/msbuild/parser.py:36-40 | cutting the written form `path(line,column):` of a well-formed location gives that location back |
| LineMatcher.MatchLocation | tools/report-converter/codechecker_report_converter/analyzers/msbuild/parser.py:36-40 | takes the whitespace-free run, which must end at a literal space, and splits it; `MatchLocationSound` and `MatchLocationFindsIt` give its meaning |
| LineMatcher.MatchLocationSound | tools/report-converter/codechecker_report_converter/analyzers/msbuild/parser.py:36-40 | a location the matcher reads is followed by a space and fills the whole whitespace-free run |
| LineMatcher.MatchLocationFindsIt | tools/report-converter/codechecker_report_converter/analyzers/msbuild/parser.py:36-40 | any location that starts the text and is followed by a space is the one the matcher reads, so the path and the numbers are unique |
| LineMatcher.MatchSeverity | tools/report-converter/codechecker_report_converter/analyzers/msbuild/parser.py:42 | reads `error ` or `warning `, case-sensitively; `MatchSeveritySound`, `MatchSeverityFindsIt` and `OtherWordFailsSeverity` give its meaning |
| LineMatcher.MatchSeveritySound | tools/report-converter/codechecker_report_converter/analyzers/msbuild/parser.py:42 | a severity the matcher reads is `error` or `warning` and is followed by a space |
| LineMatcher.MatchSeverityFindsIt | tools/report-converter/codechecker_report_converter/analyzers/msbuild/parser.py:42 | any severity followed by a space that starts the text is the one the matcher reads |
| LineMatcher.MatchAnalyzer | tools/report-converter/codechecker_report_converter/analyzers/msbuild/parser.py:44 | reads the word run and requires `: ` after it; `MatchAnalyzerSound` and `MatchAnalyzerFindsIt` give its meaning |
| LineMatcher.MatchAnalyzerSound | tools/report-converter/codechecker_report_converter/analyzers/msbuild/parser.py:44 | an analyzer id the matcher reads is a non-empty word run followed by `: ` |
| LineMatcher.MatchAnalyzerFindsIt | tools/report-converter/codechecker_report_converter/analyzers/msbuild/parser.py:44 | any `\w+: ` that starts the text is the analyzer id the matcher reads |
| LineMatcher.LastBracket | tools/report-converter/codechecker_report_converter/analyzers/msbuild/parser.py:48 | the position found holds `]` and no later position in range does: where backtracking of `\S+` stops |
| LineMatcher.MatchClosing | tools/report-converter/codechecker_report_converter/analyzers/msbuild/parser.py:46-48 | reads `\s* \[\S+\]` after a message: the whitespace run must end in a space followed by `[`, and the project ends at the last `]` of the following whitespace-free run; `MatchClosingSound` and `MatchClosingFindsIt` give its meaning |
| LineMatcher.MatchClosingSound | tools/report-converter/codechecker_report_converter/analyzers/msbuild/parser.py:46-48 | a closing the matcher reads is whitespace, a space, `[`, a non-empty whitespace-free project and `]` |
| LineMatcher.MatchClosingFindsIt | tools/report-converter/codechecker_report_converter/analyzers/msbuild/parser.py:46-48 | whenever some closing starts the text, the matcher reads one with the same whitespace and a project at least as long |
| LineMatcher.LongestTail | tools/report-converter/codechecker_report_converter/analyzers/msbuild/parser.py:46 | the greedy message search: tries the longest message first and shortens it one character at a time until a closing can be read; it never returns a message longer than its bound, and `LongestTailShape`, `LongestTailReaches` and `LongestTailIsGreedy` give its meaning |
| LineMatcher.LongestTailSound | tools/report-converter/codechecker_report_converter/analyzers/msbuild/parser.py:46-48 | within the run of `[\S \t]` characters, a tail the search returns is a valid message, whitespace and `[project]` |
| LineMatcher.LongestTailShape | tools/report-converter/codechecker_report_converter/analyzers/msbuild/parser.py:46 | the tail found ends its message at a non-empty position within the bound where a closing can be read |
| LineMatcher.LongestTailReaches | tools/report-converter/codechecker_report_converter/analyzers/msbuild/parser.py:46 | a closing readable after the first `n` characters makes the search succeed with a message of at least `n` characters |
| LineMatcher.LongestTailIsGreedy | tools/report-converter/codechecker_report_converter/analyzers/msbuild/parser.py:46-48 | the tail found is at least as greedy as every valid tail within the bound |
| LineMatcher.MatchTail | tools/report-converter/codechecker_report_converter/analyzers/msbuild/parser.py:46-48 | the message search bounded by the run of `[\S \t]` characters; `MatchTailSound` and `MatchTailFindsIt` give its meaning |
| LineMatcher.MatchTailSound | tools/report-converter/codechecker_report_converter/analyzers/msbuild/parser.py:46-48 | the tail the matcher reads is a valid `message\s* [project]` |
| LineMatcher.MatchTailFindsIt | tools/report-converter/codechecker_report_converter/analyzers/msbuild/parser.py:46-48 | whenever some valid tail starts the text, the matcher reads one at least as greedy |
| LineMatcher.TailDeterminedByLengths | tools/report-converter/codechecker_report_converter/analyzers/msbuild/parser.py:46-48 | two valid tails of the same text with the same message and project lengths are the same tail, whitespace included |
| LineMatcher.MatchSound | tools/report-converter/codechecker_report_converter/analyzers/msbuild/parser.py:32-49 | whatever the matcher returns is a split of the line |
| LineMatcher.MatchFindsEverySplit | tools/report-converter/codechecker_report_converter/analyzers/msbuild/parser.py:32-49 | whenever the line has a split, the matcher returns one with the same head that is at least as greedy |
| LineMatcher.MatchIsGreedy | tools/report-converter/codechecker_report_converter/analyzers/msbuild/parser.py:32-49 | the matcher's result is the greedy split: at least as greedy as every split |
| LineMatcher.MatchNoneIffNoSplit | tools/report-converter/codechecker_report_converter/analyzers/msbuild/parser.py:32-49 | the matcher returns nothing exactly when the line has no split |
| LineMatcher.SplitsAgreeBeforeMessage | tools/report-converter/codechecker_report_converter/analyzers/msbuild/parser.py:34-44 | all splits of a line agree on prefix, path, line, column, severity and analyzer id |
| LineMatcher.GreedySplitIsMatch | tools/report-converter/codechecker_report_converter/analyzers/msbuild/parser.py:32-49 | a split at least as greedy as every other is the matcher's result |
| LineMatcher.EquallyGreedySplitsAgree | tools/report-converter/codechecker_report_converter/analyzers/msbuild/parser.py:32-49 | two splits each at least as greedy as the other are equal, so the greedy split is unique |
| LineMatcher.RenderEndsWithBracket | tools/report-converter/codechecker_report_converter/analyzers/msbuild/parser.py:48 | a match always ends at a `]` |
| LineMatcher.SplitIgnoresBracketFreeSuffix | tools/report-converter/codechecker_report_converter/analyzers/msbuild/parser.py:48 | appending text without `]` neither adds nor removes any split |
| LineMatcher.MatchIgnoresBracketFreeSuffix | tools/report-converter/codechecker_report_converter/analyzers/msbuild/parser.py:48 | appending text without `]` leaves the match unchanged, since the expression is anchored only at the start |
| LineMatcher.SuffixKeepsHead | tools/report-converter/codechecker_report_converter/analyzers/msbuild/parser.py:48 | any appended text keeps a matching line matching, with the same head and a tail at least as greedy |
| LineMatcher.LaterBracketJoinsMessage | tools/report-converter/codechecker_report_converter/analyzers/msbuild/parser.py:46-48 | when ` [` directly follows the old message (empty gap), appending ` [x]` to a fully matched line moves the old ` [project]` into the message, and `x` becomes the project |
| LineMatcher.LaterBracketKeepsMatch | tools/report-converter/codechecker_report_converter/analyzers/msbuild/parser.py:46-48 | when the old gap is not empty, appending ` [x]` to a fully matched line leaves the match exactly as it was, since the gap's first character stops `[\S \t]+` |
| LineMatcher.GreedyGapLeavesLine | tools/report-converter/codechecker_report_converter/analyzers/msbuild/parser.py:46-47 | the greedy gap is empty or starts with whitespace outside `[\S \t]` (a line feed, `\v`, `\f`, ...): a space or tab there would belong to the message |
| LineMatcher.GreedyGapAt | tools/report-converter/codechecker_report_converter/analyzers/msbuild/parser.py:46-47 | the same for any split that dominates every other split |
| LineMatcher.WidenedSplit | tools/report-converter/codechecker_report_converter/analyzers/msbuild/parser.py:46-47 | a split whose gap starts with a space or tab stays a split with that character moved into the message |
| LineMatcher.GapStopsMessage | tools/report-converter/codechecker_report_converter/analyzers/msbuild/parser.py:46-48 | after a message whose gap starts outside `[\S \t]`, no tail of `message gap [project] [x]` has a longer message, and one of the same length has no longer project |
| LineMatcher.MessageStopsAt | tools/report-converter/codechecker_report_converter/analyzers/msbuild/parser.py:46 | `[\S \t]+` cannot run past the first character outside its class |
| LineMatcher.ProjectStopsAtSpace | tools/report-converter/codechecker_report_converter/analyzers/msbuild/parser.py:48 | `\S+` followed by `]` cannot run past a space that follows an earlier `]` |
| LineMatcher.TailAfterRender | tools/report-converter/codechecker_report_converter/analyzers/msbuild/parser.py:32-49 | text appended to a rendered line follows the rendered message, gap and project |
| LineMatcher.GreedyOverGap | tools/report-converter/codechecker_report_converter/analyzers/msbuild/parser.py:46-48 | the old pieces dominate every split of the extended line when the old gap stops the message |
| LineMatcher.LastSplitWins | tools/report-converter/codechecker_report_converter/analyzers/msbuild/parser.py:46-48 | a split that spans the whole line and has no extra whitespace before ` [` is the one matched |
| LineMatcher.ClosingAfterMessage | tools/report-converter/codechecker_report_converter/analyzers/msbuild/parser.py:46-48 | in `m [x]` with `x` whitespace-free, no valid message runs past `m`, and one ending with `m` takes ` [` directly after it |
| LineMatcher.RenderedLineMatches | tools/report-converter/codechecker_report_converter/analyzers/msbuild/parser.py:32-49 | a line written from well-formed pieces matches, with those pieces before the message |
| LineMatcher.SpaceEndedWordsAgree | tools/report-converter/codechecker_report_converter/analyzers/msbuild/parser.py:42 | two whitespace-free words that each start the text and are followed by a space are the same word |
| LineMatcher.OtherWordFailsSeverity | tools/report-converter/codechecker_report_converter/analyzers/msbuild/parser.py:42 | a first word other than the exact lower-case `error` or `warning` fails the severity group |
| LineMatcher.SeverityGate | tools/report-converter/codechecker_report_converter/analyzers/msbuild/parser.py:42 | with a valid prefix and location, any other severity word (`info`, `Error`) means no match |
| PosixPath.SplitOn | tools/report-converter/codechecker_report_converter/analyzers/msbuild/parser.py:61 | `split('/')` always yields at least one piece |
| PosixPath.SplitOnJoins | tools/report-converter/codechecker_report_converter/analyzers/msbuild/parser.py:61 | the pieces of `split('/')` hold no slash and join back to the path |
| PosixPath.JoinSep | tools/report-converter/codechecker_report_converter/analyzers/msbuild/parser.py:61 | `'/'.join` of the kept components; `JoinSepSplits` and `SplitOnJoins` give its meaning as the inverse of `split('/')` |
| PosixPath.JoinSepSplits | tools/report-converter/codechecker_report_converter/analyzers/msbuild/parser.py:61 | splitting the `/`-join of slash-free pieces gives the pieces back |
| PosixPath.DirName | tools/report-converter/codechecker_report_converter/analyzers/msbuild/parser.py:62 | `posixpath.dirname`: drops the last component, and the trailing slashes before it unless only slashes remain; `DirNameIsLeadingPart`, `DirNameOfJoin` and `DirNameKeepsAbsolute` give its meaning |
| PosixPath.DirNameIsLeadingPart | tools/report-converter/codechecker_report_converter/analyzers/msbuild/parser.py:62 | `dirname` is a leading part of the path, and empty for a path without a slash |
| PosixPath.DirNameOfJoin | tools/report-converter/codechecker_report_converter/analyzers/msbuild/parser.py:62 | the `dirname` of a directory joined with a file name is that directory |
| PosixPath.DirNameKeepsAbsolute | tools/report-converter/codechecker_report_converter/analyzers/msbuild/parser.py:62 | `dirname` of a path is absolute exactly when the path is |
| PosixPath.Join | tools/report-converter/codechecker_report_converter/analyzers/msbuild/parser.py:62-63 | `join(a, b)` always ends with `b` |
| PosixPath.JoinAbsolute | tools/report-converter/codechecker_report_converter/analyzers/msbuild/parser.py:62-63 | joining an absolute path discards the directory |
| PosixPath.JoinKeepsAbsolute | tools/report-converter/codechecker_report_converter/analyzers/msbuild/parser.py:62-63 | `join(a, b)` is absolute exactly when `a` or `b` is |
| PosixPath.InitialSlashes | tools/report-converter/codechecker_report_converter/analyzers/msbuild/parser.py:61 | `normpath` keeps at most two leading slashes, and some exactly when the path is absolute |
| PosixPath.NormPath | tools/report-converter/codechecker_report_converter/analyzers/msbuild/parser.py:61 | `normpath` never returns the empty string |
| PosixPath.Step | tools/report-converter/codechecker_report_converter/analyzers/msbuild/parser.py:61 | one iteration of the `normpath` component loop: drops empty and `.` components, and lets `..` cancel the last kept component; `StepKeepsNormal` gives its meaning |
| PosixPath.Fold | tools/report-converter/codechecker_report_converter/analyzers/msbuild/parser.py:61 | the `normpath` component loop over all components; `FoldKeepsNormal`, `FoldFixesNormal` and `FoldSkipsLeadingEmpty` give its meaning |
| PosixPath.StepKeepsNormal | tools/report-converter/codechecker_report_converter/analyzers/msbuild/parser.py:61 | one component step of `normpath` keeps the kept components normal: no empty or `.` part, and `..` only leading and only when relative |
| PosixPath.FoldKeepsNormal | tools/report-converter/codechecker_report_converter/analyzers/msbuild/parser.py:61 | the component loop of `normpath` produces normal components |
| PosixPath.FoldFixesNormal | tools/report-converter/codechecker_report_converter/analyzers/msbuild/parser.py:61 | the component loop keeps components that are already normal unchanged |
| PosixPath.FoldSkipsLeadingEmpty | tools/report-converter/codechecker_report_converter/analyzers/msbuild/parser.py:61 | the empty pieces leading slashes split off change nothing in the component loop |
| PosixPath.NormPathShape | tools/report-converter/codechecker_report_converter/analyzers/msbuild/parser.py:61 | a normalised path is its leading slashes followed by normal components joined with `/`, or `.` when nothing is left of a relative path |
| PosixPath.NormPathKeepsAbsolute | tools/report-converter/codechecker_report_converter/analyzers/msbuild/parser.py:61 | `normpath` of a path is absolute exactly when the path is |
| PosixPath.NormPathIdempotent | tools/report-converter/codechecker_report_converter/analyzers/msbuild/parser.py:61 | normalising twice is the same as normalising once |
| PosixPath.NormPathOfNormal | tools/report-converter/codechecker_report_converter/analyzers/msbuild/parser.py:61 | leading slashes followed by normal components are left as they are |
| PosixPath.NormCompsOfNormal | tools/report-converter/codechecker_report_converter/analyzers/msbuild/parser.py:61 | the components kept from an already normal path are its own components |
| PosixPath.Resolve | tools/report-converter/codechecker_report_converter/analyzers/msbuild/parser.py:61-63 | `normpath(join(dirname(analyzer_result), path))`, the report's file path; `ResolveAbsolute`, `ResolveKeepsAbsolute` and `ResolveIsNormal` give its meaning |
| PosixPath.ResolveAbsolute | tools/report-converter/codechecker_report_converter/analyzers/msbuild/parser.py:61-63 | an absolute reported path resolves to its normal form, whatever the analyzer result's location |
| PosixPath.ResolveKeepsAbsolute | tools/report-converter/codechecker_report_converter/analyzers/msbuild/parser.py:61-63 | the report's file path is absolute exactly when the analyzer result's path or the reported path is |
| PosixPath.ResolveIsNormal | tools/report-converter/codechecker_report_converter/analyzers/msbuild/parser.py:61-63 | the report's file path is already normal: normalising it again changes nothing |
| FileCache.GetOrCreate | tools/report-converter/codechecker_report_converter/analyzers/msbuild/parser.py:66 | after the lookup the path is cached with the file handed out, every earlier entry is kept, and only the path is added |
| FileCache.GetOrCreateKeepsValid | tools/report-converter/codechecker_report_converter/analyzers/msbuild/parser.py:66 | the lookup keeps the cache consistent and gives the file of the path asked for; a new file differs from every cached one |
| FileCache.GetOrCreateIdempotent | tools/report-converter/codechecker_report_converter/analyzers/msbuild/parser.py:66 | asking again for the same path gives the same file and changes nothing: the first insertion wins |
| FileCache.DistinctPathsDistinctFiles | tools/report-converter/codechecker_report_converter/analyzers/msbuild/parser.py:66 | different normalised paths never share a file |
| MsBuildParser.ParseLine | tools/report-converter/codechecker_report_converter/analyzers/msbuild/parser.py:51-76 | a step makes at most one report and never changes the analyzer result's path |
| MsBuildParser.StepOn | tools/report-converter/codechecker_report_converter/analyzers/msbuild/parser.py:58-76 | the step after matching: no match reads on, or lets `StopIteration` escape at the end; a match builds the report and reads on, or returns `''` at the end; it keeps the analyzer result path, and `StepConsumesOneLine` and `StepAtEnd` give its meaning |
| MsBuildParser.Build | tools/report-converter/codechecker_report_converter/analyzers/msbuild/parser.py:61-71 | the report for a match, with the cache after the file lookup; it keeps the analyzer result path, and `ReportOfSplit`, `ReportMessage` and `ReportFile` give its meaning |
| MsBuildParser.MatchedStep | tools/report-converter/codechecker_report_converter/analyzers/msbuild/parser.py:57-71 | a matching line gives exactly the report built from its match and the cache after that file lookup |
| MsBuildParser.StepConsumesOneLine | tools/report-converter/codechecker_report_converter/analyzers/msbuild/parser.py:59-74 | while lines are left, every step, matching or not, returns the next line and moves the iterator past exactly that one line |
| MsBuildParser.StepAtEnd | tools/report-converter/codechecker_report_converter/analyzers/msbuild/parser.py:58-76 | on an exhausted iterator, a matching line still gives its report with the empty string as next line; a line that does not match lets `StopIteration` escape with nothing changed |
| MsBuildParser.ReportIffSplit | tools/report-converter/codechecker_report_converter/analyzers/msbuild/parser.py:57-59 | a step reports exactly when the left-stripped line has a split; without one the parser state is unchanged |
| MsBuildParser.PrefixGate | tools/report-converter/codechecker_report_converter/analyzers/msbuild/parser.py:57-59 | a line not starting with digits and colons and `>` (after its leading whitespace) gives no report |
| MsBuildParser.SeverityGateStep | tools/report-converter/codechecker_report_converter/analyzers/msbuild/parser.py:57-59 | a line whose severity word is not exactly `error` or `warning` gives no report |
| MsBuildParser.ReportOfSplit | tools/report-converter/codechecker_report_converter/analyzers/msbuild/parser.py:61-71 | for any split of the line: the report's file is the cache's file for the resolved path, line and column are the values of the split's digit runs, and the checker name is its analyzer id |
| MsBuildParser.StrippedMessage | tools/report-converter/codechecker_report_converter/analyzers/msbuild/parser.py:69 | stripping a message keeps a trimmed middle between a whitespace prefix and a whitespace suffix, and a blank message strips to nothing |
| MsBuildParser.ReportMessage | tools/report-converter/codechecker_report_converter/analyzers/msbuild/parser.py:69 | the report's message is the greedy message with only surrounding whitespace removed; it is trimmed, and empty when the message is blank |
| MsBuildParser.ReportFile | tools/report-converter/codechecker_report_converter/analyzers/msbuild/parser.py:61-66 | the report's file carries the resolved path and is the cache's entry for it; a path seen before reuses its file with the cache unchanged; the cache stays consistent |
| MsBuildParser.RenderedLineReported | tools/report-converter/codechecker_report_converter/analyzers/msbuild/parser.py:57-71 | a line written from well-formed pieces gives back its path's file, its line and column values and its analyzer id |
| MsBuildParser.NumbersRoundTrip | tools/report-converter/codechecker_report_converter/analyzers/msbuild/parser.py:67-68 | line and column numbers written in decimal, `0` included, come back as themselves |
| MsBuildParser.LeadingWhitespaceIgnored | tools/report-converter/codechecker_report_converter/analyzers/msbuild/parser.py:57 | whitespace before a line changes nothing about the step |
| MsBuildParser.BracketFreeSuffixIgnored | tools/report-converter/codechecker_report_converter/analyzers/msbuild/parser.py:48-57 | text without `]` after a line changes nothing about the step |
| MsBuildParser.AnySuffixKeepsReportHead | tools/report-converter/codechecker_report_converter/analyzers/msbuild/parser.py:48-57 | whatever follows a reported line, the longer line is reported with the same file, line, column and checker name |
| MsBuildParser.LaterBracketAfterGapIgnored | tools/report-converter/codechecker_report_converter/analyzers/msbuild/parser.py:48-57 | when the old gap is not empty, a further ` [x]` after a fully matched line changes nothing about the step |
| MsBuildParser.LaterBracketInMessage | tools/report-converter/codechecker_report_converter/analyzers/msbuild/parser.py:69 | when ` [` directly follows the old message, a further ` [x]` after a fully matched line makes the old ` [project]` part of the report's message |

## Left out

- Logging (`LOG`, line 19) has no behaviour to model.
- The `BaseParser` loop, reading the output file, and the Python iterator (line 16) are left out. The iterator is a sequence of lines with a cursor, and `next(it)` reads the line at the cursor.
- `Report` and `get_or_create_file` are imported from `codechecker_report_converter.report` (line 15) and are not modelled. The report is a record of its five arguments. The file cache is assumed to be a get-or-create map from path to file object, where a file's identity is its creation number. The `FileCache` lemmas hold for this assumed cache.
- `posixpath.dirname`, `join` and `normpath` are standard-library functions, modelled from their documented POSIX behaviour: `normpath` keeps exactly two leading slashes, but one for three or more. Windows `ntpath` semantics (drive letters, backslashes) are left out.
- Character classes are ASCII only. `\s` and `str.isspace` are space, `\t`, `\n`, `\r`, `\v`, `\f` and `\x1c`-`\x1f`; `\d` is `0`-`9`; `\w` is ASCII letters, digits and `_`. Python's Unicode classes, and `int()` on non-ASCII digits, are not modelled, so any other character counts as non-space, non-digit and non-word.
- The regular-expression engine is modelled by its result, not by its backtracking steps: `Match` computes the greedy split directly, and `MatchIsGreedy` with `EquallyGreedySplitsAgree` ties it to the backtracking order.
- MsBuildParser.StepAtEnd: `next(it)` at line 59 is outside the `try`, so on a non-matching line an exhausted iterator lets `StopIteration` escape. Only a matching line gets `''` (lines 73-76).
- MsBuildParser.BracketFreeSuffixIgnored covers only appended text without `]`. When ` [` directly follows the old message, a later ` [x]` extends the greedy message over the old closing (`LaterBracketInMessage`); otherwise the step is unchanged (`LaterBracketAfterGapIgnored`). Any appended text still keeps the file, line, column and checker name (`AnySuffixKeepsReportHead`).
- Nothing rejects line or column `0`, or a message that strips to the empty string, and the model accepts both as the code does.
- Text.DecimalValue models `int()` as unbounded. Newer Python releases (3.11 and later, and the 3.7.14, 3.8.14, 3.9.14 and 3.10.7 security releases) raise `ValueError` on a digit string longer than 4300 digits by default (`sys.int_max_str_digits`). `_parse_line` would then raise after line 66 had already added the file to the cache. The model has no such error path: it returns a report for a digit run of any length, since the limit depends on the interpreter version and configuration, not on this code.
