/** The MSBuild diagnostic line grammar, stated declaratively.

    The parser compiles one regular expression (parser.py, lines 32-49):

        ^([:\d]+)>(\S+)\((\d+),(\d+)\): (error|warning) (\w+): ([\S \t]+)\s* \[(\S+)\]

    and applies it with `re.match` to the left-trimmed line. A `Fields` value
    records one way of cutting the text into the pieces the expression names
    (plus the unnamed `\s*` run, called the gap); `IsSplit` says that the text
    starts with the rendering of well-formed pieces; `IsGreedy` picks, among all
    splits, the one Python's backtracking matcher returns. */
module LineGrammar {
  import opened Text

  /** `path(line,column):` */
  datatype Location = Location(path: string, line: string, column: string)

  /** `message`, the `\s*` gap after it, and the bracketed `project`. */
  datatype Tail = Tail(message: string, gap: string, project: string)

  datatype Fields = Fields(
    prefix: string,
    location: Location,
    severity: string,
    analyzerId: string,
    tail: Tail)

  predicate IsPrefix(s: string) { |s| > 0 && All(s, DigitOrColon) }

  predicate IsLocation(loc: Location) {
    && |loc.path| > 0 && All(loc.path, NonSpace)
    && |loc.line| > 0 && All(loc.line, Digit)
    && |loc.column| > 0 && All(loc.column, Digit)
  }

  /** Only the two lower-case literals; the comparison is case-sensitive. */
  predicate IsSeverity(s: string) { s == "error" || s == "warning" }

  predicate IsAnalyzerId(s: string) { |s| > 0 && All(s, Word) }

  predicate IsTail(tl: Tail) {
    && |tl.message| > 0 && All(tl.message, LineChar)
    && All(tl.gap, Space)
    && |tl.project| > 0 && All(tl.project, NonSpace)
  }

  predicate WellFormed(f: Fields) {
    && IsPrefix(f.prefix)
    && IsLocation(f.location)
    && IsSeverity(f.severity)
    && IsAnalyzerId(f.analyzerId)
    && IsTail(f.tail)
  }

  function LocationText(loc: Location): string {
    loc.path + "(" + loc.line + "," + loc.column + "):"
  }

  /** `\s* \[project\]`: what must follow the message. */
  function ClosingText(gap: string, project: string): string {
    gap + " [" + project + "]"
  }

  function TailText(tl: Tail): string {
    tl.message + ClosingText(tl.gap, tl.project)
  }

  /** The rendering from the analyzer id on: `analyzer_id: message gap [project]`. */
  function AnalyzerOnward(f: Fields): string {
    f.analyzerId + ": " + TailText(f.tail)
  }

  /** The rendering from the severity on. */
  function SeverityOnward(f: Fields): string {
    f.severity + " " + AnalyzerOnward(f)
  }

  /** The rendering from the path on. */
  function LocationOnward(f: Fields): string {
    LocationText(f.location) + " " + SeverityOnward(f)
  }

  /** The text the expression consumes when it matches with these pieces:
      `prefix>path(line,column): severity analyzer_id: message gap [project]`. */
  function Render(f: Fields): string {
    f.prefix + ">" + LocationOnward(f)
  }

  /** `t` begins with the rendering of well-formed pieces `f`. Nothing is
      required of the text after the closing `]`: the expression has no `$`. */
  ghost predicate IsSplit(t: string, f: Fields) {
    WellFormed(f) && Render(f) <= t
  }

  /** The pieces before the message agree. */
  predicate SameHead(f: Fields, g: Fields) {
    && f.prefix == g.prefix && f.location == g.location
    && f.severity == g.severity && f.analyzerId == g.analyzerId
  }

  /** Backtracking order: every piece before the message is fixed by the text
      (see `LineMatcher.SplitsAgreeBeforeMessage`), the greedy `[\S \t]+` tries
      the longest message first, and for that message the greedy `\S+` tries the
      longest project first. */
  predicate AtLeastAsGreedy(f: Fields, g: Fields) {
    AtLeastAsGreedyTail(f.tail, g.tail)
  }

  /** The same order on the tails alone. */
  predicate AtLeastAsGreedyTail(a: Tail, b: Tail) {
    || |b.message| < |a.message|
    || (|b.message| == |a.message| && |b.project| <= |a.project|)
  }

  /** The split `re.match` reports for `t`. */
  ghost predicate IsGreedy(t: string, f: Fields) {
    IsSplit(t, f) && forall g :: IsSplit(t, g) ==> AtLeastAsGreedy(f, g)
  }
}
