/** An executable matcher for the line grammar, built stage by stage in the
    order of the expression, and its proof against the declarative grammar:
    a result is the greedy split, and `None` means that no split exists. */
module LineMatcher {
  import opened Text
  import opened Options
  import opened LineGrammar

  /*** Splitting a concatenation off the front of a text ***/

  lemma Peel(x: string, rest: string, u: string)
    ensures x + rest <= u <==> x <= u && rest <= u[|x|..]
  {
    if x + rest <= u {
      assert x == (x + rest)[..|x|];
      assert forall i :: 0 <= i < |rest| ==> rest[i] == (x + rest)[|x| + i];
    }
    if x <= u && rest <= u[|x|..] {
      assert forall i :: 0 <= i < |x + rest| ==> (x + rest)[i] == u[i];
    }
  }

  /*** The stages, one predicate and one matcher each ***/

  /** `prefix>` starts `t`. */
  ghost predicate PrefixAt(t: string, p: string) { IsPrefix(p) && p + ">" <= t }

  /** `path(line,column): ` starts `u`. */
  ghost predicate LocationAt(u: string, loc: Location) {
    IsLocation(loc) && LocationText(loc) + " " <= u
  }

  /** `severity ` starts `u`. */
  ghost predicate SeverityAt(u: string, s: string) { IsSeverity(s) && s + " " <= u }

  /** `analyzer_id: ` starts `u`. */
  ghost predicate AnalyzerAt(u: string, id: string) { IsAnalyzerId(id) && id + ": " <= u }

  /** `message gap [project]` starts `u`. */
  ghost predicate TailAt(u: string, tl: Tail) { IsTail(tl) && TailText(tl) <= u }

  /** `analyzer_id: ` and the tail, read from `u`. */
  ghost predicate FromAnalyzer(u: string, f: Fields) {
    AnalyzerAt(u, f.analyzerId) && TailAt(u[|f.analyzerId| + 2..], f.tail)
  }

  /** `severity ` and everything after it, read from `u`. */
  ghost predicate FromSeverity(u: string, f: Fields) {
    SeverityAt(u, f.severity) && FromAnalyzer(u[|f.severity| + 1..], f)
  }

  /** `path(line,column): ` and everything after it, read from `u`. */
  ghost predicate FromLocation(u: string, f: Fields) {
    LocationAt(u, f.location) && FromSeverity(u[|LocationText(f.location)| + 1..], f)
  }

  /** The grammar read one stage at a time, each stage on what the previous
      stages leave over. */
  ghost predicate Staged(t: string, f: Fields) {
    PrefixAt(t, f.prefix) && FromLocation(t[|f.prefix| + 1..], f)
  }

  lemma AnalyzerLevel(u: string, f: Fields)
    ensures IsAnalyzerId(f.analyzerId) && IsTail(f.tail) && AnalyzerOnward(f) <= u
      <==> FromAnalyzer(u, f)
  {
    Peel(f.analyzerId + ": ", TailText(f.tail), u);
  }

  lemma SeverityLevel(u: string, f: Fields)
    ensures IsSeverity(f.severity) && IsAnalyzerId(f.analyzerId) && IsTail(f.tail) && SeverityOnward(f) <= u
      <==> FromSeverity(u, f)
  {
    Peel(f.severity + " ", AnalyzerOnward(f), u);
    if f.severity + " " <= u {
      AnalyzerLevel(u[|f.severity| + 1..], f);
    }
  }

  lemma LocationLevel(u: string, f: Fields)
    ensures IsLocation(f.location) && IsSeverity(f.severity) && IsAnalyzerId(f.analyzerId)
      && IsTail(f.tail) && LocationOnward(f) <= u
      <==> FromLocation(u, f)
  {
    if IsLocation(f.location) && IsSeverity(f.severity) && IsAnalyzerId(f.analyzerId)
      && IsTail(f.tail) && LocationOnward(f) <= u
    {
      LocationLevelForth(u, f);
    }
    if FromLocation(u, f) {
      LocationLevelBack(u, f);
    }
  }

  /** The two directions of `LocationLevel`, proved apart. */
  lemma LocationLevelForth(u: string, f: Fields)
    requires IsLocation(f.location) && IsSeverity(f.severity) && IsAnalyzerId(f.analyzerId)
    requires IsTail(f.tail) && LocationOnward(f) <= u
    ensures FromLocation(u, f)
  {
    var a := LocationText(f.location);
    PeelWord(a, SeverityOnward(f), u);
    SeverityLevel(u[|a| + 1..], f);
  }

  lemma LocationLevelBack(u: string, f: Fields)
    requires FromLocation(u, f)
    ensures LocationOnward(f) <= u
  {
    var a := LocationText(f.location);
    PeelWord(a, SeverityOnward(f), u);
    SeverityLevel(u[|a| + 1..], f);
  }

  /** `Peel` for a word followed by a space. */
  lemma PeelWord(a: string, rest: string, u: string)
    ensures a + " " + rest <= u <==> a + " " <= u && rest <= u[|a| + 1..]
  {
    Peel(a + " ", rest, u);
  }

  /** The whole-line grammar and the staged reading agree. */
  lemma SplitIsStaged(t: string, f: Fields)
    ensures IsSplit(t, f) <==> Staged(t, f)
  {
    Peel(f.prefix + ">", LocationOnward(f), t);
    if f.prefix + ">" <= t {
      LocationLevel(t[|f.prefix| + 1..], f);
    }
  }

  /** Stage 1: `[:\d]+` cannot contain `>`, so the prefix is the whole run of
      digits and colons at the start of the line. */
  function MatchPrefix(t: string): Option<string> {
    var n := Span(t, DigitOrColon);
    if 0 < n < |t| && t[n] == '>' then Some(t[..n]) else None
  }

  lemma MatchPrefixSound(t: string)
    requires MatchPrefix(t).Some?
    ensures PrefixAt(t, MatchPrefix(t).value)
  {
    SpanFacts(t, DigitOrColon);
  }

  lemma MatchPrefixFindsIt(t: string, p: string)
    requires PrefixAt(t, p)
    ensures MatchPrefix(t) == Some(p)
  {
    assert t[..|p|] == p && t[|p|] == '>';
    SpanIsTheRun(t, DigitOrColon, |p|);
  }

  /** Splits a whitespace-free run `path(line,column):` from the right: the
      column and the line are the digit runs closing it, and the path is all
      that precedes the `(` before the line. */
  function SplitLocation(run: string): Option<Location>
  {
    var n := |run|;
    if n < 2 || run[n - 2] != ')' || run[n - 1] != ':' then None
    else
      var close := n - 2;
      var c := RunBefore(run, close, Digit);
      if c == 0 || c == close || run[close - c - 1] != ',' then None
      else
        var comma := close - c - 1;
        var l := RunBefore(run, comma, Digit);
        if l == 0 || l == comma || run[comma - l - 1] != '(' then None
        else
          var open := comma - l - 1;
          if open == 0 then None
          else Some(Location(run[..open], run[open + 1..comma], run[comma + 1..close]))
  }

  /** A prefix of a text is what lies before, at and after any of its positions. */
  lemma Rejoin(s: string, k: nat, j: nat)
    requires k < j <= |s|
    ensures s[..j] == s[..k] + [s[k]] + s[k + 1..j]
  {
  }

  /** What `SplitLocation` finds renders back to the run it split. */
  lemma SplitLocationSound(run: string)
    requires SplitLocation(run).Some?
    ensures LocationText(SplitLocation(run).value) == run
    ensures All(run, NonSpace) ==> IsLocation(SplitLocation(run).value)
  {
    var loc := SplitLocation(run).value;
    var close := |run| - 2;
    var comma := close - RunBefore(run, close, Digit) - 1;
    var open := comma - RunBefore(run, comma, Digit) - 1;
    assert run[..comma] == loc.path + "(" + loc.line by {
      Rejoin(run, open, comma);
    }
    assert run[..close] == run[..comma] + "," + loc.column by {
      Rejoin(run, comma, close);
    }
    assert run == run[..close] + "):" by {
      assert run[close..] == "):";
      assert run == run[..close] + run[close..];
    }
    assert All(loc.column, Digit) by {
      RunBeforeFacts(run, close, Digit);
    }
    assert All(loc.line, Digit) by {
      RunBeforeFacts(run, comma, Digit);
    }
  }

  /** `SplitLocation` on a run whose `(`, `,` and `):` positions are known. */
  lemma SplitLocationAt(run: string, open: nat, comma: nat, loc: Location)
    requires 0 < open && open + 1 < comma && comma + 1 < |run| - 2
    requires run[|run| - 2] == ')' && run[|run| - 1] == ':'
    requires RunBefore(run, |run| - 2, Digit) == |run| - 3 - comma && run[comma] == ','
    requires RunBefore(run, comma, Digit) == comma - open - 1 && run[open] == '('
    requires run[..open] == loc.path && run[open + 1..comma] == loc.line
    requires run[comma + 1..|run| - 2] == loc.column
    ensures SplitLocation(run) == Some(loc)
  {
  }

  /** Where the `(`, the `,` and the closing `):` of a rendered location
      stand, and the digit runs before the `,` and the `)`. */
  lemma LocationTextLayout(loc: Location)
    requires IsLocation(loc)
    ensures var run := LocationText(loc);
      var open := |loc.path|;
      var comma := open + 1 + |loc.line|;
      var close := comma + 1 + |loc.column|;
      && |run| == close + 2 && run[close] == ')' && run[close + 1] == ':'
      && run[comma] == ',' && run[open] == '('
      && RunBefore(run, close, Digit) == |loc.column|
      && RunBefore(run, comma, Digit) == |loc.line|
  {
    var run := LocationText(loc);
    var open := |loc.path|;
    var comma := open + 1 + |loc.line|;
    var close := comma + 1 + |loc.column|;
    assert RunBefore(run, close, Digit) == |loc.column| by {
      assert forall i :: 0 <= i < |loc.column| ==> run[comma + 1 + i] == loc.column[i];
      RunBeforeIsTheRun(run, close, Digit, |loc.column|);
    }
    assert RunBefore(run, comma, Digit) == |loc.line| by {
      assert forall i :: 0 <= i < |loc.line| ==> run[open + 1 + i] == loc.line[i];
      RunBeforeIsTheRun(run, comma, Digit, |loc.line|);
    }
  }

  /** The three pieces of a rendered location, cut out again. */
  lemma LocationTextPieces(loc: Location)
    ensures var run := LocationText(loc);
      var open := |loc.path|;
      var comma := open + 1 + |loc.line|;
      var close := comma + 1 + |loc.column|;
      && |run| == close + 2
      && run[..open] == loc.path && run[open + 1..comma] == loc.line
      && run[comma + 1..close] == loc.column
  {
  }

  /** `SplitLocation` inverts `LocationText`. */
  lemma SplitLocationInverts(loc: Location)
    requires IsLocation(loc)
    ensures SplitLocation(LocationText(loc)) == Some(loc)
  {
    LocationTextLayout(loc);
    LocationTextPieces(loc);
    SplitLocationAt(LocationText(loc), |loc.path|, |loc.path| + 1 + |loc.line|, loc);
  }

  /** Stage 2: `\S+\(\d+,\d+\):` has no whitespace and is followed by a literal
      space, so it is the whole run of non-whitespace characters after `>`. */
  function MatchLocation(u: string): Option<Location> {
    var k := Span(u, NonSpace);
    if k < |u| && u[k] == ' ' then SplitLocation(u[..k]) else None
  }

  lemma MatchLocationSound(u: string)
    requires MatchLocation(u).Some?
    ensures LocationAt(u, MatchLocation(u).value)
    ensures |LocationText(MatchLocation(u).value)| == Span(u, NonSpace)
  {
    var k := Span(u, NonSpace);
    SpanFacts(u, NonSpace);
    SplitLocationSound(u[..k]);
    assert LocationText(MatchLocation(u).value) + " " == u[..k + 1];
  }

  lemma MatchLocationFindsIt(u: string, loc: Location)
    requires LocationAt(u, loc)
    ensures MatchLocation(u) == Some(loc)
    ensures Span(u, NonSpace) == |LocationText(loc)|
  {
    var run := LocationText(loc);
    assert u[..|run|] == run && u[|run|] == ' ';
    assert All(run, NonSpace) by {
      assert run == loc.path + "(" + loc.line + "," + loc.column + "):";
    }
    SpanIsTheRun(u, NonSpace, |run|);
    SplitLocationInverts(loc);
  }

  /** Stage 3: exactly `error ` or `warning `. */
  function MatchSeverity(u: string): Option<string> {
    if "error " <= u then Some("error")
    else if "warning " <= u then Some("warning")
    else None
  }

  lemma MatchSeveritySound(u: string)
    requires MatchSeverity(u).Some?
    ensures SeverityAt(u, MatchSeverity(u).value)
  {
  }

  lemma MatchSeverityFindsIt(u: string, s: string)
    requires SeverityAt(u, s)
    ensures MatchSeverity(u) == Some(s)
  {
    if s == "warning" {
      assert u[0] == 'w';
    }
  }

  /** Stage 4: `\w+` cannot contain `:`, so the analyzer id is the whole word run. */
  function MatchAnalyzer(u: string): Option<string> {
    var k := Span(u, Word);
    if 0 < k && k + 2 <= |u| && u[k] == ':' && u[k + 1] == ' ' then Some(u[..k]) else None
  }

  lemma MatchAnalyzerSound(u: string)
    requires MatchAnalyzer(u).Some?
    ensures AnalyzerAt(u, MatchAnalyzer(u).value)
  {
    var k := Span(u, Word);
    SpanFacts(u, Word);
    assert u[..k] + ": " == u[..k + 2];
  }

  lemma MatchAnalyzerFindsIt(u: string, id: string)
    requires AnalyzerAt(u, id)
    ensures MatchAnalyzer(u) == Some(id)
  {
    assert u[..|id|] == id && u[|id|] == ':' && u[|id| + 1] == ' ';
    SpanIsTheRun(u, Word, |id|);
  }

  /** `gap [project]` starts `v`: what may follow a message. */
  ghost predicate ClosesAt(v: string, gap: string, project: string) {
    && All(gap, Space)
    && |project| > 0 && All(project, NonSpace)
    && ClosingText(gap, project) <= v
  }

  /** The largest index in `1..j` holding `]`, or 0 when there is none. */
  function LastBracket(x: string, j: nat): (q: nat)
    requires j < |x|
    ensures q <= j
    ensures q > 0 ==> x[q] == ']'
    ensures forall i :: q < i <= j ==> x[i] != ']'
  {
    if j == 0 then 0 else if x[j] == ']' then j else LastBracket(x, j - 1)
  }

  /** `\s* \[(\S+)\]` at the start of `v`. The gap and the space after it
      make up the whole whitespace run (only its last character can precede
      `[`), and the greedy project ends at the last `]` of the non-whitespace
      run after `[`. */
  function MatchClosing(v: string): Option<(string, string)> {
    var w := Span(v, Space);
    if w == 0 || v[w - 1] != ' ' || w == |v| || v[w] != '[' then None
    else
      var x := v[w + 1..];
      var k := Span(x, NonSpace);
      if k == 0 then None
      else
        var q := LastBracket(x, k - 1);
        if q == 0 then None else Some((v[..w - 1], x[..q]))
  }

  lemma MatchClosingSound(v: string)
    requires MatchClosing(v).Some?
    ensures ClosesAt(v, MatchClosing(v).value.0, MatchClosing(v).value.1)
  {
    var w := Span(v, Space);
    var x := v[w + 1..];
    var k := Span(x, NonSpace);
    var q := LastBracket(x, k - 1);
    assert MatchClosing(v).value == (v[..w - 1], x[..q]);
    assert All(v[..w - 1], Space) by {
      SpanFacts(v, Space);
    }
    assert All(x[..q], NonSpace) by {
      SpanFacts(x, NonSpace);
    }
    assert ClosingText(v[..w - 1], x[..q]) <= v by {
      ClosingLayout(v, w, q);
    }
  }

  /** The closing text read off at known positions of its space, `[` and `]`. */
  lemma ClosingLayout(v: string, w: nat, q: nat)
    requires 0 < w && w + q + 2 <= |v|
    requires v[w - 1] == ' ' && v[w] == '[' && v[w + 1 + q] == ']'
    ensures ClosingText(v[..w - 1], v[w + 1..][..q]) == v[..w + q + 2]
  {
  }

  /** Every closing that fits `v` has the gap `MatchClosing` finds and a
      project no longer than the one it finds. */
  lemma MatchClosingFindsIt(v: string, gap: string, project: string)
    requires ClosesAt(v, gap, project)
    ensures MatchClosing(v).Some?
    ensures MatchClosing(v).value.0 == gap
    ensures |project| <= |MatchClosing(v).value.1|
  {
    var w := |gap| + 1;
    assert forall i :: 0 <= i < |gap| ==> v[i] == gap[i];
    assert v[|gap|] == ' ' && v[w] == '[';
    SpanIsTheRun(v, Space, w);
    var x := v[w + 1..];
    assert forall i :: 0 <= i < |project| ==> x[i] == project[i];
    assert x[|project|] == ']';
    SpanCoversRun(x, NonSpace, |project| + 1);
    assert v[..w - 1] == gap;
  }

  /** Tries the message lengths `m`, `m - 1`, ..., 1 in turn, as the greedy
      `[\S \t]+` does when it backtracks, and keeps the first that a closing
      can follow. */
  function LongestTail(u: string, m: nat): (r: Option<Tail>)
    requires m <= |u|
    ensures r.Some? ==> |r.value.message| <= m
  {
    if m == 0 then None
    else
      match MatchClosing(u[m..])
      case Some((gap, project)) => Some(Tail(u[..m], gap, project))
      case None => LongestTail(u, m - 1)
  }

  lemma LongestTailSound(u: string, m: nat)
    requires m <= Span(u, LineChar)
    requires LongestTail(u, m).Some?
    ensures TailAt(u, LongestTail(u, m).value)
  {
    LongestTailShape(u, m);
    var tl := LongestTail(u, m).value;
    var k := |tl.message|;
    assert ClosesAt(u[k..], tl.gap, tl.project) by {
      MatchClosingSound(u[k..]);
    }
    assert All(tl.message, LineChar) by {
      SpanFacts(u, LineChar);
    }
    Peel(tl.message, ClosingText(tl.gap, tl.project), u);
  }

  /** What `LongestTail` returns is a message of the first length it tries
      that a closing follows, with that closing. */
  lemma {:induction false} LongestTailShape(u: string, m: nat)
    requires m <= |u| && LongestTail(u, m).Some?
    ensures var r := LongestTail(u, m).value;
      var k := |r.message|;
      && 0 < k <= m && MatchClosing(u[k..]).Some?
      && r == Tail(u[..k], MatchClosing(u[k..]).value.0, MatchClosing(u[k..]).value.1)
  {
    if MatchClosing(u[m..]).None? {
      LongestTailMovesOn(u, m);
      LongestTailShape(u, m - 1);
    }
  }

  /** Every length up to `m` that a closing can follow is one `LongestTail`
      reaches or passes over for a longer one. */
  lemma {:induction false} LongestTailReaches(u: string, m: nat, n: nat)
    requires 0 < n <= m <= |u| && MatchClosing(u[n..]).Some?
    ensures LongestTail(u, m).Some? && n <= |LongestTail(u, m).value.message|
    decreases m
  {
    if m > n {
      if MatchClosing(u[m..]).None? {
        LongestTailMovesOn(u, m);
        LongestTailReaches(u, m - 1, n);
      } else {
        LongestTailFoundAt(u, m);
      }
    }
  }

  /** `LongestTail` finds a tail at least as greedy as any tail whose message
      is no longer than `m`. */
  lemma LongestTailIsGreedy(u: string, m: nat, tl: Tail)
    requires m <= |u|
    requires TailAt(u, tl) && |tl.message| <= m
    ensures LongestTail(u, m).Some?
    ensures AtLeastAsGreedyTail(LongestTail(u, m).value, tl)
  {
    var n := |tl.message|;
    assert MatchClosing(u[n..]).Some? && |tl.project| <= |MatchClosing(u[n..]).value.1| by {
      Peel(tl.message, ClosingText(tl.gap, tl.project), u);
      assert ClosesAt(u[n..], tl.gap, tl.project);
      MatchClosingFindsIt(u[n..], tl.gap, tl.project);
    }
    LongestTailReaches(u, m, n);
    LongestTailShape(u, m);
  }

  /** When a closing follows the first `m` characters, `m` is the message
      length `LongestTail` settles on. */
  lemma LongestTailFoundAt(u: string, m: nat)
    requires 0 < m <= |u| && MatchClosing(u[m..]).Some?
    ensures LongestTail(u, m).Some? && |LongestTail(u, m).value.message| == m
  {
  }

  /** When no closing follows the first `m` characters, `LongestTail` tries
      one character fewer. */
  lemma LongestTailMovesOn(u: string, m: nat)
    requires 0 < m <= |u| && MatchClosing(u[m..]).None?
    ensures LongestTail(u, m) == LongestTail(u, m - 1)
  {
  }

  /** Stage 5: the greedy message with its closing. */
  function MatchTail(u: string): Option<Tail> {
    LongestTail(u, Span(u, LineChar))
  }

  lemma MatchTailSound(u: string)
    requires MatchTail(u).Some?
    ensures TailAt(u, MatchTail(u).value)
  {
    LongestTailSound(u, Span(u, LineChar));
  }

  lemma MatchTailFindsIt(u: string, tl: Tail)
    requires TailAt(u, tl)
    ensures MatchTail(u).Some?
    ensures AtLeastAsGreedyTail(MatchTail(u).value, tl)
  {
    Peel(tl.message, ClosingText(tl.gap, tl.project), u);
    assert forall i :: 0 <= i < |tl.message| ==> u[i] == tl.message[i];
    SpanCoversRun(u, LineChar, |tl.message|);
    var m := Span(u, LineChar);
    LongestTailIsGreedy(u, m, tl);
  }

  /** Two tails of the same text with messages and projects of the same
      lengths are the same tail: the gap is forced. */
  lemma TailDeterminedByLengths(u: string, a: Tail, b: Tail)
    requires TailAt(u, a) && TailAt(u, b)
    requires |a.message| == |b.message| && |a.project| == |b.project|
    ensures a == b
  {
    var n := |a.message|;
    var v := u[n..];
    assert a.message == b.message && ClosesAt(v, a.gap, a.project) && ClosesAt(v, b.gap, b.project) by {
      Peel(a.message, ClosingText(a.gap, a.project), u);
      Peel(b.message, ClosingText(b.gap, b.project), u);
    }
    assert a.gap == b.gap by {
      MatchClosingFindsIt(v, a.gap, a.project);
      MatchClosingFindsIt(v, b.gap, b.project);
    }
    ClosingDeterminesProject(v, a.gap, a.project, b.project);
  }

  /** After a given gap, the project of a given length is fixed by the text. */
  lemma ClosingDeterminesProject(v: string, gap: string, p: string, q: string)
    requires ClosingText(gap, p) <= v && ClosingText(gap, q) <= v && |p| == |q|
    ensures p == q
  {
    assert ClosingText(gap, p) == ClosingText(gap, q);
    assert p == ClosingText(gap, p)[|gap| + 2..|gap| + 2 + |p|];
  }

  /*** The whole line ***/

  function MatchFromAnalyzer(u: string, prefix: string, location: Location, severity: string)
    : Option<Fields>
  {
    var analyzerId :- MatchAnalyzer(u);
    var tail :- MatchTail(u[|analyzerId| + 2..]);
    Some(Fields(prefix, location, severity, analyzerId, tail))
  }

  function MatchFromSeverity(u: string, prefix: string, location: Location): Option<Fields> {
    var severity :- MatchSeverity(u);
    MatchFromAnalyzer(u[|severity| + 1..], prefix, location, severity)
  }

  function MatchFromLocation(u: string, prefix: string): Option<Fields> {
    var location :- MatchLocation(u);
    MatchFromSeverity(u[Span(u, NonSpace) + 1..], prefix, location)
  }

  /** `re.match` of the line expression on `t`. */
  function Match(t: string): Option<Fields> {
    var prefix :- MatchPrefix(t);
    MatchFromLocation(t[|prefix| + 1..], prefix)
  }

  lemma FromAnalyzerSound(u: string, prefix: string, location: Location, severity: string)
    requires MatchFromAnalyzer(u, prefix, location, severity).Some?
    ensures var f := MatchFromAnalyzer(u, prefix, location, severity).value;
      FromAnalyzer(u, f) && f.prefix == prefix && f.location == location && f.severity == severity
  {
    MatchAnalyzerSound(u);
    MatchTailSound(u[|MatchAnalyzer(u).value| + 2..]);
  }

  lemma FromSeveritySound(u: string, prefix: string, location: Location)
    requires MatchFromSeverity(u, prefix, location).Some?
    ensures var f := MatchFromSeverity(u, prefix, location).value;
      FromSeverity(u, f) && f.prefix == prefix && f.location == location
  {
    MatchSeveritySound(u);
    var severity := MatchSeverity(u).value;
    FromAnalyzerSound(u[|severity| + 1..], prefix, location, severity);
  }

  lemma FromLocationSound(u: string, prefix: string)
    requires MatchFromLocation(u, prefix).Some?
    ensures var f := MatchFromLocation(u, prefix).value;
      FromLocation(u, f) && f.prefix == prefix
  {
    MatchLocationSound(u);
    var location := MatchLocation(u).value;
    FromSeveritySound(u[Span(u, NonSpace) + 1..], prefix, location);
  }

  /** What `Match` finds is a split of the line. */
  lemma MatchSound(t: string)
    requires Match(t).Some?
    ensures IsSplit(t, Match(t).value)
  {
    var f := Match(t).value;
    assert Staged(t, f) by {
      MatchPrefixSound(t);
      var prefix := MatchPrefix(t).value;
      assert Match(t) == MatchFromLocation(t[|prefix| + 1..], prefix);
      FromLocationSound(t[|prefix| + 1..], prefix);
    }
    SplitIsStaged(t, f);
  }

  lemma FromAnalyzerFound(u: string, g: Fields)
    requires FromAnalyzer(u, g)
    ensures var r := MatchFromAnalyzer(u, g.prefix, g.location, g.severity);
      r.Some? && SameHead(r.value, g) && AtLeastAsGreedy(r.value, g)
  {
    assert MatchAnalyzer(u) == Some(g.analyzerId) by {
      MatchAnalyzerFindsIt(u, g.analyzerId);
    }
    var v := u[|g.analyzerId| + 2..];
    assert MatchTail(v).Some? && AtLeastAsGreedyTail(MatchTail(v).value, g.tail) by {
      MatchTailFindsIt(v, g.tail);
    }
    FromAnalyzerCompose(u, g);
  }

  /** The last step of `FromAnalyzerFound`, kept apart from the grammar facts. */
  lemma FromAnalyzerCompose(u: string, g: Fields)
    requires MatchAnalyzer(u) == Some(g.analyzerId)
    requires var v := u[|g.analyzerId| + 2..];
      MatchTail(v).Some? && AtLeastAsGreedyTail(MatchTail(v).value, g.tail)
    ensures var r := MatchFromAnalyzer(u, g.prefix, g.location, g.severity);
      r.Some? && SameHead(r.value, g) && AtLeastAsGreedy(r.value, g)
  {
  }

  lemma FromSeverityFound(u: string, g: Fields)
    requires FromSeverity(u, g)
    ensures var r := MatchFromSeverity(u, g.prefix, g.location);
      r.Some? && SameHead(r.value, g) && AtLeastAsGreedy(r.value, g)
  {
    assert MatchSeverity(u) == Some(g.severity) by {
      MatchSeverityFindsIt(u, g.severity);
    }
    var v := u[|g.severity| + 1..];
    assert MatchFromSeverity(u, g.prefix, g.location) == MatchFromAnalyzer(v, g.prefix, g.location, g.severity);
    FromAnalyzerFound(v, g);
  }

  lemma MatchFromLocationUnfold(u: string, prefix: string)
    requires MatchLocation(u).Some?
    ensures MatchFromLocation(u, prefix)
      == MatchFromSeverity(u[Span(u, NonSpace) + 1..], prefix, MatchLocation(u).value)
  {
  }

  /** The last step of `FromLocationFound`, kept apart from the grammar facts
      so that the solver only sees the two stage results it combines. */
  lemma FromLocationCompose(u: string, g: Fields)
    requires MatchLocation(u) == Some(g.location) && Span(u, NonSpace) == |LocationText(g.location)|
    requires var r := MatchFromSeverity(u[|LocationText(g.location)| + 1..], g.prefix, g.location);
      r.Some? && SameHead(r.value, g) && AtLeastAsGreedy(r.value, g)
    ensures var r := MatchFromLocation(u, g.prefix);
      r.Some? && SameHead(r.value, g) && AtLeastAsGreedy(r.value, g)
  {
    MatchFromLocationUnfold(u, g.prefix);
  }

  lemma FromLocationFound(u: string, g: Fields)
    requires FromLocation(u, g)
    ensures var r := MatchFromLocation(u, g.prefix);
      r.Some? && SameHead(r.value, g) && AtLeastAsGreedy(r.value, g)
  {
    assert MatchLocation(u) == Some(g.location) && Span(u, NonSpace) == |LocationText(g.location)| by {
      MatchLocationFindsIt(u, g.location);
    }
    var v := u[|LocationText(g.location)| + 1..];
    assert var r := MatchFromSeverity(v, g.prefix, g.location);
      r.Some? && SameHead(r.value, g) && AtLeastAsGreedy(r.value, g)
    by {
      FromSeverityFound(v, g);
    }
    FromLocationCompose(u, g);
  }

  /** Whatever split of `t` exists, `Match` finds one with the same pieces
      before the message that is at least as greedy. */
  lemma MatchFindsEverySplit(t: string, g: Fields)
    requires IsSplit(t, g)
    ensures Match(t).Some?
    ensures SameHead(Match(t).value, g) && AtLeastAsGreedy(Match(t).value, g)
  {
    assert Staged(t, g) by {
      SplitIsStaged(t, g);
    }
    assert MatchPrefix(t) == Some(g.prefix) by {
      MatchPrefixFindsIt(t, g.prefix);
    }
    var u := t[|g.prefix| + 1..];
    assert var r := MatchFromLocation(u, g.prefix);
      r.Some? && SameHead(r.value, g) && AtLeastAsGreedy(r.value, g)
    by {
      FromLocationFound(u, g);
    }
    MatchCompose(t, g);
  }

  /** The last step of `MatchFindsEverySplit`, kept apart from the grammar facts. */
  lemma MatchCompose(t: string, g: Fields)
    requires MatchPrefix(t) == Some(g.prefix)
    requires var r := MatchFromLocation(t[|g.prefix| + 1..], g.prefix);
      r.Some? && SameHead(r.value, g) && AtLeastAsGreedy(r.value, g)
    ensures Match(t).Some?
    ensures SameHead(Match(t).value, g) && AtLeastAsGreedy(Match(t).value, g)
  {
  }


  /*** What the matcher's result means ***/

  /** The result of `Match` is the split `re.match` reports: a split, and
      at least as greedy as every other split. */
  lemma MatchIsGreedy(t: string)
    requires Match(t).Some?
    ensures IsGreedy(t, Match(t).value)
  {
    MatchSound(t);
    forall g | IsSplit(t, g)
      ensures AtLeastAsGreedy(Match(t).value, g)
    {
      MatchFindsEverySplit(t, g);
    }
  }

  /** `Match` fails exactly when the line has no split. */
  lemma MatchNoneIffNoSplit(t: string)
    ensures Match(t).None? <==> forall g :: !IsSplit(t, g)
  {
    if exists g :: IsSplit(t, g) {
      var g :| IsSplit(t, g);
      MatchFindsEverySplit(t, g);
    }
    if Match(t).Some? {
      MatchSound(t);
    }
  }

  /** Every split agrees on the prefix, the location, the severity and the
      analyzer id: only the message, the gap and the project can differ. */
  lemma SplitsAgreeBeforeMessage(t: string, f: Fields, g: Fields)
    requires IsSplit(t, f) && IsSplit(t, g)
    ensures SameHead(f, g)
  {
    MatchFindsEverySplit(t, f);
    MatchFindsEverySplit(t, g);
  }

  /** Where a split's tail starts in `t`: after `prefix>`, the location and a
      space, the severity and a space, and `analyzer_id: `. It depends on
      the pieces before the message only. */
  function TailStart(f: Fields): nat {
    |f.prefix| + 1 + |LocationText(f.location)| + 1 + |f.severity| + 1 + |f.analyzerId| + 2
  }

  lemma StagedTailAt(t: string, f: Fields)
    requires Staged(t, f)
    ensures TailStart(f) <= |t| && TailAt(t[TailStart(f)..], f.tail)
  {
    var u := t[|f.prefix| + 1..];
    var v := u[|LocationText(f.location)| + 1..];
    var w := v[|f.severity| + 1..];
    assert w[|f.analyzerId| + 2..] == t[TailStart(f)..];
  }

  lemma SplitTailAt(t: string, f: Fields)
    requires IsSplit(t, f)
    ensures TailStart(f) <= |t| && TailAt(t[TailStart(f)..], f.tail)
  {
    SplitIsStaged(t, f);
    StagedTailAt(t, f);
  }

  /** The greedy split is unique, and it is the one `Match` returns. */
  lemma GreedySplitIsMatch(t: string, f: Fields)
    requires IsGreedy(t, f)
    ensures Match(t) == Some(f)
  {
    assert Match(t).Some? && IsSplit(t, Match(t).value) && SameHead(Match(t).value, f)
      && AtLeastAsGreedy(Match(t).value, f)
    by {
      MatchFindsEverySplit(t, f);
      MatchSound(t);
    }
    var r := Match(t).value;
    assert AtLeastAsGreedy(f, r);
    EquallyGreedySplitsAgree(t, f, r);
  }

  /** Two splits of a line that are each at least as greedy as the other are
      the same split. */
  lemma EquallyGreedySplitsAgree(t: string, f: Fields, r: Fields)
    requires IsSplit(t, f) && IsSplit(t, r)
    requires AtLeastAsGreedy(f, r) && AtLeastAsGreedy(r, f)
    ensures r == f
  {
    assert SameHead(r, f) by {
      SplitsAgreeBeforeMessage(t, r, f);
    }
    SplitTailAt(t, f);
    SplitTailAt(t, r);
    TailDeterminedByLengths(t[TailStart(f)..], r.tail, f.tail);
  }

  /*** What the rest of the line does to a match ***/

  /** Every rendered line ends with the `]` that closes the project. */
  lemma RenderEndsWithBracket(f: Fields)
    ensures |Render(f)| > 0 && Render(f)[|Render(f)| - 1] == ']'
  {
    var c := ClosingText(f.tail.gap, f.tail.project);
    assert c[|c| - 1] == ']';
    assert Render(f) == f.prefix + ">" + LocationText(f.location) + " " + f.severity + " "
      + f.analyzerId + ": " + f.tail.message + c;
  }

  /** Appending text without a `]` to a line adds no split and removes none. */
  lemma SplitIgnoresBracketFreeSuffix(t: string, r: string, g: Fields)
    requires forall i :: 0 <= i < |r| ==> r[i] != ']'
    ensures IsSplit(t + r, g) <==> IsSplit(t, g)
  {
    var x := Render(g);
    RenderEndsWithBracket(g);
    if x <= t + r {
      assert (t + r)[|x| - 1] == ']';
      assert |x| <= |t|;
      assert t[..|x|] == (t + r)[..|x|];
    }
    if x <= t {
      assert (t + r)[..|x|] == t[..|x|];
    }
  }

  /** The match is anchored at the start only: text without a `]` after the
      line changes neither whether it matches nor any field. */
  lemma MatchIgnoresBracketFreeSuffix(t: string, r: string)
    requires forall i :: 0 <= i < |r| ==> r[i] != ']'
    ensures Match(t + r) == Match(t)
  {
    forall g
      ensures IsSplit(t + r, g) <==> IsSplit(t, g)
    {
      SplitIgnoresBracketFreeSuffix(t, r, g);
    }
    MatchNoneIffNoSplit(t);
    MatchNoneIffNoSplit(t + r);
    if Match(t).Some? {
      var f := Match(t).value;
      MatchIsGreedy(t);
      assert IsGreedy(t + r, f);
      GreedySplitIsMatch(t + r, f);
    }
  }

  /** Whatever follows a matching line, the longer line still matches, with
      the same prefix, location, severity and analyzer id, and a message no
      shorter. (The message may grow: the greedy message can run over a
      later ` [x]`.) */
  lemma SuffixKeepsHead(t: string, r: string)
    requires Match(t).Some?
    ensures Match(t + r).Some?
    ensures SameHead(Match(t + r).value, Match(t).value)
    ensures AtLeastAsGreedy(Match(t + r).value, Match(t).value)
  {
    var f := Match(t).value;
    assert IsSplit(t + r, f) by {
      MatchSound(t);
      assert (t + r)[..|t|] == t;
    }
    MatchFindsEverySplit(t + r, f);
  }

  /** One more bracketed word after a line that the match consumes whole,
      and whose old ` [` directly follows the message, becomes the project,
      and the old message and project turn into the message: the greedy
      message runs over the old closing. So text after the closing `]` can
      change the fields once it holds a `]`. (A non-empty gap leaves the match
      as it was: `LaterBracketKeepsMatch`.) */
  lemma LaterBracketJoinsMessage(t: string, x: string)
    requires Match(t).Some? && Render(Match(t).value) == t
    requires Match(t).value.tail.gap == []
    requires |x| > 0 && All(x, NonSpace)
    ensures var f := Match(t).value;
      Match(t + (" [" + x + "]")) == Some(f.(tail := Tail(TailText(f.tail), "", x)))
  {
    var f := Match(t).value;
    var g := f.(tail := Tail(TailText(f.tail), "", x));
    assert IsSplit(t + (" [" + x + "]"), g) && Render(g) == t + (" [" + x + "]") by {
      MatchSound(t);
      ExtendedRender(f, x);
    }
    LastSplitWins(t + (" [" + x + "]"), g);
  }

  /** A split that renders the whole text and closes with an empty gap is the
      one `Match` returns: no message can reach past its closing. */
  lemma LastSplitWins(s: string, g: Fields)
    requires IsSplit(s, g) && Render(g) == s && g.tail.gap == []
    ensures Match(s) == Some(g)
  {
    assert Match(s).Some? && SameHead(Match(s).value, g) && AtLeastAsGreedy(Match(s).value, g) by {
      MatchFindsEverySplit(s, g);
    }
    var h := Match(s).value;
    assert IsSplit(s, h) by {
      MatchSound(s);
    }
    LastClosingTail(s, g, h);
  }

  lemma LastClosingTail(s: string, g: Fields, h: Fields)
    requires IsSplit(s, g) && Render(g) == s && g.tail.gap == []
    requires IsSplit(s, h) && SameHead(h, g) && AtLeastAsGreedy(h, g)
    ensures h.tail == g.tail
  {
    var u := s[TailStart(g)..];
    assert TailAt(u, h.tail) by {
      SplitTailAt(s, h);
      assert TailStart(h) == TailStart(g);
    }
    assert TailAt(u, g.tail) && |u| == |TailText(g.tail)| by {
      SplitTailAt(s, g);
      RenderLength(g);
    }
    LastClosingTailAt(u, g.tail, h.tail);
  }

  /** The tail version of `LastClosingTail`: a tail that fills the text and
      closes with an empty gap is the greediest tail of it. */
  lemma LastClosingTailAt(u: string, a: Tail, b: Tail)
    requires TailAt(u, a) && |u| == |TailText(a)| && a.gap == []
    requires TailAt(u, b) && AtLeastAsGreedyTail(b, a)
    ensures b == a
  {
    assert u == a.message + (" [" + a.project + "]") by {
      assert TailText(a) == a.message + (" [" + a.project + "]");
    }
    ClosingAfterMessage(u, a.message, a.project, b);
    TailDeterminedByLengths(u, b, a);
  }

  /** A rendering is the pieces before the message followed by the tail. */
  lemma RenderLength(f: Fields)
    ensures |Render(f)| == TailStart(f) + |TailText(f.tail)|
  {
  }

  /** Appending ` [x]` to a rendered line is rendering the pieces whose
      message runs through the old closing and whose project is `x`. */
  lemma ExtendedRender(f: Fields, x: string)
    requires WellFormed(f) && All(f.tail.gap, LineChar)
    requires |x| > 0 && All(x, NonSpace)
    ensures var g := f.(tail := Tail(TailText(f.tail), "", x));
      WellFormed(g) && Render(g) == Render(f) + (" [" + x + "]")
  {
    var m := TailText(f.tail);
    assert m == f.tail.message + f.tail.gap + " [" + f.tail.project + "]";
    assert All(m, LineChar) by {
      forall i | 0 <= i < |m|
        ensures In(m[i], LineChar)
      {
        var a := |f.tail.message|;
        var b := a + |f.tail.gap|;
        if i < a {
          assert m[i] == f.tail.message[i];
        } else if i < b {
          assert m[i] == f.tail.gap[i - a];
        } else if b + 2 <= i < b + 2 + |f.tail.project| {
          assert m[i] == f.tail.project[i - b - 2];
        }
      }
    }
  }

  /** In `m + " [" + x + "]"` with a space-free `x`, no tail has a message
      longer than `m`, and one with a message as long as `m` has an empty
      gap and a project no longer than `x`. */
  lemma ClosingAfterMessage(u: string, m: string, x: string, tl: Tail)
    requires u == m + (" [" + x + "]") && All(x, NonSpace)
    requires TailAt(u, tl)
    ensures |tl.message| <= |m|
    ensures |tl.message| == |m| ==> tl.gap == [] && |tl.project| <= |x|
  {
    var c := TailText(tl);
    var a := |tl.message| + |tl.gap|;
    assert c == tl.message + tl.gap + " [" + tl.project + "]";
    assert u[a] == c[a] == ' ';
    assert u[a + 2 + |tl.project|] == c[a + 2 + |tl.project|];
    forall i | |m| < i < |u|
      ensures u[i] != ' '
    {
      if |m| + 2 <= i < |m| + 2 + |x| {
        assert u[i] == x[i - |m| - 2];
      }
    }
  }

  /** In the greedy split the gap is empty or starts with whitespace the
      message class `[\S \t]` leaves out (`\n`, `\v`, ...): a space or tab
      there would have been taken by the message. */
  lemma GreedyGapLeavesLine(t: string)
    requires Match(t).Some?
    ensures var gap := Match(t).value.tail.gap;
      gap == [] || !In(gap[0], LineChar)
  {
    MatchIsGreedy(t);
    GreedyGapAt(t, Match(t).value);
  }

  lemma GreedyGapAt(t: string, f: Fields)
    requires IsGreedy(t, f)
    ensures f.tail.gap == [] || !In(f.tail.gap[0], LineChar)
  {
    if f.tail.gap != [] && In(f.tail.gap[0], LineChar) {
      WidenedSplit(t, f);
      assert false;
    }
  }

  /** A split whose gap starts with a space or tab is also a split with that
      character moved into the message. */
  lemma WidenedSplit(t: string, f: Fields)
    requires IsSplit(t, f) && f.tail.gap != [] && In(f.tail.gap[0], LineChar)
    ensures var tl := f.tail;
      IsSplit(t, f.(tail := Tail(tl.message + [tl.gap[0]], tl.gap[1..], tl.project)))
  {
    var tl := f.tail;
    var longer := Tail(tl.message + [tl.gap[0]], tl.gap[1..], tl.project);
    assert TailText(longer) == TailText(tl) by {
      assert tl.message + [tl.gap[0]] + tl.gap[1..] == tl.message + tl.gap;
    }
    assert All(longer.message, LineChar) by {
      assert forall i :: 0 <= i < |tl.message| ==> longer.message[i] == tl.message[i];
    }
    assert All(longer.gap, Space) by {
      assert forall i :: 0 <= i < |longer.gap| ==> longer.gap[i] == tl.gap[i + 1];
    }
  }

  /** In `TailText(a) + " [x]"`, when `a`'s gap starts with whitespace outside
      `[\S \t]`, no tail beats `a`: the message cannot cross the gap, and the
      project cannot cross the space before the new `[`. */
  lemma GapStopsMessage(w: string, a: Tail, x: string, b: Tail)
    requires IsTail(a) && w == TailText(a) + (" [" + x + "]")
    requires a.gap != [] && !In(a.gap[0], LineChar)
    requires TailAt(w, b)
    ensures AtLeastAsGreedyTail(a, b)
  {
    var m := a.message;
    var rest := ClosingText(a.gap, a.project) + (" [" + x + "]");
    assert w == m + rest && rest[0] == a.gap[0] by {
      assert TailText(a) == m + ClosingText(a.gap, a.project);
    }
    MessageStopsAt(w, m, rest, b);
    if |b.message| == |m| {
      var v := w[|m|..];
      assert v == rest;
      assert ClosesAt(v, b.gap, b.project) by {
        Peel(b.message, ClosingText(b.gap, b.project), w);
      }
      assert ClosesAt(v, a.gap, a.project) && |ClosingText(a.gap, a.project)| < |v|
        && v[|ClosingText(a.gap, a.project)|] == ' '
      by {
        assert ClosingText(a.gap, a.project) <= v;
      }
      assert b.gap == a.gap by {
        MatchClosingFindsIt(v, a.gap, a.project);
        MatchClosingFindsIt(v, b.gap, b.project);
      }
      ProjectStopsAtSpace(v, a.gap, a.project, b.project);
    }
  }

  /** A message, a run of `[\S \t]`, cannot reach past a character outside
      the class. */
  lemma MessageStopsAt(w: string, m: string, rest: string, b: Tail)
    requires w == m + rest && All(m, LineChar)
    requires rest != [] && !In(rest[0], LineChar)
    requires TailAt(w, b)
    ensures |b.message| <= |m|
  {
    assert forall i :: 0 <= i < |m| ==> w[i] == m[i];
    assert w[|m|] == rest[0];
    SpanIsTheRun(w, LineChar, |m|);
    assert b.message <= w by {
      Peel(b.message, ClosingText(b.gap, b.project), w);
    }
    assert forall i :: 0 <= i < |b.message| ==> w[i] == b.message[i];
    SpanCoversRun(w, LineChar, |b.message|);
  }

  /** After a given gap, a project cannot run past its `]` when a space
      follows it. */
  lemma ProjectStopsAtSpace(v: string, gap: string, p: string, q: string)
    requires ClosesAt(v, gap, p) && ClosesAt(v, gap, q)
    requires |ClosingText(gap, p)| < |v| && v[|ClosingText(gap, p)|] == ' '
    ensures |q| <= |p|
  {
    var s := |gap| + 2;
    var y := v[s..];
    assert y[..|p| + 1] == p + "]" && y[|p| + 1] == ' ' by {
      assert ClosingText(gap, p) == gap + " [" + p + "]";
      assert v[..|ClosingText(gap, p)|] == ClosingText(gap, p);
    }
    assert y[..|q| + 1] == q + "]" by {
      assert ClosingText(gap, q) == gap + " [" + q + "]";
      assert v[..|ClosingText(gap, q)|] == ClosingText(gap, q);
    }
    assert forall i :: 0 <= i < |p| ==> y[i] == p[i];
    assert forall i :: 0 <= i < |q| ==> y[i] == q[i];
    SpanIsTheRun(y, NonSpace, |p| + 1);
    SpanCoversRun(y, NonSpace, |q| + 1);
  }

  /** One more bracketed word after a line that the match consumes whole,
      whose gap is not empty, changes nothing: the gap then starts with
      whitespace the message cannot take, and the project cannot reach past
      the old `]`. */
  lemma LaterBracketKeepsMatch(t: string, x: string)
    requires Match(t).Some? && Render(Match(t).value) == t
    requires Match(t).value.tail.gap != []
    requires |x| > 0 && All(x, NonSpace)
    ensures Match(t + (" [" + x + "]")) == Match(t)
  {
    var f := Match(t).value;
    var u := t + (" [" + x + "]");
    assert IsSplit(u, f) by {
      MatchSound(t);
    }
    assert !In(f.tail.gap[0], LineChar) by {
      GreedyGapLeavesLine(t);
    }
    TailAfterRender(f, " [" + x + "]");
    GreedyOverGap(u, f, x);
    GreedySplitIsMatch(u, f);
  }

  /** Text appended to a rendering follows the rendered tail. */
  lemma TailAfterRender(f: Fields, r: string)
    ensures TailStart(f) <= |Render(f) + r|
    ensures (Render(f) + r)[TailStart(f)..] == TailText(f.tail) + r
  {
    var head := f.prefix + ">" + LocationText(f.location) + " " + f.severity + " " + f.analyzerId + ": ";
    assert Render(f) + r == head + (TailText(f.tail) + r);
    assert |head| == TailStart(f);
  }

  /** A split of `u` whose tail is followed only by ` [x]`, and whose gap
      starts with whitespace outside `[\S \t]`, is the greedy split. */
  lemma GreedyOverGap(u: string, f: Fields, x: string)
    requires IsSplit(u, f) && TailStart(f) <= |u|
    requires u[TailStart(f)..] == TailText(f.tail) + (" [" + x + "]")
    requires f.tail.gap != [] && !In(f.tail.gap[0], LineChar)
    ensures IsGreedy(u, f)
  {
    forall g | IsSplit(u, g)
      ensures AtLeastAsGreedy(f, g)
    {
      SplitsAgreeBeforeMessage(u, f, g);
      SplitTailAt(u, g);
      GapStopsMessage(u[TailStart(f)..], f.tail, x, g.tail);
    }
  }

  /** A rendered line matches, and the match gives back the pieces before the
      message exactly. */
  lemma RenderedLineMatches(f: Fields)
    requires WellFormed(f)
    ensures Match(Render(f)).Some?
    ensures SameHead(Match(Render(f)).value, f)
    ensures AtLeastAsGreedy(Match(Render(f)).value, f)
  {
    MatchFindsEverySplit(Render(f), f);
  }

  /*** The severity gate ***/

  /** Two space-free words that each start `v` and are followed there by a
      space are the same word. */
  lemma SpaceEndedWordsAgree(v: string, a: string, b: string)
    requires All(a, NonSpace) && All(b, NonSpace)
    requires a + " " <= v && b + " " <= v
    ensures a == b
  {
    assert v[..|a|] == a && v[|a|] == ' ';
    assert v[..|b|] == b && v[|b|] == ' ';
    SpanIsTheRun(v, NonSpace, |a|);
    SpanIsTheRun(v, NonSpace, |b|);
  }

  /** Where the severity stands, a word other than `error` and `warning` stops
      the severity stage. */
  lemma OtherWordFailsSeverity(v: string, word: string)
    requires All(word, NonSpace) && word + " " <= v
    requires !IsSeverity(word)
    ensures MatchSeverity(v).None?
  {
    if MatchSeverity(v).Some? {
      MatchSeveritySound(v);
      SpaceEndedWordsAgree(v, word, MatchSeverity(v).value);
    }
  }

  /** A line whose prefix and location are in place but whose severity word
      is neither `error` nor `warning` (`info`, `Error`, `note`, ...) does not
      match. */
  lemma SeverityGate(t: string, prefix: string, loc: Location, word: string)
    requires PrefixAt(t, prefix)
    requires LocationAt(t[|prefix| + 1..], loc)
    requires All(word, NonSpace) && word + " " <= t[|prefix| + 1..][|LocationText(loc)| + 1..]
    requires !IsSeverity(word)
    ensures Match(t).None?
  {
    var u := t[|prefix| + 1..];
    var v := u[|LocationText(loc)| + 1..];
    assert MatchPrefix(t) == Some(prefix) by {
      MatchPrefixFindsIt(t, prefix);
    }
    assert MatchLocation(u) == Some(loc) && Span(u, NonSpace) == |LocationText(loc)| by {
      MatchLocationFindsIt(u, loc);
    }
    assert MatchSeverity(v).None? by {
      OtherWordFailsSeverity(v, word);
    }
    SeverityGateCompose(t, prefix, loc);
  }

  /** The last step of `SeverityGate`, kept apart from the grammar facts. */
  lemma SeverityGateCompose(t: string, prefix: string, loc: Location)
    requires MatchPrefix(t) == Some(prefix)
    requires var u := t[|prefix| + 1..];
      MatchLocation(u) == Some(loc) && Span(u, NonSpace) == |LocationText(loc)|
      && MatchSeverity(u[|LocationText(loc)| + 1..]).None?
    ensures Match(t).None?
  {
    var u := t[|prefix| + 1..];
    FromLocationStops(u, prefix, loc);
    MatchUnfold(t);
  }

  /** A severity stage that finds nothing stops the whole match. */
  lemma FromLocationStops(u: string, prefix: string, loc: Location)
    requires MatchLocation(u) == Some(loc) && Span(u, NonSpace) == |LocationText(loc)|
    requires MatchSeverity(u[|LocationText(loc)| + 1..]).None?
    ensures MatchFromLocation(u, prefix).None?
  {
    MatchFromLocationUnfold(u, prefix);
  }

  /** `Match` once the prefix is found. */
  lemma MatchUnfold(t: string)
    requires MatchPrefix(t).Some?
    ensures Match(t) == MatchFromLocation(t[|MatchPrefix(t).value| + 1..], MatchPrefix(t).value)
  {
  }
}
