/** One step of the MSBuild output parser (`Parser._parse_line`,
    parser.py lines 51-76): match the left-stripped line, build at most one
    report from the match, and read the next line from the iterator. */
module MsBuildParser {
  import opened Text
  import opened Options
  import opened LineGrammar
  import opened LineMatcher
  import opened PosixPath
  import opened FileCache

  /** A diagnostic: the source file, the line and column as written, the
      message and the checker that raised it (the MSBuild analyzer id). */
  datatype Report = Report(
    file: SourceFile,
    line: nat,
    column: nat,
    message: string,
    checkerName: string)

  /** The iterator over the lines of the analyzer output: the lines and the
      index of the next one `next(it)` hands out. */
  datatype Lines = Lines(items: seq<string>, cursor: nat) {
    predicate Exhausted() { cursor >= |items| }
  }

  /** The parser's state: where the analyzer result file lies, and the files
      made so far. */
  datatype Parser = Parser(analyzerResult: string, fileCache: Cache)

  /** What a step returns, or the `StopIteration` it lets escape. */
  datatype Step =
    | Parsed(reports: seq<Report>, nextLine: string, rest: Lines, parser: Parser)
    | StopIteration(parser: Parser)

  /** The report for a match `f`, and the parser after the file lookup. */
  function Build(p: Parser, f: Fields): (r: (Report, Parser))
    requires WellFormed(f)
    ensures r.1.analyzerResult == p.analyzerResult
  {
    var path := Resolve(p.analyzerResult, f.location.path);
    var (file, cache) := GetOrCreate(path, p.fileCache);
    var report := Report(
      file,
      DecimalValue(f.location.line),
      DecimalValue(f.location.column),
      Strip(f.tail.message),
      f.analyzerId);
    (report, p.(fileCache := cache))
  }

  /** `Parser._parse_line(it, line)`. */
  function ParseLine(p: Parser, it: Lines, line: string): (r: Step)
    ensures r.Parsed? ==> |r.reports| <= 1
    ensures r.parser.analyzerResult == p.analyzerResult
  {
    var m := Match(LStrip(line));
    if m.Some? then MatchSound(LStrip(line)); StepOn(p, it, m) else StepOn(p, it, m)
  }

  /** The step once the line has been matched (or not): report and read on,
      or read on, or let `StopIteration` escape. */
  function StepOn(p: Parser, it: Lines, m: Option<Fields>): (r: Step)
    requires m.Some? ==> WellFormed(m.value)
    ensures r.Parsed? ==> |r.reports| <= 1
    ensures r.parser.analyzerResult == p.analyzerResult
  {
    if m.None? then
      if it.Exhausted() then StopIteration(p)
      else Parsed([], it.items[it.cursor], it.(cursor := it.cursor + 1), p)
    else
      var b := Build(p, m.value);
      if it.Exhausted() then Parsed([b.0], "", it, b.1)
      else Parsed([b.0], it.items[it.cursor], it.(cursor := it.cursor + 1), b.1)
  }

  /** A matching line's step is the report `Build` makes from the match. */
  lemma MatchedStep(p: Parser, it: Lines, line: string)
    requires Match(LStrip(line)).Some? && WellFormed(Match(LStrip(line)).value)
    ensures var r := ParseLine(p, it, line);
      var b := Build(p, Match(LStrip(line)).value);
      r.Parsed? && r.reports == [b.0] && r.parser == b.1
  {
    var m := Match(LStrip(line));
    assert ParseLine(p, it, line) == StepOn(p, it, m);
  }

  /*** Reading the next line ***/

  /** A step reads exactly one further line when one is left: it returns that
      line and moves the iterator past it. */
  lemma StepConsumesOneLine(p: Parser, it: Lines, line: string)
    requires !it.Exhausted()
    ensures var r := ParseLine(p, it, line);
      r.Parsed? && r.nextLine == it.items[it.cursor] && r.rest == it.(cursor := it.cursor + 1)
  {
    var m := Match(LStrip(line));
    if m.Some? {
      MatchSound(LStrip(line));
    }
    StepOnConsumesOneLine(p, it, m);
    assert ParseLine(p, it, line) == StepOn(p, it, m);
  }

  lemma StepOnConsumesOneLine(p: Parser, it: Lines, m: Option<Fields>)
    requires !it.Exhausted()
    requires m.Some? ==> WellFormed(m.value)
    ensures var r := StepOn(p, it, m);
      r.Parsed? && r.nextLine == it.items[it.cursor] && r.rest == it.(cursor := it.cursor + 1)
  {
  }

  /** On an exhausted iterator, a matching line still gives its report, with
      the empty string for the next line; a line that does not match lets
      `StopIteration` escape, and nothing has changed. */
  lemma StepAtEnd(p: Parser, it: Lines, line: string)
    requires it.Exhausted()
    ensures var r := ParseLine(p, it, line);
      && (Match(LStrip(line)).Some? ==>
            r.Parsed? && |r.reports| == 1 && r.nextLine == "" && r.rest == it)
      && (Match(LStrip(line)).None? ==> r == StopIteration(p))
  {
  }

  /*** Lines that give no report ***/

  /** A step reports exactly when the left-stripped line has a split in the
      line grammar; without one the parser is left as it was. */
  lemma ReportIffSplit(p: Parser, it: Lines, line: string)
    requires ParseLine(p, it, line).Parsed?
    ensures var r := ParseLine(p, it, line);
      |r.reports| == 1 <==> exists f :: IsSplit(LStrip(line), f)
    ensures var r := ParseLine(p, it, line);
      |r.reports| == 0 ==> r.parser == p
  {
    MatchNoneIffNoSplit(LStrip(line));
  }

  /** A line whose left-stripped text does not start with digits and colons
      followed by `>` gives no report. */
  lemma PrefixGate(p: Parser, it: Lines, line: string)
    requires forall pre :: !PrefixAt(LStrip(line), pre)
    ensures var r := ParseLine(p, it, line);
      r.Parsed? ==> r.reports == [] && r.parser == p
  {
    var t := LStrip(line);
    if Match(t).Some? {
      MatchSound(t);
      SplitIsStaged(t, Match(t).value);
    }
  }

  /** A line whose severity word is neither `error` nor `warning` (`info`,
      `Error`, `note`, ...) gives no report, even with a valid prefix and
      location. */
  lemma SeverityGateStep(p: Parser, it: Lines, line: string, prefix: string, loc: Location, word: string)
    requires var t := LStrip(line);
      PrefixAt(t, prefix) && LocationAt(t[|prefix| + 1..], loc)
    requires var t := LStrip(line);
      All(word, NonSpace) && word + " " <= t[|prefix| + 1..][|LocationText(loc)| + 1..]
    requires !IsSeverity(word)
    ensures var r := ParseLine(p, it, line);
      r.Parsed? ==> r.reports == [] && r.parser == p
  {
    SeverityGate(LStrip(line), prefix, loc, word);
  }

  /*** What a report holds ***/

  /** The report of a line with a split: the file is the cache's file for the
      resolved path, line and column are the values of the digit runs every
      split agrees on, and the checker name is the analyzer id every split
      agrees on. */
  lemma ReportOfSplit(p: Parser, it: Lines, line: string, g: Fields)
    requires IsSplit(LStrip(line), g)
    ensures var r := ParseLine(p, it, line);
      r.Parsed? && |r.reports| == 1
    ensures var rep := ParseLine(p, it, line).reports[0];
      && rep.file == GetOrCreate(Resolve(p.analyzerResult, g.location.path), p.fileCache).0
      && rep.line == DecimalValue(g.location.line)
      && rep.column == DecimalValue(g.location.column)
      && rep.checkerName == g.analyzerId
  {
    var t := LStrip(line);
    assert Match(t).Some? && SameHead(Match(t).value, g) by {
      MatchFindsEverySplit(t, g);
    }
    assert WellFormed(Match(t).value) by {
      MatchSound(t);
    }
    MatchedStep(p, it, line);
  }

  /** The report's message is the greedy message with the surrounding
      whitespace stripped: trimmed, what is cut off on either side is blank,
      and a blank message gives an empty one. */
  lemma ReportMessage(p: Parser, it: Lines, line: string)
    requires Match(LStrip(line)).Some?
    ensures var r := ParseLine(p, it, line);
      r.Parsed? && |r.reports| == 1
    ensures var msg := Match(LStrip(line)).value.tail.message;
      var m := ParseLine(p, it, line).reports[0].message;
      var k := Span(msg, Space);
      && IsTrimmed(m)
      && k + |m| <= |msg| && msg == msg[..k] + m + msg[k + |m|..]
      && All(msg[..k], Space) && All(msg[k + |m|..], Space)
      && (All(msg, Space) ==> m == [])
  {
    var msg := Match(LStrip(line)).value.tail.message;
    assert ParseLine(p, it, line).Parsed? && ParseLine(p, it, line).reports == [Build(p, Match(LStrip(line)).value).0]
      && ParseLine(p, it, line).reports[0].message == Strip(msg)
    by {
      MatchSound(LStrip(line));
      MatchedStep(p, it, line);
    }
    StrippedMessage(msg);
  }

  /** What `strip` keeps of a message and what it drops. */
  lemma StrippedMessage(msg: string)
    ensures var m := Strip(msg);
      var k := Span(msg, Space);
      && IsTrimmed(m)
      && k + |m| <= |msg| && msg == msg[..k] + m + msg[k + |m|..]
      && All(msg[..k], Space) && All(msg[k + |m|..], Space)
      && (All(msg, Space) ==> m == [])
  {
    StripLeavesBlanks(msg);
    if All(msg, Space) {
      StripOfBlank(msg);
    }
  }

  /** In a valid cache, the report goes to the file the cache holds for the
      resolved path, whose path is that path: the file already there, with
      nothing changed, or a new one; the cache stays valid. */
  lemma ReportFile(p: Parser, it: Lines, line: string)
    requires Valid(p.fileCache)
    requires Match(LStrip(line)).Some?
    ensures var r := ParseLine(p, it, line);
      r.Parsed? && |r.reports| == 1 && Valid(r.parser.fileCache)
    ensures var r := ParseLine(p, it, line);
      var path := Resolve(p.analyzerResult, Match(LStrip(line)).value.location.path);
      && r.reports[0].file.path == path
      && path in r.parser.fileCache && r.reports[0].file == r.parser.fileCache[path]
      && (path in p.fileCache ==> r.parser == p && r.reports[0].file == p.fileCache[path])
      && r.parser.fileCache.Keys == p.fileCache.Keys + {path}
  {
    var f := Match(LStrip(line)).value;
    var path := Resolve(p.analyzerResult, f.location.path);
    assert WellFormed(f) by {
      MatchSound(LStrip(line));
    }
    MatchedStep(p, it, line);
    GetOrCreateKeepsValid(path, p.fileCache);
  }

  /** A rendered diagnostic line gives back its own location, line and column
      numbers and analyzer id. */
  lemma RenderedLineReported(p: Parser, it: Lines, f: Fields)
    requires WellFormed(f)
    ensures var r := ParseLine(p, it, Render(f));
      r.Parsed? && |r.reports| == 1
    ensures var rep := ParseLine(p, it, Render(f)).reports[0];
      && rep.file == GetOrCreate(Resolve(p.analyzerResult, f.location.path), p.fileCache).0
      && rep.line == DecimalValue(f.location.line)
      && rep.column == DecimalValue(f.location.column)
      && rep.checkerName == f.analyzerId
  {
    assert LStrip(Render(f)) == Render(f) by {
      assert Render(f)[0] == f.prefix[0];
      SpanIsTheRun(Render(f), Space, 0);
    }
    ReportOfSplit(p, it, Render(f), f);
  }

  /** Line and column numbers written in canonical decimal come back as the
      numbers themselves; `0` is accepted like any other. */
  lemma NumbersRoundTrip(p: Parser, it: Lines, f: Fields, line: nat, column: nat)
    requires WellFormed(f)
    requires f.location.line == DecimalText(line) && f.location.column == DecimalText(column)
    ensures var r := ParseLine(p, it, Render(f));
      r.Parsed? && |r.reports| == 1
    ensures var rep := ParseLine(p, it, Render(f)).reports[0];
      rep.line == line && rep.column == column
  {
    RenderedLineReported(p, it, f);
    DecimalRoundTrip(line);
    DecimalRoundTrip(column);
  }

  /*** Whitespace before and text after the diagnostic ***/

  /** Leading whitespace changes nothing. */
  lemma LeadingWhitespaceIgnored(p: Parser, it: Lines, ws: string, line: string)
    requires All(ws, Space)
    ensures ParseLine(p, it, ws + line) == ParseLine(p, it, line)
  {
    LStripAppend(ws, line);
    LStripOfLStripped(line);
  }

  lemma LStripOfLStripped(s: string)
    ensures LStrip(LStrip(s)) == LStrip(s)
  {
    var t := LStrip(s);
    SpanIsTheRun(t, Space, 0);
  }

  /** Text without a `]` after the line changes nothing: neither whether a
      report is made nor any of its fields. */
  lemma BracketFreeSuffixIgnored(p: Parser, it: Lines, line: string, rest: string)
    requires forall i :: 0 <= i < |rest| ==> rest[i] != ']'
    ensures ParseLine(p, it, line + rest) == ParseLine(p, it, line)
  {
    LStripAppend(line, rest);
    if LStrip(line) == [] {
      var r := LStrip(rest);
      assert forall i :: 0 <= i < |r| ==> r[i] != ']' by {
        assert forall i :: 0 <= i < |r| ==> r[i] == rest[|rest| - |r| + i];
      }
      MatchIgnoresBracketFreeSuffix([], r);
      assert [] + r == r;
    } else {
      MatchIgnoresBracketFreeSuffix(LStrip(line), rest);
    }
  }

  /** Whatever follows a reported line, the longer line is reported too, for
      the same file, line, column and checker. */
  lemma AnySuffixKeepsReportHead(p: Parser, it: Lines, line: string, rest: string)
    requires Match(LStrip(line)).Some?
    ensures ParseLine(p, it, line + rest).Parsed? && |ParseLine(p, it, line + rest).reports| == 1
    ensures var a := ParseLine(p, it, line).reports[0];
      var b := ParseLine(p, it, line + rest).reports[0];
      a.file == b.file && a.line == b.line && a.column == b.column && a.checkerName == b.checkerName
  {
    var t := LStrip(line);
    LStripAppend(line, rest);
    SuffixKeepsHead(t, rest);
    assert WellFormed(Match(t).value) && WellFormed(Match(t + rest).value) by {
      MatchSound(t);
      MatchSound(t + rest);
    }
    MatchedStep(p, it, line);
    MatchedStep(p, it, line + rest);
  }

  /** A further ` [x]` after a line that ends at its project's `]`, where
      ` [` directly follows the message, takes the place of the project, and
      the report's message becomes the old message with the old ` [project]`
      closing, stripped. */
  lemma LaterBracketInMessage(p: Parser, it: Lines, line: string, x: string)
    requires Match(LStrip(line)).Some? && Render(Match(LStrip(line)).value) == LStrip(line)
    requires Match(LStrip(line)).value.tail.gap == []
    requires |x| > 0 && All(x, NonSpace)
    ensures var r := ParseLine(p, it, line + (" [" + x + "]"));
      r.Parsed? && |r.reports| == 1
    ensures var f := Match(LStrip(line)).value;
      ParseLine(p, it, line + (" [" + x + "]")).reports[0].message == Strip(TailText(f.tail))
  {
    var t := LStrip(line);
    var r := " [" + x + "]";
    assert LStrip(line + r) == t + r by {
      LStripAppend(line, r);
    }
    LaterBracketJoinsMessage(t, x);
    assert WellFormed(Match(t + r).value) by {
      MatchSound(t + r);
    }
    MatchedStep(p, it, line + r);
  }

  /** A further ` [x]` after a line that ends at its project's `]`, where
      whitespace other than a single space comes before the old ` [`, changes
      nothing about the step. */
  lemma LaterBracketAfterGapIgnored(p: Parser, it: Lines, line: string, x: string)
    requires Match(LStrip(line)).Some? && Render(Match(LStrip(line)).value) == LStrip(line)
    requires Match(LStrip(line)).value.tail.gap != []
    requires |x| > 0 && All(x, NonSpace)
    ensures ParseLine(p, it, line + (" [" + x + "]")) == ParseLine(p, it, line)
  {
    var t := LStrip(line);
    var r := " [" + x + "]";
    assert LStrip(line + r) == t + r by {
      LStripAppend(line, r);
    }
    LaterBracketKeepsMatch(t, x);
  }
}
