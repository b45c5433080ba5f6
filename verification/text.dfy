/** Character classes and small string functions shared by the line matcher,
    the path resolver and the report builder.

    The classes are the ASCII halves of Python's `\s`, `\d` and `\w` (and of
    `str.isspace`, which agrees with `\s`); every non-ASCII character is treated
    as a non-space, non-digit, non-word character. */
module Text {

  /** Python `\s` / `str.isspace` on ASCII: space, \t \n \v \f \r and the four
      information separators U+001C..U+001F. */
  predicate IsSpace(c: char) {
    c == ' ' || c == '\t' || c == '\n' || c == '\r' || c == '\U{0B}' || c == '\U{0C}'
    || ('\U{1C}' <= c <= '\U{1F}')
  }

  /** `\d` on ASCII. */
  predicate IsDigit(c: char) { '0' <= c <= '9' }

  /** `\w` on ASCII. */
  predicate IsWordChar(c: char) {
    ('a' <= c <= 'z') || ('A' <= c <= 'Z') || IsDigit(c) || c == '_'
  }

  /** The character classes the line expression and `str.strip` use. */
  datatype CharClass =
    | Space          // \s
    | NonSpace       // \S
    | Digit          // \d
    | Word           // \w
    | DigitOrColon   // [:\d]
    | LineChar       // [\S \t]
    | Slash          // the POSIX separator /
    | NotSlash       // anything else

  predicate In(c: char, k: CharClass) {
    match k
    case Space => IsSpace(c)
    case NonSpace => !IsSpace(c)
    case Digit => IsDigit(c)
    case Word => IsWordChar(c)
    case DigitOrColon => c == ':' || IsDigit(c)
    case LineChar => !IsSpace(c) || c == ' ' || c == '\t'
    case Slash => c == '/'
    case NotSlash => c != '/'
  }

  predicate All(s: string, k: CharClass) {
    forall i :: 0 <= i < |s| ==> In(s[i], k)
  }

  /** Length of the run of `k` characters starting at position `i` of `s`.
      The recursion moves an index rather than slicing, and the
      characterisation is kept out of the contract (see `RunFromFacts`), so
      that a use of it brings no quantifier into a proof unless asked to. */
  function RunFrom(s: string, i: nat, k: CharClass): (n: nat)
    requires i <= |s|
    ensures i + n <= |s|
    decreases |s| - i
  {
    if i == |s| || !In(s[i], k) then 0 else 1 + RunFrom(s, i + 1, k)
  }

  /** Length of the run of `k` characters ending just before position `j`. */
  function RunBefore(s: string, j: nat, k: CharClass): (n: nat)
    requires j <= |s|
    ensures n <= j
  {
    if j == 0 || !In(s[j - 1], k) then 0 else 1 + RunBefore(s, j - 1, k)
  }

  /** Length of the longest prefix of `s` whose characters are all in `k`. */
  function Span(s: string, k: CharClass): (n: nat)
    ensures n <= |s|
  {
    RunFrom(s, 0, k)
  }

  /** Length of the longest suffix of `s` whose characters are all in `k`. */
  function SpanRight(s: string, k: CharClass): (n: nat)
    ensures n <= |s|
  {
    RunBefore(s, |s|, k)
  }

  lemma {:induction false} RunFromFacts(s: string, i: nat, k: CharClass)
    requires i <= |s|
    ensures forall p :: i <= p < i + RunFrom(s, i, k) ==> In(s[p], k)
    ensures i + RunFrom(s, i, k) < |s| ==> !In(s[i + RunFrom(s, i, k)], k)
    decreases |s| - i
  {
    if i < |s| && In(s[i], k) {
      RunFromFacts(s, i + 1, k);
    }
  }

  lemma {:induction false} RunBeforeFacts(s: string, j: nat, k: CharClass)
    requires j <= |s|
    ensures forall p :: j - RunBefore(s, j, k) <= p < j ==> In(s[p], k)
    ensures RunBefore(s, j, k) < j ==> !In(s[j - RunBefore(s, j, k) - 1], k)
  {
    if j > 0 && In(s[j - 1], k) {
      RunBeforeFacts(s, j - 1, k);
    }
  }

  /** `Span` covers a run of `k` characters that ends at the end of `s` or
      just before a character outside `k`. */
  lemma SpanFacts(s: string, k: CharClass)
    ensures forall i :: 0 <= i < Span(s, k) ==> In(s[i], k)
    ensures Span(s, k) < |s| ==> !In(s[Span(s, k)], k)
  {
    RunFromFacts(s, 0, k);
  }

  /** The mirror image of `SpanFacts`. */
  lemma SpanRightFacts(s: string, k: CharClass)
    ensures forall i :: |s| - SpanRight(s, k) <= i < |s| ==> In(s[i], k)
    ensures SpanRight(s, k) < |s| ==> !In(s[|s| - SpanRight(s, k) - 1], k)
  {
    RunBeforeFacts(s, |s|, k);
  }

  /** A run of `k` characters from `i` followed by a character outside `k`
      (or the end) has exactly the length `RunFrom` computes. */
  lemma {:induction false} RunFromIsTheRun(s: string, i: nat, k: CharClass, n: nat)
    requires i + n <= |s|
    requires forall p :: i <= p < i + n ==> In(s[p], k)
    requires i + n < |s| ==> !In(s[i + n], k)
    ensures RunFrom(s, i, k) == n
    decreases n
  {
    if n > 0 {
      assert In(s[i], k);
      RunFromIsTheRun(s, i + 1, k, n - 1);
    }
  }

  /** `RunFrom` reaches at least to the end of any run of `k` characters. */
  lemma {:induction false} RunFromCoversRun(s: string, i: nat, k: CharClass, n: nat)
    requires i + n <= |s|
    requires forall p :: i <= p < i + n ==> In(s[p], k)
    ensures n <= RunFrom(s, i, k)
    decreases n
  {
    if n > 0 {
      assert In(s[i], k);
      RunFromCoversRun(s, i + 1, k, n - 1);
    }
  }

  /** The mirror image of `RunFromIsTheRun`. */
  lemma {:induction false} RunBeforeIsTheRun(s: string, j: nat, k: CharClass, n: nat)
    requires n <= j <= |s|
    requires forall p :: j - n <= p < j ==> In(s[p], k)
    requires n < j ==> !In(s[j - n - 1], k)
    ensures RunBefore(s, j, k) == n
    decreases n
  {
    if n > 0 {
      assert In(s[j - 1], k);
      RunBeforeIsTheRun(s, j - 1, k, n - 1);
    }
  }

  /** A run of `k` characters followed by a character outside `k` (or the end)
      has exactly the length `Span` computes. */
  lemma SpanIsTheRun(s: string, k: CharClass, n: nat)
    requires n <= |s|
    requires forall i :: 0 <= i < n ==> In(s[i], k)
    requires n < |s| ==> !In(s[n], k)
    ensures Span(s, k) == n
  {
    RunFromIsTheRun(s, 0, k, n);
  }

  /** `Span` reaches at least to the end of any run of `k` characters. */
  lemma SpanCoversRun(s: string, k: CharClass, n: nat)
    requires n <= |s|
    requires forall i :: 0 <= i < n ==> In(s[i], k)
    ensures n <= Span(s, k)
  {
    RunFromCoversRun(s, 0, k, n);
  }

  /** The mirror image of `SpanIsTheRun` for `SpanRight`. */
  lemma SpanRightIsTheRun(s: string, k: CharClass, n: nat)
    requires n <= |s|
    requires forall i :: |s| - n <= i < |s| ==> In(s[i], k)
    requires n < |s| ==> !In(s[|s| - n - 1], k)
    ensures SpanRight(s, k) == n
  {
    RunBeforeIsTheRun(s, |s|, k, n);
  }

  /** Python `s.lstrip()`. */
  function LStrip(s: string): (r: string)
    ensures |r| <= |s| && r == s[|s| - |r|..]
    ensures All(s[..|s| - |r|], Space)
    ensures r == [] || !IsSpace(r[0])
  {
    SpanFacts(s, Space);
    s[Span(s, Space)..]
  }

  /** Left-stripping a line with something more after it: the extra text is
      kept whole unless the line was blank, and then it is stripped itself. */
  lemma LStripAppend(s: string, r: string)
    ensures LStrip(s) == [] <==> All(s, Space)
    ensures LStrip(s) == [] ==> LStrip(s + r) == LStrip(r)
    ensures LStrip(s) != [] ==> LStrip(s + r) == LStrip(s) + r
  {
    SpanFacts(s, Space);
    if All(s, Space) {
      SpanIsTheRun(s, Space, |s|);
    }
    SpanFacts(r, Space);
    if All(s, Space) {
      SpanIsTheRun(s + r, Space, |s| + Span(r, Space));
      assert (s + r)[|s| + Span(r, Space)..] == r[Span(r, Space)..];
    } else {
      SpanIsTheRun(s + r, Space, Span(s, Space));
      assert (s + r)[Span(s, Space)..] == s[Span(s, Space)..] + r;
    }
  }

  /** Neither end of `s` is whitespace. */
  predicate IsTrimmed(s: string) {
    s == [] || (!IsSpace(s[0]) && !IsSpace(s[|s| - 1]))
  }

  /** Python `s.strip()`: the text between the leading and the trailing
      whitespace runs. */
  function Strip(s: string): (r: string)
    ensures IsTrimmed(r)
    ensures var k := Span(s, Space);
      k + |r| <= |s| && r == s[k..k + |r|] && All(s[k + |r|..], Space)
  {
    var t := LStrip(s);
    SpanRightFacts(t, Space);
    t[..|t| - SpanRight(t, Space)]
  }

  /** What `Strip` removes is whitespace: the text is the leading whitespace
      run, the stripped text, and a blank rest. */
  lemma StripLeavesBlanks(s: string)
    ensures var k := Span(s, Space);
      var r := Strip(s);
      && k + |r| <= |s| && s == s[..k] + r + s[k + |r|..]
      && All(s[..k], Space) && All(s[k + |r|..], Space)
  {
    SpanFacts(s, Space);
    var k := Span(s, Space);
    var r := Strip(s);
    assert s == s[..k] + s[k..k + |r|] + s[k + |r|..];
  }

  /** `Strip` is the one trimmed infix that only whitespace surrounds: whatever
      decomposition `s == a + r + b` with blank `a`, `b` and trimmed non-empty
      `r` one picks, `r` is `Strip(s)`. */
  lemma StripIsTheTrimmedCore(s: string, a: string, r: string, b: string)
    requires s == a + r + b
    requires All(a, Space) && All(b, Space)
    requires r != [] && IsTrimmed(r)
    ensures Strip(s) == r
  {
    SpanIsTheRun(s, Space, |a|);
    var t := LStrip(s);
    assert t == r + b;
    SpanRightIsTheRun(t, Space, |b|);
  }

  /** A blank text strips to the empty string. */
  lemma StripOfBlank(s: string)
    requires All(s, Space)
    ensures Strip(s) == []
  {
  }

  /** Python `int(s)` on a string of ASCII decimal digits; leading zeros allowed. */
  function DecimalValue(s: string): (n: nat)
    requires All(s, Digit)
  {
    if s == [] then 0
    else DecimalValue(s[..|s| - 1]) * 10 + (s[|s| - 1] as int - '0' as int)
  }

  /** Canonical decimal rendering of `n` (no leading zeros; "0" for zero). */
  function DecimalText(n: nat): (s: string)
    ensures s != [] && All(s, Digit)
    ensures |s| > 1 ==> s[0] != '0'
  {
    var d := ['0' + (n % 10) as char];
    if n < 10 then d else DecimalText(n / 10) + d
  }

  /** `int()` inverts the canonical rendering. */
  lemma {:induction false} DecimalRoundTrip(n: nat)
    ensures DecimalValue(DecimalText(n)) == n
  {
    var s := DecimalText(n);
    if n >= 10 {
      DecimalRoundTrip(n / 10);
      assert s[..|s| - 1] == DecimalText(n / 10);
    }
  }

  /** Leading zeros do not change the value. */
  lemma {:induction false} LeadingZeroIgnored(s: string)
    requires All(s, Digit)
    ensures DecimalValue("0" + s) == DecimalValue(s)
  {
    if s != [] {
      assert ("0" + s)[..|"0" + s| - 1] == "0" + s[..|s| - 1];
      LeadingZeroIgnored(s[..|s| - 1]);
    }
  }
}
