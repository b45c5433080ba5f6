/** POSIX path handling as Python's `posixpath` does it: `dirname`, a
    two-argument `join` and `normpath`, and the composition
    `normpath(join(dirname(analyzer_result), path))` that places a reported
    path next to the analyzer result file. Everything is string manipulation;
    nothing consults a file system. */
module PosixPath {
  import opened Text

  predicate IsAbsolute(p: string) { |p| > 0 && p[0] == '/' }

  /*** `str.split('/')` and `'/'.join` ***/

  /** `p.split('/')`: the pieces between the slashes, one more than there are
      slashes. */
  function SplitOn(p: string): (r: seq<string>)
    ensures |r| >= 1
    decreases |p|
  {
    var i := Span(p, NotSlash);
    if i == |p| then [p] else [p[..i]] + SplitOn(p[i + 1..])
  }

  /** `'/'.join(cs)`. */
  function JoinSep(cs: seq<string>): string {
    if |cs| == 0 then ""
    else if |cs| == 1 then cs[0]
    else cs[0] + "/" + JoinSep(cs[1..])
  }

  predicate SlashFree(cs: seq<string>) {
    forall i :: 0 <= i < |cs| ==> All(cs[i], NotSlash)
  }

  /** The pieces `split` produces contain no slash, and joining them gives the
      text back. */
  lemma {:induction false} SplitOnJoins(p: string)
    ensures SlashFree(SplitOn(p))
    ensures JoinSep(SplitOn(p)) == p
    decreases |p|
  {
    var i := Span(p, NotSlash);
    SpanFacts(p, NotSlash);
    if i < |p| {
      SplitOnJoins(p[i + 1..]);
      assert p == p[..i] + "/" + p[i + 1..];
    }
  }

  /** Splitting a join of slash-free pieces gives the pieces back. */
  lemma {:induction false} JoinSepSplits(cs: seq<string>)
    requires |cs| >= 1 && SlashFree(cs)
    ensures SplitOn(JoinSep(cs)) == cs
  {
    if |cs| == 1 {
      SpanIsTheRun(cs[0], NotSlash, |cs[0]|);
    } else {
      var p := JoinSep(cs);
      assert p == cs[0] + "/" + JoinSep(cs[1..]);
      SpanIsTheRun(p, NotSlash, |cs[0]|);
      assert p[..|cs[0]|] == cs[0] && p[|cs[0]| + 1..] == JoinSep(cs[1..]);
      JoinSepSplits(cs[1..]);
    }
  }

  /*** `dirname` ***/

  /** `posixpath.dirname`: everything up to and including the last slash,
      with the trailing slashes taken off unless nothing but slashes is left. */
  function DirName(p: string): string {
    var head := p[..|p| - SpanRight(p, NotSlash)];
    if head != [] && !All(head, Slash) then head[..|head| - SpanRight(head, Slash)] else head
  }

  /** `dirname` keeps a leading part of the path, and only a path with a
      slash has a non-empty one. */
  lemma DirNameIsLeadingPart(p: string)
    ensures DirName(p) <= p
    ensures All(p, NotSlash) ==> DirName(p) == []
  {
    SpanRightFacts(p, NotSlash);
    if All(p, NotSlash) {
      SpanRightIsTheRun(p, NotSlash, |p|);
    }
  }

  /** `dirname` undoes `join` with a single slash-free name. */
  lemma DirNameOfJoin(a: string, name: string)
    requires a != [] && a[|a| - 1] != '/'
    requires All(name, NotSlash)
    ensures DirName(Join(a, name)) == a
  {
    var p := a + "/" + name;
    assert Join(a, name) == p by {
      if name != [] {
        assert In(name[0], NotSlash);
      }
    }
    assert p[..|a| + 1] == a + "/";
    SpanRightIsTheRun(p, NotSlash, |name|);
    var head := a + "/";
    assert !All(head, Slash) by {
      assert !In(head[|a| - 1], Slash);
    }
    SpanRightIsTheRun(head, Slash, 1);
    assert head[..|head| - 1] == a;
  }

  /** `dirname` of an absolute path is absolute, and of a relative one is not. */
  lemma DirNameKeepsAbsolute(p: string)
    ensures IsAbsolute(DirName(p)) <==> IsAbsolute(p)
  {
    DirNameIsLeadingPart(p);
    var head := p[..|p| - SpanRight(p, NotSlash)];
    SpanRightFacts(p, NotSlash);
    if IsAbsolute(p) {
      assert head != [] && head[0] == '/';
      if !All(head, Slash) {
        SpanRightFacts(head, Slash);
      }
    }
  }

  /*** `join` ***/

  /** `posixpath.join(a, b)`: an absolute `b` replaces `a`; otherwise the two
      are glued with a slash unless `a` is empty or already ends in one. */
  function Join(a: string, b: string): (r: string)
    ensures |b| <= |r| && r[|r| - |b|..] == b
  {
    if IsAbsolute(b) then b
    else if a == [] || a[|a| - 1] == '/' then a + b
    else a + "/" + b
  }

  /** An absolute second argument makes the first irrelevant. */
  lemma JoinAbsolute(a: string, b: string)
    requires IsAbsolute(b)
    ensures Join(a, b) == b
  {
  }

  /** A join is absolute exactly when one of its arguments is. */
  lemma JoinKeepsAbsolute(a: string, b: string)
    ensures IsAbsolute(Join(a, b)) <==> IsAbsolute(a) || IsAbsolute(b)
  {
  }

  /*** `normpath` ***/

  /** `posixpath.normpath` keeps one or two leading slashes as they are and
      treats three or more as one. */
  function InitialSlashes(p: string): (k: nat)
    ensures k <= 2
    ensures k > 0 <==> IsAbsolute(p)
  {
    if !IsAbsolute(p) then 0
    else if |p| >= 2 && p[1] == '/' && !(|p| >= 3 && p[2] == '/') then 2
    else 1
  }

  function Slashes(k: nat): string
    requires k <= 2
  {
    if k == 0 then "" else if k == 1 then "/" else "//"
  }

  /** One turn of the component loop of `normpath`: empty and `.` components
      vanish, `..` removes the component before it unless there is none to
      remove (then a relative path keeps it and a rooted one drops it) or that
      one is itself `..`. */
  function Step(acc: seq<string>, comp: string, rooted: bool): seq<string> {
    if comp == "" || comp == "." then acc
    else if comp != ".." || (!rooted && |acc| == 0) || (|acc| > 0 && acc[|acc| - 1] == "..") then
      acc + [comp]
    else if |acc| > 0 then acc[..|acc| - 1]
    else acc
  }

  /** The component loop of `normpath`, from the components so far. */
  function Fold(acc: seq<string>, cs: seq<string>, rooted: bool): seq<string>
    decreases |cs|
  {
    if |cs| == 0 then acc else Fold(Step(acc, cs[0], rooted), cs[1..], rooted)
  }

  /** The components of a normal path: no slash, no empty or `.` component,
      and `..` only in a leading run of a relative path. */
  predicate IsNormal(cs: seq<string>, rooted: bool) {
    && SlashFree(cs)
    && (forall i :: 0 <= i < |cs| ==> cs[i] != "" && cs[i] != ".")
    && (forall i :: 0 <= i < |cs| && cs[i] == ".." ==> !rooted && forall j :: 0 <= j < i ==> cs[j] == "..")
  }

  /** The components `normpath` keeps. */
  function NormComps(p: string): seq<string> {
    Fold([], SplitOn(p), InitialSlashes(p) > 0)
  }

  /** `posixpath.normpath`. */
  function NormPath(p: string): (r: string)
    ensures r != []
  {
    if p == [] then "."
    else
      var r := Slashes(InitialSlashes(p)) + JoinSep(NormComps(p));
      if r == [] then "." else r
  }

  lemma StepKeepsNormal(acc: seq<string>, comp: string, rooted: bool)
    requires IsNormal(acc, rooted) && All(comp, NotSlash)
    ensures IsNormal(Step(acc, comp, rooted), rooted)
  {
    var r := Step(acc, comp, rooted);
    if r == acc + [comp] && comp == ".." {
      assert !rooted;
      assert forall j :: 0 <= j < |acc| ==> acc[j] == "..";
    }
  }

  /** The loop only ever builds normal component lists. */
  lemma {:induction false} FoldKeepsNormal(acc: seq<string>, cs: seq<string>, rooted: bool)
    requires IsNormal(acc, rooted) && SlashFree(cs)
    ensures IsNormal(Fold(acc, cs, rooted), rooted)
    decreases |cs|
  {
    if |cs| > 0 {
      StepKeepsNormal(acc, cs[0], rooted);
      FoldKeepsNormal(Step(acc, cs[0], rooted), cs[1..], rooted);
    }
  }

  /** The loop leaves normal components as they are. */
  lemma {:induction false} FoldFixesNormal(acc: seq<string>, cs: seq<string>, rooted: bool)
    requires IsNormal(acc + cs, rooted)
    ensures Fold(acc, cs, rooted) == acc + cs
    decreases |cs|
  {
    if |cs| > 0 {
      var c := cs[0];
      assert (acc + cs)[|acc|] == c;
      if c == ".." {
        assert forall j :: 0 <= j < |acc| ==> acc[j] == (acc + cs)[j];
      }
      assert Step(acc, c, rooted) == acc + [c];
      assert acc + [c] + cs[1..] == acc + cs;
      FoldFixesNormal(acc + [c], cs[1..], rooted);
    }
  }

  /** Normal components joined with slashes: the first piece is non-empty and
      slash-free, so the text starts with it. */
  lemma JoinNormalStart(cs: seq<string>, rooted: bool)
    requires IsNormal(cs, rooted) && |cs| > 0
    ensures JoinSep(cs) != [] && JoinSep(cs)[0] == cs[0][0]
  {
    if |cs| > 1 {
      assert JoinSep(cs) == cs[0] + "/" + JoinSep(cs[1..]);
    }
  }

  /** `k` empty pieces. */
  function Empties(k: nat): seq<string> {
    if k == 0 then [] else [""] + Empties(k - 1)
  }

  /** A leading slash splits off an empty piece. */
  lemma SplitOnSlash(t: string)
    ensures SplitOn("/" + t) == [""] + SplitOn(t)
  {
    SpanIsTheRun("/" + t, NotSlash, 0);
    assert ("/" + t)[1..] == t;
  }

  /** `k` leading slashes split off `k` empty pieces. */
  lemma SplitOnSlashes(k: nat, t: string)
    requires k <= 2
    ensures SplitOn(Slashes(k) + t) == Empties(k) + SplitOn(t)
  {
    if k == 0 {
      assert Slashes(0) + t == t;
      assert Empties(0) + SplitOn(t) == SplitOn(t);
    } else if k == 1 {
      assert Slashes(1) + t == "/" + t;
      assert Empties(1) == [""];
      SplitOnSlash(t);
    } else {
      assert Slashes(2) + t == "//" + t;
      assert Empties(2) == ["", ""];
      SplitOnTwoSlashes(t);
    }
  }

  lemma SplitOnTwoSlashes(t: string)
    ensures SplitOn("//" + t) == ["", ""] + SplitOn(t)
  {
    assert "//" + t == "/" + ("/" + t);
    SplitOnSlash("/" + t);
    SplitOnSlash(t);
  }

  /** The leading empty pieces are skipped by the loop. */
  lemma {:induction false} FoldSkipsLeadingEmpty(k: nat, cs: seq<string>, rooted: bool)
    ensures Fold([], Empties(k) + cs, rooted) == Fold([], cs, rooted)
  {
    if k > 0 {
      var rest := Empties(k - 1) + cs;
      assert Empties(k) + cs == [""] + rest;
      assert ([""] + rest)[1..] == rest;
      assert Fold([], [""] + rest, rooted) == Fold([], rest, rooted);
      FoldSkipsLeadingEmpty(k - 1, cs, rooted);
    } else {
      assert Empties(0) + cs == cs;
    }
  }

  /** `normpath` writes its result as the leading slashes and the normal
      components it keeps, or `.` when both are empty. */
  lemma NormPathShape(p: string)
    requires p != []
    ensures IsNormal(NormComps(p), InitialSlashes(p) > 0)
    ensures NormPath(p) == (if InitialSlashes(p) == 0 && NormComps(p) == [] then "."
      else Slashes(InitialSlashes(p)) + JoinSep(NormComps(p)))
  {
    SplitOnJoins(p);
    FoldKeepsNormal([], SplitOn(p), InitialSlashes(p) > 0);
    if NormComps(p) != [] {
      JoinNormalStart(NormComps(p), InitialSlashes(p) > 0);
    }
  }

  /** A path is absolute after `normpath` exactly when it was before. */
  lemma NormPathKeepsAbsolute(p: string)
    ensures IsAbsolute(NormPath(p)) <==> IsAbsolute(p)
  {
    if p != [] {
      NormPathShape(p);
      var cs := NormComps(p);
      if InitialSlashes(p) == 0 && cs != [] {
        JoinNormalStart(cs, false);
        assert cs[0][0] != '/' by {
          assert In(cs[0][0], NotSlash);
        }
      }
    }
  }

  /** `normpath` is idempotent: its result is already normal. */
  lemma NormPathIdempotent(p: string)
    ensures NormPath(NormPath(p)) == NormPath(p)
  {
    if p == [] {
      assert NormPath(p) == ".";
      NormPathOfDot();
    } else {
      NormPathShape(p);
      var k := InitialSlashes(p);
      var cs := NormComps(p);
      if k == 0 && cs == [] {
        NormPathOfDot();
      } else if cs == [] {
        NormPathOfSlashes(k);
      } else {
        NormPathOfNormal(k, cs);
      }
    }
  }

  lemma NormPathOfDot()
    ensures NormPath(".") == "."
  {
    assert SplitOn(".") == ["."] by {
      SpanIsTheRun(".", NotSlash, 1);
    }
    assert Fold([], ["."], false) == [];
  }

  lemma NormPathOfSlashes(k: nat)
    requires 1 <= k <= 2
    ensures NormPath(Slashes(k)) == Slashes(k)
  {
    var p := Slashes(k);
    assert InitialSlashes(p) == k;
    assert SplitOn(p) == Empties(k) + [""] by {
      assert p == Slashes(k) + "";
      SplitOnSlashes(k, "");
      SpanIsTheRun("", NotSlash, 0);
    }
    FoldSkipsLeadingEmpty(k, [""], true);
    assert NormComps(p) == [];
  }

  lemma NormPathOfNormal(k: nat, cs: seq<string>)
    requires k <= 2 && |cs| > 0 && IsNormal(cs, k > 0)
    ensures NormPath(Slashes(k) + JoinSep(cs)) == Slashes(k) + JoinSep(cs)
  {
    InitialSlashesOfNormal(k, cs);
    NormCompsOfNormal(k, cs);
  }

  /** The leading slashes of a normalized text are counted back exactly. */
  lemma InitialSlashesOfNormal(k: nat, cs: seq<string>)
    requires k <= 2 && |cs| > 0 && IsNormal(cs, k > 0)
    ensures Slashes(k) + JoinSep(cs) != [] && InitialSlashes(Slashes(k) + JoinSep(cs)) == k
  {
    var j := JoinSep(cs);
    var r := Slashes(k) + j;
    assert j != [] && j[0] != '/' by {
      JoinNormalStart(cs, k > 0);
      assert In(cs[0][0], NotSlash);
    }
    if k == 0 {
      assert r == j;
    } else if k == 1 {
      assert r == "/" + j && r[1] == j[0];
    } else {
      assert r == "//" + j && r[2] == j[0];
    }
  }

  /** The loop gives back the components of a normalized text. */
  lemma NormCompsOfNormal(k: nat, cs: seq<string>)
    requires k <= 2 && |cs| > 0 && IsNormal(cs, k > 0)
    requires InitialSlashes(Slashes(k) + JoinSep(cs)) == k
    ensures NormComps(Slashes(k) + JoinSep(cs)) == cs
  {
    assert SplitOn(Slashes(k) + JoinSep(cs)) == Empties(k) + cs by {
      SplitOnSlashes(k, JoinSep(cs));
      JoinSepSplits(cs);
    }
    FoldSkipsLeadingEmpty(k, cs, k > 0);
    FoldFixesNormal([], cs, k > 0);
    assert [] + cs == cs;
  }

  /*** Placing a reported path ***/

  /** `normpath(join(dirname(analyzer_result), path))`. */
  function Resolve(analyzerResult: string, path: string): string {
    NormPath(Join(DirName(analyzerResult), path))
  }

  /** An absolute reported path ignores where the analyzer result lies. */
  lemma ResolveAbsolute(analyzerResult: string, path: string)
    requires IsAbsolute(path)
    ensures Resolve(analyzerResult, path) == NormPath(path)
  {
  }

  /** The placed path is absolute exactly when the reported path or the
      analyzer result path is. */
  lemma ResolveKeepsAbsolute(analyzerResult: string, path: string)
    ensures IsAbsolute(Resolve(analyzerResult, path)) <==> IsAbsolute(analyzerResult) || IsAbsolute(path)
  {
    DirNameKeepsAbsolute(analyzerResult);
    JoinKeepsAbsolute(DirName(analyzerResult), path);
    NormPathKeepsAbsolute(Join(DirName(analyzerResult), path));
  }

  /** The placed path is in normal form. */
  lemma ResolveIsNormal(analyzerResult: string, path: string)
    ensures NormPath(Resolve(analyzerResult, path)) == Resolve(analyzerResult, path)
  {
    NormPathIdempotent(Join(DirName(analyzerResult), path));
  }
}
