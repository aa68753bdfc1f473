/**
  `clean_text` of the ingestion pipeline: three `re.sub` passes and a
  `strip`. Every match of each of the three patterns lies inside one
  maximal whitespace run, so each pass is stated as a rewrite of those runs.
  The first pass leaves no newline behind, which makes the other two
  passes identities: the result is the input with every whitespace run
  turned into one space, stripped.
*/
module CleanText {
  import opened Text

  /** Replaces every maximal whitespace run `w` of `s` by `f(w)` and keeps
      every other character. */
  function MapRuns(s: string, f: string -> string): string
    decreases |s|
  {
    if s == [] then []
    else if !IsSpace(s[0]) then [s[0]] + MapRuns(s[1..], f)
    else
      var n := SpaceRun(s);
      f(s[..n]) + MapRuns(s[n..], f)
  }

  /** Number of occurrences of `c` in `s`. */
  function Count(s: string, c: char): (n: nat)
    ensures n == 0 <==> c !in s
  {
    if s == [] then 0 else (if s[0] == c then 1 else 0) + Count(s[1..], c)
  }

  /** `re.sub(r'\s+', ' ', ...)` on one whitespace run. */
  function OneSpace(run: string): string {
    " "
  }

  /** `re.sub(r'\n\s*\n\s*\n+', '\n\n', ...)` on one whitespace run: with
      three or more newlines, the greedy match spans from the first newline
      to the last one. */
  function SquashBlankLines(run: string): string {
    if Count(run, '\n') >= 3 then
      run[..IndexOf(run, '\n')] + "\n\n" + run[LastIndexOf(run, '\n') + 1..]
    else run
  }

  /** `re.sub(r'\s*\n\s*', '\n', ...)` on one whitespace run: a run holding
      a newline is matched whole. */
  function OneNewline(run: string): string {
    if '\n' in run then "\n" else run
  }

  /** `clean_text(text)`. */
  function Clean(text: string): string {
    var collapsed := MapRuns(text, OneSpace);
    var squashed := MapRuns(collapsed, SquashBlankLines);
    var joined := MapRuns(squashed, OneNewline);
    Strip(joined)
  }

  /** Every whitespace character is a plain space and no two whitespace
      characters are adjacent. */
  predicate SingleSpaced(s: string) {
    && (forall i :: 0 <= i < |s| && IsSpace(s[i]) ==> s[i] == ' ')
    && (forall i :: 0 <= i < |s| - 1 ==> !IsSpace(s[i]) || !IsSpace(s[i + 1]))
  }

  lemma {:induction false} CollapseSingleSpaced(s: string)
    ensures SingleSpaced(MapRuns(s, OneSpace))
    ensures s != [] ==> MapRuns(s, OneSpace) != []
    ensures s != [] && !IsSpace(s[0]) ==> MapRuns(s, OneSpace)[0] == s[0]
    decreases |s|
  {
    if s != [] {
      var r := MapRuns(s, OneSpace);
      if !IsSpace(s[0]) {
        CollapseSingleSpaced(s[1..]);
        var tail := MapRuns(s[1..], OneSpace);
        assert r == [s[0]] + tail;
        assert forall i :: 1 <= i < |r| ==> r[i] == tail[i - 1];
      } else {
        var n := SpaceRun(s);
        CollapseSingleSpaced(s[n..]);
        var tail := MapRuns(s[n..], OneSpace);
        assert r == " " + tail;
        assert tail != [] ==> !IsSpace(tail[0]);
        assert forall i :: 1 <= i < |r| ==> r[i] == tail[i - 1];
      }
    }
  }

  /** A single-spaced string is left as it is by the first pass. */
  lemma {:induction false} CollapseFixesSingleSpaced(s: string)
    requires SingleSpaced(s)
    ensures MapRuns(s, OneSpace) == s
    decreases |s|
  {
    if s != [] {
      assert SingleSpaced(s[1..]);
      if IsSpace(s[0]) {
        assert SpaceRun(s) == 1;
        assert s[..1] == " ";
      }
      CollapseFixesSingleSpaced(s[1..]);
    }
  }

  /** A pass whose run rewrite keeps newline-free runs keeps a
      newline-free string. */
  lemma {:induction false} MapRunsNoNewline(s: string, f: string -> string)
    requires '\n' !in s
    requires forall run :: '\n' !in run ==> f(run) == run
    ensures MapRuns(s, f) == s
    decreases |s|
  {
    if s != [] {
      if !IsSpace(s[0]) {
        MapRunsNoNewline(s[1..], f);
      } else {
        var n := SpaceRun(s);
        assert '\n' !in s[..n];
        MapRunsNoNewline(s[n..], f);
        assert s == s[..n] + s[n..];
      }
    }
  }

  /** Lines 88 and 90 never change the text: after line 86 it holds no
      newline, and neither pattern can match without one. */
  lemma LaterPassesAreIdentities(text: string)
    ensures MapRuns(MapRuns(MapRuns(text, OneSpace), SquashBlankLines), OneNewline)
         == MapRuns(text, OneSpace)
  {
    var collapsed := MapRuns(text, OneSpace);
    CollapseSingleSpaced(text);
    assert IsSpace('\n');
    assert '\n' !in collapsed;
    MapRunsNoNewline(collapsed, SquashBlankLines);
    MapRunsNoNewline(collapsed, OneNewline);
  }

  lemma CleanIsCollapseThenStrip(text: string)
    ensures Clean(text) == Strip(MapRuns(text, OneSpace))
  {
    LaterPassesAreIdentities(text);
  }

  lemma SliceSingleSpaced(s: string, a: nat, b: nat)
    requires a <= b <= |s| && SingleSpaced(s)
    ensures SingleSpaced(s[a..b])
  {
    assert forall i :: 0 <= i < b - a ==> s[a..b][i] == s[a + i];
  }

  /** The cleaned text is one line of words separated by single spaces,
      with no whitespace at either end: the paragraph breaks the comment at
      line 87 speaks of are not kept. */
  lemma CleanNormalForm(text: string)
    ensures Trimmed(Clean(text)) && SingleSpaced(Clean(text))
    ensures '\n' !in Clean(text)
  {
    var collapsed := MapRuns(text, OneSpace);
    CleanIsCollapseThenStrip(text);
    CollapseSingleSpaced(text);
    StripSingleSpaced(collapsed);
    assert IsSpace('\n');
  }

  /** Stripping a single-spaced text leaves it single-spaced and trimmed. */
  lemma StripSingleSpaced(s: string)
    requires SingleSpaced(s)
    ensures Trimmed(Strip(s)) && SingleSpaced(Strip(s))
  {
    var a := SpaceRun(s);
    var r := Strip(s);
    StripFacts(s);
    MiddleSlice(s, s[..a], r, s[a + |r|..]);
    SliceSingleSpaced(s, a, a + |r|);
  }

  lemma {:induction false} CollapseKeepsNonSpace(s: string)
    ensures NonSpace(MapRuns(s, OneSpace)) == NonSpace(s)
    decreases |s|
  {
    if s != [] {
      if !IsSpace(s[0]) {
        CollapseKeepsNonSpace(s[1..]);
        assert MapRuns(s, OneSpace) == [s[0]] + MapRuns(s[1..], OneSpace);
        NonSpaceAppend([s[0]], MapRuns(s[1..], OneSpace));
      } else {
        var n := SpaceRun(s);
        CollapseKeepsNonSpace(s[n..]);
        NonSpaceAppend(" ", MapRuns(s[n..], OneSpace));
        NonSpaceAppend(s[..n], s[n..]);
        NonSpaceOfSpace(s[..n]);
        assert s == s[..n] + s[n..];
      }
    }
  }

  /** Cleaning drops whitespace only: the other characters survive, in order. */
  lemma CleanKeepsNonSpace(text: string)
    ensures NonSpace(Clean(text)) == NonSpace(text)
  {
    CleanIsCollapseThenStrip(text);
    CollapseKeepsNonSpace(text);
    StripKeepsNonSpace(MapRuns(text, OneSpace));
  }

  lemma CleanIdempotent(text: string)
    ensures Clean(Clean(text)) == Clean(text)
  {
    var r := Clean(text);
    CleanNormalForm(text);
    CleanIsCollapseThenStrip(r);
    CollapseFixesSingleSpaced(r);
    SeqAlgebra(r, [], []);
    StripPadded([], r, []);
  }
}
