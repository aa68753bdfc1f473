/**
  String primitives of Python's `str` that the modelled code relies on:
  whitespace as `str.isspace` (and `\s` in a `re` pattern) sees it,
  `strip`, `split`/`join` on one separator character, `startswith`,
  `endswith`, ASCII case mapping and decimal rendering of integers.
*/
module Text {

  /** The characters for which Python's `str.isspace()` holds; in a `str`
      pattern `\s` matches exactly these. */
  predicate IsSpace(c: char) {
    var n := c as int;
    (9 <= n <= 13) || (28 <= n <= 32) || n == 0x85 || n == 0xA0 || n == 0x1680
    || (0x2000 <= n <= 0x200A) || n == 0x2028 || n == 0x2029 || n == 0x202F
    || n == 0x205F || n == 0x3000
  }

  predicate AllSpace(s: string) {
    forall i :: 0 <= i < |s| ==> IsSpace(s[i])
  }

  /** Neither end of `s` is whitespace (what `strip` leaves behind). */
  predicate Trimmed(s: string) {
    s == [] || (!IsSpace(s[0]) && !IsSpace(s[|s| - 1]))
  }

  /** Length of the whitespace prefix of `s`. */
  function SpaceRun(s: string): (n: nat)
    ensures n <= |s| && AllSpace(s[..n])
    ensures n < |s| ==> !IsSpace(s[n])
  {
    if s != [] && IsSpace(s[0]) then 1 + SpaceRun(s[1..]) else 0
  }

  /** Length of the whitespace suffix of `s`. */
  function TrailingSpace(s: string): (n: nat)
    ensures n <= |s| && AllSpace(s[|s| - n..])
    ensures n < |s| ==> !IsSpace(s[|s| - 1 - n])
  {
    if s != [] && IsSpace(s[|s| - 1]) then
      var m := TrailingSpace(s[..|s| - 1]);
      TrailingStep(s, m);
      1 + m
    else 0
  }

  /** A whitespace run at the end of `s` minus its last character, followed
      by that whitespace character, is one run longer at the end of `s`. */
  lemma TrailingStep(s: string, m: nat)
    requires s != [] && IsSpace(s[|s| - 1]) && m <= |s| - 1
    requires AllSpace(s[..|s| - 1][|s| - 1 - m..])
    requires m < |s| - 1 ==> !IsSpace(s[..|s| - 1][|s| - 2 - m])
    ensures AllSpace(s[|s| - 1 - m..])
    ensures m + 1 < |s| ==> !IsSpace(s[|s| - 2 - m])
  {
    var init := s[..|s| - 1];
    assert s[|s| - 1 - m..] == init[|s| - 1 - m..] + [s[|s| - 1]];
    if m + 1 < |s| {
      assert s[|s| - 2 - m] == init[|s| - 2 - m];
    }
  }

  /** Python's `s.strip()` with no argument. */
  function Strip(s: string): string {
    var left := s[SpaceRun(s)..];
    left[..|left| - TrailingSpace(left)]
  }

  /** `strip` cuts `s` into leading whitespace, a trimmed middle (the
      result) and trailing whitespace. */
  lemma StripFacts(s: string)
    ensures Trimmed(Strip(s))
    ensures SpaceRun(s) + |Strip(s)| <= |s|
    ensures s == s[..SpaceRun(s)] + Strip(s) + s[SpaceRun(s) + |Strip(s)|..]
    ensures AllSpace(s[SpaceRun(s) + |Strip(s)|..])
  {
    StripTrimmed(s);
    StripSplitsInput(s);
    StripTailSpace(s);
  }

  lemma StripTrimmed(s: string)
    ensures Trimmed(Strip(s))
  {
    StripEnds(s, SpaceRun(s), s[SpaceRun(s)..], Strip(s));
  }

  lemma StripSplitsInput(s: string)
    ensures SpaceRun(s) + |Strip(s)| <= |s|
    ensures s == s[..SpaceRun(s)] + Strip(s) + s[SpaceRun(s) + |Strip(s)|..]
  {
    var a := SpaceRun(s);
    var left := s[a..];
    StripSplits(s, a, left, Strip(s));
  }

  lemma StripTailSpace(s: string)
    ensures SpaceRun(s) + |Strip(s)| <= |s|
    ensures AllSpace(s[SpaceRun(s) + |Strip(s)|..])
  {
    var a := SpaceRun(s);
    var left := s[a..];
    StripTail(s, a, left, Strip(s));
  }

  lemma StripEnds(s: string, a: nat, left: string, r: string)
    requires a == SpaceRun(s) && left == s[a..] && r == left[..|left| - TrailingSpace(left)]
    ensures Trimmed(r)
  {
    if r != [] {
      assert r[0] == s[a];
      assert r[|r| - 1] == left[|left| - 1 - TrailingSpace(left)];
    }
  }

  lemma StripSplits(s: string, a: nat, left: string, r: string)
    requires a <= |s| && left == s[a..] && r == left[..|left| - TrailingSpace(left)]
    ensures a + |r| <= |s|
    ensures s == s[..a] + r + s[a + |r|..]
  {
    assert r == s[a..a + |r|];
    ThreeParts(s, a, a + |r|);
  }

  lemma ThreeParts<T>(s: seq<T>, a: nat, b: nat)
    requires a <= b <= |s|
    ensures s == s[..a] + s[a..b] + s[b..]
  {
  }

  lemma MiddleSlice<T>(s: seq<T>, p: seq<T>, m: seq<T>, q: seq<T>)
    requires s == p + m + q
    ensures m == s[|p|..|p| + |m|]
  {
  }

  lemma StripTail(s: string, a: nat, left: string, r: string)
    requires a <= |s| && left == s[a..] && r == left[..|left| - TrailingSpace(left)]
    ensures a + |r| <= |s| && AllSpace(s[a + |r|..])
  {
    SuffixOfSuffix(s, a, |r|);
  }

  lemma SuffixOfSuffix<T>(s: seq<T>, a: nat, k: nat)
    requires a + k <= |s|
    ensures s[a..][k..] == s[a + k..]
  {
  }

  lemma {:induction false} SpaceRunPadded(w: string, t: string)
    requires AllSpace(w) && (t == [] || !IsSpace(t[0]))
    ensures SpaceRun(w + t) == |w|
  {
    if w != [] {
      assert (w + t)[1..] == w[1..] + t;
      SpaceRunPadded(w[1..], t);
    } else {
      assert w + t == t;
    }
  }

  lemma {:induction false} TrailingSpacePadded(t: string, w: string)
    requires AllSpace(w) && (t == [] || !IsSpace(t[|t| - 1]))
    ensures TrailingSpace(t + w) == |w|
  {
    if w != [] {
      assert (t + w)[..|t + w| - 1] == t + w[..|w| - 1];
      TrailingSpacePadded(t, w[..|w| - 1]);
    } else {
      assert t + w == t;
    }
  }

  /** `strip` removes exactly the whitespace around a trimmed core: the
      result of `strip` is the unique trimmed middle of its input. */
  lemma StripPadded(w1: string, core: string, w2: string)
    requires AllSpace(w1) && AllSpace(w2) && Trimmed(core)
    ensures Strip(w1 + core + w2) == core
  {
    var s := w1 + core + w2;
    if core == [] {
      assert s == (w1 + w2) + [];
      SpaceRunPadded(w1 + w2, []);
    } else {
      assert s == w1 + (core + w2);
      SpaceRunPadded(w1, core + w2);
      assert s[SpaceRun(s)..] == core + w2;
      TrailingSpacePadded(core, w2);
    }
  }

  lemma AllSpaceAppend(a: string, b: string)
    requires AllSpace(a) && AllSpace(b)
    ensures AllSpace(a + b)
  {
    forall i | 0 <= i < |a + b| ensures IsSpace((a + b)[i]) {
      if i >= |a| { assert (a + b)[i] == b[i - |a|]; }
    }
  }

  lemma StripPaddedMore(w: string, s: string, w1: string, core: string, w2: string)
    requires AllSpace(w) && AllSpace(w1) && AllSpace(w2) && Trimmed(core)
    requires s == w1 + core + w2
    ensures Strip(w + s) == core
  {
    AllSpaceAppend(w, w1);
    assert w + s == (w + w1) + core + w2;
    StripPadded(w + w1, core, w2);
  }

  /** Whitespace in front of a string never survives `strip`. */
  lemma StripDropsLeadingSpace(w: string, s: string)
    requires AllSpace(w)
    ensures Strip(w + s) == Strip(s)
  {
    var a := SpaceRun(s);
    var core := Strip(s);
    StripPaddedMore(w, s, s[..a], core, s[a + |core|..]);
  }

  lemma StripIdempotent(s: string)
    ensures Strip(Strip(s)) == Strip(s)
  {
    StripTrimmed(s);
    SeqAlgebra(Strip(s), [], []);
    StripPadded([], Strip(s), []);
  }

  /** Sequence algebra the string lemmas lean on: concatenation is
      associative and the empty sequence is its unit. */
  lemma SeqAlgebra<T>(a: seq<T>, b: seq<T>, c: seq<T>)
    ensures (a + b) + c == a + (b + c)
    ensures a == [] + a + [] && a == a + [] + []
  {
  }

  /** `strip` yields the empty string exactly for all-whitespace input. */
  lemma StripEmptyIff(s: string)
    ensures Strip(s) == [] <==> AllSpace(s)
  {
    if AllSpace(s) {
      SeqAlgebra(s, [], []);
      StripPadded(s, [], []);
    }
  }

  /** Position of the first `c` in `s`. */
  function IndexOf(s: string, c: char): (i: nat)
    requires c in s
    ensures i < |s| && s[i] == c && c !in s[..i]
  {
    if s[0] == c then 0 else 1 + IndexOf(s[1..], c)
  }

  /** Position of the last `c` in `s`. */
  function LastIndexOf(s: string, c: char): (i: nat)
    requires c in s
    ensures i < |s| && s[i] == c && c !in s[i + 1..]
  {
    if s[|s| - 1] == c then |s| - 1 else LastIndexOf(s[..|s| - 1], c)
  }

  /** Python's `s.split(sep)` for a one-character separator. */
  function Split(s: string, sep: char): (r: seq<string>)
    ensures |r| >= 1
    ensures forall k :: 0 <= k < |r| ==> sep !in r[k]
    decreases |s|
  {
    if sep !in s then [s]
    else
      var i := IndexOf(s, sep);
      [s[..i]] + Split(s[i + 1..], sep)
  }

  /** Python's `sep.join(lines)` for a one-character separator. */
  function Join(lines: seq<string>, sep: char): string {
    if |lines| == 0 then ""
    else if |lines| == 1 then lines[0]
    else lines[0] + [sep] + Join(lines[1..], sep)
  }

  lemma {:induction false} JoinSplit(s: string, sep: char)
    ensures Join(Split(s, sep), sep) == s
    decreases |s|
  {
    if sep in s {
      var i := IndexOf(s, sep);
      JoinSplit(s[i + 1..], sep);
      JoinCons(s[..i], Split(s[i + 1..], sep), sep);
      assert s == s[..i] + [sep] + s[i + 1..];
    }
  }

  lemma JoinCons(line: string, lines: seq<string>, sep: char)
    requires |lines| >= 1
    ensures Join([line] + lines, sep) == line + [sep] + Join(lines, sep)
  {
    assert ([line] + lines)[1..] == lines;
  }

  lemma {:induction false} SplitJoin(lines: seq<string>, sep: char)
    requires |lines| >= 1
    requires forall k :: 0 <= k < |lines| ==> sep !in lines[k]
    ensures Split(Join(lines, sep), sep) == lines
  {
    if |lines| > 1 {
      var rest := Join(lines[1..], sep);
      SplitJoin(lines[1..], sep);
      SplitCons(lines[0], sep, rest);
      JoinCons(lines[0], lines[1..], sep);
      assert lines == [lines[0]] + lines[1..];
    }
  }

  /** Splitting `line + [sep] + rest`, with no `sep` in `line`, yields
      `line` followed by the pieces of `rest`. */
  lemma SplitCons(line: string, sep: char, rest: string)
    requires sep !in line
    ensures Split(line + [sep] + rest, sep) == [line] + Split(rest, sep)
  {
    var s := line + [sep] + rest;
    assert s[|line|] == sep;
    assert s[..|line|] == line;
    assert s[|line| + 1..] == rest;
    assert IndexOf(s, sep) == |line|;
  }

  /** The first piece of a split is everything before the first separator. */
  lemma SplitHead(s: string, sep: char)
    ensures sep !in s ==> Split(s, sep)[0] == s
    ensures sep in s ==> Split(s, sep)[0] == s[..IndexOf(s, sep)]
    ensures sep in s ==> Split(s, sep)[1..] == Split(s[IndexOf(s, sep) + 1..], sep)
  {
  }

  predicate StartsWith(s: string, prefix: string) {
    |prefix| <= |s| && s[..|prefix|] == prefix
  }

  predicate EndsWith(s: string, suffix: string) {
    |suffix| <= |s| && s[|s| - |suffix|..] == suffix
  }

  function LowerChar(c: char): char {
    if 'A' <= c <= 'Z' then (c as int + 32) as char else c
  }

  function UpperChar(c: char): char {
    if 'a' <= c <= 'z' then (c as int - 32) as char else c
  }

  /** `s.lower()` on ASCII letters; other characters are kept. */
  function Lower(s: string): (r: string)
    ensures |r| == |s|
    ensures forall i :: 0 <= i < |s| ==> r[i] == LowerChar(s[i])
  {
    seq(|s|, i requires 0 <= i < |s| => LowerChar(s[i]))
  }

  /** `s.upper()` on ASCII letters; other characters are kept. */
  function Upper(s: string): (r: string)
    ensures |r| == |s|
    ensures forall i :: 0 <= i < |s| ==> r[i] == UpperChar(s[i])
  {
    seq(|s|, i requires 0 <= i < |s| => UpperChar(s[i]))
  }

  predicate IsDigit(c: char) {
    '0' <= c <= '9'
  }

  predicate AllDigits(s: string) {
    forall i :: 0 <= i < |s| ==> IsDigit(s[i])
  }

  /** Python's `str(n)` for a natural number. */
  function NatToString(n: nat): (r: string)
    ensures |r| >= 1 && AllDigits(r)
  {
    if n < 10 then [('0' as int + n) as char]
    else NatToString(n / 10) + [('0' as int + n % 10) as char]
  }

  /** Python's `str(n)`, with a leading `-` for negative numbers. */
  function IntToString(n: int): (r: string)
    ensures |r| >= 1
    ensures n >= 0 <==> IsDigit(r[0])
  {
    if n < 0 then "-" + NatToString(-n) else NatToString(n)
  }

  /** Python's `int(s)` on a non-empty string of ASCII digits. The empty
      string, on which `int` raises and which `str(n)` never produces, is
      read here as 0, the base case of the recursion. */
  function ParseNat(s: string): nat
    requires AllDigits(s)
  {
    if s == [] then 0
    else 10 * ParseNat(s[..|s| - 1]) + (s[|s| - 1] as int - '0' as int)
  }

  lemma {:induction false} ParseNatToString(n: nat)
    ensures ParseNat(NatToString(n)) == n
  {
    if n >= 10 {
      var s := NatToString(n);
      assert s[..|s| - 1] == NatToString(n / 10);
      ParseNatToString(n / 10);
    }
  }

  lemma NatToStringInjective(m: nat, n: nat)
    requires NatToString(m) == NatToString(n)
    ensures m == n
  {
    ParseNatToString(m);
    ParseNatToString(n);
  }

  /** The characters of `s` that are not whitespace, in order. */
  function NonSpace(s: string): (r: string)
    ensures forall i :: 0 <= i < |r| ==> !IsSpace(r[i])
  {
    if s == [] then []
    else if IsSpace(s[0]) then NonSpace(s[1..])
    else [s[0]] + NonSpace(s[1..])
  }

  lemma {:induction false} NonSpaceAppend(a: string, b: string)
    ensures NonSpace(a + b) == NonSpace(a) + NonSpace(b)
  {
    if a != [] {
      assert (a + b)[1..] == a[1..] + b;
      NonSpaceAppend(a[1..], b);
    } else {
      assert a + b == b;
    }
  }

  lemma {:induction false} NonSpaceOfSpace(w: string)
    requires AllSpace(w)
    ensures NonSpace(w) == []
  {
    if w != [] {
      NonSpaceOfSpace(w[1..]);
    }
  }

  lemma StripKeepsNonSpace(s: string)
    ensures NonSpace(Strip(s)) == NonSpace(s)
  {
    var a := SpaceRun(s);
    var r := Strip(s);
    StripFacts(s);
    NonSpaceAppend(s[..a] + r, s[a + |r|..]);
    NonSpaceAppend(s[..a], r);
    NonSpaceOfSpace(s[..a]);
    NonSpaceOfSpace(s[a + |r|..]);
  }
}
