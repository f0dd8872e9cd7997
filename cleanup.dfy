/** The three regular-expression rewrites and the final strip that `normalize_text`
    applies to raw OCR text before spell correction (app.py:204-206). */
module Cleaning {
  import opened Text

  /** The character class `[+@â€”_]`: plus, at sign, U+00E2, U+20AC, U+201D and underscore. */
  predicate IsNoise(c: char) {
    c == '+' || c == '@' || c == '\U{E2}' || c == '\U{20AC}' || c == '\U{201D}' || c == '_'
  }

  /** The character class `[.,]`. */
  predicate IsPunct(c: char) {
    c == '.' || c == ','
  }

  /** No two neighbouring characters of `s` both satisfy `p`. */
  ghost predicate NoAdjacent(s: string, p: char -> bool) {
    forall i :: 0 <= i < |s| - 1 ==> !(p(s[i]) && p(s[i + 1]))
  }

  /** The characters of `s` outside the class `p`, in order. */
  function Without(s: string, p: char -> bool): string
    decreases |s|
  {
    if s == [] then [] else if p(s[0]) then Without(s[1..], p) else [s[0]] + Without(s[1..], p)
  }

  /** `re.sub(r'[+@â€”_]', '', s)`: every noise character is deleted. */
  function RemoveNoise(s: string): string {
    Without(s, IsNoise)
  }

  /** What is left is noise-free. */
  lemma RemoveNoiseChars(s: string)
    ensures forall i :: 0 <= i < |RemoveNoise(s)| ==> NoiseFree(RemoveNoise(s)[i])
  {
    WithoutChars(s, IsNoise);
  }

  /** No character of the class is left. */
  lemma {:induction false} WithoutChars(s: string, p: char -> bool)
    ensures forall i :: 0 <= i < |Without(s, p)| ==> !p(Without(s, p)[i])
    decreases |s|
  {
    if s != [] {
      WithoutChars(s[1..], p);
    }
  }

  /** Deleting noise works piece by piece, so the kept characters stay in their order. */
  lemma RemoveNoiseAppend(a: string, b: string)
    ensures RemoveNoise(a + b) == RemoveNoise(a) + RemoveNoise(b)
  {
    WithoutAppend(a, b, IsNoise);
  }

  /** Filtering works piece by piece. */
  lemma {:induction false} WithoutAppend(a: string, b: string, p: char -> bool)
    ensures Without(a + b, p) == Without(a, p) + Without(b, p)
    decreases |a|
  {
    if a != [] {
      assert (a + b)[1..] == a[1..] + b;
      WithoutAppend(a[1..], b, p);
    } else {
      assert a + b == b;
    }
  }

  /** Text without noise characters is left as it is. */
  lemma RemoveNoiseFixed(s: string)
    requires forall i :: 0 <= i < |s| ==> !IsNoise(s[i])
    ensures RemoveNoise(s) == s
  {
    WithoutFixed(s, IsNoise);
  }

  /** A text with no character of the class is left as it is. */
  lemma {:induction false} WithoutFixed(s: string, p: char -> bool)
    requires forall i :: 0 <= i < |s| ==> !p(s[i])
    ensures Without(s, p) == s
    decreases |s|
  {
    if s != [] {
      WithoutFixed(s[1..], p);
    }
  }

  /** Drops the longest prefix of `s` whose characters all satisfy `p`. */
  function DropWhile(s: string, p: char -> bool): (r: string)
    ensures |r| <= |s|
    ensures r != [] ==> !p(r[0])
  {
    if s != [] && p(s[0]) then DropWhile(s[1..], p) else s
  }

  /** What is left is a suffix of `s`. */
  lemma {:induction false} DropWhileSuffix(s: string, p: char -> bool)
    ensures DropWhile(s, p) == s[|s| - |DropWhile(s, p)|..]
    decreases |s|
  {
    if s != [] && p(s[0]) {
      DropWhileSuffix(s[1..], p);
    }
  }

  /** `re.sub(P + '+', c, s)` for a one-character class P: every maximal run of characters
      satisfying `p` is replaced by the one character `c`; everything else is kept. */
  function CollapseRuns(s: string, p: char -> bool, c: char): (r: string)
    decreases |s|
    ensures s == [] <==> r == []
    ensures s != [] ==> r[0] == (if p(s[0]) then c else s[0])
  {
    if s == [] then []
    else if p(s[0]) then [c] + CollapseRuns(DropWhile(s[1..], p), p, c)
    else [s[0]] + CollapseRuns(s[1..], p, c)
  }

  /** Every character of the result is the replacement, or is outside the class and has
      every property `q` that all characters of the input have. */
  lemma {:induction false} CollapseRunsChars(s: string, p: char -> bool, c: char, q: char -> bool)
    requires forall i :: 0 <= i < |s| ==> q(s[i])
    ensures var r := CollapseRuns(s, p, c);
      forall i :: 0 <= i < |r| ==> r[i] == c || (q(r[i]) && !p(r[i]))
    decreases |s|
  {
    if s != [] {
      var r := CollapseRuns(s, p, c);
      if p(s[0]) {
        var t := DropWhile(s[1..], p);
        DropWhileSuffix(s[1..], p);
        assert forall i :: 0 <= i < |t| ==> t[i] == s[|s| - |t| + i];
        CollapseRunsChars(t, p, c, q);
        assert r == [c] + CollapseRuns(t, p, c);
      } else {
        assert forall i :: 0 < i < |s| ==> s[1..][i - 1] == s[i];
        CollapseRunsChars(s[1..], p, c, q);
        assert r == [s[0]] + CollapseRuns(s[1..], p, c);
      }
    }
  }

  /** Putting `x` in front of a text keeps it free of neighbouring `q` characters as long as
      `x` and the text's first character are not both `q` characters. */
  lemma NoAdjacentCons(x: char, u: string, q: char -> bool)
    requires NoAdjacent(u, q)
    requires u != [] && q(x) ==> !q(u[0])
    ensures NoAdjacent([x] + u, q)
  {
    var v := [x] + u;
    forall i | 0 < i < |v| - 1
      ensures !(q(v[i]) && q(v[i + 1]))
    {
      assert v[i] == u[i - 1] && v[i + 1] == u[i];
    }
  }

  /** A suffix of a text with no two neighbouring `q` characters has none either. */
  lemma NoAdjacentSuffix(s: string, t: string, q: char -> bool)
    requires |t| <= |s| && t == s[|s| - |t|..]
    requires NoAdjacent(s, q)
    ensures NoAdjacent(t, q)
  {
    NoAdjacentSlice(s, q, |s| - |t|, |s|);
    assert s[|s| - |t|..|s|] == t;
  }

  /** After collapsing, no two run characters are neighbours (the replacement is one of them). */
  lemma {:induction false} CollapseRunsSeparated(s: string, p: char -> bool, c: char)
    requires p(c)
    ensures NoAdjacent(CollapseRuns(s, p, c), p)
    decreases |s|
  {
    if s != [] {
      if p(s[0]) {
        var t := DropWhile(s[1..], p);
        CollapseRunsSeparated(t, p, c);
        NoAdjacentCons(c, CollapseRuns(t, p, c), p);
      } else {
        CollapseRunsSeparated(s[1..], p, c);
        NoAdjacentCons(s[0], CollapseRuns(s[1..], p, c), p);
      }
    }
  }

  /** Collapsing the runs of `p` cannot make two characters of a disjoint class `q` neighbours. */
  lemma {:induction false} CollapseRunsKeepsApart(s: string, p: char -> bool, c: char, q: char -> bool)
    requires !q(c)
    requires forall x :: q(x) ==> !p(x)
    requires NoAdjacent(s, q)
    ensures NoAdjacent(CollapseRuns(s, p, c), q)
    decreases |s|
  {
    if s != [] {
      var tail := s[1..];
      NoAdjacentSuffix(s, tail, q);
      if p(s[0]) {
        var t := DropWhile(tail, p);
        DropWhileSuffix(tail, p);
        NoAdjacentSuffix(tail, t, q);
        CollapseRunsKeepsApart(t, p, c, q);
        NoAdjacentCons(c, CollapseRuns(t, p, c), q);
      } else {
        CollapseRunsKeepsApart(tail, p, c, q);
        var u := CollapseRuns(tail, p, c);
        assert u != [] ==> u[0] == c || u[0] == s[1];
        NoAdjacentCons(s[0], u, q);
      }
    }
  }

  /** Dropping a leading run of `p` characters changes nothing outside the class. */
  lemma {:induction false} WithoutDropWhile(s: string, p: char -> bool)
    ensures Without(DropWhile(s, p), p) == Without(s, p)
    decreases |s|
  {
    if s != [] && p(s[0]) {
      WithoutDropWhile(s[1..], p);
    }
  }

  /** Collapsing the runs of `p` into a `p` character keeps every other character, in order. */
  lemma {:induction false} CollapseRunsKeepsOthers(s: string, p: char -> bool, c: char)
    requires p(c)
    ensures Without(CollapseRuns(s, p, c), p) == Without(s, p)
    decreases |s|
  {
    if s != [] {
      if p(s[0]) {
        var t := DropWhile(s[1..], p);
        var u := CollapseRuns(t, p, c);
        CollapseRunsKeepsOthers(t, p, c);
        WithoutDropWhile(s[1..], p);
        assert ([c] + u)[1..] == u;
      } else {
        var u := CollapseRuns(s[1..], p, c);
        CollapseRunsKeepsOthers(s[1..], p, c);
        assert ([s[0]] + u)[1..] == u;
      }
    }
  }

  /** A text whose runs are already single replacement characters is left as it is. */
  lemma {:induction false} CollapseRunsFixed(s: string, p: char -> bool, c: char)
    requires forall i :: 0 <= i < |s| ==> p(s[i]) ==> s[i] == c
    requires NoAdjacent(s, p)
    ensures CollapseRuns(s, p, c) == s
    decreases |s|
  {
    if s != [] {
      var tail := s[1..];
      NoAdjacentSuffix(s, tail, p);
      assert forall i :: 0 <= i < |tail| ==> tail[i] == s[i + 1];
      CollapseRunsFixed(tail, p, c);
      if p(s[0]) {
        assert tail != [] ==> !p(tail[0]);
        assert DropWhile(tail, p) == tail;
      }
      assert s == [s[0]] + tail;
    }
  }

  function CollapseWhitespace(s: string): string {
    CollapseRuns(s, IsWhitespace, ' ')
  }

  /** `re.sub(r'[.,]+', '.', s)`. */
  function CollapsePunct(s: string): string {
    CollapseRuns(s, IsPunct, '.')
  }

  /** The cleanup stage of `normalize_text`: the three rewrites in order, then `strip()`. */
  function Cleanup(s: string): string {
    Strip(CollapsePunct(CollapseWhitespace(RemoveNoise(s))))
  }

  /** A character that may appear in cleaned text: not noise, not a comma, and no
      whitespace other than the plain space. */
  predicate CleanChar(ch: char) {
    !IsNoise(ch) && ch != ',' && (IsWhitespace(ch) ==> ch == ' ')
  }

  /** The characters are clean, spaces are single and full stops are single. */
  ghost predicate Collapsed(t: string) {
    && (forall i :: 0 <= i < |t| ==> CleanChar(t[i]))
    && NoAdjacent(t, IsWhitespace)
    && NoAdjacent(t, IsPunct)
  }

  /** The shape every cleaned text has: collapsed, and no whitespace at either end. */
  ghost predicate IsClean(t: string) {
    Collapsed(t) && (t != [] ==> !IsWhitespace(t[0]) && !IsWhitespace(t[|t| - 1]))
  }

  /** No noise character is left. */
  ghost predicate NoNoise(t: string) {
    forall i :: 0 <= i < |t| ==> !IsNoise(t[i])
  }

  /** The only whitespace is the plain space, spaces are never neighbours, and the text
      neither starts nor ends with whitespace. */
  ghost predicate SingleSpaced(t: string) {
    && (forall i :: 0 <= i < |t| ==> IsWhitespace(t[i]) ==> t[i] == ' ')
    && (forall i, j :: 0 <= i && j == i + 1 && j < |t| ==> !(t[i] == ' ' && t[j] == ' '))
    && (t != [] ==> !IsWhitespace(t[0]) && !IsWhitespace(t[|t| - 1]))
  }

  /** No comma is left and full stops are never neighbours. */
  ghost predicate SinglePeriods(t: string) {
    && (forall i :: 0 <= i < |t| ==> t[i] != ',')
    && (forall i, j :: 0 <= i && j == i + 1 && j < |t| ==> !(t[i] == '.' && t[j] == '.'))
  }

  /** What IsClean says, spelled out character by character. */
  lemma CleanMeans(t: string)
    requires IsClean(t)
    ensures NoNoise(t) && SingleSpaced(t) && SinglePeriods(t)
  {
    forall i | 0 <= i < |t|
      ensures !IsNoise(t[i]) && t[i] != ',' && (IsWhitespace(t[i]) ==> t[i] == ' ')
    {
      assert CleanChar(t[i]);
    }
  }

  /** A slice of a text whose characters all satisfy `p` has only such characters too. */
  lemma EverySlice(s: string, p: char -> bool, k: int, m: int)
    requires 0 <= k <= m <= |s|
    requires forall i :: 0 <= i < |s| ==> p(s[i])
    ensures forall i :: 0 <= i < m - k ==> p(s[k..m][i])
  {
  }

  /** A slice of a text with no two neighbouring `p` characters has none either. */
  lemma NoAdjacentSlice(s: string, p: char -> bool, k: int, m: int)
    requires 0 <= k <= m <= |s|
    requires NoAdjacent(s, p)
    ensures NoAdjacent(s[k..m], p)
  {
    var t := s[k..m];
    forall i | 0 <= i < |t| - 1
      ensures !(p(t[i]) && p(t[i + 1]))
    {
      assert t[i] == s[k + i] && t[i + 1] == s[k + i + 1];
    }
  }

  /** A character that survives noise removal. */
  predicate NoiseFree(ch: char) {
    !IsNoise(ch)
  }

  /** A character that may appear once whitespace runs are collapsed. */
  predicate SpacedChar(ch: char) {
    ch == ' ' || (!IsNoise(ch) && !IsWhitespace(ch))
  }

  /** Every character of the collapsed text may appear in cleaned text. */
  lemma CollapsedCharacters(s: string)
    ensures var c := CollapsePunct(CollapseWhitespace(RemoveNoise(s)));
      forall i :: 0 <= i < |c| ==> CleanChar(c[i])
  {
    var a := RemoveNoise(s);
    var b := CollapseWhitespace(a);
    var c := CollapsePunct(b);
    RemoveNoiseChars(s);
    CollapseRunsChars(a, IsWhitespace, ' ', NoiseFree);
    assert b == CollapseRuns(a, IsWhitespace, ' ');
    forall i | 0 <= i < |b| ensures SpacedChar(b[i]) {
      assert b[i] == ' ' || (NoiseFree(b[i]) && !IsWhitespace(b[i]));
    }
    CollapseRunsChars(b, IsPunct, '.', SpacedChar);
    assert c == CollapseRuns(b, IsPunct, '.');
    forall i | 0 <= i < |c| ensures CleanChar(c[i]) {
      assert c[i] == '.' || (SpacedChar(c[i]) && !IsPunct(c[i]));
    }
  }

  /** The collapsed text has single spaces and single full stops, except perhaps at its ends. */
  lemma CollapsedSeparated(s: string)
    ensures var c := CollapsePunct(CollapseWhitespace(RemoveNoise(s)));
      NoAdjacent(c, IsWhitespace) && NoAdjacent(c, IsPunct)
  {
    var b := CollapseWhitespace(RemoveNoise(s));
    CollapseRunsSeparated(RemoveNoise(s), IsWhitespace, ' ');
    CollapseRunsKeepsApart(b, IsPunct, '.', IsWhitespace);
    CollapseRunsSeparated(b, IsPunct, '.');
  }

  /** Any collapsed text is clean once stripped. */
  lemma StrippedIsClean(c: string)
    requires Collapsed(c)
    ensures IsClean(Strip(c))
  {
    StripIsSlice(c);
    CollapsedSlice(c, StripStart(c), StripStart(c) + |Strip(c)|);
  }

  /** A slice of a collapsed text is collapsed. */
  lemma CollapsedSlice(c: string, k: int, m: int)
    requires 0 <= k <= m <= |c|
    requires Collapsed(c)
    ensures Collapsed(c[k..m])
  {
    EverySlice(c, CleanChar, k, m);
    NoAdjacentSlice(c, IsWhitespace, k, m);
    NoAdjacentSlice(c, IsPunct, k, m);
  }

  /** Whatever the input, the cleaned text has the shape IsClean describes. */
  lemma CleanupIsClean(s: string)
    ensures IsClean(Cleanup(s))
  {
    CollapsedCharacters(s);
    CollapsedSeparated(s);
    assert Collapsed(CollapsePunct(CollapseWhitespace(RemoveNoise(s))));
    StrippedIsClean(CollapsePunct(CollapseWhitespace(RemoveNoise(s))));
  }

  /** The cleaned texts are exactly the fixed points of cleanup. */
  lemma CleanFixedPoint(t: string)
    ensures Cleanup(t) == t <==> IsClean(t)
  {
    if IsClean(t) {
      RemoveNoiseFixed(t);
      CollapseRunsFixed(t, IsWhitespace, ' ');
      CollapseRunsFixed(t, IsPunct, '.');
      StripOfTrimmed(t);
    } else {
      CleanupIsClean(t);
    }
  }

  /** Cleaning cleaned text changes nothing. */
  lemma CleanupIdempotent(s: string)
    ensures Cleanup(Cleanup(s)) == Cleanup(s)
  {
    CleanupIsClean(s);
    CleanFixedPoint(Cleanup(s));
  }
}
