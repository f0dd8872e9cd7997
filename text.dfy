/** Character classes and the string primitives the detector uses: lower-casing,
    trimming (Python's `str.strip()`), and substring search (Python's `in` on strings). */
module Text {

  /** The whitespace matched by `\s` and removed by `str.strip()`, fixed to the six ASCII
      whitespace characters (space, tab, line feed, carriage return, vertical tab, form feed). */
  predicate IsWhitespace(c: char) {
    c == ' ' || c == '\t' || c == '\n' || c == '\r' || c == '\U{B}' || c == '\U{C}'
  }

  /** ASCII lower-casing of one character. */
  function LowerChar(c: char): char {
    if 'A' <= c <= 'Z' then (c as int + 32) as char else c
  }

  /** `str.lower()`, restricted to ASCII letters. */
  function Lower(s: string): (r: string)
    ensures |r| == |s|
  {
    seq(|s|, i requires 0 <= i < |s| => LowerChar(s[i]))
  }

  /** A text without capital letters is its own lower-case form. */
  lemma LowerOfLowercase(s: string)
    requires forall i :: 0 <= i < |s| ==> !('A' <= s[i] <= 'Z')
    ensures Lower(s) == s
  {
  }

  lemma LowerIdempotent(s: string)
    ensures Lower(Lower(s)) == Lower(s)
  {
  }

  /** Drops the leading whitespace of `s`. */
  function TrimLeft(s: string): (r: string)
    ensures |r| <= |s|
    ensures r != [] ==> !IsWhitespace(r[0])
  {
    if s != [] && IsWhitespace(s[0]) then TrimLeft(s[1..]) else s
  }

  /** What is left is a suffix of `s`. */
  lemma {:induction false} TrimLeftSuffix(s: string)
    ensures TrimLeft(s) == s[|s| - |TrimLeft(s)|..]
    decreases |s|
  {
    if s != [] && IsWhitespace(s[0]) {
      TrimLeftSuffix(s[1..]);
    }
  }

  /** Only whitespace is dropped at the start. */
  lemma {:induction false} TrimLeftDropsOnly(s: string)
    ensures forall i :: 0 <= i < |s| - |TrimLeft(s)| ==> IsWhitespace(s[i])
    decreases |s|
  {
    if s != [] && IsWhitespace(s[0]) {
      TrimLeftDropsOnly(s[1..]);
      assert forall i :: 0 < i < |s| ==> s[1..][i - 1] == s[i];
    }
  }

  /** Drops the trailing whitespace of `s`. */
  function TrimRight(s: string): (r: string)
    ensures |r| <= |s|
    ensures r != [] ==> r[0] == s[0] && !IsWhitespace(r[|r| - 1])
  {
    if s != [] && IsWhitespace(s[|s| - 1]) then TrimRight(s[..|s| - 1]) else s
  }

  /** What is left is a prefix of `s`. */
  lemma {:induction false} TrimRightPrefix(s: string)
    ensures TrimRight(s) == s[..|TrimRight(s)|]
    decreases |s|
  {
    if s != [] && IsWhitespace(s[|s| - 1]) {
      TrimRightPrefix(s[..|s| - 1]);
    }
  }

  /** Only whitespace is dropped at the end. */
  lemma {:induction false} TrimRightDropsOnly(s: string)
    ensures forall i :: |TrimRight(s)| <= i < |s| ==> IsWhitespace(s[i])
    decreases |s|
  {
    if s != [] && IsWhitespace(s[|s| - 1]) {
      TrimRightDropsOnly(s[..|s| - 1]);
    }
  }

  /** `str.strip()`: drops the whitespace at both ends. */
  function Strip(s: string): (r: string)
    ensures r != [] ==> !IsWhitespace(r[0]) && !IsWhitespace(r[|r| - 1])
  {
    TrimRight(TrimLeft(s))
  }

  /** Where the stripped text starts in `s`. */
  function StripStart(s: string): (k: nat)
    ensures k <= |s|
  {
    |s| - |TrimLeft(s)|
  }

  /** The stripped text is the slice of `s` that starts at `StripStart(s)`. */
  lemma StripIsSlice(s: string)
    ensures StripStart(s) + |Strip(s)| <= |s|
    ensures Strip(s) == s[StripStart(s)..StripStart(s) + |Strip(s)|]
  {
    TrimLeftSuffix(s);
    TrimRightPrefix(TrimLeft(s));
  }

  /** Everything outside the stripped slice is whitespace. */
  lemma StripRemovesWhitespace(s: string)
    ensures forall i :: 0 <= i < StripStart(s) ==> IsWhitespace(s[i])
    ensures forall i :: StripStart(s) + |Strip(s)| <= i < |s| ==> IsWhitespace(s[i])
  {
    var t := TrimLeft(s);
    var k := StripStart(s);
    TrimLeftSuffix(s);
    TrimLeftDropsOnly(s);
    TrimRightDropsOnly(t);
    forall i | k + |Strip(s)| <= i < |s|
      ensures IsWhitespace(s[i])
    {
      assert s[i] == t[i - k];
    }
  }

  /** A text that does not start or end with whitespace is its own strip. */
  lemma StripOfTrimmed(s: string)
    requires s != [] ==> !IsWhitespace(s[0]) && !IsWhitespace(s[|s| - 1])
    ensures Strip(s) == s
  {
  }

  lemma StripIdempotent(s: string)
    ensures Strip(Strip(s)) == Strip(s)
  {
    StripOfTrimmed(Strip(s));
  }

  /** `needle` occurs in `hay` starting at position `i`. */
  ghost predicate OccursAt(needle: string, hay: string, i: int) {
    0 <= i <= |hay| - |needle| && hay[i..i + |needle|] == needle
  }

  /** The declarative meaning of Python's `needle in hay` on strings: `needle` occurs as a
      contiguous slice of `hay`. The empty string occurs in every text. */
  ghost predicate IsSubstring(needle: string, hay: string) {
    exists i :: OccursAt(needle, hay, i)
  }

  /** Substring search by scanning the start positions of `hay` one by one. */
  function Contains(hay: string, needle: string): bool {
    if needle <= hay then true
    else if hay == [] then false
    else Contains(hay[1..], needle)
  }

  /** An occurrence in the tail of `hay` is an occurrence in `hay`, one position later,
      and every occurrence in `hay` after position 0 comes from one in its tail. */
  lemma OccursInTail(needle: string, hay: string, i: int)
    requires hay != [] && 0 < i
    ensures OccursAt(needle, hay, i) <==> OccursAt(needle, hay[1..], i - 1)
  {
    if 0 < i <= |hay| - |needle| {
      assert hay[i..i + |needle|] == hay[1..][i - 1..i - 1 + |needle|];
    }
  }

  /** The scan finds `needle` exactly when it occurs somewhere in `hay`. */
  lemma {:induction false} ContainsCorrect(hay: string, needle: string)
    ensures Contains(hay, needle) <==> IsSubstring(needle, hay)
    decreases |hay|
  {
    if needle <= hay {
      assert OccursAt(needle, hay, 0);
    } else if hay != [] {
      ContainsCorrect(hay[1..], needle);
      if IsSubstring(needle, hay[1..]) {
        var i :| OccursAt(needle, hay[1..], i);
        OccursInTail(needle, hay, i + 1);
      } else {
        forall i | OccursAt(needle, hay, i)
          ensures false
        {
          if i > 0 {
            OccursInTail(needle, hay, i);
          }
        }
      }
    } else {
      assert !OccursAt(needle, hay, 0);
    }
  }

  /** An occurrence of an occurrence is an occurrence: `in` on strings is transitive. */
  lemma SubstringTransitive(a: string, b: string, c: string)
    requires IsSubstring(a, b) && IsSubstring(b, c)
    ensures IsSubstring(a, c)
  {
    var i :| OccursAt(a, b, i);
    var j :| OccursAt(b, c, j);
    assert forall k :: 0 <= k < |b| ==> b[k] == c[j + k];
    assert c[j + i..j + i + |a|] == b[i..i + |a|];
    assert OccursAt(a, c, j + i);
  }

  /** Only the empty string occurs in the empty text. */
  lemma NothingInEmpty(needle: string)
    ensures IsSubstring(needle, "") <==> needle == ""
  {
    if needle == "" {
      assert OccursAt(needle, "", 0);
    }
  }
}
