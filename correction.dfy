/** The spell-correction half of `normalize_text` (app.py:209-219): split the cleaned text
    into tokens, keep each token's correction only when it is a dictionary word, and join
    the chosen words with single spaces. The tokenizer, the corrector and the dictionary
    are parameters. */
module Correction {
  import opened Text
  import opened Cleaning

  /** A token as `str.split()` yields it: non-empty and its own first word, that is, free of
      whitespace (`WordMeans`). */
  predicate IsWord(w: string) {
    w != [] && TakeWord(w) == w
  }

  /** The longest prefix of `s` without whitespace. */
  function TakeWord(s: string): (w: string)
    ensures w <= s
    ensures |w| < |s| ==> IsWhitespace(s[|w|])
    ensures s != [] && !IsWhitespace(s[0]) ==> w != []
  {
    if s == [] || IsWhitespace(s[0]) then [] else [s[0]] + TakeWord(s[1..])
  }

  /** The prefix taken holds no whitespace. */
  lemma {:induction false} TakeWordChars(s: string)
    ensures forall j :: 0 <= j < |TakeWord(s)| ==> !IsWhitespace(TakeWord(s)[j])
    decreases |s|
  {
    if s != [] && !IsWhitespace(s[0]) {
      TakeWordChars(s[1..]);
      var w := TakeWord(s[1..]);
      assert TakeWord(s) == [s[0]] + w;
      assert forall j :: 0 < j <= |w| ==> TakeWord(s)[j] == w[j - 1];
    }
  }

  /** `str.split()`: the maximal whitespace-free pieces of `s`, in order. The model uses it
      as a stand-in tokenizer. */
  function SplitWords(s: string): seq<string>
    decreases |s|
  {
    var t := TrimLeft(s);
    if t == [] then []
    else
      var w := TakeWord(t);
      [w] + SplitWords(t[|w|..])
  }

  /** Every piece of a split is a word. */
  lemma {:induction false} SplitWordsAreWords(s: string)
    ensures forall k :: 0 <= k < |SplitWords(s)| ==> IsWord(SplitWords(s)[k])
    decreases |s|
  {
    var t := TrimLeft(s);
    if t != [] {
      var w := TakeWord(t);
      TakeWordTwice(t);
      assert IsWord(w);
      SplitWordsAreWords(t[|w|..]);
      var rest := SplitWords(t[|w|..]);
      var ws := SplitWords(s);
      assert ws == [w] + rest;
      forall k | 0 <= k < |ws|
        ensures IsWord(ws[k])
      {
        if k > 0 {
          assert ws[k] == rest[k - 1];
        }
      }
    } else {
      assert SplitWords(s) == [];
    }
  }

  /** The first word of a first word is itself. */
  lemma {:induction false} TakeWordTwice(s: string)
    ensures TakeWord(TakeWord(s)) == TakeWord(s)
    decreases |s|
  {
    if s != [] && !IsWhitespace(s[0]) {
      TakeWordTwice(s[1..]);
      var w := TakeWord(s);
      assert w == [s[0]] + TakeWord(s[1..]);
      assert w[1..] == TakeWord(s[1..]);
    }
  }

  /** A text with no whitespace is its own first word. */
  lemma {:induction false} TakeWordWhole(w: string)
    requires forall j :: 0 <= j < |w| ==> !IsWhitespace(w[j])
    ensures TakeWord(w) == w
    decreases |w|
  {
    if w != [] {
      TakeWordWhole(w[1..]);
      assert w == [w[0]] + w[1..];
    }
  }

  /** A word is exactly a non-empty text without whitespace. */
  lemma WordMeans(w: string)
    ensures IsWord(w) <==> w != [] && forall j :: 0 <= j < |w| ==> !IsWhitespace(w[j])
  {
    TakeWordChars(w);
    if w != [] && forall j :: 0 <= j < |w| ==> !IsWhitespace(w[j]) {
      TakeWordWhole(w);
    }
  }

  /** `' '.join(ws)`. */
  function JoinSpace(ws: seq<string>): string {
    if ws == [] then ""
    else if |ws| == 1 then ws[0]
    else ws[0] + " " + JoinSpace(ws[1..])
  }

  /** The first word of `w + rest`, where `rest` is empty or starts with whitespace, is `w`. */
  lemma {:induction false} TakeWordOf(w: string, rest: string)
    requires TakeWord(w) == w
    requires rest == [] || IsWhitespace(rest[0])
    ensures TakeWord(w + rest) == w
    decreases |w|
  {
    if w != [] {
      assert w == [w[0]] + TakeWord(w[1..]);
      assert (w + rest)[1..] == w[1..] + rest;
      TakeWordOf(w[1..], rest);
    } else {
      assert w + rest == rest;
    }
  }

  /** Leading whitespace does not change the words. */
  lemma SplitTrimmed(s: string)
    ensures SplitWords(s) == SplitWords(TrimLeft(s))
  {
    assert TrimLeft(TrimLeft(s)) == TrimLeft(s);
  }

  /** A text that starts with a word splits into that word and the words after it. */
  lemma SplitFirst(t: string)
    requires t != [] && !IsWhitespace(t[0])
    ensures SplitWords(t) == [TakeWord(t)] + SplitWords(t[|TakeWord(t)|..])
  {
    assert TrimLeft(t) == t;
  }

  /** In cleaned text, whitespace is a single space followed by more cleaned text. */
  lemma CleanAfterSpace(t: string, n: int)
    requires IsClean(t) && 0 <= n < |t| && IsWhitespace(t[n])
    ensures t[n] == ' ' && n + 1 < |t| && !IsWhitespace(t[n + 1])
    ensures t[n..] == [' '] + t[n + 1..]
    ensures IsClean(t[n + 1..])
  {
    assert CleanChar(t[n]);
    assert !(IsWhitespace(t[n]) && IsWhitespace(t[n + 1]));
    CollapsedSlice(t, n + 1, |t|);
    assert t[n + 1..|t|] == t[n + 1..];
  }

  /** A text cut after its first word and the space that follows it. */
  lemma Reassemble(t: string, w: string, u: string)
    requires w <= t && t[|w|..] == [' '] + u
    ensures t == w + " " + u
  {
    assert t == t[..|w|] + t[|w|..];
  }

  /** Cleaned text is one word, or a word, a single space and more cleaned text. */
  lemma CleanSplitStep(t: string)
    requires IsClean(t) && t != []
    ensures var w := TakeWord(t);
      || (w == t && SplitWords(t) == [t])
      || (&& |w| + 1 < |t|
          && IsClean(t[|w| + 1..])
          && SplitWords(t[|w| + 1..]) != []
          && SplitWords(t) == [w] + SplitWords(t[|w| + 1..])
          && t == w + " " + t[|w| + 1..])
  {
    var w := TakeWord(t);
    assert t[0] != ' ' && !IsWhitespace(t[0]);
    TakeWordTwice(t);
    assert IsWord(w);
    if |w| < |t| {
      var u := t[|w| + 1..];
      CleanAfterSpace(t, |w|);
      Reassemble(t, w, u);
      SplitBefore(w, u);
      SplitFirst(u);
    } else {
      assert w == t;
      assert t + [] == t;
      SplitAfterWord(t, []);
      assert SplitWords([]) == [] by {
        assert TrimLeft([]) == [];
      }
    }
  }

  /** Joining cleaned text's words back with single spaces gives the text. */
  lemma {:induction false} JoinSplit(t: string)
    requires IsClean(t)
    ensures JoinSpace(SplitWords(t)) == t
    decreases |t|
  {
    if t != [] {
      CleanSplitStep(t);
      var w := TakeWord(t);
      if w != t {
        JoinSplit(t[|w| + 1..]);
      }
    }
  }

  /** The first character of a join is that of its first word. */
  lemma JoinStarts(ws: seq<string>)
    requires ws != [] && ws[0] != []
    ensures JoinSpace(ws) != [] && JoinSpace(ws)[0] == ws[0][0]
  {
  }

  /** The last character of a join is that of its last word. */
  lemma {:induction false} JoinEnds(ws: seq<string>)
    requires ws != [] && ws[|ws| - 1] != []
    ensures JoinSpace(ws) != [] && JoinSpace(ws)[|JoinSpace(ws)| - 1] == ws[|ws| - 1][|ws[|ws| - 1]| - 1]
  {
    if |ws| > 1 {
      var tail := ws[1..];
      assert tail[|tail| - 1] == ws[|ws| - 1];
      JoinEnds(tail);
    }
  }

  /** A join of words neither starts nor ends with whitespace. */
  lemma JoinTrimmed(ws: seq<string>)
    requires forall k :: 0 <= k < |ws| ==> IsWord(ws[k])
    ensures var j := JoinSpace(ws);
      j != [] ==> !IsWhitespace(j[0]) && !IsWhitespace(j[|j| - 1])
  {
    if ws != [] {
      var first := ws[0];
      var last := ws[|ws| - 1];
      assert IsWord(first) && IsWord(last);
      WordMeans(first);
      WordMeans(last);
      JoinStarts(ws);
      JoinEnds(ws);
    }
  }

  /** A single word splits into itself. */
  lemma SplitOne(w: string)
    requires IsWord(w)
    ensures SplitWords(w) == [w]
  {
    SplitFirst(w);
    TakeWordOf(w, []);
    assert w + [] == w;
    assert w[|w|..] == [];
  }

  /** A word followed by nothing or by whitespace splits into the word and the words after it. */
  lemma SplitAfterWord(w: string, u: string)
    requires IsWord(w) && (u == [] || IsWhitespace(u[0]))
    ensures SplitWords(w + u) == [w] + SplitWords(u)
  {
    var j := w + u;
    TakeWordOf(w, u);
    assert j[|w|..] == u;
    assert j[0] == w[0];
    SplitFirst(j);
  }

  /** A word, a space and a text starting with a word split into the word and the text's words. */
  lemma SplitBefore(w: string, rest: string)
    requires IsWord(w) && rest != [] && !IsWhitespace(rest[0])
    ensures SplitWords(w + " " + rest) == [w] + SplitWords(rest)
  {
    assert w + " " + rest == w + (" " + rest);
    SplitAfterWord(w, " " + rest);
    TrimLeftSpace(rest);
    SplitTrimmed(" " + rest);
  }

  /** One space before a text that starts with a word is trimmed away. */
  lemma TrimLeftSpace(rest: string)
    requires rest != [] && !IsWhitespace(rest[0])
    ensures TrimLeft(" " + rest) == rest
  {
    assert (" " + rest)[1..] == rest;
    assert TrimLeft(rest) == rest;
  }

  /** Splitting a join of words gives the words back. */
  lemma {:induction false} SplitJoin(ws: seq<string>)
    requires forall k :: 0 <= k < |ws| ==> IsWord(ws[k])
    ensures SplitWords(JoinSpace(ws)) == ws
  {
    if ws == [] {
      assert TrimLeft("") == "";
    } else if |ws| == 1 {
      SplitOne(ws[0]);
    } else {
      var tail := ws[1..];
      assert forall k :: 0 <= k < |tail| ==> IsWord(tail[k]) by {
        forall k | 0 <= k < |tail|
          ensures IsWord(tail[k])
        {
          assert tail[k] == ws[k + 1];
        }
      }
      assert IsWord(ws[0]) && IsWord(ws[1]);
      SplitJoinStep(ws);
      SplitJoin(tail);
      assert [ws[0]] + tail == ws;
    }
  }

  /** Splitting a join of two or more words yields the first word, then the split of the
      join of the others. */
  lemma SplitJoinStep(ws: seq<string>)
    requires |ws| > 1 && IsWord(ws[0]) && IsWord(ws[1])
    ensures SplitWords(JoinSpace(ws)) == [ws[0]] + SplitWords(JoinSpace(ws[1..]))
  {
    var rest := JoinSpace(ws[1..]);
    assert JoinSpace(ws) == ws[0] + " " + rest;
    JoinStarts(ws[1..]);
    SplitBefore(ws[0], rest);
  }

  /** The word kept for one token: the corrector's suggestion when its lower-case form is a
      dictionary word, and otherwise the token itself. */
  function ChooseWord(word: string, correct: string -> string, dictionary: set<string>): string {
    var suggestion := correct(word);
    if Lower(suggestion) in dictionary then suggestion else word
  }

  /** The chosen word for every token, in token order. */
  function CorrectAll(words: seq<string>, correct: string -> string, dictionary: set<string>): seq<string> {
    seq(|words|, i requires 0 <= i < |words| => ChooseWord(words[i], correct, dictionary))
  }

  /** The correction loop: one output word per token, in order; a suggestion is kept exactly
      when its lower-case form is in the dictionary, and a rejected suggestion never appears. */
  method CorrectWords(words: seq<string>, correct: string -> string, dictionary: set<string>)
    returns (corrected: seq<string>)
    ensures |corrected| == |words|
    ensures forall i :: 0 <= i < |words| && Lower(correct(words[i])) in dictionary ==>
      corrected[i] == correct(words[i])
    ensures forall i :: 0 <= i < |words| && Lower(correct(words[i])) !in dictionary ==>
      corrected[i] == words[i]
  {
    corrected := [];
    for n := 0 to |words|
      invariant |corrected| == n
      invariant forall i :: 0 <= i < n && Lower(correct(words[i])) in dictionary ==>
        corrected[i] == correct(words[i])
      invariant forall i :: 0 <= i < n && Lower(correct(words[i])) !in dictionary ==>
        corrected[i] == words[i]
    {
      var word := words[n];
      var suggestion := correct(word);
      if Lower(suggestion) in dictionary {
        corrected := corrected + [suggestion];
      } else {
        corrected := corrected + [word];
      }
    }
  }

  /** What `normalize_text` returns: the cleaned text, split by `tokenize`, each token
      replaced by its chosen word, joined with single spaces. */
  ghost function Normalized(text: string, tokenize: string -> seq<string>,
                            correct: string -> string, dictionary: set<string>): string
  {
    JoinSpace(CorrectAll(tokenize(Cleanup(text)), correct, dictionary))
  }

  /** `normalize_text`: cleanup, then the correction loop, then the join. */
  method NormalizeText(text: string, tokenize: string -> seq<string>,
                       correct: string -> string, dictionary: set<string>)
    returns (normalized: string)
    ensures normalized == Normalized(text, tokenize, correct, dictionary)
  {
    var cleaned := Cleanup(text);
    var words := tokenize(cleaned);
    var corrected := CorrectWords(words, correct, dictionary);
    assert corrected == CorrectAll(words, correct, dictionary);
    normalized := JoinSpace(corrected);
  }

  /** When no accepted suggestion differs from its token (an empty dictionary, or a corrector
      that changes nothing), and tokens are the whitespace-separated words, normalizing is
      exactly the cleanup. */
  lemma DegradesToCleanup(text: string, correct: string -> string, dictionary: set<string>)
    requires forall w :: Lower(correct(w)) in dictionary ==> correct(w) == w
    ensures Normalized(text, SplitWords, correct, dictionary) == Cleanup(text)
  {
    KeepAll(SplitWords(Cleanup(text)), correct, dictionary);
    CleanupIsClean(text);
    JoinSplit(Cleanup(text));
  }

  /** When no accepted suggestion differs from its token, every token is kept. */
  lemma KeepAll(words: seq<string>, correct: string -> string, dictionary: set<string>)
    requires forall w :: Lower(correct(w)) in dictionary ==> correct(w) == w
    ensures CorrectAll(words, correct, dictionary) == words
  {
  }

  /** With the whitespace-separated words as tokens and a corrector that turns words into
      words, the normalized text splits back into exactly the chosen words: one per token
      of the cleaned text, in the same order. */
  lemma NormalizedWords(text: string, correct: string -> string, dictionary: set<string>)
    requires forall w :: IsWord(w) ==> IsWord(correct(w))
    ensures SplitWords(Normalized(text, SplitWords, correct, dictionary))
         == CorrectAll(SplitWords(Cleanup(text)), correct, dictionary)
  {
    SplitWordsAreWords(Cleanup(text));
    ChosenSplit(SplitWords(Cleanup(text)), correct, dictionary);
  }

  /** A corrector that turns words into words chooses only words, so the join of the chosen
      words splits back into them. */
  lemma ChosenSplit(words: seq<string>, correct: string -> string, dictionary: set<string>)
    requires forall w :: IsWord(w) ==> IsWord(correct(w))
    requires forall k :: 0 <= k < |words| ==> IsWord(words[k])
    ensures SplitWords(JoinSpace(CorrectAll(words, correct, dictionary)))
         == CorrectAll(words, correct, dictionary)
  {
    ChosenWords(words, correct, dictionary);
    SplitJoin(CorrectAll(words, correct, dictionary));
  }

  /** A corrector that turns words into words chooses only words. */
  lemma ChosenWords(words: seq<string>, correct: string -> string, dictionary: set<string>)
    requires forall w :: IsWord(w) ==> IsWord(correct(w))
    requires forall k :: 0 <= k < |words| ==> IsWord(words[k])
    ensures forall k :: 0 <= k < |words| ==> IsWord(CorrectAll(words, correct, dictionary)[k])
  {
  }
}
