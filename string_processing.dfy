/** Splitting text into words on the space character, and normalising a
    collection of stop words into a set. */
module StringProcessing {

  /** Length of the run of non-space characters that starts `s`. */
  function LeadingRun(s: string): (n: nat)
    ensures n <= |s|
    ensures forall k :: 0 <= k < n ==> s[k] != ' '
    ensures n < |s| ==> s[n] == ' '
  {
    if s == [] || s[0] == ' ' then 0 else 1 + LeadingRun(s[1..])
  }

  /** The words of `text`: its maximal runs of non-space characters, in order. */
  function Words(text: string): seq<string>
    decreases |text|
  {
    if text == [] then []
    else if text[0] == ' ' then Words(text[1..])
    else
      var n := LeadingRun(text);
      [text[..n]] + Words(text[n..])
  }

  /** `text` with every space character removed. */
  function RemoveSpaces(text: string): string
  {
    if text == [] then []
    else (if text[0] == ' ' then [] else [text[0]]) + RemoveSpaces(text[1..])
  }

  /** The words of a sequence written one after another. */
  function Concat(words: seq<string>): string
  {
    if words == [] then [] else words[0] + Concat(words[1..])
  }

  /** Position `k` starts a run: it holds a non-space character that is
      first or follows a space. */
  predicate RunStartsAt(text: string, k: nat)
    requires k < |text|
  {
    text[k] != ' ' && (k == 0 || text[k - 1] == ' ')
  }

  /** Number of runs that start before position `n`. */
  function RunsBefore(text: string, n: nat): nat
    requires n <= |text|
  {
    if n == 0 then 0 else RunsBefore(text, n - 1) + (if RunStartsAt(text, n - 1) then 1 else 0)
  }

  /** Number of maximal runs of non-space characters in `text`. */
  function RunCount(text: string): nat
  {
    RunsBefore(text, |text|)
  }

  lemma {:induction false} LeadingRunOfWord(w: string, rest: string)
    requires ' ' !in w
    requires rest == [] || rest[0] == ' '
    ensures LeadingRun(w + rest) == |w|
    decreases |w|
  {
    if w != [] {
      assert (w + rest)[1..] == w[1..] + rest;
      LeadingRunOfWord(w[1..], rest);
    }
  }

  /** A word followed by a space (or by nothing) comes out as one word. */
  lemma WordsOfWord(w: string, rest: string)
    requires w != [] && ' ' !in w
    requires rest == [] || rest[0] == ' '
    ensures Words(w + rest) == [w] + Words(rest)
  {
    LeadingRunOfWord(w, rest);
    assert (w + rest)[..|w|] == w;
    assert (w + rest)[|w|..] == rest;
  }

  /** Every word is non-empty and holds no space. */
  lemma {:induction false} WordsAreNonEmpty(text: string)
    ensures forall w :: w in Words(text) ==> w != [] && ' ' !in w
    decreases |text|
  {
    if text != [] {
      if text[0] == ' ' {
        WordsAreNonEmpty(text[1..]);
      } else {
        var n := LeadingRun(text);
        WordsAreNonEmpty(text[n..]);
        assert forall k :: 0 <= k < n ==> text[..n][k] != ' ';
      }
    }
  }

  lemma {:induction false} RemoveSpacesAppend(a: string, b: string)
    ensures RemoveSpaces(a + b) == RemoveSpaces(a) + RemoveSpaces(b)
    decreases |a|
  {
    if a != [] {
      assert (a + b)[1..] == a[1..] + b;
      RemoveSpacesAppend(a[1..], b);
    } else {
      assert a + b == b;
    }
  }

  lemma {:induction false} RemoveSpacesOfWord(w: string)
    requires ' ' !in w
    ensures RemoveSpaces(w) == w
    decreases |w|
  {
    if w != [] {
      RemoveSpacesOfWord(w[1..]);
      assert w == [w[0]] + w[1..];
    }
  }

  /** Writing the words one after another gives the text without its spaces. */
  lemma {:induction false} ConcatWords(text: string)
    ensures Concat(Words(text)) == RemoveSpaces(text)
    decreases |text|
  {
    if text != [] {
      if text[0] == ' ' {
        ConcatWords(text[1..]);
      } else {
        var n := LeadingRun(text);
        ConcatWords(text[n..]);
        assert text == text[..n] + text[n..];
        RemoveSpacesAppend(text[..n], text[n..]);
        assert ' ' !in text[..n] by {
          assert forall k :: 0 <= k < n ==> text[..n][k] != ' ';
        }
        RemoveSpacesOfWord(text[..n]);
        assert Words(text)[1..] == Words(text[n..]);
      }
    }
  }

  /** Text made only of spaces, empty text included, has no words. */
  lemma {:induction false} BlankHasNoWords(text: string)
    requires forall k :: 0 <= k < |text| ==> text[k] == ' '
    ensures Words(text) == []
    decreases |text|
  {
    if text != [] {
      BlankHasNoWords(text[1..]);
    }
  }

  /** At a space, the word collected so far (if any) is complete. */
  lemma WordsAtSpace(word: string, text: string, i: nat)
    requires i < |text| && text[i] == ' ' && ' ' !in word
    ensures Words(word + text[i..]) == (if word == [] then [] else [word]) + Words(text[i + 1..])
  {
    assert text[i..][1..] == text[i + 1..];
    if word != [] {
      WordsOfWord(word, text[i..]);
    } else {
      assert word + text[i..] == text[i..];
    }
  }

  lemma ShiftIntoWord(word: string, text: string, i: nat)
    requires i < |text|
    ensures word + text[i..] == (word + [text[i]]) + text[i + 1..]
  {
  }

  lemma WordsOfBuffer(word: string)
    requires ' ' !in word
    ensures Words(word) == if word == [] then [] else [word]
  {
    if word != [] {
      WordsOfWord(word, []);
      assert word + [] == word;
    }
  }

  /** Scanning from position `i` with `word` collected: the words still to
      come number the runs that start at or after `i`, plus the one in progress. */
  lemma {:induction false} WordsCountFrom(text: string, i: nat, word: string)
    requires i <= |text| && ' ' !in word
    requires word != [] <==> i > 0 && text[i - 1] != ' '
    ensures |Words(word + text[i..])| + RunsBefore(text, i) == RunCount(text) + (if word == [] then 0 else 1)
    decreases |text| - i
  {
    if i == |text| {
      assert word + text[i..] == word;
      WordsOfBuffer(word);
    } else if text[i] == ' ' {
      WordsAtSpace(word, text, i);
      assert [] + text[i + 1..] == text[i + 1..];
      WordsCountFrom(text, i + 1, []);
    } else {
      ShiftIntoWord(word, text, i);
      WordsCountFrom(text, i + 1, word + [text[i]]);
    }
  }

  /** The number of words equals the number of maximal runs of non-space characters. */
  lemma WordCountIsRunCount(text: string)
    ensures |Words(text)| == RunCount(text)
  {
    WordsCountFrom(text, 0, []);
    assert [] + text[0..] == text;
  }

  /** After scanning `text[..i]`: the finished words followed by the words
      still to come from the buffer and the rest of the text are the words of
      the whole text. */
  ghost predicate Scanned(text: string, i: nat, words: seq<string>, word: string)
    requires i <= |text|
  {
    ' ' !in word && words + Words(word + text[i..]) == Words(text)
  }

  lemma ScanSpace(text: string, i: nat, words: seq<string>, word: string)
    requires i < |text| && text[i] == ' '
    requires Scanned(text, i, words, word)
    ensures word == [] ==> Scanned(text, i + 1, words, [])
    ensures word != [] ==> Scanned(text, i + 1, words + [word], [])
  {
    WordsAtSpace(word, text, i);
    assert [] + text[i + 1..] == text[i + 1..];
  }

  lemma ScanChar(text: string, i: nat, words: seq<string>, word: string)
    requires i < |text| && text[i] != ' '
    requires Scanned(text, i, words, word)
    ensures Scanned(text, i + 1, words, word + [text[i]])
  {
    ShiftIntoWord(word, text, i);
  }

  lemma ScanEnd(text: string, words: seq<string>, word: string)
    requires Scanned(text, |text|, words, word)
    ensures word == [] ==> words == Words(text)
    ensures word != [] ==> words + [word] == Words(text)
  {
    assert word + text[|text|..] == word;
    WordsOfBuffer(word);
  }

  /** `SplitIntoWords`: scans the text once, collecting characters into a
      buffer that is flushed into the result at each space and at the end. */
  method SplitIntoWords(text: string) returns (words: seq<string>)
    ensures words == Words(text)
  {
    words := [];
    var word: string := [];
    var i := 0;
    assert word + text[i..] == text;
    while i < |text|
      invariant 0 <= i <= |text|
      invariant Scanned(text, i, words, word)
    {
      var c := text[i];
      if c == ' ' {
        ScanSpace(text, i, words, word);
        if word != [] {
          words := words + [word];
          word := [];
        }
      } else {
        ScanChar(text, i, words, word);
        word := word + [c];
      }
      i := i + 1;
    }
    ScanEnd(text, words, word);
    if word != [] {
      words := words + [word];
    }
  }

  /** `str.data()` read back as a C string: the characters before the first NUL. */
  function CString(s: string): (r: string)
    ensures |r| <= |s| && r == s[..|r|]
    ensures '\0' !in r
    ensures |r| < |s| ==> s[|r|] == '\0'
  {
    if s == [] || s[0] == '\0' then [] else [s[0]] + CString(s[1..])
  }

  lemma {:induction false} CStringOfPlain(s: string)
    requires '\0' !in s
    ensures CString(s) == s
    decreases |s|
  {
    if s != [] {
      CStringOfPlain(s[1..]);
      assert s == [s[0]] + s[1..];
    }
  }

  /** `MakeUniqueNonEmptyStrings`: inserts every non-empty string of the
      container into a set. The insertion goes through `str.data()`, so a
      string is cut at its first NUL character. */
  method MakeUniqueNonEmptyStrings(strings: seq<string>) returns (r: set<string>)
    ensures r == set s | s in strings && s != [] :: CString(s)
    ensures forall s :: s in strings && s != [] && '\0' !in s ==> s in r
    ensures "" in r <==> exists s :: s in strings && s != [] && s[0] == '\0'
  {
    r := {};
    var i := 0;
    while i < |strings|
      invariant 0 <= i <= |strings|
      invariant r == set s | s in strings[..i] && s != [] :: CString(s)
    {
      var str := strings[i];
      assert strings[..i + 1] == strings[..i] + [str];
      assert (set s | s in strings[..i + 1] && s != [] :: CString(s))
          == r + (if str != [] then {CString(str)} else {});
      if str != [] {
        r := r + {CString(str)};
      }
      i := i + 1;
    }
    assert strings[..i] == strings;
    forall s | s in strings && s != [] && '\0' !in s
      ensures s in r
    {
      CStringOfPlain(s);
    }
  }
}
