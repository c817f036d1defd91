/** NGramExtractor: word n-grams over a space split and character n-grams. The
    vocabularies it loads from files are parameters of the feature extractor. */
module NGrams {
  import opened Text

  /** The words of a tweet as `str.split(" ")` yields them. */
  function Words(s: string): seq<string>
  {
    JavaSplit(s, ' ')
  }

  /** What concat(words, start, end) returns: words[start..end) joined by single
      spaces, and the empty string when start >= end. */
  function Concatenated(words: seq<string>, start: int, end: int): string
    requires start < end ==> 0 <= start && end <= |words|
  {
    if start >= end then [] else JoinWords(words[start..end])
  }

  /** The number of n-grams in a sequence of the given length: max(0, len - n + 1). */
  function GramCount(len: nat, n: int): nat
  {
    if len - n + 1 < 0 then 0 else len - n + 1
  }

  /** The list ngrams(n, str) returns. */
  function WordNgrams(n: int, s: string): seq<string>
  {
    var words := Words(s);
    seq(GramCount(|words|, n), i requires 0 <= i < GramCount(|words|, n) => Concatenated(words, i, i + n))
  }

  /** The list charNgrams(n, str) returns. */
  function CharNgrams(n: nat, s: string): seq<string>
  {
    seq(GramCount(|s|, n), i requires 0 <= i < GramCount(|s|, n) => s[i..i + n])
  }

  /** concat: the StringBuilder loop, a space before every word but the first. */
  method Concat(words: seq<string>, start: int, end: int) returns (s: string)
    requires start < end ==> 0 <= start && end <= |words|
    ensures s == Concatenated(words, start, end)
  {
    s := [];
    var i := start;
    while i < end
      invariant i == start || 0 <= start < i <= end <= |words|
      invariant s == Concatenated(words, start, i)
    {
      if i > start {
        s := s + [' '] + words[i];
        assert words[start..i + 1] == words[start..i] + [words[i]];
      } else {
        s := s + words[i];
        assert words[start..i + 1] == [words[i]];
      }
      i := i + 1;
    }
  }

  /** ngrams: one concat per window of n consecutive words. */
  method Ngrams(n: int, str: string) returns (grams: seq<string>)
    ensures grams == WordNgrams(n, str)
    ensures |grams| == (if |Words(str)| < n then 0 else |Words(str)| - n + 1)
    ensures forall i :: 0 <= i < |grams| ==> grams[i] == Concatenated(Words(str), i, i + n)
  {
    var words := Words(str);
    grams := [];
    var i := 0;
    while i < |words| - n + 1
      invariant 0 <= i <= GramCount(|words|, n)
      invariant |grams| == i
      invariant forall j :: 0 <= j < i ==> grams[j] == Concatenated(words, j, j + n)
    {
      var gram := Concat(words, i, i + n);
      grams := grams + [gram];
      i := i + 1;
    }
  }

  /** charNgrams: one substring per window of n consecutive characters. */
  method CharNgramsOf(n: nat, str: string) returns (grams: seq<string>)
    ensures grams == CharNgrams(n, str)
    ensures |grams| == (if |str| < n then 0 else |str| - n + 1)
    ensures forall i :: 0 <= i < |grams| ==> |grams[i]| == n && grams[i] == str[i..i + n]
  {
    grams := [];
    var i := 0;
    while i <= |str| - n
      invariant 0 <= i <= GramCount(|str|, n)
      invariant |grams| == i
      invariant forall j :: 0 <= j < i ==> grams[j] == str[j..j + n]
    {
      grams := grams + [str[i..i + n]];
      i := i + 1;
    }
  }

  // ---------------------------------------------------------------------
  // Properties

  /** concat of an empty window is empty; of a one-word window, that word. */
  lemma ConcatSmallWindows(words: seq<string>, s: nat)
    requires s < |words|
    ensures Concatenated(words, s, s) == []
    ensures Concatenated(words, s, s + 1) == words[s]
  {
    assert words[s..s + 1] == [words[s]];
  }

  /** The unigrams of a text are its words. */
  lemma UnigramsAreWords(s: string)
    ensures WordNgrams(1, s) == Words(s)
  {
    var words := Words(s);
    forall i | 0 <= i < |words|
      ensures WordNgrams(1, s)[i] == words[i]
    {
      ConcatSmallWindows(words, i);
    }
  }

  /** No word of a split holds a space. */
  lemma WordsHaveNoSpace(s: string)
    ensures forall k, i :: 0 <= k < |Words(s)| && 0 <= i < |Words(s)[k]| ==> Words(s)[k][i] != ' '
  {
    if s != [] {
      FieldsAvoidSep(s, ' ', []);
      var f := Fields(s, ' ');
      assert Words(s) == f[..|Words(s)|];
    }
  }

  /** Splitting a word n-gram on spaces gives back its window of n words. */
  lemma GramSplitsIntoWindow(n: int, s: string, i: nat)
    requires n >= 1 && i < |WordNgrams(n, s)|
    ensures Fields(WordNgrams(n, s)[i], ' ') == Words(s)[i..i + n]
  {
    var words := Words(s);
    assert i + n <= |words|;
    var window := words[i..i + n];
    assert WordNgrams(n, s)[i] == Concatenated(words, i, i + n) == JoinWords(window);
    WordsHaveNoSpace(s);
    forall k, j | 0 <= k < |window| && 0 <= j < |window[k]|
      ensures window[k][j] != ' '
    {
      assert window[k] == words[i + k];
    }
    SplitJoin(window);
  }

  /** Consecutive character n-grams overlap in n - 1 characters. */
  lemma CharNgramsOverlap(n: nat, s: string, i: nat)
    requires n >= 1 && i + 1 < |CharNgrams(n, s)|
    ensures CharNgrams(n, s)[i][1..] == CharNgrams(n, s)[i + 1][..n - 1]
  {
    assert CharNgrams(n, s)[i][1..] == s[i + 1..i + n];
  }
}
