/** Preprocessor.preprocess: the fixed sequence of passes over a tweet, the tokenizer
    over spaces, newlines and tabs, and the routing of each token to the word lists.
    The emoji extractor and the elongation remover are not part of this model; both
    are parameters. */
module Preprocessor {
  import opened Text
  import opened Punctuation
  import Normalizer
  import Emoticons
  import Negation

  /** The word that stands for a hashtag in the word lists. */
  const HashtagToken: string := "هاشتاغتوكن"

  /** The vectors the tokenizer loop fills, and its elongation counter. */
  datatype Words = Words(
    original: seq<string>,
    normalized: seq<string>,
    withPunctuation: seq<string>,
    hashtags: seq<seq<string>>,
    elongated: nat)

  const NoWords: Words := Words([], [], [], [], 0)

  /** The entries of the map preprocess returns; "?", "!" and "?!" are the three
      punctuation counts. */
  datatype Preprocessed = Preprocessed(
    negated: seq<bool>,
    emojis: seq<string>,
    original: seq<string>,
    hashtags: seq<seq<string>>,
    normalized: seq<string>,
    urls: bool,
    mentions: bool,
    emoticons: seq<string>,
    punctuation: PunctuationCounts,
    elongated: nat)

  // ---------------------------------------------------------------------
  // Specification

  /** The words extractWords finds in a string: its non-empty space-free pieces. */
  function SpaceSeparated(s: string): seq<string>
  {
    Pieces(s, IsSpace)
  }

  /** One token of the tokenizer loop. An elongation remover that returns the empty
      string makes charAt(0) throw: None. */
  function AddToken(acc: Words, w: string, removeElongation: string -> string): Option<Words>
  {
    var n := removeElongation(w);
    if |n| == 0 then None
    else
      var counted := acc.(original := acc.original + [w],
                          elongated := if n != w then acc.elongated + 1 else acc.elongated);
      if n[0] == '#' then
        Some(counted.(hashtags := counted.hashtags + [SpaceSeparated(Replaced(n, false))],
                      normalized := counted.normalized + [HashtagToken],
                      withPunctuation := counted.withPunctuation + [HashtagToken]))
      else
        Some(counted.(withPunctuation := counted.withPunctuation + SpaceSeparated(Replaced(n, true)),
                      normalized := counted.normalized + SpaceSeparated(Replaced(n, false))))
  }

  /** The tokens, in order, added to acc. */
  function Fold(acc: Words, tokens: seq<string>, removeElongation: string -> string): Option<Words>
    decreases |tokens|
  {
    if tokens == [] then Some(acc)
    else match AddToken(acc, tokens[0], removeElongation)
      case None => None
      case Some(next) => Fold(next, tokens[1..], removeElongation)
  }

  /** The tokens of a tweet: maximal runs free of spaces, newlines and tabs. */
  function Tokens(tweet: string): seq<string>
  {
    Pieces(tweet, IsBlank)
  }

  /** The text after the URL, mention, digit and Latin-letter passes, with whether
      each of the first two ran. */
  datatype Passes = Passes(urls: bool, mentions: bool, text: string)

  /** The URL pass runs only when hasURL holds; the mention check looks at its
      result. A pass that throws gives None. */
  function NormalizedText(t: string): Option<Passes>
  {
    var urls := Normalizer.HasURL(t);
    match (if urls then Normalizer.NormalizedURLs(t) else Some(t))
    case None => None
    case Some(u) =>
      var mentions := Normalizer.HasMention(u);
      match (if mentions then Normalizer.NormalizedMentions(u) else Some(u))
      case None => None
      case Some(v) =>
        Some(Passes(urls, mentions, Normalizer.NormalizedLatinLetters(Normalizer.NormalizedNumbers(v))))
  }

  /** What preprocess returns: emojis, then emoticons, then the punctuation counts on
      the emoticon-free text, then the normalizer passes, then the tokenizer. The
      negation flags come from the words that keep some punctuation. */
  function Preprocessing(tweet: string, getEmojis: string -> seq<string>, normalizeAllEmojis: string -> string,
                         order: seq<string>, removeElongation: string -> string,
                         negationWords: seq<string>): Option<Preprocessed>
    requires Emoticons.NonEmpty(order)
  {
    var emojiFree := normalizeAllEmojis(tweet);
    var t := Emoticons.ReplacedFrom(order, emojiFree, 0);
    var punctuation := PunctuationCounts(|Filter(t, IsQuestionMark)|, |Filter(t, IsExclamationMark)|, PairCount(t));
    match NormalizedText(t)
    case None => None
    case Some(ps) =>
      match Fold(NoWords, Tokens(ps.text), removeElongation)
      case None => None
      case Some(w) =>
        Some(Preprocessed(Negation.Mask(w.withPunctuation, negationWords), getEmojis(tweet), w.original,
                          w.hashtags, w.normalized, ps.urls, ps.mentions,
                          Emoticons.MatchesFrom(order, emojiFree, 0), punctuation, w.elongated))
  }

  // ---------------------------------------------------------------------
  // The Java loops

  /** extractWords: substrings between successive spaces, the non-empty ones kept. */
  method ExtractWords(word: string) returns (out: seq<string>)
    ensures out == SpaceSeparated(word)
    ensures forall k :: 0 <= k < |out| ==> out[k] != [] && NoSep(out[k], IsSpace)
    ensures Flatten(out) == Filter(word, NotSpaceChar)
  {
    var ind := IndexOfChar(word, ' ', 0);
    var start: nat := 0;
    out := [];
    while ind != -1
      invariant start <= |word|
      invariant ind == -1 || (start <= ind < |word| && word[ind] == ' ')
      invariant forall k :: start <= k < |word| && (ind == -1 || k < ind) ==> word[k] != ' '
      invariant out + SpaceSeparated(word[start..]) == SpaceSeparated(word)
      decreases |word| - start
    {
      var sub := word[start..ind];
      ExtractStep(word, start, ind, out);
      if |sub| > 0 {
        out := out + [sub];
      }
      start := ind + 1;
      ind := IndexOfChar(word, ' ', start);
    }
    ExtractTail(word, start, out);
    if start < |word| {
      out := out + [word[start..]];
    }
    PiecesWellFormed(word, IsSpace, []);
    PiecesFlatten(word, IsSpace, NotSpaceChar, []);
  }

  predicate NotSpaceChar(c: char) { !IsSpace(c) }

  /** One iteration of the extractWords loop: the text up to the space at ind is a
      word when it is not empty. */
  lemma ExtractStep(word: string, start: nat, ind: nat, out: seq<string>)
    requires start <= ind < |word| && word[ind] == ' '
    requires forall k :: start <= k < ind ==> word[k] != ' '
    requires out + SpaceSeparated(word[start..]) == SpaceSeparated(word)
    ensures (if start < ind then out + [word[start..ind]] else out) + SpaceSeparated(word[ind + 1..])
            == SpaceSeparated(word)
  {
    assert word[ind..][1..] == word[ind + 1..];
    assert SpaceSeparated(word[ind..]) == SpaceSeparated(word[ind + 1..]);
    if start < ind {
      PiecesRun(word, IsSpace, start, start, ind);
      AppendAssoc(out, [word[start..ind]], SpaceSeparated(word[ind..]));
    } else {
      assert word[start..] == word[ind..];
    }
  }

  /** After the last space the rest of the word, when not empty, is the last word. */
  lemma ExtractTail(word: string, start: nat, out: seq<string>)
    requires start <= |word|
    requires forall k :: start <= k < |word| ==> word[k] != ' '
    requires out + SpaceSeparated(word[start..]) == SpaceSeparated(word)
    ensures (if start < |word| then out + [word[start..]] else out) == SpaceSeparated(word)
  {
    if start < |word| {
      PiecesRun(word, IsSpace, start, start, |word|);
      assert word[start..|word|] == word[start..];
      assert SpaceSeparated(word[|word|..]) == [];
      assert [word[start..]] + [] == [word[start..]];
    } else {
      assert word[start..] == [];
      assert SpaceSeparated(word[start..]) == [];
      assert out + [] == out;
    }
  }

  /** The body of the tokenizer loop for one non-empty token: it goes to original,
      and its elongation-free form is routed to the hashtag lists or to the two word
      lists. */
  method Route(acc: Words, token: string, removeElongation: string -> string) returns (r: Option<Words>)
    ensures r == AddToken(acc, token, removeElongation)
  {
    var word := token;
    var original := acc.original + [word];
    var hashtags := acc.hashtags;
    var normalized := acc.normalized;
    var normalizedWithPunctuation := acc.withPunctuation;
    var numberOfElongatedWords := acc.elongated;
    var normalizedWord := removeElongation(word);
    if normalizedWord != word {
      numberOfElongatedWords := numberOfElongatedWords + 1;
      word := normalizedWord;
    }
    if |word| == 0 {
      return None;
    }
    if word[0] == '#' {
      word := ReplaceAllPunctuationsWithSpace(word, false);
      var hashtag := ExtractWords(word);
      hashtags := hashtags + [hashtag];
      normalized := normalized + [HashtagToken];
      normalizedWithPunctuation := normalizedWithPunctuation + [HashtagToken];
    } else {
      var wordWithSomePunc := ReplaceAllPunctuationsWithSpace(word, true);
      var words := ExtractWords(wordWithSomePunc);
      normalizedWithPunctuation := normalizedWithPunctuation + words;
      word := ReplaceAllPunctuationsWithSpace(word, false);
      words := ExtractWords(word);
      normalized := normalized + words;
    }
    r := Some(Words(original, normalized, normalizedWithPunctuation, hashtags, numberOfElongatedWords));
  }

  /** One pass of the outer tokenizer loop: separators in [from, start), then the
      token [start, end). */
  lemma TokenStep(tweet: string, from: nat, start: nat, end: nat, acc: Words, next: Option<Words>,
                  removeElongation: string -> string, whole: Option<Words>)
    requires from <= start < end <= |tweet|
    requires forall k :: from <= k < start ==> IsBlank(tweet[k])
    requires forall k :: start <= k < end ==> !IsBlank(tweet[k])
    requires end < |tweet| ==> IsBlank(tweet[end])
    requires Fold(acc, Tokens(tweet[from..]), removeElongation) == whole
    requires next == AddToken(acc, tweet[start..end], removeElongation)
    ensures next.None? ==> whole.None?
    ensures next.Some? ==> Fold(next.value, Tokens(tweet[end..]), removeElongation) == whole
  {
    PiecesRun(tweet, IsBlank, from, start, end);
    assert ([tweet[start..end]] + Tokens(tweet[end..]))[1..] == Tokens(tweet[end..]);
  }

  /** The two inner loops of the tokenizer: skip spaces, newlines and tabs from i,
      then read the token up to the next one. The token is tweet[start..end). */
  method NextToken(tweet: string, i: nat) returns (start: nat, word: string, end: nat)
    requires i < |tweet|
    ensures i <= start <= end <= |tweet| && i < end
    ensures word == tweet[start..end]
    ensures forall k :: i <= k < start ==> IsBlank(tweet[k])
    ensures forall k :: start <= k < end ==> !IsBlank(tweet[k])
    ensures end < |tweet| ==> IsBlank(tweet[end])
    ensures word == [] ==> end == |tweet|
  {
    end := i;
    word := "";
    var currentChar := tweet[end];
    while IsBlank(currentChar)
      invariant i <= end < |tweet|
      invariant currentChar == tweet[end]
      invariant forall k :: i <= k < end ==> IsBlank(tweet[k])
      decreases |tweet| - end
    {
      end := end + 1;
      if end < |tweet| {
        currentChar := tweet[end];
      } else {
        break;
      }
    }
    start := end;
    while !IsBlank(currentChar)
      invariant start <= end <= |tweet|
      invariant end < |tweet| ==> currentChar == tweet[end]
      invariant end == |tweet| ==> IsBlank(currentChar)
      invariant end == start ==> end == |tweet| || !IsBlank(currentChar)
      invariant word == tweet[start..end]
      invariant forall k :: start <= k < end ==> !IsBlank(tweet[k])
      decreases |tweet| - end
    {
      word := word + [currentChar];
      end := end + 1;
      if end < |tweet| {
        currentChar := tweet[end];
      } else {
        break;
      }
    }
  }

  /** The tokenizer loop of preprocess. */
  method Tokenize(tweet: string, removeElongation: string -> string) returns (r: Option<Words>)
    ensures r == Fold(NoWords, Tokens(tweet), removeElongation)
  {
    ghost var whole := Fold(NoWords, Tokens(tweet), removeElongation);
    var acc := NoWords;
    var i: nat := 0;
    while i < |tweet|
      invariant i <= |tweet|
      invariant Fold(acc, Tokens(tweet[i..]), removeElongation) == whole
      decreases |tweet| - i
    {
      var start, word, end := NextToken(tweet, i);
      if |word| != 0 {
        var next := Route(acc, word, removeElongation);
        TokenStep(tweet, i, start, end, acc, next, removeElongation, whole);
        if next.None? {
          return None;
        }
        acc := next.value;
      } else {
        PiecesNone(tweet, IsBlank, i);
        assert tweet[end..] == [];
      }
      i := end;
    }
    assert tweet[i..] == [];
    r := Some(acc);
  }

  /** preprocess */
  method Preprocess(tweet: string, getEmojis: string -> seq<string>, normalizeAllEmojis: string -> string,
                    order: seq<string>, removeElongation: string -> string,
                    negationWords: seq<string>) returns (r: Option<Preprocessed>)
    requires Emoticons.NonEmpty(order)
    ensures r == Preprocessing(tweet, getEmojis, normalizeAllEmojis, order, removeElongation, negationWords)
  {
    var emojis := getEmojis(tweet);
    var text := normalizeAllEmojis(tweet);
    var emoticons := Emoticons.GetEmoticons(text, order);
    text := Emoticons.NormalizeAllEmoticons(text, order);
    var punctuation := GetPunctuation(text);
    ghost var counted := text;
    var hasURLs := Normalizer.HasURL(text);
    if hasURLs {
      var u := Normalizer.NormalizeURLs(text);
      if u.None? {
        return None;
      }
      text := u.value;
    }
    var hasMentions := Normalizer.HasMention(text);
    if hasMentions {
      var m := Normalizer.NormalizeMentions(text);
      if m.None? {
        return None;
      }
      text := m.value;
    }
    text := Normalizer.NormalizeNumbers(text);
    text := Normalizer.NormalizeLatinLetters(text);
    assert NormalizedText(counted) == Some(Passes(hasURLs, hasMentions, text));
    var words := Tokenize(text, removeElongation);
    if words.None? {
      return None;
    }
    var w := words.value;
    var negated := Negation.IsNegated(w.withPunctuation, negationWords);
    r := Some(Preprocessed(negated, emojis, w.original, w.hashtags, w.normalized, hasURLs, hasMentions,
                           emoticons, punctuation, w.elongated));
  }

  // ---------------------------------------------------------------------
  // Properties

  /** The number of tokens the elongation remover changes. */
  function Changed(tokens: seq<string>, removeElongation: string -> string): nat
    decreases |tokens|
  {
    if tokens == [] then 0
    else (if removeElongation(tokens[0]) != tokens[0] then 1 else 0) + Changed(tokens[1..], removeElongation)
  }

  /** The number of tokens that start with '#' once elongation is removed. */
  function HashtagCount(tokens: seq<string>, removeElongation: string -> string): nat
    decreases |tokens|
  {
    if tokens == [] then 0
    else
      var n := removeElongation(tokens[0]);
      (if |n| > 0 && n[0] == '#' then 1 else 0) + HashtagCount(tokens[1..], removeElongation)
  }

  /** A fold keeps every token in original, counts the elongated ones and adds one
      word list per hashtag token. */
  lemma {:induction false} FoldCounts(acc: Words, tokens: seq<string>, removeElongation: string -> string)
    requires Fold(acc, tokens, removeElongation).Some?
    ensures Fold(acc, tokens, removeElongation).value.original == acc.original + tokens
    ensures Fold(acc, tokens, removeElongation).value.elongated == acc.elongated + Changed(tokens, removeElongation)
    ensures |Fold(acc, tokens, removeElongation).value.hashtags| == |acc.hashtags| + HashtagCount(tokens, removeElongation)
    decreases |tokens|
  {
    if tokens == [] {
      assert acc.original + tokens == acc.original;
    } else {
      var next := AddToken(acc, tokens[0], removeElongation).value;
      TokenCounts(acc, tokens[0], removeElongation);
      FoldCounts(next, tokens[1..], removeElongation);
      assert tokens == [tokens[0]] + tokens[1..];
      AppendAssoc(acc.original, [tokens[0]], tokens[1..]);
    }
  }

  /** One token adds itself to original, one to elongated when the remover changes it,
      and one hashtag word list when it starts with '#'. */
  lemma TokenCounts(acc: Words, w: string, removeElongation: string -> string)
    requires AddToken(acc, w, removeElongation).Some?
    ensures var next := AddToken(acc, w, removeElongation).value;
            var n := removeElongation(w);
            && next.original == acc.original + [w]
            && next.elongated == acc.elongated + (if n != w then 1 else 0)
            && |next.hashtags| == |acc.hashtags| + (if |n| > 0 && n[0] == '#' then 1 else 0)
  {
  }

  /** The fold fails exactly when the elongation remover empties some token. */
  lemma {:induction false} FoldFails(acc: Words, tokens: seq<string>, removeElongation: string -> string)
    ensures Fold(acc, tokens, removeElongation).None? <==>
            exists k :: 0 <= k < |tokens| && removeElongation(tokens[k]) == []
    decreases |tokens|
  {
    if tokens != [] {
      var a := AddToken(acc, tokens[0], removeElongation);
      if a.Some? {
        FoldFails(a.value, tokens[1..], removeElongation);
        if exists k :: 0 <= k < |tokens| && removeElongation(tokens[k]) == [] {
          var k :| 0 <= k < |tokens| && removeElongation(tokens[k]) == [];
          assert k > 0;
          assert tokens[1..][k - 1] == tokens[k];
        }
        if exists k :: 0 <= k < |tokens[1..]| && removeElongation(tokens[1..][k]) == [] {
          var k :| 0 <= k < |tokens[1..]| && removeElongation(tokens[1..][k]) == [];
          assert tokens[k + 1] == tokens[1..][k];
        }
      }
    }
  }

  /** The preprocessed original words are the tokens of the normalized text, each
      non-empty and free of spaces, newlines and tabs; elongated counts the tokens the
      remover changed; there is one word list per hashtag token. */
  lemma PreprocessedWords(tweet: string, getEmojis: string -> seq<string>, normalizeAllEmojis: string -> string,
                          order: seq<string>, removeElongation: string -> string,
                          negationWords: seq<string>, p: Preprocessed)
    requires Emoticons.NonEmpty(order)
    requires Preprocessing(tweet, getEmojis, normalizeAllEmojis, order, removeElongation, negationWords) == Some(p)
    ensures NormalizedText(Emoticons.ReplacedFrom(order, normalizeAllEmojis(tweet), 0)).Some?
    ensures var text := NormalizedText(Emoticons.ReplacedFrom(order, normalizeAllEmojis(tweet), 0)).value.text;
            && p.original == Tokens(text)
            && p.elongated == Changed(Tokens(text), removeElongation)
            && |p.hashtags| == HashtagCount(Tokens(text), removeElongation)
    ensures forall k :: 0 <= k < |p.original| ==> p.original[k] != [] && NoSep(p.original[k], IsBlank)
  {
    var text := NormalizedText(Emoticons.ReplacedFrom(order, normalizeAllEmojis(tweet), 0)).value.text;
    FoldCounts(NoWords, Tokens(text), removeElongation);
    PiecesWellFormed(text, IsBlank, []);
  }

  /** A token made of one full stop goes to the words with punctuation and not to the
      normalized words, so the two lists can differ in length. */
  lemma FullStopKeptWithPunctuation(removeElongation: string -> string)
    requires removeElongation(".") == "."
    ensures Fold(NoWords, ["."], removeElongation) == Some(Words(["."], [], ["."], [], 0))
  {
    FullStopPieces();
    var next := Words(["."], [], ["."], [], 0);
    assert [] + ["."] == ["."];
    assert AddToken(NoWords, ".", removeElongation) == Some(next);
    assert ["."][1..] == [];
  }

  /** "." is kept as a word with punctuation and dropped from the normalized words. */
  lemma FullStopPieces()
    ensures SpaceSeparated(Replaced(".", true)) == ["."]
    ensures SpaceSeparated(Replaced(".", false)) == []
  {
    assert IsKeptPunct('.');
    assert "."[1..] == [] && [] + ['.'] == ".";
    assert Pieces(".", IsNotRetained) == ["."];
    assert Chunks(".") == ["."];
    assert ChunksOfRuns(["."]) == ["."];
    assert Replaced(".", true) == ". ";
    assert PiecesFrom(" ", IsSpace, ".") == ["."];
    assert Pieces(".", IsNotWordChar) == [];
    assert Replaced(".", false) == [];
  }

  /** A hashtag token adds one hashtag word to each of the two word lists. */
  lemma HashtagRouting(acc: Words, w: string, removeElongation: string -> string)
    requires |removeElongation(w)| > 0 && removeElongation(w)[0] == '#'
    ensures AddToken(acc, w, removeElongation).Some?
    ensures var next := AddToken(acc, w, removeElongation).value;
            && next.normalized == acc.normalized + [HashtagToken]
            && next.withPunctuation == acc.withPunctuation + [HashtagToken]
            && next.hashtags == acc.hashtags + [SpaceSeparated(Replaced(removeElongation(w), false))]
  {
  }
}
