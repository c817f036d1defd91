/** PunctuationExtractor: the counts of question and exclamation marks, and the two
    passes that replace punctuation by spaces. */
module Punctuation {
  import opened Text

  // ---------------------------------------------------------------------
  // Counting

  /** The class [?؟]: the ASCII question mark and U+061F, the Arabic question mark. */
  predicate IsQuestionMark(c: char) { c == '?' || c == '\U{061F}' }

  predicate IsExclamationMark(c: char) { c == '!' }

  /** A match of (\?!)|(!\?)|(؟!)|(!؟): a question mark and an exclamation mark
      side by side, in either order. */
  predicate IsPair(a: char, b: char)
  {
    (IsQuestionMark(a) && IsExclamationMark(b)) || (IsExclamationMark(a) && IsQuestionMark(b))
  }

  /** The number of non-overlapping pairs found scanning from the left; a matched pair
      is skipped as a whole. */
  function PairCount(s: string): nat
    decreases |s|
  {
    if |s| < 2 then 0
    else if IsPair(s[0], s[1]) then 1 + PairCount(s[2..])
    else PairCount(s[1..])
  }

  /** The three entries of the map getPunctuation returns, under "?", "!" and "?!". */
  datatype PunctuationCounts = PunctuationCounts(question: nat, exclamation: nat, both: nat)

  /** getPunctuation: three scanning loops, one per pattern. */
  method GetPunctuation(tweet: string) returns (punc: PunctuationCounts)
    ensures punc.question == |Filter(tweet, IsQuestionMark)|
    ensures punc.exclamation == |Filter(tweet, IsExclamationMark)|
    ensures punc.both == PairCount(tweet)
  {
    var nbOfInterrogation := 0;
    var i := 0;
    while i < |tweet|
      invariant 0 <= i <= |tweet|
      invariant nbOfInterrogation == |Filter(tweet[..i], IsQuestionMark)|
    {
      assert tweet[..i + 1] == tweet[..i] + [tweet[i]];
      FilterAppend(tweet[..i], [tweet[i]], IsQuestionMark);
      if IsQuestionMark(tweet[i]) {
        nbOfInterrogation := nbOfInterrogation + 1;
      }
      i := i + 1;
    }
    assert tweet[..i] == tweet;
    var nbOfExclamation := 0;
    i := 0;
    while i < |tweet|
      invariant 0 <= i <= |tweet|
      invariant nbOfExclamation == |Filter(tweet[..i], IsExclamationMark)|
    {
      assert tweet[..i + 1] == tweet[..i] + [tweet[i]];
      FilterAppend(tweet[..i], [tweet[i]], IsExclamationMark);
      if IsExclamationMark(tweet[i]) {
        nbOfExclamation := nbOfExclamation + 1;
      }
      i := i + 1;
    }
    assert tweet[..i] == tweet;
    var nbOfBoth := 0;
    i := 0;
    while i + 1 < |tweet|
      invariant 0 <= i <= |tweet|
      invariant nbOfBoth + PairCount(tweet[i..]) == PairCount(tweet)
    {
      assert tweet[i..][1..] == tweet[i + 1..];
      if IsPair(tweet[i], tweet[i + 1]) {
        assert tweet[i..][2..] == tweet[i + 2..];
        nbOfBoth := nbOfBoth + 1;
        i := i + 2;
      } else {
        i := i + 1;
      }
    }
    punc := PunctuationCounts(nbOfInterrogation, nbOfExclamation, nbOfBoth);
  }

  /** Every pair holds one question mark and one exclamation mark, and pairs do not
      overlap: there are no more pairs than marks of either kind. */
  lemma {:induction false} PairCountBound(s: string)
    ensures PairCount(s) <= |Filter(s, IsQuestionMark)|
    ensures PairCount(s) <= |Filter(s, IsExclamationMark)|
    decreases |s|
  {
    if |s| >= 2 {
      assert s[1..][1..] == s[2..];
      assert s[1..][0] == s[1];
      if IsPair(s[0], s[1]) {
        PairCountBound(s[2..]);
      } else {
        PairCountBound(s[1..]);
      }
    }
  }

  /** A mark takes part in one pair at most: "?!?" has one pair, "?!?!" two, and a
      question mark beside an Arabic question mark none. */
  lemma PairExamples()
    ensures PairCount("?!?") == 1
    ensures PairCount("?!?!") == 2
    ensures PairCount("?\U{061F}") == 0
  {
    assert "?!?"[2..] == "?";
    assert "?!?!"[2..] == "?!";
    assert "?!"[2..] == [];
    assert "?\U{061F}"[1..] == "\U{061F}";
  }

  // ---------------------------------------------------------------------
  // Replacing punctuation with spaces

  /** The class [ء-ي٠-٩ 0-9a-zA-Z;:.,?!؟(] of the pass that keeps some marks. */
  predicate IsRetained(c: char) { IsWordChar(c) || IsKeptPunct(c) }

  predicate IsNotRetained(c: char) { !IsRetained(c) }

  predicate IsNotWordChar(c: char) { !IsWordChar(c) }

  /** A run of retained characters cut after every kept mark, with the rest after the
      last mark as a final chunk when it is not empty; cur is the chunk read so far. */
  function ChunksFrom(w: string, cur: string): seq<string>
    decreases |w|
  {
    if w == [] then Flush(cur)
    else if IsKeptPunct(w[0]) then [cur + [w[0]]] + ChunksFrom(w[1..], [])
    else ChunksFrom(w[1..], cur + [w[0]])
  }

  function Chunks(w: string): seq<string> { ChunksFrom(w, []) }

  /** The chunks of every run, in order. */
  function ChunksOfRuns(runs: seq<string>): seq<string>
  {
    if runs == [] then [] else Chunks(runs[0]) + ChunksOfRuns(runs[1..])
  }

  /** What replaceAllPunctuationsWithSpace returns: with skipSome, every chunk of every
      maximal run of retained characters followed by a space; without it, every
      maximal run of letters, digits and spaces followed by a space. */
  function Replaced(tweet: string, skipSome: bool): string
  {
    if skipSome then Spaced(ChunksOfRuns(Pieces(tweet, IsNotRetained)))
    else Spaced(Pieces(tweet, IsNotWordChar))
  }

  /** replaceAllPunctuationsWithSpace: one of two matching loops. */
  method ReplaceAllPunctuationsWithSpace(tweet: string, skipSome: bool) returns (fixedTweet: string)
    ensures fixedTweet == Replaced(tweet, skipSome)
  {
    if skipSome {
      fixedTweet := KeepSomeMarks(tweet);
    } else {
      fixedTweet := StripMarks(tweet);
    }
  }

  /** The loop for skipSome: every match of [ء-ي٠-٩ 0-9a-zA-Z;:.,?!؟(]+, cut after
      its marks. */
  method KeepSomeMarks(tweet: string) returns (fixedTweet: string)
    ensures fixedTweet == Spaced(ChunksOfRuns(Pieces(tweet, IsNotRetained)))
  {
    fixedTweet := "";
    ghost var done: seq<string> := [];
    var pos := 0;
    while pos < |tweet|
      invariant pos <= |tweet|
      invariant done + ChunksOfRuns(Pieces(tweet[pos..], IsNotRetained)) == ChunksOfRuns(Pieces(tweet, IsNotRetained))
      invariant fixedTweet == Spaced(done)
      decreases |tweet| - pos
    {
      var start, end := FindRun(tweet, pos, IsRetained);
      if start == |tweet| {
        PiecesNone(tweet, IsNotRetained, pos);
        assert done + [] == done;
        break;
      }
      var word := tweet[start..end];
      KeepStep(tweet, pos, start, end, done);
      var text := SplitAfterMarks(word);
      SpacedAppend(done, Chunks(word));
      fixedTweet := fixedTweet + text;
      done := done + Chunks(word);
      pos := end;
    }
    if pos == |tweet| {
      assert tweet[pos..] == [];
      assert done + [] == done;
    }
  }

  /** One iteration of the skipSome loop: the run found next contributes its chunks. */
  lemma KeepStep(tweet: string, pos: nat, start: nat, end: nat, done: seq<string>)
    requires pos <= start < end <= |tweet|
    requires forall k :: pos <= k < start ==> !IsRetained(tweet[k])
    requires forall k :: start <= k < end ==> IsRetained(tweet[k])
    requires end < |tweet| ==> !IsRetained(tweet[end])
    requires done + ChunksOfRuns(Pieces(tweet[pos..], IsNotRetained)) == ChunksOfRuns(Pieces(tweet, IsNotRetained))
    ensures (done + Chunks(tweet[start..end])) + ChunksOfRuns(Pieces(tweet[end..], IsNotRetained))
            == ChunksOfRuns(Pieces(tweet, IsNotRetained))
  {
    PiecesRun(tweet, IsNotRetained, pos, start, end);
    var word, rest := tweet[start..end], Pieces(tweet[end..], IsNotRetained);
    assert ([word] + rest)[1..] == rest;
    assert ChunksOfRuns([word] + rest) == Chunks(word) + ChunksOfRuns(rest);
    AppendAssoc(done, Chunks(word), ChunksOfRuns(rest));
  }

  /** The inner loop for skipSome: one run, with a space after every kept mark and
      after the rest. */
  method SplitAfterMarks(word: string) returns (text: string)
    ensures text == Spaced(Chunks(word))
  {
    text := "";
    ghost var inner: seq<string> := [];
    var st := 0;
    var m := FindFirst(word, st, IsKeptPunct);
    assert word[st..] == word;
    while m < |word|
      invariant st <= m <= |word|
      invariant forall j :: st <= j < m ==> !IsKeptPunct(word[j])
      invariant m < |word| ==> IsKeptPunct(word[m])
      invariant inner + ChunksFrom(word[st..], []) == Chunks(word)
      invariant text == Spaced(inner)
      decreases |word| - st
    {
      ChunkLoopStep(word, st, m, inner);
      SpacedSnoc(inner, word[st..m + 1]);
      text := text + word[st..m + 1] + " ";
      inner := inner + [word[st..m + 1]];
      st := m + 1;
      m := FindFirst(word, st, IsKeptPunct);
    }
    ChunksTail(word, st);
    if st < |word| {
      SpacedSnoc(inner, word[st..]);
      text := text + word[st..] + " ";
      inner := inner + [word[st..]];
    } else {
      assert inner + [] == inner;
    }
  }

  /** The loop without skipSome: every match of [ء-ي٠-٩ 0-9a-zA-Z]+. */
  method StripMarks(tweet: string) returns (fixedTweet: string)
    ensures fixedTweet == Spaced(Pieces(tweet, IsNotWordChar))
  {
    fixedTweet := "";
    ghost var done: seq<string> := [];
    var pos := 0;
    while pos < |tweet|
      invariant pos <= |tweet|
      invariant done + Pieces(tweet[pos..], IsNotWordChar) == Pieces(tweet, IsNotWordChar)
      invariant fixedTweet == Spaced(done)
      decreases |tweet| - pos
    {
      var start, end := FindRun(tweet, pos, IsWordChar);
      if start == |tweet| {
        PiecesNone(tweet, IsNotWordChar, pos);
        assert done + [] == done;
        break;
      }
      PiecesRun(tweet, IsNotWordChar, pos, start, end);
      SpacedSnoc(done, tweet[start..end]);
      fixedTweet := fixedTweet + tweet[start..end] + " ";
      done := done + [tweet[start..end]];
      pos := end;
    }
    if pos == |tweet| {
      assert tweet[pos..] == [];
      assert done + [] == done;
    }
  }

  /** The next chunk ends at the next kept mark. */
  lemma ChunksStep(w: string, st: nat, m: nat)
    requires st <= m < |w|
    requires forall j :: st <= j < m ==> !IsKeptPunct(w[j])
    requires IsKeptPunct(w[m])
    ensures ChunksFrom(w[st..], []) == [w[st..m + 1]] + ChunksFrom(w[m + 1..], [])
  {
    ChunksSkip(w[st..m], w[m..], []);
    assert w[st..] == w[st..m] + w[m..];
    assert w[m..][1..] == w[m + 1..];
    assert [] + w[st..m] + [w[m]] == w[st..m + 1];
  }

  /** One iteration of the inner loop: the text up to and including the mark at m is
      the next chunk. */
  lemma ChunkLoopStep(word: string, st: nat, m: nat, inner: seq<string>)
    requires st <= m < |word|
    requires forall j :: st <= j < m ==> !IsKeptPunct(word[j])
    requires IsKeptPunct(word[m])
    requires inner + ChunksFrom(word[st..], []) == Chunks(word)
    ensures (inner + [word[st..m + 1]]) + ChunksFrom(word[m + 1..], []) == Chunks(word)
  {
    ChunksStep(word, st, m);
    AppendAssoc(inner, [word[st..m + 1]], ChunksFrom(word[m + 1..], []));
  }

  /** Without a further mark, the rest of the run is the last chunk. */
  lemma ChunksTail(w: string, st: nat)
    requires st <= |w|
    requires forall j :: st <= j < |w| ==> !IsKeptPunct(w[j])
    ensures ChunksFrom(w[st..], []) == Flush(w[st..])
  {
    ChunksSkip(w[st..], [], []);
    assert w[st..] + [] == w[st..];
    assert [] + w[st..] == w[st..];
  }

  lemma {:induction false} ChunksSkip(a: string, rest: string, cur: string)
    requires forall j :: 0 <= j < |a| ==> !IsKeptPunct(a[j])
    ensures ChunksFrom(a + rest, cur) == ChunksFrom(rest, cur + a)
  {
    if a == [] {
      assert a + rest == rest;
      assert cur + a == cur;
    } else {
      assert (a + rest)[0] == a[0];
      assert (a + rest)[1..] == a[1..] + rest;
      assert cur + [a[0]] + a[1..] == cur + a;
      ChunksSkip(a[1..], rest, cur + [a[0]]);
    }
  }

  // ---------------------------------------------------------------------
  // What the two passes keep

  /** Cutting a run into chunks loses nothing. */
  lemma {:induction false} ChunksFlatten(w: string, cur: string)
    ensures Flatten(ChunksFrom(w, cur)) == cur + w
    decreases |w|
  {
    if w == [] {
      assert cur + w == cur;
    } else if IsKeptPunct(w[0]) {
      ChunksFlatten(w[1..], []);
      FlattenAppend([cur + [w[0]]], ChunksFrom(w[1..], []));
      assert [cur + [w[0]]][1..] == [];
      assert w == [w[0]] + w[1..];
      AppendAssoc(cur, [w[0]], w[1..]);
    } else {
      ChunksFlatten(w[1..], cur + [w[0]]);
      assert w == [w[0]] + w[1..];
      AppendAssoc(cur, [w[0]], w[1..]);
    }
  }

  lemma {:induction false} ChunksOfRunsFlatten(runs: seq<string>)
    ensures Flatten(ChunksOfRuns(runs)) == Flatten(runs)
  {
    if runs != [] {
      ChunksOfRunsFlatten(runs[1..]);
      FlattenAppend(Chunks(runs[0]), ChunksOfRuns(runs[1..]));
      ChunksFlatten(runs[0], []);
      assert [] + runs[0] == runs[0];
    }
  }

  /** Stripping keeps every letter and digit, in order, and nothing else but spaces. */
  lemma StripKeepsLettersAndDigits(tweet: string)
    ensures Filter(Replaced(tweet, false), IsLetterOrDigit) == Filter(tweet, IsLetterOrDigit)
  {
    var runs := Pieces(tweet, IsNotWordChar);
    FilterSpaced(runs, IsLetterOrDigit);
    PiecesFlatten(tweet, IsNotWordChar, IsWordChar, []);
    assert [] + Filter(tweet, IsWordChar) == Filter(tweet, IsWordChar);
    FilterFilter(tweet, IsWordChar, IsLetterOrDigit);
  }

  /** Keeping some marks keeps every letter, digit and retained mark, in order: any
      class of retained characters other than the space reads the same before and
      after the pass. */
  lemma RetainKeepsClass(tweet: string, q: char -> bool)
    requires !q(' ')
    requires forall c :: q(c) ==> IsRetained(c)
    ensures Filter(Replaced(tweet, true), q) == Filter(tweet, q)
  {
    var runs := Pieces(tweet, IsNotRetained);
    FilterSpaced(ChunksOfRuns(runs), q);
    ChunksOfRunsFlatten(runs);
    PiecesFlatten(tweet, IsNotRetained, IsRetained, []);
    assert [] + Filter(tweet, IsRetained) == Filter(tweet, IsRetained);
    FilterFilter(tweet, IsRetained, q);
  }

  /** The stripping pass leaves only letters, digits and spaces. */
  lemma StripLeavesWordChars(tweet: string)
    ensures forall k :: 0 <= k < |Replaced(tweet, false)| ==> IsWordChar(Replaced(tweet, false)[k])
  {
    var runs := Pieces(tweet, IsNotWordChar);
    PiecesWellFormed(tweet, IsNotWordChar, []);
    SpacedClass(runs, IsWordChar);
  }

  /** The retaining pass leaves only retained characters, and every kept mark in its
      output is followed by a space. */
  lemma RetainSeparatesMarks(tweet: string)
    ensures forall k :: 0 <= k < |Replaced(tweet, true)| ==> IsRetained(Replaced(tweet, true)[k])
    ensures forall k :: 0 <= k < |Replaced(tweet, true)| && IsKeptPunct(Replaced(tweet, true)[k]) ==>
              k + 1 < |Replaced(tweet, true)| && Replaced(tweet, true)[k + 1] == ' '
  {
    var runs := Pieces(tweet, IsNotRetained);
    PiecesWellFormed(tweet, IsNotRetained, []);
    ChunksOfRunsShape(runs);
    SpacedClass(ChunksOfRuns(runs), IsRetained);
    SpacedMarksFollowed(ChunksOfRuns(runs));
  }

  /** In both modes the output is empty exactly when the input has no character of
      the mode's class. */
  lemma ReplacedEmpty(tweet: string, skipSome: bool)
    ensures Replaced(tweet, skipSome) == [] <==>
            forall k :: 0 <= k < |tweet| ==> !(if skipSome then IsRetained(tweet[k]) else IsWordChar(tweet[k]))
  {
    if skipSome {
      var runs := Pieces(tweet, IsNotRetained);
      PiecesWellFormed(tweet, IsNotRetained, []);
      PiecesFlatten(tweet, IsNotRetained, IsRetained, []);
      FilterNone(tweet, IsRetained);
      FlattenNone(runs);
      ChunksOfRunsFlatten(runs);
      SpacedNone(ChunksOfRuns(runs));
    } else {
      var runs := Pieces(tweet, IsNotWordChar);
      PiecesWellFormed(tweet, IsNotWordChar, []);
      PiecesFlatten(tweet, IsNotWordChar, IsWordChar, []);
      FilterNone(tweet, IsWordChar);
      FlattenNone(runs);
      SpacedNone(runs);
    }
  }

  /** A chunk is made of retained characters, with a kept mark at most at its end. */
  predicate ChunkShaped(w: string)
  {
    (forall j :: 0 <= j < |w| ==> IsRetained(w[j])) &&
    (forall j :: 0 <= j < |w| - 1 ==> !IsKeptPunct(w[j]))
  }

  lemma {:induction false} ChunksShape(w: string, cur: string)
    requires forall j :: 0 <= j < |w| ==> IsRetained(w[j])
    requires forall j :: 0 <= j < |cur| ==> IsRetained(cur[j]) && !IsKeptPunct(cur[j])
    ensures forall i :: 0 <= i < |ChunksFrom(w, cur)| ==> ChunkShaped(ChunksFrom(w, cur)[i])
    decreases |w|
  {
    if w != [] {
      if IsKeptPunct(w[0]) {
        ChunksShape(w[1..], []);
      } else {
        ChunksShape(w[1..], cur + [w[0]]);
      }
    }
  }

  lemma {:induction false} ChunksOfRunsShape(runs: seq<string>)
    requires forall i :: 0 <= i < |runs| ==> NoSep(runs[i], IsNotRetained)
    ensures forall i :: 0 <= i < |ChunksOfRuns(runs)| ==> ChunkShaped(ChunksOfRuns(runs)[i])
  {
    if runs != [] {
      ChunksShape(runs[0], []);
      ChunksOfRunsShape(runs[1..]);
    }
  }

  lemma {:induction false} SpacedClass(ws: seq<string>, p: char -> bool)
    requires p(' ')
    requires forall i, j :: 0 <= i < |ws| && 0 <= j < |ws[i]| ==> p(ws[i][j])
    ensures forall k :: 0 <= k < |Spaced(ws)| ==> p(Spaced(ws)[k])
  {
    if ws != [] {
      var init := ws[..|ws| - 1];
      assert forall i :: 0 <= i < |init| ==> init[i] == ws[i];
      SpacedClass(init, p);
      var last := ws[|ws| - 1];
      assert forall j :: 0 <= j < |last| ==> p(last[j]);
    }
  }

  lemma {:induction false} SpacedMarksFollowed(ws: seq<string>)
    requires forall i :: 0 <= i < |ws| ==> ChunkShaped(ws[i])
    ensures forall k :: 0 <= k < |Spaced(ws)| && IsKeptPunct(Spaced(ws)[k]) ==>
              k + 1 < |Spaced(ws)| && Spaced(ws)[k + 1] == ' '
  {
    if ws != [] {
      var init, last := ws[..|ws| - 1], ws[|ws| - 1];
      assert forall i :: 0 <= i < |init| ==> init[i] == ws[i];
      SpacedMarksFollowed(init);
      var pre := Spaced(init);
      var out := Spaced(ws);
      assert out == pre + last + " ";
      assert ChunkShaped(last);
      forall k | 0 <= k < |out| && IsKeptPunct(out[k])
        ensures k + 1 < |out| && out[k + 1] == ' '
      {
        if k < |pre| {
          assert out[k] == pre[k];
          assert out[k + 1] == pre[k + 1];
        } else if k < |pre| + |last| {
          assert out[k] == last[k - |pre|];
        }
      }
    }
  }
}
