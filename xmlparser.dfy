/** XMLParser: the request segments written for the morphological analyser, the
    positional reading of its response segments, and the namespace edit of the
    request file. The analyser and the DOM are not part of this model: a request is
    a sequence of (id, text) segments and a response a sequence of word lists. */
module XMLParser {
  import opened Text
  import opened Preprocessor

  // ---------------------------------------------------------------------
  // Request segments

  /** The id attribute of an in_seg element: "tweet" or "hashtag" and a number. */
  datatype SegId = TweetId(i: nat) | HashtagId(j: nat)

  function Attribute(id: SegId): (r: string)
    ensures id.TweetId? ==> r == "tweet" + NatToString(id.i)
    ensures id.HashtagId? ==> r == "hashtag" + NatToString(id.j)
  {
    match id
    case TweetId(i) => "tweet" + NatToString(i)
    case HashtagId(j) => "hashtag" + NatToString(j)
  }

  /** An in_seg element: its id and its text. */
  datatype InSeg = InSeg(id: SegId, text: string)

  /** The segment of tweet i and, with hashtags, one segment per hashtag. Hashtag ids
      restart at 0 for every tweet. */
  function TweetSegments(p: Preprocessed, i: nat, withHashtags: bool): (r: seq<InSeg>)
    ensures |r| == 1 + (if withHashtags then |p.hashtags| else 0)
  {
    [InSeg(TweetId(i), Spaced(p.normalized))]
      + (if withHashtags then HashtagSegments(p.hashtags) else [])
  }

  function HashtagSegments(hashtags: seq<seq<string>>): (r: seq<InSeg>)
    ensures |r| == |hashtags|
  {
    seq(|hashtags|, j requires 0 <= j < |hashtags| => InSeg(HashtagId(j), Spaced(hashtags[j])))
  }

  /** The segments of the first m tweets, in order. */
  function SegmentsUpTo(tweets: seq<Preprocessed>, withHashtags: bool, m: nat): seq<InSeg>
    requires m <= |tweets|
  {
    if m == 0 then []
    else SegmentsUpTo(tweets, withHashtags, m - 1) + TweetSegments(tweets[m - 1], m - 1, withHashtags)
  }

  /** The children inputXML gives the in_doc element, in order. */
  function InputSegments(tweets: seq<Preprocessed>, withHashtags: bool): seq<InSeg>
  {
    SegmentsUpTo(tweets, withHashtags, |tweets|)
  }

  /** The number of segments of one tweet. */
  function Width(p: Preprocessed, withHashtags: bool): nat
  {
    1 + (if withHashtags then |p.hashtags| else 0)
  }

  /** The index of the segment of tweet m: the number of segments of the tweets
      before it. */
  function Offset(tweets: seq<Preprocessed>, withHashtags: bool, m: nat): nat
    requires m <= |tweets|
  {
    if m == 0 then 0 else Offset(tweets, withHashtags, m - 1) + Width(tweets[m - 1], withHashtags)
  }

  /** The number of hashtags of the first m tweets. */
  function HashtagTotal(tweets: seq<Preprocessed>, m: nat): nat
    requires m <= |tweets|
  {
    if m == 0 then 0 else HashtagTotal(tweets, m - 1) + |tweets[m - 1].hashtags|
  }

  /** inputXML: one segment per tweet, then its hashtag segments. */
  method InputXML(tweets: seq<Preprocessed>, withHashtags: bool) returns (segments: seq<InSeg>)
    ensures segments == InputSegments(tweets, withHashtags)
  {
    segments := [];
    for i := 0 to |tweets|
      invariant segments == SegmentsUpTo(tweets, withHashtags, i)
    {
      var tweetText := SpacedText(tweets[i].normalized);
      var added := [InSeg(TweetId(i), tweetText)];
      if withHashtags {
        var hashtags := tweets[i].hashtags;
        var hs: seq<InSeg> := [];
        for j := 0 to |hashtags|
          invariant |hs| == j
          invariant forall n :: 0 <= n < j ==> hs[n] == InSeg(HashtagId(n), Spaced(hashtags[n]))
        {
          var hashtagText := SpacedText(hashtags[j]);
          hs := hs + [InSeg(HashtagId(j), hashtagText)];
        }
        assert hs == HashtagSegments(hashtags);
        added := added + hs;
      }
      segments := segments + added;
    }
  }

  /** Offset(m) counts the segments of the first m tweets. */
  lemma {:induction false} OffsetCounts(tweets: seq<Preprocessed>, withHashtags: bool, m: nat)
    requires m <= |tweets|
    ensures |SegmentsUpTo(tweets, withHashtags, m)| == Offset(tweets, withHashtags, m)
  {
    if m > 0 {
      OffsetCounts(tweets, withHashtags, m - 1);
    }
  }

  /** Segment offsets grow with the tweet index. */
  lemma {:induction false} OffsetGrows(tweets: seq<Preprocessed>, withHashtags: bool, a: nat, b: nat)
    requires a <= b <= |tweets|
    ensures Offset(tweets, withHashtags, a) <= Offset(tweets, withHashtags, b)
    ensures a < b ==> Offset(tweets, withHashtags, a) + Width(tweets[a], withHashtags) <= Offset(tweets, withHashtags, b)
    decreases b - a
  {
    if a < b {
      OffsetGrows(tweets, withHashtags, a, b - 1);
    }
  }

  /** The segments of the first a tweets begin those of the first b. */
  lemma {:induction false} SegmentsPrefix(tweets: seq<Preprocessed>, withHashtags: bool, a: nat, b: nat)
    requires a <= b <= |tweets|
    ensures |SegmentsUpTo(tweets, withHashtags, a)| <= |SegmentsUpTo(tweets, withHashtags, b)|
    ensures SegmentsUpTo(tweets, withHashtags, b)[..|SegmentsUpTo(tweets, withHashtags, a)|]
            == SegmentsUpTo(tweets, withHashtags, a)
    decreases b - a
  {
    if a == b {
      assert SegmentsUpTo(tweets, withHashtags, b)[..|SegmentsUpTo(tweets, withHashtags, b)|]
          == SegmentsUpTo(tweets, withHashtags, b);
    } else {
      SegmentsPrefix(tweets, withHashtags, a, b - 1);
      var s := SegmentsUpTo(tweets, withHashtags, b - 1);
      var t := TweetSegments(tweets[b - 1], b - 1, withHashtags);
      var n := |SegmentsUpTo(tweets, withHashtags, a)|;
      assert (s + t)[..n] == s[..n];
    }
  }

  /** There are n + Σ|hashtags| segments with hashtags, and n without. */
  lemma {:induction false} SegmentCount(tweets: seq<Preprocessed>, withHashtags: bool, m: nat)
    requires m <= |tweets|
    ensures |SegmentsUpTo(tweets, withHashtags, m)| == m + (if withHashtags then HashtagTotal(tweets, m) else 0)
  {
    OffsetCounts(tweets, withHashtags, m);
    if m > 0 {
      SegmentCount(tweets, withHashtags, m - 1);
    }
  }

  /** Segment j of tweet m is segment Offset(m) + j of the first b tweets, m < b. */
  lemma {:induction false} SegmentAt(tweets: seq<Preprocessed>, withHashtags: bool, b: nat, m: nat, j: nat)
    requires m < b <= |tweets| && j < Width(tweets[m], withHashtags)
    ensures Offset(tweets, withHashtags, m) + j < |SegmentsUpTo(tweets, withHashtags, b)|
    ensures SegmentsUpTo(tweets, withHashtags, b)[Offset(tweets, withHashtags, m) + j]
            == TweetSegments(tweets[m], m, withHashtags)[j]
    decreases b
  {
    OffsetCounts(tweets, withHashtags, b - 1);
    var before := SegmentsUpTo(tweets, withHashtags, b - 1);
    var last := TweetSegments(tweets[b - 1], b - 1, withHashtags);
    var whole := SegmentsUpTo(tweets, withHashtags, b);
    var k := Offset(tweets, withHashtags, m) + j;
    assert whole == before + last;
    if b - 1 > m {
      SegmentAt(tweets, withHashtags, b - 1, m, j);
    }
    Text.ConcatAt(before, last, whole, k);
  }

  /** The segments of tweet m sit at Offset(m) of the request. */
  lemma OwnSegments(tweets: seq<Preprocessed>, withHashtags: bool, m: nat)
    requires m < |tweets|
    ensures Offset(tweets, withHashtags, m) + Width(tweets[m], withHashtags) <= |InputSegments(tweets, withHashtags)|
    ensures forall j :: 0 <= j < Width(tweets[m], withHashtags) ==>
              InputSegments(tweets, withHashtags)[Offset(tweets, withHashtags, m) + j]
              == TweetSegments(tweets[m], m, withHashtags)[j]
  {
    OffsetGrows(tweets, withHashtags, m, |tweets|);
    OffsetCounts(tweets, withHashtags, |tweets|);
    forall j | 0 <= j < Width(tweets[m], withHashtags)
      ensures InputSegments(tweets, withHashtags)[Offset(tweets, withHashtags, m) + j]
              == TweetSegments(tweets[m], m, withHashtags)[j]
    {
      SegmentAt(tweets, withHashtags, |tweets|, m, j);
    }
  }

  /** The layout inputXML writes: tweet m at Offset(m), ... */
  lemma TweetLayout(tweets: seq<Preprocessed>, withHashtags: bool, m: nat)
    requires m < |tweets|
    ensures Offset(tweets, withHashtags, m + 1) <= |InputSegments(tweets, withHashtags)|
    ensures InputSegments(tweets, withHashtags)[Offset(tweets, withHashtags, m)]
            == InSeg(TweetId(m), Spaced(tweets[m].normalized))
  {
    OffsetGrows(tweets, withHashtags, m + 1, |tweets|);
    OffsetCounts(tweets, withHashtags, |tweets|);
    SegmentAt(tweets, withHashtags, |tweets|, m, 0);
  }

  /** ... then, with hashtags, its hashtag n at Offset(m) + 1 + n, numbered from 0. */
  lemma HashtagLayout(tweets: seq<Preprocessed>, m: nat, n: nat)
    requires m < |tweets| && n < |tweets[m].hashtags|
    ensures Offset(tweets, true, m) + 1 + n < |InputSegments(tweets, true)|
    ensures InputSegments(tweets, true)[Offset(tweets, true, m) + 1 + n]
            == InSeg(HashtagId(n), Spaced(tweets[m].hashtags[n]))
  {
    SegmentAt(tweets, true, |tweets|, m, 1 + n);
    OffsetCounts(tweets, true, |tweets|);
    assert TweetSegments(tweets[m], m, true)[1 + n] == HashtagSegments(tweets[m].hashtags)[n];
  }

  /** Two tweets with a hashtag each get two different segments with the same id,
      "hashtag0". */
  lemma HashtagIdsRepeat(tweets: seq<Preprocessed>, a: nat, b: nat)
    requires a < b < |tweets| && |tweets[a].hashtags| > 0 && |tweets[b].hashtags| > 0
    ensures Offset(tweets, true, a) + 1 < Offset(tweets, true, b) + 1 < |InputSegments(tweets, true)|
    ensures InputSegments(tweets, true)[Offset(tweets, true, a) + 1].id
            == InputSegments(tweets, true)[Offset(tweets, true, b) + 1].id
    ensures Attribute(InputSegments(tweets, true)[Offset(tweets, true, b) + 1].id) == "hashtag0"
  {
    OffsetGrows(tweets, true, a, b);
    HashtagLayout(tweets, a, 0);
    HashtagLayout(tweets, b, 0);
    assert NatToString(0) == "0";
  }

  // ---------------------------------------------------------------------
  // Response segments

  /** The lemma and pos attributes of the second morph_feature_set of a word. */
  datatype Morph = Morph(lemmaText: string, pos: string)

  /** A word element of an out_seg: its word attribute and, when the analyser
      analysed it, its second morph_feature_set. */
  datatype Word = Word(word: string, morph: Option<Morph>)

  /** The cleaned lemma: the part of the lemma before its first '_'. */
  function Cleaned(lemmaText: string): (r: string)
    ensures |r| <= |lemmaText| && r == lemmaText[..|r|]
    ensures !HasChar(r, '_')
    ensures |r| < |lemmaText| ==> lemmaText[|r|] == '_'
    ensures r == lemmaText <==> !HasChar(lemmaText, '_')
  {
    lemmaText[..FirstIndex(lemmaText, '_')]
  }

  /** The lemma of a word; an unanalysed word keeps its surface form. */
  function WordLemma(w: Word): string
  {
    match w.morph
    case None => w.word
    case Some(m) => Cleaned(m.lemmaText)
  }

  /** The tag p holds after the first i words: the pos of the last analysed one, or
      "" if there is none. */
  function TagAfter(words: seq<Word>, i: nat): string
    requires i <= |words|
  {
    if i == 0 then ""
    else match words[i - 1].morph
      case None => TagAfter(words, i - 1)
      case Some(m) => m.pos
  }

  /** The tag each word is tallied under. */
  function Tags(words: seq<Word>): seq<string>
  {
    seq(|words|, i requires 0 <= i < |words| => TagAfter(words, i + 1))
  }

  function SegmentLemmas(words: seq<Word>): seq<string>
  {
    seq(|words|, i requires 0 <= i < |words| => WordLemma(words[i]))
  }

  /** The POS tallies of a segment, a count per tag. */
  function SegmentPos(words: seq<Word>): (r: multiset<string>)
    ensures |r| == |words|
  {
    multiset(Tags(words))
  }

  /** The three vectors outputXML puts in its map. */
  datatype Analysis = Analysis(lemmas: seq<seq<string>>, pos: seq<multiset<string>>, hashtags: seq<seq<seq<string>>>)

  const NoAnalysis: Analysis := Analysis([], [], [])

  function Join(a: Analysis, b: Analysis): Analysis
  {
    Analysis(a.lemmas + b.lemmas, a.pos + b.pos, a.hashtags + b.hashtags)
  }

  /** The lemmas and the POS tallies of every response segment. */
  function AllLemmas(segments: seq<seq<Word>>): (r: seq<seq<string>>)
    ensures |r| == |segments|
  {
    if segments == [] then []
    else AllLemmas(segments[..|segments| - 1]) + [SegmentLemmas(segments[|segments| - 1])]
  }

  function AllPos(segments: seq<seq<Word>>): (r: seq<multiset<string>>)
    ensures |r| == |segments|
  {
    if segments == [] then []
    else AllPos(segments[..|segments| - 1]) + [SegmentPos(segments[|segments| - 1])]
  }

  lemma {:induction false} AllAt(segments: seq<seq<Word>>, k: nat)
    requires k < |segments|
    ensures AllLemmas(segments)[k] == SegmentLemmas(segments[k])
    ensures AllPos(segments)[k] == SegmentPos(segments[k])
  {
    var init := segments[..|segments| - 1];
    if k < |init| {
      AllAt(init, k);
      assert init[k] == segments[k];
    }
  }

  /** What outputXML reads for tweets m and after, from the lemmas ls and the tallies
      ps of the response segments, tweet m being at segment k. A missing segment
      makes the reader throw; the handler keeps what was read. */
  function ReadFrom(ls: seq<seq<string>>, ps: seq<multiset<string>>, tweets: seq<Preprocessed>, withHashtags: bool, m: nat, k: nat): Analysis
    requires |ls| == |ps| && m <= |tweets|
    decreases |tweets| - m
  {
    if m == |tweets| || k >= |ls| then NoAnalysis
    else
      var read := Analysis([ls[k]], [ps[k]], []);
      var next := k + Width(tweets[m], withHashtags);
      if !withHashtags then Join(read, ReadFrom(ls, ps, tweets, withHashtags, m + 1, next))
      else if next > |ls| then read
      else Join(read.(hashtags := [ls[k + 1..next]]), ReadFrom(ls, ps, tweets, withHashtags, m + 1, next))
  }

  function OutputAnalysis(segments: seq<seq<Word>>, tweets: seq<Preprocessed>, withHashtags: bool): Analysis
  {
    ReadFrom(AllLemmas(segments), AllPos(segments), tweets, withHashtags, 0, 0)
  }

  /** The loop that copies the lemma up to its first '_'. */
  method CleanLemma(lemmaText: string) returns (cleaned: string)
    ensures cleaned == Cleaned(lemmaText)
  {
    cleaned := "";
    var j := 0;
    while j < |lemmaText|
      invariant j <= FirstIndex(lemmaText, '_')
      invariant cleaned == lemmaText[..j]
    {
      if lemmaText[j] != '_' {
        cleaned := cleaned + [lemmaText[j]];
      } else {
        break;
      }
      j := j + 1;
    }
  }

  /** The tags after i and after i + 1 words. */
  lemma TagStep(words: seq<Word>, i: nat)
    requires i < |words|
    ensures Tags(words)[..i + 1] == Tags(words)[..i] + [TagAfter(words, i + 1)]
    ensures TagAfter(words, i + 1) == if words[i].morph.None? then TagAfter(words, i) else words[i].morph.value.pos
  {
    assert Tags(words)[..i + 1] == Tags(words)[..i] + [Tags(words)[i]];
  }

  /** The word loop of a tweet segment: its lemmas and its POS tallies. */
  method ReadTweet(words: seq<Word>) returns (v: seq<string>, pV: multiset<string>)
    ensures v == SegmentLemmas(words)
    ensures pV == SegmentPos(words)
  {
    var lemmaText := "";
    var p := "";
    v := [];
    pV := multiset{};
    for i := 0 to |words|
      invariant |v| == i
      invariant forall j :: 0 <= j < i ==> v[j] == WordLemma(words[j])
      invariant p == TagAfter(words, i)
      invariant pV == multiset(Tags(words)[..i])
    {
      TagStep(words, i);
      var word := words[i];
      var cleaned := "";
      if word.morph.None? {
        cleaned := word.word;
      } else {
        lemmaText := word.morph.value.lemmaText;
        cleaned := CleanLemma(lemmaText);
        p := word.morph.value.pos;
      }
      v := v + [cleaned];
      pV := pV + multiset{p};
    }
    assert Tags(words)[..|words|] == Tags(words);
  }

  /** The word loop of a hashtag segment: its lemmas only. */
  method ReadHashtag(hwords: seq<Word>) returns (h: seq<string>)
    ensures h == SegmentLemmas(hwords)
  {
    h := [];
    for i := 0 to |hwords|
      invariant |h| == i
      invariant forall j :: 0 <= j < i ==> h[j] == WordLemma(hwords[j])
    {
      var hword := hwords[i];
      var hcleaned := "";
      if hword.morph.None? {
        hcleaned := hword.word;
      } else {
        hcleaned := CleanLemma(hword.morph.value.lemmaText);
      }
      h := h + [hcleaned];
    }
  }

  /** The hashtag loop of outputXML: n hashtag segments from segment from, or None
      when the response ends before the last of them. */
  method ReadHashtags(segments: seq<seq<Word>>, from: nat, n: nat) returns (hV: Option<seq<seq<string>>>)
    requires from <= |segments|
    ensures from + n <= |segments| ==> hV == Some(AllLemmas(segments)[from..from + n])
    ensures from + n > |segments| ==> hV == None
  {
    var v: seq<seq<string>> := [];
    var k := from;
    for j := 0 to n
      invariant k == from + j <= |segments|
      invariant v == AllLemmas(segments)[from..k]
    {
      if k >= |segments| {
        return None;
      }
      var h := ReadHashtag(segments[k]);
      AllAt(segments, k);
      assert AllLemmas(segments)[from..k + 1] == AllLemmas(segments)[from..k] + [h];
      v := v + [h];
      k := k + 1;
    }
    hV := Some(v);
  }

  /** One step of ReadFrom, from tweet m at segment k: the segment of the tweet is
      missing, or a hashtag segment is, or all are there. */
  lemma ReadStep(ls: seq<seq<string>>, ps: seq<multiset<string>>, tweets: seq<Preprocessed>, withHashtags: bool, m: nat, k: nat)
    requires |ls| == |ps| && m < |tweets|
    ensures k >= |ls| ==> ReadFrom(ls, ps, tweets, withHashtags, m, k) == NoAnalysis
    ensures k < |ls| ==>
              var read := Analysis([ls[k]], [ps[k]], []);
              var next := k + Width(tweets[m], withHashtags);
              && (!withHashtags ==>
                    ReadFrom(ls, ps, tweets, withHashtags, m, k) == Join(read, ReadFrom(ls, ps, tweets, withHashtags, m + 1, next)))
              && (withHashtags && next > |ls| ==> ReadFrom(ls, ps, tweets, withHashtags, m, k) == read)
              && (withHashtags && next <= |ls| ==>
                    ReadFrom(ls, ps, tweets, withHashtags, m, k)
                    == Join(read.(hashtags := [ls[k + 1..next]]), ReadFrom(ls, ps, tweets, withHashtags, m + 1, next)))
  {
  }

  /** One pass of the tweet loop of outputXML, from segment k: what is read for tweet
      m, and whether the loop goes on to tweet m + 1. */
  method ReadTweetAt(segments: seq<seq<Word>>, preprocessed: seq<Preprocessed>, withHashtags: bool, m: nat, k: nat)
    returns (read: Analysis, more: bool)
    requires m < |preprocessed|
    ensures var ls, ps := AllLemmas(segments), AllPos(segments);
            && (more ==> ReadFrom(ls, ps, preprocessed, withHashtags, m, k)
                         == Join(read, ReadFrom(ls, ps, preprocessed, withHashtags, m + 1, k + Width(preprocessed[m], withHashtags))))
            && (!more ==> ReadFrom(ls, ps, preprocessed, withHashtags, m, k) == read)
  {
    ReadStep(AllLemmas(segments), AllPos(segments), preprocessed, withHashtags, m, k);
    if k >= |segments| {
      return NoAnalysis, false;
    }
    var v, pV := ReadTweet(segments[k]);
    AllAt(segments, k);
    read := Analysis([v], [pV], []);
    more := true;
    if withHashtags {
      var hV := ReadHashtags(segments, k + 1, |preprocessed[m].hashtags|);
      if hV.None? {
        more := false;
        return;
      }
      read := read.(hashtags := [hV.value]);
    }
  }

  /** outputXML: the segment index k runs over the tweet segments and, with hashtags,
      over the hashtag segments after each. */
  method OutputXML(segments: seq<seq<Word>>, preprocessed: seq<Preprocessed>, withHashtags: bool)
    returns (r: Analysis)
    ensures r == OutputAnalysis(segments, preprocessed, withHashtags)
  {
    ghost var ls, ps := AllLemmas(segments), AllPos(segments);
    ghost var tail := ReadFrom(ls, ps, preprocessed, withHashtags, 0, 0);
    r := NoAnalysis;
    var k: nat := 0;
    var m := 0;
    while m < |preprocessed|
      invariant m <= |preprocessed|
      invariant tail == ReadFrom(ls, ps, preprocessed, withHashtags, m, k)
      invariant Join(r, tail) == OutputAnalysis(segments, preprocessed, withHashtags)
      decreases |preprocessed| - m
    {
      var read, more := ReadTweetAt(segments, preprocessed, withHashtags, m, k);
      if !more {
        return Join(r, read);
      }
      k := k + Width(preprocessed[m], withHashtags);
      m := m + 1;
      JoinAssoc(r, read, ReadFrom(ls, ps, preprocessed, withHashtags, m, k));
      tail := ReadFrom(ls, ps, preprocessed, withHashtags, m, k);
      r := Join(r, read);
    }
    assert tail == NoAnalysis;
    assert Join(r, NoAnalysis) == r;
  }

  lemma JoinAssoc(a: Analysis, b: Analysis, c: Analysis)
    ensures Join(Join(a, b), c) == Join(a, Join(b, c))
  {
    assert (a.lemmas + b.lemmas) + c.lemmas == a.lemmas + (b.lemmas + c.lemmas);
    assert (a.pos + b.pos) + c.pos == a.pos + (b.pos + c.pos);
    assert (a.hashtags + b.hashtags) + c.hashtags == a.hashtags + (b.hashtags + c.hashtags);
  }

  // ---------------------------------------------------------------------
  // Properties of the response reading

  /** A word's tag: its own pos when analysed, otherwise the previous word's tag, or
      "" for the first word; and its lemma falls back to its surface form. */
  lemma StaleTag(words: seq<Word>, i: nat)
    requires i < |words|
    ensures words[i].morph.Some? ==> Tags(words)[i] == words[i].morph.value.pos
    ensures words[i].morph.None? ==> Tags(words)[i] == (if i == 0 then "" else Tags(words)[i - 1])
    ensures words[i].morph.None? ==> SegmentLemmas(words)[i] == words[i].word
  {
    assert Tags(words)[i] == TagAfter(words, i + 1);
    if i > 0 {
      assert Tags(words)[i - 1] == TagAfter(words, i);
    }
  }

  /** A complete response: a segment for every request segment, of which there are
      Offset(|tweets|) (CompleteRequest). */
  predicate Complete(size: nat, tweets: seq<Preprocessed>, withHashtags: bool)
  {
    size >= Offset(tweets, withHashtags, |tweets|)
  }

  /** The number of segments of tweets m up to, not including, i. */
  function Between(tweets: seq<Preprocessed>, withHashtags: bool, m: nat, i: nat): nat
    requires m <= i <= |tweets|
    decreases i - m
  {
    if m == i then 0 else Width(tweets[m], withHashtags) + Between(tweets, withHashtags, m + 1, i)
  }

  lemma {:induction false} BetweenSnoc(tweets: seq<Preprocessed>, withHashtags: bool, m: nat, i: nat)
    requires m <= i < |tweets|
    ensures Between(tweets, withHashtags, m, i + 1) == Between(tweets, withHashtags, m, i) + Width(tweets[i], withHashtags)
    decreases i - m
  {
    if m < i {
      BetweenSnoc(tweets, withHashtags, m + 1, i);
    }
  }

  /** Counted from the first tweet, Between is Offset. */
  lemma {:induction false} BetweenOffset(tweets: seq<Preprocessed>, withHashtags: bool, i: nat)
    requires i <= |tweets|
    ensures Between(tweets, withHashtags, 0, i) == Offset(tweets, withHashtags, i)
  {
    if i > 0 {
      BetweenOffset(tweets, withHashtags, i - 1);
      BetweenSnoc(tweets, withHashtags, 0, i - 1);
    }
  }

  /** What a complete response gives for tweet m, at segment k. */
  function Head(ls: seq<seq<string>>, ps: seq<multiset<string>>, tweets: seq<Preprocessed>, withHashtags: bool, m: nat, k: nat): Analysis
    requires |ls| == |ps| && m < |tweets| && k + Width(tweets[m], withHashtags) <= |ls|
  {
    Analysis([ls[k]], [ps[k]], if withHashtags then [ls[k + 1..k + Width(tweets[m], withHashtags)]] else [])
  }

  /** With every segment of tweets m and after there, tweet m is read from segment k,
      and its hashtags from the segments right after. */
  lemma CompleteStep(ls: seq<seq<string>>, ps: seq<multiset<string>>, tweets: seq<Preprocessed>, withHashtags: bool, m: nat, k: nat)
    requires |ls| == |ps| && m < |tweets| && k + Between(tweets, withHashtags, m, |tweets|) <= |ls|
    ensures k + Width(tweets[m], withHashtags) + Between(tweets, withHashtags, m + 1, |tweets|) <= |ls|
    ensures ReadFrom(ls, ps, tweets, withHashtags, m, k)
            == Join(Head(ls, ps, tweets, withHashtags, m, k),
                    ReadFrom(ls, ps, tweets, withHashtags, m + 1, k + Width(tweets[m], withHashtags)))
  {
    ReadStep(ls, ps, tweets, withHashtags, m, k);
  }

  /** Then one lemma vector and tally per remaining tweet, and with hashtags one
      hashtag vector per remaining tweet. */
  lemma {:induction false} CompleteLengths(ls: seq<seq<string>>, ps: seq<multiset<string>>, tweets: seq<Preprocessed>, withHashtags: bool, m: nat, k: nat)
    requires |ls| == |ps| && m <= |tweets| && k + Between(tweets, withHashtags, m, |tweets|) <= |ls|
    ensures var a := ReadFrom(ls, ps, tweets, withHashtags, m, k);
            && |a.lemmas| == |a.pos| == |tweets| - m
            && |a.hashtags| == (if withHashtags then |tweets| - m else 0)
    decreases |tweets| - m
  {
    if m < |tweets| {
      CompleteStep(ls, ps, tweets, withHashtags, m, k);
      CompleteLengths(ls, ps, tweets, withHashtags, m + 1, k + Width(tweets[m], withHashtags));
    }
  }

  /** Element j of a one-tweet analysis joined to the rest. */
  lemma JoinAt(h: Analysis, rest: Analysis, j: nat)
    requires |h.lemmas| == 1 && |h.pos| == 1 && |h.hashtags| <= 1
    ensures var a := Join(h, rest);
            && (j == 0 ==> a.lemmas[0] == h.lemmas[0] && a.pos[0] == h.pos[0])
            && (j == 0 && |h.hashtags| == 1 ==> 0 < |a.hashtags| && a.hashtags[0] == h.hashtags[0])
            && (0 < j <= |rest.lemmas| ==> a.lemmas[j] == rest.lemmas[j - 1])
            && (0 < j <= |rest.pos| ==> a.pos[j] == rest.pos[j - 1])
            && (0 < j <= |rest.hashtags| && |h.hashtags| == 1 ==> a.hashtags[j] == rest.hashtags[j - 1])
  {
  }

  /** For a later tweet i: element i - m of the lemma vectors outputXML reads from m, at
      segment k, is that of the segment tweet i was written to, Between(m, i) on. */
  lemma {:induction false} ReadLemmaAt(ls: seq<seq<string>>, ps: seq<multiset<string>>, tweets: seq<Preprocessed>, withHashtags: bool, m: nat, k: nat, i: nat)
    requires |ls| == |ps| && m <= i < |tweets| && k + Between(tweets, withHashtags, m, |tweets|) <= |ls|
    ensures k + Between(tweets, withHashtags, m, i) + Width(tweets[i], withHashtags) <= |ls|
    ensures var a := ReadFrom(ls, ps, tweets, withHashtags, m, k);
            var at := k + Between(tweets, withHashtags, m, i);
            i - m < |a.lemmas| && a.lemmas[i - m] == ls[at]
    decreases i - m
  {
    var next := k + Width(tweets[m], withHashtags);
    CompleteStep(ls, ps, tweets, withHashtags, m, k);
    var rest := ReadFrom(ls, ps, tweets, withHashtags, m + 1, next);
    assert ReadFrom(ls, ps, tweets, withHashtags, m, k).lemmas == [ls[k]] + rest.lemmas;
    if m < i {
      ReadLemmaAt(ls, ps, tweets, withHashtags, m + 1, next, i);
    }
  }

  /** The same for the POS tallies. */
  lemma {:induction false} ReadPosAt(ls: seq<seq<string>>, ps: seq<multiset<string>>, tweets: seq<Preprocessed>, withHashtags: bool, m: nat, k: nat, i: nat)
    requires |ls| == |ps| && m <= i < |tweets| && k + Between(tweets, withHashtags, m, |tweets|) <= |ls|
    ensures k + Between(tweets, withHashtags, m, i) + Width(tweets[i], withHashtags) <= |ls|
    ensures var a := ReadFrom(ls, ps, tweets, withHashtags, m, k);
            var at := k + Between(tweets, withHashtags, m, i);
            i - m < |a.pos| && a.pos[i - m] == ps[at]
    decreases i - m
  {
    var next := k + Width(tweets[m], withHashtags);
    CompleteStep(ls, ps, tweets, withHashtags, m, k);
    var rest := ReadFrom(ls, ps, tweets, withHashtags, m + 1, next);
    assert ReadFrom(ls, ps, tweets, withHashtags, m, k).pos == [ps[k]] + rest.pos;
    if m < i {
      ReadPosAt(ls, ps, tweets, withHashtags, m + 1, next, i);
    }
  }

  /** With hashtags, element i - m of the hashtag vectors holds the lemma vectors of the
      segments right after that of tweet i. */
  lemma {:induction false} ReadHashtagsAt(ls: seq<seq<string>>, ps: seq<multiset<string>>, tweets: seq<Preprocessed>, withHashtags: bool, m: nat, k: nat, i: nat)
    requires |ls| == |ps| && m <= i < |tweets| && k + Between(tweets, withHashtags, m, |tweets|) <= |ls|
    ensures k + Between(tweets, withHashtags, m, i) + Width(tweets[i], withHashtags) <= |ls|
    requires withHashtags
    ensures var a := ReadFrom(ls, ps, tweets, withHashtags, m, k);
            var at := k + Between(tweets, withHashtags, m, i);
            i - m < |a.hashtags| && a.hashtags[i - m] == ls[at + 1..at + Width(tweets[i], true)]
    decreases i - m
  {
    var next := k + Width(tweets[m], withHashtags);
    CompleteStep(ls, ps, tweets, withHashtags, m, k);
    var rest := ReadFrom(ls, ps, tweets, withHashtags, m + 1, next);
    assert ReadFrom(ls, ps, tweets, withHashtags, m, k).hashtags == [ls[k + 1..next]] + rest.hashtags;
    if m < i {
      ReadHashtagsAt(ls, ps, tweets, withHashtags, m + 1, next, i);
    }
  }

  /** A response has a segment for every request segment exactly when it is Complete,
      and then every segment of every tweet is there. */
  lemma CompleteRequest(size: nat, tweets: seq<Preprocessed>, withHashtags: bool)
    ensures Complete(size, tweets, withHashtags) <==> size >= |InputSegments(tweets, withHashtags)|
    ensures Complete(size, tweets, withHashtags) <==> Between(tweets, withHashtags, 0, |tweets|) <= size
  {
    OffsetCounts(tweets, withHashtags, |tweets|);
    BetweenOffset(tweets, withHashtags, |tweets|);
  }

  /** With a complete response, tweet i gets the lemma vector of the segment it was
      written to, ... */
  lemma CompleteTweetLemmas(segments: seq<seq<Word>>, tweets: seq<Preprocessed>, withHashtags: bool, i: nat)
    requires i < |tweets| && Complete(|segments|, tweets, withHashtags)
    ensures Offset(tweets, withHashtags, i) < |segments|
    ensures i < |OutputAnalysis(segments, tweets, withHashtags).lemmas|
    ensures OutputAnalysis(segments, tweets, withHashtags).lemmas[i] == SegmentLemmas(segments[Offset(tweets, withHashtags, i)])
  {
    ReadLemmaComplete(AllLemmas(segments), AllPos(segments), tweets, withHashtags, i);
    AllAt(segments, Offset(tweets, withHashtags, i));
  }

  lemma ReadLemmaComplete(ls: seq<seq<string>>, ps: seq<multiset<string>>, tweets: seq<Preprocessed>, withHashtags: bool, i: nat)
    requires |ls| == |ps| && i < |tweets| && Offset(tweets, withHashtags, |tweets|) <= |ls|
    ensures Offset(tweets, withHashtags, i) < |ls|
    ensures i < |ReadFrom(ls, ps, tweets, withHashtags, 0, 0).lemmas|
    ensures ReadFrom(ls, ps, tweets, withHashtags, 0, 0).lemmas[i] == ls[Offset(tweets, withHashtags, i)]
  {
    BetweenOffset(tweets, withHashtags, |tweets|);
    BetweenOffset(tweets, withHashtags, i);
    ReadLemmaAt(ls, ps, tweets, withHashtags, 0, 0, i);
  }

  /** ... its tally of POS tags, ... */
  lemma CompleteTweetPos(segments: seq<seq<Word>>, tweets: seq<Preprocessed>, withHashtags: bool, i: nat)
    requires i < |tweets| && Complete(|segments|, tweets, withHashtags)
    ensures Offset(tweets, withHashtags, i) < |segments|
    ensures i < |OutputAnalysis(segments, tweets, withHashtags).pos|
    ensures OutputAnalysis(segments, tweets, withHashtags).pos[i] == SegmentPos(segments[Offset(tweets, withHashtags, i)])
  {
    ReadPosComplete(AllLemmas(segments), AllPos(segments), tweets, withHashtags, i);
    AllAt(segments, Offset(tweets, withHashtags, i));
  }

  lemma ReadPosComplete(ls: seq<seq<string>>, ps: seq<multiset<string>>, tweets: seq<Preprocessed>, withHashtags: bool, i: nat)
    requires |ls| == |ps| && i < |tweets| && Offset(tweets, withHashtags, |tweets|) <= |ls|
    ensures Offset(tweets, withHashtags, i) < |ls|
    ensures i < |ReadFrom(ls, ps, tweets, withHashtags, 0, 0).pos|
    ensures ReadFrom(ls, ps, tweets, withHashtags, 0, 0).pos[i] == ps[Offset(tweets, withHashtags, i)]
  {
    BetweenOffset(tweets, withHashtags, |tweets|);
    BetweenOffset(tweets, withHashtags, i);
    ReadPosAt(ls, ps, tweets, withHashtags, 0, 0, i);
  }

  /** ... with hashtags, one lemma vector per hashtag of the tweet, ... */
  lemma CompleteHashtagCount(segments: seq<seq<Word>>, tweets: seq<Preprocessed>, i: nat)
    requires i < |tweets| && Complete(|segments|, tweets, true)
    ensures var a := OutputAnalysis(segments, tweets, true);
            i < |a.hashtags| && |a.hashtags[i]| == |tweets[i].hashtags|
  {
    BetweenOffset(tweets, true, |tweets|);
    ReadHashtagsAt(AllLemmas(segments), AllPos(segments), tweets, true, 0, 0, i);
  }

  /** ... and, with hashtags, the lemmas of hashtag segment j of tweet i as element j
      of its hashtag vector. */
  lemma CompleteHashtags(segments: seq<seq<Word>>, tweets: seq<Preprocessed>, i: nat, j: nat)
    requires i < |tweets| && j < |tweets[i].hashtags| && Complete(|segments|, tweets, true)
    ensures Offset(tweets, true, i) + 1 + j < |segments|
    ensures var a := OutputAnalysis(segments, tweets, true);
            && i < |a.hashtags| && |a.hashtags[i]| == |tweets[i].hashtags|
            && a.hashtags[i][j] == SegmentLemmas(segments[Offset(tweets, true, i) + 1 + j])
  {
    BetweenOffset(tweets, true, |tweets|);
    BetweenOffset(tweets, true, i);
    var ls := AllLemmas(segments);
    ReadHashtagsAt(ls, AllPos(segments), tweets, true, 0, 0, i);
    var k := Offset(tweets, true, i);
    assert ls[k + 1..k + Width(tweets[i], true)][j] == ls[k + 1 + j];
    AllAt(segments, k + 1 + j);
  }

  /** So there is one lemma vector and one tally per tweet, in tweet order, and with
      hashtags one hashtag vector per tweet; without, no hashtag vectors at all. */
  lemma CompleteOutput(segments: seq<seq<Word>>, tweets: seq<Preprocessed>, withHashtags: bool)
    requires |segments| >= |InputSegments(tweets, withHashtags)|
    ensures var a := OutputAnalysis(segments, tweets, withHashtags);
            && |a.lemmas| == |a.pos| == |tweets|
            && |a.hashtags| == (if withHashtags then |tweets| else 0)
  {
    CompleteRequest(|segments|, tweets, withHashtags);
    CompleteLengths(AllLemmas(segments), AllPos(segments), tweets, withHashtags, 0, 0);
  }

  /** A response missing some segment of tweets m and after leaves one of them without
      its lemma vector or, with hashtags, without its hashtag vector. */
  lemma {:induction false} ShortResponse(ls: seq<seq<string>>, ps: seq<multiset<string>>, tweets: seq<Preprocessed>, withHashtags: bool, m: nat, k: nat)
    requires |ls| == |ps| && m <= |tweets| && k <= |ls| < k + Between(tweets, withHashtags, m, |tweets|)
    ensures var a := ReadFrom(ls, ps, tweets, withHashtags, m, k);
            |a.lemmas| < |tweets| - m || (withHashtags && |a.hashtags| < |tweets| - m)
    decreases |tweets| - m
  {
    if m < |tweets| {
      ReadStep(ls, ps, tweets, withHashtags, m, k);
      var next := k + Width(tweets[m], withHashtags);
      if k < |ls| && next <= |ls| {
        ShortResponse(ls, ps, tweets, withHashtags, m + 1, next);
      }
    }
  }

  /** The same for a whole response: with fewer segments than inputXML wrote, the
      map misses a lemma vector or a hashtag vector of some tweet. */
  lemma ShortOutput(segments: seq<seq<Word>>, tweets: seq<Preprocessed>, withHashtags: bool)
    requires |segments| < |InputSegments(tweets, withHashtags)|
    ensures var a := OutputAnalysis(segments, tweets, withHashtags);
            |a.lemmas| < |tweets| || (withHashtags && |a.hashtags| < |tweets|)
  {
    CompleteRequest(|segments|, tweets, withHashtags);
    ShortResponse(AllLemmas(segments), AllPos(segments), tweets, withHashtags, 0, 0);
  }

  // ---------------------------------------------------------------------
  // The namespace edit

  const Namespace: string := " xmlns=\"urn:edu.columbia.ccls.madamira.configuration:0.1\""

  /** String.indexOf(p, from) for from >= 0. */
  function IndexFrom(s: string, p: string, from: nat): (r: int)
    ensures r == -1 || (from <= r && OccursAt(s, p, r))
    ensures forall k: nat :: from <= k && (r == -1 || k < r) ==> !OccursAt(s, p, k)
    decreases |s| - from
  {
    if from + |p| > |s| then -1
    else if OccursAt(s, p, from) then from
    else IndexFrom(s, p, from + 1)
  }

  /** The first index of '>' that the edit looks for: at or after the start of the
      first "<madamira_input", or from the start when there is none. */
  function CloseIndex(content: string): int
  {
    var ind := IndexFrom(content, "<madamira_input", 0);
    IndexFrom(content, ">", if ind < 0 then 0 else ind)
  }

  /** What fixNamespace writes back; with no '>' to find, substring throws and the
      file is left as it was: None. */
  function FixedNamespace(content: string): Option<string>
  {
    var ind2 := CloseIndex(content);
    if ind2 < 0 then None else Some(content[..ind2] + Namespace + content[ind2..])
  }

  /** Two indexOf results for the same search are equal. */
  lemma IndexOfUnique(s: string, p: string, from: nat, r: int)
    requires r == -1 || (from <= r && OccursAt(s, p, r))
    requires forall k: nat :: from <= k && (r == -1 || k < r) ==> !OccursAt(s, p, k)
    ensures r == IndexFrom(s, p, from)
  {
  }

  /** fixNamespace */
  method FixNamespace(content: string) returns (r: Option<string>)
    ensures r == FixedNamespace(content)
  {
    var ind := IndexOf(content, "<madamira_input", 0);
    IndexOfUnique(content, "<madamira_input", 0, ind);
    var from: nat := if ind < 0 then 0 else ind;
    var ind2 := IndexOf(content, ">", from);
    IndexOfUnique(content, ">", from, ind2);
    if ind2 < 0 {
      return None;
    }
    r := Some(content[..ind2] + Namespace + content[ind2..]);
  }

  /** The edit puts the attribute just before the first '>' after the tag and changes
      nothing else: taking it out again gives back the content. */
  lemma NamespaceInserted(content: string)
    requires FixedNamespace(content).Some?
    ensures var i := CloseIndex(content);
            var f := FixedNamespace(content).value;
            && 0 <= i < |content| && content[i] == '>'
            && |f| == |content| + |Namespace|
            && f[..i] == content[..i]
            && f[i..i + |Namespace|] == Namespace
            && f[i + |Namespace|..] == content[i..]
            && f[..i] + f[i + |Namespace|..] == content
  {
    var i := CloseIndex(content);
    assert OccursAt(content, ">", i);
    assert content[i..i + 1] == ">";
    var f := FixedNamespace(content).value;
    assert f == content[..i] + Namespace + content[i..];
    assert f[..i] == content[..i];
    assert f[i + |Namespace|..] == content[i..];
  }

  /** The edit fails exactly when no '>' follows the place the search starts from. */
  lemma NamespaceFails(content: string)
    ensures FixedNamespace(content).None? <==>
            var ind := IndexFrom(content, "<madamira_input", 0);
            forall k :: (if ind < 0 then 0 else ind) <= k < |content| ==> content[k] != '>'
  {
    var ind := IndexFrom(content, "<madamira_input", 0);
    var from: nat := if ind < 0 then 0 else ind;
    NoCharFrom(content, '>', from);
  }

  /** Searching for a one-character string fails when the character does not occur. */
  lemma NoCharFrom(s: string, c: char, from: nat)
    ensures IndexFrom(s, [c], from) == -1 <==> forall k :: from <= k < |s| ==> s[k] != c
  {
    forall k | from <= k < |s|
      ensures OccursAt(s, [c], k) <==> s[k] == c
    {
      assert |s[k..k + 1]| == 1 && s[k..k + 1][0] == s[k];
    }
  }
}
