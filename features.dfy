/** FeatureExtractor: the feature vector of a tweet, built from its preprocessing and
    the analyser's lemmas and POS tallies, and the sparse LibSVM lines of a batch. */
module Features {
  import opened Text
  import opened EmoticonSets
  import NGrams
  import PolarityInfo
  import Emoticons
  import Preprocessor
  import XMLParser

  /** The seven vocabularies of NGramExtractor, each in the iteration order of its
      HashSet. */
  datatype Vocabularies = Vocabularies(
    unigrams: seq<string>,
    bigrams: seq<string>,
    trigrams: seq<string>,
    fourgrams: seq<string>,
    charTrigrams: seq<string>,
    charFourgrams: seq<string>,
    charFivegrams: seq<string>)

  // ---------------------------------------------------------------------
  // n-gram features

  /** One entry per vocabulary item, in vocabulary order: 1 when the item is among the
      grams, 0 otherwise. */
  function Indicators(vocabulary: seq<string>, grams: seq<string>): (r: seq<nat>)
    ensures |r| == |vocabulary|
    decreases |vocabulary|
  {
    if vocabulary == [] then []
    else Indicators(vocabulary[..|vocabulary| - 1], grams) + [if vocabulary[|vocabulary| - 1] in grams then 1 else 0]
  }

  /** An indicator records membership, not a count. */
  lemma {:induction false} IndicatorAt(vocabulary: seq<string>, grams: seq<string>, j: nat)
    requires j < |vocabulary|
    ensures Indicators(vocabulary, grams)[j] <= 1
    ensures Indicators(vocabulary, grams)[j] == 1 <==> vocabulary[j] in grams
    decreases |vocabulary|
  {
    if j < |vocabulary| - 1 {
      IndicatorAt(vocabulary[..|vocabulary| - 1], grams, j);
      assert vocabulary[..|vocabulary| - 1][j] == vocabulary[j];
    }
  }

  /** The word 1-, 2-, 3- and 4-gram blocks of outputNgramFeatures. */
  function WordNgramFeatures(v: Vocabularies, tweet: string): (r: seq<nat>)
    ensures |r| == WordNgramWidth(v)
  {
    Indicators(v.unigrams, NGrams.WordNgrams(1, tweet)) + Indicators(v.bigrams, NGrams.WordNgrams(2, tweet))
    + Indicators(v.trigrams, NGrams.WordNgrams(3, tweet)) + Indicators(v.fourgrams, NGrams.WordNgrams(4, tweet))
  }

  /** The character 3-, 4- and 5-gram blocks of outputCharNgramFeatures. */
  function CharNgramFeatures(v: Vocabularies, tweet: string): (r: seq<nat>)
    ensures |r| == CharNgramWidth(v)
  {
    Indicators(v.charTrigrams, NGrams.CharNgrams(3, tweet)) + Indicators(v.charFourgrams, NGrams.CharNgrams(4, tweet))
    + Indicators(v.charFivegrams, NGrams.CharNgrams(5, tweet))
  }

  function WordNgramWidth(v: Vocabularies): nat
  {
    |v.unigrams| + |v.bigrams| + |v.trigrams| + |v.fourgrams|
  }

  function CharNgramWidth(v: Vocabularies): nat
  {
    |v.charTrigrams| + |v.charFourgrams| + |v.charFivegrams|
  }

  /** The loop over one vocabulary: one entry appended per item. */
  method AddIndicators(features: seq<nat>, vocabulary: seq<string>, grams: seq<string>) returns (r: seq<nat>)
    ensures r == features + Indicators(vocabulary, grams)
  {
    r := features;
    for i := 0 to |vocabulary|
      invariant r == features + Indicators(vocabulary[..i], grams)
    {
      assert vocabulary[..i + 1][..i] == vocabulary[..i];
      if vocabulary[i] in grams {
        r := r + [1];
      } else {
        r := r + [0];
      }
    }
    assert vocabulary[..|vocabulary|] == vocabulary;
  }

  /** outputNgramFeatures */
  method OutputNgramFeatures(v: Vocabularies, tweet: string) returns (features: seq<nat>)
    ensures features == WordNgramFeatures(v, tweet)
  {
    features := [];
    var unigrams := NGrams.Ngrams(1, tweet);
    features := AddIndicators(features, v.unigrams, unigrams);
    var bigrams := NGrams.Ngrams(2, tweet);
    features := AddIndicators(features, v.bigrams, bigrams);
    var trigrams := NGrams.Ngrams(3, tweet);
    features := AddIndicators(features, v.trigrams, trigrams);
    var fourgrams := NGrams.Ngrams(4, tweet);
    features := AddIndicators(features, v.fourgrams, fourgrams);
  }

  /** outputCharNgramFeatures */
  method OutputCharNgramFeatures(v: Vocabularies, tweet: string) returns (features: seq<nat>)
    ensures features == CharNgramFeatures(v, tweet)
  {
    features := [];
    var trigrams := NGrams.CharNgramsOf(3, tweet);
    features := AddIndicators(features, v.charTrigrams, trigrams);
    var fourgrams := NGrams.CharNgramsOf(4, tweet);
    features := AddIndicators(features, v.charFourgrams, fourgrams);
    var fivegrams := NGrams.CharNgramsOf(5, tweet);
    features := AddIndicators(features, v.charFivegrams, fivegrams);
  }

  /** The word n-gram entries: one per vocabulary item, 1-grams first, each 1 exactly
      when its item is an n-gram of the tweet. */
  lemma WordNgramAt(v: Vocabularies, tweet: string, j: nat)
    requires j < WordNgramWidth(v)
    ensures |WordNgramFeatures(v, tweet)| == WordNgramWidth(v)
    ensures var r := WordNgramFeatures(v, tweet);
            var b1 := |v.unigrams|;
            var b2 := b1 + |v.bigrams|;
            var b3 := b2 + |v.trigrams|;
            && r[j] <= 1
            && (j < b1 ==> (r[j] == 1 <==> v.unigrams[j] in NGrams.WordNgrams(1, tweet)))
            && (b1 <= j < b2 ==> (r[j] == 1 <==> v.bigrams[j - b1] in NGrams.WordNgrams(2, tweet)))
            && (b2 <= j < b3 ==> (r[j] == 1 <==> v.trigrams[j - b2] in NGrams.WordNgrams(3, tweet)))
            && (b3 <= j ==> (r[j] == 1 <==> v.fourgrams[j - b3] in NGrams.WordNgrams(4, tweet)))
  {
    var b1 := |v.unigrams|;
    var b2 := b1 + |v.bigrams|;
    var b3 := b2 + |v.trigrams|;
    if j < b1 {
      IndicatorAt(v.unigrams, NGrams.WordNgrams(1, tweet), j);
    } else if j < b2 {
      IndicatorAt(v.bigrams, NGrams.WordNgrams(2, tweet), j - b1);
    } else if j < b3 {
      IndicatorAt(v.trigrams, NGrams.WordNgrams(3, tweet), j - b2);
    } else {
      IndicatorAt(v.fourgrams, NGrams.WordNgrams(4, tweet), j - b3);
    }
  }

  /** The character n-gram entries, 3-grams first. */
  lemma CharNgramAt(v: Vocabularies, tweet: string, j: nat)
    requires j < CharNgramWidth(v)
    ensures |CharNgramFeatures(v, tweet)| == CharNgramWidth(v)
    ensures var r := CharNgramFeatures(v, tweet);
            var b1 := |v.charTrigrams|;
            var b2 := b1 + |v.charFourgrams|;
            && r[j] <= 1
            && (j < b1 ==> (r[j] == 1 <==> v.charTrigrams[j] in NGrams.CharNgrams(3, tweet)))
            && (b1 <= j < b2 ==> (r[j] == 1 <==> v.charFourgrams[j - b1] in NGrams.CharNgrams(4, tweet)))
            && (b2 <= j ==> (r[j] == 1 <==> v.charFivegrams[j - b2] in NGrams.CharNgrams(5, tweet)))
  {
    var b1 := |v.charTrigrams|;
    var b2 := b1 + |v.charFourgrams|;
    if j < b1 {
      IndicatorAt(v.charTrigrams, NGrams.CharNgrams(3, tweet), j);
    } else if j < b2 {
      IndicatorAt(v.charFourgrams, NGrams.CharNgrams(4, tweet), j - b1);
    } else {
      IndicatorAt(v.charFivegrams, NGrams.CharNgrams(5, tweet), j - b2);
    }
  }

  // ---------------------------------------------------------------------
  // Negation switches

  /** The number of positions i >= 1 whose flag is set while that of i - 1 is not. */
  function Switches(mask: seq<bool>): nat
    decreases |mask|
  {
    if |mask| < 2 then 0
    else Switches(mask[..|mask| - 1]) + (if mask[|mask| - 1] && !mask[|mask| - 2] then 1 else 0)
  }

  /** Position i opens a negation scope right after an unnegated word. */
  predicate SwitchAt(mask: seq<bool>, i: nat)
    requires 1 <= i < |mask|
  {
    mask[i] && !mask[i - 1]
  }

  /** The positions where that happens. */
  function SwitchPoints(mask: seq<bool>): set<nat>
  {
    set i: nat | 1 <= i < |mask| && SwitchAt(mask, i)
  }

  /** Switches counts exactly those positions. */
  lemma {:induction false} SwitchesCount(mask: seq<bool>)
    ensures Switches(mask) == |SwitchPoints(mask)|
    decreases |mask|
  {
    if |mask| < 2 {
      assert SwitchPoints(mask) == {};
    } else {
      var n := |mask| - 1;
      var init := mask[..n];
      SwitchesCount(init);
      SwitchPointsStep(mask, init, n);
    }
  }

  /** The switch points of a mask are those of the mask without its last flag, plus
      the last position when it is one. */
  lemma SwitchPointsStep(mask: seq<bool>, init: seq<bool>, n: nat)
    requires |mask| >= 2 && n == |mask| - 1 && init == mask[..n]
    ensures n !in SwitchPoints(init)
    ensures SwitchPoints(mask) == SwitchPoints(init) + (if SwitchAt(mask, n) then {n} else {})
  {
    var here := if SwitchAt(mask, n) then {n} else {};
    forall i: nat
      ensures i in SwitchPoints(mask) <==> i in SwitchPoints(init) + here
    {
      if 1 <= i < n {
        assert mask[i] == init[i] && mask[i - 1] == init[i - 1];
      }
    }
  }

  /** The switches loop. */
  method CountSwitches(isNegated: seq<bool>) returns (switches: nat)
    ensures switches == Switches(isNegated)
  {
    switches := 0;
    var i := 1;
    while i < |isNegated|
      invariant 1 <= i
      invariant |isNegated| > 0 ==> i <= |isNegated| && switches == Switches(isNegated[..i])
      invariant |isNegated| == 0 ==> switches == 0
    {
      assert isNegated[..i + 1][..i] == isNegated[..i];
      if isNegated[i] && !isNegated[i - 1] {
        switches := switches + 1;
      }
      i := i + 1;
    }
    if |isNegated| > 0 {
      assert isNegated[..i] == isNegated;
    }
  }

  // ---------------------------------------------------------------------
  // Hashtag polarity

  /** The all-false negation mask each hashtag is scored with. */
  function AllFalse(n: nat): (r: seq<bool>)
    ensures |r| == n && forall i :: 0 <= i < n ==> !r[i]
  {
    seq(n, i => false)
  }

  /** A hashtag is negative when more of its words vote negative than positive; a tie,
      0 to 0 included, makes it positive. */
  predicate NegativeHashtag(t: PolarityInfo.Tables, lemmas: seq<string>, normalized: seq<string>)
  {
    var votes := PolarityInfo.WordVotes(t, lemmas, normalized, AllFalse(|lemmas|));
    PolarityInfo.Count(votes, Negative) > PolarityInfo.Count(votes, Positive)
  }

  /** The number of negative hashtags among the first ones, scored against the
      preprocessed words of the same hashtag. */
  function NegativeHashtags(t: PolarityInfo.Tables, hashtags: seq<seq<string>>, normalized: seq<seq<string>>): (r: nat)
    requires |hashtags| <= |normalized|
    ensures r <= |hashtags|
  {
    CountIf(|hashtags|, NegativeAt(t, hashtags, normalized))
  }

  /** Whether hashtag r is negative, by index. */
  function NegativeAt(t: PolarityInfo.Tables, hashtags: seq<seq<string>>, normalized: seq<seq<string>>): nat -> bool
    requires |hashtags| <= |normalized|
  {
    (r: nat) => r < |hashtags| && NegativeHashtag(t, hashtags[r], normalized[r])
  }

  /** The number of indices below n that satisfy pick. */
  function CountIf(n: nat, pick: nat -> bool): (r: nat)
    ensures r <= n
  {
    if n == 0 then 0 else CountIf(n - 1, pick) + (if pick(n - 1) then 1 else 0)
  }

  lemma {:induction false} CountIfSize(n: nat, pick: nat -> bool)
    ensures CountIf(n, pick) == |set r: nat | r < n && pick(r)|
  {
    if n > 0 {
      CountIfSize(n - 1, pick);
      var here: set<nat> := if pick(n - 1) then {n - 1} else {};
      assert (set r: nat | r < n && pick(r)) == (set r: nat | r < n - 1 && pick(r)) + here;
      assert n - 1 !in (set r: nat | r < n - 1 && pick(r));
    }
  }

  /** The hashtag loop: each hashtag adds one to exactly one of the two counters. */
  method HashtagTallies(t: PolarityInfo.Tables, hashtags: seq<seq<string>>, normalized: seq<seq<string>>)
    returns (posHashtags: nat, negHashtags: nat)
    requires |hashtags| <= |normalized|
    ensures negHashtags == NegativeHashtags(t, hashtags, normalized)
    ensures posHashtags + negHashtags == |hashtags|
  {
    posHashtags, negHashtags := 0, 0;
    for r := 0 to |hashtags|
      invariant negHashtags == CountIf(r, NegativeAt(t, hashtags, normalized))
      invariant posHashtags + negHashtags == r
    {
      var hneg: seq<bool> := [];
      for u := 0 to |hashtags[r]|
        invariant hneg == AllFalse(u)
      {
        hneg := hneg + [false];
      }
      var hpos, hnegs := PolarityInfo.GetWordsInfo(t, hashtags[r], normalized[r], hneg);
      if hnegs > hpos {
        negHashtags := negHashtags + 1;
      } else {
        posHashtags := posHashtags + 1;
      }
    }
  }

  // ---------------------------------------------------------------------
  // POS categories

  /** The raw tags summed into each of the fifteen POS features, in feature order:
      nouns, number words, proper nouns, adjectives, adverbs, pronouns, verbs,
      particles, prepositions, abbreviations, punctuation, conjunctions,
      interjections, digits, Latin. */
  const PosCategories: seq<seq<string>> := [
    ["noun"], ["noun_num", "noun_quant"], ["noun_prop"], ["adj", "adj_comp", "adj_num"],
    ["adv", "adv_interrog", "adv_rel"], ["pron", "pron_dem", "pron_exclam", "pron_interrog", "pron_rel"],
    ["verb", "verb_pseudo"],
    ["part", "part_dem", "part_det", "part_focus", "part_fut", "part_interrog", "part_neg", "part_restrict",
     "part_verb", "part_voc"],
    ["prep"], ["abbrev"], ["punc"], ["conj", "conj_sub"], ["interj"], ["digit"], ["latin"]]

  /** The tally of a category: the sum of the tallies of its tags from position
      `from` on (a tag absent from the map counts 0). */
  function CategorySum(posTags: multiset<string>, tags: seq<string>, from: nat): nat
    decreases |tags| - from
  {
    if from >= |tags| then 0 else posTags[tags[from]] + CategorySum(posTags, tags, from + 1)
  }

  /** The fifteen POS features. */
  function PosVector(posTags: multiset<string>): (r: seq<nat>)
    ensures |r| == 15
  {
    [CategorySum(posTags, PosCategories[0], 0), CategorySum(posTags, PosCategories[1], 0), CategorySum(posTags, PosCategories[2], 0),
     CategorySum(posTags, PosCategories[3], 0), CategorySum(posTags, PosCategories[4], 0), CategorySum(posTags, PosCategories[5], 0),
     CategorySum(posTags, PosCategories[6], 0), CategorySum(posTags, PosCategories[7], 0), CategorySum(posTags, PosCategories[8], 0),
     CategorySum(posTags, PosCategories[9], 0), CategorySum(posTags, PosCategories[10], 0), CategorySum(posTags, PosCategories[11], 0),
     CategorySum(posTags, PosCategories[12], 0), CategorySum(posTags, PosCategories[13], 0), CategorySum(posTags, PosCategories[14], 0)]
  }

  /** Feature c is the tally of category c. */
  lemma PosVectorAt(posTags: multiset<string>, c: nat)
    requires c < 15
    ensures PosVector(posTags)[c] == CategorySum(posTags, PosCategories[c], 0)
  {
  }

  /** How often a tag is listed from position `from` on. */
  function Occurrences(tags: seq<string>, tag: string, from: nat): nat
    decreases |tags| - from
  {
    if from >= |tags| then 0 else (if tags[from] == tag then 1 else 0) + Occurrences(tags, tag, from + 1)
  }

  /** One more word tagged `tag` adds one to the tally of a category for every time
      the category lists the tag. */
  lemma {:induction false} CategorySumAdd(posTags: multiset<string>, tag: string, tags: seq<string>, from: nat)
    ensures CategorySum(posTags + multiset{tag}, tags, from) == CategorySum(posTags, tags, from) + Occurrences(tags, tag, from)
    decreases |tags| - from
  {
    if from < |tags| {
      CategorySumAdd(posTags, tag, tags, from + 1);
    }
  }

  lemma {:induction false} OnceIfDistinct(tags: seq<string>, tag: string, from: nat)
    requires Distinct(tags) && from <= |tags|
    ensures Occurrences(tags, tag, from) == (if tag in tags[from..] then 1 else 0)
    decreases |tags| - from
  {
    if from < |tags| {
      OnceIfDistinct(tags, tag, from + 1);
      assert tags[from..] == [tags[from]] + tags[from + 1..];
    }
  }

  /** No category lists a tag twice, ... */
  lemma CategoriesDistinct(c: nat)
    requires c < 15
    ensures Distinct(PosCategories[c])
  {
  }

  /** ... and no tag is in two categories. */
  lemma CategoriesDisjoint(tag: string, c: nat, d: nat)
    requires c < d < 15
    ensures !(tag in PosCategories[c] && tag in PosCategories[d])
  {
    var cs, ds := PosCategories[c], PosCategories[d];
    forall j, k | 0 <= j < |cs| && 0 <= k < |ds|
      ensures cs[j] != ds[k]
    {
    }
  }

  /** So a word tagged `tag` raises the category that lists it by one and leaves the
      others alone; a tag no category lists, the empty tag of a word before any
      analysed word say, changes no feature. */
  lemma PosTagAdded(posTags: multiset<string>, tag: string, c: nat)
    requires c < 15
    ensures PosVector(posTags + multiset{tag})[c] == PosVector(posTags)[c] + (if tag in PosCategories[c] then 1 else 0)
  {
    PosVectorAt(posTags, c);
    PosVectorAt(posTags + multiset{tag}, c);
    CategorySumAdd(posTags, tag, PosCategories[c], 0);
    CategoriesDistinct(c);
    OnceIfDistinct(PosCategories[c], tag, 0);
    assert PosCategories[c][0..] == PosCategories[c];
  }

  lemma UntaggedCountsNowhere(posTags: multiset<string>, c: nat)
    requires c < 15
    ensures "" !in PosCategories[c]
    ensures PosVector(posTags + multiset{""})[c] == PosVector(posTags)[c]
  {
    PosTagAdded(posTags, "", c);
    NoEmptyTag(c);
  }

  lemma NoEmptyTag(c: nat)
    requires c < 15
    ensures "" !in PosCategories[c]
  {
    var tags := PosCategories[c];
    forall j | 0 <= j < |tags|
      ensures |tags[j]| > 0
    {
    }
  }

  /** The nouns, number words, proper nouns, adjectives, adverbs, tag by tag. */
  lemma PosNominalSpelled(ms: multiset<string>)
    ensures PosVector(ms)[0] == ms["noun"]
    ensures PosVector(ms)[1] == ms["noun_num"] + ms["noun_quant"]
    ensures PosVector(ms)[2] == ms["noun_prop"]
    ensures PosVector(ms)[3] == ms["adj"] + ms["adj_comp"] + ms["adj_num"]
    ensures PosVector(ms)[4] == ms["adv"] + ms["adv_interrog"] + ms["adv_rel"]
  {
    var p0 := PosCategories[0];
    assert p0 == ["noun"];
    assert CategorySum(ms, p0, 1) == 0;
    assert CategorySum(ms, p0, 0) == ms["noun"] + CategorySum(ms, p0, 1);
    var p1 := PosCategories[1];
    assert p1 == ["noun_num", "noun_quant"];
    assert CategorySum(ms, p1, 2) == 0;
    assert CategorySum(ms, p1, 1) == ms["noun_quant"] + CategorySum(ms, p1, 2);
    assert CategorySum(ms, p1, 0) == ms["noun_num"] + CategorySum(ms, p1, 1);
    var p2 := PosCategories[2];
    assert p2 == ["noun_prop"];
    assert CategorySum(ms, p2, 1) == 0;
    assert CategorySum(ms, p2, 0) == ms["noun_prop"] + CategorySum(ms, p2, 1);
    var p3 := PosCategories[3];
    assert p3 == ["adj", "adj_comp", "adj_num"];
    assert CategorySum(ms, p3, 3) == 0;
    assert CategorySum(ms, p3, 2) == ms["adj_num"] + CategorySum(ms, p3, 3);
    assert CategorySum(ms, p3, 1) == ms["adj_comp"] + CategorySum(ms, p3, 2);
    assert CategorySum(ms, p3, 0) == ms["adj"] + CategorySum(ms, p3, 1);
    var p4 := PosCategories[4];
    assert p4 == ["adv", "adv_interrog", "adv_rel"];
    assert CategorySum(ms, p4, 3) == 0;
    assert CategorySum(ms, p4, 2) == ms["adv_rel"] + CategorySum(ms, p4, 3);
    assert CategorySum(ms, p4, 1) == ms["adv_interrog"] + CategorySum(ms, p4, 2);
    assert CategorySum(ms, p4, 0) == ms["adv"] + CategorySum(ms, p4, 1);
  }

  /** The pronouns, verbs, particles, tag by tag. */
  lemma PosVerbalSpelled(ms: multiset<string>)
    ensures PosVector(ms)[5] == ms["pron"] + ms["pron_dem"] + ms["pron_exclam"] + ms["pron_interrog"] + ms["pron_rel"]
    ensures PosVector(ms)[6] == ms["verb"] + ms["verb_pseudo"]
    ensures PosVector(ms)[7] == ms["part"] + ms["part_dem"] + ms["part_det"] + ms["part_focus"] + ms["part_fut"] + ms["part_interrog"] + ms["part_neg"] + ms["part_restrict"] + ms["part_verb"] + ms["part_voc"]
  {
    var p5 := PosCategories[5];
    assert p5 == ["pron", "pron_dem", "pron_exclam", "pron_interrog", "pron_rel"];
    assert CategorySum(ms, p5, 5) == 0;
    assert CategorySum(ms, p5, 4) == ms["pron_rel"] + CategorySum(ms, p5, 5);
    assert CategorySum(ms, p5, 3) == ms["pron_interrog"] + CategorySum(ms, p5, 4);
    assert CategorySum(ms, p5, 2) == ms["pron_exclam"] + CategorySum(ms, p5, 3);
    assert CategorySum(ms, p5, 1) == ms["pron_dem"] + CategorySum(ms, p5, 2);
    assert CategorySum(ms, p5, 0) == ms["pron"] + CategorySum(ms, p5, 1);
    var p6 := PosCategories[6];
    assert p6 == ["verb", "verb_pseudo"];
    assert CategorySum(ms, p6, 2) == 0;
    assert CategorySum(ms, p6, 1) == ms["verb_pseudo"] + CategorySum(ms, p6, 2);
    assert CategorySum(ms, p6, 0) == ms["verb"] + CategorySum(ms, p6, 1);
    var p7 := PosCategories[7];
    assert p7 == ["part", "part_dem", "part_det", "part_focus", "part_fut", "part_interrog", "part_neg", "part_restrict", "part_verb", "part_voc"];
    assert CategorySum(ms, p7, 10) == 0;
    assert CategorySum(ms, p7, 9) == ms["part_voc"] + CategorySum(ms, p7, 10);
    assert CategorySum(ms, p7, 8) == ms["part_verb"] + CategorySum(ms, p7, 9);
    assert CategorySum(ms, p7, 7) == ms["part_restrict"] + CategorySum(ms, p7, 8);
    assert CategorySum(ms, p7, 6) == ms["part_neg"] + CategorySum(ms, p7, 7);
    assert CategorySum(ms, p7, 5) == ms["part_interrog"] + CategorySum(ms, p7, 6);
    assert CategorySum(ms, p7, 4) == ms["part_fut"] + CategorySum(ms, p7, 5);
    assert CategorySum(ms, p7, 3) == ms["part_focus"] + CategorySum(ms, p7, 4);
    assert CategorySum(ms, p7, 2) == ms["part_det"] + CategorySum(ms, p7, 3);
    assert CategorySum(ms, p7, 1) == ms["part_dem"] + CategorySum(ms, p7, 2);
    assert CategorySum(ms, p7, 0) == ms["part"] + CategorySum(ms, p7, 1);
  }

  /** The prepositions to Latin, tag by tag. */
  lemma PosOtherSpelled(ms: multiset<string>)
    ensures PosVector(ms)[8] == ms["prep"]
    ensures PosVector(ms)[9] == ms["abbrev"]
    ensures PosVector(ms)[10] == ms["punc"]
    ensures PosVector(ms)[11] == ms["conj"] + ms["conj_sub"]
    ensures PosVector(ms)[12] == ms["interj"]
    ensures PosVector(ms)[13] == ms["digit"]
    ensures PosVector(ms)[14] == ms["latin"]
  {
    var p8 := PosCategories[8];
    assert p8 == ["prep"];
    assert CategorySum(ms, p8, 1) == 0;
    assert CategorySum(ms, p8, 0) == ms["prep"] + CategorySum(ms, p8, 1);
    var p9 := PosCategories[9];
    assert p9 == ["abbrev"];
    assert CategorySum(ms, p9, 1) == 0;
    assert CategorySum(ms, p9, 0) == ms["abbrev"] + CategorySum(ms, p9, 1);
    var p10 := PosCategories[10];
    assert p10 == ["punc"];
    assert CategorySum(ms, p10, 1) == 0;
    assert CategorySum(ms, p10, 0) == ms["punc"] + CategorySum(ms, p10, 1);
    var p11 := PosCategories[11];
    assert p11 == ["conj", "conj_sub"];
    assert CategorySum(ms, p11, 2) == 0;
    assert CategorySum(ms, p11, 1) == ms["conj_sub"] + CategorySum(ms, p11, 2);
    assert CategorySum(ms, p11, 0) == ms["conj"] + CategorySum(ms, p11, 1);
    var p12 := PosCategories[12];
    assert p12 == ["interj"];
    assert CategorySum(ms, p12, 1) == 0;
    assert CategorySum(ms, p12, 0) == ms["interj"] + CategorySum(ms, p12, 1);
    var p13 := PosCategories[13];
    assert p13 == ["digit"];
    assert CategorySum(ms, p13, 1) == 0;
    assert CategorySum(ms, p13, 0) == ms["digit"] + CategorySum(ms, p13, 1);
    var p14 := PosCategories[14];
    assert p14 == ["latin"];
    assert CategorySum(ms, p14, 1) == 0;
    assert CategorySum(ms, p14, 0) == ms["latin"] + CategorySum(ms, p14, 1);
  }

  /** The whole POS block, tag by tag. */
  lemma PosVectorSpelled(ms: multiset<string>)
    ensures PosVector(ms) == [
      ms["noun"],
      ms["noun_num"] + ms["noun_quant"],
      ms["noun_prop"],
      ms["adj"] + ms["adj_comp"] + ms["adj_num"],
      ms["adv"] + ms["adv_interrog"] + ms["adv_rel"],
      ms["pron"] + ms["pron_dem"] + ms["pron_exclam"] + ms["pron_interrog"] + ms["pron_rel"],
      ms["verb"] + ms["verb_pseudo"],
      ms["part"] + ms["part_dem"] + ms["part_det"] + ms["part_focus"] + ms["part_fut"] + ms["part_interrog"] + ms["part_neg"] + ms["part_restrict"] + ms["part_verb"] + ms["part_voc"],
      ms["prep"],
      ms["abbrev"],
      ms["punc"],
      ms["conj"] + ms["conj_sub"],
      ms["interj"],
      ms["digit"],
      ms["latin"]]
  {
    PosNominalSpelled(ms);
    PosVerbalSpelled(ms);
    PosOtherSpelled(ms);
  }

  /** One step of the POS block: `if (posTags.containsKey(tag)) total += posTags.get(tag)`. */
  method AddTally(total: nat, posTags: multiset<string>, tag: string) returns (sum: nat)
    ensures sum == total + posTags[tag]
  {
    sum := total;
    if tag in posTags {
      sum := sum + posTags[tag];
    }
  }

  /** The first five POS features of outputFeatures: a containsKey test and an
      addition per raw tag. */
  method NominalTallies(posTags: multiset<string>)
    returns (nouns: nat, numberwords: nat, propernouns: nat, adjectives: nat, adverbs: nat)
    ensures nouns == PosVector(posTags)[0] && numberwords == PosVector(posTags)[1]
    ensures propernouns == PosVector(posTags)[2] && adjectives == PosVector(posTags)[3]
    ensures adverbs == PosVector(posTags)[4]
  {
    nouns, numberwords, propernouns, adjectives, adverbs := 0, 0, 0, 0, 0;
    if "noun" in posTags { nouns := posTags["noun"]; }
    numberwords := AddTally(numberwords, posTags, "noun_num");
    numberwords := AddTally(numberwords, posTags, "noun_quant");
    propernouns := AddTally(propernouns, posTags, "noun_prop");
    adjectives := AddTally(adjectives, posTags, "adj");
    adjectives := AddTally(adjectives, posTags, "adj_comp");
    adjectives := AddTally(adjectives, posTags, "adj_num");
    adverbs := AddTally(adverbs, posTags, "adv");
    adverbs := AddTally(adverbs, posTags, "adv_interrog");
    adverbs := AddTally(adverbs, posTags, "adv_rel");
    PosNominalSpelled(posTags);
  }

  /** The pronoun, verb and particle features. */
  method VerbalTallies(posTags: multiset<string>) returns (pronouns: nat, verbs: nat, particles: nat)
    ensures pronouns == PosVector(posTags)[5] && verbs == PosVector(posTags)[6]
    ensures particles == PosVector(posTags)[7]
  {
    pronouns, verbs, particles := 0, 0, 0;
    pronouns := AddTally(pronouns, posTags, "pron");
    pronouns := AddTally(pronouns, posTags, "pron_dem");
    pronouns := AddTally(pronouns, posTags, "pron_exclam");
    pronouns := AddTally(pronouns, posTags, "pron_interrog");
    pronouns := AddTally(pronouns, posTags, "pron_rel");
    verbs := AddTally(verbs, posTags, "verb");
    verbs := AddTally(verbs, posTags, "verb_pseudo");
    particles := AddTally(particles, posTags, "part");
    particles := AddTally(particles, posTags, "part_dem");
    particles := AddTally(particles, posTags, "part_det");
    particles := AddTally(particles, posTags, "part_focus");
    particles := AddTally(particles, posTags, "part_fut");
    particles := AddTally(particles, posTags, "part_interrog");
    particles := AddTally(particles, posTags, "part_neg");
    particles := AddTally(particles, posTags, "part_restrict");
    particles := AddTally(particles, posTags, "part_verb");
    particles := AddTally(particles, posTags, "part_voc");
    PosVerbalSpelled(posTags);
  }

  /** The preposition to Latin features. */
  method OtherTallies(posTags: multiset<string>)
    returns (prepositions: nat, abbreviations: nat, punctuation: nat, conjunctions: nat,
             interjections: nat, digitalnumbers: nat, latin: nat)
    ensures prepositions == PosVector(posTags)[8] && abbreviations == PosVector(posTags)[9]
    ensures punctuation == PosVector(posTags)[10] && conjunctions == PosVector(posTags)[11]
    ensures interjections == PosVector(posTags)[12] && digitalnumbers == PosVector(posTags)[13]
    ensures latin == PosVector(posTags)[14]
  {
    prepositions, abbreviations, punctuation, conjunctions := 0, 0, 0, 0;
    interjections, digitalnumbers, latin := 0, 0, 0;
    prepositions := AddTally(prepositions, posTags, "prep");
    abbreviations := AddTally(abbreviations, posTags, "abbrev");
    punctuation := AddTally(punctuation, posTags, "punc");
    conjunctions := AddTally(conjunctions, posTags, "conj");
    conjunctions := AddTally(conjunctions, posTags, "conj_sub");
    if "interj" in posTags { interjections := posTags["interj"]; }
    if "digit" in posTags { digitalnumbers := posTags["digit"]; }
    if "latin" in posTags { latin := posTags["latin"]; }
    PosOtherSpelled(posTags);
  }

  /** The POS block of outputFeatures, the fifteen features in order. */
  method PosFeatures(posTags: multiset<string>) returns (counts: seq<nat>)
    ensures counts == PosVector(posTags)
  {
    var nouns, numberwords, propernouns, adjectives, adverbs := NominalTallies(posTags);
    var pronouns, verbs, particles := VerbalTallies(posTags);
    var prepositions, abbreviations, punctuation, conjunctions, interjections, digitalnumbers, latin := OtherTallies(posTags);
    counts := [nouns, numberwords, propernouns, adjectives, adverbs, pronouns, verbs, particles,
               prepositions, abbreviations, punctuation, conjunctions, interjections, digitalnumbers, latin];
  }

  // ---------------------------------------------------------------------
  // The feature vector of one tweet

  /** The fourteen features before the POS block, by name. */
  datatype Scalars = Scalars(
    wordPositive: nat, wordNegative: nat,
    posHashtags: nat, negHashtags: nat,
    exclamation: nat, question: nat, both: nat, elongated: nat,
    switches: nat,
    emoPositive: nat, emoNegative: nat,
    emoPresence: nat, mentions: nat, urls: nat)

  /** They come first in the vector, in this order. */
  function Columns(s: Scalars): (r: seq<nat>)
    ensures |r| == 14
  {
    [s.wordPositive, s.wordNegative, s.posHashtags, s.negHashtags,
     s.exclamation, s.question, s.both, s.elongated, s.switches,
     s.emoPositive, s.emoNegative, s.emoPresence, s.mentions, s.urls]
  }

  /** Word polarity, hashtag polarity, the "!", "?" and "?!" counts, elongated words,
      negation switches, emoticon and emoji polarity, and the emoticon, mention and
      URL indicators. */
  function ScalarFeatures(t: PolarityInfo.Tables, p: Preprocessor.Preprocessed, lemmas: seq<string>,
                          hashtags: seq<seq<string>>): Scalars
    requires |hashtags| <= |p.hashtags|
  {
    var words := PolarityInfo.WordVotes(t, lemmas, p.normalized, p.negated);
    var emoticons := PolarityInfo.EmoticonVotes(p.emoticons);
    var emojis := PolarityInfo.EmojiVotes(t, p.emojis);
    var negHashtags := NegativeHashtags(t, hashtags, p.hashtags);
    Scalars(PolarityInfo.Count(words, Positive), PolarityInfo.Count(words, Negative),
            |hashtags| - negHashtags, negHashtags,
            p.punctuation.exclamation, p.punctuation.question, p.punctuation.both, p.elongated,
            Switches(p.negated),
            PolarityInfo.Count(emoticons, Positive) + PolarityInfo.Count(emojis, Positive),
            PolarityInfo.Count(emoticons, Negative) + PolarityInfo.Count(emojis, Negative),
            if |p.emoticons| + |p.emojis| == 0 then 0 else 1,
            if p.mentions then 1 else 0,
            if p.urls then 1 else 0)
  }

  /** The n-gram blocks of a tweet, word n-grams first. */
  function NgramBlocks(v: Vocabularies, tweet: string): seq<nat>
  {
    WordNgramFeatures(v, tweet) + CharNgramFeatures(v, tweet)
  }

  /** What outputFeatures returns; hashtag r is scored against the preprocessed words
      of hashtag r, so more lemmatized hashtags than preprocessed ones make it throw. */
  function FeatureVector(t: PolarityInfo.Tables, v: Vocabularies, p: Preprocessor.Preprocessed,
                         posTags: multiset<string>, lemmas: seq<string>, hashtags: seq<seq<string>>): Option<seq<nat>>
  {
    if |hashtags| > |p.hashtags| then None
    else Some(Columns(ScalarFeatures(t, p, lemmas, hashtags)) + PosVector(posTags) + NgramBlocks(v, Spaced(lemmas)))
  }

  /** The number of features outputFeatures returns. */
  function FeatureWidth(v: Vocabularies): nat
  {
    29 + WordNgramWidth(v) + CharNgramWidth(v)
  }

  /** The first fourteen appends of outputFeatures, from the word polarity to the URL
      indicator. */
  method OutputScalarFeatures(t: PolarityInfo.Tables, p: Preprocessor.Preprocessed, lemmatizedTweet: seq<string>,
                              hashtags: seq<seq<string>>) returns (scalars: Scalars)
    requires |hashtags| <= |p.hashtags|
    ensures scalars == ScalarFeatures(t, p, lemmatizedTweet, hashtags)
  {
    var wordPositive, wordNegative := PolarityInfo.GetWordsInfo(t, lemmatizedTweet, p.normalized, p.negated);
    var posHashtags, negHashtags := HashtagTallies(t, hashtags, p.hashtags);
    var switches := CountSwitches(p.negated);
    var emoPositive, emoNegative := PolarityInfo.GetEmoticonsInfo(t, p.emoticons, p.emojis);
    var emoCount := |p.emoticons| + |p.emojis|;
    var presence := if emoCount == 0 then 0 else 1;
    var hasMentions := if p.mentions then 1 else 0;
    var hasURL := if p.urls then 1 else 0;
    scalars := Scalars(wordPositive, wordNegative, posHashtags, negHashtags,
                       p.punctuation.exclamation, p.punctuation.question, p.punctuation.both, p.elongated,
                       switches, emoPositive, emoNegative, presence, hasMentions, hasURL);
  }

  /** outputFeatures */
  method OutputFeatures(t: PolarityInfo.Tables, v: Vocabularies, p: Preprocessor.Preprocessed,
                        posTags: multiset<string>, lemmatizedTweet: seq<string>, hashtags: seq<seq<string>>)
    returns (r: Option<seq<nat>>)
    ensures r == FeatureVector(t, v, p, posTags, lemmatizedTweet, hashtags)
  {
    if |hashtags| > |p.hashtags| {
      return None;
    }
    var scalars := OutputScalarFeatures(t, p, lemmatizedTweet, hashtags);
    var features := Columns(scalars);
    var pos := PosFeatures(posTags);
    features := features + pos;
    var tweet := SpacedText(lemmatizedTweet);
    var wordNgrams := OutputNgramFeatures(v, tweet);
    var charNgrams := OutputCharNgramFeatures(v, tweet);
    features := features + (wordNgrams + charNgrams);
    r := Some(features);
  }

  /** outputFeatures returns a vector exactly when there are no more lemmatized
      hashtags than preprocessed ones; it has 29 + n-gram entries, in blocks. */
  lemma FeatureBlocks(t: PolarityInfo.Tables, v: Vocabularies, p: Preprocessor.Preprocessed,
                      posTags: multiset<string>, lemmas: seq<string>, hashtags: seq<seq<string>>)
    ensures FeatureVector(t, v, p, posTags, lemmas, hashtags).Some? <==> |hashtags| <= |p.hashtags|
    ensures FeatureVector(t, v, p, posTags, lemmas, hashtags).Some? ==>
            var r := FeatureVector(t, v, p, posTags, lemmas, hashtags).value;
            var w := 29 + WordNgramWidth(v);
            && |r| == FeatureWidth(v)
            && r[..14] == Columns(ScalarFeatures(t, p, lemmas, hashtags))
            && r[14..29] == PosVector(posTags)
            && r[29..w] == WordNgramFeatures(v, Spaced(lemmas))
            && r[w..] == CharNgramFeatures(v, Spaced(lemmas))
  {
    if |hashtags| <= |p.hashtags| {
      var a := Columns(ScalarFeatures(t, p, lemmas, hashtags));
      var b := PosVector(posTags);
      var c := WordNgramFeatures(v, Spaced(lemmas));
      var d := CharNgramFeatures(v, Spaced(lemmas));
      Blocks(a, b, c, d);
    }
  }

  /** Where four blocks, the first two of 14 and 15 entries, lie in their concatenation. */
  lemma Blocks(a: seq<nat>, b: seq<nat>, c: seq<nat>, d: seq<nat>)
    requires |a| == 14 && |b| == 15
    ensures var r := a + b + (c + d);
            && |r| == 29 + |c| + |d|
            && r[..14] == a && r[14..29] == b && r[29..29 + |c|] == c && r[29 + |c|..] == d
  {
    var r := a + b + (c + d);
    assert r[..14] == a;
    assert r[14..29] == b;
    assert r[29..] == c + d;
    assert r[29..29 + |c|] == (c + d)[..|c|] == c;
    assert r[29 + |c|..] == (c + d)[|c|..] == d;
  }

  /** The indices of the negative hashtags. */
  function NegativeIndices(t: PolarityInfo.Tables, hashtags: seq<seq<string>>, normalized: seq<seq<string>>): set<nat>
    requires |hashtags| <= |normalized|
  {
    set r: nat | r < |hashtags| && NegativeHashtag(t, hashtags[r], normalized[r])
  }

  /** negHashtags counts the negative hashtags, and every other hashtag, ties
      included, counts as positive. */
  lemma NegativeHashtagsCount(t: PolarityInfo.Tables, hashtags: seq<seq<string>>, normalized: seq<seq<string>>)
    requires |hashtags| <= |normalized|
    ensures NegativeHashtags(t, hashtags, normalized) == |NegativeIndices(t, hashtags, normalized)|
  {
    var pick := NegativeAt(t, hashtags, normalized);
    CountIfSize(|hashtags|, pick);
    assert NegativeIndices(t, hashtags, normalized) == set r: nat | r < |hashtags| && pick(r);
  }

  /** What the fourteen scalar features mean: the two hashtag features split the
      hashtags, the word and emoticon tallies count at most one vote per item, the
      switches are the positions where a negation scope opens after an unnegated word,
      and the last three are indicators. */
  lemma ScalarMeaning(t: PolarityInfo.Tables, p: Preprocessor.Preprocessed, lemmas: seq<string>, hashtags: seq<seq<string>>)
    requires |hashtags| <= |p.hashtags|
    ensures var s := ScalarFeatures(t, p, lemmas, hashtags);
            && s.wordPositive + s.wordNegative <= |lemmas|
            && s.posHashtags + s.negHashtags == |hashtags|
            && s.negHashtags == |NegativeIndices(t, hashtags, p.hashtags)|
            && s.exclamation == p.punctuation.exclamation && s.question == p.punctuation.question
            && s.both == p.punctuation.both && s.elongated == p.elongated
            && s.switches == |SwitchPoints(p.negated)|
            && s.emoPositive + s.emoNegative <= |p.emoticons| + |p.emojis|
            && s.emoPresence <= 1 && (s.emoPresence == 1 <==> |p.emoticons| + |p.emojis| > 0)
            && s.mentions <= 1 && (s.mentions == 1 <==> p.mentions)
            && s.urls <= 1 && (s.urls == 1 <==> p.urls)
  {
    PolarityInfo.CountBound(PolarityInfo.WordVotes(t, lemmas, p.normalized, p.negated));
    PolarityInfo.CountBound(PolarityInfo.EmoticonVotes(p.emoticons));
    PolarityInfo.CountBound(PolarityInfo.EmojiVotes(t, p.emojis));
    NegativeHashtagsCount(t, hashtags, p.hashtags);
    SwitchesCount(p.negated);
  }

  // ---------------------------------------------------------------------
  // The batch

  /** The features of tweet i, from the map outputXML returned: the n-gram blocks
      alone, or the whole vector. An index the map lacks makes elementAt or get throw. */
  function TweetFeatures(t: PolarityInfo.Tables, v: Vocabularies, a: XMLParser.Analysis,
                         p: Preprocessor.Preprocessed, i: nat, onlyNgrams: bool): Option<seq<nat>>
  {
    if i >= |a.lemmas| then None
    else if onlyNgrams then Some(NgramBlocks(v, Spaced(a.lemmas[i])))
    else if i >= |a.pos| || i >= |a.hashtags| then None
    else FeatureVector(t, v, p, a.pos[i], a.lemmas[i], a.hashtags[i])
  }

  /** The outcome of every tweet of a batch, by index. */
  function TweetOutcome(t: PolarityInfo.Tables, v: Vocabularies, a: XMLParser.Analysis,
                        preprocessed: seq<Preprocessor.Preprocessed>, onlyNgrams: bool): nat -> Option<seq<nat>>
  {
    (i: nat) => if i < |preprocessed| then TweetFeatures(t, v, a, preprocessed[i], i, onlyNgrams) else None
  }

  lemma TweetAt(t: PolarityInfo.Tables, v: Vocabularies, a: XMLParser.Analysis,
                preprocessed: seq<Preprocessor.Preprocessed>, onlyNgrams: bool, i: nat)
    requires i < |preprocessed|
    ensures TweetOutcome(t, v, a, preprocessed, onlyNgrams)(i) == TweetFeatures(t, v, a, preprocessed[i], i, onlyNgrams)
  {
  }

  /** The vector a loop has built after its first n iterations, iteration i adding
      the value of outcome(i); nothing once one of them has thrown. */
  function Collect<T>(outcome: nat -> Option<T>, n: nat): Option<seq<T>>
  {
    if n == 0 then Some([])
    else
      var init := Collect(outcome, n - 1);
      var last := outcome(n - 1);
      if init.None? || last.None? then None else Some(init.value + [last.value])
  }

  /** One more iteration of a loop specified by Collect. */
  lemma CollectStep<T>(outcome: nat -> Option<T>, n: nat, built: seq<T>, x: Option<T>)
    requires Collect(outcome, n) == Some(built) && outcome(n) == x
    ensures x.None? ==> Collect(outcome, n + 1) == None
    ensures x.Some? ==> Collect(outcome, n + 1) == Some(built + [x.value])
  {
  }

  lemma {:induction false} CollectStaysNone<T>(outcome: nat -> Option<T>, n: nat, m: nat)
    requires n <= m && Collect(outcome, n).None?
    ensures Collect(outcome, m).None?
    decreases m - n
  {
    if n < m {
      CollectStaysNone(outcome, n + 1, m);
    }
  }

  /** Collecting yields every value, in order, exactly when none is missing. */
  lemma {:induction false} CollectAll<T>(outcome: nat -> Option<T>, n: nat)
    ensures Collect(outcome, n).Some? <==> forall i: nat :: i < n ==> outcome(i).Some?
    ensures Collect(outcome, n).Some? ==>
            && |Collect(outcome, n).value| == n
            && forall i: nat :: i < n ==> Collect(outcome, n).value[i] == outcome(i).value
  {
    if n > 0 {
      CollectAll(outcome, n - 1);
    }
  }

  /** One iteration of the loop of generateFeatureFile: the n-gram blocks of the
      spaced lemmas, or outputFeatures. */
  method OneTweet(t: PolarityInfo.Tables, v: Vocabularies, a: XMLParser.Analysis,
                  p: Preprocessor.Preprocessed, i: nat, onlyNgrams: bool) returns (f: Option<seq<nat>>)
    ensures f == TweetFeatures(t, v, a, p, i, onlyNgrams)
  {
    f := None;
    if onlyNgrams {
      if i < |a.lemmas| {
        var tweet := SpacedText(a.lemmas[i]);
        var wordAndCharNgrams := OutputNgramFeatures(v, tweet);
        var charNgrams := OutputCharNgramFeatures(v, tweet);
        wordAndCharNgrams := wordAndCharNgrams + charNgrams;
        f := Some(wordAndCharNgrams);
      }
    } else if i < |a.pos| && i < |a.lemmas| && i < |a.hashtags| {
      f := OutputFeatures(t, v, p, a.pos[i], a.lemmas[i], a.hashtags[i]);
    }
  }

  /** The loop of generateFeatureFile over the tweets. */
  method FeatureVectors(t: PolarityInfo.Tables, v: Vocabularies, a: XMLParser.Analysis,
                        preprocessed: seq<Preprocessor.Preprocessed>, onlyNgrams: bool)
    returns (features: Option<seq<seq<nat>>>)
    ensures features == Collect(TweetOutcome(t, v, a, preprocessed, onlyNgrams), |preprocessed|)
  {
    ghost var outcome := TweetOutcome(t, v, a, preprocessed, onlyNgrams);
    var fs: seq<seq<nat>> := [];
    for i := 0 to |preprocessed|
      invariant Collect(outcome, i) == Some(fs)
    {
      var f := OneTweet(t, v, a, preprocessed[i], i, onlyNgrams);
      BatchStep(t, v, a, preprocessed, onlyNgrams, i, fs, f);
      if f.None? {
        return None;
      }
      fs := fs + [f.value];
    }
    features := Some(fs);
  }

  /** One iteration of the batch loop: the vector of tweet i is appended, or the loop
      throws. */
  lemma BatchStep(t: PolarityInfo.Tables, v: Vocabularies, a: XMLParser.Analysis,
                  preprocessed: seq<Preprocessor.Preprocessed>, onlyNgrams: bool, i: nat,
                  fs: seq<seq<nat>>, f: Option<seq<nat>>)
    requires i < |preprocessed| && Collect(TweetOutcome(t, v, a, preprocessed, onlyNgrams), i) == Some(fs)
    requires f == TweetFeatures(t, v, a, preprocessed[i], i, onlyNgrams)
    ensures f.None? ==> Collect(TweetOutcome(t, v, a, preprocessed, onlyNgrams), |preprocessed|) == None
    ensures f.Some? ==> Collect(TweetOutcome(t, v, a, preprocessed, onlyNgrams), i + 1) == Some(fs + [f.value])
  {
    var outcome := TweetOutcome(t, v, a, preprocessed, onlyNgrams);
    TweetAt(t, v, a, preprocessed, onlyNgrams, i);
    CollectStep(outcome, i, fs, f);
    if f.None? {
      CollectStaysNone(outcome, i + 1, |preprocessed|);
    }
  }

  /** The number of features of every tweet of a batch. */
  function BatchWidth(v: Vocabularies, onlyNgrams: bool): nat
  {
    if onlyNgrams then WordNgramWidth(v) + CharNgramWidth(v) else FeatureWidth(v)
  }

  /** Every vector a tweet yields has the width of the batch. */
  lemma TweetWidth(t: PolarityInfo.Tables, v: Vocabularies, a: XMLParser.Analysis,
                   p: Preprocessor.Preprocessed, i: nat, onlyNgrams: bool)
    requires TweetFeatures(t, v, a, p, i, onlyNgrams).Some?
    ensures |TweetFeatures(t, v, a, p, i, onlyNgrams).value| == BatchWidth(v, onlyNgrams)
  {
    if !onlyNgrams {
      FeatureBlocks(t, v, p, a.pos[i], a.lemmas[i], a.hashtags[i]);
    }
  }

  /** The loop yields one vector per tweet, in tweet order, all of the batch width,
      exactly when no tweet throws. */
  lemma FeaturesShape(t: PolarityInfo.Tables, v: Vocabularies, a: XMLParser.Analysis,
                      preprocessed: seq<Preprocessor.Preprocessed>, onlyNgrams: bool)
    ensures var outcome := TweetOutcome(t, v, a, preprocessed, onlyNgrams);
            var fs := Collect(outcome, |preprocessed|);
            && (fs.Some? <==> forall i: nat :: i < |preprocessed| ==> outcome(i).Some?)
            && (fs.Some? ==>
                && |fs.value| == |preprocessed|
                && forall i: nat :: i < |preprocessed| ==>
                     && fs.value[i] == outcome(i).value
                     && |fs.value[i]| == BatchWidth(v, onlyNgrams))
  {
    var outcome := TweetOutcome(t, v, a, preprocessed, onlyNgrams);
    CollectAll(outcome, |preprocessed|);
    if Collect(outcome, |preprocessed|).Some? {
      forall i: nat | i < |preprocessed|
        ensures |outcome(i).value| == BatchWidth(v, onlyNgrams)
      {
        TweetWidth(t, v, a, preprocessed[i], i, onlyNgrams);
      }
    }
  }

  // ---------------------------------------------------------------------
  // LibSVM serialisation

  /** The nonzero entries of a vector as (column, value) pairs, columns counted
      from 1, in column order. */
  function Entries(f: seq<nat>): seq<(nat, nat)>
    decreases |f|
  {
    if f == [] then []
    else Entries(f[..|f| - 1]) + (if f[|f| - 1] > 0 then [(|f|, f[|f| - 1])] else [])
  }

  /** "(j+1):f " for one entry. */
  function EntryText(e: (nat, nat)): string
  {
    NatToString(e.0) + ":" + NatToString(e.1) + " "
  }

  function Render(entries: seq<(nat, nat)>): string
    decreases |entries|
  {
    if entries == [] then "" else Render(entries[..|entries| - 1]) + EntryText(entries[|entries| - 1])
  }

  /** The line written for a vector when the batch width is `width`: the label "0 "
      and the nonzero entries among the first `width` columns. A vector shorter than
      the width makes elementAt throw. */
  function SparseLine(f: seq<nat>, width: nat): Option<string>
  {
    if |f| < width then None else Some("0 " + Render(Entries(f[..width])))
  }

  /** The lines of the vectors, each written with the width of the first vector;
      an empty batch makes elementAt(0) throw, and no line is written. */
  function SparseLines(features: seq<seq<nat>>): Option<seq<string>>
  {
    if features == [] then None
    else Collect(LineOutcome(features), |features|)
  }

  /** The line of vector i, by index, as Collect consumes it. */
  function LineOutcome(features: seq<seq<nat>>): nat -> Option<seq<char>>
    requires features != []
  {
    (i: nat) => if i < |features| then SparseLine(features[i], |features[0]|) else None
  }

  /** One more column adds its entry to the text when it is nonzero. */
  lemma TextSnoc(f: seq<nat>, j: nat)
    requires j < |f|
    ensures Render(Entries(f[..j + 1])) ==
            Render(Entries(f[..j])) + (if f[j] > 0 then EntryText((j + 1, f[j])) else "")
  {
    assert f[..j + 1][..j] == f[..j];
    var es := Entries(f[..j]);
    if f[j] > 0 {
      assert (es + [(j + 1, f[j])])[..|es|] == es;
    } else {
      assert es + [] == es;
    }
  }

  /** The loop over the columns of one vector, after the label "0 " is printed. */
  method WriteLine(tweetFeatures: seq<nat>, nbOfFeatures: nat) returns (line: Option<string>)
    ensures line == SparseLine(tweetFeatures, nbOfFeatures)
  {
    var printed := "";
    for j := 0 to nbOfFeatures
      invariant j <= |tweetFeatures|
      invariant printed == Render(Entries(tweetFeatures[..j]))
    {
      if j >= |tweetFeatures| {
        return None;
      }
      TextSnoc(tweetFeatures, j);
      var f := tweetFeatures[j];
      if f > 0 {
        printed := printed + EntryText((j + 1, f));
      }
    }
    line := Some("0 " + printed);
  }

  /** The writer loop of generateFeatureFile. */
  method WriteFeatures(features: seq<seq<nat>>) returns (lines: Option<seq<string>>)
    ensures lines == SparseLines(features)
  {
    if |features| == 0 {
      return None;
    }
    var nbOfFeatures := |features[0]|;
    ghost var outcome := LineOutcome(features);
    var out: seq<string> := [];
    for i := 0 to |features|
      invariant Collect(outcome, i) == Some(out)
    {
      var line := WriteLine(features[i], nbOfFeatures);
      LineStep(features, i, out, line);
      if line.None? {
        return None;
      }
      out := out + [line.value];
    }
    lines := Some(out);
  }

  /** One iteration of the writer loop: the line of vector i is appended, or the loop
      throws. */
  lemma LineStep(features: seq<seq<nat>>, i: nat, out: seq<string>, line: Option<string>)
    requires i < |features| && Collect(LineOutcome(features), i) == Some(out)
    requires line == SparseLine(features[i], |features[0]|)
    ensures line.None? ==> Collect(LineOutcome(features), |features|) == None
    ensures line.Some? ==> Collect(LineOutcome(features), i + 1) == Some(out + [line.value])
  {
    var outcome := LineOutcome(features);
    assert outcome(i) == line;
    CollectStep(outcome, i, out, line);
    if line.None? {
      CollectStaysNone(outcome, i + 1, |features|);
    }
  }

  /** Every pair names a column of the vector and holds its value, which is never 0,
      and the columns strictly increase. */
  lemma {:induction false} EntriesWellFormed(f: seq<nat>)
    ensures forall k :: 0 <= k < |Entries(f)| ==>
              && 1 <= Entries(f)[k].0 <= |f|
              && Entries(f)[k].1 == f[Entries(f)[k].0 - 1]
              && Entries(f)[k].1 > 0
    ensures forall k, l :: 0 <= k < l < |Entries(f)| ==> Entries(f)[k].0 < Entries(f)[l].0
    decreases |f|
  {
    if f != [] {
      var init := f[..|f| - 1];
      var es := Entries(init);
      EntriesWellFormed(init);
      if f[|f| - 1] > 0 {
        assert Entries(f) == es + [(|f|, f[|f| - 1])];
        EntriesGrow(f, es, (|f|, f[|f| - 1]));
      } else {
        assert Entries(f) == es + [];
        EntriesKeep(f, es);
      }
    }
  }

  /** The step of EntriesWellFormed where the last column is nonzero. */
  lemma EntriesGrow(f: seq<nat>, es: seq<(nat, nat)>, e: (nat, nat))
    requires f != [] && e == (|f|, f[|f| - 1]) && e.1 > 0
    requires forall k :: 0 <= k < |es| ==>
               1 <= es[k].0 <= |f| - 1 && es[k].1 == f[..|f| - 1][es[k].0 - 1] && es[k].1 > 0
    requires forall k, l :: 0 <= k < l < |es| ==> es[k].0 < es[l].0
    ensures forall k :: 0 <= k < |es + [e]| ==>
              && 1 <= (es + [e])[k].0 <= |f|
              && (es + [e])[k].1 == f[(es + [e])[k].0 - 1]
              && (es + [e])[k].1 > 0
    ensures forall k, l :: 0 <= k < l < |es + [e]| ==> (es + [e])[k].0 < (es + [e])[l].0
  {
    var init := f[..|f| - 1];
    var out := es + [e];
    forall k | 0 <= k < |out|
      ensures 1 <= out[k].0 <= |f| && out[k].1 == f[out[k].0 - 1] && out[k].1 > 0
    {
      if k < |es| {
        assert out[k] == es[k];
        assert init[es[k].0 - 1] == f[es[k].0 - 1];
      }
    }
    forall k, l | 0 <= k < l < |out|
      ensures out[k].0 < out[l].0
    {
      assert out[k] == es[k];
      if l < |es| {
        assert out[l] == es[l];
      }
    }
  }

  /** The step of EntriesWellFormed where the last column is 0 and adds no pair. */
  lemma EntriesKeep(f: seq<nat>, es: seq<(nat, nat)>)
    requires f != []
    requires forall k :: 0 <= k < |es| ==>
               1 <= es[k].0 <= |f| - 1 && es[k].1 == f[..|f| - 1][es[k].0 - 1] && es[k].1 > 0
    ensures forall k :: 0 <= k < |es| ==>
              1 <= es[k].0 <= |f| && es[k].1 == f[es[k].0 - 1] && es[k].1 > 0
  {
    forall k | 0 <= k < |es|
      ensures es[k].1 == f[es[k].0 - 1]
    {
      assert f[..|f| - 1][es[k].0 - 1] == f[es[k].0 - 1];
    }
  }

  /** The value of column c among the pairs, 0 when no pair names it. */
  function Lookup(entries: seq<(nat, nat)>, c: nat): nat
    decreases |entries|
  {
    if entries == [] then 0
    else if entries[|entries| - 1].0 == c then entries[|entries| - 1].1
    else Lookup(entries[..|entries| - 1], c)
  }

  /** The vector of the given width that the pairs describe. */
  function Dense(entries: seq<(nat, nat)>, width: nat): (r: seq<nat>)
    ensures |r| == width
  {
    seq(width, j requires 0 <= j < width => Lookup(entries, j + 1))
  }

  lemma {:induction false} LookupEntries(f: seq<nat>, c: nat)
    requires 1 <= c
    ensures Lookup(Entries(f), c) == if c <= |f| then f[c - 1] else 0
    decreases |f|
  {
    if f != [] {
      var init := f[..|f| - 1];
      LookupEntries(init, c);
      if c <= |init| {
        assert init[c - 1] == f[c - 1];
      }
      var es := Entries(init);
      if f[|f| - 1] > 0 {
        assert Entries(f) == es + [(|f|, f[|f| - 1])];
        assert (es + [(|f|, f[|f| - 1])])[..|es|] == es;
      } else {
        assert Entries(f) == es + [] == es;
      }
    }
  }

  /** The pairs lose nothing: the zero columns they leave out are recovered as 0. */
  lemma SparseRoundTrip(f: seq<nat>)
    ensures Dense(Entries(f), |f|) == f
  {
    forall j | 0 <= j < |f|
      ensures Dense(Entries(f), |f|)[j] == f[j]
    {
      LookupEntries(f, j + 1);
    }
  }

  /** The file has a line per vector, in order, exactly when the batch is not empty
      and no vector is narrower than the first; each line lists the nonzero entries
      of the first columns of its vector. */
  lemma SparseLinesShape(features: seq<seq<nat>>)
    ensures SparseLines(features).Some? <==>
            features != [] && forall i :: 0 <= i < |features| ==> |features[0]| <= |features[i]|
    ensures SparseLines(features).Some? ==>
            var lines := SparseLines(features).value;
            && |lines| == |features|
            && forall i :: 0 <= i < |features| ==> lines[i] == "0 " + Render(Entries(features[i][..|features[0]|]))
  {
    if features != [] {
      var outcome := LineOutcome(features);
      CollectAll(outcome, |features|);
      assert forall i :: 0 <= i < |features| ==> outcome(i) == SparseLine(features[i], |features[0]|);
    }
  }

  /** Vectors of one width give one line per vector, each the sparse text of the
      whole vector. */
  lemma UniformLines(features: seq<seq<nat>>, width: nat)
    requires features != [] && forall i :: 0 <= i < |features| ==> |features[i]| == width
    ensures SparseLines(features).Some?
    ensures var lines := SparseLines(features).value;
            && |lines| == |features|
            && forall i :: 0 <= i < |features| ==> lines[i] == "0 " + Render(Entries(features[i]))
  {
    SparseLinesShape(features);
    forall i | 0 <= i < |features|
      ensures features[i][..|features[0]|] == features[i]
    {
    }
  }

  /** A worked line: columns 2 and 4 hold 3 and 1. */
  lemma SparseLineExample()
    ensures SparseLine([0, 3, 0, 1], 4) == Some("0 2:3 4:1 ")
  {
    var f: seq<nat> := [0, 3, 0, 1];
    assert f[..4] == f;
    ExampleEntries();
    ExampleRender();
    assert "0 " + "2:3 4:1 " == "0 2:3 4:1 ";
  }

  /** Columns 2 and 4 are the nonzero ones of [0, 3, 0, 1]. */
  lemma ExampleEntries()
    ensures Entries([0, 3, 0, 1]) == [(2, 3), (4, 1)]
  {
    var f: seq<nat> := [0, 3, 0, 1];
    assert f[..3][..2] == [0, 3] && f[..3][..2][..1] == [0] && f[..3][..2][..1][..0] == [];
    assert Entries([0]) == [];
    assert Entries([0, 3]) == [(2, 3)];
    assert Entries(f[..3]) == [(2, 3)];
  }

  lemma ExampleRender()
    ensures Render([(2, 3), (4, 1)]) == "2:3 4:1 "
  {
    assert EntryText((2, 3)) == "2:3 " by {
      assert NatToString(2) == "2" && NatToString(3) == "3";
    }
    assert EntryText((4, 1)) == "4:1 " by {
      assert NatToString(4) == "4" && NatToString(1) == "1";
    }
    var es: seq<(nat, nat)> := [(2, 3), (4, 1)];
    assert es[..1] == [(2, 3)] && es[..1][..0] == [];
    assert Render(es[..1]) == "2:3 ";
  }

  // ---------------------------------------------------------------------
  // Alignment with the analyser's response

  /** A tweet whose lemmas (and, for full vectors, tally and hashtag vector) were
      read yields a vector. */
  lemma TweetSucceeds(t: PolarityInfo.Tables, v: Vocabularies, a: XMLParser.Analysis,
                      preprocessed: seq<Preprocessor.Preprocessed>, onlyNgrams: bool, i: nat)
    requires i < |preprocessed| && i < |a.lemmas|
    requires !onlyNgrams ==> i < |a.pos| && i < |a.hashtags| && |a.hashtags[i]| <= |preprocessed[i].hashtags|
    ensures TweetOutcome(t, v, a, preprocessed, onlyNgrams)(i).Some?
  {
    if !onlyNgrams {
      FeatureBlocks(t, v, preprocessed[i], a.pos[i], a.lemmas[i], a.hashtags[i]);
    }
  }

  /** A tweet whose lemmas or, for full vectors, hashtag vector is missing throws. */
  lemma TweetFails(t: PolarityInfo.Tables, v: Vocabularies, a: XMLParser.Analysis,
                   preprocessed: seq<Preprocessor.Preprocessed>, onlyNgrams: bool, i: nat)
    requires i < |preprocessed| && (i >= |a.lemmas| || (!onlyNgrams && i >= |a.hashtags|))
    ensures TweetOutcome(t, v, a, preprocessed, onlyNgrams)(i) == None
  {
  }

  /** An analysis with lemmas (and, for full vectors, a tally and a fitting hashtag
      vector) for every tweet gives every tweet a vector. */
  lemma AllTweetsSucceed(t: PolarityInfo.Tables, v: Vocabularies, a: XMLParser.Analysis,
                         preprocessed: seq<Preprocessor.Preprocessed>, onlyNgrams: bool)
    requires |a.lemmas| >= |preprocessed|
    requires !onlyNgrams ==> |a.pos| >= |preprocessed| && |a.hashtags| >= |preprocessed|
    requires !onlyNgrams ==> forall i :: 0 <= i < |preprocessed| ==> |a.hashtags[i]| <= |preprocessed[i].hashtags|
    ensures Collect(TweetOutcome(t, v, a, preprocessed, onlyNgrams), |preprocessed|).Some?
  {
    var outcome := TweetOutcome(t, v, a, preprocessed, onlyNgrams);
    forall i: nat | i < |preprocessed|
      ensures outcome(i).Some?
    {
      TweetSucceeds(t, v, a, preprocessed, onlyNgrams, i);
    }
    CollectAll(outcome, |preprocessed|);
  }

  /** With a response that has every segment, every tweet yields a vector, ... */
  lemma CompleteBatch(t: PolarityInfo.Tables, v: Vocabularies, segments: seq<seq<XMLParser.Word>>,
                      preprocessed: seq<Preprocessor.Preprocessed>, onlyNgrams: bool)
    requires XMLParser.Complete(|segments|, preprocessed, !onlyNgrams)
    ensures var a := XMLParser.OutputAnalysis(segments, preprocessed, !onlyNgrams);
            Collect(TweetOutcome(t, v, a, preprocessed, onlyNgrams), |preprocessed|).Some?
  {
    var w := !onlyNgrams;
    var a := XMLParser.OutputAnalysis(segments, preprocessed, w);
    XMLParser.CompleteRequest(|segments|, preprocessed, w);
    XMLParser.CompleteOutput(segments, preprocessed, w);
    if w {
      forall i | 0 <= i < |preprocessed|
        ensures |a.hashtags[i]| <= |preprocessed[i].hashtags|
      {
        XMLParser.CompleteHashtagCount(segments, preprocessed, i);
      }
    }
    AllTweetsSucceed(t, v, a, preprocessed, onlyNgrams);
  }

  /** An analysis short of lemmas or hashtag vectors makes the loop throw. */
  lemma SomeTweetFails(t: PolarityInfo.Tables, v: Vocabularies, a: XMLParser.Analysis,
                       preprocessed: seq<Preprocessor.Preprocessed>, onlyNgrams: bool)
    requires |a.lemmas| < |preprocessed| || (!onlyNgrams && |a.hashtags| < |preprocessed|)
    ensures Collect(TweetOutcome(t, v, a, preprocessed, onlyNgrams), |preprocessed|) == None
  {
    var i: nat := if |a.lemmas| < |preprocessed| then |a.lemmas| else |a.hashtags|;
    TweetFails(t, v, a, preprocessed, onlyNgrams, i);
    CollectAll(TweetOutcome(t, v, a, preprocessed, onlyNgrams), |preprocessed|);
  }

  /** ... and with a shorter one, some tweet's lemmas or hashtag vector is missing and
      the loop throws. */
  lemma ShortBatch(t: PolarityInfo.Tables, v: Vocabularies, segments: seq<seq<XMLParser.Word>>,
                   preprocessed: seq<Preprocessor.Preprocessed>, onlyNgrams: bool)
    requires !XMLParser.Complete(|segments|, preprocessed, !onlyNgrams)
    ensures var a := XMLParser.OutputAnalysis(segments, preprocessed, !onlyNgrams);
            Collect(TweetOutcome(t, v, a, preprocessed, onlyNgrams), |preprocessed|) == None
  {
    XMLParser.CompleteRequest(|segments|, preprocessed, !onlyNgrams);
    XMLParser.ShortOutput(segments, preprocessed, !onlyNgrams);
    SomeTweetFails(t, v, XMLParser.OutputAnalysis(segments, preprocessed, !onlyNgrams), preprocessed, onlyNgrams);
  }

  /** The vector of a tweet whose lemmas, tally and hashtag vector were all read. */
  lemma TweetVector(t: PolarityInfo.Tables, v: Vocabularies, a: XMLParser.Analysis,
                    preprocessed: seq<Preprocessor.Preprocessed>, i: nat)
    requires i < |preprocessed| && i < |a.lemmas| && i < |a.pos| && i < |a.hashtags|
    ensures TweetOutcome(t, v, a, preprocessed, false)(i) ==
            FeatureVector(t, v, preprocessed[i], a.pos[i], a.lemmas[i], a.hashtags[i])
  {
  }

  /** In a complete response, tweet i is scored with the lemmas and the POS tally of
      the segment inputXML wrote it to. */
  lemma TweetAligned(t: PolarityInfo.Tables, v: Vocabularies, segments: seq<seq<XMLParser.Word>>,
                     preprocessed: seq<Preprocessor.Preprocessed>, i: nat)
    requires i < |preprocessed| && XMLParser.Complete(|segments|, preprocessed, true)
    ensures XMLParser.Offset(preprocessed, true, i) < |segments|
    ensures var a := XMLParser.OutputAnalysis(segments, preprocessed, true);
            var k := XMLParser.Offset(preprocessed, true, i);
            && i < |a.hashtags| && |a.hashtags[i]| == |preprocessed[i].hashtags|
            && TweetOutcome(t, v, a, preprocessed, false)(i) ==
               FeatureVector(t, v, preprocessed[i], XMLParser.SegmentPos(segments[k]),
                             XMLParser.SegmentLemmas(segments[k]), a.hashtags[i])
  {
    var a := XMLParser.OutputAnalysis(segments, preprocessed, true);
    XMLParser.CompleteRequest(|segments|, preprocessed, true);
    XMLParser.CompleteOutput(segments, preprocessed, true);
    XMLParser.CompleteTweetLemmas(segments, preprocessed, true, i);
    XMLParser.CompleteTweetPos(segments, preprocessed, true, i);
    XMLParser.CompleteHashtagCount(segments, preprocessed, i);
    var k := XMLParser.Offset(preprocessed, true, i);
    assert a.pos[i] == XMLParser.SegmentPos(segments[k]);
    assert a.lemmas[i] == XMLParser.SegmentLemmas(segments[k]);
    TweetVector(t, v, a, preprocessed, i);
  }

  // ---------------------------------------------------------------------
  // generateFeatureFile

  /** The lines written for preprocessed tweets given the analyser's response. */
  function BatchLines(t: PolarityInfo.Tables, v: Vocabularies, preprocessed: seq<Preprocessor.Preprocessed>,
                      segments: seq<seq<XMLParser.Word>>, onlyNgrams: bool): Option<seq<string>>
  {
    var a := XMLParser.OutputAnalysis(segments, preprocessed, !onlyNgrams);
    var features := Collect(TweetOutcome(t, v, a, preprocessed, onlyNgrams), |preprocessed|);
    if features.None? then None else SparseLines(features.value)
  }

  /** The file is written exactly when there is a tweet and the response has every
      segment of the request; it then has one line per tweet, the sparse text of that
      tweet's vector. */
  lemma BatchLinesOutcome(t: PolarityInfo.Tables, v: Vocabularies, preprocessed: seq<Preprocessor.Preprocessed>,
                          segments: seq<seq<XMLParser.Word>>, onlyNgrams: bool)
    ensures var lines := BatchLines(t, v, preprocessed, segments, onlyNgrams);
            lines.Some? <==> |preprocessed| > 0 && XMLParser.Complete(|segments|, preprocessed, !onlyNgrams)
    ensures var lines := BatchLines(t, v, preprocessed, segments, onlyNgrams);
            var outcome := TweetOutcome(t, v, XMLParser.OutputAnalysis(segments, preprocessed, !onlyNgrams),
                                        preprocessed, onlyNgrams);
            lines.Some? ==>
              && |lines.value| == |preprocessed|
              && forall i: nat :: i < |preprocessed| ==>
                   outcome(i).Some? && lines.value[i] == "0 " + Render(Entries(outcome(i).value))
  {
    var a := XMLParser.OutputAnalysis(segments, preprocessed, !onlyNgrams);
    var outcome := TweetOutcome(t, v, a, preprocessed, onlyNgrams);
    if XMLParser.Complete(|segments|, preprocessed, !onlyNgrams) {
      CompleteBatch(t, v, segments, preprocessed, onlyNgrams);
      FeaturesShape(t, v, a, preprocessed, onlyNgrams);
      var fs := Collect(outcome, |preprocessed|).value;
      if |preprocessed| > 0 {
        UniformLines(fs, BatchWidth(v, onlyNgrams));
      }
    } else {
      ShortBatch(t, v, segments, preprocessed, onlyNgrams);
    }
  }

  /** preprocess on tweet i of the batch. */
  function PreprocessOutcome(data: seq<string>, getEmojis: string -> seq<string>, normalizeAllEmojis: string -> string,
                             order: seq<string>, removeElongation: string -> string,
                             negationWords: seq<string>): nat -> Option<Preprocessor.Preprocessed>
    requires Emoticons.NonEmpty(order)
  {
    (i: nat) => if i < |data| then Preprocessor.Preprocessing(data[i], getEmojis, normalizeAllEmojis, order,
                                                              removeElongation, negationWords)
                else None
  }

  /** The lines generateFeatureFile writes: every tweet preprocessed, the request
      laid out, the analyser's response read back, one vector per tweet, then one
      sparse line per vector; nothing when any step throws. */
  function FeatureFile(t: PolarityInfo.Tables, v: Vocabularies, data: seq<string>, onlyNgrams: bool,
                       getEmojis: string -> seq<string>, normalizeAllEmojis: string -> string,
                       order: seq<string>, removeElongation: string -> string, negationWords: seq<string>,
                       analyse: seq<XMLParser.InSeg> -> seq<seq<XMLParser.Word>>): Option<seq<string>>
    requires Emoticons.NonEmpty(order)
  {
    var pre := Collect(PreprocessOutcome(data, getEmojis, normalizeAllEmojis, order, removeElongation, negationWords), |data|);
    if pre.None? then None
    else BatchLines(t, v, pre.value, analyse(XMLParser.InputSegments(pre.value, !onlyNgrams)), onlyNgrams)
  }

  /** The file is written only when every tweet preprocesses, with one line per tweet;
      when every tweet does, it is written exactly when there is a tweet and the
      analyser answers every segment of the request. */
  lemma FeatureFileOutcome(t: PolarityInfo.Tables, v: Vocabularies, data: seq<string>, onlyNgrams: bool,
                           getEmojis: string -> seq<string>, normalizeAllEmojis: string -> string,
                           order: seq<string>, removeElongation: string -> string, negationWords: seq<string>,
                           analyse: seq<XMLParser.InSeg> -> seq<seq<XMLParser.Word>>)
    requires Emoticons.NonEmpty(order)
    ensures var lines := FeatureFile(t, v, data, onlyNgrams, getEmojis, normalizeAllEmojis, order, removeElongation,
                                     negationWords, analyse);
            lines.Some? ==>
              && |lines.value| == |data|
              && forall i :: 0 <= i < |data| ==>
                   Preprocessor.Preprocessing(data[i], getEmojis, normalizeAllEmojis, order, removeElongation,
                                              negationWords).Some?
    ensures var pre := Collect(PreprocessOutcome(data, getEmojis, normalizeAllEmojis, order, removeElongation,
                                                 negationWords), |data|);
            var lines := FeatureFile(t, v, data, onlyNgrams, getEmojis, normalizeAllEmojis, order, removeElongation,
                                     negationWords, analyse);
            (forall i :: 0 <= i < |data| ==>
               Preprocessor.Preprocessing(data[i], getEmojis, normalizeAllEmojis, order, removeElongation,
                                          negationWords).Some?) ==>
              && pre.Some? && |pre.value| == |data|
              && (lines.Some? <==>
                  |data| > 0 &&
                  XMLParser.Complete(|analyse(XMLParser.InputSegments(pre.value, !onlyNgrams))|, pre.value, !onlyNgrams))
  {
    var outcome := PreprocessOutcome(data, getEmojis, normalizeAllEmojis, order, removeElongation, negationWords);
    CollectAll(outcome, |data|);
    forall i | 0 <= i < |data|
      ensures outcome(i) == Preprocessor.Preprocessing(data[i], getEmojis, normalizeAllEmojis, order, removeElongation,
                                                       negationWords)
    {
    }
    var pre := Collect(outcome, |data|);
    if pre.Some? {
      BatchLinesOutcome(t, v, pre.value, analyse(XMLParser.InputSegments(pre.value, !onlyNgrams)), onlyNgrams);
    }
  }

  /** generateFeatureFile, with the analyser as a function from request segments to
      response segments. */
  method GenerateFeatureFile(t: PolarityInfo.Tables, v: Vocabularies, data: seq<string>, onlyNgrams: bool,
                             getEmojis: string -> seq<string>, normalizeAllEmojis: string -> string,
                             order: seq<string>, removeElongation: string -> string, negationWords: seq<string>,
                             analyse: seq<XMLParser.InSeg> -> seq<seq<XMLParser.Word>>)
    returns (lines: Option<seq<string>>)
    requires Emoticons.NonEmpty(order)
    ensures lines == FeatureFile(t, v, data, onlyNgrams, getEmojis, normalizeAllEmojis, order, removeElongation,
                                 negationWords, analyse)
  {
    ghost var outcome := PreprocessOutcome(data, getEmojis, normalizeAllEmojis, order, removeElongation, negationWords);
    var preprocessed: seq<Preprocessor.Preprocessed> := [];
    for i := 0 to |data|
      invariant Collect(outcome, i) == Some(preprocessed)
    {
      var p := Preprocessor.Preprocess(data[i], getEmojis, normalizeAllEmojis, order, removeElongation, negationWords);
      assert p == outcome(i);
      if p.None? {
        CollectStaysNone(outcome, i + 1, |data|);
        return None;
      }
      preprocessed := preprocessed + [p.value];
    }
    CollectAll(outcome, |data|);
    var input := XMLParser.InputXML(preprocessed, !onlyNgrams);
    var output := analyse(input);
    var analysis := XMLParser.OutputXML(output, preprocessed, !onlyNgrams);
    var features := FeatureVectors(t, v, analysis, preprocessed, onlyNgrams);
    if features.None? {
      return None;
    }
    lines := WriteFeatures(features.value);
  }

}
