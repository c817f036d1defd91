/** EmoticonExtractor: matching the alternation of all emoticons against a tweet.
    The alternation is built from the iteration order of a HashSet, which the model
    takes as a parameter: a sequence of members of the set. */
module Emoticons {
  import opened Text
  import opened EmoticonSets

  // ---------------------------------------------------------------------
  // Matching the alternation

  /** Every alternative of the order is a member of s. A HashSet iteration order of s
      also lists every member exactly once; the lemmas below need only this part and
      Distinct. */
  predicate Drawn(order: seq<string>, s: set<string>)
  {
    forall k :: 0 <= k < |order| ==> order[k] in s
  }

  predicate NonEmpty(order: seq<string>)
  {
    forall k :: 0 <= k < |order| ==> |order[k]| > 0
  }

  lemma OrderNonEmpty(order: seq<string>)
    requires Drawn(order, AllEmoticons)
    ensures NonEmpty(order)
  {
    forall k | 0 <= k < |order|
      ensures |order[k]| > 0
    {
      EmoticonLength(order[k]);
    }
  }

  /** Whether alternative j of the order occurs at position i of t. */
  predicate Fits(order: seq<string>, t: string, i: nat, j: nat)
    requires j < |order|
  {
    OccursAt(t, order[j], i)
  }

  /** The alternative that the regex (a1|a2|...) picks at position i: the first one,
      in order, that occurs there, whatever its length. */
  function FirstAlternative(order: seq<string>, t: string, i: nat, from: nat): (r: Option<nat>)
    requires from <= |order|
    ensures r.Some? ==> from <= r.value < |order| && Fits(order, t, i, r.value)
    ensures r.Some? ==> forall j :: from <= j < r.value ==> !Fits(order, t, i, j)
    ensures r.None? ==> forall j :: from <= j < |order| ==> !Fits(order, t, i, j)
    decreases |order| - from
  {
    if from == |order| then None
    else if Fits(order, t, i, from) then Some(from)
    else FirstAlternative(order, t, i, from + 1)
  }

  function MatchAt(order: seq<string>, t: string, i: nat): Option<nat>
  {
    FirstAlternative(order, t, i, 0)
  }

  /** The matches Matcher.find yields from position i on: leftmost, then first
      alternative, then the search resumes at the end of the match. */
  function MatchesFrom(order: seq<string>, t: string, i: nat): seq<string>
    requires NonEmpty(order)
    requires i <= |t|
    decreases |t| - i
  {
    if i == |t| then []
    else match MatchAt(order, t, i)
      case Some(k) => [order[k]] + MatchesFrom(order, t, i + |order[k]|)
      case None => MatchesFrom(order, t, i + 1)
  }

  const EmoticonToken: string := " ايموتيكونتوكن "

  /** The text normalizeAllEmoticons builds from position i on. */
  function ReplacedFrom(order: seq<string>, t: string, i: nat): string
    requires NonEmpty(order)
    requires i <= |t|
    decreases |t| - i
  {
    if i == |t| then []
    else match MatchAt(order, t, i)
      case Some(k) => EmoticonToken + ReplacedFrom(order, t, i + |order[k]|)
      case None => [t[i]] + ReplacedFrom(order, t, i + 1)
  }

  /** The text between the matches from position i on: one piece before each match and
      one after the last. */
  function GapsFrom(order: seq<string>, t: string, i: nat): (r: seq<string>)
    requires NonEmpty(order)
    requires i <= |t|
    ensures |r| == |MatchesFrom(order, t, i)| + 1
    decreases |t| - i
  {
    if i == |t| then [""]
    else match MatchAt(order, t, i)
      case Some(k) => [""] + GapsFrom(order, t, i + |order[k]|)
      case None =>
        var g := GapsFrom(order, t, i + 1);
        [[t[i]] + g[0]] + g[1..]
  }

  /** gaps[0] + fills[0] + gaps[1] + ... + fills[n-1] + gaps[n]. */
  function Weave(gaps: seq<string>, fills: seq<string>): string
    requires |gaps| == |fills| + 1
    decreases |fills|
  {
    if fills == [] then gaps[0]
    else gaps[0] + fills[0] + Weave(gaps[1..], fills[1..])
  }

  function Repeat(s: string, n: nat): (r: seq<string>)
    ensures |r| == n
    ensures forall k :: 0 <= k < n ==> r[k] == s
  {
    if n == 0 then [] else [s] + Repeat(s, n - 1)
  }

  // ---------------------------------------------------------------------
  // The Java loops

  /** Matcher.find from position from: the next position with a match, and the
      alternative matched there. */
  method Find(order: seq<string>, t: string, from: nat) returns (found: bool, start: nat, k: nat)
    requires from <= |t|
    ensures found ==> from <= start < |t| && MatchAt(order, t, start) == Some(k)
    ensures forall j :: from <= j < (if found then start else |t|) ==> MatchAt(order, t, j).None?
  {
    start := from;
    while start < |t|
      invariant from <= start <= |t|
      invariant forall j :: from <= j < start ==> MatchAt(order, t, j).None?
    {
      var m := MatchAt(order, t, start);
      if m.Some? {
        return true, start, m.value;
      }
      start := start + 1;
    }
    return false, start, 0;
  }

  /** getEmoticons */
  method GetEmoticons(tweet: string, order: seq<string>) returns (emoticons: seq<string>)
    requires NonEmpty(order)
    ensures emoticons == MatchesFrom(order, tweet, 0)
  {
    emoticons := [];
    var pos: nat := 0;
    var found, start, k := Find(order, tweet, 0);
    while found
      invariant pos <= |tweet|
      invariant found ==> pos <= start < |tweet| && MatchAt(order, tweet, start) == Some(k)
      invariant forall j :: pos <= j < (if found then start else |tweet|) ==> MatchAt(order, tweet, j).None?
      invariant emoticons + MatchesFrom(order, tweet, pos) == MatchesFrom(order, tweet, 0)
      decreases |tweet| - pos
    {
      var next := start + |order[k]|;
      MatchesAfter(order, tweet, emoticons, MatchesFrom(order, tweet, 0), pos, start, k, next);
      emoticons, pos := emoticons + [order[k]], next;
      found, start, k := Find(order, tweet, pos);
    }
    MatchesSkip(order, tweet, pos, |tweet|);
    assert emoticons + [] == emoticons;
  }

  /** normalizeAllEmoticons */
  method NormalizeAllEmoticons(tweet: string, order: seq<string>) returns (fixedTweet: string)
    requires NonEmpty(order)
    ensures fixedTweet == ReplacedFrom(order, tweet, 0)
  {
    fixedTweet := "";
    var end: nat := 0;
    var found, start, k := Find(order, tweet, 0);
    while found
      invariant end <= |tweet|
      invariant found ==> end <= start < |tweet| && MatchAt(order, tweet, start) == Some(k)
      invariant forall j :: end <= j < (if found then start else |tweet|) ==> MatchAt(order, tweet, j).None?
      invariant fixedTweet + ReplacedFrom(order, tweet, end) == ReplacedFrom(order, tweet, 0)
      decreases |tweet| - end
    {
      var piece, next := tweet[end..start] + EmoticonToken, start + |order[k]|;
      ReplacedAfter(order, tweet, fixedTweet, ReplacedFrom(order, tweet, 0), end, start, k, piece, next);
      fixedTweet, end := fixedTweet + piece, next;
      found, start, k := Find(order, tweet, end);
    }
    ReplacedCopy(order, tweet, end, |tweet|);
    fixedTweet := fixedTweet + tweet[end..];
  }

  /** One iteration of the getEmoticons loop. */
  lemma MatchesAfter(order: seq<string>, t: string, done: seq<string>, whole: seq<string>, pos: nat, start: nat, k: nat,
                     next: nat)
    requires NonEmpty(order)
    requires pos <= start < |t|
    requires forall j :: pos <= j < start ==> MatchAt(order, t, j).None?
    requires MatchAt(order, t, start) == Some(k)
    requires done + MatchesFrom(order, t, pos) == whole
    requires next == start + |order[k]|
    ensures next <= |t|
    ensures (done + [order[k]]) + MatchesFrom(order, t, next) == whole
  {
    MatchesSkip(order, t, pos, start);
  }

  /** One iteration of the normalizeAllEmoticons loop. */
  lemma ReplacedAfter(order: seq<string>, t: string, done: string, whole: string, end: nat, start: nat, k: nat,
                      piece: string, next: nat)
    requires NonEmpty(order)
    requires end <= start < |t|
    requires forall j :: end <= j < start ==> MatchAt(order, t, j).None?
    requires MatchAt(order, t, start) == Some(k)
    requires done + ReplacedFrom(order, t, end) == whole
    requires piece == t[end..start] + EmoticonToken && next == start + |order[k]|
    ensures next <= |t|
    ensures (done + piece) + ReplacedFrom(order, t, next) == whole
  {
    ReplacedCopy(order, t, end, start);
  }

  /** Positions without a match add no match. */
  lemma {:induction false} MatchesSkip(order: seq<string>, t: string, a: nat, b: nat)
    requires NonEmpty(order)
    requires a <= b <= |t|
    requires forall j :: a <= j < b ==> MatchAt(order, t, j).None?
    ensures MatchesFrom(order, t, a) == MatchesFrom(order, t, b)
    decreases b - a
  {
    if a < b {
      MatchesSkip(order, t, a + 1, b);
    }
  }

  /** Positions without a match are copied. */
  lemma {:induction false} ReplacedCopy(order: seq<string>, t: string, a: nat, b: nat)
    requires NonEmpty(order)
    requires a <= b <= |t|
    requires forall j :: a <= j < b ==> MatchAt(order, t, j).None?
    ensures ReplacedFrom(order, t, a) == t[a..b] + ReplacedFrom(order, t, b)
    decreases b - a
  {
    if a == b {
      assert t[a..b] == [];
    } else {
      ReplacedCopy(order, t, a + 1, b);
      ReplacedStep(order, t, a);
      SliceCons(t, a, b, ReplacedFrom(order, t, b));
    }
  }

  lemma ReplacedStep(order: seq<string>, t: string, a: nat)
    requires NonEmpty(order)
    requires a < |t|
    requires MatchAt(order, t, a).None?
    ensures ReplacedFrom(order, t, a) == [t[a]] + ReplacedFrom(order, t, a + 1)
  {
  }

  // ---------------------------------------------------------------------
  // Properties

  /** Each match is one of the alternatives. */
  lemma {:induction false} MatchesAreAlternatives(order: seq<string>, t: string, i: nat)
    requires NonEmpty(order)
    requires i <= |t|
    ensures forall k :: 0 <= k < |MatchesFrom(order, t, i)| ==> MatchesFrom(order, t, i)[k] in order
    decreases |t| - i
  {
    if i < |t| {
      match MatchAt(order, t, i)
      case Some(k) => MatchesAreAlternatives(order, t, i + |order[k]|);
      case None => MatchesAreAlternatives(order, t, i + 1);
    }
  }

  /** Every string getEmoticons returns is an emoticon. */
  lemma MatchesAreEmoticons(order: seq<string>, t: string)
    requires Drawn(order, AllEmoticons)
    ensures NonEmpty(order)
    ensures forall k :: 0 <= k < |MatchesFrom(order, t, 0)| ==> MatchesFrom(order, t, 0)[k] in AllEmoticons
  {
    OrderNonEmpty(order);
    MatchesAreAlternatives(order, t, 0);
  }

  /** Weaving a piece onto the first gap. */
  lemma WeaveCons(c: char, gaps: seq<string>, fills: seq<string>)
    requires |gaps| == |fills| + 1
    ensures Weave([[c] + gaps[0]] + gaps[1..], fills) == [c] + Weave(gaps, fills)
  {
    if fills != [] {
      assert ([[c] + gaps[0]] + gaps[1..])[1..] == gaps[1..];
    }
  }

  /** The tweet is its gaps woven with its matches. */
  lemma {:induction false} TextIsGapsAndMatches(order: seq<string>, t: string, i: nat)
    requires NonEmpty(order)
    requires i <= |t|
    ensures t[i..] == Weave(GapsFrom(order, t, i), MatchesFrom(order, t, i))
    decreases |t| - i
  {
    if i == |t| {
    } else {
      match MatchAt(order, t, i)
      case Some(k) =>
        var e := i + |order[k]|;
        TextIsGapsAndMatches(order, t, e);
        assert t[i..] == order[k] + t[e..];
        assert ([""] + GapsFrom(order, t, e))[1..] == GapsFrom(order, t, e);
        assert ([order[k]] + MatchesFrom(order, t, e))[1..] == MatchesFrom(order, t, e);
      case None =>
        TextIsGapsAndMatches(order, t, i + 1);
        WeaveCons(t[i], GapsFrom(order, t, i + 1), MatchesFrom(order, t, i + 1));
        assert t[i..] == [t[i]] + t[i + 1..];
    }
  }

  /** A match at i opens an empty gap, adds one match and one token. */
  lemma MatchUnfolds(order: seq<string>, t: string, i: nat, k: nat)
    requires NonEmpty(order)
    requires i < |t| && MatchAt(order, t, i) == Some(k)
    ensures i + |order[k]| <= |t|
    ensures GapsFrom(order, t, i) == [""] + GapsFrom(order, t, i + |order[k]|)
    ensures |MatchesFrom(order, t, i)| == |MatchesFrom(order, t, i + |order[k]|)| + 1
    ensures ReplacedFrom(order, t, i) == EmoticonToken + ReplacedFrom(order, t, i + |order[k]|)
  {
  }

  /** Weaving a fill after an empty first gap. */
  lemma WeaveFill(x: string, gaps: seq<string>, fills: seq<string>)
    requires |gaps| == |fills| + 1
    ensures Weave([""] + gaps, [x] + fills) == x + Weave(gaps, fills)
  {
    assert ([""] + gaps)[1..] == gaps;
    assert ([x] + fills)[1..] == fills;
  }

  /** The normalised tweet is the same gaps woven with one token per match. */
  lemma {:induction false} ReplacedIsGapsAndTokens(order: seq<string>, t: string, i: nat)
    requires NonEmpty(order)
    requires i <= |t|
    ensures ReplacedFrom(order, t, i)
            == Weave(GapsFrom(order, t, i), Repeat(EmoticonToken, |MatchesFrom(order, t, i)|))
    decreases |t| - i
  {
    if i == |t| {
    } else {
      match MatchAt(order, t, i)
      case Some(k) =>
        var e := i + |order[k]|;
        ReplacedIsGapsAndTokens(order, t, e);
        MatchUnfolds(order, t, i, k);
        WeaveFill(EmoticonToken, GapsFrom(order, t, e), Repeat(EmoticonToken, |MatchesFrom(order, t, e)|));
      case None =>
        ReplacedIsGapsAndTokens(order, t, i + 1);
        WeaveCons(t[i], GapsFrom(order, t, i + 1), Repeat(EmoticonToken, |MatchesFrom(order, t, i + 1)|));
    }
  }

  /** Without a match the tweet is left as it is. */
  lemma {:induction false} NoMatchFixed(order: seq<string>, t: string, i: nat)
    requires NonEmpty(order)
    requires i <= |t|
    requires MatchesFrom(order, t, i) == []
    ensures ReplacedFrom(order, t, i) == t[i..]
  {
    TextIsGapsAndMatches(order, t, i);
    ReplacedIsGapsAndTokens(order, t, i);
  }

  /** The first alternative wins, not the longest: when ":o" comes before ":o)" in the
      iteration order, ":o)" yields the neutral ":o". */
  lemma FirstAlternativeWins(order: seq<string>, a: nat, b: nat)
    requires Drawn(order, AllEmoticons) && Distinct(order)
    requires a < b < |order| && order[a] == ":o" && order[b] == ":o)"
    ensures NonEmpty(order) && MatchesFrom(order, ":o)", 0) == [":o"]
  {
    OrderNonEmpty(order);
    var t := ":o)";
    NoseSmileAtStart(order, a, b);
    NothingAtLast(order);
    assert MatchesFrom(order, t, 0) == [":o"] + MatchesFrom(order, t, 2);
    assert MatchesFrom(order, t, 2) == MatchesFrom(order, t, 3);
  }

  /** At the start of ":o)" the alternative ":o" is the first that fits. */
  lemma NoseSmileAtStart(order: seq<string>, a: nat, b: nat)
    requires Drawn(order, AllEmoticons) && Distinct(order)
    requires a < b < |order| && order[a] == ":o" && order[b] == ":o)"
    ensures MatchAt(order, ":o)", 0) == Some(a)
  {
    var t := ":o)";
    forall j | 0 <= j < a
      ensures !Fits(order, t, 0, j)
    {
      if Fits(order, t, 0, j) {
        var e := order[j];
        assert e in AllEmoticons;
        assert |e| <= 3 && e == t[0..|e|];
        PrefixesOfNoseSmile(e);
      }
    }
    assert t[0..2] == ":o";
    assert Fits(order, t, 0, a);
  }

  /** No emoticon fits in the last character of ":o)": each has at least two. */
  lemma NothingAtLast(order: seq<string>)
    requires Drawn(order, AllEmoticons)
    ensures MatchAt(order, ":o)", 2).None?
  {
    forall j | 0 <= j < |order|
      ensures !Fits(order, ":o)", 2, j)
    {
      EmoticonLength(order[j]);
    }
  }
}
