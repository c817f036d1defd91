/** PolarityInfo: the positive and negative tallies of a tweet's words, looked up in
    ArSenL and then AraSenTi and DAHL with negation flipping, and of its emoticons
    and emojis. */
module PolarityInfo {
  import opened Text
  import opened EmoticonSets
  import opened Lexicon

  /** The static lexicon tables of LexiconMapping. */
  datatype Tables = Tables(
    arsenl: map<string, ArSenLEntry>,
    arasenti: map<string, real>,
    dahl: map<string, real>,
    emojis: map<string, Scores>)

  /** What one word, emoticon or emoji adds: to one tally, or, as None, to none. */
  type Vote = Option<Polarity>

  /** getPolarity: the larger score wins; a tie is the null result, None. */
  function GetPolarity(scores: Scores): (r: Vote)
    ensures r == Some(Positive) <==> scores.positive > scores.negative
    ensures r == Some(Negative) <==> scores.negative > scores.positive
    ensures r == None <==> scores.positive == scores.negative
  {
    if scores.positive > scores.negative then Some(Positive)
    else if scores.negative > scores.positive then Some(Negative)
    else None
  }

  /** The AraSenTi and DAHL reading of a score: its sign. */
  function SignPolarity(score: real): (r: Vote)
    ensures r == Some(Positive) <==> score > 0.0
    ensures r == Some(Negative) <==> score < 0.0
    ensures r == None <==> score == 0.0
  {
    if score > 0.0 then Some(Positive) else if score < 0.0 then Some(Negative) else None
  }

  /** The vote with Positive and Negative exchanged. */
  function Opposite(v: Vote): Vote
  {
    match v
    case Some(Positive) => Some(Negative)
    case Some(Negative) => Some(Positive)
    case _ => v
  }

  function Flipped(v: Vote, negated: bool): Vote
  {
    if negated then Opposite(v) else v
  }

  /** isNegated.elementAt(i), false where the catch handler installs the default. */
  function FlagAt(negated: seq<bool>, i: nat): bool
  {
    if i < |negated| then negated[i] else false
  }

  /** normalizedTweet.elementAt(i), "" where the catch handler installs the default. */
  function WordAt(normalized: seq<string>, i: nat): string
  {
    if i < |normalized| then normalized[i] else ""
  }

  /** The vote of position i of getWordsInfo: the lemma in ArSenL, otherwise the
      normalized word in AraSenTi, otherwise in DAHL, flipped when negated. */
  function WordVote(t: Tables, lemmas: seq<string>, normalized: seq<string>, negated: seq<bool>, i: nat): Vote
    requires i < |lemmas|
  {
    var neg := FlagAt(negated, i);
    if lemmas[i] in t.arsenl then Flipped(GetPolarity(t.arsenl[lemmas[i]].scores), neg)
    else
      var word := WordAt(normalized, i);
      if word in t.arasenti then Flipped(SignPolarity(t.arasenti[word]), neg)
      else if word in t.dahl then Flipped(SignPolarity(t.dahl[word]), neg)
      else None
  }

  function WordVotes(t: Tables, lemmas: seq<string>, normalized: seq<string>, negated: seq<bool>): seq<Vote>
  {
    seq(|lemmas|, i requires 0 <= i < |lemmas| => WordVote(t, lemmas, normalized, negated, i))
  }

  /** The number of votes for p. */
  function Count(vs: seq<Vote>, p: Polarity): nat
    decreases |vs|
  {
    if vs == [] then 0 else Count(vs[..|vs| - 1], p) + (if vs[|vs| - 1] == Some(p) then 1 else 0)
  }

  /** getWordsInfo: one visit per lemma, each adding at most one to one tally. */
  method GetWordsInfo(t: Tables, lemmatizedTweet: seq<string>, normalizedTweet: seq<string>, isNegated: seq<bool>)
    returns (positive: nat, negative: nat)
    ensures positive == Count(WordVotes(t, lemmatizedTweet, normalizedTweet, isNegated), Positive)
    ensures negative == Count(WordVotes(t, lemmatizedTweet, normalizedTweet, isNegated), Negative)
    ensures positive + negative <= |lemmatizedTweet|
  {
    ghost var votes := WordVotes(t, lemmatizedTweet, normalizedTweet, isNegated);
    var numberOfWords := |lemmatizedTweet|;
    positive, negative := 0, 0;
    for i := 0 to numberOfWords
      invariant positive == Count(votes[..i], Positive)
      invariant negative == Count(votes[..i], Negative)
    {
      assert votes[..i + 1][..i] == votes[..i];
      var negated := if i < |isNegated| then isNegated[i] else false;
      var word := lemmatizedTweet[i];
      if word in t.arsenl {
        var pol := GetPolarity(t.arsenl[word].scores);
        if pol == Some(Positive) {
          if negated == false {
            positive := positive + 1;
          } else {
            negative := negative + 1;
          }
        } else if pol == Some(Negative) {
          if negated == false {
            negative := negative + 1;
          } else {
            positive := positive + 1;
          }
        }
      } else {
        word := if i < |normalizedTweet| then normalizedTweet[i] else "";
        if word in t.arasenti {
          var pol := t.arasenti[word];
          if pol > 0.0 {
            if !negated {
              positive := positive + 1;
            } else {
              negative := negative + 1;
            }
          } else if pol < 0.0 {
            if !negated {
              negative := negative + 1;
            } else {
              positive := positive + 1;
            }
          }
        } else if word in t.dahl {
          var pol := t.dahl[word];
          if pol > 0.0 {
            if !negated {
              positive := positive + 1;
            } else {
              negative := negative + 1;
            }
          } else if pol < 0.0 {
            if !negated {
              negative := negative + 1;
            } else {
              positive := positive + 1;
            }
          }
        }
      }
    }
    assert votes[..numberOfWords] == votes;
    CountBound(votes);
  }

  /** The vote of an emoticon of the given polarity: neutral adds nothing. */
  function PolarityVote(p: Polarity): Vote
  {
    if p == Neutral then None else Some(p)
  }

  /** The vote of an emoticon: the polarity of its set. */
  function EmoticonVote(e: string): Vote
  {
    PolarityVote(EmoticonPolarity(e))
  }

  /** The vote of an emoji: its entry in the emoji table, nothing when it has none. */
  function EmojiVote(emojis: map<string, Scores>, e: string): Vote
  {
    if e in emojis then GetPolarity(emojis[e]) else None
  }

  function EmoticonVotes(emoticons: seq<string>): seq<Vote>
  {
    seq(|emoticons|, i requires 0 <= i < |emoticons| => EmoticonVote(emoticons[i]))
  }

  function EmojiVotes(t: Tables, emojis: seq<string>): seq<Vote>
  {
    seq(|emojis|, i requires 0 <= i < |emojis| => EmojiVote(t.emojis, emojis[i]))
  }

  /** getEmoticonsInfo: the emoticons first, then the emojis. */
  method GetEmoticonsInfo(t: Tables, emoticons: seq<string>, emojis: seq<string>) returns (positives: nat, negatives: nat)
    ensures positives == Count(EmoticonVotes(emoticons), Positive) + Count(EmojiVotes(t, emojis), Positive)
    ensures negatives == Count(EmoticonVotes(emoticons), Negative) + Count(EmojiVotes(t, emojis), Negative)
    ensures positives + negatives <= |emoticons| + |emojis|
  {
    ghost var ev := EmoticonVotes(emoticons);
    ghost var jv := EmojiVotes(t, emojis);
    positives, negatives := 0, 0;
    for i := 0 to |emoticons|
      invariant positives == Count(ev[..i], Positive)
      invariant negatives == Count(ev[..i], Negative)
    {
      CountStep(ev, i);
      var pol := EmoticonPolarity(emoticons[i]);
      if pol == Positive {
        positives := positives + 1;
      } else if pol == Negative {
        negatives := negatives + 1;
      }
    }
    assert ev[..|emoticons|] == ev;
    for i := 0 to |emojis|
      invariant positives == Count(ev, Positive) + Count(jv[..i], Positive)
      invariant negatives == Count(ev, Negative) + Count(jv[..i], Negative)
    {
      CountStep(jv, i);
      var e := emojis[i];
      if e in t.emojis {
        var pol := GetPolarity(t.emojis[e]);
        if pol == Some(Positive) {
          positives := positives + 1;
        } else if pol == Some(Negative) {
          negatives := negatives + 1;
        }
      }
    }
    assert jv[..|emojis|] == jv;
    CountBound(ev);
    CountBound(jv);
  }

  /** One more vote adds one to its own tally and nothing to the other. */
  lemma CountStep(vs: seq<Vote>, i: nat)
    requires i < |vs|
    ensures Count(vs[..i + 1], Positive) == Count(vs[..i], Positive) + (if vs[i] == Some(Positive) then 1 else 0)
    ensures Count(vs[..i + 1], Negative) == Count(vs[..i], Negative) + (if vs[i] == Some(Negative) then 1 else 0)
  {
    assert vs[..i + 1][..i] == vs[..i];
  }

  // ---------------------------------------------------------------------
  // Properties

  /** Each vote goes to at most one tally. */
  lemma {:induction false} CountBound(vs: seq<Vote>)
    ensures Count(vs, Positive) + Count(vs, Negative) <= |vs|
    decreases |vs|
  {
    if vs != [] {
      CountBound(vs[..|vs| - 1]);
    }
  }

  /** Exchanged votes exchange the tallies. */
  lemma {:induction false} CountOpposite(vs: seq<Vote>, ws: seq<Vote>)
    requires |vs| == |ws|
    requires forall i :: 0 <= i < |vs| ==> ws[i] == Opposite(vs[i])
    ensures Count(ws, Positive) == Count(vs, Negative)
    ensures Count(ws, Negative) == Count(vs, Positive)
    decreases |vs|
  {
    if vs != [] {
      CountOpposite(vs[..|vs| - 1], ws[..|ws| - 1]);
    }
  }

  /** Helper for InvertedMaskSwapsTallies: every flag of a mask negated. The Java never
      builds such a mask; the lemma below uses it to state a symmetry of the word votes. */
  function Invert(flags: seq<bool>): (r: seq<bool>)
    ensures |r| == |flags| && forall i :: 0 <= i < |r| ==> r[i] == !flags[i]
  {
    seq(|flags|, i requires 0 <= i < |flags| => !flags[i])
  }

  /** When isNegated covers every position, negating every flag swaps the tallies. */
  lemma InvertedMaskSwapsTallies(t: Tables, lemmas: seq<string>, normalized: seq<string>, negated: seq<bool>)
    requires |negated| >= |lemmas|
    ensures Count(WordVotes(t, lemmas, normalized, Invert(negated)), Positive)
            == Count(WordVotes(t, lemmas, normalized, negated), Negative)
    ensures Count(WordVotes(t, lemmas, normalized, Invert(negated)), Negative)
            == Count(WordVotes(t, lemmas, normalized, negated), Positive)
  {
    var vs := WordVotes(t, lemmas, normalized, negated);
    var ws := WordVotes(t, lemmas, normalized, Invert(negated));
    forall i | 0 <= i < |vs|
      ensures ws[i] == Opposite(vs[i])
    {
      var v := if lemmas[i] in t.arsenl then GetPolarity(t.arsenl[lemmas[i]].scores)
               else if WordAt(normalized, i) in t.arasenti then SignPolarity(t.arasenti[WordAt(normalized, i)])
               else if WordAt(normalized, i) in t.dahl then SignPolarity(t.dahl[WordAt(normalized, i)])
               else None;
      assert vs[i] == Flipped(v, negated[i]);
      assert ws[i] == Flipped(v, !negated[i]);
      assert Opposite(Opposite(v)) == v;
    }
    CountOpposite(vs, ws);
  }

  /** A lemma found in ArSenL is decided by ArSenL alone: the normalized word, AraSenTi
      and DAHL are never consulted, even when the ArSenL scores tie. */
  lemma ArSenLDecides(t: Tables, u: Tables, lemmas: seq<string>, normalized: seq<string>, other: seq<string>,
                      negated: seq<bool>, i: nat)
    requires i < |lemmas| && lemmas[i] in t.arsenl && u.arsenl == t.arsenl
    ensures WordVote(t, lemmas, normalized, negated, i) == WordVote(u, lemmas, other, negated, i)
    ensures GetPolarity(t.arsenl[lemmas[i]].scores) == None ==> WordVote(t, lemmas, normalized, negated, i) == None
  {
  }

  /** Outside ArSenL, a word in AraSenTi is decided by AraSenTi, and DAHL is
      consulted only for words absent from it. A zero score adds nothing. */
  lemma AraSenTiBeforeDahl(t: Tables, lemmas: seq<string>, normalized: seq<string>, negated: seq<bool>, i: nat)
    requires i < |lemmas| && lemmas[i] !in t.arsenl
    ensures WordAt(normalized, i) in t.arasenti ==>
              WordVote(t, lemmas, normalized, negated, i)
              == Flipped(SignPolarity(t.arasenti[WordAt(normalized, i)]), FlagAt(negated, i))
    ensures WordAt(normalized, i) !in t.arasenti && WordAt(normalized, i) in t.dahl ==>
              WordVote(t, lemmas, normalized, negated, i)
              == Flipped(SignPolarity(t.dahl[WordAt(normalized, i)]), FlagAt(negated, i))
    ensures WordAt(normalized, i) in t.arasenti && t.arasenti[WordAt(normalized, i)] == 0.0 ==>
              WordVote(t, lemmas, normalized, negated, i) == None
  {
  }

  /** Neutral emoticons, emojis missing from the table and tied emojis add nothing;
      a string in no emoticon set counts as negative. */
  lemma VotesThatAddNothing(t: Tables, e: string)
    ensures e in NeutralEmoticons ==> EmoticonVote(e) == None
    ensures e !in AllEmoticons ==> EmoticonVote(e) == Some(Negative)
    ensures e !in t.emojis ==> EmojiVote(t.emojis, e) == None
    ensures e in t.emojis && t.emojis[e].positive == t.emojis[e].negative ==> EmojiVote(t.emojis, e) == None
  {
    if e in NeutralEmoticons {
      PolarityOfEmoticon(e);
    } else if e !in AllEmoticons {
      UnknownIsNegative(e);
    }
  }

  /** Swapping the two scores swaps the polarity. */
  lemma SwappedScores(s: Scores)
    ensures GetPolarity(Scores(s.negative, s.positive)) == Opposite(GetPolarity(s))
  {
  }
}
