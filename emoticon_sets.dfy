/** The three emoticon sets of EmoticonExtractor and the polarity of an emoticon. */
module EmoticonSets {
  datatype Polarity = Positive | Neutral | Negative

  /** The HashSet built from the positive array ("X-D" is listed twice there), written
      as the union of two displays. */
  const PositiveEmoticons: set<string> := {
    ":-)", ":)", ":-]", ":]", ":-3", ":3", ":->", ":>", "8-)", "8)", ":-}",
    ":}", ":o)", ":c)", ":^)", "=]", "=)", ":-D", ":D", "8-D", "8D", "x-D", "X-D", "xD", "X-D", "XD", "=D"} + {
    "=3", "B^D", ":'-)", ":')", ":-*", ":*", ":\U{00C3}\U{2014}", ";-)", ";)", ";-]", ";]", ";^)", ";D", ":-P", ":P",
    "X-P", "XP", "x-p", "xp", ":-p", ":p", ":-b", ":b", "d:", "=p", "<3", "^_^", "^.^", "^^"}

  const NeutralEmoticons: set<string> := {":-O", ":O", ":-o", ":o", ":-0", "8-0"}

  /** The negative array, in source order. Its "<\3" is a Java octal escape: '<'
      followed by the character U+0003. */
  const NegativeEmoticons: set<string> := {
    ":-(", ":(", ":-c", ":c", ":-<", ":<", ":-[", ":[", ":{", ":@", ":'-(", ";'(",
    "D-':", "D:", "D8", "D;", "D=", "DX", ":-/", ":\\", "=/", "=\\", ":S", ":-|", ":|", "</3", "<\U{0003}", "-_-",
    "-.-", ">_<", ">.<", "~_~", "_|_", "-|-", "=_="}


  /** getAllEmoticons: the union filled by three addAll calls. */
  method GetAllEmoticons() returns (emoticons: set<string>)
    ensures forall e :: e in emoticons <==> e in PositiveEmoticons || e in NegativeEmoticons || e in NeutralEmoticons
  {
    emoticons := {};
    emoticons := emoticons + PositiveEmoticons;
    emoticons := emoticons + NegativeEmoticons;
    emoticons := emoticons + NeutralEmoticons;
  }

  /** The value of the allEmoticons field. */
  const AllEmoticons: set<string> := PositiveEmoticons + NegativeEmoticons + NeutralEmoticons

  /** No emoticon is the empty string. */
  lemma EmoticonLength(e: string)
    requires e in AllEmoticons
    ensures 2 <= |e| <= 4
  {
    if e in PositiveEmoticons {
      PositiveEnding(e);
    } else if e in NegativeEmoticons {
      NegativeEnding(e);
    } else {
      NeutralEnding(e);
    }
  }

  /** polarity: a membership cascade, positive first, then neutral. */
  function EmoticonPolarity(emoticon: string): (r: Polarity)
    ensures r == Positive <==> emoticon in PositiveEmoticons
    ensures r == Neutral <==> emoticon !in PositiveEmoticons && emoticon in NeutralEmoticons
    ensures r == Negative <==> emoticon !in PositiveEmoticons && emoticon !in NeutralEmoticons
  {
    if emoticon in PositiveEmoticons then Positive
    else if emoticon in NeutralEmoticons then Neutral
    else Negative
  }

  /** The last characters of the positive emoticons; only five of them end in ':' or '3',
      the two endings they share with negative ones. */
  lemma PositiveEnding(e: string)
    requires e in PositiveEmoticons
    ensures 2 <= |e| <= 4
    ensures e[|e| - 1] in {')', ']', '3', '>', '}', 'D', '*', '\U{2014}', 'P', 'p', 'b', ':', '^'}
    ensures e[|e| - 1] in {':', '3'} ==> e in {"d:", ":-3", ":3", "=3", "<3"}
  {
  }

  /** No negative emoticon ends like a positive one, save three ending in ':' or '3'. */
  lemma NegativeEnding(e: string)
    requires e in NegativeEmoticons
    ensures 2 <= |e| <= 4
    ensures e[|e| - 1] !in {')', ']', '>', '}', 'D', '*', '\U{2014}', 'P', 'p', 'b', '^', 'O', 'o', '0'}
    ensures e[|e| - 1] in {':', '3'} ==> e in {"D-':", "D:", "</3"}
  {
  }

  /** Every neutral emoticon ends in an O, an o or a zero. */
  lemma NeutralEnding(e: string)
    requires e in NeutralEmoticons
    ensures 2 <= |e| <= 3 && e[|e| - 1] in {'O', 'o', '0'}
  {
  }

  /** The three sets are pairwise disjoint. */
  lemma NeutralDisjoint(e: string)
    requires e in NeutralEmoticons
    ensures e !in PositiveEmoticons && e !in NegativeEmoticons
  {
    NeutralEnding(e);
    if e in PositiveEmoticons {
      PositiveEnding(e);
    }
    if e in NegativeEmoticons {
      NegativeEnding(e);
    }
  }

  lemma PositiveDisjoint(e: string)
    requires e in PositiveEmoticons
    ensures e !in NegativeEmoticons
  {
    PositiveEnding(e);
    if e in NegativeEmoticons {
      NegativeEnding(e);
    }
  }

  /** A string that is no emoticon at all is Negative. */
  lemma UnknownIsNegative(s: string)
    requires s !in AllEmoticons
    ensures EmoticonPolarity(s) == Negative
  {
  }

  /** Since the sets are disjoint, polarity names the set an emoticon comes from. */
  lemma PolarityOfEmoticon(e: string)
    requires e in AllEmoticons
    ensures EmoticonPolarity(e) == Positive <==> e in PositiveEmoticons
    ensures EmoticonPolarity(e) == Neutral <==> e in NeutralEmoticons
    ensures EmoticonPolarity(e) == Negative <==> e in NegativeEmoticons
  {
    if e in NeutralEmoticons {
      NeutralDisjoint(e);
    } else if e in PositiveEmoticons {
      PositiveDisjoint(e);
    }
  }

  /** The emoticons that are prefixes of ":o)": the neutral ":o" and the positive ":o)". */
  lemma PrefixesOfNoseSmile(e: string)
    requires e in AllEmoticons
    requires |e| <= 3 && e == ":o)"[..|e|]
    ensures e == ":o" || e == ":o)"
  {
    EmoticonLength(e);
  }
}
