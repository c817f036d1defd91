/** The negation-scope scanner of Negation.isNegated. */
module Negation {
  import opened Text

  /** The closing class [;:.,?!¿(] of the scanner. It holds U+00BF, the inverted
      question mark, and not U+061F, the Arabic question mark. */
  predicate IsScopeCloser(c: char)
  {
    c == ';' || c == ':' || c == '.' || c == ',' || c == '?' || c == '!' || c == '\U{00BF}' || c == '('
  }

  predicate HasCloser(w: string) { exists i :: 0 <= i < |w| && IsScopeCloser(w[i]) }

  /** Whether the word has a character of [ء-ي٠-٩ 0-9a-zA-Z]. */
  predicate HasWordChar(w: string) { exists i :: 0 <= i < |w| && IsWordChar(w[i]) }

  /** A closing token made of punctuation only: it closes a scope without a flag. */
  predicate IsBareCloser(w: string) { HasCloser(w) && !HasWordChar(w) }

  /** The flags of the scanner, given whether it is inside a negation scope. */
  function Scan(words: seq<string>, negators: seq<string>, inScope: bool): seq<bool>
    decreases |words|
  {
    if words == [] then []
    else if !inScope then
      [false] + Scan(words[1..], negators, words[0] in negators)
    else if HasCloser(words[0]) then
      (if HasWordChar(words[0]) then [true] else []) + Scan(words[1..], negators, false)
    else
      [true] + Scan(words[1..], negators, true)
  }

  /** The flags isNegated returns for a word sequence. */
  function Mask(words: seq<string>, negators: seq<string>): seq<bool>
  {
    Scan(words, negators, false)
  }

  /** Negation.isNegated: the two nested loops over index. */
  method IsNegated(words: seq<string>, negationWords: seq<string>) returns (negate: seq<bool>)
    ensures negate == Mask(words, negationWords)
    ensures |negate| <= |words|
    ensures |words| > 0 ==> |negate| > 0 && !negate[0]
  {
    negate := [];
    var index := 0;
    while index < |words|
      invariant 0 <= index <= |words|
      invariant negate + Scan(words[index..], negationWords, false) == Mask(words, negationWords)
    {
      ScanStep(words, index, negationWords, false, negate, Mask(words, negationWords), [false], words[index] in negationWords);
      if words[index] in negationWords {
        negate := negate + [false];
        index := index + 1;
        while index < |words|
          invariant 0 <= index <= |words|
          invariant negate + Scan(words[index..], negationWords, true) == Mask(words, negationWords)
        {
          var word := words[index];
          ScanStep(words, index, negationWords, true, negate, Mask(words, negationWords),
                   if !HasCloser(word) || HasWordChar(word) then [true] else [], !HasCloser(word));
          index := index + 1;
          if HasCloser(word) {
            if HasWordChar(word) {
              negate := negate + [true];
            }
            break;
          } else {
            negate := negate + [true];
          }
        }
      } else {
        negate := negate + [false];
        index := index + 1;
      }
    }
    MaskLengthBound(words, negationWords, false);
  }

  /** The flags one word contributes, and the scope the scanner is in afterwards. */
  lemma ScanAt(words: seq<string>, i: nat, negators: seq<string>, inScope: bool)
    requires i < |words|
    ensures Scan(words[i..], negators, inScope)
            == (if !inScope || !HasCloser(words[i]) || HasWordChar(words[i]) then [inScope] else [])
               + Scan(words[i + 1..], negators, if !inScope then words[i] in negators else !HasCloser(words[i]))
  {
    assert words[i..][0] == words[i];
    assert words[i..][1..] == words[i + 1..];
  }

  /** One word of the loops: its flags are appended and the scope moves on. */
  lemma ScanStep(words: seq<string>, i: nat, negators: seq<string>, inScope: bool, negate: seq<bool>, target: seq<bool>,
                 flags: seq<bool>, next: bool)
    requires i < |words| && negate + Scan(words[i..], negators, inScope) == target
    requires flags == if !inScope || !HasCloser(words[i]) || HasWordChar(words[i]) then [inScope] else []
    requires next == if !inScope then words[i] in negators else !HasCloser(words[i])
    ensures (negate + flags) + Scan(words[i + 1..], negators, next) == target
  {
    ScanAt(words, i, negators, inScope);
    AppendAssoc(negate, flags, Scan(words[i + 1..], negators, next));
  }

  /** The scanner never yields more flags than words. */
  lemma {:induction false} MaskLengthBound(words: seq<string>, negators: seq<string>, inScope: bool)
    ensures |Scan(words, negators, inScope)| <= |words|
  {
    if words != [] {
      if !inScope {
        MaskLengthBound(words[1..], negators, words[0] in negators);
      } else {
        MaskLengthBound(words[1..], negators, !HasCloser(words[0]));
      }
    }
  }

  /** Only punctuation-only closing tokens lose their flag: without them every word
      has exactly one flag. */
  lemma {:induction false} FullLengthWithoutBareClosers(words: seq<string>, negators: seq<string>, inScope: bool)
    requires forall i :: 0 <= i < |words| ==> !IsBareCloser(words[i])
    ensures |Scan(words, negators, inScope)| == |words|
  {
    if words != [] {
      if !inScope {
        FullLengthWithoutBareClosers(words[1..], negators, words[0] in negators);
      } else {
        FullLengthWithoutBareClosers(words[1..], negators, !HasCloser(words[0]));
      }
    }
  }

  /** A negation term followed by "." yields one flag for two words. */
  lemma BareCloserDropsFlag(term: string, negators: seq<string>)
    requires term in negators
    ensures Mask([term, "."], negators) == [false]
  {
    assert HasCloser(".") by { assert IsScopeCloser("."[0]); }
    assert !HasWordChar(".") by { assert forall i :: 0 <= i < |"."| ==> "."[i] == '.'; }
    var ws := [term, "."];
    ScanAt(ws, 0, negators, false);
    ScanAt(ws, 1, negators, true);
    assert ws[2..] == [];
  }

  /** Outside a scope, words that are not negation terms are flagged false. */
  lemma {:induction false} OutsideScope(pre: seq<string>, rest: seq<string>, negators: seq<string>)
    requires forall i :: 0 <= i < |pre| ==> pre[i] !in negators
    ensures Scan(pre + rest, negators, false) == seq(|pre|, _ => false) + Scan(rest, negators, false)
  {
    if pre == [] {
      assert pre + rest == rest;
    } else {
      assert (pre + rest)[0] == pre[0];
      assert (pre + rest)[1..] == pre[1..] + rest;
      OutsideScope(pre[1..], rest, negators);
      assert seq(|pre|, _ => false) == [false] + seq(|pre| - 1, _ => false);
    }
  }

  /** Inside a scope, every word without a closing mark is flagged true, negation
      terms included: they do not open a new scope. */
  lemma {:induction false} InsideScope(mid: seq<string>, rest: seq<string>, negators: seq<string>)
    requires forall i :: 0 <= i < |mid| ==> !HasCloser(mid[i])
    ensures Scan(mid + rest, negators, true) == seq(|mid|, _ => true) + Scan(rest, negators, true)
  {
    if mid == [] {
      assert mid + rest == rest;
    } else {
      assert (mid + rest)[0] == mid[0];
      assert (mid + rest)[1..] == mid[1..] + rest;
      InsideScope(mid[1..], rest, negators);
      assert seq(|mid|, _ => true) == [true] + seq(|mid| - 1, _ => true);
    }
  }

  /** A negation term is flagged false; the words after it up to the first word with a
      closing mark are flagged true; the closing word is flagged true only when it also
      has a letter, digit or space; then scanning resumes outside any scope. */
  lemma NegationScope(term: string, mid: seq<string>, closer: string, rest: seq<string>, negators: seq<string>)
    requires term in negators
    requires forall i :: 0 <= i < |mid| ==> !HasCloser(mid[i])
    requires HasCloser(closer)
    ensures Scan([term] + mid + [closer] + rest, negators, false)
            == [false] + seq(|mid|, _ => true) + (if HasWordChar(closer) then [true] else [])
               + Scan(rest, negators, false)
  {
    var ws := [term] + mid + [closer] + rest;
    assert ws[0] == term;
    assert ws[1..] == mid + ([closer] + rest);
    InsideScope(mid, [closer] + rest, negators);
    assert ([closer] + rest)[1..] == rest;
  }

  /** A scope that no closing word ends runs to the end of the input. */
  lemma UnclosedScope(term: string, mid: seq<string>, negators: seq<string>)
    requires term in negators
    requires forall i :: 0 <= i < |mid| ==> !HasCloser(mid[i])
    ensures Mask([term] + mid, negators) == [false] + seq(|mid|, _ => true)
  {
    assert ([term] + mid)[1..] == mid;
    InsideScope(mid, [], negators);
    assert mid + [] == mid;
  }

  /** The Arabic question mark does not close a scope. */
  lemma ArabicQuestionMarkDoesNotClose(term: string, negators: seq<string>)
    requires term in negators
    ensures Mask([term, "\U{061F}"], negators) == [false, true]
  {
    assert !HasCloser("\U{061F}") by {
      assert forall i :: 0 <= i < |"\U{061F}"| ==> "\U{061F}"[i] == '\U{061F}';
    }
    var ws := [term, "\U{061F}"];
    ScanAt(ws, 0, negators, false);
    ScanAt(ws, 1, negators, true);
    assert ws[2..] == [];
  }
}
