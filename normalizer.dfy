/** Normalizer: URLs and user mentions replaced by Arabic tokens, and spaces put
    around numbers and Latin words. The passes are specified by scans over the
    positions of the input, as the Java loops index into the tweet. */
module Normalizer {
  import opened Text

  const UrlToken: string := "يوارالتوكن"
  const MentionToken: string := "منشنتوكن"

  // ---------------------------------------------------------------------
  // URLs and mentions

  /** What a replacement pass looks for: the two URL schemes, and the '@' of a mention. */
  datatype Span = Http | Https | Mention

  function Pattern(sp: Span): string
  {
    match sp
    case Http => "http://"
    case Https => "https://"
    case Mention => "@"
  }

  function Token(sp: Span): string
  {
    if sp == Mention then MentionToken else UrlToken
  }

  /** Both tokens are non-empty and made of Arabic letters only. */
  lemma TokenIsArabic(sp: Span)
    ensures |Token(sp)| > 0
    ensures forall j :: 0 <= j < |Token(sp)| ==> IsArabicLetter(Token(sp)[j])
  {
  }

  predicate NoArabic(p: string) { forall j :: 0 <= j < |p| ==> !IsArabicLetter(p[j]) }

  /** The two characters that end a URL or a mention. */
  predicate IsBreak(c: char) { c == ' ' || c == '\n' }

  predicate IsNewline(c: char) { c == '\n' }

  /** Whether position i of t is the start of the tweet or follows a break. */
  predicate AfterBreak(t: string, i: nat)
    requires i <= |t|
  {
    i == 0 || IsBreak(t[i - 1])
  }

  /** Whether a span starts at position i: a URL wherever its scheme occurs, a mention
      only where its '@' starts the tweet or follows a break. */
  predicate StartsSpanAt(sp: Span, t: string, i: nat)
    requires i <= |t|
  {
    OccursAt(t, Pattern(sp), i) && (sp == Mention ==> AfterBreak(t, i))
  }

  /** Where the text after a span starting at i resumes: at the first break when a
      space follows; at the end of t when neither a space nor a newline follows; and an
      error when a newline follows but no space, where the Java code sets its position
      to indexOf(' ') = -1 and the next substring call throws. */
  function SpanEnd(t: string, i: nat): (r: Option<nat>)
    requires i <= |t|
    ensures r == None <==> NextIn(t, IsSpace, i) == |t| && NextIn(t, IsNewline, i) < |t|
    ensures r.Some? ==> i <= r.value <= |t|
    ensures r.Some? ==> forall j :: i <= j < r.value ==> !IsBreak(t[j])
    ensures r.Some? && r.value < |t| ==> IsBreak(t[r.value])
  {
    var space := NextIn(t, IsSpace, i);
    var enter := NextIn(t, IsNewline, i);
    if space == |t| then (if enter == |t| then Some(|t|) else None)
    else Some(if space < enter then space else enter)
  }

  /** The text of one replacement pass from position i on: every span replaced by its
      token, up to the break that ends it, which is kept. */
  function PassFrom(sp: Span, t: string, i: nat): Option<string>
    requires i <= |t|
    decreases |t| - i
  {
    if i == |t| then Some([])
    else if StartsSpanAt(sp, t, i) then
      match SpanEnd(t, i)
      case None => None
      case Some(e) =>
        if e == i then None // cannot happen: t[i] starts the pattern, so it is no break
        else Prepend(Token(sp), PassFrom(sp, t, e))
    else Prepend([t[i]], PassFrom(sp, t, i + 1))
  }

  /** What normalizeURLs returns: the http:// pass, then the https:// pass on its result. */
  function NormalizedURLs(tweet: string): Option<string>
  {
    match PassFrom(Http, tweet, 0)
    case None => None
    case Some(t) => PassFrom(Https, t, 0)
  }

  /** What normalizeMentions returns. */
  function NormalizedMentions(tweet: string): Option<string>
  {
    PassFrom(Mention, tweet, 0)
  }

  /** hasURL */
  predicate HasURL(tweet: string)
  {
    Contains(tweet, "http://") || Contains(tweet, "https://")
  }

  /** hasMention */
  predicate HasMention(tweet: string)
  {
    HasChar(tweet, '@')
  }

  // ---------------------------------------------------------------------
  // The Java loops

  /** The position after a span starting at ind, from the two indexOf calls as the
      Java code compares them: |tweet| when neither a space nor a newline follows, -1
      when only a newline does. */
  method Delimiter(tweet: string, ind: nat) returns (start: int)
    requires ind <= |tweet|
    ensures start == match SpanEnd(tweet, ind) case None => -1 case Some(e) => e
  {
    var indSpace := IndexOfChar(tweet, ' ', ind);
    var indEnter := IndexOfChar(tweet, '\n', ind);
    IndexOfCharIsNext(tweet, ' ', IsSpace, ind, indSpace);
    IndexOfCharIsNext(tweet, '\n', IsNewline, ind, indEnter);
    if indSpace == indEnter {
      start := |tweet|;
    } else if indSpace < indEnter || indEnter == -1 {
      start := indSpace;
    } else {
      start := indEnter;
    }
  }

  lemma IndexOfCharIsNext(s: string, c: char, isC: char -> bool, from: nat, r: int)
    requires from <= |s|
    requires forall x :: isC(x) <==> x == c
    requires r == -1 || (from <= r < |s| && s[r] == c)
    requires forall k :: from <= k < |s| && (r == -1 || k < r) ==> s[k] != c
    ensures NextIn(s, isC, from) == if r == -1 then |s| else r
  {
    var k := NextIn(s, isC, from);
    if k < |s| {
      assert isC(s[k]);
    }
    if r != -1 {
      assert isC(s[r]);
    }
  }

  /** normalizeURLs: the loop over the two schemes. */
  method NormalizeURLs(tweet: string) returns (r: Option<string>)
    ensures r == NormalizedURLs(tweet)
  {
    var patterns := [Http, Https];
    var text := tweet;
    for i := 0 to 2
      invariant i == 0 ==> text == tweet
      invariant i == 1 ==> PassFrom(Http, tweet, 0) == Some(text)
      invariant i == 2 ==> NormalizedURLs(tweet) == Some(text)
    {
      var next := ReplaceUrls(text, patterns[i]);
      if next.None? {
        return None;
      }
      text := next.value;
    }
    return Some(text);
  }

  /** normalizeURLs: the inner loop, for one scheme. */
  method ReplaceUrls(tweet: string, sp: Span) returns (r: Option<string>)
    requires sp != Mention
    ensures r == PassFrom(sp, tweet, 0)
  {
    var p := Pattern(sp);
    var normalized := "";
    var ind := IndexOf(tweet, p, 0);
    var start: nat := 0;
    PrependNil(PassFrom(sp, tweet, 0));
    while ind != -1
      invariant start <= |tweet|
      invariant ind == -1 || (start <= ind && OccursAt(tweet, p, ind))
      invariant forall k: nat :: start <= k && (ind == -1 || k < ind) ==> !OccursAt(tweet, p, k)
      invariant Prepend(normalized, PassFrom(sp, tweet, start)) == PassFrom(sp, tweet, 0)
      decreases if ind == -1 then 0 else |tweet| + 1 - ind
    {
      var next := Delimiter(tweet, ind);
      SpanAt(sp, tweet, start, ind, next);
      if next < 0 {
        // start becomes -1 here, and the next substring call throws
        return None;
      }
      PrependPrepend(normalized, tweet[start..ind] + UrlToken, PassFrom(sp, tweet, next));
      normalized := normalized + (tweet[start..ind] + UrlToken);
      start := next;
      if next == |tweet| {
        break;
      }
      ind := IndexOf(tweet, p, start);
    }
    SpanFinish(sp, tweet, start);
    normalized := normalized + tweet[start..];
    return Some(normalized);
  }

  /** normalizeMentions */
  method NormalizeMentions(tweet: string) returns (r: Option<string>)
    ensures r == NormalizedMentions(tweet)
  {
    var normalized := "";
    var ind := IndexOfChar(tweet, '@', 0);
    var start: nat := 0;
    PrependNil(NormalizedMentions(tweet));
    MentionSearched(tweet, normalized, start, 0, ind);
    while ind != -1
      invariant MentionLoop(tweet, normalized, start, ind)
      decreases if ind == -1 then 0 else |tweet| + 1 - ind
    {
      if ind == 0 || tweet[ind - 1] == ' ' || tweet[ind - 1] == '\n' {
        var next := Delimiter(tweet, ind);
        MentionTaken(tweet, normalized, start, ind, next);
        if next < 0 {
          // start becomes -1 here, and the next substring call throws
          return None;
        }
        ghost var done, from, at := normalized, start, ind;
        normalized := normalized + (tweet[start..ind] + MentionToken);
        if next == |tweet| {
          MentionDone(tweet, normalized);
          return Some(normalized);
        }
        start := next;
        ind := IndexOfChar(tweet, '@', start);
        MentionResumed(tweet, done, from, at, next, ind);
      } else {
        ghost var done, from, at := normalized, start, ind;
        normalized := normalized + tweet[start..ind];
        start := ind;
        ind := IndexOfChar(tweet, '@', start + 1);
        MentionPassed(tweet, done, from, at, ind);
      }
    }
    SpanFinish(Mention, tweet, start);
    normalized := normalized + tweet[start..];
    return Some(normalized);
  }

  /** The state of the normalizeMentions loop: the text before start is done, and no
      mention starts between start and the next '@'. */
  predicate MentionLoop(tweet: string, normalized: string, start: nat, ind: int)
  {
    && start <= |tweet|
    && (ind == -1 || (start <= ind < |tweet| && tweet[ind] == '@'))
    && (forall j :: start <= j < (if ind == -1 then |tweet| else ind) ==> !StartsSpanAt(Mention, tweet, j))
    && Prepend(normalized, PassFrom(Mention, tweet, start)) == NormalizedMentions(tweet)
  }

  /** After the search for the next '@' from position from. */
  lemma MentionSearched(tweet: string, normalized: string, start: nat, from: nat, ind: int)
    requires start <= from <= |tweet|
    requires forall j :: start <= j < from ==> !StartsSpanAt(Mention, tweet, j)
    requires ind == -1 || (from <= ind < |tweet| && tweet[ind] == '@')
    requires forall k :: from <= k < |tweet| && (ind == -1 || k < ind) ==> tweet[k] != '@'
    requires Prepend(normalized, PassFrom(Mention, tweet, start)) == NormalizedMentions(tweet)
    ensures MentionLoop(tweet, normalized, start, ind)
  {
    NoAtNoMention(tweet, from, if ind == -1 then |tweet| else ind);
  }

  /** A mention at ind: its token is appended and the scan resumes after it. */
  lemma MentionTaken(tweet: string, normalized: string, start: nat, ind: nat, next: int)
    requires MentionLoop(tweet, normalized, start, ind)
    requires AfterBreak(tweet, ind)
    requires next == match SpanEnd(tweet, ind) case None => -1 case Some(e) => e
    ensures next < 0 ==> NormalizedMentions(tweet) == None
    ensures next >= 0 ==> start < next <= |tweet|
    ensures next >= 0 ==> Prepend(normalized + (tweet[start..ind] + MentionToken), PassFrom(Mention, tweet, next))
                           == NormalizedMentions(tweet)
  {
    assert tweet[ind..ind + 1] == "@";
    SpanAt(Mention, tweet, start, ind, next);
    if next >= 0 {
      PrependPrepend(normalized, tweet[start..ind] + MentionToken, PassFrom(Mention, tweet, next));
    }
  }

  /** An '@' that does not follow a break is copied. */
  lemma MentionSkipped(tweet: string, normalized: string, start: nat, ind: nat)
    requires MentionLoop(tweet, normalized, start, ind)
    requires !AfterBreak(tweet, ind)
    ensures ind < |tweet|
    ensures !StartsSpanAt(Mention, tweet, ind)
    ensures Prepend(normalized + tweet[start..ind], PassFrom(Mention, tweet, ind)) == NormalizedMentions(tweet)
  {
    PassCopy(Mention, tweet, start, ind);
    PrependPrepend(normalized, tweet[start..ind], PassFrom(Mention, tweet, ind));
  }

  /** The loop state after a mention and the search for the next '@'. */
  lemma MentionResumed(tweet: string, normalized: string, start: nat, ind: nat, next: int, ind': int)
    requires MentionLoop(tweet, normalized, start, ind)
    requires AfterBreak(tweet, ind)
    requires next == match SpanEnd(tweet, ind) case None => -1 case Some(e) => e
    requires 0 <= next < |tweet|
    requires ind' == -1 || (next <= ind' < |tweet| && tweet[ind'] == '@')
    requires forall k :: next <= k < |tweet| && (ind' == -1 || k < ind') ==> tweet[k] != '@'
    ensures start < next
    ensures MentionLoop(tweet, normalized + (tweet[start..ind] + MentionToken), next, ind')
  {
    MentionTaken(tweet, normalized, start, ind, next);
    MentionSearched(tweet, normalized + (tweet[start..ind] + MentionToken), next, next, ind');
  }

  /** The loop state after an '@' that starts no mention and the search for the
      next one. */
  lemma MentionPassed(tweet: string, normalized: string, start: nat, ind: nat, ind': int)
    requires MentionLoop(tweet, normalized, start, ind)
    requires !AfterBreak(tweet, ind)
    requires ind' == -1 || (ind + 1 <= ind' < |tweet| && tweet[ind'] == '@')
    requires forall k :: ind + 1 <= k < |tweet| && (ind' == -1 || k < ind') ==> tweet[k] != '@'
    ensures MentionLoop(tweet, normalized + tweet[start..ind], ind, ind')
  {
    MentionSkipped(tweet, normalized, start, ind);
    MentionSearched(tweet, normalized + tweet[start..ind], ind, ind + 1, ind');
  }

  /** A mention that runs to the end of the tweet completes the text. */
  lemma MentionDone(tweet: string, normalized: string)
    requires Prepend(normalized, PassFrom(Mention, tweet, |tweet|)) == NormalizedMentions(tweet)
    ensures NormalizedMentions(tweet) == Some(normalized)
  {
    assert normalized + [] == normalized;
  }

  lemma NoAtNoMention(t: string, a: nat, b: nat)
    requires a <= b <= |t|
    requires forall k :: a <= k < b ==> t[k] != '@'
    ensures forall j :: a <= j < b ==> !StartsSpanAt(Mention, t, j)
  {
    forall j | a <= j < b
      ensures !OccursAt(t, "@", j)
    {
      if j + 1 <= |t| {
        assert t[j..j + 1][0] == t[j];
      }
    }
  }

  lemma PrependPrepend<T>(a: seq<T>, b: seq<T>, r: Option<seq<T>>)
    ensures Prepend(a, Prepend(b, r)) == Prepend(a + b, r)
  {
    if r.Some? {
      assert a + (b + r.value) == a + b + r.value;
    }
  }

  /** Text in which no span starts is copied as it is. */
  lemma {:induction false} PassCopy(sp: Span, t: string, a: nat, b: nat)
    requires a <= b <= |t|
    requires forall j :: a <= j < b ==> !StartsSpanAt(sp, t, j)
    ensures PassFrom(sp, t, a) == Prepend(t[a..b], PassFrom(sp, t, b))
    decreases b - a
  {
    if a == b {
      assert t[a..b] == [];
      PrependNil(PassFrom(sp, t, b));
    } else {
      PassCopy(sp, t, a + 1, b);
      PrependPrepend([t[a]], t[a + 1..b], PassFrom(sp, t, b));
      assert [t[a]] + t[a + 1..b] == t[a..b];
    }
  }

  /** A span never ends where it starts: its first character is no break. */
  lemma SpanMoves(sp: Span, t: string, i: nat)
    requires i < |t|
    requires StartsSpanAt(sp, t, i)
    ensures SpanEnd(t, i).Some? ==> SpanEnd(t, i).value > i
  {
    assert t[i] == t[i..i + |Pattern(sp)|][0];
  }

  /** One iteration of either loop: the text from start up to the span at ind is
      copied, the span becomes its token, and the pass resumes at next. */
  lemma SpanAt(sp: Span, t: string, start: nat, ind: nat, next: int)
    requires start <= ind < |t|
    requires forall j :: start <= j < ind ==> !StartsSpanAt(sp, t, j)
    requires StartsSpanAt(sp, t, ind)
    requires next == match SpanEnd(t, ind) case None => -1 case Some(e) => e
    ensures next < 0 ==> PassFrom(sp, t, start) == None
    ensures next >= 0 ==> ind < next <= |t|
    ensures next >= 0 ==> PassFrom(sp, t, start) == Prepend(t[start..ind] + Token(sp), PassFrom(sp, t, next))
  {
    PassCopy(sp, t, start, ind);
    SpanMoves(sp, t, ind);
    if next >= 0 {
      PrependPrepend(t[start..ind], Token(sp), PassFrom(sp, t, next));
    }
  }

  /** The text after the last span is copied. */
  lemma SpanFinish(sp: Span, t: string, start: nat)
    requires start <= |t|
    requires forall j :: start <= j < |t| ==> !StartsSpanAt(sp, t, j)
    ensures PassFrom(sp, t, start) == Some(t[start..])
  {
    PassCopy(sp, t, start, |t|);
    assert t[start..|t|] + [] == t[start..];
  }

  // ---------------------------------------------------------------------
  // Properties of the replacement passes

  /** Up to its first Arabic letter, the text of a pass agrees with its input. */
  lemma {:induction false} PassPrefix(sp: Span, t: string, i: nat, out: string, k: nat)
    requires i <= |t|
    requires PassFrom(sp, t, i) == Some(out)
    requires k <= |out|
    requires forall j :: 0 <= j < k ==> !IsArabicLetter(out[j])
    ensures i + k <= |t| && out[..k] == t[i..i + k]
    decreases |t| - i
  {
    if k == 0 {
    } else if StartsSpanAt(sp, t, i) {
      PassHead(sp, t, i, out);
      assert false;
    } else {
      var rest := PassCopied(sp, t, i, out);
      TailWithoutArabic(t[i], rest, k);
      PassPrefix(sp, t, i + 1, rest, k - 1);
      ConsPrefix(t, i, rest, k);
    }
  }

  lemma TailWithoutArabic(c: char, rest: string, k: nat)
    requires 0 < k <= |rest| + 1
    requires forall j :: 0 <= j < k ==> !IsArabicLetter(([c] + rest)[j])
    ensures forall j :: 0 <= j < k - 1 ==> !IsArabicLetter(rest[j])
  {
    forall j | 0 <= j < k - 1
      ensures !IsArabicLetter(rest[j])
    {
      assert rest[j] == ([c] + rest)[j + 1];
    }
  }

  /** Where no span starts, a pass copies the character and goes on. */
  lemma PassCopied(sp: Span, t: string, i: nat, out: string) returns (rest: string)
    requires i < |t|
    requires !StartsSpanAt(sp, t, i)
    requires PassFrom(sp, t, i) == Some(out)
    ensures PassFrom(sp, t, i + 1) == Some(rest)
    ensures out == [t[i]] + rest
  {
    rest := PassFrom(sp, t, i + 1).value;
  }

  /** The text of a pass at a span starts with its token. */
  lemma PassHead(sp: Span, t: string, i: nat, out: string)
    requires i < |t|
    requires StartsSpanAt(sp, t, i)
    requires PassFrom(sp, t, i) == Some(out)
    ensures |out| > 0 && IsArabicLetter(out[0])
  {
    TokenIsArabic(sp);
    var rest := PassFrom(sp, t, SpanEnd(t, i).value).value;
    assert out == Token(sp) + rest;
    assert out[0] == Token(sp)[0];
  }

  lemma ConsPrefix(t: string, i: nat, rest: string, k: nat)
    requires 0 < k <= |rest| + 1
    requires i + 1 + (k - 1) <= |t| && rest[..k - 1] == t[i + 1..i + k]
    ensures ([t[i]] + rest)[..k] == t[i..i + k]
  {
    assert ([t[i]] + rest)[..k] == [t[i]] + rest[..k - 1];
    assert t[i..i + k] == [t[i]] + t[i + 1..i + k];
  }

  /** No occurrence of p starts at i or later. */
  predicate AbsentFrom(t: string, p: string, i: nat)
  {
    forall k: nat :: i <= k <= |t| ==> !OccursAt(t, p, k)
  }

  lemma ContainsAfterPrefix(a: string, rest: string, p: string)
    requires p != [] && NoArabic(p)
    requires forall j :: 0 <= j < |a| ==> IsArabicLetter(a[j])
    requires !Contains(rest, p)
    ensures !Contains(a + rest, p)
  {
    forall i: nat | i <= |a + rest|
      ensures !OccursAt(a + rest, p, i)
    {
      if i + |p| <= |a + rest| {
        assert (a + rest)[i..i + |p|][0] == (a + rest)[i];
        if |a| <= i {
          assert (a + rest)[i..i + |p|] == rest[i - |a|..i - |a| + |p|];
          assert !OccursAt(rest, p, i - |a|);
        }
      }
    }
  }

  /** A pass adds no occurrence of a pattern without Arabic letters, and a URL pass
      leaves no occurrence of its own scheme. */
  lemma {:induction false} PassAvoids(sp: Span, t: string, i: nat, out: string, p: string)
    requires i <= |t|
    requires PassFrom(sp, t, i) == Some(out)
    requires p != [] && NoArabic(p)
    requires AbsentFrom(t, p, i) || (sp != Mention && p == Pattern(sp))
    ensures !Contains(out, p)
    decreases |t| - i
  {
    if i == |t| {
      assert !OccursAt(out, p, 0);
    } else if StartsSpanAt(sp, t, i) {
      var e := SpanEnd(t, i).value;
      var rest := PassFrom(sp, t, e).value;
      assert out == Token(sp) + rest;
      assert AbsentFrom(t, p, i) ==> AbsentFrom(t, p, e);
      PassAvoids(sp, t, e, rest, p);
      TokenIsArabic(sp);
      ContainsAfterPrefix(Token(sp), rest, p);
    } else {
      var rest := PassCopied(sp, t, i, out);
      assert AbsentFrom(t, p, i) ==> AbsentFrom(t, p, i + 1);
      PassAvoids(sp, t, i + 1, rest, p);
      FirstOccurrence(sp, t, i, out, rest, p);
      LaterOccurrences(t[i], rest, p);
    }
  }

  /** An occurrence in [c] + rest past its head would be one in rest. */
  lemma LaterOccurrences(c: char, rest: string, p: string)
    requires !Contains(rest, p)
    ensures forall n: nat :: 0 < n <= |[c] + rest| ==> !OccursAt([c] + rest, p, n)
  {
    var out := [c] + rest;
    forall n: nat | 0 < n <= |out|
      ensures !OccursAt(out, p, n)
    {
      if n + |p| <= |out| {
        assert out[n..n + |p|] == rest[n - 1..n - 1 + |p|];
        assert !OccursAt(rest, p, n - 1);
      }
    }
  }

  /** The case of PassAvoids where an occurrence would start at the copied character. */
  lemma FirstOccurrence(sp: Span, t: string, i: nat, out: string, rest: string, p: string)
    requires i < |t|
    requires !StartsSpanAt(sp, t, i)
    requires PassFrom(sp, t, i + 1) == Some(rest)
    requires out == [t[i]] + rest
    requires p != [] && NoArabic(p)
    requires AbsentFrom(t, p, i) || (sp != Mention && p == Pattern(sp))
    ensures !OccursAt(out, p, 0)
  {
    if OccursAt(out, p, 0) {
      OccurrenceTail(t[i], rest, p);
      PassPrefix(sp, t, i + 1, rest, |p| - 1);
      HeadOccurrence(t, i, rest, p);
    }
  }

  /** An occurrence of a pattern without Arabic letters at the head of [c] + rest
      puts the rest of the pattern, free of Arabic letters, at the head of rest. */
  lemma OccurrenceTail(c: char, rest: string, p: string)
    requires p != [] && NoArabic(p)
    requires OccursAt([c] + rest, p, 0)
    ensures |p| - 1 <= |rest| && c == p[0]
    ensures forall j :: 0 <= j < |p| - 1 ==> !IsArabicLetter(rest[j])
  {
    var out := [c] + rest;
    assert out[..|p|] == p;
    forall j | 0 <= j < |p| - 1
      ensures !IsArabicLetter(rest[j])
    {
      assert rest[j] == out[j + 1] == p[j + 1];
    }
  }

  /** ... and when that rest is copied from t after position i, the pattern occurs
      in t at i. */
  lemma HeadOccurrence(t: string, i: nat, rest: string, p: string)
    requires i < |t| && p != []
    requires OccursAt([t[i]] + rest, p, 0)
    requires i + |p| <= |t| && |p| - 1 <= |rest| && rest[..|p| - 1] == t[i + 1..i + |p|]
    ensures OccursAt(t, p, i)
  {
    var out := [t[i]] + rest;
    assert out[..|p|] == [t[i]] + rest[..|p| - 1];
    assert t[i..i + |p|] == [t[i]] + t[i + 1..i + |p|];
  }

  lemma AbsentFromStart(t: string, p: string)
    requires !Contains(t, p)
    ensures AbsentFrom(t, p, 0)
  {
    forall k: nat | k <= |t|
      ensures !OccursAt(t, p, k)
    {
    }
  }

  /** After a successful normalizeURLs, hasURL is false. */
  lemma NoUrlRemains(tweet: string, out: string)
    requires NormalizedURLs(tweet) == Some(out)
    ensures !HasURL(out)
  {
    var t1 := PassFrom(Http, tweet, 0).value;
    assert NoArabic("http://");
    assert NoArabic("https://");
    PassAvoids(Http, tweet, 0, t1, "http://");
    AbsentFromStart(t1, "http://");
    PassAvoids(Https, t1, 0, out, "http://");
    PassAvoids(Https, t1, 0, out, "https://");
  }

  /** No '@' of the text starts a mention: none is at its head when ab holds, and
      each other one follows a character that is not a break. */
  predicate NoMentionStart(out: string, ab: bool)
  {
    forall j {:trigger out[j]} :: 0 <= j < |out| && out[j] == '@' ==> if j == 0 then !ab else !IsBreak(out[j - 1])
  }

  /** An Arabic token in front of a text adds no mention start. */
  lemma NoMentionAfterToken(token: string, rest: string, ab: bool, abRest: bool)
    requires |token| > 0 && forall j :: 0 <= j < |token| ==> IsArabicLetter(token[j])
    requires NoMentionStart(rest, abRest)
    ensures NoMentionStart(token + rest, ab)
  {
    var out := token + rest;
    forall j | 0 <= j < |out| && out[j] == '@'
      ensures if j == 0 then !ab else !IsBreak(out[j - 1])
    {
      if j >= |token| {
        assert out[j] == rest[j - |token|];
        if j > |token| {
          assert out[j - 1] == rest[j - 1 - |token|];
        }
      }
    }
  }

  /** A character in front of a text adds no mention start unless it is an '@' where a
      mention may start. */
  lemma NoMentionAfterChar(c: char, rest: string, ab: bool, abRest: bool)
    requires NoMentionStart(rest, abRest)
    requires c == '@' ==> !ab
    requires abRest == IsBreak(c)
    ensures NoMentionStart([c] + rest, ab)
  {
    var out := [c] + rest;
    forall j | 0 <= j < |out| && out[j] == '@'
      ensures if j == 0 then !ab else !IsBreak(out[j - 1])
    {
      if j == 1 {
        assert rest[0] == '@' && out[0] == c;
      } else if j > 1 {
        assert out[j] == rest[j - 1];
        assert out[j - 1] == rest[j - 2];
      }
    }
  }

  /** A mention pass leaves no '@' that would start another mention. */
  lemma {:induction false} PassLeavesNoMention(t: string, i: nat, out: string)
    requires i <= |t|
    requires PassFrom(Mention, t, i) == Some(out)
    ensures NoMentionStart(out, AfterBreak(t, i))
    decreases |t| - i
  {
    if i == |t| {
    } else if StartsSpanAt(Mention, t, i) {
      var e := SpanEnd(t, i).value;
      var rest := PassFrom(Mention, t, e).value;
      PassLeavesNoMention(t, e, rest);
      TokenIsArabic(Mention);
      assert out == MentionToken + rest;
      NoMentionAfterToken(MentionToken, rest, AfterBreak(t, i), AfterBreak(t, e));
    } else {
      var rest := PassFrom(Mention, t, i + 1).value;
      PassLeavesNoMention(t, i + 1, rest);
      assert out == [t[i]] + rest;
      assert t[i..i + 1] == [t[i]];
      NoMentionAfterChar(t[i], rest, AfterBreak(t, i), AfterBreak(t, i + 1));
    }
  }

  /** A text with no mention start is its own normalisation. */
  lemma NoMentionStartFixed(t: string)
    requires NoMentionStart(t, true)
    ensures NormalizedMentions(t) == Some(t)
  {
    forall j | 0 <= j < |t|
      ensures !StartsSpanAt(Mention, t, j)
    {
      if OccursAt(t, "@", j) {
        assert t[j] == t[j..j + 1][0];
      }
    }
    SpanFinish(Mention, t, 0);
    assert t[0..] == t;
  }

  /** normalizeMentions leaves no mention behind, so normalising again changes
      nothing. */
  lemma MentionsIdempotent(tweet: string, out: string)
    requires NormalizedMentions(tweet) == Some(out)
    ensures NoMentionStart(out, true)
    ensures NormalizedMentions(out) == Some(out)
  {
    PassLeavesNoMention(tweet, 0, out);
    NoMentionStartFixed(out);
  }

  /** A text without a URL is left as it is. */
  lemma NoUrlFixed(t: string)
    requires !HasURL(t)
    ensures NormalizedURLs(t) == Some(t)
  {
    forall j | 0 <= j < |t|
      ensures !StartsSpanAt(Http, t, j) && !StartsSpanAt(Https, t, j)
    {
      assert j <= |t|;
    }
    SpanFinish(Http, t, 0);
    SpanFinish(Https, t, 0);
    assert t[0..] == t;
  }

  /** normalizeURLs is idempotent. */
  lemma UrlsIdempotent(tweet: string, out: string)
    requires NormalizedURLs(tweet) == Some(out)
    ensures NormalizedURLs(out) == Some(out)
  {
    NoUrlRemains(tweet, out);
    NoUrlFixed(out);
  }

  /** A mention followed by a newline and no space makes the Java code throw. */
  lemma MentionBeforeNewlineFails()
    ensures NormalizedMentions("@ali\nhi") == None
  {
    var m := "@ali\nhi";
    assert m[0..1] == "@";
    assert StartsSpanAt(Mention, m, 0);
    assert forall j :: 0 <= j < |m| ==> !IsSpace(m[j]);
    assert NextIn(m, IsSpace, 0) == |m|;
    assert IsNewline(m[4]);
  }

  // ---------------------------------------------------------------------
  // Numbers and Latin words

  /** The text built by one normalizeNumbers or normalizeLatinLetters loop from
      position i on: every maximal run of the class p with a space before and after
      it, and the character after the run dropped, since the copy resumes at
      matcher.end()+1. */
  function PadFrom(t: string, p: char -> bool, i: nat): string
    requires i <= |t| + 1
    decreases |t| + 1 - i
  {
    if i >= |t| then []
    else if p(t[i]) then
      var e := RunEnd(t, p, i);
      " " + t[i..e] + " " + PadFrom(t, p, e + 1)
    else [t[i]] + PadFrom(t, p, i + 1)
  }

  function PadRuns(t: string, p: char -> bool): string
  {
    PadFrom(t, p, 0)
  }

  /** What normalizeNumbers returns: ASCII digit runs first, then Eastern Arabic ones. */
  function NormalizedNumbers(tweet: string): string
  {
    PadRuns(PadRuns(tweet, IsAsciiDigit), IsEasternDigit)
  }

  /** What normalizeLatinLetters returns. */
  function NormalizedLatinLetters(tweet: string): string
  {
    PadRuns(tweet, IsLatinLetter)
  }

  /** One padding loop, shared by normalizeNumbers (twice) and normalizeLatinLetters. */
  method SpaceRuns(tweet: string, p: char -> bool) returns (normalized: string)
    ensures normalized == PadRuns(tweet, p)
  {
    normalized := "";
    var start: nat := 0;
    var rs, re := FindRun(tweet, 0, p);
    RunFound(tweet, p, 0, rs, re);
    while rs < |tweet|
      invariant start <= |tweet| + 1 && rs <= |tweet|
      invariant start <= |tweet| ==> rs == NextIn(tweet, p, start)
      invariant start > |tweet| ==> rs == |tweet|
      invariant re == RunEnd(tweet, p, rs)
      invariant normalized + PadFrom(tweet, p, start) == PadRuns(tweet, p)
      decreases |tweet| - rs
    {
      ghost var done, from := normalized, start;
      normalized := normalized + (tweet[start..rs] + (" " + tweet[rs..re] + " "));
      start := re + 1;
      PadLoopStep(tweet, p, PadRuns(tweet, p), done, from, rs, re, normalized, start);
      ghost var runEnd := re;
      rs, re := FindRun(tweet, re, p);
      NextRunFound(tweet, p, runEnd, start, rs, re);
    }
    PadTail(tweet, p, start);
    if start < |tweet| {
      normalized := normalized + tweet[start..];
    } else {
      assert normalized + [] == normalized;
    }
  }

  /** The padding loop keeps its text plus the rest of the pass equal to the whole
      pass. */
  lemma PadLoopStep(t: string, p: char -> bool, whole: string, done: string, start: nat, rs: nat, re: nat,
                    done': string, start': nat)
    requires start <= |t| && rs == NextIn(t, p, start) && rs < |t| && re == RunEnd(t, p, rs)
    requires done + PadFrom(t, p, start) == whole
    requires done' == done + (t[start..rs] + (" " + t[rs..re] + " ")) && start' == re + 1
    ensures rs < re <= |t| && start' <= |t| + 1
    ensures done' + PadFrom(t, p, start') == whole
  {
    PadStep(t, p, start, rs, re);
    AppendAssoc(done, t[start..rs] + (" " + t[rs..re] + " "), PadFrom(t, p, re + 1));
  }

  /** The search resumed at the end e of a run finds the first run after e. */
  lemma NextRunFound(s: string, p: char -> bool, e: nat, resume: nat, start: nat, end: nat)
    requires e <= start <= end <= |s| && resume == e + 1
    requires e < |s| ==> !p(s[e])
    requires forall k :: e <= k < start ==> !p(s[k])
    requires forall k :: start <= k < end ==> p(s[k])
    requires end < |s| ==> !p(s[end])
    requires start < |s| ==> start < end
    ensures resume <= |s| ==> start == NextIn(s, p, resume)
    ensures resume > |s| ==> start == |s|
    ensures end == RunEnd(s, p, start)
  {
    RunFound(s, p, e, start, end);
  }

  /** The run FindRun reports is the first run from its starting point. */
  lemma RunFound(s: string, p: char -> bool, from: nat, start: nat, end: nat)
    requires from <= start <= end <= |s|
    requires forall k :: from <= k < start ==> !p(s[k])
    requires forall k :: start <= k < end ==> p(s[k])
    requires end < |s| ==> !p(s[end])
    requires start < |s| ==> start < end
    ensures start == NextIn(s, p, from) && end == RunEnd(s, p, start)
  {
    assert start < |s| ==> p(s[start]);
    NextInIs(s, p, from, start);
    RunEndIs(s, p, start, end);
  }

  /** The first position from `from` on where p holds, characterised. */
  lemma {:induction false} NextInIs(s: string, p: char -> bool, from: nat, start: nat)
    requires from <= start <= |s|
    requires forall k :: from <= k < start ==> !p(s[k])
    requires start < |s| ==> p(s[start])
    ensures NextIn(s, p, from) == start
    decreases start - from
  {
    if from < start {
      assert !p(s[from]);
      NextInIs(s, p, from + 1, start);
    }
  }

  /** The end of the run from `start` on, characterised. */
  lemma {:induction false} RunEndIs(s: string, p: char -> bool, start: nat, end: nat)
    requires start <= end <= |s|
    requires forall k :: start <= k < end ==> p(s[k])
    requires end < |s| ==> !p(s[end])
    ensures RunEnd(s, p, start) == end
    decreases end - start
  {
    if start < end {
      assert p(s[start]);
      RunEndIs(s, p, start + 1, end);
    }
  }

  /** What is left after the last run is copied. */
  lemma PadTail(t: string, p: char -> bool, start: nat)
    requires start <= |t| + 1
    requires start <= |t| ==> NextIn(t, p, start) == |t|
    ensures PadFrom(t, p, start) == if start < |t| then t[start..] else []
  {
    if start < |t| {
      PadCopy(t, p, start, |t|);
      assert t[start..|t|] + [] == t[start..];
    }
  }

  /** normalizeNumbers */
  method NormalizeNumbers(tweet: string) returns (r: string)
    ensures r == NormalizedNumbers(tweet)
  {
    var western := SpaceRuns(tweet, IsAsciiDigit);
    r := SpaceRuns(western, IsEasternDigit);
  }

  /** normalizeLatinLetters */
  method NormalizeLatinLetters(tweet: string) returns (r: string)
    ensures r == NormalizedLatinLetters(tweet)
  {
    r := SpaceRuns(tweet, IsLatinLetter);
  }

  /** One iteration of the padding loop: the text up to the next run is copied, and
      the run is put between spaces. */
  lemma PadStep(t: string, p: char -> bool, start: nat, rs: nat, re: nat)
    requires start <= |t| && rs == NextIn(t, p, start) && rs < |t| && re == RunEnd(t, p, rs)
    ensures rs < re <= |t|
    ensures PadFrom(t, p, start) == t[start..rs] + (" " + t[rs..re] + " ") + PadFrom(t, p, re + 1)
  {
    PadCopy(t, p, start, rs);
    PadAt(t, p, rs, re);
    AppendAssoc(t[start..rs], " " + t[rs..re] + " ", PadFrom(t, p, re + 1));
  }

  /** Text without characters of the class is copied as it is. */
  lemma {:induction false} PadCopy(t: string, p: char -> bool, a: nat, b: nat)
    requires a <= b <= |t|
    requires forall j :: a <= j < b ==> !p(t[j])
    ensures PadFrom(t, p, a) == t[a..b] + PadFrom(t, p, b)
    decreases b - a
  {
    if a == b {
      assert t[a..b] == [];
    } else {
      PadCopy(t, p, a + 1, b);
      PadChar(t, p, a);
      SliceCons(t, a, b, PadFrom(t, p, b));
    }
  }

  /** A character outside the class is copied. */
  lemma PadChar(t: string, p: char -> bool, i: nat)
    requires i < |t| && !p(t[i])
    ensures PadFrom(t, p, i) == [t[i]] + PadFrom(t, p, i + 1)
  {
  }

  /** A maximal run [rs, re) is put between spaces. */
  lemma PadAt(t: string, p: char -> bool, rs: nat, re: nat)
    requires rs < |t| && p(t[rs]) && re == RunEnd(t, p, rs)
    ensures rs < re <= |t|
    ensures PadFrom(t, p, rs) == " " + t[rs..re] + " " + PadFrom(t, p, re + 1)
  {
  }

  /** Without characters of the class the text is unchanged. */
  lemma PadNoRuns(t: string, p: char -> bool)
    requires forall j :: 0 <= j < |t| ==> !p(t[j])
    ensures PadRuns(t, p) == t
  {
    PadCopy(t, p, 0, |t|);
    assert t[0..|t|] == t;
  }

  /** "12a" becomes " 12 ": the 'a' after the number is dropped. */
  lemma NumberDropsNextChar()
    ensures NormalizedNumbers("12a") == " 12 "
  {
    RunFound("12a", IsAsciiDigit, 0, 0, 2);
    PadAt("12a", IsAsciiDigit, 0, 2);
    assert "12a"[0..2] == "12";
    assert PadRuns("12a", IsAsciiDigit) == " 12 ";
    assert forall j :: 0 <= j < |" 12 "| ==> !IsEasternDigit(" 12 "[j]);
    PadNoRuns(" 12 ", IsEasternDigit);
  }

  /** No character of the class is lost or reordered. */
  lemma {:induction false} PadKeepsClass(t: string, p: char -> bool, i: nat)
    requires i <= |t| + 1
    requires !p(' ')
    ensures Filter(PadFrom(t, p, i), p) == if i <= |t| then Filter(t[i..], p) else []
    decreases |t| + 1 - i
  {
    if i < |t| {
      if p(t[i]) {
        var e := RunEnd(t, p, i);
        PadKeepsClass(t, p, e + 1);
        FilterAll(t[i..e], p);
        RunFiltered(t, p, p, i, e);
      } else {
        PadKeepsClass(t, p, i + 1);
        CharFiltered(t, p, p, i);
      }
    } else if i == |t| {
      assert t[i..] == [];
    }
  }

  /** Through a filter q that drops the space, a padded run shows what the run
      shows, and the dropped character after it shows nothing when q rejects it. */
  lemma RunFiltered(t: string, p: char -> bool, q: char -> bool, i: nat, e: nat)
    requires i < |t| && p(t[i]) && !q(' ') && e == RunEnd(t, p, i)
    requires e < |t| ==> !q(t[e])
    requires Filter(PadFrom(t, p, e + 1), q) == if e < |t| then Filter(t[e + 1..], q) else []
    ensures Filter(PadFrom(t, p, i), q) == Filter(t[i..], q)
  {
    var rest := PadFrom(t, p, e + 1);
    PadAt(t, p, i, e);
    FilterBlock(t[i..e], rest, q);
    FilterSplit(t, q, i, e);
    var w := Filter(t[i..e], q);
    if e < |t| {
      var after := Filter(t[e + 1..], q);
      assert [] + after == after;
    } else {
      assert w + [] == w;
    }
  }

  /** A copied character shows through a filter as it does in the text. */
  lemma CharFiltered(t: string, p: char -> bool, q: char -> bool, i: nat)
    requires i < |t| && !p(t[i])
    requires Filter(PadFrom(t, p, i + 1), q) == Filter(t[i + 1..], q)
    ensures Filter(PadFrom(t, p, i), q) == Filter(t[i..], q)
  {
    PadChar(t, p, i);
    assert t[i..][1..] == t[i + 1..];
    assert ([t[i]] + PadFrom(t, p, i + 1))[1..] == PadFrom(t, p, i + 1);
  }

  /** " " + w + " " + rest seen through a filter that drops the space. */
  lemma FilterBlock(w: string, rest: string, q: char -> bool)
    requires !q(' ')
    ensures Filter(" " + w + " " + rest, q) == Filter(w, q) + Filter(rest, q)
  {
    var sp := " ";
    assert Filter(sp, q) == [] by { assert sp[1..] == []; }
    FilterAppend(sp, w, q);
    FilterAppend(sp + w, sp, q);
    FilterAppend(sp + w + sp, rest, q);
    assert Filter(sp + w + sp, q) == Filter(w, q) by {
      assert Filter(sp + w, q) == Filter(w, q);
      assert Filter(w, q) + [] == Filter(w, q);
    }
  }

  /** The filter of t[i..] split at the end e of a run: the run, the character at e,
      then what follows it. */
  lemma FilterSplit(t: string, q: char -> bool, i: nat, e: nat)
    requires i <= e <= |t|
    ensures Filter(t[i..], q) == Filter(t[i..e], q) +
              (if e < |t| then (if q(t[e]) then [t[e]] else []) + Filter(t[e + 1..], q) else [])
  {
    assert t[i..] == t[i..e] + t[e..];
    FilterAppend(t[i..e], t[e..], q);
    if e < |t| {
      assert t[e..][1..] == t[e + 1..];
    } else {
      assert t[e..] == [];
    }
  }

  lemma {:induction false} FilterAll(s: string, p: char -> bool)
    requires forall j :: 0 <= j < |s| ==> p(s[j])
    ensures Filter(s, p) == s
  {
    if s != [] {
      FilterAll(s[1..], p);
      assert [s[0]] + s[1..] == s;
    }
  }

  /** A class disjoint from the padded one and without the space keeps all its
      characters when none of them directly follows a character of the padded class. */
  lemma {:induction false} PadKeepsOther(t: string, p: char -> bool, q: char -> bool, i: nat)
    requires i <= |t| + 1
    requires !q(' ')
    requires forall c :: q(c) ==> !p(c)
    requires forall j :: 0 < j < |t| && p(t[j - 1]) ==> !q(t[j])
    ensures Filter(PadFrom(t, p, i), q) == if i <= |t| then Filter(t[i..], q) else []
    decreases |t| + 1 - i
  {
    if i < |t| {
      if p(t[i]) {
        var e := RunEnd(t, p, i);
        assert e < |t| ==> !q(t[e]) by {
          if e < |t| {
            assert p(t[e - 1]);
          }
        }
        PadKeepsOther(t, p, q, e + 1);
        FilterNone(t[i..e], q);
        RunFiltered(t, p, q, i, e);
      } else {
        PadKeepsOther(t, p, q, i + 1);
        CharFiltered(t, p, q, i);
      }
    } else if i == |t| {
      assert t[i..] == [];
    }
  }

  /** normalizeNumbers keeps every Eastern Arabic digit, in order, unless one directly
      follows an ASCII digit: that one is the character the first loop drops. */
  lemma NumbersKeepEasternDigits(tweet: string)
    requires forall j :: 0 < j < |tweet| && IsAsciiDigit(tweet[j - 1]) ==> !IsEasternDigit(tweet[j])
    ensures Filter(NormalizedNumbers(tweet), IsEasternDigit) == Filter(tweet, IsEasternDigit)
  {
    var western := PadRuns(tweet, IsAsciiDigit);
    PadKeepsClass(western, IsEasternDigit, 0);
    PadKeepsOther(tweet, IsAsciiDigit, IsEasternDigit, 0);
    assert western[0..] == western;
    assert tweet[0..] == tweet;
  }

  /** Each loop keeps every character of its own class, in order. */
  lemma PadKeepsRuns(tweet: string, p: char -> bool)
    requires !p(' ')
    ensures Filter(PadRuns(tweet, p), p) == Filter(tweet, p)
  {
    PadKeepsClass(tweet, p, 0);
    assert tweet[0..] == tweet;
  }
}
