/** Strings, character classes and the scans that the Java code performs with
    String.indexOf, String.split and java.util.regex character classes. */
module Text {

  datatype Option<T> = None | Some(value: T)

  /** Prefixes a successful result; an error stays an error. */
  function Prepend<T>(pre: seq<T>, r: Option<seq<T>>): Option<seq<T>>
  {
    match r
    case None => None
    case Some(s) => Some(pre + s)
  }

  lemma PrependNil<T>(r: Option<seq<T>>)
    ensures Prepend([], r) == r
  {
    if r.Some? {
      assert [] + r.value == r.value;
    }
  }

  // ---------------------------------------------------------------------
  // Character classes of the regular expressions

  /** U+0621 .. U+064A, the Arabic letters of the regex class. */
  predicate IsArabicLetter(c: char) { '\U{0621}' <= c <= '\U{064A}' }

  /** U+0660 .. U+0669, the Eastern Arabic-Indic digits. */
  predicate IsEasternDigit(c: char) { '\U{0660}' <= c <= '\U{0669}' }

  predicate IsAsciiDigit(c: char) { '0' <= c <= '9' }

  predicate IsLatinLetter(c: char) { 'a' <= c <= 'z' || 'A' <= c <= 'Z' }

  /** Arabic letter, Eastern digit, ASCII digit or Latin letter. */
  predicate IsLetterOrDigit(c: char)
  {
    IsArabicLetter(c) || IsEasternDigit(c) || IsAsciiDigit(c) || IsLatinLetter(c)
  }

  predicate IsNotLetterOrDigit(c: char) { !IsLetterOrDigit(c) }

  /** The class [ء-ي٠-٩ 0-9a-zA-Z]; note that it holds the space. */
  predicate IsWordChar(c: char) { IsLetterOrDigit(c) || c == ' ' }

  /** The marks [;:.,?!؟(] that the retaining punctuation pass keeps. */
  predicate IsKeptPunct(c: char)
  {
    c == ';' || c == ':' || c == '.' || c == ',' || c == '?' || c == '!' || c == '\U{061F}' || c == '('
  }

  predicate IsSpace(c: char) { c == ' ' }

  /** Space, newline or tab: the separators of the tokenizer. */
  predicate IsBlank(c: char) { c == ' ' || c == '\n' || c == '\t' }

  // ---------------------------------------------------------------------
  // Substring search

  predicate StartsWith(s: string, p: string) { |p| <= |s| && s[..|p|] == p }

  predicate OccursAt(s: string, p: string, i: nat) { i + |p| <= |s| && s[i..i + |p|] == p }

  predicate Contains(s: string, p: string) { exists i: nat | i <= |s| :: OccursAt(s, p, i) }

  predicate HasChar(s: string, c: char) { exists i :: 0 <= i < |s| && s[i] == c }

  /** The index of the first c in s, or |s| when there is none. */
  function FirstIndex(s: string, c: char): (r: nat)
    ensures r <= |s|
    ensures forall i :: 0 <= i < r ==> s[i] != c
    ensures r < |s| ==> s[r] == c
    ensures r == |s| <==> !HasChar(s, c)
  {
    if s == [] then 0
    else if s[0] == c then 0
    else
      var k := FirstIndex(s[1..], c);
      assert forall i :: 0 < i <= k ==> s[i] == s[1..][i - 1];
      1 + k
  }

  /** The first index at or after i whose character satisfies p, or |s|. */
  function NextIn(s: string, p: char -> bool, i: nat): (r: nat)
    requires i <= |s|
    ensures i <= r <= |s|
    ensures forall j :: i <= j < r ==> !p(s[j])
    ensures r < |s| ==> p(s[r])
    decreases |s| - i
  {
    if i == |s| || p(s[i]) then i else NextIn(s, p, i + 1)
  }

  /** The end of the run of characters satisfying p that starts at i. */
  function RunEnd(s: string, p: char -> bool, i: nat): (r: nat)
    requires i <= |s|
    ensures i <= r <= |s|
    ensures forall j :: i <= j < r ==> p(s[j])
    ensures r < |s| ==> !p(s[r])
    decreases |s| - i
  {
    if i == |s| || !p(s[i]) then i else RunEnd(s, p, i + 1)
  }

  /** String.indexOf(p, from) for from >= 0: the least occurrence at or after from, or -1. */
  method IndexOf(s: string, p: string, from: nat) returns (r: int)
    ensures r == -1 || (from <= r && OccursAt(s, p, r))
    ensures forall k: nat :: from <= k && (r == -1 || k < r) ==> !OccursAt(s, p, k)
  {
    var k := from;
    while k + |p| <= |s|
      invariant from <= k
      invariant forall j: nat :: from <= j < k ==> !OccursAt(s, p, j)
    {
      if s[k..k + |p|] == p {
        return k;
      }
      k := k + 1;
    }
    return -1;
  }

  /** String.indexOf(c, from) for from >= 0. */
  method IndexOfChar(s: string, c: char, from: nat) returns (r: int)
    ensures r == -1 || (from <= r < |s| && s[r] == c)
    ensures forall k :: from <= k < |s| && (r == -1 || k < r) ==> s[k] != c
  {
    var k := from;
    while k < |s|
      invariant from <= k
      invariant forall j :: from <= j < k && j < |s| ==> s[j] != c
    {
      if s[k] == c {
        return k;
      }
      k := k + 1;
    }
    return -1;
  }

  /** The first index at or after from whose character satisfies p, or |s|: the
      start of the next match of a one-character pattern "[...]". */
  method FindFirst(s: string, from: nat, p: char -> bool) returns (k: nat)
    requires from <= |s|
    ensures from <= k <= |s|
    ensures forall j :: from <= j < k ==> !p(s[j])
    ensures k < |s| ==> p(s[k])
  {
    k := from;
    while k < |s| && !p(s[k])
      invariant from <= k <= |s|
      invariant forall j :: from <= j < k ==> !p(s[j])
    {
      k := k + 1;
    }
  }

  /** The next maximal run of characters satisfying inClass at or after from, as the
      half-open range [start, end), the way java.util.regex's Matcher.find returns
      a match of a pattern "[...]+"; start == |s| when there is none. */
  method FindRun(s: string, from: nat, inClass: char -> bool) returns (start: nat, end: nat)
    requires from <= |s|
    ensures from <= start <= end <= |s|
    ensures forall k :: from <= k < start ==> !inClass(s[k])
    ensures forall k :: start <= k < end ==> inClass(s[k])
    ensures end < |s| ==> !inClass(s[end])
    ensures start < |s| <==> start < end
  {
    start := FindFirst(s, from, inClass);
    end := start;
    while end < |s| && inClass(s[end])
      invariant start <= end <= |s|
      invariant forall k :: start <= k < end ==> inClass(s[k])
    {
      end := end + 1;
    }
  }

  // ---------------------------------------------------------------------
  // Filtering and splitting

  /** The characters of s that satisfy keep, in order. */
  function Filter(s: string, keep: char -> bool): (r: string)
    ensures |r| <= |s|
    ensures forall i :: 0 <= i < |r| ==> keep(r[i])
  {
    if s == [] then []
    else if keep(s[0]) then [s[0]] + Filter(s[1..], keep)
    else Filter(s[1..], keep)
  }

  lemma {:induction false} FilterAppend(a: string, b: string, keep: char -> bool)
    ensures Filter(a + b, keep) == Filter(a, keep) + Filter(b, keep)
  {
    if a == [] {
      assert a + b == b;
    } else {
      assert (a + b)[0] == a[0];
      assert (a + b)[1..] == a[1..] + b;
      FilterAppend(a[1..], b, keep);
    }
  }

  /** The concatenation of a sequence of strings. */
  function Flatten(ws: seq<string>): string
  {
    if ws == [] then [] else ws[0] + Flatten(ws[1..])
  }

  lemma {:induction false} FlattenAppend(a: seq<string>, b: seq<string>)
    ensures Flatten(a + b) == Flatten(a) + Flatten(b)
  {
    if a == [] {
      assert a + b == b;
    } else {
      assert (a + b)[0] == a[0];
      assert (a + b)[1..] == a[1..] + b;
      FlattenAppend(a[1..], b);
    }
  }

  function Flush(cur: string): seq<string> { if cur == [] then [] else [cur] }

  /** The maximal non-empty runs of characters that are not separators, in order:
      a scan that carries the piece read so far in cur. */
  function PiecesFrom(s: string, isSep: char -> bool, cur: string): seq<string>
    decreases |s|
  {
    if s == [] then Flush(cur)
    else if isSep(s[0]) then Flush(cur) + PiecesFrom(s[1..], isSep, [])
    else PiecesFrom(s[1..], isSep, cur + [s[0]])
  }

  function Pieces(s: string, isSep: char -> bool): seq<string>
  {
    PiecesFrom(s, isSep, [])
  }

  predicate NoSep(w: string, isSep: char -> bool)
  {
    forall j :: 0 <= j < |w| ==> !isSep(w[j])
  }

  /** Every piece is non-empty and free of separators. */
  lemma {:induction false} PiecesWellFormed(s: string, isSep: char -> bool, cur: string)
    requires NoSep(cur, isSep)
    ensures forall i :: 0 <= i < |PiecesFrom(s, isSep, cur)| ==>
              PiecesFrom(s, isSep, cur)[i] != [] && NoSep(PiecesFrom(s, isSep, cur)[i], isSep)
  {
    if s != [] {
      if isSep(s[0]) {
        PiecesWellFormed(s[1..], isSep, []);
      } else {
        PiecesWellFormed(s[1..], isSep, cur + [s[0]]);
      }
    }
  }

  /** No character other than a separator is lost or reordered; keep is the
      complement of isSep. */
  lemma {:induction false} PiecesFlatten(s: string, isSep: char -> bool, keep: char -> bool, cur: string)
    requires forall c :: keep(c) == !isSep(c)
    ensures Flatten(PiecesFrom(s, isSep, cur)) == cur + Filter(s, keep)
  {
    if s == [] {
      assert cur + [] == cur;
    } else if isSep(s[0]) {
      PiecesFlatten(s[1..], isSep, keep, []);
      FlattenAppend(Flush(cur), PiecesFrom(s[1..], isSep, []));
      assert [] + Filter(s[1..], keep) == Filter(s[1..], keep);
      if cur != [] {
        assert [cur][1..] == [];
      }
    } else {
      PiecesFlatten(s[1..], isSep, keep, cur + [s[0]]);
      assert cur + [s[0]] + Filter(s[1..], keep) == cur + ([s[0]] + Filter(s[1..], keep));
    }
  }

  /** A separator-free stretch only extends the current piece. */
  lemma {:induction false} PiecesSkip(a: string, rest: string, isSep: char -> bool, cur: string)
    requires NoSep(a, isSep)
    ensures PiecesFrom(a + rest, isSep, cur) == PiecesFrom(rest, isSep, cur + a)
  {
    if a == [] {
      assert a + rest == rest;
      assert cur + a == cur;
    } else {
      assert (a + rest)[0] == a[0];
      assert (a + rest)[1..] == a[1..] + rest;
      assert cur + [a[0]] + a[1..] == cur + a;
      PiecesSkip(a[1..], rest, isSep, cur + [a[0]]);
    }
  }

  /** Separators before any piece produce nothing. */
  lemma {:induction false} PiecesLeadingSeps(a: string, rest: string, isSep: char -> bool)
    requires forall j :: 0 <= j < |a| ==> isSep(a[j])
    ensures PiecesFrom(a + rest, isSep, []) == PiecesFrom(rest, isSep, [])
  {
    if a != [] {
      assert (a + rest)[0] == a[0];
      assert (a + rest)[1..] == a[1..] + rest;
      PiecesLeadingSeps(a[1..], rest, isSep);
    } else {
      assert a + rest == rest;
    }
  }

  /** A suffix made of separators only has no pieces. */
  lemma PiecesNone(s: string, isSep: char -> bool, from: nat)
    requires from <= |s|
    requires forall k :: from <= k < |s| ==> isSep(s[k])
    ensures Pieces(s[from..], isSep) == []
  {
    PiecesLeadingSeps(s[from..], [], isSep);
    assert s[from..] + [] == s[from..];
  }

  /** The pieces of a suffix: the maximal run [start, end) found after the separators
      that start it, then the pieces of the rest. */
  lemma PiecesRun(s: string, isSep: char -> bool, from: nat, start: nat, end: nat)
    requires from <= start < end <= |s|
    requires forall k :: from <= k < start ==> isSep(s[k])
    requires forall k :: start <= k < end ==> !isSep(s[k])
    requires end < |s| ==> isSep(s[end])
    ensures Pieces(s[from..], isSep) == [s[start..end]] + Pieces(s[end..], isSep)
  {
    var seps, word, rest := s[from..start], s[start..end], s[end..];
    assert s[from..] == seps + (word + rest);
    PiecesLeadingSeps(seps, word + rest, isSep);
    PiecesSkip(word, rest, isSep, []);
    assert [] + word == word;
    if end < |s| {
      assert rest[0] == s[end];
    }
  }

  /** All pieces of s, separators delimiting, empty pieces included:
      |FieldsFrom(s, ...)| is one more than the number of separators. */
  function FieldsFrom(s: string, sep: char, cur: string): (r: seq<string>)
    ensures |r| > 0
    decreases |s|
  {
    if s == [] then [cur]
    else if s[0] == sep then [cur] + FieldsFrom(s[1..], sep, [])
    else FieldsFrom(s[1..], sep, cur + [s[0]])
  }

  function Fields(s: string, sep: char): seq<string>
  {
    FieldsFrom(s, sep, [])
  }

  /** The k-th field, or "" when there are not that many. */
  function FieldAt(s: string, sep: char, k: nat): string
  {
    var f := Fields(s, sep);
    if k < |f| then f[k] else []
  }

  function DropTrailingEmpty(ws: seq<string>): (r: seq<string>)
    ensures |r| <= |ws| && r == ws[..|r|]
    ensures r == [] || r[|r| - 1] != []
    ensures forall i :: |r| <= i < |ws| ==> ws[i] == []
  {
    if ws == [] then []
    else if ws[|ws| - 1] == [] then DropTrailingEmpty(ws[..|ws| - 1])
    else ws
  }

  /** String.split with a one-character pattern and no limit: the input itself when
      it is empty, otherwise all fields with the trailing empty ones removed. */
  function JavaSplit(s: string, sep: char): seq<string>
  {
    if s == [] then [[]] else DropTrailingEmpty(Fields(s, sep))
  }

  /** The strings joined with single spaces. */
  function JoinWords(ws: seq<string>): string
  {
    if ws == [] then []
    else if |ws| == 1 then ws[0]
    else JoinWords(ws[..|ws| - 1]) + " " + ws[|ws| - 1]
  }

  /** A separator closes the current field; the rest is split afresh. */
  lemma {:induction false} FieldsAppendSep(s: string, sep: char, cur: string, rest: string)
    ensures FieldsFrom(s + [sep] + rest, sep, cur) == FieldsFrom(s, sep, cur) + FieldsFrom(rest, sep, [])
    decreases |s|
  {
    if s == [] {
      assert s + [sep] + rest == [sep] + rest;
      assert ([sep] + rest)[1..] == rest;
    } else {
      assert (s + [sep] + rest)[0] == s[0];
      assert (s + [sep] + rest)[1..] == s[1..] + [sep] + rest;
      if s[0] == sep {
        FieldsAppendSep(s[1..], sep, [], rest);
      } else {
        FieldsAppendSep(s[1..], sep, cur + [s[0]], rest);
      }
    }
  }

  /** One more character: a separator opens a new empty field, any other character
      extends the last field. */
  lemma {:induction false} FieldsSnoc(s: string, sep: char, cur: string, c: char)
    ensures var f := FieldsFrom(s, sep, cur);
            FieldsFrom(s + [c], sep, cur)
            == if c == sep then f + [[]] else f[..|f| - 1] + [f[|f| - 1] + [c]]
    decreases |s|
  {
    if s == [] {
      assert s + [c] == [c];
      assert [c][1..] == [];
    } else {
      assert (s + [c])[0] == s[0];
      assert (s + [c])[1..] == s[1..] + [c];
      if s[0] == sep {
        FieldsSnoc(s[1..], sep, [], c);
      } else {
        FieldsSnoc(s[1..], sep, cur + [s[0]], c);
      }
    }
  }

  /** The field k of s + [c], as FieldAt tells it. */
  lemma FieldAtSnoc(s: string, sep: char, c: char, k: nat)
    ensures FieldAt(s + [c], sep, k)
            == if c != sep && k == |Fields(s, sep)| - 1 then FieldAt(s, sep, k) + [c] else FieldAt(s, sep, k)
    ensures |Fields(s + [c], sep)| == |Fields(s, sep)| + (if c == sep then 1 else 0)
  {
    FieldsSnoc(s, sep, [], c);
  }

  /** Text without a separator is one field. */
  lemma {:induction false} FieldsNoSep(s: string, sep: char, cur: string)
    requires forall i :: 0 <= i < |s| ==> s[i] != sep
    ensures FieldsFrom(s, sep, cur) == [cur + s]
    decreases |s|
  {
    if s == [] {
      assert cur + s == cur;
    } else {
      FieldsNoSep(s[1..], sep, cur + [s[0]]);
      assert cur + [s[0]] + s[1..] == cur + s;
    }
  }

  /** No field holds the separator. */
  lemma {:induction false} FieldsAvoidSep(s: string, sep: char, cur: string)
    requires forall i :: 0 <= i < |cur| ==> cur[i] != sep
    ensures forall k, i :: 0 <= k < |FieldsFrom(s, sep, cur)| && 0 <= i < |FieldsFrom(s, sep, cur)[k]|
              ==> FieldsFrom(s, sep, cur)[k][i] != sep
    decreases |s|
  {
    if s != [] {
      if s[0] == sep {
        FieldsAvoidSep(s[1..], sep, []);
      } else {
        FieldsAvoidSep(s[1..], sep, cur + [s[0]]);
      }
    }
  }

  /** Splitting the joined words gives the words back, when none holds a space. */
  lemma {:induction false} SplitJoin(ws: seq<string>)
    requires |ws| > 0
    requires forall k, i :: 0 <= k < |ws| && 0 <= i < |ws[k]| ==> ws[k][i] != ' '
    ensures Fields(JoinWords(ws), ' ') == ws
    decreases |ws|
  {
    var last := ws[|ws| - 1];
    if |ws| == 1 {
      FieldsNoSep(last, ' ', []);
      assert [] + last == last;
    } else {
      var init := ws[..|ws| - 1];
      SplitJoin(init);
      assert JoinWords(ws) == JoinWords(init) + [' '] + last;
      FieldsAppendSep(JoinWords(init), ' ', [], last);
      FieldsNoSep(last, ' ', []);
      assert [] + last == last;
      assert init + [last] == ws;
    }
  }

  /** Every string followed by one space: the text built by loops of the form
      `for (String w : ws) text += w + " ";`. */
  function Spaced(ws: seq<string>): string
  {
    if ws == [] then [] else Spaced(ws[..|ws| - 1]) + ws[|ws| - 1] + " "
  }

  /** The loop `for (String w : ws) text += w + " ";` itself. */
  method SpacedText(ws: seq<string>) returns (text: string)
    ensures text == Spaced(ws)
  {
    text := "";
    for i := 0 to |ws|
      invariant text == Spaced(ws[..i])
    {
      assert ws[..i + 1][..i] == ws[..i];
      text := text + ws[i] + " ";
    }
    assert ws[..|ws|] == ws;
  }

  lemma SpacedSnoc(ws: seq<string>, w: string)
    ensures Spaced(ws + [w]) == Spaced(ws) + w + " "
  {
    assert (ws + [w])[..|ws + [w]| - 1] == ws;
  }

  lemma {:induction false} SpacedAppend(a: seq<string>, b: seq<string>)
    ensures Spaced(a + b) == Spaced(a) + Spaced(b)
    decreases |b|
  {
    if b == [] {
      assert a + b == a;
    } else {
      var init, last := b[..|b| - 1], b[|b| - 1];
      assert b == init + [last];
      assert a + b == (a + init) + [last];
      SpacedAppend(a, init);
      SpacedSnoc(a + init, last);
      SpacedSnoc(init, last);
    }
  }

  /** Spacing adds only spaces: a filter that drops the space sees the concatenation. */
  lemma {:induction false} FilterSpaced(ws: seq<string>, keep: char -> bool)
    requires !keep(' ')
    ensures Filter(Spaced(ws), keep) == Filter(Flatten(ws), keep)
  {
    if ws != [] {
      var init, last := ws[..|ws| - 1], ws[|ws| - 1];
      assert ws == init + [last];
      FilterSpaced(init, keep);
      FilterAppend(Spaced(init) + last, " ", keep);
      assert " "[1..] == [];
      assert Filter(" ", keep) == [];
      FilterAppend(Spaced(init), last, keep);
      FlattenAppend(init, [last]);
      assert [last][1..] == [];
      assert Flatten([last]) == last;
      FilterAppend(Flatten(init), last, keep);
    }
  }

  /** Filtering twice with a stronger predicate second is filtering once with it. */
  lemma {:induction false} FilterFilter(s: string, p: char -> bool, q: char -> bool)
    requires forall c :: q(c) ==> p(c)
    ensures Filter(Filter(s, p), q) == Filter(s, q)
  {
    if s != [] {
      FilterFilter(s[1..], p, q);
      if p(s[0]) {
        assert ([s[0]] + Filter(s[1..], p))[1..] == Filter(s[1..], p);
      }
    }
  }

  // ---------------------------------------------------------------------
  // Decimal rendering of integers, as Java's string concatenation does it

  function DigitChar(d: nat): char
    requires d < 10
  {
    "0123456789"[d]
  }

  function NatToString(n: nat): (r: string)
    ensures |r| > 0
    ensures forall i :: 0 <= i < |r| ==> IsAsciiDigit(r[i])
    ensures r[0] == '0' ==> n == 0
    decreases n
  {
    if n < 10 then [DigitChar(n)] else NatToString(n / 10) + [DigitChar(n % 10)]
  }

  /** The number a string of decimal digits denotes, read most significant digit first. */
  function DecimalValue(s: string): nat
    requires forall i :: 0 <= i < |s| ==> IsAsciiDigit(s[i])
    decreases |s|
  {
    if s == [] then 0
    else
      assert IsAsciiDigit(s[|s| - 1]);
      10 * DecimalValue(s[..|s| - 1]) + (s[|s| - 1] as int - '0' as int)
  }

  /** The rendering denotes the number it renders. */
  lemma {:induction false} NatToStringValue(n: nat)
    ensures DecimalValue(NatToString(n)) == n
    decreases n
  {
    var r := NatToString(n);
    if n < 10 {
      assert r[..0] == [];
    } else {
      var s := NatToString(n / 10);
      NatToStringValue(n / 10);
      assert r[..|r| - 1] == s;
      assert r[|r| - 1] as int - '0' as int == n % 10;
    }
  }

  /** Distinct numbers get distinct renderings. */
  lemma NatToStringInjective(m: nat, n: nat)
    ensures NatToString(m) == NatToString(n) ==> m == n
  {
    NatToStringValue(m);
    NatToStringValue(n);
  }

  /** Concatenation is associative. */
  lemma AppendAssoc<T>(a: seq<T>, b: seq<T>, c: seq<T>)
    ensures a + (b + c) == (a + b) + c
  {
  }

  /** No string occurs twice. */
  predicate Distinct(ws: seq<string>)
  {
    forall j, k :: 0 <= j < k < |ws| ==> ws[j] != ws[k]
  }

  /** Nothing is kept exactly when no character passes the filter. */
  lemma {:induction false} FilterNone(s: string, keep: char -> bool)
    ensures Filter(s, keep) == [] <==> forall k :: 0 <= k < |s| ==> !keep(s[k])
    decreases |s|
  {
    if s != [] {
      FilterNone(s[1..], keep);
      assert forall k :: 1 <= k < |s| ==> s[k] == s[1..][k - 1];
    }
  }

  /** Non-empty strings concatenate to the empty string only when there are none. */
  lemma FlattenNone(ws: seq<string>)
    requires forall i :: 0 <= i < |ws| ==> ws[i] != []
    ensures Flatten(ws) == [] <==> ws == []
  {
    if ws != [] {
      assert |Flatten(ws)| >= |ws[0]|;
    }
  }

  /** Every word is followed by a space, so the text is empty only without words. */
  lemma SpacedNone(ws: seq<string>)
    ensures Spaced(ws) == [] <==> ws == []
  {
  }

  /** An element of a concatenation comes from one of its two parts. */
  lemma ConcatAt<T>(a: seq<T>, b: seq<T>, whole: seq<T>, k: nat)
    requires whole == a + b && k < |whole|
    ensures whole[k] == if k < |a| then a[k] else b[k - |a|]
  {
  }

  /** A slice is its first character followed by the rest of it. */
  lemma SliceCons(t: string, a: nat, b: nat, rest: string)
    requires a < b <= |t|
    ensures [t[a]] + (t[a + 1..b] + rest) == t[a..b] + rest
  {
    assert [t[a]] + t[a + 1..b] == t[a..b];
  }
}
