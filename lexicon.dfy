/** LexiconMapping: the line formats of the sentiment lexicons and the maps and lists
    built from them. A file is given as the sequence of its lines, and
    Double.parseDouble as a parser that yields None where it throws. Such an exception
    is not an IOException, so it escapes the loader: the whole table is then None. */
module Lexicon {
  import opened Text

  /** The positivity and negativity scores of a word or emoji: elements 0 and 1 of
      the Vector<Double> the maps hold. */
  datatype Scores = Scores(positive: real, negative: real)

  /** An ArSenL entry: its scores and, as element 2, its confidence. */
  datatype ArSenLEntry = ArSenLEntry(scores: Scores, confidence: real)

  /** What one line of a lexicon file yields: nothing, an entry, or an exception. */
  datatype Line<T> = Skipped | Entry(key: string, value: T) | Unparsable

  /** A line that the loaders of ArSenL, AraSenTi, DAHL and the negation list pass
      over: an empty one or one starting with '/'. */
  predicate Ignored(line: string)
  {
    |line| == 0 || line[0] == '/'
  }

  predicate NotSpace(c: char) { c != ' ' }

  predicate HasKey<T>(ls: seq<Line<T>>, i: nat, k: string)
  {
    i < |ls| && ls[i].Entry? && ls[i].key == k
  }

  // ---------------------------------------------------------------------
  // The line formats

  /** An ArSenL line: word;positive;negative;confidence, split on ';'. Text after a
      fourth ';' is dropped. */
  function ArSenLLine(line: string, parse: string -> Option<real>): Line<ArSenLEntry>
  {
    if Ignored(line) then Skipped
    else
      var pos, neg, con := parse(FieldAt(line, ';', 1)), parse(FieldAt(line, ';', 2)), parse(FieldAt(line, ';', 3));
      if pos.None? || neg.None? || con.None? then Unparsable
      else Entry(FieldAt(line, ';', 0), ArSenLEntry(Scores(pos.value, neg.value), con.value))
  }

  /** An AraSenTi line: the word is the text before the first space and the score
      text is every other character that is not a space. */
  function AraSenTiLine(line: string, parse: string -> Option<real>): Line<real>
  {
    if Ignored(line) then Skipped
    else
      var f := FirstIndex(line, ' ');
      match parse(Filter(line[f..], NotSpace))
      case None => Unparsable
      case Some(score) => Entry(line[..f], score)
  }

  /** A DAHL line: tab-separated columns, the word in column 0 and the score in
      column 2. */
  function DahlLine(line: string, parse: string -> Option<real>): Line<real>
  {
    if Ignored(line) then Skipped
    else
      match parse(FieldAt(line, '\t', 2))
      case None => Unparsable
      case Some(score) => Entry(FieldAt(line, '\t', 0), score)
  }

  /** An emoji line: `line.split(",")`, mapping column 0 to the scores
      [column 2, column 1]. A line with fewer than three columns throws. */
  function EmojiLine(line: string, parse: string -> Option<real>): Line<Scores>
  {
    var s := JavaSplit(line, ',');
    if |s| < 3 then Unparsable
    else
      var pos, neg := parse(s[2]), parse(s[1]);
      if pos.None? || neg.None? then Unparsable
      else Entry(s[0], Scores(pos.value, neg.value))
  }

  function ArSenLLines(lines: seq<string>, parse: string -> Option<real>): seq<Line<ArSenLEntry>>
  {
    seq(|lines|, i requires 0 <= i < |lines| => ArSenLLine(lines[i], parse))
  }

  function AraSenTiLines(lines: seq<string>, parse: string -> Option<real>): seq<Line<real>>
  {
    seq(|lines|, i requires 0 <= i < |lines| => AraSenTiLine(lines[i], parse))
  }

  function DahlLines(lines: seq<string>, parse: string -> Option<real>): seq<Line<real>>
  {
    seq(|lines|, i requires 0 <= i < |lines| => DahlLine(lines[i], parse))
  }

  /** The emoji file's lines after its header line. */
  function EmojiLines(lines: seq<string>, parse: string -> Option<real>): seq<Line<Scores>>
  {
    if lines == [] then []
    else seq(|lines| - 1, i requires 0 <= i < |lines| - 1 => EmojiLine(lines[i + 1], parse))
  }

  // ---------------------------------------------------------------------
  // Building the maps

  /** map.put for every entry: a later line overwrites an earlier one. */
  function PutAll<T>(ls: seq<Line<T>>): Option<map<string, T>>
    decreases |ls|
  {
    if ls == [] then Some(map[])
    else match PutAll(ls[..|ls| - 1])
      case None => None
      case Some(m) =>
        match ls[|ls| - 1]
        case Skipped => Some(m)
        case Unparsable => None
        case Entry(k, v) => Some(m[k := v])
  }

  /** The ArSenL rule: an entry is put when its word is new or its confidence is
      strictly higher than the stored one. */
  function PutMostConfident(ls: seq<Line<ArSenLEntry>>): Option<map<string, ArSenLEntry>>
    decreases |ls|
  {
    if ls == [] then Some(map[])
    else match PutMostConfident(ls[..|ls| - 1])
      case None => None
      case Some(m) =>
        match ls[|ls| - 1]
        case Skipped => Some(m)
        case Unparsable => None
        case Entry(k, v) => Some(if (k in m && m[k].confidence < v.confidence) || k !in m then m[k := v] else m)
  }

  // ---------------------------------------------------------------------
  // The per-character loops

  /** The four ';' fields of an ArSenL line, as the loop over `counter` collects them. */
  method ArSenLFields(line: string) returns (word: string, pos: string, neg: string, con: string)
    ensures word == FieldAt(line, ';', 0) && pos == FieldAt(line, ';', 1)
    ensures neg == FieldAt(line, ';', 2) && con == FieldAt(line, ';', 3)
  {
    var counter := 0;
    word, pos, neg, con := [], [], [], [];
    var i := 0;
    while i < |line|
      invariant 0 <= i <= |line|
      invariant counter == |Fields(line[..i], ';')| - 1
      invariant word == FieldAt(line[..i], ';', 0) && pos == FieldAt(line[..i], ';', 1)
      invariant neg == FieldAt(line[..i], ';', 2) && con == FieldAt(line[..i], ';', 3)
    {
      var curr := line[i];
      assert line[..i + 1] == line[..i] + [curr];
      FieldAtSnoc(line[..i], ';', curr, 0);
      FieldAtSnoc(line[..i], ';', curr, 1);
      FieldAtSnoc(line[..i], ';', curr, 2);
      FieldAtSnoc(line[..i], ';', curr, 3);
      if curr != ';' {
        if counter == 0 {
          word := word + [curr];
        } else if counter == 1 {
          pos := pos + [curr];
        } else if counter == 2 {
          neg := neg + [curr];
        } else if counter == 3 {
          con := con + [curr];
        }
      } else {
        counter := counter + 1;
      }
      i := i + 1;
    }
    assert line[..i] == line;
  }

  /** The word and the score text of an AraSenTi line, as the loop over `counter`
      collects them. */
  method AraSenTiFields(line: string) returns (word: string, score: string)
    ensures word == line[..FirstIndex(line, ' ')]
    ensures score == Filter(line[FirstIndex(line, ' ')..], NotSpace)
  {
    var f := FirstIndex(line, ' ');
    var counter := 0;
    word, score := [], [];
    var i := 0;
    while i < |line|
      invariant 0 <= i <= |line|
      invariant (counter == 0) == (i <= f)
      invariant word == line[..if i <= f then i else f]
      invariant score == if i <= f then [] else Filter(line[f..i], NotSpace)
    {
      var curr := line[i];
      if curr != ' ' {
        if counter == 0 {
          word := word + [curr];
        } else {
          score := score + [curr];
        }
      } else {
        counter := counter + 1;
      }
      if f <= i {
        ScoreStep(line, f, i);
      }
      i := i + 1;
    }
    assert line[f..i] == line[f..];
  }

  /** One character more of the score text: the space at f adds nothing, a later
      character is kept unless it is a space. */
  lemma ScoreStep(line: string, f: nat, i: nat)
    requires f <= i < |line| && (i == f ==> line[i] == ' ')
    ensures Filter(line[f..i + 1], NotSpace)
            == (if i == f then [] else Filter(line[f..i], NotSpace) + (if line[i] != ' ' then [line[i]] else []))
  {
    var curr := line[i];
    if i == f {
      assert line[f..i + 1] == [curr];
      assert Filter([curr], NotSpace) == [];
    } else {
      assert line[f..i + 1] == line[f..i] + [curr];
      FilterAppend(line[f..i], [curr], NotSpace);
      assert [curr][1..] == [];
    }
  }

  /** Columns 0 and 2 of a DAHL line, as the loop over `pos` collects them. */
  method DahlFields(line: string) returns (word: string, score: string)
    ensures word == FieldAt(line, '\t', 0) && score == FieldAt(line, '\t', 2)
  {
    var pos := 0;
    word, score := [], [];
    var i := 0;
    while i < |line|
      invariant 0 <= i <= |line|
      invariant pos == |Fields(line[..i], '\t')| - 1
      invariant word == FieldAt(line[..i], '\t', 0) && score == FieldAt(line[..i], '\t', 2)
    {
      var curr := line[i];
      assert line[..i + 1] == line[..i] + [curr];
      FieldAtSnoc(line[..i], '\t', curr, 0);
      FieldAtSnoc(line[..i], '\t', curr, 2);
      if curr != '\t' {
        if pos == 0 {
          word := word + [curr];
        } else if pos == 2 {
          score := score + [curr];
        }
      } else {
        pos := pos + 1;
      }
      i := i + 1;
    }
    assert line[..i] == line;
  }

  /** A negation-list line with its spaces removed. */
  method RemoveSpaces(line: string) returns (word: string)
    ensures word == Filter(line, NotSpace)
  {
    word := [];
    var i := 0;
    while i < |line|
      invariant 0 <= i <= |line|
      invariant word == Filter(line[..i], NotSpace)
    {
      var curr := line[i];
      assert line[..i + 1] == line[..i] + [curr];
      FilterAppend(line[..i], [curr], NotSpace);
      assert [curr][1..] == [];
      if curr != ' ' {
        word := word + [curr];
      }
      i := i + 1;
    }
    assert line[..i] == line;
  }

  // ---------------------------------------------------------------------
  // The loaders

  /** arSenLMapping over the lines of the file. */
  method ArSenLMapping(lines: seq<string>, parse: string -> Option<real>) returns (table: Option<map<string, ArSenLEntry>>)
    ensures table == PutMostConfident(ArSenLLines(lines, parse))
  {
    ghost var ls := ArSenLLines(lines, parse);
    var m: map<string, ArSenLEntry> := map[];
    var i := 0;
    while i < |lines|
      invariant 0 <= i <= |lines|
      invariant PutMostConfident(ls[..i]) == Some(m)
    {
      var line := lines[i];
      assert ls[..i + 1][..i] == ls[..i];
      if |line| > 0 {
        if line[0] != '/' {
          var word, pos, neg, con := ArSenLFields(line);
          var p, n, c := parse(pos), parse(neg), parse(con);
          if p.None? || n.None? || c.None? {
            FailureStays(ls, i + 1);
            return None;
          }
          var v := ArSenLEntry(Scores(p.value, n.value), c.value);
          var contains := word in m;
          if (contains && m[word].confidence < v.confidence) || !contains {
            m := m[word := v];
          }
        }
      }
      i := i + 1;
    }
    assert ls[..i] == ls;
    table := Some(m);
  }

  /** araSenTiMapping over the lines of the file. */
  method AraSenTiMapping(lines: seq<string>, parse: string -> Option<real>) returns (table: Option<map<string, real>>)
    ensures table == PutAll(AraSenTiLines(lines, parse))
  {
    ghost var ls := AraSenTiLines(lines, parse);
    var m: map<string, real> := map[];
    var i := 0;
    while i < |lines|
      invariant 0 <= i <= |lines|
      invariant PutAll(ls[..i]) == Some(m)
    {
      var line := lines[i];
      assert ls[..i + 1][..i] == ls[..i];
      if |line| > 0 && line[0] != '/' {
        var word, score := AraSenTiFields(line);
        var s := parse(score);
        if s.None? {
          PutAllFailureStays(ls, i + 1);
          return None;
        }
        m := m[word := s.value];
      }
      i := i + 1;
    }
    assert ls[..i] == ls;
    table := Some(m);
  }

  /** dahlMapping over the lines of the file. */
  method DahlMapping(lines: seq<string>, parse: string -> Option<real>) returns (table: Option<map<string, real>>)
    ensures table == PutAll(DahlLines(lines, parse))
  {
    ghost var ls := DahlLines(lines, parse);
    var m: map<string, real> := map[];
    var i := 0;
    while i < |lines|
      invariant 0 <= i <= |lines|
      invariant PutAll(ls[..i]) == Some(m)
    {
      var line := lines[i];
      assert ls[..i + 1][..i] == ls[..i];
      if |line| > 0 && line[0] != '/' {
        var word, score := DahlFields(line);
        var s := parse(score);
        if s.None? {
          PutAllFailureStays(ls, i + 1);
          return None;
        }
        m := m[word := s.value];
      }
      i := i + 1;
    }
    assert ls[..i] == ls;
    table := Some(m);
  }

  /** emojiMapping: the header line is read and dropped, then every line is an entry. */
  method EmojiMapping(lines: seq<string>, parse: string -> Option<real>) returns (table: Option<map<string, Scores>>)
    ensures table == PutAll(EmojiLines(lines, parse))
  {
    ghost var ls := EmojiLines(lines, parse);
    var m: map<string, Scores> := map[];
    if lines == [] {
      return Some(m);
    }
    var i := 1;
    while i < |lines|
      invariant 1 <= i <= |lines|
      invariant PutAll(ls[..i - 1]) == Some(m)
    {
      var s := JavaSplit(lines[i], ',');
      assert ls[..i][..i - 1] == ls[..i - 1];
      if |s| < 3 {
        PutAllFailureStays(ls, i);
        return None;
      }
      var pos, neg := parse(s[2]), parse(s[1]);
      if pos.None? || neg.None? {
        PutAllFailureStays(ls, i);
        return None;
      }
      m := m[s[0] := Scores(pos.value, neg.value)];
      i := i + 1;
    }
    assert ls[..i - 1] == ls;
    table := Some(m);
  }

  /** The terms the negation list yields: every line after the first that is not
      ignored, with its spaces removed, in file order. */
  function NegationTerms(lines: seq<string>): (r: seq<string>)
    ensures |r| <= |lines|
    ensures forall k, j :: 0 <= k < |r| && 0 <= j < |r[k]| ==> r[k][j] != ' '
    decreases |lines|
  {
    if |lines| <= 1 then []
    else
      var last := lines[|lines| - 1];
      NegationTerms(lines[..|lines| - 1]) + (if Ignored(last) then [] else [Filter(last, NotSpace)])
  }

  /** negation over the lines of the file. */
  method NegationList(lines: seq<string>) returns (neg: seq<string>)
    ensures neg == NegationTerms(lines)
  {
    neg := [];
    if lines == [] {
      return;
    }
    var i := 1;
    while i < |lines|
      invariant 1 <= i <= |lines|
      invariant neg == NegationTerms(lines[..i])
    {
      var line := lines[i];
      assert lines[..i + 1][..i] == lines[..i];
      if |line| > 0 && line[0] != '/' {
        var word := RemoveSpaces(line);
        neg := neg + [word];
      }
      i := i + 1;
    }
    assert lines[..i] == lines;
  }

  // ---------------------------------------------------------------------
  // Properties

  /** A line that throws leaves the table undefined, whatever follows it. */
  lemma {:induction false} FailureStays(ls: seq<Line<ArSenLEntry>>, j: nat)
    requires j <= |ls| && PutMostConfident(ls[..j]) == None
    ensures PutMostConfident(ls) == None
    decreases |ls| - j
  {
    if j < |ls| {
      assert ls[..j + 1][..j] == ls[..j];
      FailureStays(ls, j + 1);
    } else {
      assert ls[..j] == ls;
    }
  }

  lemma {:induction false} PutAllFailureStays<T>(ls: seq<Line<T>>, j: nat)
    requires j <= |ls| && PutAll(ls[..j]) == None
    ensures PutAll(ls) == None
    decreases |ls| - j
  {
    if j < |ls| {
      assert ls[..j + 1][..j] == ls[..j];
      PutAllFailureStays(ls, j + 1);
    } else {
      assert ls[..j] == ls;
    }
  }

  /** A table is undefined exactly when one of its lines throws. */
  lemma {:induction false} PutAllFails<T>(ls: seq<Line<T>>)
    ensures PutAll(ls) == None <==> exists i :: 0 <= i < |ls| && ls[i].Unparsable?
    decreases |ls|
  {
    if ls != [] {
      var init := ls[..|ls| - 1];
      PutAllFails(init);
      assert forall i :: 0 <= i < |init| ==> init[i] == ls[i];
    }
  }

  lemma {:induction false} PutMostConfidentFails(ls: seq<Line<ArSenLEntry>>)
    ensures PutMostConfident(ls) == None <==> exists i :: 0 <= i < |ls| && ls[i].Unparsable?
    decreases |ls|
  {
    if ls != [] {
      var init := ls[..|ls| - 1];
      PutMostConfidentFails(init);
      assert forall i :: 0 <= i < |init| ==> init[i] == ls[i];
    }
  }

  /** The entry j is the last one with key k. */
  predicate LastWith<T>(ls: seq<Line<T>>, k: string, j: nat)
  {
    HasKey(ls, j, k) && forall i :: j < i < |ls| ==> !HasKey(ls, i, k)
  }

  /** With map.put, the words of the map are those of the entries. */
  lemma {:induction false} PutAllKeys<T>(ls: seq<Line<T>>, m: map<string, T>)
    requires PutAll(ls) == Some(m)
    ensures forall k :: k in m <==> exists i: nat :: HasKey(ls, i, k)
    decreases |ls|
  {
    if ls != [] {
      var n := |ls| - 1;
      var init := ls[..n];
      assert PutAll(init).Some?;
      var m0 := PutAll(init).value;
      PutAllKeys(init, m0);
      assert forall i: nat :: i < n ==> ls[i] == init[i];
      forall k
        ensures k in m <==> exists i: nat :: HasKey(ls, i, k)
      {
        if !HasKey(ls, n, k) {
          assert k in m <==> k in m0;
          if k in m0 {
            var i: nat :| HasKey(init, i, k);
            assert HasKey(ls, i, k);
          }
          if exists i: nat :: HasKey(ls, i, k) {
            var i: nat :| HasKey(ls, i, k);
            assert HasKey(init, i, k);
          }
        }
      }
    }
  }

  /** With map.put, each word maps to the value of its last line. */
  lemma {:induction false} LastLineWins<T>(ls: seq<Line<T>>, m: map<string, T>, k: string)
    requires PutAll(ls) == Some(m) && k in m
    ensures exists j: nat :: LastWith(ls, k, j) && ls[j].value == m[k]
    decreases |ls|
  {
    var n := |ls| - 1;
    var init := ls[..n];
    assert PutAll(init).Some?;
    var m0 := PutAll(init).value;
    assert forall i: nat :: i < n ==> ls[i] == init[i];
    if HasKey(ls, n, k) {
      assert LastWith(ls, k, n);
    } else {
      assert k in m0 && m[k] == m0[k];
      LastLineWins(init, m0, k);
      var j: nat :| LastWith(init, k, j) && init[j].value == m0[k];
      assert forall i: nat :: i < n ==> (HasKey(ls, i, k) <==> HasKey(init, i, k));
      assert LastWith(ls, k, j);
    }
  }

  /** The entry j has the highest confidence among the lines with key k, and the
      lines before it with that key have strictly lower ones. */
  predicate EarliestMostConfident(ls: seq<Line<ArSenLEntry>>, k: string, j: nat)
  {
    && HasKey(ls, j, k)
    && (forall i :: 0 <= i < j && HasKey(ls, i, k) ==> ls[i].value.confidence < ls[j].value.confidence)
    && (forall i :: j < i < |ls| && HasKey(ls, i, k) ==> ls[i].value.confidence <= ls[j].value.confidence)
  }

  /** With the ArSenL rule, the words of the map are those of the entries. */
  lemma {:induction false} MostConfidentKeys(ls: seq<Line<ArSenLEntry>>, m: map<string, ArSenLEntry>)
    requires PutMostConfident(ls) == Some(m)
    ensures forall k :: k in m <==> exists i: nat :: HasKey(ls, i, k)
    decreases |ls|
  {
    if ls != [] {
      var n := |ls| - 1;
      var init := ls[..n];
      assert PutMostConfident(init).Some?;
      var m0 := PutMostConfident(init).value;
      MostConfidentKeys(init, m0);
      assert forall i: nat :: i < n ==> ls[i] == init[i];
      forall k
        ensures k in m <==> exists i: nat :: HasKey(ls, i, k)
      {
        if !HasKey(ls, n, k) {
          assert k in m <==> k in m0;
          if k in m0 {
            var i: nat :| HasKey(init, i, k);
            assert HasKey(ls, i, k);
          }
          if exists i: nat :: HasKey(ls, i, k) {
            var i: nat :| HasKey(ls, i, k);
            assert HasKey(init, i, k);
          }
        }
      }
    }
  }

  /** ArSenL keeps, for each word, its most confident line, the earliest one on a tie. */
  lemma {:induction false} MostConfidentLineWins(ls: seq<Line<ArSenLEntry>>, m: map<string, ArSenLEntry>, k: string)
    requires PutMostConfident(ls) == Some(m) && k in m
    ensures exists j: nat :: EarliestMostConfident(ls, k, j) && ls[j].value == m[k]
    decreases |ls|
  {
    var n := |ls| - 1;
    var init := ls[..n];
    assert PutMostConfident(init).Some?;
    var m0 := PutMostConfident(init).value;
    if HasKey(ls, n, k) && (k !in m0 || m0[k].confidence < ls[n].value.confidence) {
      assert m[k] == ls[n].value;
      var j0: nat := 0;
      if k in m0 {
        MostConfidentLineWins(init, m0, k);
        j0 :| EarliestMostConfident(init, k, j0) && init[j0].value == m0[k];
      }
      NewLineWins(ls, m0, k, j0);
    } else {
      assert k in m0 && m[k] == m0[k];
      MostConfidentLineWins(init, m0, k);
      var j: nat :| EarliestMostConfident(init, k, j) && init[j].value == m0[k];
      OldLineKept(ls, m0, k, j);
    }
  }

  /** The last line replaces the entry of its word: it is then the most confident. */
  lemma NewLineWins(ls: seq<Line<ArSenLEntry>>, m0: map<string, ArSenLEntry>, k: string, j0: nat)
    requires |ls| > 0 && PutMostConfident(ls[..|ls| - 1]) == Some(m0)
    requires HasKey(ls, |ls| - 1, k)
    requires k !in m0 || m0[k].confidence < ls[|ls| - 1].value.confidence
    requires k in m0 ==> EarliestMostConfident(ls[..|ls| - 1], k, j0) && ls[..|ls| - 1][j0].value == m0[k]
    ensures EarliestMostConfident(ls, k, |ls| - 1)
  {
    var n := |ls| - 1;
    var init := ls[..n];
    assert forall i: nat :: i < n ==> ls[i] == init[i];
    if k in m0 {
      assert forall i: nat :: HasKey(init, i, k) ==> init[i].value.confidence <= m0[k].confidence;
    } else {
      MostConfidentKeys(init, m0);
    }
    assert forall i: nat :: i < n && HasKey(ls, i, k) ==> HasKey(init, i, k);
  }

  /** A last line that does not replace the entry leaves the earliest most confident
      line where it was. */
  lemma OldLineKept(ls: seq<Line<ArSenLEntry>>, m0: map<string, ArSenLEntry>, k: string, j: nat)
    requires |ls| > 0 && k in m0
    requires !(HasKey(ls, |ls| - 1, k) && m0[k].confidence < ls[|ls| - 1].value.confidence)
    requires EarliestMostConfident(ls[..|ls| - 1], k, j) && ls[..|ls| - 1][j].value == m0[k]
    ensures EarliestMostConfident(ls, k, j) && ls[j].value == m0[k]
  {
    var n := |ls| - 1;
    assert forall i: nat :: i < n ==> ls[i] == ls[..n][i];
  }

  /** An ArSenL line with fewer than three ';' has an empty confidence field, which
      a parser that rejects "" cannot read. */
  lemma ShortArSenLLineFails(line: string, parse: string -> Option<real>)
    requires parse([]).None?
    requires !Ignored(line) && |Fields(line, ';')| < 4
    ensures ArSenLLine(line, parse) == Unparsable
  {
  }

  /** Text after a fourth ';' does not change the entry. */
  lemma ArSenLIgnoresExtraFields(line: string, rest: string, parse: string -> Option<real>)
    requires |Fields(line, ';')| == 4
    ensures ArSenLLine(line + [';'] + rest, parse) == ArSenLLine(line, parse)
  {
    FieldsAppendSep(line, ';', [], rest);
    assert |line| > 0;
    assert (line + [';'] + rest)[0] == line[0];
  }
}
