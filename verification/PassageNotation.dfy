/**
 Where evidence is cut, in characters: the ends of sentences, lines and paragraphs, the lengths that
 decide between them, and the rows of tables.
 */
module PassageNotation {
  import opened Basics
  import opened MathSpans
  import opened PassageCuts
  import opened Passages
  import opened TablePassages
  import N = MarkdownNotation

  /* ---- the places for a cut ---- */

  predicate Gap(c: char)
  {
    c == ' ' || c == '\t' || c == '\r' || c == '\n'
  }

  /** A sentence, its stop, and the blanks after it up to `p`. */
  ghost predicate SentenceEnds(text: string, p: nat, stop: nat)
  {
    && stop + 1 < p <= |text| && (text[stop] == '.' || text[stop] == '!' || text[stop] == '?' || text[stop] == ';')
    && (forall k | stop < k < p :: Gap(text[k])) && (p < |text| ==> !Gap(text[p]))
  }

  lemma {:induction false} GapsBack(text: string, first: nat, p: nat)
    requires first <= p <= |text| && (forall k | first <= k < p :: Gap(text[k])) && (first > 0 ==> !Gap(text[first - 1]))
    ensures GapStart(text, p) == first
    decreases p
  {
    if first < p {
      GapsBack(text, first, p - 1);
    }
  }

  lemma {:induction false} GapsAre(text: string, p: nat)
    requires p <= |text|
    ensures forall k | GapStart(text, p) <= k < p :: Gap(text[k])
    decreases p
  {
    if p > 0 && Gap(text[p - 1]) {
      GapsAre(text, p - 1);
    }
  }

  /** The three kinds of places for a cut. */
  lemma EndsAreRead(text: string, p: nat)
    ensures EndsAt(text, Sentence, p) <==> exists stop: nat :: SentenceEnds(text, p, stop)
    ensures EndsAt(text, Line, p) <==> 0 < p <= |text| && text[p - 1] == '\n'
    ensures EndsAt(text, White, p) <==> 0 < p <= |text| && IsSpace(text[p - 1]) && (p < |text| ==> !IsSpace(text[p]))
  {
    if EndsAt(text, Sentence, p) {
      GapsAre(text, p);
      assert SentenceEnds(text, p, GapStart(text, p) - 1);
    }
    forall stop: nat | SentenceEnds(text, p, stop) ensures EndsAt(text, Sentence, p) {
      GapsBack(text, stop + 1, p);
    }
  }

  /** How far a place is from the 1200th character. */
  function Away(start: nat, p: nat): nat
  {
    if p < start + 1200 then start + 1200 - p else p - start - 1200
  }

  /** A cut is sought from 600 to 2400 characters on, nearest to 1200, and of two the first. */
  lemma LengthsAre(start: nat, p: nat, q: nat)
    ensures InWindow(start, p) <==> start + 600 <= p <= start + 2400
    ensures Nearer(p, q, start + TARGET) <==> Away(start, p) < Away(start, q) || (Away(start, p) == Away(start, q) && p <= q)
  {
  }

  /** A paragraph of 2400 characters is one unit, and units are packed up to 1200. */
  lemma ShortIsWhole(text: string, a: string, b: string)
    ensures |text| <= 2400 ==> Units(text) == [text]
    ensures a != "" && b != "" ==> Pack([a, b], "") == if |a| + |b| > 1200 then [a, b] else [a + b]
  {
    hide UnitsFrom, PlacesOf;
    if a != "" && b != "" {
      assert [a, b][1..] == [b] && [b][1..] == [];
      assert "" + a == a;
      assert Pack([b], a) == if |a| + |b| > 1200 then [a] + Pack([], b) else Pack([], a + b);
    }
  }

  /* ---- paragraphs ---- */

  /** A line end from `i` to `j`. */
  ghost predicate Newline(text: string, i: nat, j: nat)
  {
    && j <= |text|
    && ((j == i + 1 && text[i] == '\n') || (j == i + 2 && text[i] == '\r' && text[i + 1] == '\n'))
  }

  /** Line ends one after another. */
  ghost predicate Newlines(text: string, i: nat, j: nat)
    decreases j - i
  {
    i == j || exists k | i < k <= j :: Newline(text, i, k) && Newlines(text, k, j)
  }

  /** The end of a line, blanks, and then line ends, as many as there are. */
  ghost predicate BreakAt(text: string, i: nat, first: nat, gap: nat, end: nat)
  {
    && Newline(text, i, first) && first <= gap < end <= |text|
    && (forall k | first <= k < gap :: text[k] == ' ' || text[k] == '\t')
    && Newlines(text, gap, end) && forall j :: !Newline(text, end, j)
  }

  lemma NewlineIsOne(text: string, i: nat, j: nat)
    requires i <= |text|
    ensures Newline(text, i, j) <==> j == AfterNewline(text, i) && j > i
  {
  }

  lemma {:induction false} NewlinesReach(text: string, i: nat, j: nat)
    requires i <= j <= |text| && Newlines(text, i, j) && forall k :: !Newline(text, j, k)
    ensures AfterNewlines(text, i) == j
    decreases j - i
  {
    hide Newline, AfterNewline;
    NewlineIsOne(text, i, AfterNewline(text, i));
    if i < j {
      var k :| i < k <= j && Newline(text, i, k) && Newlines(text, k, j);
      NewlineIsOne(text, i, k);
      NewlinesReach(text, k, j);
    }
  }

  lemma {:induction false} NewlinesAre(text: string, i: nat)
    requires i <= |text|
    ensures Newlines(text, i, AfterNewlines(text, i)) && forall j :: !Newline(text, AfterNewlines(text, i), j)
    decreases |text| - i
  {
    hide Newline, AfterNewline;
    var next := AfterNewline(text, i);
    NewlineIsOne(text, i, next);
    if next == i {
      forall j: nat ensures !Newline(text, i, j) {
        NewlineIsOne(text, i, j);
      }
    } else {
      NewlinesAre(text, next);
    }
  }

  lemma {:induction false} GapReaches(text: string, i: nat, last: nat)
    requires i <= last <= |text| && (forall k | i <= k < last :: text[k] == ' ' || text[k] == '\t')
    requires last < |text| ==> text[last] != ' ' && text[last] != '\t'
    ensures AfterGap(text, i) == last
    decreases last - i
  {
    if i < last {
      GapReaches(text, i + 1, last);
    }
  }

  lemma {:induction false} GapIsBlank(text: string, i: nat)
    requires i <= |text|
    ensures forall k | i <= k < AfterGap(text, i) :: text[k] == ' ' || text[k] == '\t'
    decreases |text| - i
  {
    if i < |text| && (text[i] == ' ' || text[i] == '\t') {
      GapIsBlank(text, i + 1);
    }
  }

  lemma NewlineStarts(text: string, i: nat, j: nat)
    requires i < j && Newlines(text, i, j)
    ensures i < |text| && text[i] != ' ' && text[i] != '\t'
  {
    var k :| i < k <= j && Newline(text, i, k) && Newlines(text, k, j);
  }

  lemma BreakIsRead(text: string, i: nat, first: nat, gap: nat, end: nat)
    requires i <= |text| && BreakAt(text, i, first, gap, end)
    ensures BreakEnd(text, i) == Some(end)
  {
    NewlineIsOne(text, i, first);
    NewlineStarts(text, gap, end);
    GapReaches(text, first, gap);
    NewlinesReach(text, gap, end);
    hide AfterNewline, AfterNewlines, AfterGap, Newlines, Newline;
  }

  lemma BreakIsWritten(text: string, i: nat) returns (first: nat, gap: nat)
    requires i <= |text| && BreakEnd(text, i).Some?
    ensures BreakAt(text, i, first, gap, BreakEnd(text, i).value)
  {
    hide AfterNewline, AfterNewlines, AfterGap, Newlines, Newline;
    first := AfterNewline(text, i);
    NewlineIsOne(text, i, first);
    gap := AfterGap(text, first);
    GapIsBlank(text, first);
    NewlinesAre(text, gap);
  }

  /** The paragraph breaks from a place on: in order, and none is missed. */
  ghost predicate AllBreaks(text: string, breaks: seq<Span>, from: nat)
  {
    && (forall b | b in breaks :: from <= b.start && exists first: nat, gap: nat :: BreakAt(text, b.start, first, gap, b.end))
    && (forall a, b | 0 <= a < b < |breaks| :: breaks[a].end <= breaks[b].start)
    && (forall i: nat, first: nat, gap: nat, end: nat | from <= i <= |text| && BreakAt(text, i, first, gap, end) ::
          exists b | b in breaks :: b.start <= i < b.end)
  }

  /** Paragraphs end exactly at the breaks whose end is safe. */
  lemma {:induction false} BoundariesAre(text: string, spans: seq<Span>, from: nat) returns (breaks: seq<Span>)
    requires from <= |text|
    ensures AllBreaks(text, breaks, from)
    ensures forall p :: p in Boundaries(text, spans, from) <==> SafeBreak(p, spans) && exists b | b in breaks :: b.end == p
    decreases |text| - from
  {
    hide AllBreaks, BreakEnd, SafeBreak;
    breaks := [];
    if from == |text| {
      NoBreaks(text);
    } else {
      var end := BreakEnd(text, from);
      if end.None? {
        breaks := BoundariesAre(text, spans, from + 1);
        NoBreakHere(text, breaks, from);
      } else {
        var rest := BoundariesAre(text, spans, end.value);
        breaks := [Span(from, end.value)] + rest;
        BreakHere(text, rest, from, end.value);
      }
    }
  }

  lemma BreakFits(text: string, i: nat, first: nat, gap: nat, end: nat)
    requires BreakAt(text, i, first, gap, end)
    ensures i < end <= |text|
  {
  }

  lemma NoBreaks(text: string)
    ensures AllBreaks(text, [], |text|)
  {
    hide BreakAt;
    forall i: nat, first: nat, gap: nat, end: nat | |text| <= i <= |text| && BreakAt(text, i, first, gap, end) ensures false {
      BreakFits(text, i, first, gap, end);
    }
  }

  lemma NoBreakHere(text: string, breaks: seq<Span>, from: nat)
    requires from < |text| && BreakEnd(text, from).None? && AllBreaks(text, breaks, from + 1)
    ensures AllBreaks(text, breaks, from)
  {
    hide BreakAt, BreakEnd;
    forall first: nat, gap: nat, end: nat ensures !BreakAt(text, from, first, gap, end) {
      if BreakAt(text, from, first, gap, end) {
        BreakIsRead(text, from, first, gap, end);
      }
    }
  }

  lemma BreakHere(text: string, rest: seq<Span>, from: nat, end: nat)
    requires from < |text| && BreakEnd(text, from) == Some(end) && AllBreaks(text, rest, end)
    ensures AllBreaks(text, [Span(from, end)] + rest, from)
  {
    hide BreakAt, BreakEnd;
    var breaks := [Span(from, end)] + rest;
    var first, gap := BreakIsWritten(text, from);
    BreakFits(text, from, first, gap, end);
    assert forall b | 0 <= b < |rest| :: rest[b] in rest;
    assert breaks[0] in breaks && forall b | b in rest :: b in breaks;
    forall i: nat, f: nat, g: nat, e: nat | from <= i <= |text| && BreakAt(text, i, f, g, e)
      ensures exists b | b in breaks :: b.start <= i < b.end
    {
      if i >= end {
        var b :| b in rest && b.start <= i < b.end;
        assert b in breaks;
      }
    }
  }

  /* ---- rows of tables ---- */

  lemma {:induction false} SkipSpaceIs(line: string, pad: string, rest: string)
    requires line == pad + rest && Blank(pad) && (rest != "" ==> !IsSpace(rest[0]))
    ensures SkipSpace(line) == rest
    decreases |pad|
  {
    hide IsSpace;
    if pad == "" {
      assert line == rest;
    } else {
      assert line[0] == pad[0] && pad[0] in pad;
      SkipSpaceIs(line[1..], pad[1..], rest);
    }
  }

  lemma {:induction false} SkipSpaceSplits(line: string) returns (pad: string)
    ensures line == pad + SkipSpace(line) && Blank(pad)
    decreases |line|
  {
    hide IsSpace;
    pad := "";
    if line != "" && IsSpace(line[0]) {
      var more := SkipSpaceSplits(line[1..]);
      pad := [line[0]] + more;
    }
  }

  /** A row is a line that begins with the marker, after blanks. */
  lemma RowIsRead(line: string)
    ensures IsRow(line) <==> exists pad, rest :: line == pad + ("[TABLE_ROW_V1]" + rest) && Blank(pad)
  {
    hide SkipSpace, Blank;
    if IsRow(line) {
      var pad := SkipSpaceSplits(line);
      var rest := SkipSpace(line)[|MARKER|..];
      assert SkipSpace(line) == MARKER + rest;
    }
    forall pad, rest | line == pad + ("[TABLE_ROW_V1]" + rest) && Blank(pad) ensures IsRow(line) {
      SkipSpaceIs(line, pad, MARKER + rest);
    }
  }

  /** Lines end in a line feed, all but perhaps the last, and hold no other. */
  ghost predicate Ended(lines: seq<string>)
  {
    forall k | 0 <= k < |lines| ::
      && lines[k] != "" && (forall j | 0 <= j < |lines[k]| - 1 :: lines[k][j] != '\n')
      && (k < |lines| - 1 ==> lines[k][|lines[k]| - 1] == '\n')
  }

  lemma {:induction false} LinesEnd(text: string)
    ensures Ended(LinesOf(text)) && (text != "" ==> LinesOf(text) != [])
    decreases |text|
  {
    hide LineLength;
    if text != "" {
      var n := LineLength(text);
      LineEnds(text);
      LinesEnd(text[n..]);
      EndedBefore(text[..n], LinesOf(text[n..]));
    }
  }

  lemma EndedBefore(line: string, rest: seq<string>)
    requires Ended(rest) && line != "" && (forall j | 0 <= j < |line| - 1 :: line[j] != '\n')
    requires rest != [] ==> line[|line| - 1] == '\n'
    ensures Ended([line] + rest)
  {
    var lines := [line] + rest;
    assert forall k | 1 <= k < |lines| :: lines[k] == rest[k - 1];
  }

  lemma {:induction false} LineEnds(text: string)
    requires text != ""
    ensures var n := LineLength(text);
            (n < |text| ==> text[n - 1] == '\n') && forall j | 0 <= j < n - 1 :: text[j] != '\n'
    decreases |text|
  {
    if text[0] != '\n' && |text| > 1 {
      LineEnds(text[1..]);
      var n := LineLength(text[1..]);
      assert forall j | 1 <= j < |text| :: text[j] == text[1..][j - 1];
    }
  }

  /** Lines without a row in them, and then a row: the text before it is split as if it stood alone. */
  lemma PlainBeforeRow(plain: seq<string>, row: string)
    requires plain != [] && !Blank(Join(plain)) && IsRow(row) && forall line | line in plain :: !IsRow(line)
    ensures Assemble(Runs(plain + [row], ""), [], "") == PlainPassages(Join(plain)) + [row]
  {
    hide IsRow, Blank, PlainPassages;
    NonEmpty(Join(plain));
    assert "" + Join(plain) == Join(plain);
    GatherPlain(plain, row, "");
    RowIsVisible(row);
    AssembleTwo(Join(plain), row);
  }

  lemma NonEmpty(text: string)
    requires !Blank(text)
    ensures text != ""
  {
  }

  lemma RowIsVisible(row: string)
    requires IsRow(row)
    ensures !Blank(row)
  {
    RowIsNotBlank(row);
  }

  lemma {:induction false} GatherPlain(plain: seq<string>, row: string, pending: string)
    requires IsRow(row) && (forall line | line in plain :: !IsRow(line)) && pending + Join(plain) != ""
    ensures Runs(plain + [row], pending) == [Run(false, pending + Join(plain)), Run(true, row)]
    decreases |plain|
  {
    hide IsRow;
    var lines := plain + [row];
    if plain == [] {
      assert lines == [row] && lines[1..] == [];
      assert pending + Join(plain) == pending;
      assert Runs([], "") == [];
    } else {
      assert lines[0] == plain[0] && lines[1..] == plain[1..] + [row] && plain[0] in plain;
      assert pending + plain[0] + Join(plain[1..]) == pending + Join(plain);
      GatherPlain(plain[1..], row, pending + plain[0]);
    }
  }

  lemma AssembleTwo(text: string, row: string)
    requires !Blank(text) && !Blank(row)
    ensures Assemble([Run(false, text), Run(true, row)], [], "") == PlainPassages(text) + [row]
  {
    hide Blank, PlainPassages;
    var runs := [Run(false, text), Run(true, row)];
    var units := PlainPassages(text);
    assert runs[1..] == [Run(true, row)] && runs[1..][1..] == [];
    assert Assemble(runs, [], "") == Assemble([Run(true, row)], [] + units, "");
    assert [] + units == units;
    assert Assemble([Run(true, row)], units, "") == Assemble([], units + [row], "");
  }
}
