/**
 Titles are never cut: neither the divisions between claims nor the cuts between publication units
 fall inside a title, and no body text shares a character with one.
 */
module TitleCuts {
  import opened Basics
  import opened MarkdownLines
  import opened AnswerStructure
  import opened AnswerClaims
  import S = PublicationSegments
  import U = PublicationUnits

  /* ---- where lines begin and end ---- */

  ghost predicate Strictly(line: Line, c: nat)
  {
    line.start < c < line.end
  }

  /** An end of the text, or an end of a line of it. */
  ghost predicate LinePoint(lines: seq<Line>, limit: nat, c: nat)
  {
    c == 0 || c == limit || exists y | y in lines :: c == y.start || c == y.end || c == y.next
  }

  lemma {:induction false} TiledFrom(lines: seq<Line>, from: nat, limit: nat, x: Line)
    requires Tiled(lines, from, limit) && x in lines
    ensures from <= x.start <= x.end <= x.next <= limit
    decreases |lines|
  {
    if x != lines[0] {
      TiledFrom(lines[1..], lines[0].next, limit, x);
    }
  }

  lemma {:induction false} TiledApart(lines: seq<Line>, from: nat, limit: nat, x: Line, y: Line)
    requires Tiled(lines, from, limit) && x in lines && y in lines
    ensures x == y || x.next <= y.start || y.next <= x.start
    decreases |lines|
  {
    if x == lines[0] {
      if y != x {
        TiledFrom(lines[1..], lines[0].next, limit, y);
      }
    } else if y == lines[0] {
      TiledFrom(lines[1..], lines[0].next, limit, x);
    } else {
      TiledApart(lines[1..], lines[0].next, limit, x, y);
    }
  }

  /** No line begins or ends inside the text of another. */
  lemma PointOutside(lines: seq<Line>, limit: nat, x: Line, c: nat)
    requires Tiled(lines, 0, limit) && x in lines && LinePoint(lines, limit, c)
    ensures !Strictly(x, c)
  {
    TiledFrom(lines, 0, limit, x);
    if y :| y in lines && (c == y.start || c == y.end || c == y.next) {
      TiledFrom(lines, 0, limit, y);
      TiledApart(lines, 0, limit, x, y);
    }
  }

  ghost predicate LineEdges(lines: seq<Line>, limit: nat, spans: seq<Span>)
  {
    forall s | s in spans :: LinePoint(lines, limit, s.start) && LinePoint(lines, limit, s.end)
  }

  /** Fenced blocks begin and end where lines do. */
  lemma {:induction false} FenceEdges(text: string, lines: seq<Line>, protected: seq<Span>, open: Option<OpenFence>, all: seq<Line>)
    requires forall line | line in lines :: line.start <= line.end <= |text| && line in all
    requires open.Some? ==> LinePoint(all, |text|, open.value.start)
    ensures LineEdges(all, |text|, Fences(text, lines, protected, open))
    decreases |lines|
  {
    hide FenceAt, Covered;
    if lines != [] {
      var line := lines[0];
      assert LinePoint(all, |text|, line.start) && LinePoint(all, |text|, line.next);
      hide LinePoint;
      var fence := FenceAt(text[line.start..line.end]);
      FenceEdges(text, lines[1..], protected, None, all);
      if fence.Some? {
        FenceEdges(text, lines[1..], protected, Some(OpenFence(line.start, fence.value.mark, fence.value.length)), all);
      }
      if open.Some? {
        FenceEdges(text, lines[1..], protected, open, all);
      }
    }
  }

  /** List items begin and end where lines do. */
  lemma {:induction false} ItemEdges(answer: string, lines: seq<Line>, guarded: seq<Span>, headings: set<Span>,
                                     item: Option<S.Item>, blank: bool, all: seq<Line>)
    requires forall line | line in lines :: line.start <= line.end <= |answer| && line in all
    requires item.Some? ==> LinePoint(all, |answer|, item.value.start)
    ensures LineEdges(all, |answer|, S.Items(answer, lines, guarded, headings, item, blank))
    decreases |lines|
  {
    hide ListMarker, Inside, Blank, S.EndsItem;
    if lines == [] {
      assert LinePoint(all, |answer|, |answer|);
    } else {
      var line, rest := lines[0], lines[1..];
      assert LinePoint(all, |answer|, line.start);
      hide LinePoint;
      var marker := ListMarker(answer[line.start..line.end]);
      if marker.Some? {
        ItemEdges(answer, rest, guarded, headings, Some(S.Item(line.start, marker.value)), false, all);
      }
      ItemEdges(answer, rest, guarded, headings, item, false, all);
      ItemEdges(answer, rest, guarded, headings, item, true, all);
      ItemEdges(answer, rest, guarded, headings, None, false, all);
    }
  }

  lemma {:induction false} BreakFromQuiet(text: string, i: nat, k: nat)
    requires i <= |text| && i <= k < BreakFrom(text, i)
    ensures !IsBreak(text[k])
    decreases |text| - i
  {
    if i < k {
      BreakFromQuiet(text, i + 1, k);
    }
  }

  /** The text of a line holds no line feed. */
  lemma {:induction false} LineHasNoFeed(text: string, i: nat, line: Line, k: nat)
    requires i <= |text| && line in LinesFrom(text, i) && line.start <= k < line.end
    ensures text[k] != '\n'
    decreases |text| - i
  {
    var first := LineAt(text, i);
    if line == first {
      if k < BreakFrom(text, i) {
        BreakFromQuiet(text, i, k);
      }
    } else {
      LineHasNoFeed(text, first.next, line, k);
    }
  }

  /** A paragraph gap begins and ends with a line feed. */
  lemma {:induction false} GapFeeds(text: string, i: nat, g: Span)
    requires i <= |text| && g in Gaps(text, i)
    ensures g.start < g.end <= |text| && text[g.start] == '\n' == text[g.end - 1]
    decreases |text| - i
  {
    if text[i] != '\n' {
      GapFeeds(text, i + 1, g);
    } else {
      var next := SkipPad(text, i + 1);
      var n := RunOf(text, next, '\n');
      if n > 0 {
        RunHolds(text, next, '\n', next + n - 1);
      }
      if n == 0 {
        GapFeeds(text, i + 1, g);
      } else if g != Span(i, next + n) {
        GapFeeds(text, next + n, g);
      }
    }
  }

  lemma {:induction false} RunHolds(line: string, i: nat, c: char, k: nat)
    requires i <= k < i + RunOf(line, i, c) && i <= |line|
    ensures k < |line| && line[k] == c
    decreases |line| - i
  {
    if i < k {
      RunHolds(line, i + 1, c, k);
    }
  }

  lemma {:induction false} PadHolds(line: string, i: nat, k: nat)
    requires i <= |line| && i <= k < SkipPad(line, i)
    ensures IsPad(line[k])
    decreases |line| - i
  {
    if i < k {
      PadHolds(line, i + 1, k);
    }
  }

  /* ---- the mark of a title ---- */

  predicate TitleSign(c: char)
  {
    c == '#' || c == '*' || c == '_'
  }

  /** The first character of the line that is no blank, and it is the sign of a title. */
  ghost predicate Mark(line: string, m: nat)
  {
    m < |line| && TitleSign(line[m]) && forall k | 0 <= k < m :: IsPad(line[k])
  }

  lemma TitleMark(line: string) returns (m: nat)
    requires IsTitle(line)
    ensures Mark(line, m)
  {
    if AtxLevel(line).Some? {
      m := RunOf(line, 0, ' ');
      RunHolds(line, m, '#', m);
      forall k | 0 <= k < m ensures IsPad(line[k]) {
        RunHolds(line, 0, ' ', k);
      }
    } else {
      m := SkipPad(line, 0);
      WrappedMark(line, m, if DropPad(line, |line|) > 0 && line[DropPad(line, |line|) - 1] == ':'
                           then DropPad(line, |line|) - 1 else DropPad(line, |line|));
      forall k | 0 <= k < m ensures IsPad(line[k]) {
        PadHolds(line, 0, k);
      }
    }
  }

  lemma WrappedMark(line: string, i: nat, j: nat)
    requires i <= j <= |line| && (Wrapped(line, i, j, "**") || Wrapped(line, i, j, "__"))
    ensures i < |line| && TitleSign(line[i])
  {
    var two := line[i..i + 2];
    assert two[0] == line[i];
  }

  /** Where the sign of the title stands in the answer. */
  ghost predicate MarkOf(answer: string, line: Line, m: nat)
  {
    && line.start <= m < line.end <= |answer| && TitleSign(answer[m])
    && forall k | line.start <= k < m :: IsPad(answer[k])
  }

  lemma LineMark(answer: string, line: Line) returns (m: nat)
    requires line.start <= line.end <= |answer| && IsTitle(answer[line.start..line.end])
    ensures MarkOf(answer, line, m)
  {
    hide IsTitle;
    var text := answer[line.start..line.end];
    var i := TitleMark(text);
    m := line.start + i;
    assert text[i] == answer[m];
    forall k | line.start <= k < m ensures IsPad(answer[k]) {
      assert text[k - line.start] == answer[k];
    }
  }

  /* ---- no cut in a title ---- */

  lemma {:induction false} LineStartBefore(text: string, i: nat, from: nat)
    requires from <= i <= |text| && forall k | from <= k < i :: text[k] != '\n'
    ensures S.LineStart(text, i) <= from
  {
    if from < i {
      LineStartBefore(text, i - 1, from);
    }
  }

  /** A block of code on lines of its own begins with its sign, after blanks. */
  lemma CodeStart(answer: string, s: Span)
    requires s.start <= s.end <= |answer| && S.CodeBlock(answer, s)
    ensures s.start < |answer| && (answer[s.start] == '`' || answer[s.start] == '~')
    ensures forall k | S.LineStart(answer, s.start) <= k < s.start :: IsSpace(answer[k])
  {
    hide S.LineStart, IsSpace;
    var from := S.LineStart(answer, s.start);
    FenceSign(S.Text(answer, s));
    TextAt(answer, s);
    hide S.Text;
    BlankPrefix(answer, from, s.start);
  }

  lemma FenceSign(text: string)
    requires "```" <= text || "~~~" <= text
    ensures text != [] && (text[0] == '`' || text[0] == '~')
  {
  }

  lemma TextAt(answer: string, s: Span)
    requires s.start <= s.end <= |answer|
    ensures |S.Text(answer, s)| == s.end - s.start && (s.start < s.end ==> S.Text(answer, s)[0] == answer[s.start])
  {
  }

  lemma BlankPrefix(answer: string, from: nat, to: nat)
    requires from <= to <= |answer| && Blank(answer[from..to])
    ensures forall k | from <= k < to :: IsSpace(answer[k])
  {
    hide IsSpace;
    var prefix := answer[from..to];
    forall k | from <= k < to ensures IsSpace(answer[k]) {
      assert prefix[k - from] == answer[k] && prefix[k - from] in prefix;
    }
  }

  /** It does not begin inside a title. */
  lemma CodeMissesTitle(answer: string, line: Line, m: nat, s: Span)
    requires MarkOf(answer, line, m) && s.start <= s.end <= |answer| && S.CodeBlock(answer, s)
    requires forall k | line.start <= k < line.end :: answer[k] != '\n'
    ensures !Strictly(line, s.start)
  {
    if Strictly(line, s.start) {
      LineStartBefore(answer, s.start, line.start);
    }
    CodeStart(answer, s);
    hide S.CodeBlock, S.LineStart;
  }

  /** The title stands in no protected span. */
  ghost predicate Open(protected: seq<Span>, line: Line)
  {
    !Covered(protected, line.start)
  }

  lemma CodeEdgesMissTitle(input: S.Input, line: Line, m: nat, s: Span)
    requires input.Valid() && line in S.Lines(input) && MarkOf(input.answer, line, m) && Open(input.protected, line)
    requires s in S.Guarded(input) && s.start <= s.end <= |input.answer| && S.CodeBlock(input.answer, s)
    ensures !Strictly(line, s.start) && !Strictly(line, s.end)
  {
    hide Fences, LinesFrom, Tiled, S.CodeBlock, LinePoint;
    LinesAreTiled(input.answer, 0);
    if s in input.protected {
      hide MarkOf;
      forall k | line.start <= k < line.end ensures input.answer[k] != '\n' {
        LineHasNoFeed(input.answer, 0, line, k);
      }
      CodeMissesTitle(input.answer, line, m, s);
    } else {
      FenceEdges(input.answer, S.Lines(input), input.protected, None, S.Lines(input));
      PointOutside(S.Lines(input), |input.answer|, line, s.start);
      PointOutside(S.Lines(input), |input.answer|, line, s.end);
    }
  }

  lemma GapMissesLine(text: string, line: Line, g: Span)
    requires line in LinesFrom(text, 0) && g in Gaps(text, 0)
    ensures !Strictly(line, g.start) && !Strictly(line, g.end)
  {
    hide Gaps;
    GapFeeds(text, 0, g);
    hide LinesFrom;
    if Strictly(line, g.start) {
      LineHasNoFeed(text, 0, line, g.start);
    }
    if Strictly(line, g.end) {
      LineHasNoFeed(text, 0, line, g.end - 1);
    }
  }

  lemma DivisionMissesTitle(input: S.Input, line: Line, m: nat, c: nat)
    requires input.Valid() && line in S.Lines(input) && MarkOf(input.answer, line, m) && Open(input.protected, line)
    requires Within(S.Guarded(input), |input.answer|) && c in S.Divisions(input, S.Guarded(input))
    ensures !Strictly(line, c)
  {
    hide S.Lines, S.Guarded, S.CodeBlock, MarkOf, Open, Gaps, Inside, S.TitleLine, LinePoint, Tiled, Strictly;
    var answer, lines, guarded := input.answer, S.Lines(input), S.Guarded(input);
    LinesOf(input);
    if c == 0 || c == |answer| || c in S.Edges(S.Titles(input, guarded)) {
      TitlePoint(input, c);
      PointOutside(lines, |answer|, line, c);
    } else if s :| s in guarded && S.CodeBlock(answer, s) && (c == s.start || c == s.end) {
      CodeEdgesMissTitle(input, line, m, s);
    } else {
      var g :| g in Gaps(answer, 0) && (c == g.start || c == g.end);
      GapMissesLine(answer, line, g);
    }
  }

  lemma LinesOf(input: S.Input)
    ensures S.Lines(input) == LinesFrom(input.answer, 0) && Tiled(S.Lines(input), 0, |input.answer|)
  {
    LinesAreTiled(input.answer, 0);
  }

  lemma TitlePoint(input: S.Input, c: nat)
    requires c == 0 || c == |input.answer| || c in S.Edges(S.Titles(input, S.Guarded(input)))
    ensures LinePoint(S.Lines(input), |input.answer|, c)
  {
    hide S.Lines, S.Guarded, S.TitleLine;
  }

  /** No cut between publication units falls inside a title outside formulas. */
  lemma NoCutInTitle(input: S.Input, line: Line, c: nat)
    requires input.Valid() && line in S.Lines(input) && IsTitle(input.answer[line.start..line.end])
    requires Open(input.protected, line) && c in U.CutList(input)
    ensures !Strictly(line, c)
  {
    hide IsTitle, S.Cuts, S.Divisions, S.Guarded, U.ItemSpans, LinePoint, Tiled, S.Lines;
    var m := LineMark(input.answer, line);
    LinesOf(input);
    U.CutsDecide(input, c);
    if U.Edge(U.ItemSpans(input), c) {
      ItemSpanEdges(input);
      PointOutside(S.Lines(input), |input.answer|, line, c);
    } else {
      DivisionMissesTitle(input, line, m, c);
    }
  }

  lemma ItemSpanEdges(input: S.Input)
    ensures LineEdges(S.Lines(input), |input.answer|, U.ItemSpans(input))
  {
    hide S.Lines, S.Guarded, S.HeadingSpans;
    ItemEdges(input.answer, S.Lines(input), S.Guarded(input), S.HeadingSpans(input, S.Guarded(input)), None, false, S.Lines(input));
  }

  /* ---- body text and headings ---- */

  /** A heading is a title line outside formulas, citations and code. */
  ghost predicate LineOf(answer: string, protected: seq<Span>, h: Heading, line: Line)
  {
    && h.start == line.start && h.end == line.end <= |answer| && line.start <= line.end
    && IsTitle(answer[line.start..line.end]) && Open(protected, line)
  }

  lemma {:induction false} OutlineIsLines(answer: string, protected: seq<Span>, lines: seq<Line>, o: Outline, h: Heading)
    requires (forall line | line in lines :: line.start <= line.end <= |answer|) && StackFits(o)
    requires h in OutlineFrom(answer, protected, lines, o).headings && h !in o.headings
    ensures exists line | line in lines :: LineOf(answer, protected, h, line)
    decreases |lines|
  {
    hide FollowsTitle, Kept, Covered;
    if lines != [] {
      var next := AddLine(answer, protected, lines[0], o);
      if h in next.headings {
        assert LineOf(answer, protected, h, lines[0]);
      } else {
        OutlineIsLines(answer, protected, lines[1..], next, h);
      }
    }
  }

  lemma HeadingIsLine(d: Draft, h: Heading) returns (line: Line)
    requires h in Headings(d)
    ensures line in DraftLines(d) && LineOf(d.answer, d.protected + Code(d), h, line) && Open(d.protected, line)
  {
    hide OutlineFrom, IsTitle;
    OutlineIsLines(d.answer, d.protected + Code(d), DraftLines(d), Outline([], []), h);
    line :| line in DraftLines(d) && LineOf(d.answer, d.protected + Code(d), h, line);
    OpenInFirst(d.protected, Code(d), line);
  }

  lemma OpenInFirst(a: seq<Span>, b: seq<Span>, line: Line)
    requires Open(a + b, line)
    ensures Open(a, line)
  {
    forall x | x in a ensures x in a + b {
    }
  }

  ghost predicate InsideHeading(h: Heading, c: nat)
  {
    h.start < c < h.end
  }

  /** No division between claims falls inside a heading. */
  lemma NoDivisionInHeading(d: Draft, h: Heading, c: nat)
    requires h in Headings(d) && c in Divisions(d)
    ensures !InsideHeading(h, c)
  {
    hide Headings, LinesFrom, Fences, IsTitle, Breaks, LinePoint, Tiled, Spans;
    LinesAreTiled(d.answer, 0);
    var line := HeadingIsLine(d, h);
    SpanOf(Headings(d), h);
    if c == 0 || c == |d.answer| {
      assert LinePoint(DraftLines(d), |d.answer|, c) by { EndPoint(DraftLines(d), |d.answer|, c); }
      PointOutside(DraftLines(d), |d.answer|, line, c);
    } else if c in S.Edges(set s | s in Code(d)) {
      FenceEdges(d.answer, DraftLines(d), d.protected, None, DraftLines(d));
      PointOutside(DraftLines(d), |d.answer|, line, c);
    } else if c in S.Edges(set s | s in Spans(Headings(d))) {
      HeadingPoint(d, c);
      PointOutside(DraftLines(d), |d.answer|, line, c);
    } else {
      BreakMissesHeading(d, h, c);
    }
  }

  lemma EndPoint(lines: seq<Line>, limit: nat, c: nat)
    requires c == 0 || c == limit
    ensures LinePoint(lines, limit, c)
  {
  }

  lemma SpanOf(headings: seq<Heading>, h: Heading)
    requires h in headings
    ensures HeadingSpan(h) in Spans(headings)
  {
    var i :| 0 <= i < |headings| && headings[i] == h;
    assert Spans(headings)[i] == HeadingSpan(h);
  }

  lemma HeadingPoint(d: Draft, c: nat)
    requires c in S.Edges(set s | s in Spans(Headings(d)))
    ensures LinePoint(DraftLines(d), |d.answer|, c)
  {
    hide Headings, LinesFrom, IsTitle;
    var s :| s in Spans(Headings(d)) && (c == s.start || c == s.end);
    var i :| 0 <= i < |Headings(d)| && Spans(Headings(d))[i] == s;
    var line := HeadingIsLine(d, Headings(d)[i]);
  }

  lemma BreakMissesHeading(d: Draft, h: Heading, c: nat)
    requires h in Headings(d) && c in S.Edges(Breaks(d, d.protected + Code(d) + Spans(Headings(d))))
    ensures !InsideHeading(h, c)
  {
    hide Headings, Code, Gaps, SentenceGaps, ListGaps, AfterNumber, Spans;
    SpanOf(Headings(d), h);
    var shielded := d.protected + Code(d) + Spans(Headings(d));
    assert HeadingSpan(h) in shielded;
  }

  lemma {:induction false} BodyIsBetween(d: Draft, cuts: seq<nat>, x: Piece) returns (k: nat)
    requires S.Rising(d.answer, cuts) && x in Body(d, cuts)
    ensures k + 1 < |cuts| && cuts[k] <= x.start < x.end <= cuts[k + 1] && Span(cuts[k], cuts[k + 1]) !in Spans(Headings(d))
    decreases |cuts|
  {
    hide Headings, BareNumber, HasWord, S.SegmentBefore;
    if x in BodyBetween(d, cuts[0], cuts[1]) {
      k := 0;
    } else {
      k := BodyIsBetween(d, cuts[1..], x);
      k := k + 1;
    }
  }

  lemma BetweenIsTight(cuts: seq<nat>, k: nat, c: nat)
    requires k + 1 < |cuts| && c in cuts && forall i, j | 0 <= i < j < |cuts| :: cuts[i] < cuts[j]
    ensures c <= cuts[k] || cuts[k + 1] <= c
  {
    var i :| 0 <= i < |cuts| && cuts[i] == c;
  }

  /** No body text shares a character with a heading. */
  lemma BodyMissesHeadings(d: Draft, x: Piece, h: Heading, p: nat)
    requires x in Body(d, DivisionList(d)) && h in Headings(d) && x.start <= p < x.end
    ensures !(h.start <= p < h.end)
  {
    hide *;
    if h.start <= p < h.end {
      var cuts := DivisionList(d);
      var k := BodyIsBetween(d, cuts, x);
      HeadingEdges(d, h);
      SpanOf(Headings(d), h);
      RisingCuts(d.answer, cuts);
      BetweenIsTight(cuts, k, h.start);
      BetweenIsTight(cuts, k, h.end);
      assert cuts[k] in cuts && cuts[k + 1] in cuts;
      NoDivisionInHeading(d, h, cuts[k]);
      NoDivisionInHeading(d, h, cuts[k + 1]);
      InsideUnfold(h, cuts[k]);
      InsideUnfold(h, cuts[k + 1]);
      SpanUnfold(h);
    }
  }

  lemma RisingCuts(answer: string, cuts: seq<nat>)
    requires S.Rising(answer, cuts)
    ensures forall i, j | 0 <= i < j < |cuts| :: cuts[i] < cuts[j]
  {
  }

  lemma InsideUnfold(h: Heading, c: nat)
    ensures InsideHeading(h, c) <==> h.start < c < h.end
  {
  }

  lemma SpanUnfold(h: Heading)
    ensures HeadingSpan(h) == Span(h.start, h.end)
  {
  }

  lemma HeadingEdges(d: Draft, h: Heading)
    requires h in Headings(d)
    ensures h.start in DivisionList(d) && h.end in DivisionList(d)
    ensures forall c :: c in DivisionList(d) ==> c in Divisions(d)
  {
    hide Headings, Code, Breaks, Spans, LinesFrom, IsTitle;
    SpanOf(Headings(d), h);
    var line := HeadingIsLine(d, h);
    assert HeadingSpan(h) in set s | s in Spans(Headings(d));
    assert h.start in Divisions(d) && h.end in Divisions(d);
    hide Divisions;
  }
}
