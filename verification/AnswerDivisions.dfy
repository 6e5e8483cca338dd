/**
 Where an answer is divided: the places between sentences, before list items and around paragraphs,
 code and titles, told by the signs in the text.
 */
module AnswerDivisions {
  import opened Basics
  import N = MarkdownNotation
  import MarkdownLines
  import S = PublicationSegments
  import A = AnswerStructure
  import C = AnswerClaims

  /* ---- sentences ---- */

  /** A sign with which a sentence may begin: a capital, a digit, a quotation mark or a bracket. */
  predicate Begins(c: char)
  {
    || 'A' <= c <= 'Z' || '0' <= c <= '9' || '\U{0410}' <= c <= '\U{042F}' || c == '\U{0401}'
    || c == '"' || c == '(' || c == '\U{00AB}'
  }

  predicate Between(c: char)
  {
    c == ' ' || c == '\t' || c == '\n'
  }

  /** The blanks between the end of a sentence and the beginning of another. */
  ghost predicate SentenceGap(text: string, g: Span)
  {
    && 0 < g.start < g.end < |text| && (text[g.start - 1] == '.' || text[g.start - 1] == '!' || text[g.start - 1] == '?')
    && (forall k | g.start <= k < g.end :: Between(text[k])) && Begins(text[g.end])
  }

  lemma {:induction false} GlueReaches(text: string, i: nat, last: nat)
    requires i <= last <= |text| && (forall k | i <= k < last :: Between(text[k])) && (last < |text| ==> !Between(text[last]))
    ensures C.SkipGlue(text, i) == last
    decreases last - i
  {
    if i < last {
      GlueReaches(text, i + 1, last);
    }
  }

  lemma {:induction false} GlueIsBetween(text: string, i: nat)
    requires i <= |text|
    ensures forall k | i <= k < C.SkipGlue(text, i) :: Between(text[k])
    ensures C.SkipGlue(text, i) < |text| ==> !Between(text[C.SkipGlue(text, i)])
    decreases |text| - i
  {
    if i < |text| && Between(text[i]) {
      GlueIsBetween(text, i + 1);
    }
  }

  /** Whether a sentence gap begins here. */
  lemma GapBegins(text: string, i: nat)
    requires i < |text|
    ensures var next := C.SkipGlue(text, i);
            var here := i > 0 && text[i - 1] in ".!?" && next > i && next < |text| && C.IsOpening(text[next]);
            && (here ==> SentenceGap(text, Span(i, next)))
            && (forall g | SentenceGap(text, g) && g.start == i :: here && g == Span(i, next))
            && (here ==> forall g | SentenceGap(text, g) && i < g.start :: next <= g.start)
  {
    GlueIsBetween(text, i);
    var next := C.SkipGlue(text, i);
    forall g | SentenceGap(text, g) && g.start == i ensures g.end == next {
      GlueReaches(text, i, g.end);
    }
    hide C.SkipGlue;
  }

  lemma {:induction false} SentencesFrom(text: string, i: nat, g: Span)
    requires i <= |text|
    ensures g in C.SentenceGaps(text, i) <==> SentenceGap(text, g) && i <= g.start
    decreases |text| - i
  {
    hide SentenceGap, C.SkipGlue, C.IsOpening;
    if i == |text| {
      GapInside(text, g);
    } else {
      GapBegins(text, i);
      var next := C.SkipGlue(text, i);
      if i > 0 && text[i - 1] in ".!?" && next > i && next < |text| && C.IsOpening(text[next]) {
        SentencesFrom(text, next, g);
      } else {
        SentencesFrom(text, i + 1, g);
      }
    }
  }

  lemma GapInside(text: string, g: Span)
    ensures SentenceGap(text, g) ==> g.start < |text|
  {
  }

  /* ---- list items ---- */

  /** Blanks, then a bullet or a number with a dot or a bracket, then white space. */
  ghost predicate ItemAt(text: string, i: nat, first: nat, last: nat)
  {
    && i <= first <= last && last + 1 < |text| && (forall k | i <= k < first :: text[k] == ' ' || text[k] == '\t')
    && IsSpace(text[last + 1])
    && ( || (last == first && (text[last] == '-' || text[last] == '*' || text[last] == '+'))
         || (last > first && (forall k | first <= k < last :: '0' <= text[k] <= '9') && (text[last] == '.' || text[last] == ')')))
  }

  lemma ItemIsMarked(text: string, i: nat)
    requires i <= |text|
    ensures C.MarkerAt(text, i) <==> exists first: nat, last: nat :: ItemAt(text, i, first, last)
  {
    var from := MarkdownLines.SkipPad(text, i);
    N.PadIsPad(text, i);
    N.DigitsAreDigits(text, from);
    if C.MarkerAt(text, i) {
      assert ItemAt(text, i, from, if text[from] in "-*+" then from else from + MarkdownLines.DigitsOf(text, from));
    }
    forall first: nat, last: nat | ItemAt(text, i, first, last) ensures C.MarkerAt(text, i) {
      N.PadReaches(text, i, first);
      if last > first {
        N.DigitsReach(text, first, last);
      }
    }
  }

  ghost predicate ListGap(text: string, g: Span)
  {
    && g.end == g.start + 1 <= |text| && text[g.start] == '\n'
    && exists first: nat, last: nat :: ItemAt(text, g.end, first, last)
  }

  lemma {:induction false} ListsFrom(text: string, i: nat, g: Span)
    requires i <= |text|
    ensures g in C.ListGaps(text, i) <==> ListGap(text, g) && i <= g.start
    decreases |text| - i
  {
    hide C.MarkerAt, ItemAt;
    if i < |text| {
      ItemIsMarked(text, i + 1);
      ListsFrom(text, i + 1, g);
    }
  }

  /** The line has only a list number, with its dot or bracket, before this place. */
  ghost predicate Numbers(text: string, start: nat, first: nat, i: nat)
  {
    && start <= first && first + 1 < i <= |text| && (start == 0 || text[start - 1] == '\n')
    && (forall k | start <= k < first :: text[k] == ' ' || text[k] == '\t')
    && (forall k | first <= k < i - 1 :: '0' <= text[k] <= '9') && (text[i - 1] == '.' || text[i - 1] == ')')
  }

  lemma {:induction false} LineStartIs(text: string, start: nat, i: nat)
    requires start <= i <= |text| && (start == 0 || text[start - 1] == '\n') && forall k | start <= k < i :: text[k] != '\n'
    ensures S.LineStart(text, i) == start
    decreases i
  {
    if start < i {
      LineStartIs(text, start, i - 1);
    }
  }

  lemma {:induction false} LineStarts(text: string, i: nat)
    requires i <= |text|
    ensures var start := S.LineStart(text, i);
            (start == 0 || text[start - 1] == '\n') && forall k | start <= k < i :: text[k] != '\n'
    decreases i
  {
    if i > 0 && text[i - 1] != '\n' {
      LineStarts(text, i - 1);
    }
  }

  lemma NumberedBefore(text: string, i: nat)
    requires i <= |text|
    ensures C.AfterNumber(text, i) <==> exists start: nat, first: nat :: Numbers(text, start, first, i)
  {
    hide C.AfterNumber, Numbers;
    if C.AfterNumber(text, i) {
      var start, first := AfterNumbers(text, i);
    }
    forall start: nat, first: nat | Numbers(text, start, first, i) ensures C.AfterNumber(text, i) {
      NumbersAfter(text, start, first, i);
    }
  }

  lemma AfterNumbers(text: string, i: nat) returns (start: nat, first: nat)
    requires i <= |text| && C.AfterNumber(text, i)
    ensures Numbers(text, start, first, i)
  {
    hide C.BareNumber, C.Numeral, Numbers, MarkdownLines.SkipPad, S.LineStart;
    start := S.LineStart(text, i);
    LineStarts(text, i);
    var prefix := text[start..i];
    var pad := MarkdownLines.SkipPad(prefix, 0);
    N.PadIsPad(prefix, 0);
    C.BareIsNumeral(prefix[pad..]);
    first := start + pad;
    NumeralNumbers(text, start, first, i);
  }

  lemma NumbersAfter(text: string, start: nat, first: nat, i: nat)
    requires i <= |text| && Numbers(text, start, first, i)
    ensures C.AfterNumber(text, i)
  {
    hide C.BareNumber, C.Numeral, Numbers, MarkdownLines.SkipPad, S.LineStart;
    NumbersNumeral(text, start, first, i);
    LineStartIs(text, start, i);
    var prefix := text[start..i];
    N.PadReaches(prefix, 0, first - start);
    assert prefix[first - start..] == text[first..i];
    C.BareIsNumeral(text[first..i]);
  }

  lemma NumeralNumbers(text: string, start: nat, first: nat, i: nat)
    requires start <= first <= i <= |text| && (start == 0 || text[start - 1] == '\n')
    requires forall k | 0 <= k < first - start :: text[start..i][k] == ' ' || text[start..i][k] == '\t'
    requires C.Numeral(text[start..i][first - start..])
    ensures Numbers(text, start, first, i)
  {
    var number := text[start..i][first - start..];
    assert number == text[first..i];
    forall k | first <= k < i - 1 ensures '0' <= text[k] <= '9' {
      assert number[k - first] == text[k];
    }
    forall k | start <= k < first ensures text[k] == ' ' || text[k] == '\t' {
      assert text[start..i][k - start] == text[k];
    }
  }

  lemma NumbersNumeral(text: string, start: nat, first: nat, i: nat)
    requires Numbers(text, start, first, i)
    ensures C.Numeral(text[first..i]) && start <= first < i && (start == 0 || text[start - 1] == '\n')
    ensures forall k | start <= k < i :: text[k] != '\n'
    ensures text[first] != ' ' && text[first] != '\t'
    ensures forall k | start <= k < first :: text[k] == ' ' || text[k] == '\t'
  {
    forall k | start <= k < i ensures text[k] != '\n' {
      if k >= first && k < i - 1 {
        assert '0' <= text[k] <= '9';
      }
    }
  }

  /* ---- the divisions between claims ---- */

  /** No span holds either end of the gap in its inside. */
  ghost predicate Outside(g: Span, spans: seq<Span>)
  {
    forall s | s in spans :: !(s.start < g.start < s.end) && !(s.start < g.end < s.end)
  }

  /**
   A gap between paragraphs, between sentences or before a list item, neither after a list number nor
   in a formula, a citation, a code block or a title.
   */
  ghost predicate OpenBreak(d: C.Draft, g: Span)
  {
    && (g in MarkdownLines.Gaps(d.answer, 0) || SentenceGap(d.answer, g) || ListGap(d.answer, g))
    && g.start <= |d.answer| && !(exists start: nat, first: nat :: Numbers(d.answer, start, first, g.start))
    && Outside(g, d.protected) && Outside(g, C.Code(d))
    && forall h | h in C.Headings(d) :: !(h.start < g.start < h.end) && !(h.start < g.end < h.end)
  }

  lemma OutsideTitles(headings: seq<A.Heading>, g: Span)
    ensures Outside(g, C.Spans(headings)) <==>
              forall h | h in headings :: !(h.start < g.start < h.end) && !(h.start < g.end < h.end)
  {
    forall i | 0 <= i < |headings| ensures C.Spans(headings)[i] == Span(headings[i].start, headings[i].end) {
    }
    if Outside(g, C.Spans(headings)) {
      forall h | h in headings ensures !(h.start < g.start < h.end) && !(h.start < g.end < h.end) {
        var i :| 0 <= i < |headings| && headings[i] == h;
        assert C.Spans(headings)[i] in C.Spans(headings);
      }
    } else {
      var s :| s in C.Spans(headings) && (s.start < g.start < s.end || s.start < g.end < s.end);
      var i :| 0 <= i < |headings| && C.Spans(headings)[i] == s;
      assert headings[i] in headings;
    }
  }

  lemma OutsideIsNotInside(g: Span, a: seq<Span>, b: seq<Span>, c: seq<Span>)
    ensures !Inside(a + b + c, g.start) && !Inside(a + b + c, g.end) <==> Outside(g, a) && Outside(g, b) && Outside(g, c)
  {
    assert forall s :: s in a + b + c <==> s in a || s in b || s in c;
  }

  lemma BreaksAreOpen(d: C.Draft, g: Span)
    ensures g in C.Breaks(d, d.protected + C.Code(d) + C.Spans(C.Headings(d))) <==> OpenBreak(d, g)
  {
    hide C.Code, C.Headings, C.AfterNumber, SentenceGap, ListGap, Numbers, Outside, Inside, MarkdownLines.Gaps, C.SentenceGaps, C.ListGaps, C.Spans;
    SentencesFrom(d.answer, 0, g);
    ListsFrom(d.answer, 0, g);
    OutsideTitles(C.Headings(d), g);
    OutsideIsNotInside(g, d.protected, C.Code(d), C.Spans(C.Headings(d)));
    if g.start <= |d.answer| {
      NumberedBefore(d.answer, g.start);
    }
  }

  /** An end of one of the spans. */
  ghost predicate EdgeOf(spans: seq<Span>, p: nat)
  {
    exists s | s in spans :: p == s.start || p == s.end
  }

  /**
   The answer is divided exactly at its ends, at the ends of code blocks and titles, and at both ends
   of every open gap.
   */
  lemma DivisionsDecide(d: C.Draft, p: nat)
    ensures p in C.Divisions(d) <==>
              || p == 0 || p == |d.answer| || EdgeOf(C.Code(d), p)
              || (exists h | h in C.Headings(d) :: p == h.start || p == h.end)
              || exists g :: OpenBreak(d, g) && (p == g.start || p == g.end)
  {
    hide C.Code, C.Headings, C.Breaks, OpenBreak, S.Edges, C.Spans;
    var breaks := C.Breaks(d, d.protected + C.Code(d) + C.Spans(C.Headings(d)));
    DivisionsUnfold(d, p);
    var code, titles := (set s | s in C.Code(d)), (set s | s in C.Spans(C.Headings(d)));
    EdgesAre(code, p);
    EdgesAre(titles, p);
    EdgesAre(breaks, p);
    TitleEdges(C.Headings(d), p);
    forall g ensures g in breaks <==> OpenBreak(d, g) {
      BreaksAreOpen(d, g);
    }
  }

  lemma DivisionsUnfold(d: C.Draft, p: nat)
    ensures p in C.Divisions(d) <==>
              || p == 0 || p == |d.answer| || p in S.Edges(set s | s in C.Code(d))
              || p in S.Edges(set s | s in C.Spans(C.Headings(d)))
              || p in S.Edges(C.Breaks(d, d.protected + C.Code(d) + C.Spans(C.Headings(d))))
  {
    hide C.Code, C.Headings, C.Breaks, S.Edges, C.Spans;
  }

  lemma EdgesAre(spans: set<Span>, p: nat)
    ensures p in S.Edges(spans) <==> exists s | s in spans :: p == s.start || p == s.end
  {
  }

  lemma TitleEdges(headings: seq<A.Heading>, p: nat)
    ensures (exists s | s in C.Spans(headings) :: p == s.start || p == s.end)
        <==> exists h | h in headings :: p == h.start || p == h.end
  {
    forall i | 0 <= i < |headings| ensures C.Spans(headings)[i] == Span(headings[i].start, headings[i].end) {
    }
    if s :| s in C.Spans(headings) && (p == s.start || p == s.end) {
      var i :| 0 <= i < |headings| && C.Spans(headings)[i] == s;
      assert headings[i] in headings;
    }
    if h :| h in headings && (p == h.start || p == h.end) {
      var i :| 0 <= i < |headings| && headings[i] == h;
      assert C.Spans(headings)[i] in C.Spans(headings);
    }
  }

  /* ---- levels ---- */

  /** A title has the level of its number signs; a bold title stands below all of those. */
  lemma LevelIsRead(line: string, n: nat)
    ensures A.LevelOf(line) == Some(n) <==>
              || (exists indent: nat :: N.AtxLine(line, indent, n))
              || (&& n == 7 && (forall indent: nat, m: nat :: !N.AtxLine(line, indent, m))
                  && exists pad, mark, inner, colon, tail :: N.BoldLine(line, pad, mark, inner, colon, tail))
  {
    hide MarkdownLines.AtxLevel, MarkdownLines.IsBold, N.AtxLine, N.BoldLine;
    N.AtxIsRead(line, n);
    if MarkdownLines.AtxLevel(line).Some? {
      N.AtxIsRead(line, MarkdownLines.AtxLevel(line).value);
    }
    forall indent: nat, m: nat | N.AtxLine(line, indent, m) ensures MarkdownLines.AtxLevel(line) == Some(m) {
      N.AtxIsRead(line, m);
    }
    BoldIsExactly(line);
  }

  lemma BoldIsExactly(line: string)
    ensures MarkdownLines.IsBold(line) <==>
              exists pad, mark, inner, colon, tail :: N.BoldLine(line, pad, mark, inner, colon, tail)
  {
    hide MarkdownLines.IsBold, N.BoldLine;
    if MarkdownLines.IsBold(line) {
      var pad, mark, inner, colon, tail := N.BoldIsWritten(line);
    }
    forall pad, mark, inner, colon, tail | N.BoldLine(line, pad, mark, inner, colon, tail) ensures MarkdownLines.IsBold(line) {
      N.BoldIsRead(line, pad, mark, inner, colon, tail);
    }
  }
}
