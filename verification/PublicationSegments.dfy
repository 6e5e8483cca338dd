/**
 Dividing an answer at its block structure, as atomic_publication.py does: titles, code blocks and
 paragraph gaps divide it, list items are kept in one piece.
 */
module PublicationSegments {
  import opened Basics
  import opened MarkdownLines

  /** An assessed claim of the answer, by its number. */
  datatype Claim = Claim(id: nat, start: nat, end: nat)

  /** What the grouping is told besides the answer; `uncite` removes citations from a piece of text. */
  datatype Input = Input(answer: string, claims: seq<Claim>, headings: seq<Span>,
                         protected: seq<Span>, formulas: seq<Span>, uncite: string -> string)
  {
    ghost predicate Valid()
    {
      && Within(headings, |answer|) && Within(protected, |answer|) && Within(formulas, |answer|)
      && forall c | c in claims :: c.start <= c.end <= |answer|
    }
  }

  function Text(answer: string, s: Span): string
    requires s.start <= s.end <= |answer|
  {
    answer[s.start..s.end]
  }

  /* ---- where the answer may be divided ---- */

  function Lines(input: Input): (lines: seq<Line>)
    ensures forall line | line in lines :: line.start <= line.end <= line.next <= |input.answer|
  {
    LinesFrom(input.answer, 0)
  }

  /** The protected spans with the fenced blocks. */
  function Guarded(input: Input): seq<Span>
  {
    input.protected + Fences(input.answer, Lines(input), input.protected, None)
  }

  predicate TitleLine(input: Input, guarded: seq<Span>, line: Line)
    requires line.start <= line.end <= |input.answer|
  {
    !Inside(guarded, line.start) && IsTitle(input.answer[line.start..line.end])
  }

  function Titles(input: Input, guarded: seq<Span>): set<Span>
  {
    set line | line in Lines(input) && TitleLine(input, guarded, line) :: Span(line.start, line.end)
  }

  function HeadingSpans(input: Input, guarded: seq<Span>): set<Span>
  {
    (set h | h in input.headings) + Titles(input, guarded)
  }

  function LineStart(text: string, i: nat): (r: nat)
    requires i <= |text|
    ensures r <= i
  {
    if i == 0 || text[i - 1] == '\n' then i else LineStart(text, i - 1)
  }

  /** A guarded span that is a block of code on lines of its own. */
  predicate CodeBlock(answer: string, s: Span)
    requires s.start <= s.end <= |answer|
  {
    && Blank(answer[LineStart(answer, s.start)..s.start])
    && ("```" <= Text(answer, s) || "~~~" <= Text(answer, s))
  }

  function Edges(spans: set<Span>): set<nat>
  {
    (set s | s in spans :: s.start) + (set s | s in spans :: s.end)
  }

  /** The guarded spans that are blocks of code on lines of their own. */
  function CodeBlocks(answer: string, guarded: seq<Span>): set<Span>
    requires Within(guarded, |answer|)
  {
    set s | s in guarded && CodeBlock(answer, s)
  }

  /** The paragraph gaps outside guarded spans. */
  function OpenGaps(answer: string, guarded: seq<Span>): set<Span>
  {
    set g | g in Gaps(answer, 0) && !Inside(guarded, g.start) && !Inside(guarded, g.end)
  }

  /** Paragraph gaps, titles and code blocks divide the answer. */
  function Divisions(input: Input, guarded: seq<Span>): set<nat>
    requires Within(guarded, |input.answer|)
  {
    hide Titles, CodeBlocks, OpenGaps, Edges, Lines, Within;
    var ends: set<nat> := {0, |input.answer|};
    ends + Edges(Titles(input, guarded)) + Edges(CodeBlocks(input.answer, guarded))
    + Edges(OpenGaps(input.answer, guarded))
  }

  /* ---- list items ---- */

  datatype Item = Item(start: nat, indent: nat)

  /** Whether the line ends the open item: it is not indented and continues no paragraph of the item. */
  predicate EndsItem(text: string, heading: bool, item: Item, blank: bool)
  {
    RunOf(text, 0, ' ') <= item.indent && (blank || heading || OpensBlock(text))
  }

  /** The spans of the top-level list items with everything that continues them. */
  function Items(answer: string, lines: seq<Line>, guarded: seq<Span>, headings: set<Span>,
                 item: Option<Item>, blank: bool): seq<Span>
    requires forall line | line in lines :: line.start <= line.end <= |answer|
    decreases |lines|
  {
    if lines == [] then
      if item.Some? then [Span(item.value.start, |answer|)] else []
    else
      var line, rest := lines[0], lines[1..];
      var text := answer[line.start..line.end];
      var marker := ListMarker(text);
      if Inside(guarded, line.start) then Items(answer, rest, guarded, headings, item, blank)
      else if marker.Some? then
        if item.None? then Items(answer, rest, guarded, headings, Some(Item(line.start, marker.value)), false)
        else if marker.value <= item.value.indent then
          [Span(item.value.start, line.start)]
          + Items(answer, rest, guarded, headings, Some(Item(line.start, marker.value)), false)
        else Items(answer, rest, guarded, headings, item, false)
      else if Blank(text) then Items(answer, rest, guarded, headings, item, true)
      else if item.None? then Items(answer, rest, guarded, headings, item, blank)
      else if EndsItem(text, Span(line.start, line.end) in headings, item.value, blank) then
        [Span(item.value.start, line.start)] + Items(answer, rest, guarded, headings, None, false)
      else Items(answer, rest, guarded, headings, item, false)
  }

  method FindItems(answer: string, lines: seq<Line>, guarded: seq<Span>, headings: set<Span>)
    returns (found: seq<Span>)
    requires forall line | line in lines :: line.start <= line.end <= |answer|
    ensures found == Items(answer, lines, guarded, headings, None, false)
  {
    hide ListMarker, Inside, Blank, EndsItem, RunOf, LinesFrom;
    found := [];
    var item: Option<Item> := None;
    var blank := false;
    for k := 0 to |lines|
      invariant Items(answer, lines, guarded, headings, None, false)
             == found + Items(answer, lines[k..], guarded, headings, item, blank)
    {
      var line := lines[k];
      assert lines[k..] == [line] + lines[k + 1..];
      if Inside(guarded, line.start) {
        continue;
      }
      var text := answer[line.start..line.end];
      var marker := ListMarker(text);
      if marker.Some? {
        if item.None? || marker.value <= item.value.indent {
          if item.Some? {
            found := found + [Span(item.value.start, line.start)];
          }
          item := Some(Item(line.start, marker.value));
        }
        blank := false;
      } else if Blank(text) {
        blank := true;
      } else if item.Some? {
        if EndsItem(text, Span(line.start, line.end) in headings, item.value, blank) {
          found := found + [Span(item.value.start, line.start)];
          item := None;
        }
        blank := false;
      }
    }
    assert lines[|lines|..] == [];
    if item.Some? {
      found := found + [Span(item.value.start, |answer|)];
    }
  }

  /** One item after another: its inner divisions go, its ends stay. */
  function Absorb(points: set<nat>, items: seq<Span>): set<nat>
    decreases |items|
  {
    if items == [] then points else
    var x := items[0];
    Absorb((set p | p in points && !(x.start < p < x.end)) + {x.start, x.end}, items[1..])
  }

  function Cuts(input: Input): set<nat>
    requires input.Valid()
  {
    var guarded := Guarded(input);
    GuardedIsWithin(input);
    Absorb(Divisions(input, guarded),
           Items(input.answer, Lines(input), guarded, HeadingSpans(input, guarded), None, false))
  }

  lemma GuardedIsWithin(input: Input)
    requires input.Valid()
    ensures Within(Guarded(input), |input.answer|)
  {
    LinesAreTiled(input.answer, 0);
    FencesAreWithin(input.answer, Lines(input), input.protected, None, 0);
  }

  /* ---- trimmed segments ---- */

  /** The members of a set of positions, in order. */
  function InOrder(points: set<nat>, from: nat, limit: nat): (s: seq<nat>)
    ensures forall p :: p in s <==> from <= p <= limit && p in points
    ensures forall i, j | 0 <= i < j < |s| :: s[i] < s[j]
    decreases limit + 1 - from
  {
    if from > limit then [] else
    var rest := InOrder(points, from + 1, limit);
    assert forall j | 0 <= j < |rest| :: rest[j] in rest;
    if from in points then [from] + rest else rest
  }

  function TrimStart(text: string, s: nat, e: nat): (r: nat)
    requires s <= e <= |text|
    ensures s <= r <= e
    ensures forall p | s <= p < r :: IsSpace(text[p])
    ensures r < e ==> !IsSpace(text[r])
    decreases e - s
  {
    if s < e && IsSpace(text[s]) then TrimStart(text, s + 1, e) else s
  }

  function TrimEnd(text: string, s: nat, e: nat): (r: nat)
    requires s <= e <= |text|
    ensures s <= r <= e
    ensures forall p | r <= p < e :: IsSpace(text[p])
    ensures s < r ==> !IsSpace(text[r - 1])
  {
    if s < e && IsSpace(text[e - 1]) then TrimEnd(text, s, e - 1) else e
  }

  /** The text between consecutive cuts, trimmed, where there is any. */
  function Segments(answer: string, cuts: seq<nat>): seq<Span>
    requires Rising(answer, cuts)
  {
    if |cuts| < 2 then [] else
    SegmentBefore(answer, cuts[0], cuts[1]) + Segments(answer, cuts[1..])
  }

  predicate Rising(answer: string, cuts: seq<nat>)
  {
    && (forall i | 0 <= i < |cuts| :: cuts[i] <= |answer|)
    && (forall i, j | 0 <= i < j < |cuts| :: cuts[i] < cuts[j])
  }

  function SegmentBefore(answer: string, from: nat, to: nat): (r: seq<Span>)
    requires from <= to <= |answer|
    ensures |r| <= 1
    ensures r == [] ==> forall p | from <= p < to :: IsSpace(answer[p])
    ensures r != [] ==>
              && from <= r[0].start < r[0].end <= to && !IsSpace(answer[r[0].start]) && !IsSpace(answer[r[0].end - 1])
              && forall p | from <= p < to && !IsSpace(answer[p]) :: r[0].start <= p < r[0].end
  {
    var s := TrimStart(answer, from, to);
    if s < to then [Span(s, TrimEnd(answer, s, to))] else []
  }

  method TrimSegments(answer: string, cuts: seq<nat>) returns (spans: seq<Span>)
    requires Rising(answer, cuts)
    ensures spans == Segments(answer, cuts)
  {
    hide SegmentBefore;
    spans := [];
    var k := 1;
    while k < |cuts|
      invariant k >= 1
      invariant if cuts == [] then spans == [] else k <= |cuts|
      invariant cuts != [] ==> Segments(answer, cuts) == spans + Segments(answer, cuts[k - 1..])
    {
      assert cuts[k - 1..][0] == cuts[k - 1] && cuts[k - 1..][1] == cuts[k] && cuts[k - 1..][1..] == cuts[k..];
      spans := spans + SegmentBefore(answer, cuts[k - 1], cuts[k]);
      k := k + 1;
    }
    if cuts != [] {
      assert |cuts[|cuts| - 1..]| == 1;
    }
  }

  /** Disjoint spans in order, each with a character that is not blank at either end. */
  ghost predicate Trimmed(answer: string, spans: seq<Span>)
  {
    && (forall s | s in spans :: s.start < s.end <= |answer| && !IsSpace(answer[s.start]) && !IsSpace(answer[s.end - 1]))
    && (forall i, j | 0 <= i < j < |spans| :: spans[i].end <= spans[j].start)
  }

  lemma {:induction false} SegmentsAreTrimmed(answer: string, cuts: seq<nat>)
    requires Rising(answer, cuts)
    ensures Trimmed(answer, Segments(answer, cuts))
    ensures cuts != [] ==> forall s | s in Segments(answer, cuts) :: cuts[0] <= s.start
    decreases |cuts|
  {
    hide SegmentBefore;
    if |cuts| >= 2 {
      SegmentsAreTrimmed(answer, cuts[1..]);
      var first, rest := SegmentBefore(answer, cuts[0], cuts[1]), Segments(answer, cuts[1..]);
      if first == [] {
        assert first + rest == rest;
      } else {
        TrimmedBefore(answer, first[0], rest);
        assert first == [first[0]];
      }
    }
  }

  lemma TrimmedBefore(answer: string, s: Span, rest: seq<Span>)
    requires Trimmed(answer, rest) && (forall x | x in rest :: s.end <= x.start)
    requires s.start < s.end <= |answer| && !IsSpace(answer[s.start]) && !IsSpace(answer[s.end - 1])
    ensures Trimmed(answer, [s] + rest)
  {
    var all := [s] + rest;
    forall j | 1 <= j < |all| ensures s.end <= all[j].start {
      assert all[j] in rest;
    }
  }

  /** A stretch without cuts in it. */
  ghost predicate Uncut(cuts: seq<nat>, start: nat, end: nat)
  {
    forall c | c in cuts :: !(start < c < end)
  }

  /** Every character that is not blank lies in a segment. */
  lemma {:induction false} SegmentsCover(answer: string, cuts: seq<nat>, p: nat)
    requires Rising(answer, cuts)
    requires |cuts| >= 2 && cuts[0] <= p < cuts[|cuts| - 1] && !IsSpace(answer[p])
    ensures exists s | s in Segments(answer, cuts) :: s.start <= p < s.end
    decreases |cuts|
  {
    hide SegmentBefore;
    if p < cuts[1] {
      assert SegmentBefore(answer, cuts[0], cuts[1])[0] in Segments(answer, cuts);
    } else {
      SegmentsCover(answer, cuts[1..], p);
    }
  }

  /** Characters with no cut between them lie in the same segment. */
  lemma {:induction false} SegmentsAreWhole(answer: string, cuts: seq<nat>, s: Span, p: nat, q: nat)
    requires Rising(answer, cuts) && s in Segments(answer, cuts)
    requires cuts[0] <= p <= q < cuts[|cuts| - 1] && !IsSpace(answer[p]) && !IsSpace(answer[q])
    requires Uncut(cuts, p, q + 1)
    ensures s.start <= p < s.end <==> s.start <= q < s.end
    decreases |cuts|
  {
    hide SegmentBefore;
    assert cuts[1] in cuts;
    SegmentsAreTrimmed(answer, cuts[1..]);
    if p >= cuts[1] && s in Segments(answer, cuts[1..]) {
      assert forall c | c in cuts[1..] :: c in cuts;
      SegmentsAreWhole(answer, cuts[1..], s, p, q);
    }
  }

  /** Between two segments there is a cut. */
  lemma {:induction false} CutBetween(answer: string, cuts: seq<nat>, i: nat)
    requires Rising(answer, cuts) && i + 1 < |Segments(answer, cuts)|
    ensures exists c | c in cuts :: Segments(answer, cuts)[i].end <= c <= Segments(answer, cuts)[i + 1].start
    decreases |cuts|
  {
    hide SegmentBefore, Trimmed;
    var first, rest := SegmentBefore(answer, cuts[0], cuts[1]), Segments(answer, cuts[1..]);
    SegmentsAreTrimmed(answer, cuts[1..]);
    if i >= |first| {
      var j := i - |first|;
      CutBetween(answer, cuts[1..], j);
      var c :| c in cuts[1..] && rest[j].end <= c <= rest[j + 1].start;
      assert c in cuts;
      assert Segments(answer, cuts)[i] == rest[j] && Segments(answer, cuts)[i + 1] == rest[j + 1];
    } else {
      assert rest[0] in rest;
      assert cuts[1] in cuts;
    }
  }
}
