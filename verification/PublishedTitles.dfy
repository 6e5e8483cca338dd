/**
 When a published answer repeats itself: a title that is published for itself and again as the
 heading above another claim.
 */
module PublishedTitles {
  import opened Basics
  import opened MarkdownLines
  import opened AnswerStructure
  import opened AnswerClaims
  import opened Publication
  import opened PublicationSoundness
  import opened TitleCuts
  import S = PublicationSegments
  import U = PublicationUnits
  import P = UnitProperties

  /** The formulas of the report are among the protected spans of its draft, as both are found by one pattern. */
  ghost predicate SameFormulas(r: Report)
  {
    forall s | s in r.math :: s in r.draft.protected
  }

  /* ---- a title lies in one unit ---- */

  ghost predicate InLine(line: Line, p: nat)
  {
    line.start <= p < line.end
  }

  /** All the visible text of a title outside formulas lies in one unit. */
  lemma TitleIsWhole(input: S.Input, line: Line, p: nat, q: nat, k: nat)
    requires input.Valid() && line in S.Lines(input) && IsTitle(input.answer[line.start..line.end]) && Open(input.protected, line)
    requires InLine(line, p) && InLine(line, q) && P.Visible(input.answer, p) && P.Visible(input.answer, q)
    requires k < |U.UnitSpans(input)| && P.Holding(U.UnitSpans(input)[k], q)
    ensures P.Holding(U.UnitSpans(input)[k], p)
  {
    hide *;
    var i := P.PieceAt(input, q);
    P.UnitsPartition(input);
    P.PieceInUnit(input, i);
    PiecesAreSegments(input, i);
    VisibleInside(input.answer, p);
    VisibleInside(input.answer, q);
    U.CutListSpans(input);
    var low, high := if p < q then p else q, if p < q then q else p;
    forall c | c in U.CutList(input) ensures !(low < c < high + 1) {
      NoCutInTitle(input, line, c);
      LineUnfold(line, p, q, c);
    }
    UncutIs(U.CutList(input), low, high + 1);
    S.SegmentsAreWhole(input.answer, U.CutList(input), U.Pieces(input)[i], low, high);
    HoldingIs(U.Pieces(input)[i], p);
    HoldingIs(U.Pieces(input)[i], q);
    HoldingIs(U.UnitSpans(input)[k], p);
  }

  lemma PiecesAreSegments(input: S.Input, i: nat)
    requires input.Valid() && i < |U.Pieces(input)|
    ensures U.Pieces(input)[i] in S.Segments(input.answer, U.CutList(input))
  {
    hide U.CutList, S.Segments;
  }

  lemma VisibleInside(answer: string, p: nat)
    requires P.Visible(answer, p)
    ensures p < |answer| && !IsSpace(answer[p]) && answer != ""
  {
  }

  lemma LineUnfold(line: Line, p: nat, q: nat, c: nat)
    requires InLine(line, p) && InLine(line, q) && !Strictly(line, c)
    ensures !(p < c < q + 1) && !(q < c < p + 1)
  {
  }

  lemma UncutIs(cuts: seq<nat>, start: nat, end: nat)
    requires forall c | c in cuts :: !(start < c < end)
    ensures S.Uncut(cuts, start, end)
  {
  }

  lemma HoldingIs(s: Span, p: nat)
    ensures P.Holding(s, p) <==> s.start <= p < s.end
  {
  }

  /** A trimmed span that meets a title meets a visible character of it. */
  lemma MeetsVisible(answer: string, s: Span, line: Line, m: nat) returns (q: nat)
    requires s.start < s.end <= |answer| && !IsSpace(answer[s.start]) && !IsSpace(answer[s.end - 1])
    requires MarkOf(answer, line, m) && s.start < line.end && line.start < s.end
    ensures s.start <= q < s.end && InLine(line, q) && P.Visible(answer, q)
  {
    q := if line.start <= s.start then s.start else if s.end <= line.end then s.end - 1 else m;
  }

  lemma MarkIsVisible(answer: string, line: Line, m: nat)
    requires MarkOf(answer, line, m)
    ensures P.Visible(answer, m) && InLine(line, m) && TitleSign(answer[m]) && line.end <= |answer|
  {
  }

  /** A published unit that meets a heading holds the sign of the heading. */
  lemma UnitHoldsMark(r: Report, st: Structure, u: U.Unit, line: Line, m: nat)
    requires r.Valid() && st.Valid(r.draft.answer) && u in PublishedOf(r, st) && SameFormulas(r)
    requires line in DraftLines(r.draft) && IsTitle(r.draft.answer[line.start..line.end]) && Open(r.draft.protected, line)
    requires MarkOf(r.draft.answer, line, m) && Overlap(Span(u.start, u.end), Span(line.start, line.end))
    ensures u.start <= m < u.end
  {
    hide *;
    var input := Grouping(r, st);
    var k := PublishedSpan(r, st, u);
    P.UnitsAreTrimmed(input);
    TrimmedEnds(r.draft.answer, U.UnitSpans(input), k);
    OverlapIs(Span(u.start, u.end), Span(line.start, line.end));
    var q := MeetsVisible(r.draft.answer, Span(u.start, u.end), line, m);
    GroupingLines(r, st, line);
    MarkIsVisible(r.draft.answer, line, m);
    HoldingIs(Span(u.start, u.end), q);
    HoldingIs(Span(u.start, u.end), m);
    TitleIsWhole(input, line, m, q, k);
  }

  lemma TrimmedEnds(answer: string, spans: seq<Span>, k: nat)
    requires S.Trimmed(answer, spans) && k < |spans|
    ensures spans[k].start < spans[k].end <= |answer| && !IsSpace(answer[spans[k].start]) && !IsSpace(answer[spans[k].end - 1])
  {
  }

  lemma OverlapIs(a: Span, b: Span)
    ensures Overlap(a, b) <==> a.start < b.end && b.start < a.end
  {
  }

  lemma GroupingLines(r: Report, st: Structure, line: Line)
    requires r.Valid() && st.Valid(r.draft.answer) && SameFormulas(r)
    requires line in DraftLines(r.draft) && Open(r.draft.protected, line)
    ensures Grouping(r, st).Valid() && Grouping(r, st).answer == r.draft.answer
    ensures line in S.Lines(Grouping(r, st)) && Open(Grouping(r, st).protected, line)
  {
    hide RightParent, Chain, Catalog, FormulaSpans, LinesFrom;
    assert Grouping(r, st).protected == r.math;
  }

  /* ---- the title is a claim of that unit ---- */

  /** A sign of a title in a published unit lies in one of its claims, for it is no sign of a table rule. */
  lemma MarkIsClaimed(r: Report, st: Structure, u: U.Unit, m: nat) returns (id: nat)
    requires r.Valid() && st.Valid(r.draft.answer) && u in PublishedOf(r, st)
    requires u.start <= m < u.end && P.Visible(r.draft.answer, m) && TitleSign(r.draft.answer[m])
    ensures id in u.claimIds && id < |st.claims| && st.claims[id].start <= m < st.claims[id].end
  {
    hide U.Units, U.Complete, P.InScaffold, QualifiedClaims, Grouping, P.Visible, RuledIn;
    var input := Grouping(r, st);
    var k := PublishedUnit(r, st, u);
    P.FullyClaimedCovers(input, k, m);
    var members := U.Members(input.claims, u.start, u.end);
    if P.InScaffold(r.draft.answer, members, u.start, u.end, m) {
      ScaffoldIsRuled(r.draft.answer, members, u.start, u.end, m);
      RuleIsNoTitle(r.draft.answer, members, u.start, u.end, m);
    }
    var c :| c in members && c.id in u.claimIds && c.start <= m < c.end;
    ClaimIsPiece(r, st, c);
    id := c.id;
  }

  lemma RuleIsNoTitle(answer: string, members: seq<S.Claim>, start: nat, end: nat, m: nat)
    requires end <= |answer| && RuledIn(answer, members, start, end, m)
    ensures m < |answer| && !TitleSign(answer[m])
  {
    hide LinesFrom, BreakFrom, U.TableRule;
    var a, b :| start <= a <= m < b <= end && P.Between(members, start, end, a, b) && InRuleLine(answer[a..b], m - a);
    assert answer[a..b][m - a] == answer[m];
  }

  /** A claim that shares a character with a heading is that heading. */
  lemma ClaimAtHeading(st: Structure, d: Draft, id: nat, h: nat, m: nat)
    requires st.Valid(d.answer) && Describes(st, d) && id < |st.claims| && h < |st.headings|
    requires st.claims[id].start <= m < st.claims[id].end && st.headings[h].start <= m < st.headings[h].end
    ensures st.claims[id] == HeadingPiece(st.headings[h])
  {
    hide RightParent, Chain, Body, DivisionList, Carries, Headings, PiecesOf, ByStart;
    var c, body := st.claims[id], Body(d, DivisionList(d));
    assert c in st.claims && st.headings[h] in st.headings;
    if c in body {
      BodyMissesHeadings(d, c, st.headings[h], m);
    }
    var g :| 0 <= g < |st.headings| && !Carries(st.headings, body, g) && c == HeadingPiece(st.headings[g]);
    HeadingsInRow(st, d.answer, g, h);
  }

  lemma HeadingsInRow(st: Structure, answer: string, g: nat, h: nat)
    requires st.Valid(answer) && g < |st.headings| && h < |st.headings|
    ensures g == h || st.headings[g].end <= st.headings[h].start || st.headings[h].end <= st.headings[g].start
  {
    hide RightParent, Chain;
  }

  /** A published unit that meets a heading has that heading among its claims. */
  lemma MetHeadingIsClaim(r: Report, st: Structure, u: U.Unit, h: nat) returns (id: nat)
    requires r.Valid() && st.Valid(r.draft.answer) && SameFormulas(r) && Describes(st, r.draft)
    requires u in PublishedOf(r, st) && h < |st.headings| && Overlap(Span(u.start, u.end), HeadingSpan(st.headings[h]))
    ensures id in u.claimIds && id < |st.claims| && st.claims[id] == HeadingPiece(st.headings[h])
  {
    hide *;
    DescribedHeadings(st, r.draft, h);
    var line := HeadingIsLine(r.draft, st.headings[h]);
    LineIs(r.draft, st.headings[h], line);
    var m := LineMark(r.draft.answer, line);
    UnitHoldsMark(r, st, u, line, m);
    MarkIsVisible(r.draft.answer, line, m);
    InLineIs(line, m);
    id := MarkIsClaimed(r, st, u, m);
    ClaimAtHeading(st, r.draft, id, h, m);
  }

  lemma DescribedHeadings(st: Structure, d: Draft, h: nat)
    requires st.Valid(d.answer) && Describes(st, d) && h < |st.headings|
    ensures st.headings[h] in Headings(d)
  {
    hide RightParent, Chain, Body, DivisionList, Carries, PiecesOf, ByStart, Headings;
  }

  lemma LineIs(d: Draft, h: Heading, line: Line)
    requires LineOf(d.answer, d.protected + Code(d), h, line)
    ensures line.start <= line.end <= |d.answer| && IsTitle(d.answer[line.start..line.end])
    ensures HeadingSpan(h) == Span(line.start, line.end) && h.start == line.start && h.end == line.end
  {
    hide IsTitle, Covered;
  }

  lemma InLineIs(line: Line, m: nat)
    ensures InLine(line, m) <==> line.start <= m < line.end
  {
  }

  /* ---- exactly when a title is shown twice ---- */

  /** Claim `i` is heading `h`, which stands above a claim that is kept. */
  ghost predicate TitleAbove(st: Structure, kept: set<nat>, i: nat, h: nat)
  {
    && i < |st.claims| && h < |st.headings| && st.claims[i] == HeadingPiece(st.headings[h])
    && exists id | id in kept && id < |st.chains| :: h in st.chains[id]
  }

  /** Each published title above another published claim has a unit that is exactly the title. */
  ghost predicate TitlesStandAlone(r: Report, st: Structure)
    requires r.Valid() && st.Valid(r.draft.answer)
  {
    var published := PublishedOf(r, st);
    forall i: nat, h: nat, u | u in published && i in u.claimIds && TitleAbove(st, KeptClaims(published), i, h) ::
      Span(u.start, u.end) == HeadingSpan(st.headings[h])
  }

  lemma AloneIsApart(r: Report, st: Structure)
    requires r.Valid() && st.Valid(r.draft.answer) && SameFormulas(r) && Describes(st, r.draft) && TitlesStandAlone(r, st)
    ensures TitlesApart(r, st)
  {
    hide RightParent, Chain, PublishedOf, KeptClaims, Describes, SameFormulas, Overlap, HeadingPiece, HeadingSpan;
    var published := PublishedOf(r, st);
    forall u, id, h | u in published && id in KeptClaims(published) && id < |st.chains| && h in st.chains[id]
      ensures Span(u.start, u.end) == HeadingSpan(st.headings[h]) || !Overlap(Span(u.start, u.end), HeadingSpan(st.headings[h]))
    {
      if Overlap(Span(u.start, u.end), HeadingSpan(st.headings[h])) {
        var i := MetHeadingIsClaim(r, st, u, h);
        assert TitleAbove(st, KeptClaims(published), i, h);
      }
    }
  }

  lemma ApartIsAlone(r: Report, st: Structure)
    requires r.Valid() && st.Valid(r.draft.answer) && TitlesApart(r, st)
    ensures TitlesStandAlone(r, st)
  {
    hide RightParent, Chain, PublishedOf, KeptClaims, Overlap;
    var published := PublishedOf(r, st);
    forall i: nat, h: nat, u | u in published && i in u.claimIds && TitleAbove(st, KeptClaims(published), i, h)
      ensures Span(u.start, u.end) == HeadingSpan(st.headings[h])
    {
      ListedOverlaps(r, st, u, i);
    }
  }

  /**
   Exactly when no place of an answer is shown twice: every published title that stands above another
   published claim is a unit of its own, without blanks to trim and without anything joined to it.
   */
  lemma ShownOnceDecides(r: Report, st: Structure)
    requires r.Valid() && st.Valid(r.draft.answer) && SameFormulas(r) && Describes(st, r.draft)
    ensures ShownOnce(Shown(r, st)) <==> TitlesStandAlone(r, st)
  {
    hide *;
    ShownOnceIff(r, st);
    if TitlesStandAlone(r, st) {
      AloneIsApart(r, st);
    }
    if TitlesApart(r, st) {
      ApartIsAlone(r, st);
    }
  }
}
