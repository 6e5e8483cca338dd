/**
 An answer that repeats itself when it is published: two titles, one under the other, of which the
 first is indented.
 */
module RepeatedTitle {
  import opened Basics
  import opened MarkdownLines
  import opened AnswerStructure
  import opened AnswerClaims
  import opened Publication
  import opened PublicationSoundness
  import opened PublishedTitles
  import T = TitleCuts
  import S = PublicationSegments
  import U = PublicationUnits
  import P = UnitProperties

  const FIRST := "  **A [E1]**"
  const SECOND := "**B [E1]**"
  const ANSWER := "  **A [E1]**\n**B [E1]**"

  const LINES := [Line(0, 12, 13), Line(13, 23, 23)]
  const CITATIONS := [Span(6, 10), Span(17, 21)]
  const TITLES := [Heading(0, 12, 7, None), Heading(13, 23, 7, Some(0))]
  const CLAIMS := [Piece(0, 12, None), Piece(13, 23, Some(0))]

  /** What `_answer_structure` finds in the answer: two claims, the second under the first. */
  const TWO := Structure(TITLES, CLAIMS, [[], [0]])

  /** Each title is supported by its source and matches the question. */
  const CHECKS := [
    Check(ClaimCheck, JudgeSupported, Some(0), Some(Span(0, 12)), FIRST, []),
    Check(RelevanceCheck, Matched, Some(0), Some(Span(0, 12)), FIRST, []),
    Check(ClaimCheck, JudgeSupported, Some(1), Some(Span(13, 23)), SECOND, [0]),
    Check(RelevanceCheck, Matched, Some(1), Some(Span(13, 23)), SECOND, [0])
  ]

  function DraftOf(uncite: string -> string, word: char -> bool): Draft
  {
    Draft(ANSWER, CITATIONS, uncite, word)
  }

  function ReportOf(d: Draft, cites: string -> bool, mentions: (string, string) -> bool): Report
  {
    Report(d, [], CHECKS, false, cites, mentions)
  }

  /* ---- the structure ---- */

  lemma {:induction false} BreakAt(text: string, i: nat, j: nat)
    requires i <= j <= |text| && (forall k | i <= k < j :: !IsBreak(text[k])) && (j < |text| ==> IsBreak(text[j]))
    ensures BreakFrom(text, i) == j
    decreases j - i
  {
    if i < j {
      BreakAt(text, i + 1, j);
    }
  }

  lemma TwoLines()
    ensures LinesFrom(ANSWER, 0) == LINES
  {
    BreakAt(ANSWER, 0, 12);
    BreakAt(ANSWER, 13, 23);
    assert LineAt(ANSWER, 0) == LINES[0] && LineAt(ANSWER, 13) == LINES[1];
    assert LinesFrom(ANSWER, 23) == [];
    assert LinesFrom(ANSWER, 13) == [LINES[1]];
  }

  lemma Texts()
    ensures |ANSWER| == 23 && ANSWER[0..12] == FIRST && ANSWER[13..23] == SECOND
  {
  }

  lemma FirstIsBold()
    ensures IsBold(FIRST) && AtxLevel(FIRST).None? && FenceAt(FIRST).None?
  {
    assert RunOf(FIRST, 2, '#') == 0 && RunOf(FIRST, 2, '`') == 0 && RunOf(FIRST, 2, '~') == 0 && RunOf(FIRST, 0, ' ') == 2;
    assert SkipPad(FIRST, 0) == 2 && DropPad(FIRST, 12) == 12;
    assert FIRST[2..4] == "**" && FIRST[10..12] == "**";
  }

  lemma SecondIsBold()
    ensures IsBold(SECOND) && AtxLevel(SECOND).None? && FenceAt(SECOND).None?
  {
    assert RunOf(SECOND, 0, ' ') == 0 && RunOf(SECOND, 0, '#') == 0 && RunOf(SECOND, 0, '`') == 0 && RunOf(SECOND, 0, '~') == 0;
    assert SkipPad(SECOND, 0) == 0 && DropPad(SECOND, 10) == 10;
    assert SECOND[0..2] == "**" && SECOND[8..10] == "**";
  }

  lemma NoCode(d: Draft)
    requires d.answer == ANSWER
    ensures Code(d) == []
  {
    hide FenceAt, LinesFrom;
    TwoLines();
    Texts();
    FirstIsBold();
    SecondIsBold();
    assert LINES[1..] == [LINES[1]];
    assert Fences(ANSWER, [LINES[1]], d.protected, None) == [];
  }

  const NO_TITLE := Outline([], [])
  const ONE_TITLE := Outline([Heading(0, 12, 7, None)], [0])

  lemma AddFirst()
    ensures |ANSWER| == 23 && AddLine(ANSWER, CITATIONS, Line(0, 12, 13), NO_TITLE) == ONE_TITLE
  {
    hide AtxLevel, IsBold;
    Texts();
    FirstIsBold();
  }

  lemma AddSecond()
    ensures |ANSWER| == 23 && AddLine(ANSWER, CITATIONS, Line(13, 23, 23), ONE_TITLE).headings == TITLES
  {
    hide AtxLevel, IsBold;
    Texts();
    SecondIsBold();
    assert Kept(ONE_TITLE.headings, ONE_TITLE.stack, 7, 1) == 0;
    assert ANSWER[12..13] == "\n" && Blank("\n");
  }

  lemma OutlineOfTwo(answer: string, protected: seq<Span>, x: Line, y: Line, o: Outline)
    requires x.start <= x.end <= |answer| && y.start <= y.end <= |answer| && StackFits(o)
    ensures OutlineFrom(answer, protected, [x, y], o) == AddLine(answer, protected, y, AddLine(answer, protected, x, o))
  {
    hide AddLine;
    var next := AddLine(answer, protected, x, o);
    assert [x, y][1..] == [y] && [y][1..] == [];
    assert OutlineFrom(answer, protected, [y], next)
        == OutlineFrom(answer, protected, [], AddLine(answer, protected, y, next));
  }

  lemma TwoTitles(d: Draft)
    requires d.answer == ANSWER && d.protected == CITATIONS
    ensures Headings(d) == TITLES
  {
    hide LinesFrom, Code, AddLine, OutlineFrom;
    NoCode(d);
    TwoLines();
    assert CITATIONS + Code(d) == CITATIONS;
    AddFirst();
    AddSecond();
    OutlineOfTwo(ANSWER, CITATIONS, Line(0, 12, 13), Line(13, 23, 23), NO_TITLE);
  }

  /** Every visible character of the answer stands in a title, so there is no body text. */
  lemma NoBody(d: Draft)
    requires d.answer == ANSWER && d.protected == CITATIONS
    ensures Body(d, DivisionList(d)) == []
  {
    hide Headings, Body, DivisionList;
    TwoTitles(d);
    var body := Body(d, DivisionList(d));
    if body != [] {
      var x := body[0];
      assert x in body;
      var p := VisibleIn(d, x);
      if p < 12 {
        T.BodyMissesHeadings(d, x, TITLES[0], p);
      } else {
        T.BodyMissesHeadings(d, x, TITLES[1], p);
      }
    }
  }

  lemma VisibleIn(d: Draft, x: Piece) returns (p: nat)
    requires d.answer == ANSWER && x in Body(d, DivisionList(d))
    ensures x.start <= p < x.end && p < 23 && p != 12
  {
    hide Body, DivisionList, IsSpace;
    p := BodyStartsVisibly(d, DivisionList(d), x);
    Texts();
    Spaces(12);
  }

  lemma {:induction false} BodyStartsVisibly(d: Draft, cuts: seq<nat>, x: Piece) returns (p: nat)
    requires S.Rising(d.answer, cuts) && x in Body(d, cuts)
    ensures p == x.start < x.end <= |d.answer| && !IsSpace(d.answer[p])
    decreases |cuts|
  {
    hide Headings, IsBody;
    p := x.start;
    if x !in BodyBetween(d, cuts[0], cuts[1]) {
      p := BodyStartsVisibly(d, cuts[1..], x);
    }
  }

  lemma TwoPieces(d: Draft)
    requires d.answer == ANSWER && d.protected == CITATIONS
    ensures Backward(Headings(d)) && PiecesOf(d) == CLAIMS
  {
    hide Headings, Body, DivisionList;
    TwoTitles(d);
    NoBody(d);
    NoCarriers();
    assert Orphans(TITLES, {}, 2) == [];
    assert Orphans(TITLES, {}, 1) == [CLAIMS[1]];
    assert Orphans(TITLES, {}, 0) == CLAIMS;
    assert [] + CLAIMS == CLAIMS;
    SortedAlready();
  }

  lemma NoCarriers()
    ensures Backward(TITLES) && Carriers(TITLES, []) == {}
  {
  }

  lemma SortedAlready()
    ensures SortByStart(CLAIMS) == CLAIMS
  {
    assert CLAIMS[1..] == [CLAIMS[1]] && CLAIMS[1..][1..] == [];
    assert SortByStart([CLAIMS[1]]) == [CLAIMS[1]];
  }

  lemma TwoIsValid()
    ensures TWO.Valid(ANSWER)
  {
    Texts();
    assert ANSWER[12..13] == "\n" && Blank("\n");
    assert RightParent(ANSWER, TITLES, 0) && RightParent(ANSWER, TITLES, 1);
    assert Backward(TITLES);
    assert Chain(TITLES, None) == [];
    assert Chain(TITLES, Some(0)) == [0];
  }

  /** The structure is what the draft is made of. */
  lemma TwoDescribes(d: Draft)
    requires d.answer == ANSWER && d.protected == CITATIONS
    ensures TWO.Valid(d.answer) && Describes(TWO, d)
  {
    hide Headings, Body, DivisionList, PiecesOf, Assessed, StandsUnder, Carries, Orphan, RightParent, Chain;
    TwoIsValid();
    TwoTitles(d);
    NoBody(d);
    TwoPieces(d);
    BodyIsExact(d, DivisionList(d));
    BothAreOrphans();
  }

  lemma BothAreOrphans()
    ensures Backward(TITLES)
    ensures forall c | c in CLAIMS :: Orphan(TITLES, [], c)
    ensures forall j | 0 <= j < |TITLES| :: HeadingPiece(TITLES[j]) in CLAIMS
  {
    var none: seq<Piece> := [];
    forall c | c in CLAIMS ensures Orphan(TITLES, none, c) {
      if c == CLAIMS[0] {
        assert !Carries(TITLES, none, 0) && c == HeadingPiece(TITLES[0]);
      } else {
        assert !Carries(TITLES, none, 1) && c == HeadingPiece(TITLES[1]);
      }
    }
    assert CLAIMS[0] in CLAIMS && CLAIMS[1] in CLAIMS;
  }

  /* ---- what is published ---- */

  lemma ReportIsValid(d: Draft, cites: string -> bool, mentions: (string, string) -> bool)
    requires d.answer == ANSWER && d.protected == CITATIONS
    ensures ReportOf(d, cites, mentions).Valid() && SameFormulas(ReportOf(d, cites, mentions))
  {
    Texts();
  }

  /** The check itself, if it is about the claim. */
  function Taken(i: nat, kind: Kind, check: Check): seq<Check>
    requires i < 2 && TWO.claims[i].start <= TWO.claims[i].end <= |ANSWER|
  {
    if About(ANSWER, TWO, i, kind, check) then [check] else []
  }

  lemma MatchingHead(i: nat, kind: Kind, head: Check, rest: seq<Check>)
    requires i < 2 && TWO.claims[i].start <= TWO.claims[i].end <= |ANSWER|
    ensures Matching(ANSWER, TWO, i, kind, [head] + rest) == Taken(i, kind, head) + Matching(ANSWER, TWO, i, kind, rest)
  {
    hide About;
    assert ([head] + rest)[1..] == rest;
  }

  lemma MatchingNone(i: nat, kind: Kind)
    requires i < 2 && TWO.claims[i].start <= TWO.claims[i].end <= |ANSWER|
    ensures Matching(ANSWER, TWO, i, kind, []) == []
  {
  }

  lemma MatchingFour(i: nat, kind: Kind, a: Check, b: Check, c: Check, d: Check)
    requires i < 2 && i < |TWO.claims| && TWO.claims[i].start <= TWO.claims[i].end <= |ANSWER|
    ensures Matching(ANSWER, TWO, i, kind, [a, b, c, d])
         == Taken(i, kind, a) + (Taken(i, kind, b) + (Taken(i, kind, c) + Taken(i, kind, d)))
  {
    hide *;
    MatchingNone(i, kind);
    MatchingHead(i, kind, a, [b, c, d]);
    MatchingHead(i, kind, b, [c, d]);
    MatchingHead(i, kind, c, [d]);
    MatchingHead(i, kind, d, []);
    assert [a] + [b, c, d] == [a, b, c, d] && [b] + [c, d] == [b, c, d] && [c] + [d] == [c, d] && [d] + [] == [d];
  }

  lemma OneIsAbout(i: nat, kind: Kind, k: nat)
    requires i < 2 && (kind == ClaimCheck || kind == RelevanceCheck) && k < 4
    ensures TWO.claims[i].start <= TWO.claims[i].end <= |ANSWER|
    ensures About(ANSWER, TWO, i, kind, CHECKS[k]) <==> k == 2 * i + if kind == ClaimCheck then 0 else 1
  {
    Texts();
  }

  lemma FoundOne(i: nat, kind: Kind)
    requires i < 2 && (kind == ClaimCheck || kind == RelevanceCheck)
    ensures TWO.claims[i].start <= TWO.claims[i].end <= |ANSWER|
    ensures Matching(ANSWER, TWO, i, kind, CHECKS) == [CHECKS[2 * i + if kind == ClaimCheck then 0 else 1]]
  {
    OneIsAbout(i, kind, 0);
    OneIsAbout(i, kind, 1);
    OneIsAbout(i, kind, 2);
    OneIsAbout(i, kind, 3);
    hide About, Matching;
    MatchingFour(i, kind, CHECKS[0], CHECKS[1], CHECKS[2], CHECKS[3]);
  }

  lemma Confirm(i: nat, kind: Kind, status: Status)
    requires i < 2 && ((kind == ClaimCheck && status == JudgeSupported) || (kind == RelevanceCheck && status == Matched))
    ensures TWO.claims[i].start <= TWO.claims[i].end <= |ANSWER|
    ensures Confirmed(ANSWER, TWO, i, kind, status, CHECKS)
  {
    FoundOne(i, kind);
    hide Matching;
  }

  lemma NothingDamning()
    ensures forall c | c in CHECKS :: !Damning(c) && c.kind != CitationCheck
  {
  }

  lemma BothQualify(r: Report)
    requires r.Valid() && r.draft.answer == ANSWER && r.checks == CHECKS && TWO.Valid(ANSWER) && r.cites(FIRST) && r.cites(SECOND)
    ensures QualifiedClaims(r, TWO) == {0, 1}
  {
    forall i: nat | i < 2 ensures i in QualifiedClaims(r, TWO) {
      SpansAreWithin(ANSWER, TWO, i);
      Confirm(i, ClaimCheck, JudgeSupported);
      Confirm(i, RelevanceCheck, Matched);
      NothingDamning();
      Texts();
      hide Confirmed, Damning, SpansOf, RightParent, Chain, JoinedText;
      assert Qualifies(r, TWO, i);
    }
  }

  const BOTH := [S.Claim(0, 0, 12), S.Claim(1, 13, 23)]

  lemma Spaces(p: nat)
    requires p < 23
    ensures p in {0, 1, 12} ==> IsSpace(ANSWER[p])
    ensures p in {2, 13} ==> !IsSpace(ANSWER[p])
  {
  }

  lemma BlankIsScaffold()
    ensures U.Scaffold("\n")
  {
    BreakAt("\n", 0, 0);
  }

  lemma {:induction false} MembersOf(start: nat, end: nat)
    ensures U.Members(BOTH, start, end)
         == (if U.Overlaps(BOTH[0], start, end) then [BOTH[0]] else []) + (if U.Overlaps(BOTH[1], start, end) then [BOTH[1]] else [])
  {
    assert BOTH[1..] == [BOTH[1]] && BOTH[1..][1..] == [];
    assert U.Members([BOTH[1]], start, end) == if U.Overlaps(BOTH[1], start, end) then [BOTH[1]] else [];
  }

  lemma OneClaimed(c: S.Claim, start: nat, end: nat)
    requires start < end <= |ANSWER| && c.start <= start && c.start <= |ANSWER| && end <= c.end
    ensures U.Complete(ANSWER, [c], start, end)
  {
    assert [c][1..] == [];
  }

  lemma BothClaimed(start: nat, end: nat)
    requires start < 12 && 13 < end <= 23
    ensures |ANSWER| == 23 && U.Complete(ANSWER, BOTH, start, end)
  {
    hide U.Scaffold;
    Texts();
    BlankIsScaffold();
    assert ANSWER[12..13] == "\n";
    assert BOTH[1..] == [BOTH[1]] && [BOTH[1]][1..] == [];
    assert U.Complete(ANSWER, [], 23, end);
    assert U.Complete(ANSWER, [BOTH[1]], 12, end);
  }

  /** Whatever trimmed stretch of the answer a unit is, its claims are all there is in it. */
  lemma AllClaimed(start: nat, end: nat)
    requires start < end <= |ANSWER| && !IsSpace(ANSWER[start]) && !IsSpace(ANSWER[end - 1])
    ensures U.Members(BOTH, start, end) != [] && U.Complete(ANSWER, U.Members(BOTH, start, end), start, end)
  {
    hide U.Scaffold, IsSpace, U.Complete, U.Members;
    Texts();
    MembersOf(start, end);
    Spaces(12);
    if end <= 13 {
      OneClaimed(BOTH[0], start, end);
      assert [BOTH[0]] + [] == [BOTH[0]];
    } else if start >= 12 {
      OneClaimed(BOTH[1], start, end);
      assert [] + [BOTH[1]] == [BOTH[1]];
    } else {
      BothClaimed(start, end);
      assert [BOTH[0]] + [BOTH[1]] == BOTH;
    }
  }

  lemma GroupingOf(r: Report)
    requires r.Valid() && r.draft.answer == ANSWER && TWO.Valid(ANSWER)
    ensures Grouping(r, TWO).answer == ANSWER && Grouping(r, TWO).claims == BOTH
  {
    hide RightParent, Chain, Catalog, FormulaSpans;
    assert ClaimsOf(TWO) == BOTH;
  }

  /** Every unit is published: all there is in it are claims, and they qualify. */
  lemma UnitIsPublished(r: Report, k: nat)
    requires r.Valid() && r.draft.answer == ANSWER && TWO.Valid(ANSWER) && QualifiedClaims(r, TWO) == {0, 1}
    requires k < |U.UnitSpans(Grouping(r, TWO))|
    ensures U.Units(Grouping(r, TWO))[k] in PublishedOf(r, TWO)
  {
    hide U.UnitSpans, U.Complete, Grouping, QualifiedClaims, U.Members, U.Ids, RightParent, Chain, IsSpace;
    var input := Grouping(r, TWO);
    GroupingOf(r);
    var s := U.UnitSpans(input)[k];
    P.UnitsAreTrimmed(input);
    TrimmedEnds(ANSWER, U.UnitSpans(input), k);
    hide S.Trimmed;
    AllClaimed(s.start, s.end);
    IdsAreTwo(s.start, s.end);
    assert Publishable(U.Units(input)[k], {0, 1});
  }

  /** A claim with a visible character is published. */
  lemma IsKept(r: Report, i: nat, p: nat)
    requires r.Valid() && r.draft.answer == ANSWER && TWO.Valid(ANSWER) && QualifiedClaims(r, TWO) == {0, 1}
    requires i < 2 && BOTH[i].start <= p < BOTH[i].end && P.Visible(ANSWER, p)
    ensures i in KeptClaims(PublishedOf(r, TWO))
  {
    hide U.UnitSpans, U.Complete, P.LinksOf, Grouping, QualifiedClaims, PublishedOf, RightParent, Chain, P.Visible, U.Home;
    var input := Grouping(r, TWO);
    GroupingOf(r);
    var n := P.PieceAt(input, p);
    var k := U.Home(P.LinksOf(input), n);
    UnitIsPublished(r, k);
    ClaimIsListed(U.UnitSpans(input)[k], i, p);
  }

  lemma ClaimIsListed(s: Span, i: nat, p: nat)
    requires i < 2 && BOTH[i].start <= p < BOTH[i].end && P.Holding(s, p)
    ensures i in U.Ids(U.Members(BOTH, s.start, s.end))
  {
    var members := U.Members(BOTH, s.start, s.end);
    assert BOTH[i] in members;
    P.MemberIsListed(members, BOTH[i]);
  }

  lemma IdsAreTwo(start: nat, end: nat)
    ensures forall id | id in U.Ids(U.Members(BOTH, start, end)) :: id in {0, 1}
    ensures |U.Ids(U.Members(BOTH, start, end))| == |U.Members(BOTH, start, end)|
  {
    var members := U.Members(BOTH, start, end);
    forall id | id in U.Ids(members) ensures id in {0, 1} {
      var j :| 0 <= j < |members| && U.Ids(members)[j] == id;
      assert members[j] in members;
      assert members[j].id == id;
    }
  }

  /**
   The answer is published whole, and its first title twice: for itself, without its blanks, and with
   them as the heading above the second.
   */
  lemma TitleIsShownTwice(uncite: string -> string, word: char -> bool, cites: string -> bool, mentions: (string, string) -> bool)
    requires cites(FIRST) && cites(SECOND)
    ensures var r := ReportOf(DraftOf(uncite, word), cites, mentions);
            && r.Valid() && SameFormulas(r) && TWO.Valid(r.draft.answer) && Describes(TWO, r.draft)
            && 0 in KeptClaims(PublishedOf(r, TWO)) && 1 in KeptClaims(PublishedOf(r, TWO))
            && Candidate(r, TWO, true).Release? && !ShownOnce(Shown(r, TWO))
  {
    hide Describes, QualifiedClaims, PublishedOf, KeptClaims, Shown, ShownOnce, SameFormulas, Candidate, RightParent, Chain;
    var d := DraftOf(uncite, word);
    var r := ReportOf(d, cites, mentions);
    ReportIsValid(d, cites, mentions);
    TwoDescribes(d);
    BothQualify(r);
    Texts();
    Spaces(2);
    Spaces(13);
    Spaces(0);
    IsKept(r, 0, 2);
    IsKept(r, 1, 13);
    BlankTitleIsShownTwice(r, TWO, 0, 1, 0);
    IsReleased(r, TWO, 0);
  }

  lemma IsReleased(r: Report, st: Structure, id: nat)
    requires r.Valid() && st.Valid(r.draft.answer) && id in KeptClaims(PublishedOf(r, st))
    ensures Candidate(r, st, true).Release?
  {
    hide RightParent, Chain, QualifiedClaims, Grouping, U.Units, Published, Render, Rendered, KeptClaims;
  }
}
