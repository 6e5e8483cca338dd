/**
 Nothing unverified is published: where every visible character of a released body comes from.
 */
module PublicationSoundness {
  import opened Basics
  import opened MarkdownLines
  import opened SpanOrder
  import opened AnswerStructure
  import opened AnswerClaims
  import opened Publication
  import S = PublicationSegments
  import U = PublicationUnits
  import P = UnitProperties

  /* ---- table rules hold only signs ---- */

  predicate RuleSign(c: char)
  {
    c == '|' || c == ':' || c == '-'
  }

  ghost predicate OnlySigns(line: string, i: nat, j: nat)
    requires j <= |line|
  {
    forall k | i <= k < j :: RuleSign(line[k]) || IsPad(line[k])
  }

  lemma {:induction false} PadIsSigns(line: string, i: nat)
    requires i <= |line|
    ensures OnlySigns(line, i, SkipPad(line, i))
    decreases |line| - i
  {
    if i < |line| && IsPad(line[i]) {
      PadIsSigns(line, i + 1);
    }
  }

  lemma {:induction false} DashesAreSigns(line: string, i: nat)
    requires i <= |line|
    ensures OnlySigns(line, i, i + RunOf(line, i, '-'))
    decreases |line| - i
  {
    if i < |line| && line[i] == '-' {
      DashesAreSigns(line, i + 1);
    }
  }

  lemma CellIsSigns(line: string, i: nat)
    requires i <= |line| && U.RuleCell(line, i).Some?
    ensures OnlySigns(line, i, U.RuleCell(line, i).value)
  {
    var from := SkipPad(line, i);
    PadIsSigns(line, i);
    var dashes := if from < |line| && line[from] == ':' then from + 1 else from;
    DashesAreSigns(line, dashes);
    var after := dashes + RunOf(line, dashes, '-');
    PadIsSigns(line, if after < |line| && line[after] == ':' then after + 1 else after);
  }

  lemma {:induction false} TailIsSigns(line: string, i: nat)
    requires i <= |line| && U.RuleTail(line, i)
    ensures OnlySigns(line, i, |line|)
    decreases |line| - i
  {
    hide U.RuleCell;
    if i < |line| {
      PadIsSigns(line, i + 1);
      if SkipPad(line, i + 1) != |line| {
        CellIsSigns(line, i + 1);
        TailIsSigns(line, U.RuleCell(line, i + 1).value);
      }
    }
  }

  lemma RuleIsSigns(line: string)
    requires U.TableRule(line)
    ensures OnlySigns(line, 0, |line|)
  {
    hide U.RuleCell, U.RuleTail;
    var first := SkipPad(line, 0);
    PadIsSigns(line, 0);
    var from := if first < |line| && line[first] == '|' then first + 1 else first;
    CellIsSigns(line, from);
    TailIsSigns(line, U.RuleCell(line, from).value);
  }

  lemma BreaksAreSpace(text: string, i: nat, p: nat)
    requires i <= p < |text|
    ensures p < LineAt(text, i).next ==> p < BreakFrom(text, i) || IsSpace(text[p])
  {
  }

  /** A visible character lies in the text of some line. */
  lemma {:induction false} LineHolds(text: string, i: nat, p: nat) returns (line: Line)
    requires i <= p < |text| && !IsSpace(text[p])
    ensures line in LinesFrom(text, i) && line.start <= p < BreakFrom(text, line.start)
    decreases |text| - i
  {
    var first := LineAt(text, i);
    BreaksAreSpace(text, i, p);
    hide IsSpace, LineAt;
    if p < first.next {
      line := first;
    } else {
      line := LineHolds(text, first.next, p);
    }
  }

  /** The place is a dash, colon or bar in a line of the text that is a table rule as a whole. */
  ghost predicate InRuleLine(text: string, q: nat)
  {
    && q < |text| && RuleSign(text[q])
    && exists line | line in LinesFrom(text, 0) ::
         line.start <= q < BreakFrom(text, line.start) && U.TableRule(text[line.start..BreakFrom(text, line.start)])
  }

  /** The place lies in a rule line of the whole text between two claims, or between a claim and an end of the unit. */
  ghost predicate RuledIn(answer: string, members: seq<S.Claim>, start: nat, end: nat, p: nat)
    requires end <= |answer|
  {
    exists a, b :: start <= a <= p < b <= end && P.Between(members, start, end, a, b) && InRuleLine(answer[a..b], p - a)
  }

  /** A visible character of text that asserts nothing lies in a rule. */
  lemma SignInScaffold(text: string, q: nat)
    requires U.Scaffold(text) && q < |text| && !IsSpace(text[q])
    ensures InRuleLine(text, q)
  {
    hide U.TableRule, LinesFrom, IsSpace, RuleSign;
    var line := LineHolds(text, 0, q);
    var content := text[line.start..BreakFrom(text, line.start)];
    assert content[q - line.start] == text[q] && content[q - line.start] in content;
    RuleIsSigns(content);
    PadIsSpace(text[q]);
  }

  lemma PadIsSpace(c: char)
    ensures IsPad(c) ==> IsSpace(c)
  {
  }

  lemma ScaffoldIsRuled(answer: string, members: seq<S.Claim>, start: nat, end: nat, p: nat)
    requires end <= |answer| && P.InScaffold(answer, members, start, end, p) && P.Visible(answer, p)
    ensures RuledIn(answer, members, start, end, p)
  {
    hide U.Scaffold, IsSpace, InRuleLine;
    var a: nat, b: nat :|
      start <= a <= p < b <= end && P.Between(members, start, end, a, b) && U.Scaffold(answer[a..b]);
    SignInScaffold(answer[a..b], p - a);
  }

  /* ---- every published character ---- */

  /**
   One supported and one matching check of the claim and no other of their kinds; a citation; no
   damning check on the claim or the headings above it, and no invalid citation mentioned there.
   */
  ghost predicate Vouched(r: Report, st: Structure, id: nat)
    requires st.Valid(r.draft.answer) && id < |st.claims|
  {
    InBounds(st, r.draft.answer, id);
    SpansAreWithin(r.draft.answer, st, id);
    && OnlyCheck(r, st, id, ClaimCheck, JudgeSupported)
    && OnlyCheck(r, st, id, RelevanceCheck, Matched)
    && r.cites(TextOf(r.draft.answer, Span(st.claims[id].start, st.claims[id].end)))
    && (forall c, k | c in r.checks && c.span.Some? && Damning(c) && 0 <= k < |SpansOf(st, id)| ::
          !Overlap(c.span.value, SpansOf(st, id)[k]))
    && (forall c | c in r.checks && c.kind == CitationCheck && c.status == InvalidCitation ::
          !r.mentions(c.text, JoinedText(r.draft.answer, SpansOf(st, id))))
  }

  lemma InBounds(st: Structure, answer: string, id: nat)
    requires st.Valid(answer) && id < |st.claims|
    ensures st.claims[id].start <= st.claims[id].end <= |answer|
  {
    hide RightParent, Chain;
    assert st.claims[id] in st.claims;
  }

  ghost predicate OnlyCheck(r: Report, st: Structure, id: nat, kind: Kind, status: Status)
    requires id < |st.claims| && |st.chains| == |st.claims| && st.claims[id].start <= st.claims[id].end <= |r.draft.answer|
  {
    exists c | c in r.checks ::
      && About(r.draft.answer, st, id, kind, c) && c.status == status && c.contexts == st.chains[id]
      && multiset(r.checks)[c] == 1
      && forall d | d in r.checks && About(r.draft.answer, st, id, kind, d) :: d == c
  }

  lemma {:induction false} MatchingCounts(answer: string, st: Structure, i: nat, kind: Kind, checks: seq<Check>, c: Check)
    requires i < |st.claims| && st.claims[i].start <= st.claims[i].end <= |answer| && About(answer, st, i, kind, c)
    ensures multiset(Matching(answer, st, i, kind, checks))[c] == multiset(checks)[c]
  {
    hide About;
    if checks != [] {
      var head, rest := checks[0], Matching(answer, st, i, kind, checks[1..]);
      MatchingCounts(answer, st, i, kind, checks[1..], c);
      assert checks == [head] + checks[1..];
      assert Matching(answer, st, i, kind, checks) == if About(answer, st, i, kind, head) then [head] + rest else rest;
      hide Matching;
    }
  }

  lemma ConfirmedIsOnly(r: Report, st: Structure, id: nat, kind: Kind, status: Status)
    requires id < |st.claims| && |st.chains| == |st.claims| && st.claims[id].start <= st.claims[id].end <= |r.draft.answer|
    requires Confirmed(r.draft.answer, st, id, kind, status, r.checks)
    ensures OnlyCheck(r, st, id, kind, status)
  {
    hide About;
    var found := Matching(r.draft.answer, st, id, kind, r.checks);
    var c := found[0];
    assert found == [c] && c in found;
    MatchingCounts(r.draft.answer, st, id, kind, r.checks, c);
    forall d | d in r.checks && About(r.draft.answer, st, id, kind, d) ensures d == c {
      assert d in found;
    }
  }

  function PublishedOf(r: Report, st: Structure): set<U.Unit>
    requires r.Valid() && st.Valid(r.draft.answer)
  {
    Published(U.Units(Grouping(r, st)), QualifiedClaims(r, st))
  }

  /** Every claim of a published unit is vouched for. */
  lemma KeptAreVouched(r: Report, st: Structure, id: nat)
    requires r.Valid() && st.Valid(r.draft.answer) && id in KeptClaims(PublishedOf(r, st))
    ensures id < |st.claims| && Vouched(r, st, id)
  {
    hide RightParent, Chain, Qualifies, Vouched, U.Units, Grouping;
    assert id in QualifiedClaims(r, st);
    QualifiedIsVouched(r, st, id);
  }

  lemma QualifiedIsVouched(r: Report, st: Structure, id: nat)
    requires r.Valid() && st.Valid(r.draft.answer) && id in QualifiedClaims(r, st)
    ensures id < |st.claims| && Vouched(r, st, id)
  {
    hide RightParent, Chain, Confirmed, OnlyCheck, Damning, JoinedText;
    InBounds(st, r.draft.answer, id);
    SpansAreWithin(r.draft.answer, st, id);
    assert Qualifies(r, st, id);
    ConfirmedIsOnly(r, st, id, ClaimCheck, JudgeSupported);
    ConfirmedIsOnly(r, st, id, RelevanceCheck, Matched);
  }

  /** The place lies in a claim that is published and vouched for. */
  ghost predicate InClaim(r: Report, st: Structure, p: nat)
    requires r.Valid() && st.Valid(r.draft.answer)
  {
    exists id: nat | id in KeptClaims(PublishedOf(r, st)) && id < |st.claims| ::
      st.claims[id].start <= p < st.claims[id].end && Vouched(r, st, id)
  }

  /** The place lies in a heading above such a claim. */
  ghost predicate InTitle(r: Report, st: Structure, p: nat)
    requires r.Valid() && st.Valid(r.draft.answer)
  {
    exists id: nat, h: nat | id in KeptClaims(PublishedOf(r, st)) && id < |st.claims| && h < |st.headings| ::
      h in st.chains[id] && st.headings[h].start <= p < st.headings[h].end && Vouched(r, st, id)
  }

  /** The place lies in a table rule between the claims of a published unit. */
  ghost predicate InRule(r: Report, st: Structure, p: nat)
    requires r.Valid() && st.Valid(r.draft.answer)
  {
    exists u | u in PublishedOf(r, st) ::
      && u.start <= p < u.end <= |r.draft.answer|
      && RuledIn(r.draft.answer, U.Members(Grouping(r, st).claims, u.start, u.end), u.start, u.end, p)
  }

  lemma UnitIsJustified(r: Report, st: Structure, u: U.Unit, p: nat)
    requires r.Valid() && st.Valid(r.draft.answer)
    requires u in PublishedOf(r, st) && u.start <= p < u.end && P.Visible(r.draft.answer, p)
    ensures InClaim(r, st, p) || InRule(r, st, p)
  {
    hide U.UnitSpans, U.Complete, P.InScaffold, Vouched, QualifiedClaims, Grouping, P.Visible, RuledIn;
    var input := Grouping(r, st);
    var units := U.Units(input);
    var k :| 0 <= k < |units| && units[k] == u;
    P.FullyClaimedCovers(input, k, p);
    var members := U.Members(input.claims, u.start, u.end);
    if c :| c in members && c.id in u.claimIds && c.start <= p < c.end {
      ClaimIsPiece(r, st, c);
      assert c.id in KeptClaims(PublishedOf(r, st));
      KeptAreVouched(r, st, c.id);
    } else {
      ScaffoldIsRuled(r.draft.answer, members, u.start, u.end, p);
    }
  }

  lemma ClaimIsPiece(r: Report, st: Structure, c: S.Claim)
    requires r.Valid() && st.Valid(r.draft.answer) && c in Grouping(r, st).claims
    ensures c.id < |st.claims| && c == S.Claim(c.id, st.claims[c.id].start, st.claims[c.id].end)
  {
    hide RightParent, Chain, Catalog, FormulaSpans;
  }

  /** What is shown of the answer: the published units and the headings above their claims, in order. */
  function Shown(r: Report, st: Structure): (spans: seq<Span>)
    requires r.Valid() && st.Valid(r.draft.answer)
    ensures Within(spans, |r.draft.answer|)
    ensures forall s :: s in spans <==> s in Rendered(st, PublishedOf(r, st))
  {
    hide RightParent, Chain, QualifiedClaims, Grouping, U.Units, Rendered, Published;
    RenderedIsWithin(r, st, PublishedOf(r, st));
    Ordered(Rendered(st, PublishedOf(r, st)), 0, |r.draft.answer|)
  }

  ghost predicate Justified(r: Report, st: Structure, p: nat)
    requires r.Valid() && st.Valid(r.draft.answer)
  {
    InClaim(r, st, p) || InTitle(r, st, p) || InRule(r, st, p)
  }

  lemma RenderedIsJustified(r: Report, st: Structure, s: Span, p: nat)
    requires r.Valid() && st.Valid(r.draft.answer)
    requires s in Rendered(st, PublishedOf(r, st)) && s.start <= p < s.end && P.Visible(r.draft.answer, p)
    ensures Justified(r, st, p)
  {
    hide RightParent, Chain, InClaim, InRule, Vouched, PublishedOf, KeptClaims, P.Visible;
    var published := PublishedOf(r, st);
    if u: U.Unit :| u in published && s == Span(u.start, u.end) {
      UnitIsJustified(r, st, u, p);
    } else {
      var id, h :| id in KeptClaims(published) && id < |st.chains| && h in st.chains[id] && s == HeadingSpan(st.headings[h]);
      KeptAreVouched(r, st, id);
    }
  }

  /**
   The soundness of publication: a released body is the texts of the published units and of the
   headings above their claims, in the order of the answer, each in one stretch and with only white
   space between; and each visible place of them lies in a claim with exactly one supporting and one
   matching check, in a heading above such a claim, or in the rule line of a table.
   */
  lemma BodyIsJustified(r: Report, st: Structure, authorised: bool) returns (spans: seq<Span>, places: seq<nat>)
    requires r.Valid() && st.Valid(r.draft.answer) && Candidate(r, st, authorised).Release?
    ensures Sorted(spans) && Within(spans, |r.draft.answer|)
    ensures forall s :: s in spans <==> s in Rendered(st, PublishedOf(r, st))
    ensures Candidate(r, st, authorised).body == Render(r.draft.answer, spans, 0, None)
    ensures Laid(r.draft.answer, spans, Candidate(r, st, authorised).body, places)
    ensures forall s, p: nat | s in spans && s.start <= p < s.end && P.Visible(r.draft.answer, p) :: Justified(r, st, p)
  {
    hide *;
    spans := Shown(r, st);
    BodyIsRender(r, st, authorised);
    ShownAreSorted(r, st);
    places := RenderIsLaid(r.draft.answer, spans);
    forall s, p: nat | s in spans && s.start <= p < s.end && P.Visible(r.draft.answer, p) ensures Justified(r, st, p) {
      RenderedIsJustified(r, st, s, p);
    }
  }

  lemma BodyIsRender(r: Report, st: Structure, authorised: bool)
    requires r.Valid() && st.Valid(r.draft.answer) && Candidate(r, st, authorised).Release?
    ensures Candidate(r, st, authorised).body == Render(r.draft.answer, Shown(r, st), 0, None)
  {
    hide RightParent, Chain, QualifiedClaims, Grouping, U.Units, Render, Rendered, KeptClaims, Published, Ordered;
    RenderedIsWithin(r, st, PublishedOf(r, st));
  }

  lemma ShownAreSorted(r: Report, st: Structure)
    requires r.Valid() && st.Valid(r.draft.answer)
    ensures Sorted(Shown(r, st)) && Distinct(Shown(r, st))
  {
    hide RightParent, Chain, PublishedOf, Rendered, Ordered;
    OrderedIsSorted(Rendered(st, PublishedOf(r, st)), 0, |r.draft.answer|);
  }

  ghost predicate Distinct(spans: seq<Span>)
  {
    forall i, j | 0 <= i < j < |spans| :: spans[i] != spans[j]
  }

  /* ---- exactly when nothing is shown twice ---- */

  ghost predicate Meet(s: Span, t: Span)
  {
    exists p: nat :: P.Holding(s, p) && P.Holding(t, p)
  }

  /** No place of the answer lies in two of the spans. */
  ghost predicate ShownOnce(spans: seq<Span>)
  {
    forall i, j | 0 <= i < j < |spans| :: !Meet(spans[i], spans[j])
  }

  /** A published unit meets a heading above a published claim only by being exactly that heading. */
  ghost predicate TitlesApart(r: Report, st: Structure)
    requires r.Valid() && st.Valid(r.draft.answer)
  {
    var published := PublishedOf(r, st);
    forall u, id, h | u in published && id in KeptClaims(published) && id < |st.chains| && h in st.chains[id] ::
      Span(u.start, u.end) == HeadingSpan(st.headings[h]) || !Overlap(Span(u.start, u.end), HeadingSpan(st.headings[h]))
  }

  lemma MeetIsOverlap(s: Span, t: Span)
    requires s.start < s.end && t.start < t.end
    ensures Meet(s, t) <==> Overlap(s, t)
  {
    if Overlap(s, t) {
      var p := if s.start < t.start then t.start else s.start;
      assert P.Holding(s, p) && P.Holding(t, p);
    }
  }

  lemma PublishedSpan(r: Report, st: Structure, u: U.Unit) returns (k: nat)
    requires r.Valid() && st.Valid(r.draft.answer) && u in PublishedOf(r, st)
    ensures k < |U.UnitSpans(Grouping(r, st))| && U.UnitSpans(Grouping(r, st))[k] == Span(u.start, u.end)
    ensures u.start < u.end <= |r.draft.answer|
  {
    hide U.UnitSpans, U.Complete, Grouping, QualifiedClaims;
    var units := U.Units(Grouping(r, st));
    k :| 0 <= k < |units| && units[k] == u;
  }

  lemma HeadingsApart(st: Structure, answer: string, g: nat, h: nat)
    requires st.Valid(answer) && g < |st.headings| && h < |st.headings|
    ensures HeadingSpan(st.headings[g]) == HeadingSpan(st.headings[h])
         || !Overlap(HeadingSpan(st.headings[g]), HeadingSpan(st.headings[h]))
    ensures st.headings[h].start < st.headings[h].end
  {
    hide RightParent, Chain;
    assert st.headings[h] in st.headings;
  }

  lemma UnitsApart(r: Report, st: Structure, u: U.Unit, v: U.Unit)
    requires r.Valid() && st.Valid(r.draft.answer) && u in PublishedOf(r, st) && v in PublishedOf(r, st)
    ensures Span(u.start, u.end) == Span(v.start, v.end) || !Overlap(Span(u.start, u.end), Span(v.start, v.end))
  {
    hide U.UnitSpans, Grouping, PublishedOf;
    var j := PublishedSpan(r, st, u);
    var k := PublishedSpan(r, st, v);
    var spans := U.UnitSpans(Grouping(r, st));
    assert U.InRow(r.draft.answer, spans);
  }

  lemma RenderedApart(r: Report, st: Structure, s: Span, t: Span)
    requires r.Valid() && st.Valid(r.draft.answer) && TitlesApart(r, st)
    requires s in Rendered(st, PublishedOf(r, st)) && t in Rendered(st, PublishedOf(r, st))
    ensures s == t || !Overlap(s, t)
    ensures s.start < s.end
  {
    hide *;
    OverlapTurns(s, t);
    if IsUnit(r, st, s) {
      if IsUnit(r, st, t) {
        UnitUnitApart(r, st, s, t);
      } else {
        RenderedIsUnitOrTitle(r, st, t);
        UnitTitleApart(r, st, s, t);
      }
    } else {
      RenderedIsUnitOrTitle(r, st, s);
      if IsUnit(r, st, t) {
        UnitTitleApart(r, st, t, s);
      } else {
        RenderedIsUnitOrTitle(r, st, t);
        TitleTitleApart(r, st, s, t);
      }
    }
  }

  ghost predicate IsUnit(r: Report, st: Structure, s: Span)
    requires r.Valid() && st.Valid(r.draft.answer)
  {
    exists u: U.Unit :: u in PublishedOf(r, st) && s == Span(u.start, u.end)
  }

  ghost predicate IsTitleAbove(r: Report, st: Structure, s: Span)
    requires r.Valid() && st.Valid(r.draft.answer)
  {
    exists id, h | id in KeptClaims(PublishedOf(r, st)) && id < |st.chains| && h in st.chains[id] :: s == HeadingSpan(st.headings[h])
  }

  lemma RenderedIsUnitOrTitle(r: Report, st: Structure, s: Span)
    requires r.Valid() && st.Valid(r.draft.answer) && s in Rendered(st, PublishedOf(r, st))
    ensures IsUnit(r, st, s) || IsTitleAbove(r, st, s)
  {
    hide RightParent, Chain, PublishedOf, KeptClaims;
  }

  lemma UnitUnitApart(r: Report, st: Structure, s: Span, t: Span)
    requires r.Valid() && st.Valid(r.draft.answer) && IsUnit(r, st, s) && IsUnit(r, st, t)
    ensures (s == t || !Overlap(s, t)) && s.start < s.end
  {
    hide RightParent, Chain, PublishedOf, Overlap;
    var u: U.Unit :| u in PublishedOf(r, st) && s == Span(u.start, u.end);
    var v: U.Unit :| v in PublishedOf(r, st) && t == Span(v.start, v.end);
    var k := PublishedSpan(r, st, u);
    UnitsApart(r, st, u, v);
  }

  lemma UnitTitleApart(r: Report, st: Structure, s: Span, t: Span)
    requires r.Valid() && st.Valid(r.draft.answer) && TitlesApart(r, st) && IsUnit(r, st, s) && IsTitleAbove(r, st, t)
    ensures (s == t || !Overlap(s, t)) && s.start < s.end && t.start < t.end
  {
    hide RightParent, Chain, PublishedOf, KeptClaims, Overlap;
    var u: U.Unit :| u in PublishedOf(r, st) && s == Span(u.start, u.end);
    var id, h :| id in KeptClaims(PublishedOf(r, st)) && id < |st.chains| && h in st.chains[id] && t == HeadingSpan(st.headings[h]);
    var k := PublishedSpan(r, st, u);
    HeadingsApart(st, r.draft.answer, h, h);
  }

  lemma TitleTitleApart(r: Report, st: Structure, s: Span, t: Span)
    requires r.Valid() && st.Valid(r.draft.answer) && IsTitleAbove(r, st, s) && IsTitleAbove(r, st, t)
    ensures (s == t || !Overlap(s, t)) && s.start < s.end
  {
    hide RightParent, Chain, PublishedOf, KeptClaims, Overlap;
    var id, h :| id in KeptClaims(PublishedOf(r, st)) && id < |st.chains| && h in st.chains[id] && s == HeadingSpan(st.headings[h]);
    var jd, g :| jd in KeptClaims(PublishedOf(r, st)) && jd < |st.chains| && g in st.chains[jd] && t == HeadingSpan(st.headings[g]);
    HeadingsApart(st, r.draft.answer, h, g);
  }

  lemma OverlapTurns(s: Span, t: Span)
    ensures Overlap(s, t) <==> Overlap(t, s)
  {
  }

  /**
   Exactly when each place of the answer is shown at most once: published units meet the headings
   above their claims only by being them.  Two consecutive titles that are claims themselves break
   it when the first has blank ends, for its unit is trimmed and its heading is not.
   */
  lemma ShownOnceIff(r: Report, st: Structure)
    requires r.Valid() && st.Valid(r.draft.answer)
    ensures ShownOnce(Shown(r, st)) <==> TitlesApart(r, st)
  {
    hide *;
    var spans := Shown(r, st);
    ShownAreSorted(r, st);
    if TitlesApart(r, st) {
      forall i: nat, j: nat | i < j < |spans| ensures !Meet(spans[i], spans[j]) {
        DistinctAt(spans, i, j);
        RenderedApart(r, st, spans[i], spans[j]);
        RenderedApart(r, st, spans[j], spans[i]);
        MeetIsOverlap(spans[i], spans[j]);
      }
      OnceIf(spans);
    } else {
      var s, t := Clash(r, st);
      MeetIsOverlap(s, t);
      OverlapTurns(s, t);
      MeetIsOverlap(t, s);
      NotOnce(spans, s, t);
    }
  }

  lemma DistinctAt(spans: seq<Span>, i: nat, j: nat)
    requires Distinct(spans) && i < j < |spans|
    ensures spans[i] in spans && spans[j] in spans && spans[i] != spans[j]
  {
  }

  lemma OnceIf(spans: seq<Span>)
    requires forall i: nat, j: nat | i < j < |spans| :: !Meet(spans[i], spans[j])
    ensures ShownOnce(spans)
  {
  }

  lemma NotOnce(spans: seq<Span>, s: Span, t: Span)
    requires s in spans && t in spans && s != t && Meet(s, t) && Meet(t, s)
    ensures !ShownOnce(spans)
  {
    var i :| 0 <= i < |spans| && spans[i] == s;
    var j :| 0 <= j < |spans| && spans[j] == t;
  }

  /** A unit and a heading that meet without being the same. */
  lemma Clash(r: Report, st: Structure) returns (s: Span, t: Span)
    requires r.Valid() && st.Valid(r.draft.answer) && !TitlesApart(r, st)
    ensures s in Rendered(st, PublishedOf(r, st)) && t in Rendered(st, PublishedOf(r, st))
    ensures s != t && Overlap(s, t) && s.start < s.end && t.start < t.end
  {
    hide RightParent, Chain, PublishedOf, KeptClaims;
    var published := PublishedOf(r, st);
    var u, id, h :| u in published && id in KeptClaims(published) && id < |st.chains| && h in st.chains[id]
      && Span(u.start, u.end) != HeadingSpan(st.headings[h]) && Overlap(Span(u.start, u.end), HeadingSpan(st.headings[h]));
    s, t := Span(u.start, u.end), HeadingSpan(st.headings[h]);
    var k := PublishedSpan(r, st, u);
    HeadingsApart(st, r.draft.answer, h, h);
  }

  /** A published title with a blank at its start is shown twice when another published claim stands under it. */
  lemma BlankTitleIsShownTwice(r: Report, st: Structure, i: nat, id: nat, h: nat)
    requires r.Valid() && st.Valid(r.draft.answer)
    requires i in KeptClaims(PublishedOf(r, st)) && id in KeptClaims(PublishedOf(r, st)) && id < |st.claims|
    requires h in st.chains[id] && i < |st.claims| && h < |st.headings|
    requires Span(st.claims[i].start, st.claims[i].end) == HeadingSpan(st.headings[h])
    requires st.headings[h].start < |r.draft.answer| && IsSpace(r.draft.answer[st.headings[h].start])
    ensures !ShownOnce(Shown(r, st))
  {
    hide RightParent, Chain, PublishedOf, Rendered, ShownOnce, Ordered, Grouping, U.UnitSpans, P.LinksOf, IsSpace;
    ShownOnceIff(r, st);
    var u: U.Unit :| u in PublishedOf(r, st) && i in u.claimIds;
    var k := PublishedSpan(r, st, u);
    P.UnitsAreTrimmed(Grouping(r, st));
    TrimmedStart(r.draft.answer, U.UnitSpans(Grouping(r, st)), k);
    ListedOverlaps(r, st, u, i);
  }

  lemma TrimmedStart(answer: string, spans: seq<Span>, k: nat)
    requires S.Trimmed(answer, spans) && k < |spans|
    ensures spans[k].start < |answer| && !IsSpace(answer[spans[k].start])
  {
  }

  lemma ListedOverlaps(r: Report, st: Structure, u: U.Unit, i: nat)
    requires r.Valid() && st.Valid(r.draft.answer) && u in PublishedOf(r, st) && i in u.claimIds && i < |st.claims|
    ensures Overlap(Span(u.start, u.end), Span(st.claims[i].start, st.claims[i].end))
  {
    hide U.UnitSpans, U.Complete, Grouping, QualifiedClaims;
    var input := Grouping(r, st);
    var units := U.Units(input);
    var k :| 0 <= k < |units| && units[k] == u;
    var members := U.Members(input.claims, u.start, u.end);
    var m :| 0 <= m < |members| && members[m].id == i;
    assert members[m] in members;
    ClaimIsPiece(r, st, members[m]);
  }

  /** A published claim without blank ends is shown whole. */
  lemma KeptIsShownWhole(r: Report, st: Structure, id: nat) returns (s: Span)
    requires r.Valid() && st.Valid(r.draft.answer) && id in KeptClaims(PublishedOf(r, st)) && id < |st.claims|
    requires P.Visible(r.draft.answer, st.claims[id].start) && st.claims[id].start < st.claims[id].end
    requires P.Visible(r.draft.answer, st.claims[id].end - 1)
    ensures s in Shown(r, st) && s.start <= st.claims[id].start && st.claims[id].end <= s.end
  {
    hide RightParent, Chain, PublishedOf, P.Visible, U.UnitSpans, Grouping, Rendered, Shown, Overlap;
    var u: U.Unit :| u in PublishedOf(r, st) && id in u.claimIds;
    s := Span(u.start, u.end);
    ListedOverlaps(r, st, u, id);
    UnitIsShown(r, st, u);
    var c := S.Claim(id, st.claims[id].start, st.claims[id].end);
    PieceIsClaim(r, st, id);
    var k := P.ClaimIsWhole(Grouping(r, st), c);
    var j := PublishedUnit(r, st, u);
    OverlapsBack(u, c);
  }

  lemma OverlapsBack(u: U.Unit, c: S.Claim)
    ensures Overlap(Span(u.start, u.end), Span(c.start, c.end)) <==> U.Overlaps(c, u.start, u.end)
  {
  }

  lemma PublishedUnit(r: Report, st: Structure, u: U.Unit) returns (k: nat)
    requires r.Valid() && st.Valid(r.draft.answer) && u in PublishedOf(r, st)
    ensures k < |U.Units(Grouping(r, st))| && U.Units(Grouping(r, st))[k] == u
  {
    hide U.Units, Grouping, QualifiedClaims;
    var units := U.Units(Grouping(r, st));
    k :| 0 <= k < |units| && units[k] == u;
  }

  lemma UnitIsShown(r: Report, st: Structure, u: U.Unit)
    requires r.Valid() && st.Valid(r.draft.answer) && u in PublishedOf(r, st)
    ensures Span(u.start, u.end) in Shown(r, st)
  {
    hide RightParent, Chain, PublishedOf, Shown, KeptClaims;
  }

  lemma PieceIsClaim(r: Report, st: Structure, id: nat)
    requires r.Valid() && st.Valid(r.draft.answer) && id < |st.claims|
    ensures S.Claim(id, st.claims[id].start, st.claims[id].end) in Grouping(r, st).claims
  {
    hide RightParent, Chain, Catalog, FormulaSpans;
    assert Grouping(r, st).claims[id] == S.Claim(id, st.claims[id].start, st.claims[id].end);
  }

  /** The counts are honest: all claims counted are vouched for, and a complete answer leaves none out. */
  lemma CountIsHonest(r: Report, st: Structure, authorised: bool)
    requires r.Valid() && st.Valid(r.draft.answer) && Candidate(r, st, authorised).Release?
    ensures var out := Candidate(r, st, authorised);
            && 0 < out.count <= |st.claims|
            && out.count == |KeptClaims(PublishedOf(r, st))|
            && (!out.incomplete ==> forall id: nat | id < |st.claims| :: Vouched(r, st, id))
  {
    hide RightParent, Chain, Vouched, QualifiedClaims, Grouping, U.Units, Render, Rendered, Published;
    var kept, out := KeptClaims(PublishedOf(r, st)), Candidate(r, st, authorised);
    forall id | id in kept ensures id < |st.claims| {
      KeptAreVouched(r, st, id);
    }
    SubsetCounts(kept, |st.claims|);
    if !out.incomplete {
      forall id: nat | id < |st.claims| ensures Vouched(r, st, id) {
        KeptAreVouched(r, st, id);
      }
    }
  }

  lemma {:induction false} SubsetCounts(s: set<nat>, n: nat)
    requires forall x | x in s :: x < n
    ensures |s| <= n && (|s| == n ==> forall x: nat | x < n :: x in s)
  {
    if n > 0 {
      var rest := s - {n - 1};
      SubsetCounts(rest, n - 1);
      assert |rest| == if n - 1 in s then |s| - 1 else |s|;
    }
  }
}
