/**
 Publishing only what was verified: the gate `task_publication_candidate` of grounding_verifier.py
 and the rendering of the surviving spans.
 */
module Publication {
  import opened Basics
  import opened MarkdownLines
  import opened SpanOrder
  import S = PublicationSegments
  import U = PublicationUnits
  import P = UnitProperties
  import opened AnswerStructure
  import opened AnswerClaims

  datatype Kind = ClaimCheck | RelevanceCheck | FormulaCheck | CitationCheck | OtherCheck

  datatype Status =
    | JudgeSupported | Matched | Unassessed
    | Unsupported | UnverifiedOcr | InvalidCitation | InvalidArithmetic
    | Contradicted | OutOfScope | MixedScope
    | OtherStatus

  /** One observation of the verifier. */
  datatype Check = Check(kind: Kind, status: Status, claim: Option<nat>, span: Option<Span>, text: string, contexts: seq<nat>)

  /**
   A verified draft.  `cites` finds a citation in a text, `mentions` finds a cited identifier in it.
   */
  datatype Report = Report(draft: Draft, math: seq<Span>, checks: seq<Check>, needsRepair: bool,
                           cites: string -> bool, mentions: (string, string) -> bool)
  {
    ghost predicate Valid()
    {
      draft.Valid() && Within(math, |draft.answer|)
    }
  }

  /** The headings and claims of a draft, the claims with their chains of headings. */
  datatype Structure = Structure(headings: seq<Heading>, claims: seq<Piece>, chains: seq<seq<nat>>)
  {
    ghost predicate Valid(answer: string)
    {
      && Forest(answer, headings) && Backward(headings) && |chains| == |claims|
      && (forall c | c in claims :: c.start <= c.end <= |answer|)
      && (forall i | 0 <= i < |claims| :: claims[i].context.Some? ==> claims[i].context.value < |headings|)
      && (forall i | 0 <= i < |claims| :: chains[i] == Chain(headings, claims[i].context))
      && (forall i, h | 0 <= i < |claims| && h in chains[i] :: h < |headings|)
    }
  }

  /* ---- which claims qualify ---- */

  function TextOf(answer: string, s: Span): string
    requires s.start <= s.end <= |answer|
  {
    answer[s.start..s.end]
  }

  predicate About(answer: string, st: Structure, i: nat, kind: Kind, check: Check)
    requires i < |st.claims| && st.claims[i].start <= st.claims[i].end <= |answer|
  {
    var span := Span(st.claims[i].start, st.claims[i].end);
    check.kind == kind && check.claim == Some(i) && check.span == Some(span) && check.text == TextOf(answer, span)
  }

  function Matching(answer: string, st: Structure, i: nat, kind: Kind, checks: seq<Check>): (found: seq<Check>)
    requires i < |st.claims| && st.claims[i].start <= st.claims[i].end <= |answer|
    ensures forall c :: c in found <==> c in checks && About(answer, st, i, kind, c)
  {
    if checks == [] then [] else
    var rest := Matching(answer, st, i, kind, checks[1..]);
    assert forall c | c in checks :: c == checks[0] || c in checks[1..];
    if About(answer, st, i, kind, checks[0]) then [checks[0]] + rest else rest
  }

  /** Exactly one check of the kind, with the wanted status and the claim's own chain of headings. */
  predicate Confirmed(answer: string, st: Structure, i: nat, kind: Kind, status: Status, checks: seq<Check>)
    requires i < |st.claims| && |st.chains| == |st.claims| && st.claims[i].start <= st.claims[i].end <= |answer|
  {
    var found := Matching(answer, st, i, kind, checks);
    |found| == 1 && found[0].status == status && found[0].contexts == st.chains[i]
  }

  predicate Damning(check: Check)
  {
    || check.status in {Unsupported, UnverifiedOcr, InvalidCitation, InvalidArithmetic, Contradicted, OutOfScope, MixedScope}
    || (check.kind == FormulaCheck && check.status == Unassessed)
  }

  predicate Overlap(a: Span, b: Span)
  {
    a.start < b.end && b.start < a.end
  }

  /** The spans of the claim and of the headings above it. */
  function SpansOf(st: Structure, i: nat): seq<Span>
    requires i < |st.claims| && i < |st.chains| && forall h | h in st.chains[i] :: h < |st.headings|
  {
    seq(|st.chains[i]|, k requires 0 <= k < |st.chains[i]| =>
      assert st.chains[i][k] in st.chains[i];
      HeadingSpan(st.headings[st.chains[i][k]])) + [Span(st.claims[i].start, st.claims[i].end)]
  }

  function JoinedText(answer: string, spans: seq<Span>): string
    requires Within(spans, |answer|)
  {
    if spans == [] then "" else
    TextOf(answer, spans[0]) + (if |spans| == 1 then "" else "\n") + JoinedText(answer, spans[1..])
  }

  predicate Qualifies(r: Report, st: Structure, i: nat)
    requires i < |st.claims| && |st.chains| == |st.claims| && forall h | h in st.chains[i] :: h < |st.headings|
    requires st.claims[i].start <= st.claims[i].end <= |r.draft.answer| && Within(SpansOf(st, i), |r.draft.answer|)
  {
    var answer, spans := r.draft.answer, SpansOf(st, i);
    && Confirmed(answer, st, i, ClaimCheck, JudgeSupported, r.checks)
    && Confirmed(answer, st, i, RelevanceCheck, Matched, r.checks)
    && r.cites(TextOf(answer, Span(st.claims[i].start, st.claims[i].end)))
    && (forall c | c in r.checks && c.span.Some? && Damning(c) :: forall s | s in spans :: !Overlap(c.span.value, s))
    && (forall c | c in r.checks && c.kind == CitationCheck && c.status == InvalidCitation ::
          !r.mentions(c.text, JoinedText(answer, spans)))
  }

  lemma SpansAreWithin(answer: string, st: Structure, i: nat)
    requires st.Valid(answer) && i < |st.claims|
    ensures Within(SpansOf(st, i), |answer|)
  {
    hide RightParent, Chain;
    var spans := SpansOf(st, i);
    forall s | s in spans ensures s.start <= s.end <= |answer| {
      var k :| 0 <= k < |spans| && spans[k] == s;
      if k < |st.chains[i]| {
        assert st.chains[i][k] in st.chains[i];
        assert st.headings[st.chains[i][k]] in st.headings;
      } else {
        assert st.claims[i] in st.claims;
      }
    }
  }

  function QualifiedClaims(r: Report, st: Structure): set<nat>
    requires st.Valid(r.draft.answer)
  {
    set i: nat | i < |st.claims| && (SpansAreWithin(r.draft.answer, st, i); Qualifies(r, st, i))
  }

  /* ---- what is published ---- */

  function ClaimsOf(st: Structure): (claims: seq<S.Claim>)
    ensures |claims| == |st.claims|
  {
    seq(|st.claims|, i requires 0 <= i < |st.claims| => S.Claim(i, st.claims[i].start, st.claims[i].end))
  }

  /** The headings above some claim. */
  function Catalog(st: Structure): seq<Span>
  {
    CatalogFrom(st, 0)
  }

  function CatalogFrom(st: Structure, h: nat): (spans: seq<Span>)
    ensures forall s | s in spans :: exists k | 0 <= k < |st.headings| :: s == HeadingSpan(st.headings[k])
    decreases |st.headings| - h
  {
    if h >= |st.headings| then [] else
    (if exists chain | chain in st.chains :: h in chain then [HeadingSpan(st.headings[h])] else [])
    + CatalogFrom(st, h + 1)
  }

  /** The spans of the checked formulas that lie in the answer. */
  function FormulaSpans(checks: seq<Check>, length: nat): (spans: seq<Span>)
    ensures Within(spans, length)
  {
    if checks == [] then [] else
    var c := checks[0];
    (if c.kind == FormulaCheck && c.span.Some? && c.span.value.start < c.span.value.end <= length then [c.span.value] else [])
    + FormulaSpans(checks[1..], length)
  }

  function Grouping(r: Report, st: Structure): (input: S.Input)
    requires r.Valid() && st.Valid(r.draft.answer)
    ensures input.Valid() && input.answer == r.draft.answer
  {
    hide RightParent, Chain;
    assert forall h | h in st.headings :: h.start <= h.end <= |r.draft.answer|;
    assert forall k | 0 <= k < |st.headings| :: st.headings[k] in st.headings;
    assert forall i | 0 <= i < |st.claims| :: st.claims[i] in st.claims;
    S.Input(r.draft.answer, ClaimsOf(st), Catalog(st), r.math, FormulaSpans(r.checks, |r.draft.answer|), r.draft.uncite)
  }

  /** A unit with claims, all of them qualified, and no other assertion in it. */
  predicate Publishable(unit: U.Unit, qualified: set<nat>)
  {
    unit.claimIds != [] && unit.fullyClaimed && forall id | id in unit.claimIds :: id in qualified
  }

  function Published(units: seq<U.Unit>, qualified: set<nat>): set<U.Unit>
  {
    set u | u in units && Publishable(u, qualified)
  }

  function KeptClaims(published: set<U.Unit>): set<nat>
  {
    set u, id | u in published && id in u.claimIds :: id
  }

  /** The published units and the headings above their claims. */
  function Rendered(st: Structure, published: set<U.Unit>): set<Span>
    requires forall i, h | 0 <= i < |st.chains| && h in st.chains[i] :: h < |st.headings|
  {
    (set u | u in published :: Span(u.start, u.end))
    + (set id, h | id in KeptClaims(published) && id < |st.chains| && h in st.chains[id] :: HeadingSpan(st.headings[h]))
  }

  /* ---- rendering ---- */

  const BREAK := "\n\n"

  /** What stands between two rendered spans: the original gap if it is blank. */
  function Gap(answer: string, from: nat, to: nat): (gap: string)
    requires to <= |answer|
    ensures Blank(gap)
  {
    if from <= to && Blank(answer[from..to]) then answer[from..to] else if from > to then "" else BREAK
  }

  function Render(answer: string, spans: seq<Span>, i: nat, previous: Option<nat>): string
    requires Within(spans, |answer|) && i <= |spans|
    decreases |spans| - i
  {
    if i == |spans| then "" else
    assert spans[i] in spans;
    Lead(answer, spans[i], previous) + TextOf(answer, spans[i]) + Render(answer, spans, i + 1, Some(spans[i].end))
  }

  function Lead(answer: string, s: Span, previous: Option<nat>): (lead: string)
    requires s.start <= |answer|
    ensures Blank(lead)
  {
    if previous.None? then "" else Gap(answer, previous.value, s.start)
  }

  method RenderOriginalSpans(answer: string, spans: seq<Span>) returns (result: string)
    requires Within(spans, |answer|)
    ensures result == Render(answer, spans, 0, None)
  {
    hide Lead, Blank;
    result := "";
    var previous: Option<nat> := None;
    for k := 0 to |spans|
      invariant Render(answer, spans, 0, None) == result + Render(answer, spans, k, previous)
    {
      var s := spans[k];
      assert s in spans;
      result := result + Lead(answer, s, previous) + TextOf(answer, s);
      previous := Some(s.end);
    }
  }

  /**
   The text is the texts of the spans, each in one stretch from its own place on and one after the
   other, with nothing but white space between.
   */
  ghost predicate Laid(answer: string, spans: seq<Span>, text: string, places: seq<nat>)
    requires Within(spans, |answer|)
  {
    && |places| == |spans|
    && (forall i | 0 <= i < |spans| :: Stands(answer, spans[i], text, places[i]))
    && (forall i | 0 < i < |spans| :: places[i - 1] + (spans[i - 1].end - spans[i - 1].start) <= places[i])
    && (forall k: nat | k < |text| && !IsSpace(text[k]) ::
          exists i | 0 <= i < |spans| :: places[i] <= k < places[i] + (spans[i].end - spans[i].start))
  }

  ghost predicate Stands(answer: string, s: Span, text: string, place: nat)
  {
    && s.start <= s.end <= |answer| && place + (s.end - s.start) <= |text|
    && text[place..place + (s.end - s.start)] == TextOf(answer, s)
  }

  lemma StandsStill(answer: string, s: Span, text: string, place: nat, more: string)
    requires Stands(answer, s, text, place)
    ensures Stands(answer, s, text + more, place)
  {
    var n := s.end - s.start;
    assert (text + more)[place..place + n] == text[place..place + n];
  }

  lemma StandsLast(answer: string, s: Span, text: string, lead: string)
    requires s.start <= s.end <= |answer|
    ensures Stands(answer, s, text + lead + TextOf(answer, s), |text + lead|)
  {
    var all := text + lead + TextOf(answer, s);
    assert all[|text + lead|..] == TextOf(answer, s);
    assert all[|text + lead|..] == all[|text + lead|..|all|];
  }

  lemma LaidNext(answer: string, spans: seq<Span>, text: string, places: seq<nat>, lead: string, s: Span)
    requires Within(spans, |answer|) && s.start <= s.end <= |answer| && Blank(lead)
    requires Laid(answer, spans, text, places)
    ensures Within(spans + [s], |answer|)
    ensures Laid(answer, spans + [s], text + lead + TextOf(answer, s), places + [|text + lead|])
  {
    hide Stands, TextOf, IsSpace;
    var n, more := |spans|, lead + TextOf(answer, s);
    var all, longer, after := text + lead + TextOf(answer, s), spans + [s], places + [|text + lead|];
    assert all == text + more;
    StandsLast(answer, s, text, lead);
    forall i | 0 <= i < |longer| ensures Stands(answer, longer[i], all, after[i]) {
      if i < n {
        StandsStill(answer, spans[i], text, places[i], more);
      }
    }
    StandsInside(answer, spans, text, places);
    forall k: nat | k < |all| && !IsSpace(all[k])
      ensures exists i | 0 <= i < |longer| :: after[i] <= k < after[i] + (longer[i].end - longer[i].start)
    {
      if k < |text| {
        var i :| 0 <= i < n && places[i] <= k < places[i] + (spans[i].end - spans[i].start);
        assert longer[i] == spans[i] && after[i] == places[i];
      } else if k < |text + lead| {
        LeadIsSpace(text, lead, TextOf(answer, s), k);
      } else {
        TextLength(answer, s);
        assert longer[n] == s && after[n] == |text + lead|;
      }
    }
  }

  lemma LeadIsSpace(text: string, lead: string, more: string, k: nat)
    requires Blank(lead) && |text| <= k < |text + lead|
    ensures IsSpace((text + lead + more)[k])
  {
    assert (text + lead + more)[k] == lead[k - |text|] && lead[k - |text|] in lead;
  }

  lemma TextLength(answer: string, s: Span)
    requires s.start <= s.end <= |answer|
    ensures |TextOf(answer, s)| == s.end - s.start
  {
  }

  lemma StandsInside(answer: string, spans: seq<Span>, text: string, places: seq<nat>)
    requires Within(spans, |answer|) && Laid(answer, spans, text, places)
    ensures forall i | 0 <= i < |spans| :: places[i] + (spans[i].end - spans[i].start) <= |text|
  {
    forall i | 0 <= i < |spans| ensures places[i] + (spans[i].end - spans[i].start) <= |text| {
      assert Stands(answer, spans[i], text, places[i]);
    }
  }

  /** Rendering lays the spans out in their order, each once and whole. */
  lemma RenderIsLaid(answer: string, spans: seq<Span>) returns (places: seq<nat>)
    requires Within(spans, |answer|)
    ensures Laid(answer, spans, Render(answer, spans, 0, None), places)
  {
    hide Laid, Lead, TextOf;
    places := [];
    var text, previous: Option<nat> := "", None;
    NothingLaid(answer);
    for k := 0 to |spans|
      invariant Within(spans[..k], |answer|) && Laid(answer, spans[..k], text, places)
      invariant Render(answer, spans, 0, None) == text + Render(answer, spans, k, previous)
    {
      var s := spans[k];
      assert s in spans && spans[..k + 1] == spans[..k] + [s];
      LaidNext(answer, spans[..k], text, places, Lead(answer, s, previous), s);
      places := places + [|text + Lead(answer, s, previous)|];
      text := text + Lead(answer, s, previous) + TextOf(answer, s);
      previous := Some(s.end);
    }
    assert spans[..|spans|] == spans;
    assert text + "" == text;
  }

  lemma NothingLaid(answer: string)
    ensures Laid(answer, [], "", [])
  {
  }

  datatype Outcome = Withheld | Release(body: string, incomplete: bool, count: nat)

  /** The gate: nothing without a matching request, else the qualified units under their headings. */
  function Candidate(r: Report, st: Structure, authorised: bool): Outcome
    requires r.Valid() && st.Valid(r.draft.answer)
  {
    if !authorised then Withheld else
    var published := Published(U.Units(Grouping(r, st)), QualifiedClaims(r, st));
    var kept := KeptClaims(published);
    if kept == {} then Withheld else
    RenderedIsWithin(r, st, published);
    Release(Render(r.draft.answer, Ordered(Rendered(st, published), 0, |r.draft.answer|), 0, None),
            |kept| != |st.claims| || r.needsRepair, |kept|)
  }

  lemma RenderedIsWithin(r: Report, st: Structure, published: set<U.Unit>)
    requires r.Valid() && st.Valid(r.draft.answer)
    requires published == Published(U.Units(Grouping(r, st)), QualifiedClaims(r, st))
    ensures forall s | s in Rendered(st, published) :: s.start <= s.end <= |r.draft.answer|
    ensures Within(Ordered(Rendered(st, published), 0, |r.draft.answer|), |r.draft.answer|)
  {
    hide RightParent, Chain, Grouping, QualifiedClaims, U.Complete, U.UnitSpans, Publishable;
    var units := U.Units(Grouping(r, st));
    forall s | s in Rendered(st, published) ensures s.start <= s.end <= |r.draft.answer| {
      if s in set u | u in published :: Span(u.start, u.end) {
        var u :| u in published && s == Span(u.start, u.end);
        var k :| 0 <= k < |units| && units[k] == u;
        assert u == U.UnitOf(Grouping(r, st), U.UnitSpans(Grouping(r, st))[k]);
      } else {
        var id, h :| id in KeptClaims(published) && id < |st.chains| && h in st.chains[id] && s == HeadingSpan(st.headings[h]);
        assert st.headings[h] in st.headings;
      }
    }
  }

  /** One pass over the units: the claims kept and the spans to render. */
  method CollectPublished(st: Structure, units: seq<U.Unit>, qualified: set<nat>)
    returns (kept: set<nat>, rendered: set<Span>)
    requires forall i, h | 0 <= i < |st.chains| && h in st.chains[i] :: h < |st.headings|
    ensures kept == KeptClaims(Published(units, qualified))
    ensures rendered == Rendered(st, Published(units, qualified))
  {
    hide Publishable, Rendered, KeptClaims;
    kept := {};
    rendered := {};
    ghost var published: set<U.Unit> := {};
    NothingPublished(st);
    for k := 0 to |units|
      invariant published == Published(units[..k], qualified)
      invariant kept == KeptClaims(published) && rendered == Rendered(st, published)
    {
      assert units[..k + 1] == units[..k] + [units[k]];
      if !Publishable(units[k], qualified) {
        continue;
      }
      AddPublished(st, published, units[k]);
      published := published + {units[k]};
      kept := kept + (set id | id in units[k].claimIds);
      rendered := rendered + {Span(units[k].start, units[k].end)}
        + (set id, h | id in units[k].claimIds && id < |st.chains| && h in st.chains[id] :: HeadingSpan(st.headings[h]));
    }
    assert units[..|units|] == units;
  }

  lemma NothingPublished(st: Structure)
    requires forall i, h | 0 <= i < |st.chains| && h in st.chains[i] :: h < |st.headings|
    ensures KeptClaims({}) == {} && Rendered(st, {}) == {}
  {
  }

  /**
   What the structure is made of: all there is to assess in the order of the text, each a piece of
   body text under the heading before it or a heading that carries none, and above the cap the first
   of them.
   */
  ghost predicate Describes(st: Structure, d: Draft)
    requires st.Valid(d.answer)
  {
    var body := Body(d, DivisionList(d));
    && st.headings == Headings(d) && st.claims == FirstOf(PiecesOf(d), CAP) && ByStart(st.claims)
    && (forall p :: p in body <==> exists k :: Assessed(d, DivisionList(d), p, k))
    && (forall c | c in st.claims :: (c in body && StandsUnder(st.headings, c)) || Orphan(st.headings, body, c))
    && (|st.claims| < CAP ==>
          && (forall p | p in body :: p in st.claims)
          && forall j | 0 <= j < |st.headings| :: Carries(st.headings, body, j) || HeadingPiece(st.headings[j]) in st.claims)
  }

  function FirstOf<T>(s: seq<T>, n: nat): seq<T>
  {
    if |s| <= n then s else s[..n]
  }

  function HeadingPiece(h: Heading): Piece
  {
    Piece(h.start, h.end, h.parent)
  }

  ghost predicate Orphan(headings: seq<Heading>, body: seq<Piece>, c: Piece)
    requires Backward(headings)
  {
    exists j | 0 <= j < |headings| :: !Carries(headings, body, j) && c == HeadingPiece(headings[j])
  }

  /** The first pieces of the draft with their chains of headings. */
  method BuildStructure(d: Draft) returns (st: Structure)
    requires d.Valid()
    ensures st.Valid(d.answer) && Describes(st, d)
  {
    hide Headings, Body, DivisionList, RightParent, Above, Carries, Chain, PiecesOf, Assessed, StandsUnder;
    var headings, body, pieces := AllPieces(d);
    BodyUnder(d, body);
    BodyContexts(d, DivisionList(d));
    BodyWithin(d, DivisionList(d));
    PiecesFit(d.answer, headings, body, pieces);
    var claims := FirstOf(pieces, CAP);
    assert forall c | c in claims :: c in pieces;
    assert forall k | 0 <= k < |claims| :: claims[k] in claims;
    var chains := ChainsOf(headings, claims);
    st := Structure(headings, claims, chains);
  }

  lemma BodyUnder(d: Draft, body: seq<Piece>)
    requires forall p :: p in body <==> exists k :: Assessed(d, DivisionList(d), p, k)
    ensures forall p | p in body :: StandsUnder(Headings(d), p)
  {
    hide StandsUnder, Headings, DivisionList, IsSpace, Numeral;
  }

  method ChainsOf(headings: seq<Heading>, claims: seq<Piece>) returns (chains: seq<seq<nat>>)
    requires Backward(headings)
    requires forall k | 0 <= k < |claims| && claims[k].context.Some? :: claims[k].context.value < |headings|
    ensures |chains| == |claims|
    ensures forall i | 0 <= i < |claims| :: chains[i] == Chain(headings, claims[i].context)
    ensures forall i, h | 0 <= i < |claims| && h in chains[i] :: h < |headings|
  {
    hide Chain;
    chains := [];
    for k := 0 to |claims|
      invariant |chains| == k
      invariant forall i | 0 <= i < k :: chains[i] == Chain(headings, claims[i].context)
      invariant forall i, h | 0 <= i < k && h in chains[i] :: h < |headings|
    {
      var chain := ContextChain(headings, claims[k].context);
      ChainWithin(headings, claims[k].context);
      chains := chains + [chain];
    }
  }

  lemma {:induction false} BodyWithin(d: Draft, cuts: seq<nat>)
    requires S.Rising(d.answer, cuts)
    ensures forall p | p in Body(d, cuts) :: p.start <= p.end <= |d.answer|
    decreases |cuts|
  {
    hide Headings, IsBody;
    if |cuts| >= 2 {
      BodyWithin(d, cuts[1..]);
    }
  }

  lemma PiecesFit(answer: string, headings: seq<Heading>, body: seq<Piece>, pieces: seq<Piece>)
    requires Forest(answer, headings) && Backward(headings)
    requires forall p | p in body :: p.start <= p.end <= |answer| && (p.context.Some? ==> p.context.value < |headings|)
    requires forall p | p in pieces :: p in body || Orphan(headings, body, p)
    ensures forall p | p in pieces :: p.start <= p.end <= |answer| && (p.context.Some? ==> p.context.value < |headings|)
  {
    hide Carries, RightParent;
    forall p | p in pieces
      ensures p.start <= p.end <= |answer| && (p.context.Some? ==> p.context.value < |headings|)
    {
      if p !in body {
        var j :| 0 <= j < |headings| && !Carries(headings, body, j) && p == HeadingPiece(headings[j]);
        assert headings[j] in headings;
      }
    }
  }

  lemma ChainWithin(headings: seq<Heading>, context: Option<nat>)
    requires Backward(headings) && (context.Some? ==> context.value < |headings|)
    ensures forall h | h in Chain(headings, context) :: h < |headings|
  {
    hide Chain, Above;
    ChainIsAbove(headings, context);
    forall h | h in Chain(headings, context) ensures h < |headings| {
      AboveParent(headings, h, context.value);
    }
  }

  /** The whole gate: structure, qualified claims, units, and the text that may be shown. */
  method TaskPublication(r: Report, authorised: bool) returns (st: Structure, outcome: Outcome)
    requires r.Valid()
    ensures st.Valid(r.draft.answer) && Describes(st, r.draft)
    ensures outcome == Candidate(r, st, authorised)
  {
    hide RightParent, Chain, QualifiedClaims, U.Units, Grouping, Published, Render, Ordered, Rendered, KeptClaims, Describes;
    st := BuildStructure(r.draft);
    if !authorised {
      return st, Withheld;
    }
    var qualified := QualifiedClaims(r, st);
    var units := U.PublicationUnits(Grouping(r, st));
    var kept, rendered := CollectPublished(st, units, qualified);
    if kept == {} {
      return st, Withheld;
    }
    RenderedIsWithin(r, st, Published(units, qualified));
    var body := RenderOriginalSpans(r.draft.answer, Ordered(rendered, 0, |r.draft.answer|));
    return st, Release(body, |kept| != |st.claims| || r.needsRepair, |kept|);
  }

  lemma AddPublished(st: Structure, published: set<U.Unit>, u: U.Unit)
    requires forall i, h | 0 <= i < |st.chains| && h in st.chains[i] :: h < |st.headings|
    ensures KeptClaims(published + {u}) == KeptClaims(published) + (set id | id in u.claimIds)
    ensures Rendered(st, published + {u}) == Rendered(st, published) + {Span(u.start, u.end)}
      + (set id, h | id in u.claimIds && id < |st.chains| && h in st.chains[id] :: HeadingSpan(st.headings[h]))
  {
  }
}
