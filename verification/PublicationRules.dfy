/**
 When a claim may be published, told by the checks themselves: which ones must be there, which ones
 must not, and what else its unit may hold.
 */
module PublicationRules {
  import opened Basics
  import opened AnswerStructure
  import opened AnswerClaims
  import opened Publication
  import opened PublicationSoundness
  import S = PublicationSegments
  import U = PublicationUnits

  /** The check is of the kind and about the claim: its number, its place and its text. */
  ghost predicate Speaks(answer: string, p: Piece, i: nat, kind: Kind, c: Check)
    requires p.start <= p.end <= |answer|
  {
    && c.kind == kind && c.claim == Some(i) && c.span.Some?
    && c.span.value.start == p.start && c.span.value.end == p.end && c.text == answer[p.start..p.end]
  }

  /** Of all checks of the kind about the claim there is one, with this status and this chain of headings. */
  ghost predicate SpeaksOnce(answer: string, p: Piece, i: nat, kind: Kind, status: Status, chain: seq<nat>, checks: seq<Check>, k: nat)
    requires p.start <= p.end <= |answer|
  {
    && k < |checks| && Speaks(answer, p, i, kind, checks[k]) && checks[k].status == status && checks[k].contexts == chain
    && forall j | 0 <= j < |checks| && j != k :: !Speaks(answer, p, i, kind, checks[j])
  }

  /** A check that speaks against the text at its place. */
  ghost predicate Condemns(c: Check)
  {
    match c.status
    case Unsupported => true
    case UnverifiedOcr => true
    case InvalidCitation => true
    case InvalidArithmetic => true
    case Contradicted => true
    case OutOfScope => true
    case MixedScope => true
    case Unassessed => c.kind.FormulaCheck?
    case JudgeSupported => false
    case Matched => false
    case OtherStatus => false
  }

  ghost predicate Meets(c: Check, start: nat, end: nat)
  {
    c.span.Some? && c.span.value.start < end && start < c.span.value.end
  }

  /** The text of the headings and of the claim, each on a line of its own. */
  ghost function TextUnder(answer: string, headings: seq<Heading>, chain: seq<nat>, claim: string): string
    requires forall h | h in chain :: h < |headings| && headings[h].start <= headings[h].end <= |answer|
  {
    if chain == [] then claim else
    assert chain[0] in chain;
    answer[headings[chain[0]].start..headings[chain[0]].end] + "\n" + TextUnder(answer, headings, chain[1..], claim)
  }

  lemma ChainsInBounds(st: Structure, answer: string, id: nat)
    requires st.Valid(answer) && id < |st.claims|
    ensures st.claims[id].start <= st.claims[id].end <= |answer|
    ensures forall h | h in st.chains[id] :: h < |st.headings| && st.headings[h].start <= st.headings[h].end <= |answer|
  {
    hide RightParent, Chain;
    assert st.claims[id] in st.claims;
    forall h | h in st.chains[id] ensures st.headings[h].start <= st.headings[h].end <= |answer| {
      assert st.headings[h] in st.headings;
    }
  }

  /**
   One check that the claim is supported and one that it answers the question, none of them older
   than its headings; a citation of its own; nothing said against it or a heading above it; and no
   invalid citation in either.
   */
  ghost predicate Deserves(r: Report, st: Structure, id: nat)
    requires st.Valid(r.draft.answer) && id < |st.claims|
  {
    ChainsInBounds(st, r.draft.answer, id);
    var answer, p, chain := r.draft.answer, st.claims[id], st.chains[id];
    && (exists k: nat :: SpeaksOnce(answer, p, id, ClaimCheck, JudgeSupported, chain, r.checks, k))
    && (exists k: nat :: SpeaksOnce(answer, p, id, RelevanceCheck, Matched, chain, r.checks, k))
    && r.cites(answer[p.start..p.end])
    && (forall c | c in r.checks && Condemns(c) ::
          !Meets(c, p.start, p.end) && forall h | h in chain :: !Meets(c, st.headings[h].start, st.headings[h].end))
    && (forall c | c in r.checks && c.kind == CitationCheck && c.status == InvalidCitation ::
          !r.mentions(c.text, TextUnder(answer, st.headings, chain, answer[p.start..p.end])))
  }

  lemma SpeaksIsAbout(answer: string, st: Structure, i: nat, kind: Kind, c: Check)
    requires i < |st.claims| && st.claims[i].start <= st.claims[i].end <= |answer|
    ensures About(answer, st, i, kind, c) <==> Speaks(answer, st.claims[i], i, kind, c)
  {
  }

  lemma {:induction false} NoneMatches(answer: string, st: Structure, i: nat, kind: Kind, checks: seq<Check>)
    requires i < |st.claims| && st.claims[i].start <= st.claims[i].end <= |answer|
    ensures Matching(answer, st, i, kind, checks) == [] <==> forall c | c in checks :: !Speaks(answer, st.claims[i], i, kind, c)
    decreases |checks|
  {
    hide About, Speaks;
    if checks != [] {
      SpeaksIsAbout(answer, st, i, kind, checks[0]);
      NoneMatches(answer, st, i, kind, checks[1..]);
      assert forall c | c in checks :: c == checks[0] || c in checks[1..];
    }
  }

  lemma {:induction false} OneMatches(answer: string, st: Structure, i: nat, kind: Kind, checks: seq<Check>, x: Check)
    requires i < |st.claims| && st.claims[i].start <= st.claims[i].end <= |answer|
    ensures Matching(answer, st, i, kind, checks) == [x] <==>
              exists k | 0 <= k < |checks| ::
                && checks[k] == x && Speaks(answer, st.claims[i], i, kind, x)
                && forall j | 0 <= j < |checks| && j != k :: !Speaks(answer, st.claims[i], i, kind, checks[j])
    decreases |checks|
  {
    hide About, Speaks;
    if checks != [] {
      var p, rest := st.claims[i], checks[1..];
      SpeaksIsAbout(answer, st, i, kind, checks[0]);
      NoneMatches(answer, st, i, kind, rest);
      OneMatches(answer, st, i, kind, rest, x);
      assert forall j | 1 <= j < |checks| :: checks[j] == rest[j - 1];
      assert forall j | 0 <= j < |rest| :: rest[j] == checks[j + 1];
      if Speaks(answer, p, i, kind, checks[0]) {
        if Matching(answer, st, i, kind, checks) == [x] {
          assert Matching(answer, st, i, kind, rest) == [];
          assert checks[0] == x;
        }
      } else {
        assert Matching(answer, st, i, kind, checks) == Matching(answer, st, i, kind, rest);
      }
    }
  }

  lemma ConfirmedMeans(r: Report, st: Structure, i: nat, kind: Kind, status: Status)
    requires i < |st.claims| && |st.chains| == |st.claims| && st.claims[i].start <= st.claims[i].end <= |r.draft.answer|
    ensures Confirmed(r.draft.answer, st, i, kind, status, r.checks) <==>
              exists k: nat :: SpeaksOnce(r.draft.answer, st.claims[i], i, kind, status, st.chains[i], r.checks, k)
  {
    hide Matching, Speaks;
    var answer, p, checks := r.draft.answer, st.claims[i], r.checks;
    var found := Matching(answer, st, i, kind, checks);
    if Confirmed(answer, st, i, kind, status, checks) {
      var x := found[0];
      assert found == [x];
      OneMatches(answer, st, i, kind, checks, x);
      var k :| 0 <= k < |checks| && checks[k] == x && Speaks(answer, p, i, kind, x)
            && forall j | 0 <= j < |checks| && j != k :: !Speaks(answer, p, i, kind, checks[j]);
      assert SpeaksOnce(answer, p, i, kind, status, st.chains[i], checks, k);
    }
    forall k: nat | SpeaksOnce(answer, p, i, kind, status, st.chains[i], checks, k)
      ensures Confirmed(answer, st, i, kind, status, checks)
    {
      OneMatches(answer, st, i, kind, checks, checks[k]);
    }
  }

  /** The spans of the headings in a chain. */
  function SpansIn(headings: seq<Heading>, chain: seq<nat>): (spans: seq<Span>)
    requires forall h | h in chain :: h < |headings|
    ensures |spans| == |chain|
  {
    seq(|chain|, k requires 0 <= k < |chain| => assert chain[k] in chain; Span(headings[chain[k]].start, headings[chain[k]].end))
  }

  lemma {:induction false} JoinedIsText(answer: string, headings: seq<Heading>, chain: seq<nat>, p: Piece)
    requires p.start <= p.end <= |answer|
    requires forall h | h in chain :: h < |headings| && headings[h].start <= headings[h].end <= |answer|
    ensures Within(SpansIn(headings, chain) + [Span(p.start, p.end)], |answer|)
    ensures JoinedText(answer, SpansIn(headings, chain) + [Span(p.start, p.end)])
         == TextUnder(answer, headings, chain, answer[p.start..p.end])
    decreases |chain|
  {
    var claim := Span(p.start, p.end);
    var spans := SpansIn(headings, chain) + [claim];
    forall s | s in spans ensures s.start <= s.end <= |answer| {
      var k :| 0 <= k < |spans| && spans[k] == s;
      assert k < |chain| ==> chain[k] in chain;
    }
    if chain == [] {
      assert spans == [claim];
    } else {
      assert chain[0] in chain;
      assert forall h | h in chain[1..] :: h in chain;
      assert spans[1..] == SpansIn(headings, chain[1..]) + [claim];
      JoinedIsText(answer, headings, chain[1..], p);
    }
  }

  lemma SpansAreIn(st: Structure, answer: string, id: nat)
    requires st.Valid(answer) && id < |st.claims|
    ensures SpansOf(st, id) == SpansIn(st.headings, st.chains[id]) + [Span(st.claims[id].start, st.claims[id].end)]
  {
    hide RightParent, Chain;
  }

  lemma MeetsAny(st: Structure, answer: string, id: nat, c: Check)
    requires st.Valid(answer) && id < |st.claims| && c.span.Some?
    ensures (forall s | s in SpansOf(st, id) :: !Overlap(c.span.value, s)) <==>
            !Meets(c, st.claims[id].start, st.claims[id].end)
            && forall h | h in st.chains[id] :: !Meets(c, st.headings[h].start, st.headings[h].end)
  {
    hide RightParent, Chain;
    SpansAreIn(st, answer, id);
    var chain, spans := st.chains[id], SpansOf(st, id);
    assert |spans| == |chain| + 1;
    assert forall k | 0 <= k < |chain| :: chain[k] in chain;
    assert forall k | 0 <= k < |chain| :: spans[k] == Span(st.headings[chain[k]].start, st.headings[chain[k]].end);
    assert spans[|chain|] == Span(st.claims[id].start, st.claims[id].end) && spans[|chain|] in spans;
    if forall s | s in spans :: !Overlap(c.span.value, s) {
      forall h | h in chain ensures !Meets(c, st.headings[h].start, st.headings[h].end) {
        var k :| 0 <= k < |chain| && chain[k] == h;
        assert spans[k] in spans;
      }
    }
    forall s | s in spans && Overlap(c.span.value, s)
      ensures Meets(c, st.claims[id].start, st.claims[id].end)
           || exists h | h in chain :: Meets(c, st.headings[h].start, st.headings[h].end)
    {
      var k :| 0 <= k < |spans| && spans[k] == s;
      assert k < |chain| ==> chain[k] in chain;
    }
  }

  lemma CondemnsIsDamning(c: Check)
    ensures Damning(c) <==> Condemns(c)
  {
  }

  /** A claim qualifies exactly if it deserves to be published. */
  lemma QualifiedDecides(r: Report, st: Structure, id: nat)
    requires r.Valid() && st.Valid(r.draft.answer)
    ensures id in QualifiedClaims(r, st) <==> id < |st.claims| && Deserves(r, st, id)
  {
    hide RightParent, Chain, Confirmed, Damning, Condemns, JoinedText, TextUnder, Meets, SpansOf, SpeaksOnce;
    if id < |st.claims| {
      ChainsInBounds(st, r.draft.answer, id);
      SpansAreWithin(r.draft.answer, st, id);
      ConfirmedMeans(r, st, id, ClaimCheck, JudgeSupported);
      ConfirmedMeans(r, st, id, RelevanceCheck, Matched);
      JoinedIsText(r.draft.answer, st.headings, st.chains[id], st.claims[id]);
      SpansAreIn(st, r.draft.answer, id);
      forall c ensures Damning(c) <==> Condemns(c) {
        CondemnsIsDamning(c);
      }
      forall c | c in r.checks && c.span.Some?
        ensures (forall s | s in SpansOf(st, id) :: !Overlap(c.span.value, s)) <==>
                !Meets(c, st.claims[id].start, st.claims[id].end)
                && forall h | h in st.chains[id] :: !Meets(c, st.headings[h].start, st.headings[h].end)
      {
        MeetsAny(st, r.draft.answer, id, c);
      }
      forall c: Check, start, end | c.span.None? ensures !Meets(c, start, end) {
        MeetsNothing(c, start, end);
      }
      QualifiesUnfold(r, st, id);
    }
  }

  lemma MeetsNothing(c: Check, start: nat, end: nat)
    requires c.span.None?
    ensures !Meets(c, start, end)
  {
  }

  lemma QualifiesUnfold(r: Report, st: Structure, id: nat)
    requires r.Valid() && st.Valid(r.draft.answer) && id < |st.claims|
    ensures id in QualifiedClaims(r, st) <==> (SpansAreWithin(r.draft.answer, st, id); Qualifies(r, st, id))
  {
    hide RightParent, Chain, Qualifies, SpansOf;
    SpansAreWithin(r.draft.answer, st, id);
  }

  /** All that the unit lists deserves to be published, and it asserts nothing else. */
  ghost predicate Passes(r: Report, st: Structure, u: U.Unit)
    requires st.Valid(r.draft.answer)
  {
    u.claimIds != [] && u.fullyClaimed && forall id | id in u.claimIds :: id < |st.claims| && Deserves(r, st, id)
  }

  /** Exactly the units that pass are published, and exactly the claims they list are kept. */
  lemma PublishedDecides(r: Report, st: Structure)
    requires r.Valid() && st.Valid(r.draft.answer)
    ensures forall u :: u in PublishedOf(r, st) <==> u in U.Units(Grouping(r, st)) && Passes(r, st, u)
    ensures forall id :: id in KeptClaims(PublishedOf(r, st)) <==>
              exists u :: u in U.Units(Grouping(r, st)) && Passes(r, st, u) && id in u.claimIds
  {
    hide RightParent, Chain, QualifiedClaims, Deserves, U.Units, Grouping;
    forall id: nat ensures id in QualifiedClaims(r, st) <==> id < |st.claims| && Deserves(r, st, id) {
      QualifiedDecides(r, st, id);
    }
    forall u: U.Unit ensures Publishable(u, QualifiedClaims(r, st)) <==> Passes(r, st, u) {
    }
  }

  /* ---- what is assessed ---- */

  /** The claims are all there is to assess, or the first hundred of it. */
  lemma FirstHundred(st: Structure, d: Draft, k: nat)
    requires st.Valid(d.answer) && Backward(Headings(d)) && Describes(st, d)
    ensures |st.claims| == if |PiecesOf(d)| <= 100 then |PiecesOf(d)| else 100
    ensures k < |st.claims| ==> st.claims[k] == PiecesOf(d)[k]
  {
    hide PiecesOf, Headings, Assessed, RightParent, Chain;
  }

  /* ---- what the grouping is told ---- */

  /** The headings above some claim are told, and no others. */
  lemma {:induction false} CatalogFromIs(st: Structure, h: nat, s: Span)
    ensures s in CatalogFrom(st, h) <==>
              exists k: nat | h <= k < |st.headings| :: HeadingSpan(st.headings[k]) == s && exists chain | chain in st.chains :: k in chain
    decreases |st.headings| - h
  {
    if h < |st.headings| {
      CatalogFromIs(st, h + 1, s);
    }
  }

  /** The checked formulas of the answer are told, and nothing else. */
  lemma {:induction false} FormulaSpansAre(checks: seq<Check>, length: nat, s: Span)
    ensures s in FormulaSpans(checks, length) <==>
              s.start < s.end <= length && exists c | c in checks :: c.kind == FormulaCheck && c.span == Some(s)
    decreases |checks|
  {
    if checks != [] {
      FormulaSpansAre(checks[1..], length, s);
      assert forall c | c in checks :: c == checks[0] || c in checks[1..];
    }
  }

  /** The grouping is told the claims with their places, the headings above them, and every formula. */
  lemma GroupingIsTold(r: Report, st: Structure)
    requires r.Valid() && st.Valid(r.draft.answer)
    ensures var input := Grouping(r, st);
            && input.answer == r.draft.answer && input.protected == r.math && input.uncite == r.draft.uncite
            && |input.claims| == |st.claims|
            && (forall i | 0 <= i < |st.claims| :: input.claims[i] == S.Claim(i, st.claims[i].start, st.claims[i].end))
            && (forall s :: s in input.headings <==>
                  exists k: nat | k < |st.headings| ::
                    st.headings[k].start == s.start && st.headings[k].end == s.end && exists chain | chain in st.chains :: k in chain)
            && (forall s :: s in input.formulas <==>
                  s.start < s.end <= |r.draft.answer| && exists c | c in r.checks :: c.kind == FormulaCheck && c.span == Some(s))
  {
    hide RightParent, Chain, CatalogFrom, FormulaSpans;
    forall s ensures s in Catalog(st) <==>
      exists k: nat | k < |st.headings| ::
        st.headings[k].start == s.start && st.headings[k].end == s.end && exists chain | chain in st.chains :: k in chain
    {
      CatalogFromIs(st, 0, s);
      assert forall k: nat | k < |st.headings| ::
        HeadingSpan(st.headings[k]) == s <==> st.headings[k].start == s.start && st.headings[k].end == s.end;
    }
    forall s ensures s in FormulaSpans(r.checks, |r.draft.answer|) <==>
      s.start < s.end <= |r.draft.answer| && exists c | c in r.checks :: c.kind == FormulaCheck && c.span == Some(s)
    {
      FormulaSpansAre(r.checks, |r.draft.answer|, s);
    }
  }

  /* ---- what stands between two spans ---- */

  /** The blanks of the answer where there is nothing else, and an empty line where text was left out. */
  lemma LeadIsGap(answer: string, s: Span, previous: nat)
    requires s.start <= |answer|
    ensures Lead(answer, s, None) == ""
    ensures previous > s.start ==> Lead(answer, s, Some(previous)) == ""
    ensures previous <= s.start && (forall k | previous <= k < s.start :: IsSpace(answer[k])) ==>
              Lead(answer, s, Some(previous)) == answer[previous..s.start]
    ensures previous <= s.start && (exists k | previous <= k < s.start :: !IsSpace(answer[k])) ==>
              Lead(answer, s, Some(previous)) == "\n\n"
  {
    if previous <= s.start {
      var gap := answer[previous..s.start];
      assert forall k | previous <= k < s.start :: gap[k - previous] == answer[k] && gap[k - previous] in gap;
    }
    hide IsSpace;
  }
}
