/**
 The claims of an answer: body text between divisions, headings nobody's body stands under, and the
 chain of headings above each of them (`_answer_structure` of grounding_verifier.py).
 */
module AnswerClaims {
  import opened Basics
  import opened MarkdownLines
  import opened PublicationSegments
  import opened AnswerStructure

  /** An answer with its formulas and citations; `word` tells the letters and digits. */
  datatype Draft = Draft(answer: string, protected: seq<Span>, uncite: string -> string, word: char -> bool)
  {
    ghost predicate Valid()
    {
      Within(protected, |answer|)
    }
  }

  /** A piece of text to be assessed and the number of the heading it stands under. */
  datatype Piece = Piece(start: nat, end: nat, context: Option<nat>)

  function DraftLines(d: Draft): (lines: seq<Line>)
    ensures forall line | line in lines :: line.start <= line.end <= line.next <= |d.answer|
  {
    LinesFrom(d.answer, 0)
  }

  function Code(d: Draft): seq<Span>
  {
    Fences(d.answer, DraftLines(d), d.protected, None)
  }

  function Headings(d: Draft): seq<Heading>
  {
    OutlineFrom(d.answer, d.protected + Code(d), DraftLines(d), Outline([], [])).headings
  }

  function HeadingSpan(h: Heading): Span
  {
    Span(h.start, h.end)
  }

  function Spans(headings: seq<Heading>): (spans: seq<Span>)
    ensures |spans| == |headings|
  {
    seq(|headings|, i requires 0 <= i < |headings| => HeadingSpan(headings[i]))
  }

  lemma HeadingsForest(d: Draft)
    ensures Forest(d.answer, Headings(d))
  {
    hide OutlineFrom, Good, Code, LinesFrom, Tiled;
    LinesAreTiled(d.answer, 0);
    EmptyIsGood(d.answer);
    OutlineIsGood(d.answer, d.protected + Code(d), DraftLines(d), Outline([], []), 0);
    GoodIsForest(d.answer, OutlineFrom(d.answer, d.protected + Code(d), DraftLines(d), Outline([], [])), |d.answer|);
  }

  lemma GoodIsForest(answer: string, o: Outline, from: nat)
    requires Good(answer, o, from)
    ensures Forest(answer, o.headings)
  {
  }

  lemma EmptyIsGood(answer: string)
    ensures Good(answer, Outline([], []), 0)
  {
  }

  /* ---- where claims may be divided ---- */

  predicate IsOpening(c: char)
  {
    var n := c as int;
    'A' <= c <= 'Z' || '0' <= c <= '9' || c == '"' || c == '(' || n == 0xAB || n == 0x0401 || 0x0410 <= n <= 0x042F
  }

  predicate IsGlue(c: char)
  {
    c == ' ' || c == '\t' || c == '\n'
  }

  function SkipGlue(text: string, i: nat): (r: nat)
    requires i <= |text|
    ensures i <= r <= |text|
    decreases |text| - i
  {
    if i < |text| && IsGlue(text[i]) then SkipGlue(text, i + 1) else i
  }

  /** White space between a full stop and the beginning of a sentence. */
  function SentenceGaps(text: string, i: nat): (gaps: seq<Span>)
    requires i <= |text|
    ensures Within(gaps, |text|)
    decreases |text| - i
  {
    if i == |text| then [] else
    var next := SkipGlue(text, i);
    if i > 0 && text[i - 1] in ".!?" && next > i && next < |text| && IsOpening(text[next])
    then [Span(i, next)] + SentenceGaps(text, next)
    else SentenceGaps(text, i + 1)
  }

  /** A list marker stands at `i`, after blanks. */
  predicate MarkerAt(text: string, i: nat)
    requires i <= |text|
  {
    var from := SkipPad(text, i);
    var after := from + DigitsOf(text, from);
    || (from < |text| && text[from] in "-*+" && SpaceAt(text, from + 1))
    || (after > from && after < |text| && text[after] in ".)" && SpaceAt(text, after + 1))
  }

  /** Line feeds before list items. */
  function ListGaps(text: string, i: nat): (gaps: seq<Span>)
    requires i <= |text|
    ensures Within(gaps, |text|)
    decreases |text| - i
  {
    if i == |text| then []
    else (if text[i] == '\n' && MarkerAt(text, i + 1) then [Span(i, i + 1)] else []) + ListGaps(text, i + 1)
  }

  /** A number with a dot or a bracket and nothing else. */
  predicate BareNumber(text: string)
  {
    var n := DigitsOf(text, 0);
    n > 0 && n + 1 == |text| && text[n] in ".)"
  }

  /** The line has only a list number before this place. */
  predicate AfterNumber(text: string, i: nat)
    requires i <= |text|
  {
    var prefix := text[LineStart(text, i)..i];
    BareNumber(prefix[SkipPad(prefix, 0)..])
  }

  function Breaks(d: Draft, shielded: seq<Span>): set<Span>
  {
    var matches := Gaps(d.answer, 0) + SentenceGaps(d.answer, 0) + ListGaps(d.answer, 0);
    set m | m in matches && m.start <= |d.answer| && !AfterNumber(d.answer, m.start)
            && !Inside(shielded, m.start) && !Inside(shielded, m.end)
  }

  function Divisions(d: Draft): set<nat>
  {
    hide Headings, Code, Breaks, Spans;
    var headings := Headings(d);
    var shielded := d.protected + Code(d) + Spans(headings);
    {0, |d.answer|} + Edges(set s | s in Code(d)) + Edges(set s | s in Spans(headings)) + Edges(Breaks(d, shielded))
  }

  function DivisionList(d: Draft): (cuts: seq<nat>)
    ensures Rising(d.answer, cuts)
  {
    hide Divisions;
    var cuts := InOrder(Divisions(d), 0, |d.answer|);
    assert forall i | 0 <= i < |cuts| :: cuts[i] in cuts;
    cuts
  }

  /* ---- body text ---- */

  /** The number of the last heading that starts at or before the position. */
  function ContextAt(headings: seq<Heading>, position: nat): (r: Option<nat>)
    ensures r.Some? ==> r.value < |headings|
  {
    if headings == [] then None
    else if headings[|headings| - 1].start <= position then Some(|headings| - 1)
    else ContextAt(headings[..|headings| - 1], position)
  }

  /** The heading above a piece is the last that starts at or before it. */
  ghost predicate StandsUnder(headings: seq<Heading>, p: Piece)
  {
    match p.context
    case None => forall j | 0 <= j < |headings| :: headings[j].start > p.start
    case Some(k) =>
      && k < |headings| && headings[k].start <= p.start
      && forall j | k < j < |headings| :: headings[j].start > p.start
  }

  lemma {:induction false} ContextIsLast(headings: seq<Heading>, p: Piece)
    requires p.context == ContextAt(headings, p.start)
    ensures StandsUnder(headings, p)
    decreases |headings|
  {
    var n := |headings| - 1;
    if headings != [] && headings[n].start > p.start {
      ContextIsLast(headings[..n], p);
      assert forall j | 0 <= j < n :: headings[..n][j] == headings[j];
    }
  }

  lemma ContextIsOne(headings: seq<Heading>, p: Piece)
    requires StandsUnder(headings, p)
    ensures p.context == ContextAt(headings, p.start)
  {
    ContextIsLast(headings, Piece(p.start, p.end, ContextAt(headings, p.start)));
  }

  predicate HasWord(d: Draft, text: string)
  {
    exists c | c in d.uncite(text) :: d.word(c)
  }

  /** Whether the text between two cuts is something to assess. */
  predicate IsBody(d: Draft, from: nat, to: nat, s: Span)
    requires s.start <= s.end <= |d.answer|
  {
    && Span(from, to) !in Spans(Headings(d))
    && !BareNumber(d.answer[s.start..s.end])
    && HasWord(d, d.answer[s.start..s.end])
  }

  function BodyBetween(d: Draft, from: nat, to: nat): seq<Piece>
    requires from <= to <= |d.answer|
  {
    var segment := SegmentBefore(d.answer, from, to);
    if segment == [] || !IsBody(d, from, to, segment[0]) then []
    else [Piece(segment[0].start, segment[0].end, ContextAt(Headings(d), segment[0].start))]
  }

  function Body(d: Draft, cuts: seq<nat>): seq<Piece>
    requires Rising(d.answer, cuts)
  {
    if |cuts| < 2 then [] else BodyBetween(d, cuts[0], cuts[1]) + Body(d, cuts[1..])
  }

  method CollectBody(d: Draft, cuts: seq<nat>) returns (units: seq<Piece>)
    requires Rising(d.answer, cuts)
    ensures units == Body(d, cuts)
  {
    hide BodyBetween;
    units := [];
    var k := 1;
    while k < |cuts|
      invariant k >= 1 && if cuts == [] then units == [] else k <= |cuts|
      invariant cuts != [] ==> Body(d, cuts) == units + Body(d, cuts[k - 1..])
    {
      assert cuts[k - 1..][0] == cuts[k - 1] && cuts[k - 1..][1] == cuts[k] && cuts[k - 1..][1..] == cuts[k..];
      units := units + BodyBetween(d, cuts[k - 1], cuts[k]);
      k := k + 1;
    }
    if cuts != [] {
      assert |cuts[|cuts| - 1..]| == 1;
    }
  }

  /** Digits, then a dot or a bracket, and nothing else. */
  ghost predicate Numeral(text: string)
  {
    && |text| >= 2 && (forall k | 0 <= k < |text| - 1 :: '0' <= text[k] <= '9')
    && (text[|text| - 1] == '.' || text[|text| - 1] == ')')
  }

  lemma {:induction false} DigitsReach(text: string, from: nat, last: nat)
    requires from <= last < |text| && !('0' <= text[last] <= '9') && forall k | from <= k < last :: '0' <= text[k] <= '9'
    ensures DigitsOf(text, from) == last - from
    decreases last - from
  {
    if from < last {
      DigitsReach(text, from + 1, last);
    }
  }

  lemma {:induction false} DigitsAreDigits(text: string, from: nat)
    ensures forall k | from <= k < from + DigitsOf(text, from) :: k < |text| && '0' <= text[k] <= '9'
    decreases |text| - from
  {
    if from < |text| && '0' <= text[from] <= '9' {
      DigitsAreDigits(text, from + 1);
    }
  }

  lemma BareIsNumeral(text: string)
    ensures BareNumber(text) <==> Numeral(text)
  {
    DigitsAreDigits(text, 0);
    if Numeral(text) {
      DigitsReach(text, 0, |text| - 1);
    }
  }

  /**
   A piece of body text: all the text between two consecutive cuts but the blanks at its ends, which
   is neither a heading nor a bare number, has a letter or digit outside citations, and stands
   under the heading before it.
   */
  ghost predicate Assessed(d: Draft, cuts: seq<nat>, p: Piece, k: nat)
    requires Rising(d.answer, cuts)
  {
    && k + 1 < |cuts| && cuts[k] <= p.start < p.end <= cuts[k + 1]
    && !IsSpace(d.answer[p.start]) && !IsSpace(d.answer[p.end - 1])
    && (forall q | cuts[k] <= q < p.start || p.end <= q < cuts[k + 1] :: IsSpace(d.answer[q]))
    && (forall h | h in Headings(d) :: h.start != cuts[k] || h.end != cuts[k + 1])
    && !Numeral(d.answer[p.start..p.end]) && (exists c | c in d.uncite(d.answer[p.start..p.end]) :: d.word(c))
    && StandsUnder(Headings(d), p)
  }

  lemma NotASpan(headings: seq<Heading>, from: nat, stop: nat)
    ensures Span(from, stop) !in Spans(headings) <==> forall h | h in headings :: h.start != from || h.end != stop
  {
    forall i | 0 <= i < |headings| ensures Spans(headings)[i] == Span(headings[i].start, headings[i].end) {
    }
    if Span(from, stop) in Spans(headings) {
      var i :| 0 <= i < |headings| && Spans(headings)[i] == Span(from, stop);
      assert headings[i] in headings;
    } else {
      forall h | h in headings ensures h.start != from || h.end != stop {
        var i :| 0 <= i < |headings| && headings[i] == h;
        assert Spans(headings)[i] in Spans(headings);
      }
    }
  }

  lemma OnlySegment(answer: string, from: nat, stop: nat, s: Span)
    requires from <= s.start < s.end <= stop <= |answer|
    requires !IsSpace(answer[s.start]) && !IsSpace(answer[s.end - 1])
    requires forall q | from <= q < s.start || s.end <= q < stop :: IsSpace(answer[q])
    ensures SegmentBefore(answer, from, stop) == [s]
  {
    hide SegmentBefore, IsSpace;
    var r := SegmentBefore(answer, from, stop);
    assert r != [];
    assert r[0].start <= s.start < r[0].end && r[0].start <= s.end - 1 < r[0].end;
  }

  lemma BetweenIsExact(d: Draft, cuts: seq<nat>, p: Piece)
    requires Rising(d.answer, cuts) && |cuts| >= 2
    ensures p in BodyBetween(d, cuts[0], cuts[1]) <==> Assessed(d, cuts, p, 0)
  {
    hide Headings, SegmentBefore, BareNumber, Numeral, Spans, ContextAt, IsSpace, StandsUnder;
    var from, stop := cuts[0], cuts[1];
    NotASpan(Headings(d), from, stop);
    var segment := SegmentBefore(d.answer, from, stop);
    if p in BodyBetween(d, from, stop) {
      BareIsNumeral(d.answer[p.start..p.end]);
      ContextIsLast(Headings(d), p);
    }
    if Assessed(d, cuts, p, 0) {
      OnlySegment(d.answer, from, stop, Span(p.start, p.end));
      BareIsNumeral(d.answer[p.start..p.end]);
      ContextIsOne(Headings(d), p);
    }
  }

  /** The body is exactly the pieces of body text. */
  lemma {:induction false} BodyIsExact(d: Draft, cuts: seq<nat>)
    requires Rising(d.answer, cuts)
    ensures forall p :: p in Body(d, cuts) <==> exists k :: Assessed(d, cuts, p, k)
    decreases |cuts|
  {
    hide BodyBetween, Assessed;
    if |cuts| >= 2 {
      BodyIsExact(d, cuts[1..]);
      forall p ensures p in Body(d, cuts) <==> exists k :: Assessed(d, cuts, p, k) {
        BetweenIsExact(d, cuts, p);
        forall k: nat | k > 0 ensures Assessed(d, cuts, p, k) <==> Assessed(d, cuts[1..], p, k - 1) {
          AssessedLater(d, cuts, p, k);
        }
        assert forall k: nat | Assessed(d, cuts[1..], p, k) :: Assessed(d, cuts, p, k + 1);
      }
    } else {
      forall p, k: nat ensures !Assessed(d, cuts, p, k) {
        TooFew(d, cuts, p, k);
      }
    }
  }

  lemma TooFew(d: Draft, cuts: seq<nat>, p: Piece, k: nat)
    requires Rising(d.answer, cuts) && |cuts| < 2
    ensures !Assessed(d, cuts, p, k)
  {
  }

  lemma AssessedLater(d: Draft, cuts: seq<nat>, p: Piece, k: nat)
    requires Rising(d.answer, cuts) && cuts != [] && Rising(d.answer, cuts[1..]) && k > 0
    ensures Assessed(d, cuts, p, k) <==> Assessed(d, cuts[1..], p, k - 1)
  {
    hide Headings, Numeral, IsSpace, StandsUnder;
    assert k < |cuts| ==> cuts[1..][k - 1] == cuts[k];
    assert k + 1 < |cuts| ==> cuts[1..][k] == cuts[k + 1];
  }

  /* ---- headings with nobody's body under them ---- */

  /** `j` is heading `i` itself or above it. */
  ghost predicate Above(headings: seq<Heading>, j: nat, i: nat)
    requires i < |headings| && Backward(headings)
    decreases i
  {
    j == i || (headings[i].parent.Some? && Above(headings, j, headings[i].parent.value))
  }

  /** Parents come before their children. */
  ghost predicate Backward(headings: seq<Heading>)
  {
    forall i | 0 <= i < |headings| && headings[i].parent.Some? :: headings[i].parent.value < i
  }

  ghost predicate Carries(headings: seq<Heading>, pieces: seq<Piece>, j: nat)
    requires Backward(headings)
  {
    exists p | p in pieces :: p.context.Some? && p.context.value < |headings| && Above(headings, j, p.context.value)
  }

  lemma ForestIsBackward(answer: string, headings: seq<Heading>)
    requires Forest(answer, headings)
    ensures Backward(headings)
  {
    forall i | 0 <= i < |headings| && headings[i].parent.Some? ensures headings[i].parent.value < i {
      assert RightParent(answer, headings, i);
    }
  }

  /** The headings some body stands under, found in one pass from the last heading to the first. */
  method UsedHeadings(headings: seq<Heading>, pieces: seq<Piece>) returns (used: set<nat>)
    requires Backward(headings)
    requires forall p | p in pieces && p.context.Some? :: p.context.value < |headings|
    ensures forall j: nat :: j in used <==> Carries(headings, pieces, j)
  {
    used := set p | p in pieces && p.context.Some? :: p.context.value;
    ghost var roots := used;
    var i := |headings|;
    while i > 0
      invariant 0 <= i <= |headings| && roots <= used
      invariant forall j | j in used :: j < |headings| && Carries(headings, pieces, j)
      invariant forall j | j in used && i <= j && headings[j].parent.Some? :: headings[j].parent.value in used
    {
      i := i - 1;
      if i in used && headings[i].parent.Some? {
        CarriesParent(headings, pieces, i);
        used := used + {headings[i].parent.value};
      }
    }
    forall j: nat | Carries(headings, pieces, j) ensures j in used {
      var p :| p in pieces && p.context.Some? && p.context.value < |headings| && Above(headings, j, p.context.value);
      assert p.context.value in roots;
      ClosedUpwards(headings, used, j, p.context.value);
    }
  }

  lemma CarriesParent(headings: seq<Heading>, pieces: seq<Piece>, i: nat)
    requires Backward(headings) && i < |headings| && headings[i].parent.Some? && Carries(headings, pieces, i)
    ensures headings[i].parent.value < |headings| && Carries(headings, pieces, headings[i].parent.value)
  {
    var p :| p in pieces && p.context.Some? && p.context.value < |headings| && Above(headings, i, p.context.value);
    AboveParent(headings, i, p.context.value);
  }

  lemma {:induction false} AboveParent(headings: seq<Heading>, j: nat, i: nat)
    requires Backward(headings) && i < |headings| && Above(headings, j, i)
    ensures j < |headings| && (headings[j].parent.Some? ==> Above(headings, headings[j].parent.value, i))
    decreases i
  {
    if j != i {
      AboveParent(headings, j, headings[i].parent.value);
    }
  }

  lemma {:induction false} ClosedUpwards(headings: seq<Heading>, used: set<nat>, j: nat, i: nat)
    requires Backward(headings) && i < |headings| && i in used && Above(headings, j, i)
    requires forall k | k in used :: k < |headings| && (headings[k].parent.Some? ==> headings[k].parent.value in used)
    ensures j in used
    decreases i
  {
    if j != i {
      ClosedUpwards(headings, used, j, headings[i].parent.value);
    }
  }

  /** A unit for each heading that is not used, under its own parent. */
  function Orphans(headings: seq<Heading>, used: set<nat>, i: nat): seq<Piece>
    requires i <= |headings|
    decreases |headings| - i
  {
    if i == |headings| then []
    else (if i in used then [] else [Piece(headings[i].start, headings[i].end, headings[i].parent)])
         + Orphans(headings, used, i + 1)
  }

  lemma {:induction false} OrphansHold(headings: seq<Heading>, used: set<nat>, i: nat, j: nat)
    requires i <= j < |headings| && j !in used
    ensures Piece(headings[j].start, headings[j].end, headings[j].parent) in Orphans(headings, used, i)
    decreases |headings| - i
  {
    if i < j {
      OrphansHold(headings, used, i + 1, j);
    }
  }

  /* ---- the claims in order ---- */

  function Insert(p: Piece, s: seq<Piece>): (r: seq<Piece>)
    ensures multiset(r) == multiset{p} + multiset(s)
  {
    if s == [] then [p]
    else if p.start <= s[0].start then [p] + s
    else
      assert s == [s[0]] + s[1..];
      [s[0]] + Insert(p, s[1..])
  }

  function SortByStart(s: seq<Piece>): (r: seq<Piece>)
    ensures multiset(r) == multiset(s)
  {
    if s == [] then []
    else
      assert s == [s[0]] + s[1..];
      Insert(s[0], SortByStart(s[1..]))
  }

  ghost predicate ByStart(s: seq<Piece>)
  {
    forall i, j | 0 <= i < j < |s| :: s[i].start <= s[j].start
  }

  lemma {:induction false} InsertSorts(p: Piece, s: seq<Piece>)
    requires ByStart(s)
    ensures ByStart(Insert(p, s))
  {
    if s != [] && p.start > s[0].start {
      InsertSorts(p, s[1..]);
      var r := Insert(p, s[1..]);
      forall j | 0 <= j < |r| ensures s[0].start <= r[j].start {
        assert r[j] in multiset(r);
        assert r[j] == p || r[j] in s[1..];
      }
    }
  }

  lemma {:induction false} SortSorts(s: seq<Piece>)
    ensures ByStart(SortByStart(s))
  {
    if s != [] {
      SortSorts(s[1..]);
      InsertSorts(s[0], SortByStart(s[1..]));
    }
  }

  const CAP := 100

  /** The headings that carry some of the body. */
  ghost function Carriers(headings: seq<Heading>, body: seq<Piece>): set<nat>
    requires Backward(headings)
  {
    set j: nat | j < |headings| && Carries(headings, body, j)
  }

  /** Everything to be assessed: the body and the headings that carry none of it, in order of start. */
  ghost function PiecesOf(d: Draft): seq<Piece>
    requires Backward(Headings(d))
  {
    var body := Body(d, DivisionList(d));
    SortByStart(body + Orphans(Headings(d), Carriers(Headings(d), body), 0))
  }

  lemma CarriersAreUsed(headings: seq<Heading>, body: seq<Piece>, used: set<nat>)
    requires Backward(headings) && forall j: nat :: j in used <==> Carries(headings, body, j)
    ensures used == Carriers(headings, body)
  {
    forall j | j in used ensures j < |headings| {
      var p :| p in body && p.context.Some? && p.context.value < |headings| && Above(headings, j, p.context.value);
      AboveParent(headings, j, p.context.value);
    }
  }

  /** Every piece to be assessed, in the order of the text, before the cap. */
  method AllPieces(d: Draft) returns (headings: seq<Heading>, body: seq<Piece>, pieces: seq<Piece>)
    requires d.Valid()
    ensures headings == Headings(d) && Forest(d.answer, headings) && Backward(headings)
    ensures body == Body(d, DivisionList(d))
    ensures forall p :: p in body <==> exists k :: Assessed(d, DivisionList(d), p, k)
    ensures pieces == PiecesOf(d) && ByStart(pieces)
    ensures forall p | p in body :: p in pieces
    ensures forall j | 0 <= j < |headings| ::
              Carries(headings, body, j) || Piece(headings[j].start, headings[j].end, headings[j].parent) in pieces
    ensures forall p | p in pieces :: p in body ||
              exists j | 0 <= j < |headings| ::
                !Carries(headings, body, j) && p == Piece(headings[j].start, headings[j].end, headings[j].parent)
  {
    hide Headings, Divisions, Body, Forest, Carries, Assessed;
    var fences := FindFences(d.answer, DraftLines(d), d.protected);
    headings := FindHeadings(d.answer, d.protected + fences, DraftLines(d));
    assert headings == Headings(d) by { HeadingsUnfold(d); }
    HeadingsForest(d);
    ForestIsBackward(d.answer, headings);
    body := CollectBody(d, DivisionList(d));
    BodyContexts(d, DivisionList(d));
    BodyIsExact(d, DivisionList(d));
    var used := UsedHeadings(headings, body);
    var orphans := Orphans(headings, used, 0);
    pieces := SortByStart(body + orphans);
    CarriersAreUsed(headings, body, used);
    SortSorts(body + orphans);
    SortKeeps(body + orphans);
    forall j | 0 <= j < |headings|
      ensures Carries(headings, body, j) || Piece(headings[j].start, headings[j].end, headings[j].parent) in pieces
    {
      if j !in used {
        OrphansHold(headings, used, 0, j);
      }
    }
    OrphansOnly(headings, used, 0);
  }

  lemma HeadingsUnfold(d: Draft)
    ensures Headings(d) == OutlineFrom(d.answer, d.protected + Code(d), DraftLines(d), Outline([], [])).headings
  {
  }

  lemma SortKeeps(s: seq<Piece>)
    ensures forall p :: p in SortByStart(s) <==> p in s
  {
    forall p ensures p in SortByStart(s) <==> p in s {
      assert p in multiset(SortByStart(s)) <==> p in multiset(s);
    }
  }

  lemma {:induction false} OrphansOnly(headings: seq<Heading>, used: set<nat>, i: nat)
    requires i <= |headings|
    ensures forall p | p in Orphans(headings, used, i) ::
              exists j | i <= j < |headings| :: j !in used && p == Piece(headings[j].start, headings[j].end, headings[j].parent)
    decreases |headings| - i
  {
    if i < |headings| {
      OrphansOnly(headings, used, i + 1);
    }
  }

  lemma {:induction false} BodyContexts(d: Draft, cuts: seq<nat>)
    requires Rising(d.answer, cuts)
    ensures forall p | p in Body(d, cuts) && p.context.Some? :: p.context.value < |Headings(d)|
    decreases |cuts|
  {
    hide Headings, IsBody;
    if |cuts| >= 2 {
      BodyContexts(d, cuts[1..]);
    }
  }

  /* ---- no factual text escapes ---- */

  ghost predicate InHeading(d: Draft, p: nat)
  {
    exists h | h in Headings(d) :: h.start <= p < h.end
  }

  /** The text at `p` between two consecutive cuts, without blank ends. */
  ghost predicate Holds(d: Draft, cuts: seq<nat>, k: nat, s: Span, p: nat)
    requires Rising(d.answer, cuts)
  {
    && k + 1 < |cuts| && SegmentBefore(d.answer, cuts[k], cuts[k + 1]) == [s]
    && cuts[k] <= s.start <= p < s.end <= cuts[k + 1]
  }

  /** The whole text between the cuts around `p` is a number with a dot or a bracket. */
  ghost predicate InBareNumber(d: Draft, cuts: seq<nat>, p: nat)
    requires Rising(d.answer, cuts)
  {
    exists k, s :: Holds(d, cuts, k, s, p) && BareNumber(d.answer[s.start..s.end])
  }

  /** The whole text between the cuts around `p`, its citations taken away, has no letter and no digit. */
  ghost predicate InWordless(d: Draft, cuts: seq<nat>, p: nat)
    requires Rising(d.answer, cuts)
  {
    exists k, s :: Holds(d, cuts, k, s, p) && !HasWord(d, d.answer[s.start..s.end])
  }

  ghost predicate InBody(d: Draft, cuts: seq<nat>, p: nat)
    requires Rising(d.answer, cuts)
  {
    exists x | x in Body(d, cuts) :: x.start <= p < x.end
  }

  lemma FirstCovers(d: Draft, cuts: seq<nat>, p: nat)
    requires Rising(d.answer, cuts) && |cuts| >= 2 && cuts[0] <= p < cuts[1]
    requires p < |d.answer| && !IsSpace(d.answer[p])
    ensures InHeading(d, p) || InBareNumber(d, cuts, p) || InWordless(d, cuts, p) || InBody(d, cuts, p)
  {
    hide SegmentBefore, BareNumber, HasWord, Headings;
    var s := SegmentBefore(d.answer, cuts[0], cuts[1])[0];
    assert Holds(d, cuts, 0, s, p);
    if IsBody(d, cuts[0], cuts[1], s) {
      var x := Piece(s.start, s.end, ContextAt(Headings(d), s.start));
      assert x in BodyBetween(d, cuts[0], cuts[1]);
      assert x in Body(d, cuts);
    } else if Span(cuts[0], cuts[1]) in Spans(Headings(d)) {
      var i :| 0 <= i < |Headings(d)| && Spans(Headings(d))[i] == Span(cuts[0], cuts[1]);
      assert Headings(d)[i] in Headings(d);
    }
  }

  lemma LaterCovers(d: Draft, cuts: seq<nat>, p: nat)
    requires Rising(d.answer, cuts) && |cuts| >= 2 && Rising(d.answer, cuts[1..])
    ensures InBareNumber(d, cuts[1..], p) ==> InBareNumber(d, cuts, p)
    ensures InWordless(d, cuts[1..], p) ==> InWordless(d, cuts, p)
    ensures InBody(d, cuts[1..], p) ==> InBody(d, cuts, p)
  {
    hide SegmentBefore, BareNumber, HasWord, BodyBetween;
    forall k: nat, s | Holds(d, cuts[1..], k, s, p) ensures Holds(d, cuts, k + 1, s, p) {
    }
  }

  lemma {:induction false} BodyCovers(d: Draft, cuts: seq<nat>, p: nat)
    requires Rising(d.answer, cuts) && |cuts| >= 2 && cuts[0] <= p < cuts[|cuts| - 1]
    requires p < |d.answer| && !IsSpace(d.answer[p])
    ensures InHeading(d, p) || InBareNumber(d, cuts, p) || InWordless(d, cuts, p) || InBody(d, cuts, p)
    decreases |cuts|
  {
    hide InHeading, InBareNumber, InWordless, InBody;
    if p < cuts[1] {
      FirstCovers(d, cuts, p);
    } else {
      BodyCovers(d, cuts[1..], p);
      LaterCovers(d, cuts, p);
    }
  }

  lemma EndsAreDivisions(d: Draft)
    ensures 0 in Divisions(d) && |d.answer| in Divisions(d)
  {
    hide Headings, Code, Breaks, Edges, Spans;
  }

  lemma DivisionsSpan(d: Draft)
    requires d.answer != ""
    ensures var cuts := DivisionList(d); |cuts| >= 2 && cuts[0] == 0 && cuts[|cuts| - 1] == |d.answer|
  {
    hide Divisions;
    EndsAreDivisions(d);
    var n, cuts := |d.answer|, DivisionList(d);
    assert 0 in cuts && n in cuts;
    var i :| 0 <= i < |cuts| && cuts[i] == 0;
    var j :| 0 <= j < |cuts| && cuts[j] == n;
    assert cuts[|cuts| - 1] <= n;
  }

  /**
   Before the cap, every visible character is in an assessed piece, in a heading, in a bare number
   that stands alone between two cuts, or in such a text without letters and digits.
   */
  lemma NothingEscapes(d: Draft, p: nat)
    requires p < |d.answer| && !IsSpace(d.answer[p])
    ensures var cuts := DivisionList(d);
            InBody(d, cuts, p) || InHeading(d, p) || InBareNumber(d, cuts, p) || InWordless(d, cuts, p)
  {
    hide DivisionList, InHeading, InBareNumber, InWordless, InBody;
    DivisionsSpan(d);
    BodyCovers(d, DivisionList(d), p);
  }

  /** A letter or digit escapes assessment only in a bare number, or where the removal of citations removes it. */
  lemma WordsAreAssessed(d: Draft, p: nat)
    requires p < |d.answer| && !IsSpace(d.answer[p]) && d.word(d.answer[p])
    ensures var cuts := DivisionList(d);
            || InBody(d, cuts, p) || InHeading(d, p) || InBareNumber(d, cuts, p)
            || exists k, s :: Holds(d, cuts, k, s, p) && d.answer[p] !in d.uncite(d.answer[s.start..s.end])
  {
    hide DivisionList, InHeading, InBareNumber, InBody, Holds;
    NothingEscapes(d, p);
    var cuts := DivisionList(d);
    if InWordless(d, cuts, p) {
      WordlessUncites(d, cuts, p);
    }
  }

  lemma WordlessUncites(d: Draft, cuts: seq<nat>, p: nat)
    requires Rising(d.answer, cuts) && p < |d.answer| && d.word(d.answer[p]) && InWordless(d, cuts, p)
    ensures exists k, s :: Holds(d, cuts, k, s, p) && d.answer[p] !in d.uncite(d.answer[s.start..s.end])
  {
    hide SegmentBefore;
  }

  /* ---- chains of headings ---- */

  /** The headings above a piece, from the outermost to the innermost. */
  function Chain(headings: seq<Heading>, context: Option<nat>): seq<nat>
    requires Backward(headings) && (context.Some? ==> context.value < |headings|)
    decreases if context.Some? then context.value + 1 else 0
  {
    if context.None? then [] else Chain(headings, headings[context.value].parent) + [context.value]
  }

  ghost predicate AllUpTo(chain: seq<nat>, limit: nat)
  {
    forall a | 0 <= a < |chain| :: chain[a] <= limit
  }

  ghost predicate Ascending(chain: seq<nat>)
  {
    forall a, b | 0 <= a < b < |chain| :: chain[a] < chain[b]
  }

  lemma AscendingPush(chain: seq<nat>, limit: nat, last: nat)
    requires Ascending(chain) && (chain == [] || (AllUpTo(chain, limit) && limit < last))
    ensures Ascending(chain + [last]) && AllUpTo(chain + [last], last)
  {
    var all := chain + [last];
    forall a | 0 <= a < |chain| ensures all[a] < last {
      assert chain[a] <= limit;
    }
  }

  /** Chains ascend and hold exactly the headings above the context. */
  lemma {:induction false} ChainIsAbove(headings: seq<Heading>, context: Option<nat>)
    requires Backward(headings) && (context.Some? ==> context.value < |headings|)
    ensures var chain := Chain(headings, context);
            && Ascending(chain)
            && (forall j: nat :: j in chain <==> context.Some? && Above(headings, j, context.value))
            && (context.None? ==> chain == [])
    ensures context.Some? ==> AllUpTo(Chain(headings, context), context.value)
    decreases if context.Some? then context.value + 1 else 0
  {
    if context.Some? {
      var outer := Chain(headings, headings[context.value].parent);
      ChainIsAbove(headings, headings[context.value].parent);
      var parent := headings[context.value].parent;
      AscendingPush(outer, if parent.Some? then parent.value else 0, context.value);
    }
  }

  method ContextChain(headings: seq<Heading>, context: Option<nat>) returns (chain: seq<nat>)
    requires Backward(headings) && (context.Some? ==> context.value < |headings|)
    ensures chain == Chain(headings, context)
  {
    chain := [];
    var at: Option<nat> := context;
    while at.Some?
      invariant at.Some? ==> at.value < |headings|
      invariant Chain(headings, context) == Chain(headings, at) + chain
      decreases if at.Some? then at.value + 1 else 0
    {
      chain := [at.value] + chain;
      at := headings[at.value].parent;
    }
  }
}
