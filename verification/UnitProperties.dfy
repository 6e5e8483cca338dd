/**
 What the publication units of an answer are: a partition of its text that keeps every claim and
 every list item whole and joins nothing without a reason.
 */
module UnitProperties {
  import opened Basics
  import opened MarkdownLines
  import opened PublicationSegments
  import opened PublicationUnits

  function LinksOf(input: Input): set<nat>
    requires input.Valid()
  {
    PiecesInRow(input);
    Links(input, HeadingSpans(input, Guarded(input)), Pieces(input))
  }

  ghost predicate Visible(answer: string, p: nat)
  {
    p < |answer| && !IsSpace(answer[p])
  }

  ghost predicate Holding(s: Span, p: nat)
  {
    s.start <= p < s.end
  }

  /** The unit of the piece at a visible character. */
  lemma PieceAt(input: Input, p: nat) returns (i: nat)
    requires input.Valid() && Visible(input.answer, p)
    ensures i < |Pieces(input)| && Holding(Pieces(input)[i], p)
    ensures Home(LinksOf(input), i) < |UnitSpans(input)|
    ensures Holding(UnitSpans(input)[Home(LinksOf(input), i)], p)
  {
    hide CutList, Segments, Links, HeadingSpans, Guarded, Merged, Home;
    CutListSpans(input);
    SegmentsCover(input.answer, CutList(input), p);
    var s :| s in Pieces(input) && s.start <= p < s.end;
    i :| 0 <= i < |Pieces(input)| && Pieces(input)[i] == s;
    PiecesInRow(input);
    MergedInRow(input.answer, Pieces(input), LinksOf(input));
  }

  ghost predicate TrimmedOne(answer: string, s: Span)
  {
    s.start < s.end <= |answer| && !IsSpace(answer[s.start]) && !IsSpace(answer[s.end - 1])
  }

  lemma HoldsTrimmed(answer: string, pieces: seq<Span>, links: set<nat>, k: nat, s: Span)
    requires InRow(answer, pieces) && Trimmed(answer, pieces) && Holds(pieces, links, |pieces|, k, s)
    ensures TrimmedOne(answer, s)
  {
    hide Home;
    var a, b :| 0 <= a <= b < |pieces| && s == Span(pieces[a].start, pieces[b].end);
    assert pieces[a] in pieces && pieces[b] in pieces;
  }

  lemma UnitsAreTrimmed(input: Input)
    requires input.Valid()
    ensures Trimmed(input.answer, UnitSpans(input))
  {
    hide Pieces, Links, HeadingSpans, Guarded, Merged, Home, Holds, TrimmedOne;
    var units, pieces, links := UnitSpans(input), Pieces(input), LinksOf(input);
    PiecesInRow(input);
    MergedHolds(pieces, links, |pieces|);
    forall k | 0 <= k < |units| ensures TrimmedOne(input.answer, units[k]) {
      HoldsTrimmed(input.answer, pieces, links, k, units[k]);
    }
    AllTrimmed(input.answer, units);
  }

  lemma AllTrimmed(answer: string, spans: seq<Span>)
    requires InRow(answer, spans) && forall k | 0 <= k < |spans| :: TrimmedOne(answer, spans[k])
    ensures Trimmed(answer, spans)
  {
  }

  /** Units are trimmed and disjoint, and each visible character lies in exactly one of them. */
  lemma UnitsPartition(input: Input)
    requires input.Valid()
    ensures Trimmed(input.answer, UnitSpans(input))
    ensures forall p | Visible(input.answer, p) ::
              exists k | 0 <= k < |UnitSpans(input)| :: Holding(UnitSpans(input)[k], p)
    ensures forall p, j, k | 0 <= j < |UnitSpans(input)| && 0 <= k < |UnitSpans(input)| &&
                             Holding(UnitSpans(input)[j], p) && Holding(UnitSpans(input)[k], p) :: j == k
  {
    hide UnitSpans, LinksOf, Home;
    UnitsAreTrimmed(input);
    forall p | Visible(input.answer, p)
      ensures exists k | 0 <= k < |UnitSpans(input)| :: Holding(UnitSpans(input)[k], p)
    {
      var i := PieceAt(input, p);
    }
  }

  lemma {:induction false} LinkedHome(links: set<nat>, i: nat, j: nat)
    requires i <= j && forall n: nat | i <= n < j :: n in links
    ensures Home(links, i) == Home(links, j)
  {
    if i < j {
      LinkedHome(links, i, j - 1);
    }
  }

  /** Two neighbouring pieces share a unit exactly when a claim or a colon links them. */
  lemma NeighboursShareIffLinked(input: Input, i: nat)
    requires input.Valid() && i + 1 < |Pieces(input)|
    ensures InRow(input.answer, Pieces(input))
    ensures Home(LinksOf(input), i) == Home(LinksOf(input), i + 1)
       <==> Linked(input, HeadingSpans(input, Guarded(input)), Pieces(input), i)
  {
    hide Pieces, Linked, HeadingSpans, Guarded;
    PiecesInRow(input);
  }

  /** A claim without blank ends lies in one unit, which lists it, and touches no other. */
  lemma ClaimIsWhole(input: Input, c: Claim) returns (k: nat)
    requires input.Valid() && c in input.claims && c.start < c.end
    requires Visible(input.answer, c.start) && Visible(input.answer, c.end - 1)
    ensures k < |Units(input)|
    ensures Units(input)[k].start <= c.start && c.end <= Units(input)[k].end
    ensures c.id in Units(input)[k].claimIds
    ensures forall j | 0 <= j < |Units(input)| && Overlaps(c, Units(input)[j].start, Units(input)[j].end) :: j == k
  {
    hide Pieces, Links, Guarded, HeadingSpans, UnitSpans, Home;
    var i := PieceAt(input, c.start);
    var j := PieceAt(input, c.end - 1);
    var pieces, links, units := Pieces(input), LinksOf(input), UnitSpans(input);
    k := Home(links, i);
    PiecesInRow(input);
    PieceOrder(input.answer, pieces, i, j, c.start, c.end - 1);
    forall n: nat | i <= n < j ensures n in links {
      ClaimLinks(input, c, i, j, n);
    }
    LinkedHome(links, i, j);
    assert c in Members(input.claims, units[k].start, units[k].end);
    MemberIsListed(Members(input.claims, units[k].start, units[k].end), c);
  }

  lemma PieceOrder(answer: string, pieces: seq<Span>, i: nat, j: nat, p: nat, q: nat)
    requires InRow(answer, pieces) && i < |pieces| && j < |pieces|
    requires Holding(pieces[i], p) && Holding(pieces[j], q) && p <= q
    ensures i <= j
  {
  }

  lemma ClaimLinks(input: Input, c: Claim, i: nat, j: nat, n: nat)
    requires input.Valid() && c in input.claims && i <= n < j < |Pieces(input)|
    requires Touches(c, Pieces(input)[i]) && Touches(c, Pieces(input)[j])
    ensures n in LinksOf(input)
  {
    hide Pieces, HeadingSpans, Guarded, LeadsIn;
    PiecesInRow(input);
    assert Bridges(c, Pieces(input), n);
  }

  lemma MemberIsListed(members: seq<Claim>, c: Claim)
    requires c in members
    ensures c.id in Ids(members)
  {
    var i :| 0 <= i < |members| && members[i] == c;
    assert Ids(members)[i] == c.id;
  }

  /** All the visible text of a list item lies in one unit. */
  lemma ItemIsWhole(input: Input, x: Span, p: nat, q: nat) returns (k: nat)
    requires input.Valid() && x in ItemSpans(input)
    requires x.start <= p <= q < x.end && Visible(input.answer, p) && Visible(input.answer, q)
    ensures k < |UnitSpans(input)| && Holding(UnitSpans(input)[k], p) && Holding(UnitSpans(input)[k], q)
  {
    hide CutList, Segments, LinksOf, UnitSpans, Home, ItemSpans;
    CutListSpans(input);
    forall c | c in CutList(input) ensures !(p < c < q + 1) {
      NoCutInItem(input, x, c);
    }
    var i := PieceAt(input, p);
    SegmentsAreWhole(input.answer, CutList(input), Pieces(input)[i], p, q);
    k := Home(LinksOf(input), i);
    PieceInUnit(input, i);
  }

  lemma PieceInUnit(input: Input, i: nat)
    requires input.Valid() && i < |Pieces(input)|
    ensures var k := Home(LinksOf(input), i);
            && k < |UnitSpans(input)|
            && UnitSpans(input)[k].start <= Pieces(input)[i].start && Pieces(input)[i].end <= UnitSpans(input)[k].end
  {
    hide Pieces, Links, HeadingSpans, Guarded, Merged, Home;
    PiecesInRow(input);
    MergedInRow(input.answer, Pieces(input), LinksOf(input));
  }

  lemma NoCutInItem(input: Input, x: Span, c: nat)
    requires input.Valid() && x in ItemSpans(input) && c in CutList(input)
    ensures !(x.start < c < x.end)
  {
    hide Cuts, ItemSpans, Divisions, Guarded;
    CutsDecide(input, c);
    if Edge(ItemSpans(input), c) {
      var y :| y in ItemSpans(input) && (c == y.start || c == y.end);
      ChainedApart(ItemSpans(input), |input.answer|, x, y);
    }
  }

  lemma ChainedApart(spans: seq<Span>, length: nat, x: Span, y: Span)
    requires Chained(spans, 0, length) && x in spans && y in spans
    ensures x == y || x.end <= y.start || y.end <= x.start
  {
    var i :| 0 <= i < |spans| && spans[i] == x;
    var j :| 0 <= j < |spans| && spans[j] == y;
  }

  /** Between two consecutive units there is a cut, and no claim overlaps both. */
  lemma UnitsAreSeparate(input: Input, k: nat)
    requires input.Valid() && k + 1 < |UnitSpans(input)|
    ensures var u, v := UnitSpans(input)[k], UnitSpans(input)[k + 1];
            && (exists c | c in Cuts(input) :: u.end <= c <= v.start)
            && (forall c | c in input.claims :: !(Overlaps(c, u.start, u.end) && Overlaps(c, v.start, v.end)))
  {
    hide Pieces, Links, HeadingSpans, Guarded, Merged, Home, Cuts;
    var pieces, links, n := Pieces(input), LinksOf(input), |Pieces(input)|;
    var u, v := UnitSpans(input)[k], UnitSpans(input)[k + 1];
    PiecesInRow(input);
    MergedHolds(pieces, links, n);
    assert Holds(pieces, links, n, k, u) && Holds(pieces, links, n, k + 1, v);
    var b := LastPiece(input.answer, pieces, links, k, u, v);
    CutAfterPiece(input, b);
    forall c | c in input.claims
      ensures !(Overlaps(c, u.start, u.end) && Overlaps(c, v.start, v.end))
    {
      if Overlaps(c, u.start, u.end) && Overlaps(c, v.start, v.end) {
        ClaimLinks(input, c, b, b + 1, b);
      }
    }
  }

  /** The pieces on the two sides of the boundary between consecutive units. */
  lemma LastPiece(answer: string, pieces: seq<Span>, links: set<nat>, k: nat, u: Span, v: Span) returns (b: nat)
    requires InRow(answer, pieces)
    requires Holds(pieces, links, |pieces|, k, u) && Holds(pieces, links, |pieces|, k + 1, v)
    ensures b + 1 < |pieces| && pieces[b].end == u.end && pieces[b + 1].start == v.start && b !in links
  {
    var n := |pieces|;
    var c: nat;
    b := LastOf(pieces, links, k, u);
    c := FirstOf(pieces, links, k + 1, v);
    hide Home;
    if c <= b {
      HomeRises(links, c, b);
    }
    HomeRises(links, b, b + 1);
    HomeRises(links, b + 1, c);
    HomeSteps(links, b);
  }

  lemma HomeSteps(links: set<nat>, i: nat)
    ensures Home(links, i + 1) == Home(links, i) + if i in links then 0 else 1
  {
  }

  lemma LastOf(pieces: seq<Span>, links: set<nat>, k: nat, u: Span) returns (b: nat)
    requires Holds(pieces, links, |pieces|, k, u)
    ensures b < |pieces| && Home(links, b) == k && u.end == pieces[b].end
    ensures forall i | 0 <= i < |pieces| && Home(links, i) == k :: i <= b
  {
    hide Home;
    var a, last :| 0 <= a <= last < |pieces| && Home(links, a) == k == Home(links, last)
                   && u == Span(pieces[a].start, pieces[last].end)
                   && forall i | 0 <= i < |pieces| && Home(links, i) == k :: a <= i <= last;
    b := last;
  }

  lemma FirstOf(pieces: seq<Span>, links: set<nat>, k: nat, u: Span) returns (a: nat)
    requires Holds(pieces, links, |pieces|, k, u)
    ensures a < |pieces| && Home(links, a) == k && u.start == pieces[a].start
    ensures forall i | 0 <= i < |pieces| && Home(links, i) == k :: a <= i
  {
    hide Home;
    var first, b :| 0 <= first <= b < |pieces| && Home(links, first) == k == Home(links, b)
                    && u == Span(pieces[first].start, pieces[b].end)
                    && forall i | 0 <= i < |pieces| && Home(links, i) == k :: first <= i <= b;
    a := first;
  }

  lemma CutAfterPiece(input: Input, b: nat)
    requires input.Valid() && b + 1 < |Pieces(input)|
    ensures exists c | c in Cuts(input) :: Pieces(input)[b].end <= c <= Pieces(input)[b + 1].start
  {
    hide Cuts, Segments;
    CutBetween(input.answer, CutList(input), b);
  }

  /* ---- fully claimed units ---- */

  /** Each end of the stretch is an end of a claim or of the unit. */
  ghost predicate Between(members: seq<Claim>, start: nat, end: nat, a: nat, b: nat)
  {
    && (a == start || exists c | c in members :: c.end == a)
    && (b == end || exists c | c in members :: c.start == b)
  }

  /** The character lies in the text between two claims, or a claim and an end of the unit, and that whole text asserts nothing. */
  ghost predicate InScaffold(answer: string, members: seq<Claim>, start: nat, end: nat, p: nat)
    requires end <= |answer|
  {
    exists a, b :: start <= a <= p < b <= end && Between(members, start, end, a, b) && Scaffold(answer[a..b])
  }

  lemma {:induction false} CompleteCovers(answer: string, all: seq<Claim>, start: nat, members: seq<Claim>, cursor: nat,
                                          end: nat, p: nat)
    requires end <= |answer| && forall c | c in all :: c.start < end
    requires forall c | c in members :: c in all
    requires start <= cursor && (cursor == start || exists c | c in all :: c.end == cursor)
    requires Complete(answer, members, cursor, end) && cursor <= p < end
    ensures (exists c | c in members :: c.start <= p < c.end) || InScaffold(answer, all, start, end, p)
    decreases |members|
  {
    hide Scaffold;
    if members == [] {
      assert Between(all, start, end, cursor, end);
      assert Scaffold(answer[cursor..end]);
    } else {
      var c := members[0];
      if p < c.start {
        assert Between(all, start, end, cursor, c.start);
        assert Scaffold(answer[cursor..c.start]);
      } else if p >= c.end {
        CompleteCovers(answer, all, start, members[1..], if cursor < c.end then c.end else cursor, end, p);
      }
    }
  }

  /** In a fully claimed unit every character is claimed or belongs to scaffolding. */
  lemma FullyClaimedCovers(input: Input, k: nat, p: nat)
    requires input.Valid() && k < |Units(input)| && Units(input)[k].fullyClaimed
    requires Units(input)[k].start <= p < Units(input)[k].end
    ensures Units(input)[k].end <= |input.answer|
    ensures var u := Units(input)[k];
            var members := Members(input.claims, u.start, u.end);
            || (exists c | c in members :: c.id in u.claimIds && c.start <= p < c.end)
            || InScaffold(input.answer, members, u.start, u.end, p)
  {
    hide UnitSpans, Complete, InScaffold;
    var u := Units(input)[k];
    var members := Members(input.claims, u.start, u.end);
    CompleteCovers(input.answer, members, u.start, members, u.start, u.end, p);
    if exists c | c in members :: c.start <= p < c.end {
      var c :| c in members && c.start <= p < c.end;
      MemberIsListed(members, c);
    }
  }
}
