/**
 Grouping an answer into units that are published or withheld as a whole, as
 atomic_publication.py does: segments that share a claim, or that a colon ties to a formula, form
 one unit.
 */
module PublicationUnits {
  import opened Basics
  import opened MarkdownLines
  import opened PublicationSegments

  datatype Unit = Unit(start: nat, end: nat, claimIds: seq<nat>, fullyClaimed: bool)

  /* ---- list items and cuts ---- */

  ghost predicate Chained(spans: seq<Span>, from: nat, length: nat)
  {
    && (forall s | s in spans :: from <= s.start < s.end <= length)
    && (forall i, j | 0 <= i < j < |spans| :: spans[i].end <= spans[j].start)
  }

  lemma ChainedBefore(s: Span, rest: seq<Span>, length: nat)
    requires s.start < s.end <= length && Chained(rest, s.end, length)
    ensures Chained([s] + rest, s.start, length)
  {
    var all := [s] + rest;
    forall j | 1 <= j < |all| ensures s.end <= all[j].start {
      assert all[j] in rest;
    }
  }

  lemma {:induction false} ItemsAreChained(answer: string, lines: seq<Line>, guarded: seq<Span>, headings: set<Span>,
                                           item: Option<Item>, blank: bool, from: nat)
    requires Tiled(lines, from, |answer|) && forall line | line in lines :: line.start <= line.end <= |answer|
    requires item.Some? ==> item.value.start < from
    ensures Chained(Items(answer, lines, guarded, headings, item, blank),
                    if item.Some? then item.value.start else from, |answer|)
    decreases |lines|
  {
    hide ListMarker, Inside, Blank, EndsItem, Chained;
    ChainedFacts(from, |answer|);
    if lines == [] {
      if item.Some? {
        ChainedBefore(Span(item.value.start, |answer|), [], |answer|);
        assert [Span(item.value.start, |answer|)] + [] == [Span(item.value.start, |answer|)];
      }
    } else {
      var line, rest := lines[0], lines[1..];
      var marker := ListMarker(answer[line.start..line.end]);
      ItemsAreChained(answer, rest, guarded, headings, item, blank, line.next);
      ItemsAreChained(answer, rest, guarded, headings, item, true, line.next);
      ItemsAreChained(answer, rest, guarded, headings, item, false, line.next);
      ChainedWeaken(Items(answer, rest, guarded, headings, item, blank), line.next, from, |answer|);
      ChainedWeaken(Items(answer, rest, guarded, headings, item, true), line.next, from, |answer|);
      if marker.Some? {
        var begun := Items(answer, rest, guarded, headings, Some(Item(line.start, marker.value)), false);
        ItemsAreChained(answer, rest, guarded, headings, Some(Item(line.start, marker.value)), false, line.next);
        if item.Some? {
          ChainedBefore(Span(item.value.start, line.start), begun, |answer|);
        }
      }
      if item.Some? {
        var closed := Items(answer, rest, guarded, headings, None, false);
        ItemsAreChained(answer, rest, guarded, headings, None, false, line.next);
        ChainedWeaken(closed, line.next, line.start, |answer|);
        ChainedBefore(Span(item.value.start, line.start), closed, |answer|);
      }
    }
  }

  lemma ChainedFacts(from: nat, length: nat)
    ensures Chained([], from, length)
  {
  }

  lemma ChainedWeaken(spans: seq<Span>, from: nat, lower: nat, length: nat)
    requires lower <= from
    ensures Chained(spans, from, length) ==> Chained(spans, lower, length)
  {
  }

  ghost predicate Edge(spans: seq<Span>, p: nat)
  {
    exists x | x in spans :: p == x.start || p == x.end
  }

  /** The order of the items does not matter: inner points go, ends stay. */
  lemma {:induction false} AbsorbDecides(points: set<nat>, items: seq<Span>, from: nat, length: nat, p: nat)
    requires Chained(items, from, length)
    ensures p in Absorb(points, items) <==> (p in points && !Inside(items, p)) || Edge(items, p)
    decreases |items|
  {
    hide Chained, Inside, Edge;
    HeadFacts(items, from, length, p);
    if items != [] {
      var x := items[0];
      var points' := (set p | p in points && !(x.start < p < x.end)) + {x.start, x.end};
      AbsorbDecides(points', items[1..], x.end, length, p);
    }
  }

  lemma HeadFacts(items: seq<Span>, from: nat, length: nat, p: nat)
    requires Chained(items, from, length)
    ensures items == [] ==> !Inside(items, p) && !Edge(items, p)
    ensures items != [] ==>
              var x, rest := items[0], items[1..];
              && Chained(rest, x.end, length)
              && (Inside(items, p) <==> x.start < p < x.end || Inside(rest, p))
              && (Edge(items, p) <==> p == x.start || p == x.end || Edge(rest, p))
              && (Inside(rest, p) ==> p > x.end >= x.start)
  {
    if items != [] {
      var x, rest := items[0], items[1..];
      assert forall y | y in items :: y == x || y in rest;
      forall y | y in rest ensures y in items && x.end <= y.start {
        var i :| 0 <= i < |rest| && rest[i] == y;
        assert items[i + 1] == y;
      }
      assert x in items;
    }
  }

  function ItemSpans(input: Input): seq<Span>
  {
    var guarded := Guarded(input);
    Items(input.answer, Lines(input), guarded, HeadingSpans(input, guarded), None, false)
  }

  /** The cuts are the divisions outside list items and the ends of list items. */
  lemma CutsDecide(input: Input, p: nat)
    requires input.Valid()
    ensures Within(Guarded(input), |input.answer|)
    ensures Chained(ItemSpans(input), 0, |input.answer|)
    ensures p in Cuts(input) <==>
              (p in Divisions(input, Guarded(input)) && !Inside(ItemSpans(input), p)) || Edge(ItemSpans(input), p)
  {
    hide Divisions, Guarded, HeadingSpans;
    GuardedIsWithin(input);
    LinesAreTiled(input.answer, 0);
    ItemsAreChained(input.answer, Lines(input), Guarded(input), HeadingSpans(input, Guarded(input)), None, false, 0);
    AbsorbDecides(Divisions(input, Guarded(input)), ItemSpans(input), 0, |input.answer|, p);
  }

  function CutList(input: Input): (cuts: seq<nat>)
    requires input.Valid()
    ensures Rising(input.answer, cuts)
  {
    hide Cuts;
    var cuts := InOrder(Cuts(input), 0, |input.answer|);
    assert forall i | 0 <= i < |cuts| :: cuts[i] in cuts;
    cuts
  }

  /** The answer is cut at its beginning and at its end. */
  lemma CutListSpans(input: Input)
    requires input.Valid() && input.answer != ""
    ensures var cuts := CutList(input); |cuts| >= 2 && cuts[0] == 0 && cuts[|cuts| - 1] == |input.answer|
  {
    hide Cuts;
    var n, cuts := |input.answer|, CutList(input);
    EndsAreCuts(input);
    assert 0 in cuts && n in cuts;
    assert cuts[0] == 0 by {
      var i :| 0 <= i < |cuts| && cuts[i] == 0;
    }
    var j :| 0 <= j < |cuts| && cuts[j] == n;
    assert cuts[|cuts| - 1] <= n;
  }

  lemma EndsAreCuts(input: Input)
    requires input.Valid()
    ensures 0 in Cuts(input) && |input.answer| in Cuts(input)
  {
    hide Cuts, ItemSpans, Guarded;
    CutsDecide(input, 0);
    CutsDecide(input, |input.answer|);
    assert 0 in Divisions(input, Guarded(input)) && |input.answer| in Divisions(input, Guarded(input));
  }

  /** The trimmed pieces between the cuts. */
  function Pieces(input: Input): seq<Span>
    requires input.Valid()
  {
    Segments(input.answer, CutList(input))
  }

  /* ---- joining pieces ---- */

  predicate Touches(claim: Claim, s: Span)
  {
    s.start < claim.end && claim.start < s.end
  }

  /** The claim reaches from a piece at or before `i` to one after it. */
  predicate Bridges(claim: Claim, pieces: seq<Span>, i: nat)
    requires i + 1 < |pieces|
  {
    && (exists j | 0 <= j <= i :: Touches(claim, pieces[j]))
    && (exists k | i < k < |pieces| :: Touches(claim, pieces[k]))
  }

  predicate StartsWithAny(text: string, prefixes: seq<string>)
  {
    exists p | p in prefixes :: p <= text
  }

  const OPENERS := ["$$", "\\[", "[MATH:", "$", "\\("]

  predicate IsQuiet(c: char)
  {
    c == ' ' || c == '\t' || c == '\r' || c == '\n' || c == '`'
  }

  /** Whether the piece begins with a displayed formula, known by its delimiter or by its position. */
  predicate ShowsFormula(input: Input, s: Span)
    requires s.start <= s.end <= |input.answer|
  {
    var text := input.uncite(Text(input.answer, s));
    || StartsWithAny(text[TrimStart(text, 0, |text|)..], OPENERS)
    || exists f | f in input.formulas ::
         s.start <= f.start < f.end <= s.end && forall c | c in input.answer[s.start..f.start] :: IsQuiet(c)
  }

  /** The text ends in a colon once citations are removed. */
  predicate EndsInColon(input: Input, s: Span)
    requires s.start <= s.end <= |input.answer|
  {
    var text := input.uncite(Text(input.answer, s));
    var n := TrimEnd(text, 0, |text|);
    n > 0 && text[n - 1] == ':'
  }

  predicate LeadsIn(input: Input, headings: set<Span>, a: Span, b: Span)
    requires a.start <= a.end <= b.start <= b.end <= |input.answer|
  {
    a !in headings && Blank(input.answer[a.end..b.start]) && EndsInColon(input, a) && ShowsFormula(input, b)
  }

  predicate Linked(input: Input, headings: set<Span>, pieces: seq<Span>, i: nat)
    requires i + 1 < |pieces| && pieces[i].start <= pieces[i].end <= pieces[i + 1].start <= pieces[i + 1].end <= |input.answer|
  {
    (exists c | c in input.claims :: Bridges(c, pieces, i)) || LeadsIn(input, headings, pieces[i], pieces[i + 1])
  }

  predicate InRow(answer: string, pieces: seq<Span>)
  {
    && (forall i | 0 <= i < |pieces| :: pieces[i].start < pieces[i].end <= |answer|)
    && (forall i, j | 0 <= i < j < |pieces| :: pieces[i].end <= pieces[j].start)
  }

  function Links(input: Input, headings: set<Span>, pieces: seq<Span>): set<nat>
    requires InRow(input.answer, pieces)
  {
    set i: nat | i < |pieces| && i + 1 < |pieces| && Linked(input, headings, pieces, i)
  }

  /** What one claim links: everything from the first piece it touches to the last. */
  method LinksOfClaim(claim: Claim, pieces: seq<Span>) returns (links: set<nat>)
    ensures forall i: nat :: i in links <==> i + 1 < |pieces| && Bridges(claim, pieces, i)
  {
    var first: Option<nat> := None;
    var last: nat := 0;
    for k := 0 to |pieces|
      invariant first.None? ==> forall j | 0 <= j < k :: !Touches(claim, pieces[j])
      invariant first.Some? ==> first.value <= last < k && Touches(claim, pieces[first.value]) && Touches(claim, pieces[last])
      invariant first.Some? ==> forall j | 0 <= j < k && Touches(claim, pieces[j]) :: first.value <= j <= last
    {
      if Touches(claim, pieces[k]) {
        first := if first.None? then Some(k) else first;
        last := k;
      }
    }
    links := {};
    if first.Some? {
      for i: int := first.value to last
        invariant forall j: nat :: j in links <==> first.value <= j < i
      {
        links := links + {i};
      }
    }
  }

  method FindLinks(input: Input, headings: set<Span>, pieces: seq<Span>) returns (links: set<nat>)
    requires InRow(input.answer, pieces)
    ensures links == Links(input, headings, pieces)
  {
    hide Bridges, LeadsIn;
    links := {};
    for k := 0 to |input.claims|
      invariant forall i: nat :: i in links <==>
                  i + 1 < |pieces| && exists c | c in input.claims[..k] :: Bridges(c, pieces, i)
    {
      var more := LinksOfClaim(input.claims[k], pieces);
      links := links + more;
      assert input.claims[..k + 1] == input.claims[..k] + [input.claims[k]];
    }
    assert input.claims[..|input.claims|] == input.claims;
    ghost var claimed := links;
    var n: nat := 0;
    while n + 1 < |pieces|
      invariant n > 0 ==> n < |pieces|
      invariant forall i: nat | i >= n :: i in links <==> i in claimed
      invariant forall i: nat | i < n && i + 1 < |pieces| :: i in links <==> Linked(input, headings, pieces, i)
    {
      if LeadsIn(input, headings, pieces[n], pieces[n + 1]) {
        links := links + {n};
      }
      n := n + 1;
    }
    assert forall i: nat :: i in links <==> i in Links(input, headings, pieces);
  }

  /** The first `n` pieces, with linked neighbours merged. */
  function Merged(pieces: seq<Span>, links: set<nat>, n: nat): (merged: seq<Span>)
    requires n <= |pieces|
    ensures merged != [] <==> n > 0
  {
    if n == 0 then [] else
    var before := Merged(pieces, links, n - 1);
    if n >= 2 && n - 2 in links
    then before[|before| - 1 := Span(before[|before| - 1].start, pieces[n - 1].end)]
    else before + [pieces[n - 1]]
  }

  method MergePieces(pieces: seq<Span>, links: set<nat>) returns (merged: seq<Span>)
    ensures merged == Merged(pieces, links, |pieces|)
  {
    merged := [];
    for n := 0 to |pieces|
      invariant merged == Merged(pieces, links, n)
    {
      if n > 0 && n - 1 in links {
        merged := merged[|merged| - 1 := Span(merged[|merged| - 1].start, pieces[n].end)];
      } else {
        merged := merged + [pieces[n]];
      }
    }
  }

  /** The number of the unit that holds piece `i`. */
  function Home(links: set<nat>, i: nat): nat
  {
    if i == 0 then 0 else Home(links, i - 1) + if i - 1 in links then 0 else 1
  }

  /** Span `s` is made of the pieces of the first `n` whose home is unit `u`. */
  ghost predicate Holds(pieces: seq<Span>, links: set<nat>, n: nat, u: nat, s: Span)
    requires n <= |pieces|
  {
    exists a, b ::
      && 0 <= a <= b < n && Home(links, a) == u == Home(links, b)
      && s == Span(pieces[a].start, pieces[b].end)
      && forall i | 0 <= i < n && Home(links, i) == u :: a <= i <= b
  }

  lemma {:induction false} HomeRises(links: set<nat>, i: nat, j: nat)
    requires i <= j
    ensures Home(links, i) <= Home(links, j)
  {
    if i < j {
      HomeRises(links, i, j - 1);
    }
  }

  lemma HoldsStill(pieces: seq<Span>, links: set<nat>, n: nat, u: nat, s: Span)
    requires 0 < n <= |pieces| && Holds(pieces, links, n - 1, u, s) && u != Home(links, n - 1)
    ensures Holds(pieces, links, n, u, s)
  {
    hide Home;
  }

  lemma HoldsMore(pieces: seq<Span>, links: set<nat>, n: nat, s: Span)
    requires 1 < n <= |pieces| && n - 2 in links && Holds(pieces, links, n - 1, Home(links, n - 2), s)
    ensures Holds(pieces, links, n, Home(links, n - 1), Span(s.start, pieces[n - 1].end))
  {
    var u := Home(links, n - 2);
    assert Home(links, n - 1) == u;
    hide Home;
    var a, b :|
      && 0 <= a <= b < n - 1 && Home(links, a) == u == Home(links, b)
      && s == Span(pieces[a].start, pieces[b].end)
      && forall i | 0 <= i < n - 1 && Home(links, i) == u :: a <= i <= b;
    assert forall i | 0 <= i < n && Home(links, i) == u :: a <= i <= n - 1;
  }

  lemma HoldsNew(pieces: seq<Span>, links: set<nat>, n: nat)
    requires 0 < n <= |pieces| && !(n >= 2 && n - 2 in links)
    ensures Holds(pieces, links, n, Home(links, n - 1), pieces[n - 1])
  {
    forall i | 0 <= i < n && Home(links, i) == Home(links, n - 1) ensures i == n - 1 {
      if i < n - 1 {
        HomeRises(links, i, n - 2);
      }
    }
  }

  /** Merging gives every unit the pieces whose home it is. */
  lemma {:induction false} MergedHolds(pieces: seq<Span>, links: set<nat>, n: nat)
    requires n <= |pieces|
    ensures |Merged(pieces, links, n)| == if n == 0 then 0 else Home(links, n - 1) + 1
    ensures forall u | 0 <= u < |Merged(pieces, links, n)| :: Holds(pieces, links, n, u, Merged(pieces, links, n)[u])
  {
    hide Holds;
    if n > 0 {
      MergedHolds(pieces, links, n - 1);
      var before, merged := Merged(pieces, links, n - 1), Merged(pieces, links, n);
      forall u | 0 <= u < |merged| ensures Holds(pieces, links, n, u, merged[u]) {
        if u < |merged| - 1 {
          HoldsStill(pieces, links, n, u, before[u]);
        } else if n >= 2 && n - 2 in links {
          HoldsMore(pieces, links, n, before[u]);
        } else {
          HoldsNew(pieces, links, n);
        }
      }
    }
  }

  /** Units are disjoint and in order, and each piece lies in its own. */
  lemma MergedInRow(answer: string, pieces: seq<Span>, links: set<nat>)
    requires InRow(answer, pieces)
    ensures var merged := Merged(pieces, links, |pieces|);
            && InRow(answer, merged)
            && forall i | 0 <= i < |pieces| ::
                 && Home(links, i) < |merged|
                 && merged[Home(links, i)].start <= pieces[i].start && pieces[i].end <= merged[Home(links, i)].end
  {
    hide Merged, Home;
    var n, merged := |pieces|, Merged(pieces, links, |pieces|);
    MergedHolds(pieces, links, n);
    forall i | 0 <= i < n
      ensures Home(links, i) < |merged|
      ensures merged[Home(links, i)].start <= pieces[i].start && pieces[i].end <= merged[Home(links, i)].end
    {
      HomeRises(links, i, n - 1);
      assert Holds(pieces, links, n, Home(links, i), merged[Home(links, i)]);
    }
    forall u, v | 0 <= u < v < |merged| ensures merged[u].end <= merged[v].start {
      HoldsApart(answer, pieces, links, u, v, merged[u], merged[v]);
    }
  }

  lemma HoldsApart(answer: string, pieces: seq<Span>, links: set<nat>, u: nat, v: nat, s: Span, t: Span)
    requires InRow(answer, pieces) && u < v
    requires Holds(pieces, links, |pieces|, u, s) && Holds(pieces, links, |pieces|, v, t)
    ensures s.end <= t.start
  {
    hide Home;
    var n := |pieces|;
    var a, b :| 0 <= a <= b < n && Home(links, a) == u == Home(links, b) && s == Span(pieces[a].start, pieces[b].end);
    var c, d :| 0 <= c <= d < n && Home(links, c) == v == Home(links, d) && t == Span(pieces[c].start, pieces[d].end);
    if c <= b {
      HomeRises(links, c, b);
    }
  }

  /* ---- the units ---- */

  predicate Overlaps(claim: Claim, start: nat, end: nat)
  {
    start < claim.end && claim.start < end
  }

  function Members(claims: seq<Claim>, start: nat, end: nat): (members: seq<Claim>)
    ensures forall c :: c in members <==> c in claims && Overlaps(c, start, end)
  {
    if claims == [] then [] else
    var rest := Members(claims[1..], start, end);
    assert forall c | c in claims :: c == claims[0] || c in claims[1..];
    if Overlaps(claims[0], start, end) then [claims[0]] + rest else rest
  }

  function Ids(claims: seq<Claim>): (ids: seq<nat>)
    ensures |ids| == |claims|
  {
    seq(|claims|, i requires 0 <= i < |claims| => claims[i].id)
  }

  /** One cell of a table rule from `i`: dashes with optional colons, then blanks; `None` if there is none. */
  function RuleCell(line: string, i: nat): (r: Option<nat>)
    requires i <= |line|
    ensures r.Some? ==> i < r.value <= |line|
  {
    var from := SkipPad(line, i);
    var dashes := if from < |line| && line[from] == ':' then from + 1 else from;
    var n := RunOf(line, dashes, '-');
    if n < 3 then None else
    var after := dashes + n;
    Some(SkipPad(line, if after < |line| && line[after] == ':' then after + 1 else after))
  }

  /** The cells after the first, to the end of the line. */
  predicate RuleTail(line: string, i: nat)
    requires i <= |line|
    decreases |line| - i
  {
    || i == |line|
    || (&& line[i] == '|'
        && (SkipPad(line, i + 1) == |line|
            || var cell := RuleCell(line, i + 1); cell.Some? && RuleTail(line, cell.value)))
  }

  /** The line under the head of a Markdown table. */
  predicate TableRule(line: string)
  {
    var first := SkipPad(line, 0);
    var cell := RuleCell(line, if first < |line| && line[first] == '|' then first + 1 else first);
    cell.Some? && RuleTail(line, cell.value)
  }

  /** Text that asserts nothing: blank lines and table rules. */
  predicate Scaffold(text: string)
  {
    forall line | line in LinesFrom(text, 0) ::
      var content := text[line.start..BreakFrom(text, line.start)];
      Blank(content) || TableRule(content)
  }

  /** Whether everything between and around the claims from `cursor` on is scaffolding. */
  predicate Complete(answer: string, members: seq<Claim>, cursor: nat, end: nat)
    requires end <= |answer| && forall c | c in members :: c.start <= |answer|
  {
    if members == [] then cursor >= end || Scaffold(answer[cursor..end])
    else
      var c := members[0];
      && (cursor >= c.start || Scaffold(answer[cursor..c.start]))
      && Complete(answer, members[1..], if cursor < c.end then c.end else cursor, end)
  }

  function UnitOf(input: Input, s: Span): Unit
    requires input.Valid() && s.start <= s.end <= |input.answer|
  {
    var members := Members(input.claims, s.start, s.end);
    Unit(s.start, s.end, Ids(members), Complete(input.answer, members, s.start, s.end))
  }

  function UnitSpans(input: Input): (spans: seq<Span>)
    requires input.Valid()
    ensures InRow(input.answer, spans)
  {
    hide Cuts, CutList, Links, Merged;
    var pieces := Pieces(input);
    PiecesInRow(input);
    var links := Links(input, HeadingSpans(input, Guarded(input)), pieces);
    MergedInRow(input.answer, pieces, links);
    Merged(pieces, links, |pieces|)
  }

  lemma PiecesInRow(input: Input)
    requires input.Valid()
    ensures InRow(input.answer, Pieces(input)) && Trimmed(input.answer, Pieces(input))
  {
    hide CutList, Segments;
    var pieces := Pieces(input);
    SegmentsAreTrimmed(input.answer, CutList(input));
    assert forall i | 0 <= i < |pieces| :: pieces[i] in pieces;
  }

  function Units(input: Input): (units: seq<Unit>)
    requires input.Valid()
    ensures |units| == |UnitSpans(input)|
  {
    hide UnitSpans;
    var spans := UnitSpans(input);
    seq(|spans|, i requires 0 <= i < |spans| => UnitOf(input, spans[i]))
  }

  method FullyClaimed(input: Input, members: seq<Claim>, start: nat, end: nat) returns (complete: bool)
    requires input.Valid() && start <= end <= |input.answer| && forall c | c in members :: c.start <= |input.answer|
    ensures complete == Complete(input.answer, members, start, end)
  {
    hide Scaffold;
    var cursor: nat := start;
    complete := true;
    for k := 0 to |members|
      invariant Complete(input.answer, members, start, end)
             <==> complete && Complete(input.answer, members[k..], cursor, end)
    {
      var claim := members[k];
      assert members[k..][0] == claim && members[k..][1..] == members[k + 1..];
      if cursor < claim.start && !Scaffold(input.answer[cursor..claim.start]) {
        complete := false;
      }
      cursor := if cursor < claim.end then claim.end else cursor;
    }
    assert members[|members|..] == [];
    if cursor < end && !Scaffold(input.answer[cursor..end]) {
      complete := false;
    }
  }

  /** The whole grouping. */
  method PublicationUnits(input: Input) returns (result: seq<Unit>)
    requires input.Valid()
    ensures result == Units(input)
  {
    hide Cuts, Divisions, Items, Absorb, Segments, Links, Merged, Titles, Complete;
    var fences := FindFences(input.answer, Lines(input), input.protected);
    var guarded := input.protected + fences;
    GuardedIsWithin(input);
    var headings := HeadingSpans(input, guarded);
    var items := FindItems(input.answer, Lines(input), guarded, headings);
    var boundaries := AbsorbItems(Divisions(input, guarded), items);
    assert boundaries == Cuts(input) by { CutsUnfold(input); }
    var pieces := TrimSegments(input.answer, CutList(input));
    PiecesInRow(input);
    var links := FindLinks(input, headings, pieces);
    var spans := MergePieces(pieces, links);
    assert spans == UnitSpans(input);
    result := [];
    for k := 0 to |spans|
      invariant result == Units(input)[..k]
    {
      var s := spans[k];
      var members := Members(input.claims, s.start, s.end);
      var complete := FullyClaimed(input, members, s.start, s.end);
      result := result + [Unit(s.start, s.end, Ids(members), complete)];
    }
  }

  lemma CutsUnfold(input: Input)
    requires input.Valid()
    ensures Within(Guarded(input), |input.answer|)
    ensures Cuts(input) == Absorb(Divisions(input, Guarded(input)), ItemSpans(input))
  {
    GuardedIsWithin(input);
  }

  method AbsorbItems(points: set<nat>, items: seq<Span>) returns (boundaries: set<nat>)
    ensures boundaries == Absorb(points, items)
  {
    boundaries := points;
    for k := 0 to |items|
      invariant Absorb(points, items) == Absorb(boundaries, items[k..])
    {
      var x := items[k];
      assert items[k..][0] == x && items[k..][1..] == items[k + 1..];
      boundaries := set p | p in boundaries && !(x.start < p < x.end);
      boundaries := boundaries + {x.start, x.end};
    }
    assert items[|items|..] == [];
  }
}
