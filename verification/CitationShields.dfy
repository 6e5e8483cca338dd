/**
 The literal parts of an answer, in which nothing is read as a citation: fenced and inline code,
 formulas and quotations (`_protected_spans` of answer_citations.py).
 */
module CitationShields {
  import opened Basics
  import opened MarkdownLines
  import opened SpanOrder
  import M = MathSpans

  /* ---- code ---- */

  function FenceSpans(text: string): seq<Span>
  {
    Fences(text, LinesFrom(text, 0), [], None)
  }

  /** The end of the next run of exactly `n` backticks. */
  function NextRun(text: string, i: nat, n: nat): (r: Option<nat>)
    requires i <= |text|
    ensures r.Some? ==> i < r.value <= |text|
    decreases |text| - i
  {
    if i == |text| then None else
    var m := RunOf(text, i, '`');
    if m == 0 then NextRun(text, i + 1, n)
    else if m == n then Some(i + m)
    else NextRun(text, i + m, n)
  }

  /** Runs of backticks paired with the next run of the same length, outside fences and earlier pairs. */
  function InlineCode(text: string, fences: seq<Span>, i: nat, end: nat): (spans: seq<Span>)
    ensures Within(spans, |text|)
    decreases |text| - i
  {
    if i >= |text| then [] else
    var n := RunOf(text, i, '`');
    if n == 0 then InlineCode(text, fences, i + 1, end) else
    var close := NextRun(text, i + n, n);
    if i < end || Covered(fences, i) || close.None? then InlineCode(text, fences, i + n, end)
    else [Span(i, close.value)] + InlineCode(text, fences, i + n, close.value)
  }

  function CodeSpans(text: string): seq<Span>
  {
    FenceSpans(text) + InlineCode(text, FenceSpans(text), 0, 0)
  }

  lemma CodeIsWithin(text: string)
    ensures Within(FenceSpans(text), |text|) && Within(CodeSpans(text), |text|)
  {
    LinesAreTiled(text, 0);
    FencesAreWithin(text, LinesFrom(text, 0), [], None, 0);
  }

  /* ---- quotations ---- */

  const LOW_QUOTE := '\U{00AB}'
  const HIGH_QUOTE := '\U{00BB}'
  const LEFT_DOUBLE := '\U{201C}'
  const RIGHT_DOUBLE := '\U{201D}'
  const LEFT_SINGLE := '\U{2018}'
  const RIGHT_SINGLE := '\U{2019}'

  function CloserOf(c: char): Option<char>
  {
    if c == '"' then Some('"')
    else if c == '\'' then Some('\'')
    else if c == LOW_QUOTE then Some(HIGH_QUOTE)
    else if c == LEFT_DOUBLE then Some(RIGHT_DOUBLE)
    else if c == LEFT_SINGLE then Some(RIGHT_SINGLE)
    else None
  }

  predicate IsClosing(c: char)
  {
    c == '"' || c == '\'' || c == HIGH_QUOTE || c == RIGHT_DOUBLE || c == RIGHT_SINGLE
  }

  /** A quotation with closing sign `c` may end here; an apostrophe inside a word ends nothing. */
  predicate ClosesAt(text: string, letter: char -> bool, code: seq<Span>, c: char, j: nat)
  {
    && j < |text| && text[j] == c && !Covered(code, j) && !M.Escaped(text, j)
    && !((c == '\'' || c == RIGHT_SINGLE) && j + 1 < |text| && letter(text[j + 1]))
  }

  function NextCloser(text: string, letter: char -> bool, code: seq<Span>, c: char, j: nat): (r: Option<nat>)
    ensures r.Some? ==> j < r.value <= |text| && ClosesAt(text, letter, code, c, r.value - 1)
    ensures forall k | j <= k < (if r.Some? then r.value - 1 else |text|) :: !ClosesAt(text, letter, code, c, k)
    decreases |text| - j
  {
    if j >= |text| then None
    else if ClosesAt(text, letter, code, c, j) then Some(j + 1)
    else NextCloser(text, letter, code, c, j + 1)
  }

  predicate OpensQuote(text: string, letter: char -> bool, p: nat)
    requires p < |text|
  {
    && CloserOf(text[p]).Some? && !M.Escaped(text, p)
    && !((text[p] == '"' || text[p] == '\'' || text[p] == LEFT_SINGLE) && p > 0 && letter(text[p - 1]))
  }

  function MathEnd(text: string, p: nat): (r: Option<nat>)
    requires p < |text|
    ensures r.Some? ==> p < r.value <= |text|
  {
    var opener := M.OpenerAt(text, p);
    if opener.None? || M.Escaped(text, p) then None else M.SpanEnd(text, p, opener.value)
  }

  /** Where a formula or else a quotation that begins here ends. */
  function LiteralEnd(text: string, letter: char -> bool, code: seq<Span>, p: nat): (r: Option<nat>)
    requires p < |text|
    ensures r.Some? ==> p < r.value <= |text|
  {
    var math := MathEnd(text, p);
    if math.Some? then math
    else if OpensQuote(text, letter, p) then NextCloser(text, letter, code, CloserOf(text[p]).value, p + 1)
    else None
  }

  /** The formulas and quotations from `p` on, outside code. */
  function Literals(text: string, letter: char -> bool, code: seq<Span>, p: nat): (spans: seq<Span>)
    ensures Within(spans, |text|)
    decreases |text| - p
  {
    if p >= |text| then []
    else if Covered(code, p) then Literals(text, letter, code, p + 1)
    else
      var stop := LiteralEnd(text, letter, code, p);
      if stop.None? then Literals(text, letter, code, p + 1)
      else [Span(p, stop.value)] + Literals(text, letter, code, stop.value)
  }

  function Shields(text: string, letter: char -> bool): seq<Span>
  {
    CodeSpans(text) + Literals(text, letter, CodeSpans(text), 0)
  }

  /** Nothing at this position is read as a citation. */
  predicate Shielded(text: string, letter: char -> bool, p: nat)
  {
    Covered(Shields(text, letter), p)
  }

  /* ---- the loops of the source ---- */

  method FindInlineCode(text: string, fences: seq<Span>) returns (spans: seq<Span>)
    ensures spans == InlineCode(text, fences, 0, 0)
  {
    hide Covered;
    spans := [];
    var i, end := 0, 0;
    while i < |text|
      invariant InlineCode(text, fences, 0, 0) == spans + InlineCode(text, fences, i, end)
      decreases |text| - i
    {
      var n := RunOf(text, i, '`');
      if n == 0 {
        i := i + 1;
        continue;
      }
      var start := i;
      i := i + n;
      if start < end || Covered(fences, start) {
        continue;
      }
      var close := NextRun(text, i, n);
      if close.Some? {
        end := close.value;
        spans := spans + [Span(start, end)];
      }
    }
  }

  ghost predicate SameCover(a: seq<Span>, b: seq<Span>)
  {
    forall p: nat :: Covered(a, p) <==> Covered(b, p)
  }

  /** In order, with something between any two. */
  ghost predicate Apart(spans: seq<Span>)
  {
    && (forall i | 0 <= i < |spans| :: spans[i].start <= spans[i].end)
    && (forall i, j | 0 <= i < j < |spans| :: spans[i].end < spans[j].start)
  }

  lemma CoverGrows(spans: seq<Span>, x: Span, p: nat)
    ensures Covered(spans + [x], p) <==> Covered(spans, p) || x.start <= p < x.end
  {
    var all := spans + [x];
    assert forall y | y in all :: y in spans || y == x;
    assert forall y | y in spans :: y in all;
    assert x in all;
  }

  function Stretch(last: Span, x: Span): Span
  {
    Span(last.start, if x.end > last.end then x.end else last.end)
  }

  lemma CoverStretches(spans: seq<Span>, x: Span, p: nat)
    requires spans != [] && spans[|spans| - 1].start <= x.start <= spans[|spans| - 1].end
    ensures Covered(spans[..|spans| - 1] + [Stretch(spans[|spans| - 1], x)], p)
            <==> Covered(spans, p) || x.start <= p < x.end
  {
    var n := |spans| - 1;
    assert spans[..n] + [spans[n]] == spans;
    CoverGrows(spans[..n], spans[n], p);
    CoverGrows(spans[..n], Stretch(spans[n], x), p);
    hide Covered;
  }

  /** Sorted spans joined where they meet. */
  method Merge(spans: seq<Span>) returns (merged: seq<Span>)
    requires Sorted(spans) && forall x | x in spans :: x.start <= x.end
    ensures Apart(merged) && SameCover(merged, spans)
  {
    hide Covered;
    merged := [];
    CoverNothing();
    for k := 0 to |spans|
      invariant Apart(merged) && SameCover(merged, spans[..k])
      invariant merged != [] ==> k > 0 && merged[|merged| - 1].start <= spans[k - 1].start
    {
      var x, n := spans[k], |merged| - 1;
      assert x in spans && spans[..k + 1] == spans[..k] + [x];
      ghost var before := merged;
      if merged != [] && x.start <= merged[n].end {
        merged := merged[..n] + [Stretch(merged[n], x)];
      } else {
        merged := merged + [x];
      }
      forall p: nat ensures Covered(merged, p) <==> Covered(spans[..k + 1], p) {
        CoverGrows(spans[..k], x, p);
        CoverGrows(before, x, p);
        if before != [] && x.start <= before[n].end {
          CoverStretches(before, x, p);
        }
      }
    }
    assert spans[..|spans|] == spans;
  }

  lemma CoverNothing()
    ensures forall p: nat :: !Covered([], p)
  {
  }

  method SortAndMerge(spans: seq<Span>, length: nat) returns (merged: seq<Span>)
    requires Within(spans, length)
    ensures Apart(merged) && SameCover(merged, spans)
  {
    hide Covered, Sorted;
    var ordered := Ordered(set x | x in spans, 0, length);
    OrderedIsSorted(set x | x in spans, 0, length);
    assert forall x :: x in ordered <==> x in spans;
    merged := Merge(ordered);
    forall p: nat ensures Covered(ordered, p) <==> Covered(spans, p) {
      SameMembers(ordered, spans, p);
    }
  }

  lemma SameMembers(a: seq<Span>, b: seq<Span>, p: nat)
    requires forall x :: x in a <==> x in b
    ensures Covered(a, p) <==> Covered(b, p)
  {
  }

  /** Every place where a quotation may end, by its sign, in order. */
  ghost predicate Indexed(text: string, letter: char -> bool, code: seq<Span>, closers: map<char, seq<nat>>, limit: nat)
  {
    forall c | IsClosing(c) ::
      && c in closers
      && (forall j: nat :: j in closers[c] <==> j < limit && ClosesAt(text, letter, code, c, j))
      && (forall a, b | 0 <= a < b < |closers[c]| :: closers[c][a] < closers[c][b])
  }

  /** The first interval that ends after the position. */
  method PassIntervals(merged: seq<Span>, interval: nat, position: nat) returns (r: nat)
    requires interval <= |merged| && forall k | 0 <= k < interval :: merged[k].end <= position
    ensures r <= |merged| && (forall k | 0 <= k < r :: merged[k].end <= position)
    ensures r < |merged| ==> position < merged[r].end
  {
    r := interval;
    while r < |merged| && merged[r].end <= position
      invariant r <= |merged| && forall k | 0 <= k < r :: merged[k].end <= position
    {
      r := r + 1;
    }
  }

  method IndexClosers(text: string, letter: char -> bool, code: seq<Span>, merged: seq<Span>)
    returns (closers: map<char, seq<nat>>)
    requires Apart(merged) && SameCover(merged, code)
    ensures Indexed(text, letter, code, closers, |text|)
  {
    closers := map['"' := [], '\'' := [], HIGH_QUOTE := [], RIGHT_DOUBLE := [], RIGHT_SINGLE := []];
    var interval: nat := 0;
    for offset := 0 to |text|
      invariant 0 <= interval <= |merged| && forall k | 0 <= k < interval :: merged[k].end <= offset
      invariant Indexed(text, letter, code, closers, offset)
    {
      hide ClosesAt;
      var c := text[offset];
      interval := PassIntervals(merged, interval, offset);
      CoveredByInterval(merged, interval, offset);
      IndexStep(text, letter, code, c, offset);
      if !IsClosing(c) || (interval < |merged| && merged[interval].start <= offset)
         || M.Escaped(text, offset)
         || ((c == '\'' || c == RIGHT_SINGLE) && offset + 1 < |text| && letter(text[offset + 1])) {
        continue;
      }
      IndexGrows(text, letter, code, closers, c, offset);
      closers := closers[c := closers[c] + [offset]];
    }
  }

  lemma IndexGrows(text: string, letter: char -> bool, code: seq<Span>, closers: map<char, seq<nat>>, c: char, offset: nat)
    requires Indexed(text, letter, code, closers, offset) && IsClosing(c) && ClosesAt(text, letter, code, c, offset)
    requires forall d | d != c :: !ClosesAt(text, letter, code, d, offset)
    ensures Indexed(text, letter, code, closers[c := closers[c] + [offset]], offset + 1)
  {
    hide ClosesAt;
    var list := closers[c];
    forall a | 0 <= a < |list| ensures list[a] < offset {
      assert list[a] in list;
    }
  }

  lemma IndexStep(text: string, letter: char -> bool, code: seq<Span>, c: char, offset: nat)
    requires offset < |text| && text[offset] == c
    ensures forall d | d != c :: !ClosesAt(text, letter, code, d, offset)
    ensures ClosesAt(text, letter, code, c, offset) <==>
              !Covered(code, offset) && !M.Escaped(text, offset)
              && !((c == '\'' || c == RIGHT_SINGLE) && offset + 1 < |text| && letter(text[offset + 1]))
  {
    hide Covered, M.Escaped;
  }

  /** Only the first interval that ends later can cover the position. */
  lemma CoveredByInterval(merged: seq<Span>, interval: nat, p: nat)
    requires Apart(merged) && interval <= |merged|
    requires forall k | 0 <= k < interval :: merged[k].end <= p
    requires interval < |merged| ==> p < merged[interval].end
    ensures Covered(merged, p) <==> interval < |merged| && merged[interval].start <= p
  {
    if interval < |merged| && merged[interval].start <= p {
      assert merged[interval] in merged;
    }
  }

  /** The first entry of an increasing list beyond `p`. */
  method FirstAfter(list: seq<nat>, p: nat) returns (r: Option<nat>)
    requires forall a, b | 0 <= a < b < |list| :: list[a] < list[b]
    ensures r.None? ==> forall x | x in list :: x <= p
    ensures r.Some? ==> r.value in list && p < r.value && forall x | x in list :: x <= p || r.value <= x
  {
    for k := 0 to |list|
      invariant forall a | 0 <= a < k :: list[a] <= p
    {
      if list[k] > p {
        return Some(list[k]);
      }
    }
    return None;
  }

  method CloserAfter(text: string, letter: char -> bool, code: seq<Span>, closers: map<char, seq<nat>>, c: char, p: nat)
    returns (r: Option<nat>)
    requires IsClosing(c) && Indexed(text, letter, code, closers, |text|)
    ensures r == NextCloser(text, letter, code, c, p + 1)
  {
    hide ClosesAt;
    assert forall j: nat :: j in closers[c] <==> j < |text| && ClosesAt(text, letter, code, c, j);
    var first := FirstAfter(closers[c], p);
    var next := NextCloser(text, letter, code, c, p + 1);
    if next.Some? {
      assert next.value - 1 in closers[c];
    }
    return if first.None? then None else Some(first.value + 1);
  }

  method FindMath(text: string, p: nat) returns (r: Option<nat>)
    requires p < |text|
    ensures r == MathEnd(text, p)
  {
    hide M.OpenerAt, M.SpanEnd, M.Escaped;
    var opener := M.OpenerAt(text, p);
    if opener.None? || M.Escaped(text, p) {
      return None;
    }
    r := M.FindSpanEnd(text, p, opener.value);
  }

  lemma {:induction false} LiteralsSkipCode(text: string, letter: char -> bool, code: seq<Span>, p: nat, q: nat)
    requires p <= q && forall k: nat | p <= k < q :: Covered(code, k)
    ensures Literals(text, letter, code, p) == Literals(text, letter, code, q)
    decreases q - p
  {
    hide Covered, LiteralEnd;
    if p < q {
      LiteralsSkipCode(text, letter, code, p + 1, q);
    }
  }

  method FindLiteralEnd(text: string, letter: char -> bool, code: seq<Span>, closers: map<char, seq<nat>>, p: nat)
    returns (stop: Option<nat>)
    requires p < |text| && Indexed(text, letter, code, closers, |text|)
    ensures stop == LiteralEnd(text, letter, code, p)
  {
    hide MathEnd, OpensQuote, NextCloser, Indexed;
    stop := FindMath(text, p);
    if stop.None? && OpensQuote(text, letter, p) {
      QuotesClose(text, letter, p);
      stop := CloserAfter(text, letter, code, closers, CloserOf(text[p]).value, p);
    }
  }

  lemma LiteralsStep(text: string, letter: char -> bool, code: seq<Span>, p: nat)
    requires p < |text|
    ensures var stop := LiteralEnd(text, letter, code, p);
            Literals(text, letter, code, p) ==
              if Covered(code, p) || stop.None? then Literals(text, letter, code, p + 1)
              else [Span(p, stop.value)] + Literals(text, letter, code, stop.value)
  {
    hide LiteralEnd, Covered;
  }

  lemma NoLiterals(text: string, letter: char -> bool, code: seq<Span>, p: nat)
    requires p >= |text|
    ensures Literals(text, letter, code, p) == []
  {
  }

  /** What has been found up to a position. */
  ghost predicate FoundTo(text: string, letter: char -> bool, code: seq<Span>, spans: seq<Span>, p: nat)
  {
    Literals(text, letter, code, 0) == spans + Literals(text, letter, code, p)
  }

  lemma FoundAfter(text: string, letter: char -> bool, code: seq<Span>, spans: seq<Span>, p: nat)
    requires p < |text| && FoundTo(text, letter, code, spans, p) && !Covered(code, p)
    ensures var stop := LiteralEnd(text, letter, code, p);
            if stop.None? then FoundTo(text, letter, code, spans, p + 1)
            else FoundTo(text, letter, code, spans + [Span(p, stop.value)], stop.value)
  {
    LiteralsStep(text, letter, code, p);
    hide LiteralEnd, Covered, Literals;
  }

  lemma FoundAll(text: string, letter: char -> bool, code: seq<Span>, spans: seq<Span>, p: nat)
    ensures FoundTo(text, letter, code, [], 0)
    ensures p >= |text| && FoundTo(text, letter, code, spans, p) ==> spans == Literals(text, letter, code, 0)
  {
    if p >= |text| {
      NoLiterals(text, letter, code, p);
    }
    hide Literals;
  }

  method FindLiterals(text: string, letter: char -> bool, code: seq<Span>, merged: seq<Span>) returns (spans: seq<Span>)
    requires Apart(merged) && SameCover(merged, code)
    ensures spans == Literals(text, letter, code, 0)
  {
    var closers := IndexClosers(text, letter, code, merged);
    spans := [];
    var position: nat, interval: nat := 0, 0;
    hide Covered, LiteralEnd, Indexed, Apart, Literals, SameCover, FoundTo;
    FoundAll(text, letter, code, [], 0);
    while position < |text|
      invariant interval <= |merged| && forall k | 0 <= k < interval :: merged[k].end <= position
      invariant FoundTo(text, letter, code, spans, position)
      decreases |text| - position
    {
      interval := PassIntervals(merged, interval, position);
      CodeByInterval(merged, code, interval, position);
      if interval < |merged| && merged[interval].start <= position {
        SkipInterval(text, letter, code, merged, interval, position, spans);
        position := merged[interval].end;
        continue;
      }
      FoundAfter(text, letter, code, spans, position);
      var stop := FindLiteralEnd(text, letter, code, closers, position);
      if stop.Some? {
        spans := spans + [Span(position, stop.value)];
        position := stop.value;
      } else {
        position := position + 1;
      }
    }
    FoundAll(text, letter, code, spans, position);
  }

  lemma QuotesClose(text: string, letter: char -> bool, p: nat)
    requires p < |text| && OpensQuote(text, letter, p)
    ensures CloserOf(text[p]).Some? && IsClosing(CloserOf(text[p]).value)
  {
  }

  lemma CodeByInterval(merged: seq<Span>, code: seq<Span>, interval: nat, p: nat)
    requires Apart(merged) && SameCover(merged, code) && interval <= |merged|
    requires forall k | 0 <= k < interval :: merged[k].end <= p
    requires interval < |merged| ==> p < merged[interval].end
    ensures Covered(code, p) <==> interval < |merged| && merged[interval].start <= p
  {
    CoveredByInterval(merged, interval, p);
    hide Covered, Apart;
  }

  lemma SkipInterval(text: string, letter: char -> bool, code: seq<Span>, merged: seq<Span>, i: nat, p: nat,
                     spans: seq<Span>)
    requires SameCover(merged, code) && i < |merged| && merged[i].start <= p < merged[i].end
    requires FoundTo(text, letter, code, spans, p)
    ensures FoundTo(text, letter, code, spans, merged[i].end)
  {
    forall k: nat | p <= k < merged[i].end ensures Covered(code, k) {
      assert merged[i] in merged && Covered(merged, k);
    }
    hide Covered, Literals;
    LiteralsSkipCode(text, letter, code, p, merged[i].end);
  }

  /** The literal parts, joined and in order. */
  method FindShields(text: string, letter: char -> bool) returns (merged: seq<Span>)
    ensures Apart(merged) && SameCover(merged, Shields(text, letter))
  {
    hide InlineCode, Literals, Covered, SameCover, Apart;
    var fences := FindFences(text, LinesFrom(text, 0), []);
    var inline := FindInlineCode(text, fences);
    var code := fences + inline;
    assert code == CodeSpans(text);
    CodeIsWithin(text);
    var joined := SortAndMerge(code, |text|);
    var literals := FindLiterals(text, letter, code, joined);
    merged := SortAndMerge(code + literals, |text|);
  }
}
