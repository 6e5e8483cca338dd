/** Sorting spans by start and then by end. */
module SpanOrder {
  import opened Basics

  function SpansAt(spans: set<Span>, start: nat, end: nat, limit: nat): (s: seq<Span>)
    ensures forall x :: x in s <==> x in spans && x.start == start && end <= x.end <= limit
    decreases limit + 1 - end
  {
    if end > limit then [] else
    (if Span(start, end) in spans then [Span(start, end)] else []) + SpansAt(spans, start, end + 1, limit)
  }

  /** The spans in order of start, then of end. */
  function Ordered(spans: set<Span>, start: nat, limit: nat): (s: seq<Span>)
    ensures forall x :: x in s <==> x in spans && start <= x.start <= limit && x.end <= limit
    decreases limit + 1 - start
  {
    if start > limit then [] else SpansAt(spans, start, 0, limit) + Ordered(spans, start + 1, limit)
  }

  predicate Before(a: Span, b: Span)
  {
    a.start < b.start || (a.start == b.start && a.end < b.end)
  }

  ghost predicate Sorted(spans: seq<Span>)
  {
    forall i, j | 0 <= i < j < |spans| :: Before(spans[i], spans[j])
  }

  lemma SortedJoins(a: seq<Span>, b: seq<Span>)
    requires Sorted(a) && Sorted(b) && forall x, y | x in a && y in b :: Before(x, y)
    ensures Sorted(a + b)
  {
    forall i, j | 0 <= i < j < |a + b| ensures Before((a + b)[i], (a + b)[j]) {
      if i < |a| <= j {
        assert a[i] in a && b[j - |a|] in b;
      }
    }
  }

  lemma {:induction false} SpansAtAreSorted(spans: set<Span>, start: nat, end: nat, limit: nat)
    ensures Sorted(SpansAt(spans, start, end, limit))
    decreases limit + 1 - end
  {
    if end <= limit {
      SpansAtAreSorted(spans, start, end + 1, limit);
      SortedJoins(if Span(start, end) in spans then [Span(start, end)] else [], SpansAt(spans, start, end + 1, limit));
    }
  }

  /** The spans come in order and none comes twice. */
  lemma {:induction false} OrderedIsSorted(spans: set<Span>, start: nat, limit: nat)
    ensures Sorted(Ordered(spans, start, limit))
    decreases limit + 1 - start
  {
    if start <= limit {
      OrderedIsSorted(spans, start + 1, limit);
      SpansAtAreSorted(spans, start, 0, limit);
      SortedJoins(SpansAt(spans, start, 0, limit), Ordered(spans, start + 1, limit));
    }
  }
}
