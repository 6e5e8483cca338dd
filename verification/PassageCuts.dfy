/**
 Cutting an over-long paragraph at safe places, as evidence_anchors.py does: after a sentence, else
 after a line, else after white space, nearest to the target length.
 */
module PassageCuts {
  import opened Basics
  import opened MathSpans

  const TARGET := 1200
  const PRESERVED := 2400

  predicate IsGap(c: char)
  {
    c == ' ' || c == '\t' || c == '\r' || c == '\n'
  }

  predicate IsStop(c: char)
  {
    c == '.' || c == '!' || c == '?' || c == ';'
  }

  datatype Kind = Sentence | Line | White

  /** The start of the run of gap characters that ends at `p`. */
  function GapStart(text: string, p: nat): (r: nat)
    requires p <= |text|
    ensures r <= p
  {
    if p > 0 && IsGap(text[p - 1]) then GapStart(text, p - 1) else p
  }

  /** Whether a match of the kind's pattern ends at `p`. */
  predicate EndsAt(text: string, kind: Kind, p: nat)
  {
    && 0 < p <= |text|
    && match kind
       case Line => text[p - 1] == '\n'
       case White => IsSpace(text[p - 1]) && (p == |text| || !IsSpace(text[p]))
       case Sentence =>
         && IsGap(text[p - 1]) && (p == |text| || !IsGap(text[p]))
         && var r := GapStart(text, p); r > 0 && IsStop(text[r - 1])
  }

  /* ---- safe places, found by bisection ---- */

  /** How many formulas start at or before the position. */
  function StartsUpTo(spans: seq<Span>, position: nat): (n: nat)
    ensures n <= |spans|
  {
    if spans == [] || spans[0].start > position then 0 else 1 + StartsUpTo(spans[1..], position)
  }

  predicate SafeBreak(position: nat, spans: seq<Span>)
  {
    var index := StartsUpTo(spans, position) - 1;
    index < 0 || !(spans[index].start < position < spans[index].end)
  }

  lemma {:induction false} StartsAreUpTo(spans: seq<Span>, position: nat)
    requires Ordered(spans)
    ensures forall i | 0 <= i < |spans| :: spans[i].start <= position <==> i < StartsUpTo(spans, position)
  {
    if spans != [] {
      OrderedTail(spans);
      StartsAreUpTo(spans[1..], position);
      forall i | 0 < i < |spans|
        ensures spans[i].start <= position <==> i < StartsUpTo(spans, position)
      {
        assert spans[i] == spans[1..][i - 1];
        assert spans[0].end <= spans[i].start;
      }
    }
  }

  lemma OrderedTail(spans: seq<Span>)
    requires Ordered(spans) && spans != []
    ensures Ordered(spans[1..])
  {
    forall i, j | 0 <= i < j < |spans[1..]| ensures spans[1..][i].end <= spans[1..][j].start {
      assert spans[i + 1].end <= spans[j + 1].start;
    }
  }

  /** Looking at the last formula to start is enough. */
  lemma SafeBreakDecides(text: string, position: nat)
    ensures SafeBreak(position, Spans(text)) <==> Safe(text, position)
  {
    hide Scan;
    var spans := Spans(text);
    ScanIsOrdered(text, 0, 0, |text|);
    StartsAreUpTo(spans, position);
    var index := StartsUpTo(spans, position) - 1;
    forall i | 0 <= i < index ensures spans[i].end <= position {
      assert spans[i].end <= spans[index].start;
    }
    assert 0 <= index ==> spans[index] in spans;
  }

  /* ---- choosing a cut ---- */

  /** Safe ends of one kind at or after `from`, in order. */
  function Points(text: string, kind: Kind, spans: seq<Span>, from: nat): (points: seq<nat>)
    ensures forall p | p in points :: from <= p <= |text|
    decreases |text| - from
  {
    if from > |text| then [] else
    (if EndsAt(text, kind, from) && SafeBreak(from, spans) then [from] else []) + Points(text, kind, spans, from + 1)
  }

  function Distance(p: int, target: int): nat
  {
    if p < target then target - p else p - target
  }

  predicate Nearer(a: nat, b: nat, target: nat)
  {
    Distance(a, target) < Distance(b, target) || (Distance(a, target) == Distance(b, target) && a <= b)
  }

  /** The point of the window nearest to the target, the smaller of two equally near ones. */
  function Nearest(points: seq<nat>, lower: nat, upper: nat, target: nat): (r: Option<nat>)
    ensures r.None? ==> forall p | p in points :: !(lower <= p <= upper)
    ensures r.Some? ==>
              && r.value in points && lower <= r.value <= upper
              && forall p | p in points && lower <= p <= upper :: Nearer(r.value, p, target)
  {
    if points == [] then None else
    var rest := Nearest(points[1..], lower, upper, target);
    assert forall p | p in points :: p == points[0] || p in points[1..];
    if !(lower <= points[0] <= upper) then rest
    else if rest.None? || Nearer(points[0], rest.value, target) then Some(points[0])
    else rest
  }

  function FirstAfter(points: seq<nat>, upper: nat): (r: Option<nat>)
    ensures r.Some? ==> r.value in points && r.value > upper
    ensures r.None? ==> forall p | p in points :: p <= upper
  {
    if points == [] then None
    else if points[0] > upper then Some(points[0])
    else
      assert forall p | p in points :: p == points[0] || p in points[1..];
      FirstAfter(points[1..], upper)
  }

  datatype Places = Places(sentence: seq<nat>, lines: seq<nat>, spaces: seq<nat>)

  function PlacesOf(text: string): (places: Places)
    ensures forall p | p in places.sentence || p in places.lines || p in places.spaces :: p <= |text|
  {
    var spans := Spans(text);
    Places(Points(text, Sentence, spans, 0), Points(text, Line, spans, 0), Points(text, White, spans, 0))
  }

  function Window(points: seq<nat>, start: nat): (r: Option<nat>)
  {
    Nearest(points, start + TARGET / 2, start + PRESERVED, start + TARGET)
  }

  function CutAfter(places: Places, start: nat): (r: Option<nat>)
    ensures r.Some? ==>
              && start + TARGET / 2 <= r.value
              && (r.value in places.sentence || r.value in places.lines || r.value in places.spaces)
  {
    var a, b, c := Window(places.sentence, start), Window(places.lines, start), Window(places.spaces, start);
    if a.Some? then a else if b.Some? then b else if c.Some? then c
    else FirstAfter(places.spaces, start + PRESERVED)
  }

  function UnitsFrom(text: string, places: Places, start: nat): (units: seq<string>)
    requires start <= |text|
    requires forall p | p in places.sentence || p in places.lines || p in places.spaces :: p <= |text|
    ensures units != []
    decreases |text| - start
  {
    if |text| - start <= PRESERVED then [text[start..]] else
    var cut := CutAfter(places, start);
    if cut.None? then [text[start..]]
    else [text[start..cut.value]] + UnitsFrom(text, places, cut.value)
  }

  /** The units of one paragraph. */
  function Units(text: string): (units: seq<string>)
    ensures units != []
  {
    if |text| <= PRESERVED then [text] else UnitsFrom(text, PlacesOf(text), 0)
  }

  /** The first kind of place with a choice in the window, else the next white space beyond it. */
  method ChooseCut(places: Places, start: nat) returns (cut: Option<nat>)
    ensures cut == CutAfter(places, start)
  {
    hide Window;
    var kinds := [places.sentence, places.lines, places.spaces];
    for k := 0 to 3
      invariant forall j | 0 <= j < k :: Window(kinds[j], start).None?
    {
      cut := Window(kinds[k], start);
      if cut.Some? {
        assert (k > 0 ==> Window(kinds[0], start).None?) && (k > 1 ==> Window(kinds[1], start).None?);
        return;
      }
    }
    assert Window(kinds[0], start).None? && Window(kinds[1], start).None? && Window(kinds[2], start).None?;
    return FirstAfter(places.spaces, start + PRESERVED);
  }

  method LargeParagraphUnits(text: string) returns (result: seq<string>)
    ensures result == Units(text)
  {
    hide CutAfter, Points, Spans;
    if |text| <= PRESERVED {
      return [text];
    }
    var spans := FindMathSpans(text);
    var places := Places(Points(text, Sentence, spans, 0), Points(text, Line, spans, 0), Points(text, White, spans, 0));
    assert places == PlacesOf(text);
    result := [];
    var start := 0;
    while |text| - start > PRESERVED
      invariant start <= |text|
      invariant Units(text) == result + UnitsFrom(text, places, start)
    {
      var cut := ChooseCut(places, start);
      if cut.None? {
        break;
      }
      result := result + [text[start..cut.value]];
      start := cut.value;
    }
    result := result + [text[start..]];
  }

  /* ---- what the cuts are, without lists ---- */

  ghost predicate SafeEnd(text: string, kind: Kind, p: nat)
  {
    EndsAt(text, kind, p) && Safe(text, p)
  }

  ghost predicate InWindow(start: nat, p: nat)
  {
    start + TARGET / 2 <= p <= start + PRESERVED
  }

  ghost predicate NoneInWindow(text: string, kind: Kind, start: nat)
  {
    forall p: nat | InWindow(start, p) :: !SafeEnd(text, kind, p)
  }

  ghost predicate NearestInWindow(text: string, kind: Kind, start: nat, cut: nat)
  {
    && InWindow(start, cut) && SafeEnd(text, kind, cut)
    && forall p: nat | InWindow(start, p) && SafeEnd(text, kind, p) :: Nearer(cut, p, start + TARGET)
  }

  ghost predicate NothingInWindow(text: string, start: nat)
  {
    NoneInWindow(text, Sentence, start) && NoneInWindow(text, Line, start) && NoneInWindow(text, White, start)
  }

  /** Where the unit that starts at `start` has to end. */
  ghost predicate RightCut(text: string, start: nat, cut: nat)
  {
    || NearestInWindow(text, Sentence, start, cut)
    || (NoneInWindow(text, Sentence, start) && NearestInWindow(text, Line, start, cut))
    || (&& NoneInWindow(text, Sentence, start) && NoneInWindow(text, Line, start)
        && NearestInWindow(text, White, start, cut))
    || (&& NothingInWindow(text, start) && start + PRESERVED < cut && SafeEnd(text, White, cut)
        && forall p: nat | start + PRESERVED < p < cut :: !SafeEnd(text, White, p))
  }

  /** No cut is possible: no safe end in the window and no safe white space beyond it. */
  ghost predicate NoCut(text: string, start: nat)
  {
    NothingInWindow(text, start) && forall p: nat | start + PRESERVED < p :: !SafeEnd(text, White, p)
  }

  /** The units are the text from `start`, each cut in its right place and none cut needlessly. */
  ghost predicate WellCut(text: string, start: nat, units: seq<string>)
    requires start <= |text|
    decreases |units|
  {
    && units != []
    && if |units| == 1 then
         units[0] == text[start..] && (|text| - start <= PRESERVED || NoCut(text, start))
       else
         var cut := start + |units[0]|;
         && |text| - start > PRESERVED && cut <= |text|
         && units[0] == text[start..cut]
         && RightCut(text, start, cut) && WellCut(text, cut, units[1..])
  }

  ghost predicate Ascending(points: seq<nat>)
  {
    forall i, j | 0 <= i < j < |points| :: points[i] < points[j]
  }

  ghost predicate Lists(points: seq<nat>, text: string, kind: Kind)
  {
    (forall p: nat :: p in points <==> SafeEnd(text, kind, p)) && Ascending(points)
  }

  lemma {:induction false} PointsList(text: string, kind: Kind, from: nat)
    ensures var points := Points(text, kind, Spans(text), from);
            (forall p: nat :: p in points <==> from <= p && SafeEnd(text, kind, p)) && Ascending(points)
    decreases |text| - from
  {
    hide Spans, SafeBreak;
    if from <= |text| {
      PointsList(text, kind, from + 1);
      SafeBreakDecides(text, from);
      AscendingFrom(from, Points(text, kind, Spans(text), from + 1));
    }
  }

  lemma AscendingFrom(p: nat, points: seq<nat>)
    requires Ascending(points) && forall q | q in points :: p < q
    ensures Ascending([p] + points)
  {
    var all := [p] + points;
    forall j | 1 <= j < |all| ensures p < all[j] {
      assert all[j] in points;
    }
  }

  lemma {:induction false} FirstIsLeast(points: seq<nat>, upper: nat)
    requires Ascending(points)
    ensures var r := FirstAfter(points, upper);
            r.Some? ==> forall p | p in points && upper < p :: r.value <= p
  {
    if points != [] {
      if points[0] <= upper {
        FirstIsLeast(points[1..], upper);
      }
      assert forall p | p in points :: p == points[0] || p in points[1..];
    }
  }

  lemma WindowDecides(points: seq<nat>, text: string, kind: Kind, start: nat)
    requires Lists(points, text, kind)
    ensures var r := Window(points, start);
            if r.None? then NoneInWindow(text, kind, start) else NearestInWindow(text, kind, start, r.value)
  {
    hide SafeEnd;
  }

  ghost predicate ListsAll(places: Places, text: string)
  {
    Lists(places.sentence, text, Sentence) && Lists(places.lines, text, Line) && Lists(places.spaces, text, White)
  }

  lemma CutAfterIsRight(text: string, places: Places, start: nat)
    requires ListsAll(places, text)
    ensures var cut := CutAfter(places, start);
            if cut.None? then NoCut(text, start) else RightCut(text, start, cut.value)
  {
    hide SafeEnd, Window, NoneInWindow, NearestInWindow;
    WindowDecides(places.sentence, text, Sentence, start);
    WindowDecides(places.lines, text, Line, start);
    WindowDecides(places.spaces, text, White, start);
    FirstIsLeast(places.spaces, start + PRESERVED);
  }

  lemma {:induction false} UnitsFromAreWellCut(text: string, places: Places, start: nat)
    requires start <= |text| && ListsAll(places, text)
    requires forall p | p in places.sentence || p in places.lines || p in places.spaces :: p <= |text|
    ensures WellCut(text, start, UnitsFrom(text, places, start))
    decreases |text| - start
  {
    hide CutAfter, NoCut, RightCut, ListsAll;
    if |text| - start > PRESERVED {
      CutAfterIsRight(text, places, start);
      var cut := CutAfter(places, start);
      if cut.Some? {
        UnitsFromAreWellCut(text, places, cut.value);
        assert UnitsFrom(text, places, start)[1..] == UnitsFrom(text, places, cut.value);
      }
    }
  }

  lemma UnitsAreWellCut(text: string)
    ensures WellCut(text, 0, Units(text))
  {
    PointsList(text, Sentence, 0);
    PointsList(text, Line, 0);
    PointsList(text, White, 0);
    if |text| > PRESERVED {
      UnitsFromAreWellCut(text, PlacesOf(text), 0);
    }
  }

  /** There is only one way to cut a text well. */
  lemma {:induction false} WellCutIsUnique(text: string, start: nat, a: seq<string>, b: seq<string>)
    requires start <= |text| && WellCut(text, start, a) && WellCut(text, start, b)
    ensures a == b
    decreases |a|
  {
    hide RightCut, NoCut;
    if |a| > 1 {
      NotBoth(text, start, start + |a[0]|);
    }
    if |b| > 1 {
      NotBoth(text, start, start + |b[0]|);
    }
    if |a| > 1 && |b| > 1 {
      RightCutIsUnique(text, start, start + |a[0]|, start + |b[0]|);
      WellCutIsUnique(text, start + |a[0]|, a[1..], b[1..]);
      assert a == [a[0]] + a[1..] && b == [b[0]] + b[1..];
    }
  }

  lemma NotBoth(text: string, start: nat, cut: nat)
    requires RightCut(text, start, cut)
    ensures !NoCut(text, start)
  {
  }

  lemma RightCutIsUnique(text: string, start: nat, a: nat, b: nat)
    requires RightCut(text, start, a) && RightCut(text, start, b)
    ensures a == b
  {
    hide SafeEnd;
  }
}
