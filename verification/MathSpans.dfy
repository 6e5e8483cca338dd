/**
 The math-delimiter scanner of evidence_anchors.py, and its locality: scanning a block of whole
 lines that starts and ends outside every formula finds the formulas of the whole text that lie in
 the block.
 */
module MathSpans {
  import opened Basics

  datatype Opener = Display | Bracket | Paren | Marker | Tag | Inline

  function Fold(c: char): char
  {
    if 'a' <= c <= 'z' then c - 'a' + 'A' else c
  }

  /** Whether `pattern`, spelled in capitals, stands at position `i` in either case. */
  predicate Reads(text: string, i: nat, pattern: string)
  {
    i + |pattern| <= |text| && forall k | 0 <= k < |pattern| :: Fold(text[i + k]) == pattern[k]
  }

  function Token(opener: Opener): (token: string)
    ensures token != [] && '\n' !in token
  {
    match opener
    case Display => "$$"
    case Bracket => "\\["
    case Paren => "\\("
    case Marker => "[MATH:"
    case Tag => "[MATH]"
    case Inline => "$"
  }

  function Closer(opener: Opener): (token: string)
    ensures token != [] && '\n' !in token
  {
    match opener
    case Display => "$$"
    case Bracket => "\\]"
    case Paren => "\\)"
    case Tag => "[/MATH]"
    case _ => "$"
  }

  /** A dollar sign that is not part of a longer run. */
  predicate LoneDollar(text: string, i: nat)
  {
    Reads(text, i, Token(Inline)) && (i == 0 || text[i - 1] != '$') && (i + 1 == |text| || text[i + 1] != '$')
  }

  function OpenerAt(text: string, i: nat): (r: Option<Opener>)
    ensures r.Some? ==> Reads(text, i, Token(r.value))
  {
    if Reads(text, i, Token(Display)) then Some(Display)
    else if Reads(text, i, Token(Bracket)) then Some(Bracket)
    else if Reads(text, i, Token(Paren)) then Some(Paren)
    else if Reads(text, i, Token(Marker)) then Some(Marker)
    else if Reads(text, i, Token(Tag)) then Some(Tag)
    else if LoneDollar(text, i) then Some(Inline)
    else None
  }

  /** Whether an odd number of backslashes stands immediately before the position. */
  predicate Escaped(text: string, position: nat)
    requires position <= |text|
  {
    position > 0 && text[position - 1] == '\\' && !Escaped(text, position - 1)
  }

  /** The end of the first unescaped occurrence of the token at or after `from`. */
  function Closing(text: string, token: string, from: nat): (r: Option<nat>)
    requires token != []
    ensures r.Some? ==> from + |token| <= r.value <= |text|
    decreases |text| - from
  {
    if from + |token| > |text| then None
    else if !Reads(text, from, token) then Closing(text, token, from + 1)
    else if Escaped(text, from) then Closing(text, token, from + |token|)
    else Some(from + |token|)
  }

  /** The end of the first occurrence of the token, escaped or not. */
  function Found(text: string, token: string, from: nat): (r: Option<nat>)
    requires token != []
    ensures r.Some? ==> from + |token| <= r.value <= |text|
    decreases |text| - from
  {
    if from + |token| > |text| then None
    else if Reads(text, from, token) then Some(from + |token|)
    else Found(text, token, from + 1)
  }

  /** The end of the bracket that balances `depth` open ones, skipping escaped characters. */
  function Balanced(text: string, from: nat, depth: nat): (r: Option<nat>)
    requires depth > 0
    ensures r.Some? ==> from < r.value <= |text|
    decreases |text| - from
  {
    if from >= |text| then None
    else if Escaped(text, from) then Balanced(text, from + 1, depth)
    else if text[from] == '[' then Balanced(text, from + 1, depth + 1)
    else if text[from] == ']' then
      if depth == 1 then Some(from + 1) else Balanced(text, from + 1, depth - 1)
    else Balanced(text, from + 1, depth)
  }

  function CloseOf(text: string, i: nat, opener: Opener): (r: Option<nat>)
    ensures r.Some? ==> i < r.value <= |text|
  {
    var from := i + |Token(opener)|;
    match opener
    case Marker => Balanced(text, i + 1, 1)
    case Tag => Found(text, Closer(opener), from)
    case _ => Closing(text, Closer(opener), from)
  }

  /** Where a formula opened at `i` ends; an unpaired or multi-line currency sign opens none. */
  function SpanEnd(text: string, i: nat, opener: Opener): (r: Option<nat>)
    requires i < |text|
    ensures r.Some? ==> i < r.value <= |text|
  {
    var close := CloseOf(text, i, opener);
    if opener == Inline then
      if close.None? || '\n' in text[i + 1..close.value] then None else close
    else if close.None? then Some(|text|) else close
  }

  /** One match of the opening pattern, or one character passed over. */
  datatype Move = Move(next: nat, span: Option<Span>)

  function MoveAt(text: string, from: nat, end: nat): (m: Move)
    requires from < |text|
    ensures from < m.next
    ensures m.span.Some? ==> end <= from == m.span.value.start < m.span.value.end <= |text|
  {
    var opener := OpenerAt(text, from);
    if opener.None? then Move(from + 1, None) else
    var next := from + |Token(opener.value)|;
    if from < end || Escaped(text, from) then Move(next, None) else
    var close := SpanEnd(text, from, opener.value);
    Move(next, if close.None? then None else Some(Span(from, close.value)))
  }

  function EndAfter(m: Move, end: nat): nat
  {
    if m.span.Some? then m.span.value.end else end
  }

  datatype Scanned = Scanned(spans: seq<Span>, end: nat)

  /** The formulas opened from `from` up to `limit`, none of them before `end`. */
  function Scan(text: string, from: nat, end: nat, limit: nat): Scanned
    requires limit <= |text|
    decreases limit - from
  {
    if from >= limit then Scanned([], end) else
    var m := MoveAt(text, from, end);
    var rest := Scan(text, m.next, EndAfter(m, end), limit);
    Scanned((if m.span.Some? then [m.span.value] else []) + rest.spans, rest.end)
  }

  function Spans(text: string): seq<Span>
  {
    Scan(text, 0, 0, |text|).spans
  }

  lemma ScanDone(text: string, from: nat, end: nat, limit: nat)
    requires limit <= from && limit <= |text|
    ensures Scan(text, from, end, limit) == Scanned([], end)
  {
  }

  /* ---- the loops of the source ---- */

  method FindClosing(text: string, token: string, start: nat) returns (r: Option<nat>)
    requires token != []
    ensures r == Closing(text, token, start)
  {
    var position := start;
    while position + |token| <= |text|
      invariant Closing(text, token, start) == Closing(text, token, position)
    {
      if !Reads(text, position, token) {
        position := position + 1;
      } else if Escaped(text, position) {
        position := position + |token|;
      } else {
        return Some(position + |token|);
      }
    }
    return None;
  }

  method WordMathEnd(text: string, start: nat) returns (end: nat)
    requires start < |text|
    ensures var close := Balanced(text, start + 1, 1);
            end == if close.Some? then close.value else |text|
  {
    var depth := 1;
    for position := start + 1 to |text|
      invariant depth > 0 && Balanced(text, start + 1, 1) == Balanced(text, position, depth)
    {
      if Escaped(text, position) {
        continue;
      }
      if text[position] == '[' {
        depth := depth + 1;
      } else if text[position] == ']' {
        depth := depth - 1;
        if depth == 0 {
          return position + 1;
        }
      }
    }
    return |text|;
  }

  /** Where a formula opened at `start` ends. */
  method FindSpanEnd(text: string, start: nat, opener: Opener) returns (close: Option<nat>)
    requires start < |text|
    ensures close == SpanEnd(text, start, opener)
  {
    hide Closing, Found, Balanced, Token, Closer;
    var from := start + |Token(opener)|;
    match opener {
      case Marker =>
        var stop := WordMathEnd(text, start);
        return Some(stop);
      case Tag =>
        close := Found(text, Closer(opener), from);
        return if close.None? then Some(|text|) else close;
      case Inline =>
        close := FindClosing(text, Closer(opener), from);
        return if close.Some? && '\n' in text[start + 1..close.value] then None else close;
      case _ =>
        close := FindClosing(text, Closer(opener), from);
        return if close.None? then Some(|text|) else close;
    }
  }

  method FindMathSpans(text: string) returns (result: seq<Span>)
    ensures result == Spans(text)
  {
    hide Scan, OpenerAt, Token, Escaped, SpanEnd;
    result := [];
    var end, position := 0, 0;
    while position < |text|
      invariant Spans(text) == result + Scan(text, position, end, |text|).spans
      decreases |text| - position
    {
      ScanParts(text, position, end, |text|);
      var opener := OpenerAt(text, position);
      var start := position;
      position := position + if opener.None? then 1 else |Token(opener.value)|;
      if opener.None? || start < end || Escaped(text, start) {
        continue;
      }
      var close := FindSpanEnd(text, start, opener.value);
      if close.None? {
        continue;
      }
      end := close.value;
      result := result + [Span(start, end)];
    }
    ScanDone(text, position, end, |text|);
  }

  /* ---- formulas are disjoint, in order ---- */

  ghost predicate Ordered(spans: seq<Span>)
  {
    && (forall i | 0 <= i < |spans| :: spans[i].start < spans[i].end)
    && (forall i, j | 0 <= i < j < |spans| :: spans[i].end <= spans[j].start)
  }

  /** What a scan from `from` with formulas up to `end` behind it has found. */
  ghost predicate Placed(r: Scanned, from: nat, end: nat, limit: nat, length: nat)
  {
    && Ordered(r.spans)
    && (forall x | x in r.spans :: from <= x.start < limit && end <= x.start && x.end <= r.end && x.end <= length)
    && r.end == if r.spans == [] then end else r.spans[|r.spans| - 1].end
  }

  lemma PlacedBefore(r: Scanned, x: Span, from: nat, next: nat, end: nat, limit: nat, length: nat)
    requires Placed(r, next, x.end, limit, length) && from == x.start < x.end <= length
    requires end <= from < limit && from < next
    ensures Placed(Scanned([x] + r.spans, r.end), from, end, limit, length)
  {
    var all := [x] + r.spans;
    forall j | 1 <= j < |all| ensures x.end <= all[j].start {
      assert all[j] in r.spans;
    }
    assert r.spans != [] ==> r.spans[|r.spans| - 1] in r.spans;
  }

  lemma PlacedLater(r: Scanned, from: nat, next: nat, end: nat, limit: nat, length: nat)
    requires Placed(r, next, end, limit, length) && from <= next
    ensures Placed(r, from, end, limit, length)
  {
  }

  lemma PlacedNone(from: nat, end: nat, limit: nat, length: nat)
    ensures Placed(Scanned([], end), from, end, limit, length)
  {
  }

  lemma {:induction false} ScanIsOrdered(text: string, from: nat, end: nat, limit: nat)
    requires limit <= |text|
    ensures Placed(Scan(text, from, end, limit), from, end, limit, |text|)
    decreases limit - from
  {
    hide MoveAt, Scan, Placed;
    if from >= limit {
      ScanDone(text, from, end, limit);
      PlacedNone(from, end, limit, |text|);
    } else {
      var m := MoveAt(text, from, end);
      var rest := Scan(text, m.next, EndAfter(m, end), limit);
      ScanParts(text, from, end, limit);
      ScanIsOrdered(text, m.next, EndAfter(m, end), limit);
      if m.span.Some? {
        PlacedBefore(rest, m.span.value, from, m.next, end, limit, |text|);
      } else {
        assert Scan(text, from, end, limit).spans == rest.spans;
        PlacedLater(rest, from, m.next, end, limit, |text|);
      }
    }
  }

  /** A place where the text may be cut. */
  ghost predicate Safe(text: string, position: nat)
  {
    !Inside(Spans(text), position)
  }

  /* ---- locality ---- */

  /** A block of whole lines. */
  ghost predicate Lines(text: string, s: nat, e: nat)
  {
    && s <= e <= |text|
    && (s == 0 || text[s - 1] == '\n')
    && (e == |text| || (e > 0 && text[e - 1] == '\n'))
  }

  lemma ReadsNoNewline(text: string, i: nat, pattern: string)
    requires Reads(text, i, pattern) && '\n' !in pattern
    ensures forall j | i <= j < i + |pattern| :: text[j] != '\n'
  {
    forall j | i <= j < i + |pattern| ensures text[j] != '\n' {
      assert Fold(text[i + (j - i)]) == pattern[j - i];
    }
  }

  lemma ReadsLocally(text: string, s: nat, e: nat, i: nat, pattern: string)
    requires Lines(text, s, e) && s <= i < e && '\n' !in pattern
    ensures Reads(text[s..e], i - s, pattern) <==> Reads(text, i, pattern)
    ensures Reads(text, i, pattern) ==> i + |pattern| <= e
  {
    if Reads(text, i, pattern) {
      ReadsNoNewline(text, i, pattern);
    }
    if Reads(text[s..e], i - s, pattern) {
      forall k | 0 <= k < |pattern| ensures Fold(text[i + k]) == pattern[k] {
        assert Fold(text[s..e][i - s + k]) == pattern[k];
      }
    }
  }

  lemma {:induction false} EscapedLocally(text: string, s: nat, e: nat, i: nat)
    requires Lines(text, s, e) && s <= i <= e
    ensures Escaped(text[s..e], i - s) == Escaped(text, i)
    decreases i
  {
    if i > s {
      EscapedLocally(text, s, e, i - 1);
    }
  }

  lemma DollarLocally(text: string, s: nat, e: nat, i: nat)
    requires Lines(text, s, e) && s <= i < e
    ensures LoneDollar(text[s..e], i - s) == LoneDollar(text, i)
  {
    ReadsLocally(text, s, e, i, Token(Inline));
    if Reads(text, i, Token(Inline)) {
      ReadsNoNewline(text, i, Token(Inline));
      assert text[i] != '\n';
    }
  }

  lemma OpenerLocally(text: string, s: nat, e: nat, i: nat)
    requires Lines(text, s, e) && s <= i < e
    ensures OpenerAt(text[s..e], i - s) == OpenerAt(text, i)
    ensures OpenerAt(text, i).Some? ==>
              text[i] != '\n' && i + |Token(OpenerAt(text, i).value)| <= e
  {
    hide Reads, Token, LoneDollar;
    ReadsLocally(text, s, e, i, Token(Display));
    ReadsLocally(text, s, e, i, Token(Bracket));
    ReadsLocally(text, s, e, i, Token(Paren));
    ReadsLocally(text, s, e, i, Token(Marker));
    ReadsLocally(text, s, e, i, Token(Tag));
    ReadsLocally(text, s, e, i, Token(Inline));
    DollarLocally(text, s, e, i);
    if OpenerAt(text, i).Some? {
      ReadsNoNewline(text, i, Token(OpenerAt(text, i).value));
    }
  }

  /** The search in the block finds the same end, or the search in the text ends beyond the block. */
  ghost predicate Agree(here: Option<nat>, whole: Option<nat>, s: nat, e: nat)
  {
    if here.Some? then whole == Some(here.value + s) else whole.None? || whole.value > e
  }

  lemma {:induction false} ClosingLocally(text: string, s: nat, e: nat, token: string, i: nat)
    requires Lines(text, s, e) && s <= i <= e && token != [] && '\n' !in token
    ensures Agree(Closing(text[s..e], token, i - s), Closing(text, token, i), s, e)
    decreases e - i
  {
    hide Reads, Escaped;
    if i < e {
      ReadsLocally(text, s, e, i, token);
      if Reads(text, i, token) {
        EscapedLocally(text, s, e, i);
        if Escaped(text, i) {
          ClosingLocally(text, s, e, token, i + |token|);
        }
      } else {
        ClosingLocally(text, s, e, token, i + 1);
        ClosingBeyond(text[s..e], token, i - s);
        ClosingBeyond(text, token, i);
      }
    }
  }

  lemma ClosingBeyond(text: string, token: string, i: nat)
    requires token != [] && i < |text| && !Reads(text, i, token)
    ensures Closing(text, token, i) == Closing(text, token, i + 1)
  {
  }

  lemma {:induction false} FoundLocally(text: string, s: nat, e: nat, token: string, i: nat)
    requires Lines(text, s, e) && s <= i <= e && token != [] && '\n' !in token
    ensures Agree(Found(text[s..e], token, i - s), Found(text, token, i), s, e)
    decreases e - i
  {
    hide Reads;
    if i < e {
      ReadsLocally(text, s, e, i, token);
      if !Reads(text, i, token) {
        FoundLocally(text, s, e, token, i + 1);
        FoundBeyond(text[s..e], token, i - s);
        FoundBeyond(text, token, i);
      }
    }
  }

  lemma FoundBeyond(text: string, token: string, i: nat)
    requires token != [] && i < |text| && !Reads(text, i, token)
    ensures Found(text, token, i) == Found(text, token, i + 1)
  {
  }

  lemma {:induction false} BalancedLocally(text: string, s: nat, e: nat, i: nat, depth: nat)
    requires Lines(text, s, e) && s <= i <= e && depth > 0
    ensures Agree(Balanced(text[s..e], i - s, depth), Balanced(text, i, depth), s, e)
    decreases e - i
  {
    hide Escaped;
    if i < e {
      EscapedLocally(text, s, e, i);
      BalancedLocally(text, s, e, i + 1, depth);
      BalancedLocally(text, s, e, i + 1, depth + 1);
      if depth > 1 {
        BalancedLocally(text, s, e, i + 1, depth - 1);
      }
    }
  }

  lemma CloseLocally(text: string, s: nat, e: nat, i: nat, opener: Opener)
    requires Lines(text, s, e) && s <= i && i + |Token(opener)| <= e
    ensures Agree(CloseOf(text[s..e], i - s, opener), CloseOf(text, i, opener), s, e)
  {
    hide Closing, Found, Balanced, Token, Closer, Agree;
    var from := i + |Token(opener)|;
    match opener
    case Marker => BalancedLocally(text, s, e, i + 1, 1);
    case Tag => FoundLocally(text, s, e, Closer(opener), from);
    case _ => ClosingLocally(text, s, e, Closer(opener), from);
  }

  /** A formula of the text that does not reach beyond the block is found in the block as it is. */
  lemma SpanLocally(text: string, s: nat, e: nat, i: nat, opener: Opener)
    requires Lines(text, s, e) && s <= i && i + |Token(opener)| <= e && text[i] != '\n'
    requires var whole := SpanEnd(text, i, opener); whole.Some? ==> whole.value <= e
    ensures var here, whole := SpanEnd(text[s..e], i - s, opener), SpanEnd(text, i, opener);
            if whole.None? then here.None? else here.Some? && here.value + s == whole.value
  {
    hide CloseOf, Token;
    CloseLocally(text, s, e, i, opener);
    var here, whole := CloseOf(text[s..e], i - s, opener), CloseOf(text, i, opener);
    if opener == Inline {
      if here.Some? {
        SameSlice(text, s, e, i + 1, whole.value);
      } else if whole.Some? {
        assert text[i + 1..whole.value][e - 1 - (i + 1)] == '\n';
      }
    }
  }

  lemma SameSlice(text: string, s: nat, e: nat, i: nat, j: nat)
    requires s <= i <= j <= e <= |text|
    ensures text[s..e][i - s..j - s] == text[i..j]
  {
    assert forall k | 0 <= k < j - i :: text[s..e][i - s..j - s][k] == text[i..j][k];
  }

  lemma MoveLocally(text: string, s: nat, e: nat, i: nat, end: nat, endHere: nat)
    requires Lines(text, s, e) && s <= i < e
    requires endHere == if end > s then end - s else 0
    requires var m := MoveAt(text, i, end); m.span.Some? ==> m.span.value.end <= e
    ensures var here, whole := MoveAt(text[s..e], i - s, endHere), MoveAt(text, i, end);
            && here.next + s == whole.next <= e
            && (if whole.span.None? then here.span.None?
                else here.span.Some? && here.span.value.end + s == whole.span.value.end)
  {
    hide OpenerAt, SpanEnd, Token, Escaped;
    OpenerLocally(text, s, e, i);
    EscapedLocally(text, s, e, i);
    var opener := OpenerAt(text, i);
    if opener.Some? && !(i < end || Escaped(text, i)) {
      SpanLocally(text, s, e, i, opener.value);
    }
  }

  ghost function Shift(spans: seq<Span>, s: nat): seq<Span>
  {
    seq(|spans|, i requires 0 <= i < |spans| => Span(spans[i].start + s, spans[i].end + s))
  }

  /** Scanning the lines of a block from its start is scanning the text through them. */
  lemma {:induction false} ScanLocally(text: string, s: nat, e: nat, i: nat, end: nat, endHere: nat)
    requires Lines(text, s, e) && s <= i <= e
    requires endHere == if end > s then end - s else 0
    requires forall x | x in Scan(text, i, end, e).spans :: x.end <= e
    ensures Shift(Scan(text[s..e], i - s, endHere, e - s).spans, s) == Scan(text, i, end, e).spans
    decreases e - i
  {
    hide MoveAt, Scan;
    if i < e {
      var m := MoveAt(text, i, end);
      ScanParts(text, i, end, e);
      MoveLocally(text, s, e, i, end, endHere);
      var here := MoveAt(text[s..e], i - s, endHere);
      ScanLocally(text, s, e, m.next, EndAfter(m, end), EndAfter(here, endHere));
      ScanParts(text[s..e], i - s, endHere, e - s);
    } else {
      ScanDone(text, i, end, e);
      ScanDone(text[s..e], i - s, endHere, e - s);
    }
  }

  lemma ScanParts(text: string, i: nat, end: nat, limit: nat)
    requires i < limit <= |text|
    ensures var m, spans := MoveAt(text, i, end), Scan(text, i, end, limit).spans;
            var rest := Scan(text, m.next, EndAfter(m, end), limit).spans;
            && spans == (if m.span.Some? then [m.span.value] else []) + rest
            && Scan(text, i, end, limit).end == Scan(text, m.next, EndAfter(m, end), limit).end
            && (m.span.Some? ==> m.span.value in spans)
            && (forall x | x in rest :: x in spans)
  {
    hide MoveAt;
  }

  lemma MoveWithinLine(text: string, from: nat, end: nat, m: nat)
    requires from < m <= |text| && text[m - 1] == '\n'
    ensures MoveAt(text, from, end).next <= m
  {
    var opener := OpenerAt(text, from);
    if opener.Some? {
      ReadsNoNewline(text, from, Token(opener.value));
    }
  }

  /** The scan passes through the start of every line. */
  lemma {:induction false} ScanSplits(text: string, from: nat, end: nat, m: nat, limit: nat)
    requires from <= m <= limit <= |text|
    requires m == from || m == limit || text[m - 1] == '\n'
    ensures var first := Scan(text, from, end, m);
            var second := Scan(text, m, first.end, limit);
            Scan(text, from, end, limit) == Scanned(first.spans + second.spans, second.end)
    decreases m - from
  {
    hide MoveAt;
    if from < m < limit {
      MoveWithinLine(text, from, end, m);
      var step := MoveAt(text, from, end);
      ScanSplits(text, step.next, EndAfter(step, end), m, limit);
    }
  }

  /** The formulas of a text are those before a block, those in it, and those after it. */
  lemma SpansAround(text: string, s: nat, e: nat)
    requires Lines(text, s, e) && Safe(text, s) && Safe(text, e)
    ensures exists before, after ::
              && Spans(text) == before + Shift(Spans(text[s..e]), s) + after
              && (forall x | x in before :: x.end <= s)
              && (forall x | x in after :: e <= x.start)
  {
    hide Scan;
    var head := Scan(text, 0, 0, s);
    var body := Scan(text, s, head.end, e);
    var tail := Scan(text, e, body.end, |text|);
    ScanSplits(text, 0, 0, s, |text|);
    ScanSplits(text, s, head.end, e, |text|);
    assert Spans(text) == head.spans + body.spans + tail.spans;
    ScanIsOrdered(text, 0, 0, s);
    ScanIsOrdered(text, s, head.end, e);
    ScanIsOrdered(text, e, body.end, |text|);
    forall x | x in head.spans ensures x.end <= s {
      assert x in Spans(text);
    }
    forall x | x in body.spans ensures x.end <= e {
      assert x in Spans(text);
    }
    assert head.end <= s;
    ScanLocally(text, s, e, s, head.end, 0);
    assert body.spans == Shift(Spans(text[s..e]), s);
    assert Spans(text) == head.spans + Shift(Spans(text[s..e]), s) + tail.spans;
  }

  /** A position is safe in a block exactly when it is safe in the whole text. */
  lemma SafeLocally(text: string, s: nat, e: nat, position: nat)
    requires Lines(text, s, e) && Safe(text, s) && Safe(text, e) && s <= position <= e
    ensures Safe(text, position) <==> Safe(text[s..e], position - s)
  {
    hide Spans;
    SpansAround(text, s, e);
    var before, after :|
      && Spans(text) == before + Shift(Spans(text[s..e]), s) + after
      && (forall x | x in before :: x.end <= s)
      && (forall x | x in after :: e <= x.start);
    InsideParts(before, Spans(text[s..e]), after, s, e, position);
  }

  lemma InsideParts(before: seq<Span>, here: seq<Span>, after: seq<Span>, s: nat, e: nat, position: nat)
    requires s <= position <= e
    requires (forall x | x in before :: x.end <= s) && (forall x | x in after :: e <= x.start)
    ensures Inside(before + Shift(here, s) + after, position) <==> Inside(here, position - s)
  {
    var shifted := Shift(here, s);
    var all := before + shifted + after;
    if Inside(here, position - s) {
      var k :| 0 <= k < |here| && here[k].start < position - s < here[k].end;
      assert shifted[k] in all;
    }
    if Inside(all, position) {
      var x :| x in all && x.start < position < x.end;
      assert x in before || x in shifted || x in after;
      var k :| 0 <= k < |shifted| && shifted[k] == x;
      assert here[k] in here;
    }
  }
}
