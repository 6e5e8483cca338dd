/**
 The line structure of Markdown text as atomic_publication.py and grounding_verifier.py read it:
 lines, fenced code, headings, list markers and paragraph gaps.
 */
module MarkdownLines {
  import opened Basics

  /** The characters at which Python ends a line. */
  predicate IsBreak(c: char)
  {
    var n := c as int;
    0x0A <= n <= 0x0D || 0x1C <= n <= 0x1E || n == 0x85 || n == 0x2028 || n == 0x2029
  }

  /** A line: where it starts, where its text ends, and where the next line starts. */
  datatype Line = Line(start: nat, end: nat, next: nat)

  function BreakFrom(text: string, i: nat): (r: nat)
    requires i <= |text|
    ensures i <= r <= |text|
    ensures r < |text| ==> IsBreak(text[r])
    decreases |text| - i
  {
    if i == |text| || IsBreak(text[i]) then i else BreakFrom(text, i + 1)
  }

  function LineAt(text: string, i: nat): (line: Line)
    requires i < |text|
    ensures line.start == i <= line.end <= line.next <= |text| && i < line.next
  {
    var stop := BreakFrom(text, i);
    if stop == |text| then Line(i, stop, stop)
    else if text[stop] == '\r' && stop + 1 < |text| && text[stop + 1] == '\n' then Line(i, stop, stop + 2)
    else if text[stop] == '\r' || text[stop] == '\n' then Line(i, stop, stop + 1)
    else Line(i, stop + 1, stop + 1)
  }

  function LinesFrom(text: string, i: nat): (lines: seq<Line>)
    requires i <= |text|
    ensures forall line | line in lines :: i <= line.start <= line.end <= line.next <= |text|
    decreases |text| - i
  {
    if i == |text| then [] else
    var line := LineAt(text, i);
    [line] + LinesFrom(text, line.next)
  }

  /** Lines follow one another without gaps. */
  ghost predicate Tiled(lines: seq<Line>, from: nat, limit: nat)
    decreases |lines|
  {
    if lines == [] then from == limit
    else
      && lines[0].start == from <= lines[0].end <= lines[0].next <= limit && from < lines[0].next
      && Tiled(lines[1..], lines[0].next, limit)
  }

  lemma {:induction false} LinesAreTiled(text: string, i: nat)
    requires i <= |text|
    ensures Tiled(LinesFrom(text, i), i, |text|)
    decreases |text| - i
  {
    if i < |text| {
      LinesAreTiled(text, LineAt(text, i).next);
    }
  }

  /* ---- the patterns ---- */

  function RunOf(line: string, i: nat, c: char): (n: nat)
    ensures i <= |line| ==> i + n <= |line|
    decreases |line| - i
  {
    if i < |line| && line[i] == c then 1 + RunOf(line, i + 1, c) else 0
  }

  predicate IsPad(c: char)
  {
    c == ' ' || c == '\t'
  }

  function SkipPad(line: string, i: nat): (r: nat)
    requires i <= |line|
    ensures i <= r <= |line|
    decreases |line| - i
  {
    if i < |line| && IsPad(line[i]) then SkipPad(line, i + 1) else i
  }

  function DropPad(line: string, j: nat): (r: nat)
    requires j <= |line|
    ensures r <= j
  {
    if j > 0 && IsPad(line[j - 1]) then DropPad(line, j - 1) else j
  }

  /** A code fence: its character, its length, and whether nothing follows it. */
  datatype Fence = Fence(mark: char, length: nat, bare: bool)

  function FenceOf(line: string, indent: nat, mark: char): Option<Fence>
    requires indent <= |line|
  {
    var n := RunOf(line, indent, mark);
    if n < 3 then None else Some(Fence(mark, n, Blank(line[indent + n..])))
  }

  function FenceAt(line: string): Option<Fence>
  {
    var indent := RunOf(line, 0, ' ');
    if indent > 3 then None else
    var ticks := FenceOf(line, indent, '`');
    if ticks.Some? then ticks else FenceOf(line, indent, '~')
  }

  /** The level of a heading marked with number signs. */
  function AtxLevel(line: string): Option<nat>
  {
    var indent := RunOf(line, 0, ' ');
    var n := RunOf(line, indent, '#');
    if indent <= 3 && 1 <= n <= 6 && (indent + n == |line| || IsPad(line[indent + n])) then Some(n) else None
  }

  predicate Wrapped(line: string, i: nat, j: nat, mark: string)
    requires |mark| == 2 && i <= j <= |line|
  {
    i + 5 <= j && line[i..i + 2] == mark && line[j - 2..j] == mark
  }

  /** A line that is one bold title, with or without a colon after it. */
  predicate IsBold(line: string)
  {
    var i := SkipPad(line, 0);
    var end := DropPad(line, |line|);
    var j := if end > 0 && line[end - 1] == ':' then end - 1 else end;
    i <= j && (Wrapped(line, i, j, "**") || Wrapped(line, i, j, "__"))
  }

  predicate IsTitle(line: string)
  {
    AtxLevel(line).Some? || IsBold(line)
  }

  function DigitsOf(line: string, i: nat): (n: nat)
    ensures i <= |line| ==> i + n <= |line|
    decreases |line| - i
  {
    if i < |line| && '0' <= line[i] <= '9' then 1 + DigitsOf(line, i + 1) else 0
  }

  predicate SpaceAt(line: string, i: nat)
  {
    i < |line| && IsSpace(line[i])
  }

  /** The indentation of a list item that starts on this line. */
  function ListMarker(line: string): Option<nat>
  {
    var indent := RunOf(line, 0, ' ');
    var digits := DigitsOf(line, indent);
    var bullet := indent < |line| && line[indent] in "-*+" && SpaceAt(line, indent + 1);
    var after := indent + digits;
    var number := digits > 0 && after < |line| && line[after] in ".)" && SpaceAt(line, after + 1);
    if bullet || number then Some(indent) else None
  }

  /** A fence or a quotation starts on this line. */
  predicate OpensBlock(line: string)
  {
    var indent := RunOf(line, 0, ' ');
    FenceAt(line).Some? || (indent <= 3 && indent < |line| && line[indent] == '>')
  }

  /* ---- code fences and paragraph gaps ---- */

  datatype OpenFence = OpenFence(start: nat, mark: char, length: nat)

  /** The fenced blocks; a fence does not open inside a protected span, and may stay open to the end. */
  function Fences(text: string, lines: seq<Line>, protected: seq<Span>, open: Option<OpenFence>): seq<Span>
    requires forall line | line in lines :: line.start <= line.end <= |text|
  {
    if lines == [] then
      if open.Some? then [Span(open.value.start, |text|)] else []
    else
      var line := lines[0];
      var fence := FenceAt(text[line.start..line.end]);
      if open.None? then
        if fence.Some? && !Covered(protected, line.start)
        then Fences(text, lines[1..], protected, Some(OpenFence(line.start, fence.value.mark, fence.value.length)))
        else Fences(text, lines[1..], protected, None)
      else if fence.Some? && fence.value.mark == open.value.mark && fence.value.length >= open.value.length && fence.value.bare
      then [Span(open.value.start, line.next)] + Fences(text, lines[1..], protected, None)
      else Fences(text, lines[1..], protected, open)
  }

  method FindFences(text: string, lines: seq<Line>, protected: seq<Span>) returns (found: seq<Span>)
    requires forall line | line in lines :: line.start <= line.end <= |text|
    ensures found == Fences(text, lines, protected, None)
  {
    hide FenceAt;
    found := [];
    var open: Option<OpenFence> := None;
    for k := 0 to |lines|
      invariant Fences(text, lines, protected, None) == found + Fences(text, lines[k..], protected, open)
    {
      var line := lines[k];
      assert lines[k..][0] == line && lines[k..][1..] == lines[k + 1..];
      var fence := FenceAt(text[line.start..line.end]);
      if open.None? {
        if fence.Some? && !Covered(protected, line.start) {
          open := Some(OpenFence(line.start, fence.value.mark, fence.value.length));
        }
      } else if fence.Some? && fence.value.mark == open.value.mark && fence.value.length >= open.value.length
                && fence.value.bare {
        found := found + [Span(open.value.start, line.next)];
        open := None;
      }
    }
    assert lines[|lines|..] == [];
    if open.Some? {
      found := found + [Span(open.value.start, |text|)];
    }
  }

  lemma {:induction false} FencesAreWithin(text: string, lines: seq<Line>, protected: seq<Span>, open: Option<OpenFence>, from: nat)
    requires forall line | line in lines :: line.start <= line.end <= |text|
    requires Tiled(lines, from, |text|) && (open.Some? ==> open.value.start <= from)
    ensures Within(Fences(text, lines, protected, open), |text|)
    decreases |lines|
  {
    hide FenceAt, Covered;
    if lines != [] {
      var fence := FenceAt(text[lines[0].start..lines[0].end]);
      if fence.Some? {
        FencesAreWithin(text, lines[1..], protected, Some(OpenFence(lines[0].start, fence.value.mark, fence.value.length)), lines[0].next);
      }
      FencesAreWithin(text, lines[1..], protected, None, lines[0].next);
      if open.Some? {
        FencesAreWithin(text, lines[1..], protected, open, lines[0].next);
      }
    }
  }

  /** The gaps between paragraphs: a line feed, blanks, and at least one more line feed. */
  function Gaps(text: string, i: nat): (gaps: seq<Span>)
    requires i <= |text|
    ensures Within(gaps, |text|)
    decreases |text| - i
  {
    if i == |text| then []
    else if text[i] != '\n' then Gaps(text, i + 1)
    else
      var next := SkipPad(text, i + 1);
      var n := RunOf(text, next, '\n');
      if n == 0 then Gaps(text, i + 1) else [Span(i, next + n)] + Gaps(text, next + n)
  }
}
