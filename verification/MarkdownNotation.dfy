/**
 How Markdown is written: what each pattern of MarkdownLines reads, told by the signs of the line
 instead of by the functions that read it.
 */
module MarkdownNotation {
  import opened Basics
  import opened MarkdownLines

  /* ---- white space ---- */

  /** The signs that Python's `strip` takes away. */
  lemma SpacesAre(c: char)
    ensures IsSpace(c) <==>
              || c == ' ' || c == '\t' || c == '\n' || c == '\U{000B}' || c == '\U{000C}' || c == '\r'
              || c == '\U{001C}' || c == '\U{001D}' || c == '\U{001E}' || c == '\U{001F}' || c == '\U{0085}' || c == '\U{00A0}'
              || c == '\U{1680}' || '\U{2000}' <= c <= '\U{200A}' || c == '\U{2028}' || c == '\U{2029}' || c == '\U{202F}'
              || c == '\U{205F}' || c == '\U{3000}'
  {
  }

  /* ---- runs ---- */

  /** The `n` signs from `i` on, and no more. */
  ghost predicate Run(line: string, i: nat, c: char, n: nat)
  {
    i + n <= |line| && (forall k | i <= k < i + n :: line[k] == c) && (i + n < |line| ==> line[i + n] != c)
  }

  lemma {:induction false} RunIsMaximal(line: string, i: nat, c: char)
    requires i <= |line|
    ensures Run(line, i, c, RunOf(line, i, c))
    decreases |line| - i
  {
    if i < |line| && line[i] == c {
      RunIsMaximal(line, i + 1, c);
    }
  }

  lemma OneRun(line: string, i: nat, c: char, n: nat)
    requires Run(line, i, c, n)
    ensures RunOf(line, i, c) == n
  {
    RunIsMaximal(line, i, c);
  }

  lemma {:induction false} DigitsReach(line: string, i: nat, last: nat)
    requires i <= last <= |line| && (forall k | i <= k < last :: '0' <= line[k] <= '9')
    requires last < |line| ==> !('0' <= line[last] <= '9')
    ensures DigitsOf(line, i) == last - i
    decreases last - i
  {
    if i < last {
      DigitsReach(line, i + 1, last);
    }
  }

  lemma {:induction false} DigitsAreDigits(line: string, i: nat)
    requires i <= |line|
    ensures forall k | i <= k < i + DigitsOf(line, i) :: '0' <= line[k] <= '9'
    ensures i + DigitsOf(line, i) < |line| ==> !('0' <= line[i + DigitsOf(line, i)] <= '9')
    decreases |line| - i
  {
    if i < |line| && '0' <= line[i] <= '9' {
      DigitsAreDigits(line, i + 1);
    }
  }

  lemma {:induction false} PadReaches(line: string, i: nat, last: nat)
    requires i <= last <= |line| && (forall k | i <= k < last :: line[k] == ' ' || line[k] == '\t')
    requires last < |line| ==> line[last] != ' ' && line[last] != '\t'
    ensures SkipPad(line, i) == last
    decreases last - i
  {
    if i < last {
      PadReaches(line, i + 1, last);
    }
  }

  lemma {:induction false} PadIsPad(line: string, i: nat)
    requires i <= |line|
    ensures forall k | i <= k < SkipPad(line, i) :: line[k] == ' ' || line[k] == '\t'
    ensures SkipPad(line, i) < |line| ==> line[SkipPad(line, i)] != ' ' && line[SkipPad(line, i)] != '\t'
    decreases |line| - i
  {
    if i < |line| && IsPad(line[i]) {
      PadIsPad(line, i + 1);
    }
  }

  lemma {:induction false} TailReaches(line: string, first: nat, j: nat)
    requires first <= j <= |line| && (forall k | first <= k < j :: line[k] == ' ' || line[k] == '\t')
    requires first > 0 ==> line[first - 1] != ' ' && line[first - 1] != '\t'
    ensures DropPad(line, j) == first
    decreases j
  {
    if first < j {
      TailReaches(line, first, j - 1);
    }
  }

  lemma {:induction false} TailIsPad(line: string, j: nat)
    requires j <= |line|
    ensures forall k | DropPad(line, j) <= k < j :: line[k] == ' ' || line[k] == '\t'
    decreases j
  {
    if j > 0 && IsPad(line[j - 1]) {
      TailIsPad(line, j - 1);
    }
  }

  /* ---- lines ---- */

  /** The signs at which Python ends a line. */
  predicate Ends(c: char)
  {
    || c == '\n' || c == '\r' || c == '\U{000B}' || c == '\U{000C}' || c == '\U{001C}' || c == '\U{001D}'
    || c == '\U{001E}' || c == '\U{0085}' || c == '\U{2028}' || c == '\U{2029}'
  }

  /** A line of text, its ending, and what comes after it. */
  ghost predicate Written(body: string, ending: string, rest: string)
  {
    && (forall c | c in body :: !Ends(c))
    && match |ending|
       case 0 => rest == ""
       case 1 => Ends(ending[0]) && !(ending == "\r" && rest != "" && rest[0] == '\n')
       case 2 => ending == "\r\n"
       case _ => false
  }

  lemma {:induction false} BreakReaches(text: string, i: nat, stop: nat)
    requires i <= stop <= |text| && (forall k | i <= k < stop :: !Ends(text[k])) && (stop < |text| ==> Ends(text[stop]))
    ensures BreakFrom(text, i) == stop
    decreases stop - i
  {
    if i < stop {
      BreakReaches(text, i + 1, stop);
    }
  }

  /** Line feed, carriage return or both are left out of a line; the rarer signs are kept in it. */
  lemma LineIsRead(lead: string, body: string, ending: string, rest: string)
    requires Written(body, ending, rest) && body + ending != ""
    ensures var i := |lead|;
            var next := i + |body| + |ending|;
            LineAt(lead + body + ending + rest, i) ==
              Line(i, if ending == "" || ending == "\n" || ending == "\r" || ending == "\r\n" then i + |body| else next, next)
  {
    var text, i, stop := lead + body + ending + rest, |lead|, |lead| + |body|;
    forall k | i <= k < stop ensures !Ends(text[k]) {
      assert text[k] == body[k - i] && body[k - i] in body;
    }
    assert |ending| > 0 ==> text[stop] == ending[0];
    assert |ending| > 1 ==> text[stop + 1] == ending[1];
    assert |ending| == 1 && rest != "" ==> text[stop + 1] == rest[0];
    BreakReaches(text, i, stop);
  }

  /* ---- fences ---- */

  /** At most three blanks, then at least three of one sign and no more. */
  ghost predicate FenceLine(line: string, indent: nat, mark: char, n: nat)
  {
    indent <= 3 && n >= 3 && (mark == '`' || mark == '~') && Run(line, indent, mark, n) && Run(line, 0, ' ', indent)
  }

  lemma OtherRun(line: string, i: nat, c: char, d: char, n: nat)
    requires Run(line, i, c, n) && n > 0 && d != c
    ensures Run(line, i, d, 0)
  {
  }

  /** A line is a fence exactly if it is so written. */
  lemma FenceIsRead(line: string, indent: nat, mark: char, n: nat)
    requires FenceLine(line, indent, mark, n)
    ensures FenceAt(line) == Some(Fence(mark, n, Blank(line[indent + n..])))
  {
    OneRun(line, 0, ' ', indent);
    OneRun(line, indent, mark, n);
    if mark == '~' {
      OtherRun(line, indent, '~', '`', n);
      OneRun(line, indent, '`', 0);
    }
    hide RunOf, Run, Blank;
  }

  lemma FenceIsWritten(line: string) returns (indent: nat)
    requires FenceAt(line).Some?
    ensures FenceLine(line, indent, FenceAt(line).value.mark, FenceAt(line).value.length)
  {
    indent := RunOf(line, 0, ' ');
    RunIsMaximal(line, 0, ' ');
    RunIsMaximal(line, indent, '`');
    RunIsMaximal(line, indent, '~');
    hide RunOf, Run, Blank;
  }

  /* ---- titles ---- */

  /** At most three blanks, one to six number signs, and a blank or the end of the line. */
  ghost predicate AtxLine(line: string, indent: nat, n: nat)
  {
    && indent <= 3 && 1 <= n <= 6 && Run(line, 0, ' ', indent) && Run(line, indent, '#', n)
    && (indent + n < |line| ==> line[indent + n] == ' ' || line[indent + n] == '\t')
  }

  lemma AtxIsRead(line: string, n: nat)
    ensures AtxLevel(line) == Some(n) <==> exists indent: nat :: AtxLine(line, indent, n)
  {
    var i := RunOf(line, 0, ' ');
    RunIsMaximal(line, 0, ' ');
    RunIsMaximal(line, i, '#');
    if AtxLevel(line) == Some(n) {
      assert AtxLine(line, i, n);
    }
    forall indent: nat | AtxLine(line, indent, n) ensures AtxLevel(line) == Some(n) {
      OneRun(line, 0, ' ', indent);
      OneRun(line, indent, '#', n);
    }
  }

  ghost predicate Pad(s: string)
  {
    forall c | c in s :: c == ' ' || c == '\t'
  }

  /** Two stars or two underscores on either side of some text, perhaps a colon, and blanks around. */
  ghost predicate BoldLine(line: string, pad: string, mark: string, inner: string, colon: string, tail: string)
  {
    && line == pad + mark + inner + mark + colon + tail && inner != ""
    && (mark == "**" || mark == "__") && (colon == "" || colon == ":") && Pad(pad) && Pad(tail)
  }

  lemma BoldPlaces(line: string, pad: string, mark: string, inner: string, colon: string, tail: string)
    requires BoldLine(line, pad, mark, inner, colon, tail)
    ensures var i, j := |pad|, |pad| + 4 + |inner|;
            var stop := j + |colon|;
            && i + 5 <= j <= stop <= |line| && line[i..i + 2] == line[j - 2..j] == mark
            && line[j - 1] == mark[1] && line[i] == mark[0]
            && (colon == ":" ==> line[j] == ':') && (forall k | 0 <= k < i || stop <= k < |line| :: line[k] == ' ' || line[k] == '\t')
  {
    var i, j := |pad|, |pad| + 4 + |inner|;
    var stop := j + |colon|;
    assert |mark| == 2;
    assert line[i..i + 2] == mark && line[j - 2..j] == mark;
    assert line[i..i + 2][0] == line[i] && line[j - 2..j][1] == line[j - 1];
    forall k | 0 <= k < i ensures line[k] == ' ' || line[k] == '\t' {
      assert line[k] == pad[k] && pad[k] in pad;
    }
    forall k | stop <= k < |line| ensures line[k] == ' ' || line[k] == '\t' {
      assert line[k] == tail[k - stop] && tail[k - stop] in tail;
    }
  }

  lemma BoldIsRead(line: string, pad: string, mark: string, inner: string, colon: string, tail: string)
    requires BoldLine(line, pad, mark, inner, colon, tail)
    ensures IsBold(line)
  {
    hide *;
    BoldPlaces(line, pad, mark, inner, colon, tail);
    MarkIs(line, pad, mark, inner, colon, tail);
    var i, j := |pad|, |pad| + 4 + |inner|;
    PadReaches(line, 0, i);
    TailReaches(line, j + |colon|, |line|);
    BoldByPlaces(line, mark, i, j, j + |colon|);
  }

  lemma MarkIs(line: string, pad: string, mark: string, inner: string, colon: string, tail: string)
    requires BoldLine(line, pad, mark, inner, colon, tail)
    ensures (mark == "**" || mark == "__") && (colon == "" || colon == ":")
    ensures |mark| == 2 && |colon| <= 1 && mark[0] == mark[1] && (mark[0] == '*' || mark[0] == '_')
  {
  }

  lemma BoldByPlaces(line: string, mark: string, i: nat, j: nat, stop: nat)
    requires i + 5 <= j <= stop <= |line| && line[i..i + 2] == line[j - 2..j] == mark && (mark == "**" || mark == "__")
    requires line[j - 1] != ':' && (stop == j || (stop == j + 1 && line[j] == ':'))
    requires SkipPad(line, 0) == i && DropPad(line, |line|) == stop
    ensures IsBold(line)
  {
    hide SkipPad, DropPad;
  }

  lemma BoldIsWritten(line: string)
    returns (pad: string, mark: string, inner: string, colon: string, tail: string)
    requires IsBold(line)
    ensures BoldLine(line, pad, mark, inner, colon, tail)
  {
    var i, stop := SkipPad(line, 0), DropPad(line, |line|);
    PadIsPad(line, 0);
    TailIsPad(line, |line|);
    hide SkipPad, DropPad, BoldLine;
    var j := if stop > 0 && line[stop - 1] == ':' then stop - 1 else stop;
    BoldFromPlaces(line, i, j, stop);
    pad, mark, inner, colon, tail := line[..i], line[i..i + 2], line[i + 2..j - 2], line[j..stop], line[stop..];
  }

  lemma BoldFromPlaces(line: string, i: nat, j: nat, stop: nat)
    requires i + 5 <= j <= stop <= |line| && line[i..i + 2] == line[j - 2..j]
    requires line[i..i + 2] == "**" || line[i..i + 2] == "__"
    requires j == stop || (j + 1 == stop && line[j] == ':')
    requires forall k | 0 <= k < i || stop <= k < |line| :: line[k] == ' ' || line[k] == '\t'
    ensures BoldLine(line, line[..i], line[i..i + 2], line[i + 2..j - 2], line[j..stop], line[stop..])
  {
    assert Pad(line[..i]) && Pad(line[stop..]) by {
      assert forall c | c in line[..i] :: exists k | 0 <= k < i :: line[k] == c;
      assert forall c | c in line[stop..] :: exists k | stop <= k < |line| :: line[k] == c;
    }
    assert line[j..stop] == "" || line[j..stop] == ":";
    hide Pad;
    assert line == line[..i] + line[i..i + 2] + line[i + 2..j - 2] + line[j - 2..j] + line[j..stop] + line[stop..];
  }

  /** A title is marked with number signs or is bold as a whole. */
  ghost predicate TitleLine(line: string)
  {
    || (exists indent: nat, n: nat :: AtxLine(line, indent, n))
    || (exists pad, mark, inner, colon, tail :: BoldLine(line, pad, mark, inner, colon, tail))
  }

  lemma TitleIsRead(line: string)
    ensures IsTitle(line) <==> TitleLine(line)
  {
    hide AtxLevel, IsBold, AtxLine, BoldLine;
    if AtxLevel(line).Some? {
      AtxIsRead(line, AtxLevel(line).value);
    } else if IsBold(line) {
      var pad, mark, inner, colon, tail := BoldIsWritten(line);
    }
    forall indent: nat, n: nat | AtxLine(line, indent, n) ensures AtxLevel(line).Some? {
      AtxIsRead(line, n);
    }
    forall pad, mark, inner, colon, tail | BoldLine(line, pad, mark, inner, colon, tail) ensures IsBold(line) {
      BoldIsRead(line, pad, mark, inner, colon, tail);
    }
  }

  /* ---- lists and quotations ---- */

  /** Blanks, then a bullet or a number with a dot or a bracket, then white space. */
  ghost predicate ItemLine(line: string, indent: nat, last: nat)
  {
    && Run(line, 0, ' ', indent) && indent <= last && last + 1 < |line| && IsSpace(line[last + 1])
    && ( || (last == indent && (line[last] == '-' || line[last] == '*' || line[last] == '+'))
         || (last > indent && (forall k | indent <= k < last :: '0' <= line[k] <= '9') && (line[last] == '.' || line[last] == ')')))
  }

  lemma ItemIsRead(line: string, indent: nat)
    ensures ListMarker(line) == Some(indent) <==> exists last: nat :: ItemLine(line, indent, last)
  {
    var i := RunOf(line, 0, ' ');
    RunIsMaximal(line, 0, ' ');
    DigitsAreDigits(line, i);
    if ListMarker(line) == Some(indent) {
      assert ItemLine(line, i, if line[i] in "-*+" then i else i + DigitsOf(line, i));
    }
    forall last: nat | ItemLine(line, indent, last) ensures ListMarker(line) == Some(indent) {
      OneRun(line, 0, ' ', indent);
      if last > indent {
        DigitsReach(line, indent, last);
      }
    }
  }

  lemma BlockIsRead(line: string)
    ensures OpensBlock(line) <==>
              FenceAt(line).Some? || exists indent: nat :: Run(line, 0, ' ', indent) && indent <= 3 && indent < |line| && line[indent] == '>'
  {
    hide FenceAt;
    RunIsMaximal(line, 0, ' ');
    forall indent: nat | Run(line, 0, ' ', indent) ensures RunOf(line, 0, ' ') == indent {
      OneRun(line, 0, ' ', indent);
    }
  }

  /* ---- paragraph gaps ---- */

  /** A line feed, blanks, and more line feeds, as many as there are. */
  ghost predicate IsGap(text: string, g: Span, middle: nat)
  {
    && g.start < middle < g.end <= |text| && text[g.start] == '\n' && Run(text, middle, '\n', g.end - middle)
    && forall k | g.start < k < middle :: text[k] == ' ' || text[k] == '\t'
  }

  /** The gaps from a place on, one after another. */
  ghost predicate AllGaps(text: string, gaps: seq<Span>, from: nat)
  {
    && (forall g | g in gaps :: from <= g.start && exists middle :: IsGap(text, g, middle))
    && forall a, b | 0 <= a < b < |gaps| :: gaps[a].end <= gaps[b].start
  }

  /** What is found are gaps, in order and disjoint. */
  lemma {:induction false} GapsAreGaps(text: string, i: nat)
    requires i <= |text|
    ensures AllGaps(text, Gaps(text, i), i)
    decreases |text| - i
  {
    hide AllGaps, SkipPad, RunOf, IsGap;
    if i == |text| {
      NoGaps(text, i);
    } else if text[i] != '\n' {
      GapsAreGaps(text, i + 1);
      LaterGaps(text, Gaps(text, i + 1), i);
    } else {
      var next := SkipPad(text, i + 1);
      var n := RunOf(text, next, '\n');
      if n == 0 {
        GapsAreGaps(text, i + 1);
        LaterGaps(text, Gaps(text, i + 1), i);
      } else {
        GapHere(text, i);
        GapsAreGaps(text, next + n);
        FirstGap(text, Span(i, next + n), next, Gaps(text, next + n));
      }
    }
  }

  lemma NoGaps(text: string, from: nat)
    ensures AllGaps(text, [], from)
  {
  }

  lemma LaterGaps(text: string, gaps: seq<Span>, from: nat)
    requires AllGaps(text, gaps, from + 1)
    ensures AllGaps(text, gaps, from)
  {
    hide IsGap;
  }

  lemma GapHere(text: string, i: nat)
    requires i < |text| && text[i] == '\n' && RunOf(text, SkipPad(text, i + 1), '\n') > 0
    ensures var next := SkipPad(text, i + 1);
            IsGap(text, Span(i, next + RunOf(text, next, '\n')), next)
  {
    hide *;
    var next := SkipPad(text, i + 1);
    PadIsPad(text, i + 1);
    RunIsMaximal(text, next, '\n');
    RunFits(text, next, '\n', RunOf(text, next, '\n'));
    GapFromPlaces(text, Span(i, next + RunOf(text, next, '\n')), next);
  }

  lemma RunFits(line: string, i: nat, c: char, n: nat)
    requires Run(line, i, c, n)
    ensures i + n <= |line|
  {
  }

  lemma GapFromPlaces(text: string, g: Span, middle: nat)
    requires g.start < middle < g.end <= |text| && text[g.start] == '\n' && Run(text, middle, '\n', g.end - middle)
    requires forall k | g.start + 1 <= k < middle :: text[k] == ' ' || text[k] == '\t'
    ensures IsGap(text, g, middle)
  {
    hide Run;
  }

  lemma FirstGap(text: string, g: Span, middle: nat, rest: seq<Span>)
    requires IsGap(text, g, middle) && AllGaps(text, rest, g.end)
    ensures AllGaps(text, [g] + rest, g.start)
  {
    assert g.start < g.end;
    hide IsGap;
    assert forall b | 0 <= b < |rest| :: rest[b] in rest;
  }

  /** Wherever paragraphs are divided, a gap is found that holds the place. */
  lemma {:induction false} NoGapIsMissed(text: string, i: nat, g: Span, middle: nat)
    requires i <= g.start && IsGap(text, g, middle)
    ensures exists x | x in Gaps(text, i) :: x.start <= g.start < x.end
    decreases |text| - i
  {
    hide SkipPad, RunOf, IsGap;
    GapInside(text, g, middle);
    if i == g.start {
      FoundHere(text, g, middle);
    }
    var next := SkipPad(text, i + 1);
    var n := RunOf(text, next, '\n');
    if text[i] != '\n' || n == 0 {
      NoGapIsMissed(text, i + 1, g, middle);
    } else if g.start < next + n {
      assert Span(i, next + n) in Gaps(text, i);
    } else {
      NoGapIsMissed(text, next + n, g, middle);
    }
  }

  lemma GapInside(text: string, g: Span, middle: nat)
    requires IsGap(text, g, middle)
    ensures g.start < |text|
  {
  }

  lemma FoundHere(text: string, g: Span, middle: nat)
    requires IsGap(text, g, middle)
    ensures g.start < |text| && text[g.start] == '\n' && RunOf(text, SkipPad(text, g.start + 1), '\n') > 0
  {
    assert text[middle] == '\n';
    PadReaches(text, g.start + 1, middle);
    OneRun(text, middle, '\n', g.end - middle);
  }
}
