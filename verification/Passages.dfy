/**
 Splitting evidence text into verbatim passages, as evidence_anchors.py does.
 */
module Passages {
  import opened Basics
  import opened MathSpans
  import opened PassageCuts

  function Join(pieces: seq<string>): string
  {
    if pieces == [] then "" else pieces[0] + Join(pieces[1..])
  }

  lemma {:induction false} JoinParts(a: seq<string>, b: seq<string>)
    ensures Join(a + b) == Join(a) + Join(b)
  {
    if a == [] {
      assert a + b == b;
    } else {
      assert (a + b)[1..] == a[1..] + b;
      JoinParts(a[1..], b);
    }
  }

  /* ---- paragraphs ---- */

  /** Just past a line end at `i`, with or without a carriage return; or `i` if there is none. */
  function AfterNewline(text: string, i: nat): (r: nat)
    requires i <= |text|
    ensures i <= r <= |text|
    ensures r > i ==> text[r - 1] == '\n'
  {
    if i < |text| && text[i] == '\n' then i + 1
    else if i + 1 < |text| && text[i] == '\r' && text[i + 1] == '\n' then i + 2
    else i
  }

  function AfterNewlines(text: string, i: nat): (r: nat)
    requires i <= |text|
    ensures i <= r <= |text|
    ensures r > i ==> text[r - 1] == '\n'
    decreases |text| - i
  {
    var next := AfterNewline(text, i);
    if next == i then i else AfterNewlines(text, next)
  }

  /** The end of a paragraph break that starts at `i`: a line end and at least one blank line. */
  function BreakEnd(text: string, i: nat): (r: Option<nat>)
    requires i <= |text|
    ensures r.Some? ==> i < r.value <= |text| && text[r.value - 1] == '\n'
  {
    var first := AfterNewline(text, i);
    if first == i then None else
    var gap := AfterGap(text, first);
    var end := AfterNewlines(text, gap);
    if end == gap then None else Some(end)
  }

  /** The safe ends of the paragraph breaks, in order. */
  function Boundaries(text: string, spans: seq<Span>, from: nat): (ends: seq<nat>)
    requires from <= |text|
    ensures forall i | 0 <= i < |ends| :: from < ends[i] <= |text| && text[ends[i] - 1] == '\n' && SafeBreak(ends[i], spans)
    ensures forall i, j | 0 <= i < j < |ends| :: ends[i] < ends[j]
    decreases |text| - from
  {
    if from == |text| then [] else
    var end := BreakEnd(text, from);
    if end.None? then Boundaries(text, spans, from + 1)
    else (if SafeBreak(end.value, spans) then [end.value] else []) + Boundaries(text, spans, end.value)
  }

  /** The units of the paragraphs that end at the given places. */
  function Blocks(text: string, start: nat, ends: seq<nat>): seq<string>
    requires start <= |text| && forall i | 0 <= i < |ends| :: start <= ends[i] <= |text|
    requires forall i, j | 0 <= i < j < |ends| :: ends[i] <= ends[j]
    decreases |ends|
  {
    if ends == [] then []
    else (if ends[0] > start then Units(text[start..ends[0]]) else []) + Blocks(text, ends[0], ends[1..])
  }

  /** Adjacent short units are packed together while they fit the target. */
  function Pack(blocks: seq<string>, pending: string): seq<string>
  {
    if blocks == [] then (if pending == "" then [] else [pending])
    else if pending != "" && |pending| + |blocks[0]| > TARGET then [pending] + Pack(blocks[1..], blocks[0])
    else Pack(blocks[1..], pending + blocks[0])
  }

  function Ends(text: string): (ends: seq<nat>)
    ensures forall i | 0 <= i < |ends| :: 0 <= ends[i] <= |text|
    ensures forall i, j | 0 <= i < j < |ends| :: ends[i] <= ends[j]
  {
    Boundaries(text, Spans(text), 0) + [|text|]
  }

  /** The passages of a text without table rows. */
  function PlainPassages(text: string): seq<string>
  {
    if Blank(text) then [] else Pack(Blocks(text, 0, Ends(text)), "")
  }

  method CutBlocks(text: string, ends: seq<nat>) returns (blocks: seq<string>)
    requires forall i | 0 <= i < |ends| :: ends[i] <= |text|
    requires forall i, j | 0 <= i < j < |ends| :: ends[i] <= ends[j]
    ensures blocks == Blocks(text, 0, ends)
  {
    hide *;
    blocks := [];
    var start: nat := 0;
    assert ends[0..] == ends;
    for k := 0 to |ends|
      invariant start <= |text| && forall i | k <= i < |ends| :: start <= ends[i]
      invariant Blocks(text, 0, ends) == blocks + Blocks(text, start, ends[k..])
    {
      var end := ends[k];
      assert ends[k..] == [end] + ends[k + 1..];
      BlocksStep(text, start, end, ends[k + 1..]);
      if end > start {
        var units := LargeParagraphUnits(text[start..end]);
        blocks := blocks + units;
      }
      start := end;
    }
    assert ends[|ends|..] == [];
    NoBlocks(text, start);
  }

  lemma BlocksStep(text: string, start: nat, end: nat, rest: seq<nat>)
    requires start <= end <= |text| && forall i | 0 <= i < |rest| :: end <= rest[i] <= |text|
    requires forall i, j | 0 <= i < j < |rest| :: rest[i] <= rest[j]
    ensures Blocks(text, start, [end] + rest)
         == (if end > start then Units(text[start..end]) else []) + Blocks(text, end, rest)
  {
    hide Units;
    assert ([end] + rest)[1..] == rest;
  }

  lemma NoBlocks(text: string, start: nat)
    requires start <= |text|
    ensures Blocks(text, start, []) == []
  {
  }

  method PackBlocks(blocks: seq<string>) returns (packed: seq<string>)
    ensures packed == Pack(blocks, "")
  {
    packed := [];
    var pending := "";
    for k := 0 to |blocks|
      invariant Pack(blocks, "") == packed + Pack(blocks[k..], pending)
    {
      var block := blocks[k];
      assert blocks[k..][0] == block && blocks[k..][1..] == blocks[k + 1..];
      if pending != "" && |pending| + |block| > TARGET {
        packed := packed + [pending];
        pending := "";
      }
      assert pending == "" ==> pending + block == block;
      pending := pending + block;
    }
    assert blocks[|blocks|..] == [];
    if pending != "" {
      packed := packed + [pending];
    }
  }

  method SplitPlain(text: string) returns (packed: seq<string>)
    ensures packed == PlainPassages(text)
  {
    hide Spans, Boundaries, Blocks, Pack;
    if Blank(text) {
      return [];
    }
    var spans := FindMathSpans(text);
    var ends := Boundaries(text, spans, 0) + [|text|];
    assert ends == Ends(text);
    var blocks := CutBlocks(text, ends);
    packed := PackBlocks(blocks);
  }

  /* ---- passages are the text ---- */

  lemma {:induction false} WellCutJoins(text: string, start: nat, units: seq<string>)
    requires start <= |text| && WellCut(text, start, units)
    ensures Join(units) == text[start..]
    decreases |units|
  {
    hide RightCut, NoCut;
    if |units| == 1 {
      assert units[1..] == [];
    } else {
      WellCutJoins(text, start + |units[0]|, units[1..]);
    }
  }

  lemma UnitsJoin(text: string)
    ensures Join(Units(text)) == text
  {
    hide WellCut, Units;
    UnitsAreWellCut(text);
    WellCutJoins(text, 0, Units(text));
  }

  lemma {:induction false} BlocksJoin(text: string, start: nat, ends: seq<nat>)
    requires start <= |text| && forall i | 0 <= i < |ends| :: start <= ends[i] <= |text|
    requires forall i, j | 0 <= i < j < |ends| :: ends[i] <= ends[j]
    requires if ends == [] then start == |text| else ends[|ends| - 1] == |text|
    ensures Join(Blocks(text, start, ends)) == text[start..]
    decreases |ends|
  {
    hide Units;
    if ends != [] {
      BlocksJoin(text, ends[0], ends[1..]);
      if ends[0] > start {
        UnitsJoin(text[start..ends[0]]);
        JoinParts(Units(text[start..ends[0]]), Blocks(text, ends[0], ends[1..]));
        assert text[start..] == text[start..ends[0]] + text[ends[0]..];
      } else {
        assert Blocks(text, start, ends) == Blocks(text, ends[0], ends[1..]);
      }
    }
  }

  lemma {:induction false} PackJoins(blocks: seq<string>, pending: string)
    ensures Join(Pack(blocks, pending)) == pending + Join(blocks)
  {
    if blocks == [] {
      assert [pending][1..] == [];
    } else if pending != "" && |pending| + |blocks[0]| > TARGET {
      PackJoins(blocks[1..], blocks[0]);
    } else {
      PackJoins(blocks[1..], pending + blocks[0]);
    }
  }

  /** Passages put back together are the source text, unless the source text is blank. */
  lemma PlainPassagesJoin(text: string)
    ensures Join(PlainPassages(text)) == if Blank(text) then "" else text
  {
    hide Boundaries, Blocks, Pack;
    if !Blank(text) {
      BlocksJoin(text, 0, Ends(text));
      PackJoins(Blocks(text, 0, Ends(text)), "");
    }
  }

  /* ---- no passage starts inside a formula ---- */

  /** Consecutive pieces from `at` onwards, each starting at a safe place. */
  ghost predicate SafeStarts(text: string, at: nat, pieces: seq<string>)
    decreases |pieces|
  {
    pieces != [] ==> Safe(text, at) && SafeStarts(text, at + |pieces[0]|, pieces[1..])
  }

  lemma {:induction false} SafeStartsParts(text: string, at: nat, a: seq<string>, b: seq<string>)
    requires SafeStarts(text, at, a) && SafeStarts(text, at + |Join(a)|, b)
    ensures SafeStarts(text, at, a + b)
    decreases |a|
  {
    hide *;
    if a == [] {
      JoinNothing();
      assert a + b == b;
    } else {
      var first, rest := a[0], a[1..];
      assert a == [first] + rest;
      SafeStartsHead(text, at, first, rest);
      JoinHead(first, rest);
      SafeStartsParts(text, at + |first|, rest, b);
      SafeStartsHead(text, at, first, rest + b);
      assert a + b == [first] + (rest + b);
    }
  }

  lemma JoinNothing()
    ensures Join([]) == ""
  {
  }

  lemma JoinHead(first: string, rest: seq<string>)
    ensures Join([first] + rest) == first + Join(rest)
  {
    assert ([first] + rest)[1..] == rest;
  }

  lemma SafeStartsHead(text: string, at: nat, first: string, rest: seq<string>)
    ensures SafeStarts(text, at, [first] + rest) <==> Safe(text, at) && SafeStarts(text, at + |first|, rest)
  {
    hide Safe;
    assert ([first] + rest)[1..] == rest;
  }

  lemma RightCutIsSafe(text: string, start: nat, cut: nat)
    requires RightCut(text, start, cut)
    ensures Safe(text, cut)
  {
    hide Safe;
  }

  /** The units of a block, which is scanned by itself, start at safe places of the whole text. */
  lemma {:induction false} UnitsStartSafely(text: string, s: nat, e: nat, start: nat, units: seq<string>)
    requires Lines(text, s, e) && Safe(text, s) && Safe(text, e)
    requires start <= e - s && WellCut(text[s..e], start, units) && Safe(text, s + start)
    ensures SafeStarts(text, s + start, units)
    decreases |units|
  {
    hide RightCut, NoCut, Safe;
    if |units| == 1 {
      assert units[1..] == [];
    } else {
      var cut := start + |units[0]|;
      RightCutIsSafe(text[s..e], start, cut);
      SafeLocally(text, s, e, s + cut);
      UnitsStartSafely(text, s, e, cut, units[1..]);
    }
  }

  ghost predicate LineEnds(text: string, ends: seq<nat>)
  {
    forall i | 0 <= i < |ends| :: 0 < ends[i] <= |text| && Safe(text, ends[i]) && (ends[i] == |text| || text[ends[i] - 1] == '\n')
  }

  lemma {:induction false} BlocksStartSafely(text: string, start: nat, ends: seq<nat>)
    requires start <= |text| && (start == 0 || start == |text| || text[start - 1] == '\n') && Safe(text, start)
    requires forall i | 0 <= i < |ends| :: start <= ends[i] <= |text|
    requires forall i, j | 0 <= i < j < |ends| :: ends[i] <= ends[j]
    requires LineEnds(text, ends)
    ensures SafeStarts(text, start, Blocks(text, start, ends))
    decreases |ends|
  {
    hide Units, Safe, WellCut;
    if ends != [] {
      var end, rest := ends[0], Blocks(text, ends[0], ends[1..]);
      BlocksStartSafely(text, end, ends[1..]);
      if end > start {
        UnitsAreWellCut(text[start..end]);
        UnitsStartSafely(text, start, end, 0, Units(text[start..end]));
        UnitsJoin(text[start..end]);
        SafeStartsParts(text, start, Units(text[start..end]), rest);
      } else {
        assert Blocks(text, start, ends) == rest;
      }
    }
  }

  lemma {:induction false} PackStartsSafely(text: string, at: nat, blocks: seq<string>, pending: string)
    requires Safe(text, at) && SafeStarts(text, at + |pending|, blocks)
    ensures SafeStarts(text, at, Pack(blocks, pending))
    decreases |blocks|
  {
    hide Safe;
    if blocks == [] {
      assert [pending][1..] == [];
    } else if pending != "" && |pending| + |blocks[0]| > TARGET {
      PackStartsSafely(text, at + |pending|, blocks[1..], blocks[0]);
    } else {
      PackStartsSafely(text, at, blocks[1..], pending + blocks[0]);
    }
  }

  lemma EndIsSafe(text: string)
    ensures Safe(text, 0) && Safe(text, |text|)
  {
    hide Scan;
    ScanIsOrdered(text, 0, 0, |text|);
  }

  lemma EndsAreSafe(text: string)
    requires text != ""
    ensures LineEnds(text, Ends(text))
  {
    hide Boundaries, Spans, Safe;
    EndIsSafe(text);
    var ends := Ends(text);
    forall i | 0 <= i < |ends| ensures Safe(text, ends[i]) {
      if i < |ends| - 1 {
        SafeBreakDecides(text, ends[i]);
      }
    }
  }

  lemma PassagesStartSafely(text: string)
    ensures SafeStarts(text, 0, PlainPassages(text))
  {
    hide Boundaries, Blocks, Pack, Safe;
    if !Blank(text) {
      EndIsSafe(text);
      EndsAreSafe(text);
      BlocksStartSafely(text, 0, Ends(text));
      PackStartsSafely(text, 0, Blocks(text, 0, Ends(text)), "");
    }
  }

  lemma {:induction false} SafeStartAt(text: string, at: nat, pieces: seq<string>, i: nat)
    requires SafeStarts(text, at, pieces) && i < |pieces|
    ensures Safe(text, at + |Join(pieces[..i])|)
    decreases i
  {
    hide Safe;
    if i > 0 {
      SafeStartAt(text, at + |pieces[0]|, pieces[1..], i - 1);
      assert pieces[..i] == [pieces[0]] + pieces[1..][..i - 1];
      assert pieces[..i][1..] == pieces[1..][..i - 1];
    }
  }

  /** No boundary between consecutive passages lies strictly inside a formula of the whole text. */
  lemma NoPassageSplitsAFormula(text: string, i: nat)
    requires i < |PlainPassages(text)|
    ensures !Inside(Spans(text), |Join(PlainPassages(text)[..i])|)
  {
    hide PlainPassages;
    PassagesStartSafely(text);
    SafeStartAt(text, 0, PlainPassages(text), i);
  }

  /* ---- passages are neither longer nor shorter than they have to be ---- */

  /** How passages are made of consecutive units: nothing is repeated, left out or reordered. */
  ghost predicate Packed(passages: seq<string>, units: seq<string>, counts: seq<nat>)
    decreases |passages|
  {
    && |counts| == |passages|
    && if passages == [] then Join(units) == ""
       else
         && 0 < counts[0] <= |units| && passages[0] != ""
         && passages[0] == Join(units[..counts[0]])
         && (passages[0] in units || |passages[0]| <= TARGET)
         && (|passages| > 1 ==> counts[0] < |units| && |passages[0]| + |units[counts[0]]| > TARGET)
         && Packed(passages[1..], units[counts[0]..], counts[1..])
  }

  ghost function Counts(blocks: seq<string>, pending: string, held: nat): seq<nat>
  {
    if blocks == [] then (if pending == "" then [] else [held])
    else if pending != "" && |pending| + |blocks[0]| > TARGET then [held] + Counts(blocks[1..], blocks[0], 1)
    else Counts(blocks[1..], pending + blocks[0], held + 1)
  }

  lemma {:induction false} PackIsPacked(units: seq<string>, held: nat, pending: string)
    requires held <= |units| && pending == Join(units[..held])
    requires pending == "" || pending in units[..held] || |pending| <= TARGET
    ensures Packed(Pack(units[held..], pending), units, Counts(units[held..], pending, held))
    decreases |units|, |units| - held
  {
    var blocks := units[held..];
    if blocks == [] {
      assert units[..held] == units;
      assert units[held..] == [];
    } else {
      var block := blocks[0];
      assert blocks[1..] == units[held + 1..];
      if pending != "" && |pending| + |block| > TARGET {
        assert held > 0;
        var rest := units[held..];
        assert rest[..1] == [block] && Join([block]) == block by { assert [block][1..] == []; }
        PackIsPacked(rest, 1, block);
        assert rest[1..] == blocks[1..];
        FlushIsPacked(units, held, pending);
      } else {
        assert units[..held + 1] == units[..held] + [block];
        JoinParts(units[..held], [block]);
        assert [block][1..] == [];
        assert Join([block]) == block;
        assert pending == "" ==> pending + block == block;
        PackIsPacked(units, held + 1, pending + block);
      }
    }
  }

  lemma FlushIsPacked(units: seq<string>, held: nat, pending: string)
    requires 0 < held < |units| && pending == Join(units[..held]) && pending != ""
    requires pending in units[..held] || |pending| <= TARGET
    requires |pending| + |units[held]| > TARGET
    requires Packed(Pack(units[held + 1..], units[held]), units[held..], Counts(units[held + 1..], units[held], 1))
    ensures Packed(Pack(units[held..], pending), units, Counts(units[held..], pending, held))
  {
    var passages, counts := Pack(units[held..], pending), Counts(units[held..], pending, held);
    assert units[held..][1..] == units[held + 1..];
    assert passages == [pending] + Pack(units[held + 1..], units[held]);
    assert counts == [held] + Counts(units[held + 1..], units[held], 1);
    assert passages[1..] == Pack(units[held + 1..], units[held]);
    assert counts[1..] == Counts(units[held + 1..], units[held], 1);
  }

  /**
   Every passage is one unit or at most the target length, holds whole consecutive units, and could
   not have taken the next unit as well.
   */
  lemma PassagesArePacked(text: string)
    requires !Blank(text)
    ensures exists counts :: Packed(PlainPassages(text), Blocks(text, 0, Ends(text)), counts)
  {
    hide Blocks, Ends;
    var units := Blocks(text, 0, Ends(text));
    assert units[0..] == units && units[..0] == [];
    PackIsPacked(units, 0, "");
    assert PlainPassages(text) == Pack(units, "");
    assert Packed(PlainPassages(text), units, Counts(units, "", 0));
  }
}
