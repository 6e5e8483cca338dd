/**
 Passages of texts that hold serialized table rows: every row stays whole, and the text between
 rows is split as plain text.
 */
module TablePassages {
  import opened Basics
  import opened MathSpans
  import opened PassageCuts
  import opened Passages

  const MARKER := "[TABLE_ROW_V1]"

  /** The length of the first line, with its line feed. */
  function LineLength(text: string): (n: nat)
    requires text != ""
    ensures 0 < n <= |text|
  {
    if text[0] == '\n' || |text| == 1 then 1 else 1 + LineLength(text[1..])
  }

  function LinesOf(text: string): seq<string>
  {
    if text == "" then [] else
    var n := LineLength(text);
    [text[..n]] + LinesOf(text[n..])
  }

  function SkipSpace(line: string): string
  {
    if line != "" && IsSpace(line[0]) then SkipSpace(line[1..]) else line
  }

  predicate IsRow(line: string)
  {
    MARKER <= SkipSpace(line)
  }

  datatype Run = Run(row: bool, text: string)

  /** Rows one by one, and the text between them gathered. */
  function Runs(lines: seq<string>, pending: string): seq<Run>
  {
    var held := if pending == "" then [] else [Run(false, pending)];
    if lines == [] then held
    else if IsRow(lines[0]) then held + [Run(true, lines[0])] + Runs(lines[1..], "")
    else Runs(lines[1..], pending + lines[0])
  }

  function AppendLast(result: seq<string>, tail: string): (r: seq<string>)
    requires result != []
    ensures |r| == |result|
  {
    result[|result| - 1 := result[|result| - 1] + tail]
  }

  function UnitsOf(run: Run): seq<string>
  {
    if run.row then [run.text] else PlainPassages(run.text)
  }

  function WithPrefix(prefix: string, units: seq<string>): seq<string>
  {
    if prefix == "" || units == [] then units else units[0 := prefix + units[0]]
  }

  /** Blank runs join the passage before them, or the first one after them. */
  function Assemble(runs: seq<Run>, result: seq<string>, prefix: string): seq<string>
  {
    if runs == [] then
      if prefix == "" then result else if result != [] then AppendLast(result, prefix) else [prefix]
    else if Blank(runs[0].text) then
      if result != [] then Assemble(runs[1..], AppendLast(result, runs[0].text), prefix)
      else Assemble(runs[1..], result, prefix + runs[0].text)
    else
      var units := UnitsOf(runs[0]);
      Assemble(runs[1..], result + WithPrefix(prefix, units), if units == [] then prefix else "")
  }

  /** `None` is the error raised for a row that does not parse. */
  function PassagesOf(text: string, parses: string -> bool): Option<seq<string>>
  {
    var lines := LinesOf(text);
    if !exists line | line in lines :: IsRow(line) then Some(PlainPassages(text))
    else if exists line | line in lines :: IsRow(line) && !parses(line) then None
    else Some(Assemble(Runs(lines, ""), [], ""))
  }

  method GatherRuns(lines: seq<string>, parses: string -> bool) returns (runs: Option<seq<Run>>, found: bool)
    ensures found ==> exists line | line in lines :: IsRow(line)
    ensures runs.None? <==> exists line | line in lines :: IsRow(line) && !parses(line)
    ensures runs.Some? ==> runs.value == Runs(lines, "") && (found <==> exists line | line in lines :: IsRow(line))
  {
    hide IsRow;
    var gathered: seq<Run> := [];
    var pending := "";
    found := false;
    for k := 0 to |lines|
      invariant Runs(lines, "") == gathered + Runs(lines[k..], pending)
      invariant found <==> exists line | line in lines[..k] :: IsRow(line)
      invariant forall line | line in lines[..k] :: IsRow(line) ==> parses(line)
    {
      var line := lines[k];
      assert lines[k..][0] == line && lines[k..][1..] == lines[k + 1..];
      assert lines[..k + 1] == lines[..k] + [line];
      if IsRow(line) {
        if !parses(line) {
          return None, true;
        }
        if pending != "" {
          gathered := gathered + [Run(false, pending)];
          pending := "";
        }
        gathered := gathered + [Run(true, line)];
        found := true;
      } else {
        pending := pending + line;
      }
    }
    assert lines[|lines|..] == [] && lines[..|lines|] == lines;
    if pending != "" {
      gathered := gathered + [Run(false, pending)];
    }
    return Some(gathered), found;
  }

  method AssembleRuns(runs: seq<Run>) returns (result: seq<string>)
    ensures result == Assemble(runs, [], "")
  {
    result := [];
    var prefix := "";
    for k := 0 to |runs|
      invariant Assemble(runs, [], "") == Assemble(runs[k..], result, prefix)
    {
      var run := runs[k];
      assert runs[k..][0] == run && runs[k..][1..] == runs[k + 1..];
      if Blank(run.text) {
        if result != [] {
          result := AppendLast(result, run.text);
        } else {
          prefix := prefix + run.text;
        }
        continue;
      }
      var units;
      if run.row {
        units := [run.text];
      } else {
        units := SplitPlain(run.text);
      }
      result := result + WithPrefix(prefix, units);
      if units != [] {
        prefix := "";
      }
    }
    assert runs[|runs|..] == [];
    if prefix != "" {
      result := if result != [] then AppendLast(result, prefix) else [prefix];
    }
  }

  method SplitPassages(text: string, parses: string -> bool) returns (r: Option<seq<string>>)
    ensures r == PassagesOf(text, parses)
  {
    hide IsRow, Runs, Assemble, PlainPassages, LinesOf;
    var lines := LinesOf(text);
    var runs, found := GatherRuns(lines, parses);
    if runs.None? {
      return None;
    }
    if !found {
      var plain := SplitPlain(text);
      return Some(plain);
    }
    var result := AssembleRuns(runs.value);
    return Some(result);
  }

  /* ---- passages are the text ---- */

  ghost function TextOf(runs: seq<Run>): string
  {
    if runs == [] then "" else runs[0].text + TextOf(runs[1..])
  }

  lemma {:induction false} LinesJoin(text: string)
    ensures Join(LinesOf(text)) == text
  {
    if text != "" {
      var n := LineLength(text);
      LinesJoin(text[n..]);
      assert text == text[..n] + text[n..];
    }
  }

  lemma {:induction false} TextOfParts(a: seq<Run>, b: seq<Run>)
    ensures TextOf(a + b) == TextOf(a) + TextOf(b)
  {
    if a == [] {
      assert a + b == b;
    } else {
      assert (a + b)[1..] == a[1..] + b;
      TextOfParts(a[1..], b);
    }
  }

  lemma TextOfHeld(row: bool, text: string)
    ensures TextOf([Run(row, text)]) == text
  {
    assert [Run(row, text)][1..] == [];
  }

  lemma {:induction false} RunsJoin(lines: seq<string>, pending: string)
    ensures TextOf(Runs(lines, pending)) == pending + Join(lines)
  {
    hide IsRow, TextOf;
    var held := if pending == "" then [] else [Run(false, pending)];
    assert TextOf(held) == pending by {
      TextOfHeld(false, pending);
      TextOfNone();
    }
    if lines != [] {
      if IsRow(lines[0]) {
        RunsJoin(lines[1..], "");
        TextOfHeld(true, lines[0]);
        TextOfParts(held, [Run(true, lines[0])]);
        TextOfParts(held + [Run(true, lines[0])], Runs(lines[1..], ""));
      } else {
        RunsJoin(lines[1..], pending + lines[0]);
      }
    }
  }

  lemma TextOfNone()
    ensures TextOf([]) == ""
  {
  }

  lemma AppendLastJoins(result: seq<string>, tail: string)
    requires result != []
    ensures Join(AppendLast(result, tail)) == Join(result) + tail
  {
    var k := |result| - 1;
    var front, last := result[..k], result[k];
    assert result == front + [last] && AppendLast(result, tail) == front + [last + tail];
    JoinParts(front, [last]);
    JoinParts(front, [last + tail]);
    assert [last][1..] == [] && [last + tail][1..] == [];
  }

  lemma PrefixJoins(prefix: string, units: seq<string>)
    requires units != []
    ensures Join(WithPrefix(prefix, units)) == prefix + Join(units)
  {
    if prefix != "" {
      assert WithPrefix(prefix, units)[1..] == units[1..];
    }
  }

  lemma NonBlankUnits(run: Run)
    requires !Blank(run.text)
    ensures UnitsOf(run) != [] && Join(UnitsOf(run)) == run.text
  {
    hide PlainPassages;
    if run.row {
      assert [run.text][1..] == [];
    } else {
      PlainPassagesJoin(run.text);
    }
  }

  lemma {:induction false} AssembleJoins(runs: seq<Run>, result: seq<string>, prefix: string)
    requires result == [] || prefix == ""
    ensures Join(Assemble(runs, result, prefix)) == Join(result) + prefix + TextOf(runs)
    decreases |runs|
  {
    hide Blank, UnitsOf, WithPrefix, AppendLast, Join;
    JoinFew(prefix);
    if runs == [] {
    } else if Blank(runs[0].text) {
      if result != [] {
        AssembleJoins(runs[1..], AppendLast(result, runs[0].text), prefix);
        AppendLastJoins(result, runs[0].text);
      } else {
        AssembleJoins(runs[1..], result, prefix + runs[0].text);
      }
    } else {
      var units := UnitsOf(runs[0]);
      NonBlankUnits(runs[0]);
      AssembleJoins(runs[1..], result + WithPrefix(prefix, units), "");
      JoinParts(result, WithPrefix(prefix, units));
      PrefixJoins(prefix, units);
      assert Join(result) + (prefix + Join(units)) == Join(result) + prefix + runs[0].text;
    }
  }

  lemma JoinFew(piece: string)
    ensures Join([]) == "" && Join([piece]) == piece
  {
    assert [piece][1..] == [];
  }

  /** A row is not blank. */
  lemma {:induction false} RowIsNotBlank(line: string)
    requires IsRow(line)
    ensures !Blank(line)
  {
    if line != "" && IsSpace(line[0]) {
      RowIsNotBlank(line[1..]);
      assert forall c | c in line[1..] :: c in line;
    } else {
      assert line[0] == MARKER[0];
      assert line[0] in line;
    }
  }

  lemma {:induction false} LineInText(text: string, line: string)
    requires line in LinesOf(text)
    ensures forall c | c in line :: c in text
  {
    var n := LineLength(text);
    if line in LinesOf(text[n..]) {
      LineInText(text[n..], line);
    }
  }

  /** For every text the passages put together are the text, rows included; blank text has none. */
  lemma PassagesAreVerbatim(text: string, parses: string -> bool)
    ensures PassagesOf(text, parses).None? <==> exists line | line in LinesOf(text) :: IsRow(line) && !parses(line)
    ensures PassagesOf(text, parses).Some? ==>
              Join(PassagesOf(text, parses).value) == if Blank(text) then "" else text
  {
    hide IsRow, Blank, PlainPassages, Runs, Assemble, LinesOf;
    var lines := LinesOf(text);
    if exists line | line in lines :: IsRow(line) {
      var line :| line in lines && IsRow(line);
      RowMakesNonBlank(text, line);
      LinesJoin(text);
      RunsJoin(lines, "");
      AssembleJoins(Runs(lines, ""), [], "");
    } else {
      PlainPassagesJoin(text);
    }
  }

  lemma RowMakesNonBlank(text: string, line: string)
    requires line in LinesOf(text) && IsRow(line)
    ensures !Blank(text)
  {
    RowIsNotBlank(line);
    LineInText(text, line);
  }

  /* ---- rows stay whole ---- */

  /** The line makes up a passage by itself, save for blank space around it. */
  ghost predicate Alone(passages: seq<string>, line: string)
  {
    exists i, before, after ::
      0 <= i < |passages| && passages[i] == before + line + after && Blank(before) && Blank(after)
  }

  lemma AloneInParts(a: seq<string>, b: seq<string>, line: string)
    requires Alone(a, line) || Alone(b, line)
    ensures Alone(a + b, line)
  {
    if Alone(a, line) {
      var i, before, after :|
        0 <= i < |a| && a[i] == before + line + after && Blank(before) && Blank(after);
      assert (a + b)[i] == before + line + after;
    } else {
      var i, before, after :|
        0 <= i < |b| && b[i] == before + line + after && Blank(before) && Blank(after);
      assert (a + b)[|a| + i] == before + line + after;
    }
  }

  lemma AloneWithTail(passages: seq<string>, line: string, tail: string)
    requires passages != [] && Alone(passages, line) && Blank(tail)
    ensures Alone(AppendLast(passages, tail), line)
  {
    var i, before, after :|
      0 <= i < |passages| && passages[i] == before + line + after && Blank(before) && Blank(after);
    var r := AppendLast(passages, tail);
    if i == |passages| - 1 {
      assert r[i] == before + line + (after + tail);
      assert Blank(after + tail);
    } else {
      assert r[i] == before + line + after;
    }
  }

  lemma AloneWithPrefix(prefix: string, line: string)
    requires Blank(prefix)
    ensures Alone(WithPrefix(prefix, [line]), line)
  {
    var r := WithPrefix(prefix, [line]);
    assert r[0] == prefix + line + "";
    assert Blank("");
  }

  lemma {:induction false} AssembleKeepsAlone(runs: seq<Run>, result: seq<string>, prefix: string, line: string)
    requires result == [] || prefix == ""
    requires Blank(prefix) && Blank("") && !Blank(line)
    requires Alone(result, line) || Run(true, line) in runs
    ensures Alone(Assemble(runs, result, prefix), line)
    decreases |runs|
  {
    hide Blank, Alone, UnitsOf, WithPrefix, AppendLast;
    NothingIsAlone(line);
    if runs != [] {
      var run := runs[0];
      if Blank(run.text) {
        if result != [] {
          if Alone(result, line) {
            AloneWithTail(result, line, run.text);
          }
          AssembleKeepsAlone(runs[1..], AppendLast(result, run.text), prefix, line);
        } else {
          BlankParts(prefix, run.text);
          AssembleKeepsAlone(runs[1..], result, prefix + run.text, line);
        }
      } else {
        var units := UnitsOf(run);
        NonBlankUnits(run);
        if Run(true, line) == run {
          UnitsOfRow(line);
          AloneWithPrefix(prefix, line);
        }
        if Alone(result, line) || Alone(WithPrefix(prefix, units), line) {
          AloneInParts(result, WithPrefix(prefix, units), line);
        }
        AssembleKeepsAlone(runs[1..], result + WithPrefix(prefix, units), "", line);
      }
    }
  }

  lemma NothingIsAlone(line: string)
    ensures !Alone([], line)
  {
  }

  lemma BlankParts(a: string, b: string)
    requires Blank(a) && Blank(b)
    ensures Blank(a + b)
  {
  }

  lemma UnitsOfRow(line: string)
    ensures UnitsOf(Run(true, line)) == [line]
  {
  }

  lemma {:induction false} RowsBecomeRuns(lines: seq<string>, pending: string, line: string)
    requires line in lines && IsRow(line)
    ensures Run(true, line) in Runs(lines, pending)
  {
    hide IsRow;
    if IsRow(lines[0]) {
      if line != lines[0] {
        RowsBecomeRuns(lines[1..], "", line);
      }
    } else {
      RowsBecomeRuns(lines[1..], pending + lines[0], line);
    }
  }

  /** Every table row is a passage of its own, save for blank space around it. */
  lemma RowsStayWhole(text: string, parses: string -> bool, line: string)
    requires PassagesOf(text, parses).Some? && line in LinesOf(text) && IsRow(line)
    ensures Alone(PassagesOf(text, parses).value, line)
  {
    hide IsRow, Runs, Assemble, LinesOf, PlainPassages, Alone;
    RowIsNotBlank(line);
    RowsBecomeRuns(LinesOf(text), "", line);
    AssembleKeepsAlone(Runs(LinesOf(text), ""), [], "", line);
  }
}
