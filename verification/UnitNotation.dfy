/**
 What ties an answer together and what divides it when it is published: titles, code, colons before
 formulas and the rules of tables, told by the signs in the text.
 */
module UnitNotation {
  import opened Basics
  import opened PublicationSegments
  import opened PublicationUnits
  import N = MarkdownNotation
  import D = AnswerDivisions
  import M = MarkdownLines

  /* ---- colons and formulas ---- */

  /** The text ends in a colon and blanks. */
  ghost predicate ColonText(text: string, body: string, tail: string)
  {
    text == body + ":" + tail && Blank(tail)
  }

  lemma ColonIsRead(input: Input, s: Span)
    requires s.start <= s.end <= |input.answer|
    ensures EndsInColon(input, s) <==>
              exists body, tail :: ColonText(input.uncite(input.answer[s.start..s.end]), body, tail)
  {
    hide IsSpace, Blank, ColonText;
    var text := input.uncite(input.answer[s.start..s.end]);
    var n := TrimEnd(text, 0, |text|);
    if EndsInColon(input, s) {
      BlankIsSpaces(text, n, |text|);
      ColonAt(text, n);
    }
    forall body, tail | ColonText(text, body, tail) ensures EndsInColon(input, s) {
      ColonEnds(text, body, tail);
    }
  }

  lemma ColonAt(text: string, n: nat)
    requires 0 < n <= |text| && text[n - 1] == ':' && Blank(text[n..|text|])
    ensures ColonText(text, text[..n - 1], text[n..])
  {
    assert text[n..|text|] == text[n..];
    assert text[..n - 1] + ":" + text[n..] == text;
  }

  lemma ColonEnds(text: string, body: string, tail: string)
    requires ColonText(text, body, tail)
    ensures var n := TrimEnd(text, 0, |text|); n > 0 && text[n - 1] == ':'
  {
    var k := |body|;
    assert text[k + 1..|text|] == tail && text[k] == ':';
    BlankIsSpaces(text, k + 1, |text|);
    assert !IsSpace(':');
    hide IsSpace;
  }

  /** Blanks, and then the opening of a formula. */
  ghost predicate FormulaText(text: string, pad: string, opener: string, rest: string)
  {
    && text == pad + opener + rest && Blank(pad)
    && (opener == "$$" || opener == "\\[" || opener == "[MATH:" || opener == "$" || opener == "\\(")
  }

  /** A known formula in the piece, with nothing before it but blanks and backticks. */
  ghost predicate FormulaFirst(input: Input, s: Span, f: Span)
    requires s.end <= |input.answer|
  {
    && s.start <= f.start < f.end <= s.end
    && forall k | s.start <= k < f.start ::
         input.answer[k] == ' ' || input.answer[k] == '\t' || input.answer[k] == '\r' || input.answer[k] == '\n' || input.answer[k] == '`'
  }

  lemma FormulaIsShown(input: Input, s: Span)
    requires s.start <= s.end <= |input.answer|
    ensures ShowsFormula(input, s) <==>
              || (exists pad, opener, rest :: FormulaText(input.uncite(input.answer[s.start..s.end]), pad, opener, rest))
              || exists f | f in input.formulas :: FormulaFirst(input, s, f)
  {
    var text := input.uncite(input.answer[s.start..s.end]);
    var k := TrimStart(text, 0, |text|);
    if StartsWithAny(text[k..], OPENERS) {
      StartsSo(text, k);
    }
    forall pad, opener, rest | FormulaText(text, pad, opener, rest) ensures StartsWithAny(text[k..], OPENERS) {
      FormulaStarts(text, pad, opener, rest);
    }
    forall f | f in input.formulas ensures FormulaFirst(input, s, f) <==>
      s.start <= f.start < f.end <= s.end && forall c | c in input.answer[s.start..f.start] :: IsQuiet(c)
    {
      if s.start <= f.start < f.end <= s.end {
        QuietBefore(input.answer, s.start, f.start);
      }
    }
    hide StartsWithAny, FormulaText, FormulaFirst;
  }

  lemma QuietBefore(answer: string, from: nat, stop: nat)
    requires from <= stop <= |answer|
    ensures (forall c | c in answer[from..stop] :: IsQuiet(c)) <==>
            forall k | from <= k < stop :: answer[k] == ' ' || answer[k] == '\t' || answer[k] == '\r' || answer[k] == '\n' || answer[k] == '`'
  {
    if forall c | c in answer[from..stop] :: IsQuiet(c) {
      forall k | from <= k < stop ensures IsQuiet(answer[k]) {
        assert answer[from..stop][k - from] in answer[from..stop];
      }
    }
  }

  lemma Openers()
    ensures forall opener :: opener in OPENERS <==>
              opener == "$$" || opener == "\\[" || opener == "[MATH:" || opener == "$" || opener == "\\("
  {
    assert OPENERS[0] == "$$" && OPENERS[1] == "\\[" && OPENERS[2] == "[MATH:" && OPENERS[3] == "$" && OPENERS[4] == "\\(";
  }

  lemma OpenerIsVisible(opener: string)
    requires opener == "$$" || opener == "\\[" || opener == "[MATH:" || opener == "$" || opener == "\\("
    ensures opener != "" && !IsSpace(opener[0])
  {
  }

  lemma StartsSo(text: string, k: nat)
    requires k == TrimStart(text, 0, |text|) && StartsWithAny(text[k..], OPENERS)
    ensures exists pad, opener, rest :: FormulaText(text, pad, opener, rest)
  {
    hide *;
    var opener := StartIs(text[k..], OPENERS);
    Openers();
    BlankIsSpaces(text, 0, k);
    var rest := text[k + |opener|..];
    PrefixSplits(text, k, opener);
    FormulaFromParts(text, text[0..k], opener, rest);
  }

  lemma PrefixSplits(text: string, k: nat, opener: string)
    requires k <= |text| && opener <= text[k..]
    ensures k + |opener| <= |text| && text == text[0..k] + opener + text[k + |opener|..]
  {
    assert text[k..][..|opener|] == opener;
    assert text[k..k + |opener|] == opener;
  }

  lemma StartIs(text: string, prefixes: seq<string>) returns (opener: string)
    requires StartsWithAny(text, prefixes)
    ensures opener in prefixes && opener <= text
  {
    opener :| opener in prefixes && opener <= text;
  }

  lemma FormulaFromParts(text: string, pad: string, opener: string, rest: string)
    requires text == pad + opener + rest && Blank(pad)
    requires opener == "$$" || opener == "\\[" || opener == "[MATH:" || opener == "$" || opener == "\\("
    ensures FormulaText(text, pad, opener, rest)
  {
  }

  lemma FormulaParts(text: string, pad: string, opener: string, rest: string)
    requires FormulaText(text, pad, opener, rest)
    ensures text == pad + opener + rest && Blank(pad)
    ensures opener == "$$" || opener == "\\[" || opener == "[MATH:" || opener == "$" || opener == "\\("
  {
  }

  lemma FormulaStarts(text: string, pad: string, opener: string, rest: string)
    requires FormulaText(text, pad, opener, rest)
    ensures StartsWithAny(text[TrimStart(text, 0, |text|)..], OPENERS)
  {
    hide *;
    var k := |pad|;
    FormulaParts(text, pad, opener, rest);
    OpenerIsVisible(opener);
    assert text[0..k] == pad && text[k] == opener[0] && text[k..] == opener + rest;
    BlankIsSpaces(text, 0, k);
    StartsVisibly(text, k);
    Openers();
    StartsWithIt(text[k..], opener, OPENERS);
  }

  lemma StartsVisibly(text: string, k: nat)
    requires k < |text| && (forall j | 0 <= j < k :: IsSpace(text[j])) && !IsSpace(text[k])
    ensures TrimStart(text, 0, |text|) == k
  {
    hide IsSpace;
  }

  lemma StartsWithIt(text: string, opener: string, prefixes: seq<string>)
    requires opener in prefixes && opener <= text
    ensures StartsWithAny(text, prefixes)
  {
  }

  /** A colon ties a piece to the next: it is no title, and nothing visible stands between them. */
  lemma LeadIsRead(input: Input, headings: set<Span>, a: Span, b: Span)
    requires a.start <= a.end <= b.start <= b.end <= |input.answer|
    ensures LeadsIn(input, headings, a, b) <==>
              && a !in headings && (forall k | a.end <= k < b.start :: IsSpace(input.answer[k]))
              && (exists body, tail :: ColonText(input.uncite(input.answer[a.start..a.end]), body, tail))
              && ( || (exists pad, opener, rest :: FormulaText(input.uncite(input.answer[b.start..b.end]), pad, opener, rest))
                   || exists f | f in input.formulas :: FormulaFirst(input, b, f))
  {
    ColonIsRead(input, a);
    FormulaIsShown(input, b);
    BlankIsSpaces(input.answer, a.end, b.start);
    hide EndsInColon, ShowsFormula, ColonText, FormulaText, FormulaFirst, Blank;
  }

  lemma BlankIsSpaces(text: string, from: nat, stop: nat)
    requires from <= stop <= |text|
    ensures Blank(text[from..stop]) <==> forall k | from <= k < stop :: IsSpace(text[k])
  {
    if Blank(text[from..stop]) {
      forall k | from <= k < stop ensures IsSpace(text[k]) {
        assert text[from..stop][k - from] in text[from..stop];
      }
    }
  }

  /** The claim and the piece have a stretch in common. */
  ghost predicate Shares(c: Claim, s: Span)
  {
    s.start < c.end && c.start < s.end
  }

  /** Neighbours are tied by a claim with a part before and a part after, or by a colon. */
  lemma LinkIsRead(input: Input, headings: set<Span>, pieces: seq<Span>, i: nat)
    requires InRow(input.answer, pieces) && i + 1 < |pieces|
    ensures i in Links(input, headings, pieces) <==>
              || (exists c, j, k | c in input.claims && 0 <= j <= i < k < |pieces| :: Shares(c, pieces[j]) && Shares(c, pieces[k]))
              || LeadsIn(input, headings, pieces[i], pieces[i + 1])
  {
    hide LeadsIn;
    forall c | c in input.claims
      ensures Bridges(c, pieces, i) <==> exists j, k | 0 <= j <= i < k < |pieces| :: Shares(c, pieces[j]) && Shares(c, pieces[k])
    {
      assert forall s :: Touches(c, s) <==> Shares(c, s);
    }
  }

  /** A unit lists the claims that share a stretch with it, and no others. */
  lemma UnitLists(input: Input, s: Span, id: nat)
    requires input.Valid() && s.start <= s.end <= |input.answer|
    ensures id in UnitOf(input, s).claimIds <==> exists c | c in input.claims :: c.id == id && Shares(c, s)
  {
    hide Complete;
    var members := Members(input.claims, s.start, s.end);
    if id in Ids(members) {
      var k :| 0 <= k < |members| && Ids(members)[k] == id;
      assert members[k] in members;
    }
    if c :| c in input.claims && c.id == id && Shares(c, s) {
      assert c in members;
      var k :| 0 <= k < |members| && members[k] == c;
      assert Ids(members)[k] == id;
    }
  }

  /* ---- the rules of tables ---- */

  /** One column of a rule: three dashes or more, perhaps a colon on either side, blanks around. */
  datatype Column = Column(pad: string, left: string, dashes: string, right: string, tail: string)

  ghost predicate IsColumn(c: Column)
  {
    && N.Pad(c.pad) && (c.left == "" || c.left == ":") && |c.dashes| >= 3 && (forall d | d in c.dashes :: d == '-')
    && (c.right == "" || c.right == ":") && N.Pad(c.tail)
  }

  function Draw(c: Column): string
  {
    c.pad + c.left + c.dashes + c.right + c.tail
  }

  /** A bar before every column, then perhaps a last bar and blanks. */
  function DrawRest(columns: seq<Column>, close: string): string
  {
    if columns == [] then close else "|" + Draw(columns[0]) + DrawRest(columns[1..], close)
  }

  ghost predicate IsClose(close: string)
  {
    close == "" || (close[0] == '|' && N.Pad(close[1..]))
  }

  ghost predicate AllColumns(columns: seq<Column>)
  {
    forall k | 0 <= k < |columns| :: IsColumn(columns[k])
  }

  /** A rule: perhaps a first bar, columns with bars between them, perhaps a last bar. */
  ghost predicate RuleLine(line: string, lead: string, first: Column, columns: seq<Column>, close: string)
  {
    && line == lead + Draw(first) + DrawRest(columns, close)
    && (lead == "" || (lead[|lead| - 1] == '|' && N.Pad(lead[..|lead| - 1])))
    && IsColumn(first) && AllColumns(columns) && IsClose(close)
  }

  lemma PadSpaces(line: string, from: nat, stop: nat)
    requires from <= stop <= |line|
    ensures N.Pad(line[from..stop]) <==> forall k | from <= k < stop :: line[k] == ' ' || line[k] == '\t'
  {
    if N.Pad(line[from..stop]) {
      forall k | from <= k < stop ensures line[k] == ' ' || line[k] == '\t' {
        assert line[from..stop][k - from] in line[from..stop];
      }
    }
  }

  lemma Dashes(line: string, from: nat, stop: nat)
    requires from <= stop <= |line|
    ensures (forall d | d in line[from..stop] :: d == '-') <==> forall k | from <= k < stop :: line[k] == '-'
  {
    if forall d | d in line[from..stop] :: d == '-' {
      forall k | from <= k < stop ensures line[k] == '-' {
        assert line[from..stop][k - from] in line[from..stop];
      }
    }
  }

  /** The parts of a column by their places. */
  ghost predicate ColumnAt(line: string, i: nat, a: nat, b: nat, c: nat, d: nat, e: nat)
  {
    && i <= a <= b <= c <= d <= e <= |line| && b <= a + 1 && d <= c + 1 && b + 3 <= c
    && (forall k | i <= k < a :: line[k] == ' ' || line[k] == '\t') && (a < b ==> line[a] == ':')
    && (forall k | b <= k < c :: line[k] == '-') && (c < d ==> line[c] == ':')
    && forall k | d <= k < e :: line[k] == ' ' || line[k] == '\t'
  }

  function ColumnOf(line: string, i: nat, a: nat, b: nat, c: nat, d: nat, e: nat): Column
    requires i <= a <= b <= c <= d <= e <= |line|
  {
    Column(line[i..a], line[a..b], line[b..c], line[c..d], line[d..e])
  }

  lemma PlacesAreColumn(line: string, i: nat, a: nat, b: nat, c: nat, d: nat, e: nat)
    requires ColumnAt(line, i, a, b, c, d, e)
    ensures IsColumn(ColumnOf(line, i, a, b, c, d, e)) && Draw(ColumnOf(line, i, a, b, c, d, e)) == line[i..e]
  {
    hide *;
    PlacesAre(line, i, a, b, c, d, e);
    var x := ColumnOf(line, i, a, b, c, d, e);
    SlicesAre(line, i, a, b, c, d, e);
    PadSpaces(line, i, a);
    PadSpaces(line, d, e);
    Dashes(line, b, c);
    OptionalColon(line, a, b);
    OptionalColon(line, c, d);
    ColumnFromParts(x);
    SlicesJoin(line, i, a, b, c, d, e);
  }

  lemma PlacesAre(line: string, i: nat, a: nat, b: nat, c: nat, d: nat, e: nat)
    requires ColumnAt(line, i, a, b, c, d, e)
    ensures i <= a <= b <= c <= d <= e <= |line| && b <= a + 1 && d <= c + 1 && b + 3 <= c
    ensures (forall k | i <= k < a :: line[k] == ' ' || line[k] == '\t') && (a < b ==> line[a] == ':')
    ensures (forall k | b <= k < c :: line[k] == '-') && (c < d ==> line[c] == ':')
    ensures forall k | d <= k < e :: line[k] == ' ' || line[k] == '\t'
  {
  }

  lemma SlicesAre(line: string, i: nat, a: nat, b: nat, c: nat, d: nat, e: nat)
    requires i <= a <= b <= c <= d <= e <= |line|
    ensures var x := ColumnOf(line, i, a, b, c, d, e);
            && x.pad == line[i..a] && x.left == line[a..b] && x.dashes == line[b..c] && x.right == line[c..d] && x.tail == line[d..e]
            && |x.dashes| == c - b
  {
  }

  lemma OptionalColon(line: string, a: nat, b: nat)
    requires a <= b <= |line| && b <= a + 1 && (a < b ==> line[a] == ':')
    ensures line[a..b] == "" || line[a..b] == ":"
  {
  }

  lemma ColumnFromParts(x: Column)
    requires N.Pad(x.pad) && (x.left == "" || x.left == ":") && |x.dashes| >= 3 && (forall d | d in x.dashes :: d == '-')
    requires (x.right == "" || x.right == ":") && N.Pad(x.tail)
    ensures IsColumn(x)
  {
  }

  lemma SlicesJoin(line: string, i: nat, a: nat, b: nat, c: nat, d: nat, e: nat)
    requires i <= a <= b <= c <= d <= e <= |line|
    ensures Draw(ColumnOf(line, i, a, b, c, d, e)) == line[i..e]
  {
    assert line[i..a] + line[a..b] == line[i..b];
    assert line[i..b] + line[b..c] == line[i..c];
    assert line[i..c] + line[c..d] == line[i..d];
    assert line[i..d] + line[d..e] == line[i..e];
  }

  lemma DrawParts(x: Column)
    ensures var a, s := |x.pad|, Draw(x);
            var b := a + |x.left|;
            var c := b + |x.dashes|;
            var d := c + |x.right|;
            && |s| == d + |x.tail|
            && s[0..a] == x.pad && s[a..b] == x.left && s[b..c] == x.dashes && s[c..d] == x.right && s[d..|s|] == x.tail
  {
  }

  lemma ColumnHasPlaces(x: Column)
    requires IsColumn(x)
    ensures var a := |x.pad|;
            var b := a + |x.left|;
            var c := b + |x.dashes|;
            var d := c + |x.right|;
            ColumnAt(Draw(x), 0, a, b, c, d, |Draw(x)|)
  {
    hide *;
    DrawParts(x);
    var a := |x.pad|;
    var b := a + |x.left|;
    var c := b + |x.dashes|;
    SlicesArePlaces(Draw(x), x, a, b, c, c + |x.right|);
  }

  lemma SlicesArePlaces(s: string, x: Column, a: nat, b: nat, c: nat, d: nat)
    requires IsColumn(x) && a <= b <= c <= d <= |s|
    requires s[0..a] == x.pad && s[a..b] == x.left && s[b..c] == x.dashes && s[c..d] == x.right && s[d..|s|] == x.tail
    ensures ColumnAt(s, 0, a, b, c, d, |s|)
  {
    PadSpaces(s, 0, a);
    PadSpaces(s, d, |s|);
    Dashes(s, b, c);
    hide N.Pad;
    assert a < b ==> s[a..b][0] == s[a];
    assert c < d ==> s[c..d][0] == s[c];
  }

  /** The places stay where the column stands in a line. */
  lemma ColumnInLine(line: string, i: nat, s: string, a: nat, b: nat, c: nat, d: nat)
    requires ColumnAt(s, 0, a, b, c, d, |s|) && i + |s| <= |line| && forall k | 0 <= k < |s| :: line[i + k] == s[k]
    ensures ColumnAt(line, i, i + a, i + b, i + c, i + d, i + |s|)
  {
    forall k | i <= k < i + |s| ensures line[k] == s[k - i] {
      assert line[i + (k - i)] == s[k - i];
    }
  }

  lemma DrawnIsRead(line: string, i: nat, x: Column)
    requires IsColumn(x) && i + |Draw(x)| <= |line| && forall k | 0 <= k < |Draw(x)| :: line[i + k] == Draw(x)[k]
    requires i + |Draw(x)| < |line| ==> line[i + |Draw(x)|] == '|'
    ensures RuleCell(line, i) == Some(i + |Draw(x)|)
  {
    hide *;
    var a := |x.pad|;
    var b := a + |x.left|;
    var c := b + |x.dashes|;
    var d := c + |x.right|;
    ColumnHasPlaces(x);
    ColumnInLine(line, i, Draw(x), a, b, c, d);
    CellIsRead(line, i, i + a, i + b, i + c, i + d, i + |Draw(x)|);
  }

  lemma CellIsRead(line: string, i: nat, a: nat, b: nat, c: nat, d: nat, e: nat)
    requires ColumnAt(line, i, a, b, c, d, e) && (e < |line| ==> line[e] == '|')
    ensures RuleCell(line, i) == Some(e)
  {
    N.PadReaches(line, i, a);
    N.OneRun(line, b, '-', c - b);
    N.PadReaches(line, d, e);
    hide M.SkipPad, M.RunOf;
  }

  lemma CellHasPlaces(line: string, i: nat) returns (a: nat, b: nat, c: nat, d: nat)
    requires i <= |line| && RuleCell(line, i).Some?
    ensures ColumnAt(line, i, a, b, c, d, RuleCell(line, i).value)
  {
    hide M.SkipPad, M.RunOf;
    a := M.SkipPad(line, i);
    N.PadIsPad(line, i);
    b := if a < |line| && line[a] == ':' then a + 1 else a;
    N.RunIsMaximal(line, b, '-');
    c := b + M.RunOf(line, b, '-');
    d := if c < |line| && line[c] == ':' then c + 1 else c;
    N.PadIsPad(line, d);
  }

  lemma CellIsDrawn(line: string, i: nat) returns (x: Column)
    requires i <= |line| && RuleCell(line, i).Some?
    ensures IsColumn(x) && Draw(x) == line[i..RuleCell(line, i).value]
  {
    hide *;
    var a, b, c, d := CellHasPlaces(line, i);
    var e := RuleCell(line, i).value;
    PlacesInOrder(line, i, a, b, c, d, e);
    PlacesAreColumn(line, i, a, b, c, d, e);
    x := ColumnOf(line, i, a, b, c, d, e);
  }

  lemma PlacesInOrder(line: string, i: nat, a: nat, b: nat, c: nat, d: nat, e: nat)
    requires ColumnAt(line, i, a, b, c, d, e)
    ensures i <= a <= b <= c <= d <= e <= |line|
  {
  }

  /* ---- from the first column to the end of the line ---- */

  lemma {:induction false} RestIsRead(line: string, i: nat, columns: seq<Column>, close: string)
    requires i <= |line| && line[i..] == DrawRest(columns, close) && AllColumns(columns) && IsClose(close)
    ensures RuleTail(line, i)
    decreases |columns|
  {
    hide RuleCell, IsColumn, Draw, RuleTail;
    if columns == [] {
      CloseIsRead(line, i, close);
    } else {
      var x, rest := columns[0], DrawRest(columns[1..], close);
      var e := i + 1 + |Draw(x)|;
      RestSplits(line, i, Draw(x), rest);
      RestStarts(columns[1..], close);
      assert e < |line| ==> line[e] == line[e..][0];
      DrawnIsRead(line, i + 1, x);
      assert forall k | 0 <= k < |columns[1..]| :: columns[1..][k] == columns[k + 1];
      RestIsRead(line, e, columns[1..], close);
      TailStep(line, i, e);
    }
  }

  lemma RestSplits(line: string, i: nat, first: string, rest: string)
    requires i <= |line| && line[i..] == "|" + first + rest
    ensures i + 1 + |first| <= |line| && line[i] == '|' && line[i + 1 + |first|..] == rest
    ensures forall k | 0 <= k < |first| :: line[i + 1 + k] == first[k]
  {
    assert line[i..][0] == '|';
    forall k | 0 <= k < |first| ensures line[i + 1 + k] == first[k] {
      assert line[i..][1 + k] == first[k];
    }
    assert line[i..][1 + |first|..] == rest;
  }

  lemma RestStarts(columns: seq<Column>, close: string)
    requires IsClose(close)
    ensures var rest := DrawRest(columns, close); rest == "" || rest[0] == '|'
  {
  }

  lemma CloseIsRead(line: string, i: nat, close: string)
    requires i <= |line| && line[i..] == close && IsClose(close)
    ensures RuleTail(line, i)
  {
    if close != "" {
      assert line[i] == close[0] && line[i + 1..|line|] == close[1..];
      PadSpaces(line, i + 1, |line|);
      N.PadReaches(line, i + 1, |line|);
    }
    hide RuleCell, M.SkipPad;
  }

  lemma TailStep(line: string, i: nat, e: nat)
    requires i < |line| && line[i] == '|' && i + 1 <= e <= |line| && RuleCell(line, i + 1) == Some(e) && RuleTail(line, e)
    ensures RuleTail(line, i)
  {
    hide RuleCell;
  }

  lemma {:induction false} TailIsDrawn(line: string, i: nat) returns (columns: seq<Column>, close: string)
    requires i <= |line| && RuleTail(line, i)
    ensures line[i..] == DrawRest(columns, close) && AllColumns(columns) && IsClose(close)
    decreases |line| - i
  {
    hide RuleCell, IsColumn, Draw, M.SkipPad, N.Pad;
    if i == |line| {
      columns, close := [], "";
    } else if M.SkipPad(line, i + 1) == |line| {
      columns, close := [], line[i..];
      N.PadIsPad(line, i + 1);
      PadSpaces(line, i + 1, |line|);
      assert close[1..] == line[i + 1..|line|];
    } else {
      var e := RuleCell(line, i + 1).value;
      var x := CellIsDrawn(line, i + 1);
      var more, last := TailIsDrawn(line, e);
      columns, close := [x] + more, last;
      assert columns[1..] == more;
      assert line[i..] == "|" + line[i + 1..e] + line[e..];
    }
  }

  /** A line is the rule of a table exactly if it can be drawn so. */
  lemma RuleIsRead(line: string, lead: string, first: Column, columns: seq<Column>, close: string)
    requires RuleLine(line, lead, first, columns, close)
    ensures TableRule(line)
  {
    hide RuleCell, RuleTail, Draw, DrawRest, M.SkipPad;
    var i, e := |lead|, |lead| + |Draw(first)|;
    var rest := DrawRest(columns, close);
    assert forall k | 0 <= k < |Draw(first)| :: line[i + k] == Draw(first)[k];
    assert line[e..] == rest;
    RestStarts(columns, close);
    assert e < |line| ==> line[e] == rest[0];
    hide IsColumn;
    DrawnIsRead(line, i, first);
    RestIsRead(line, e, columns, close);
    LeadIsPassed(line, lead, first);
  }

  lemma LeadIsPassed(line: string, lead: string, first: Column)
    requires lead + Draw(first) <= line && IsColumn(first)
    requires lead == "" || (lead[|lead| - 1] == '|' && N.Pad(lead[..|lead| - 1]))
    requires RuleCell(line, |lead|).Some? && RuleTail(line, RuleCell(line, |lead|).value)
    ensures TableRule(line)
  {
    hide RuleTail, M.RunOf;
    var start := M.SkipPad(line, 0);
    if lead == "" {
      ColumnHasPlaces(first);
      NoBarYet(line, first);
    } else {
      var n := |lead| - 1;
      assert line[0..n] == lead[..n] && line[n] == lead[n];
      PadSpaces(line, 0, n);
      N.PadReaches(line, 0, n);
    }
  }

  lemma NoBarYet(line: string, first: Column)
    requires Draw(first) <= line && IsColumn(first)
    ensures var start := M.SkipPad(line, 0); start < |line| ==> line[start] != '|'
    ensures RuleCell(line, 0) == RuleCell(line, M.SkipPad(line, 0))
  {
    hide *;
    ColumnHasPlaces(first);
    var s, a := Draw(first), |first.pad|;
    DrawnStart(s, a, a + |first.left|, a + |first.left| + |first.dashes|, a + |first.left| + |first.dashes| + |first.right|);
    assert forall k | 0 <= k <= a :: line[k] == s[k];
    N.PadReaches(line, 0, a);
    SameCell(line, a);
  }

  lemma DrawnStart(s: string, a: nat, b: nat, c: nat, d: nat)
    requires ColumnAt(s, 0, a, b, c, d, |s|)
    ensures a < |s| && (s[a] == ':' || s[a] == '-') && forall k | 0 <= k < a :: s[k] == ' ' || s[k] == '\t'
  {
  }

  lemma RuleIsDrawn(line: string) returns (lead: string, first: Column, columns: seq<Column>, close: string)
    requires TableRule(line)
    ensures RuleLine(line, lead, first, columns, close)
  {
    hide RuleCell, RuleTail, IsColumn, Draw, M.SkipPad, N.Pad, AllColumns, IsClose, DrawRest;
    var start := M.SkipPad(line, 0);
    N.PadIsPad(line, 0);
    PadSpaces(line, 0, start);
    var barred := start < |line| && line[start] == '|';
    var i := if barred then start + 1 else start;
    var e := RuleCell(line, i).value;
    columns, close := TailIsDrawn(line, e);
    if barred {
      lead := line[..i];
      first := CellIsDrawn(line, i);
      assert lead[..|lead| - 1] == line[0..start];
      assert line == lead + line[i..e] + line[e..];
    } else {
      lead := "";
      SameCell(line, start);
      first := CellIsDrawn(line, 0);
      assert line == line[0..e] + line[e..];
    }
  }

  lemma SameCell(line: string, start: nat)
    requires start == M.SkipPad(line, 0) <= |line|
    ensures RuleCell(line, 0) == RuleCell(line, start)
  {
    N.PadIsPad(line, 0);
    N.PadReaches(line, start, start);
    hide M.RunOf, M.SkipPad;
  }

  /**
   What may be kept between two claims: lines that are blank or the rule of a table, and nothing
   else.
   */
  lemma ScaffoldIsRead(text: string)
    ensures Scaffold(text) <==>
              forall line | line in M.LinesFrom(text, 0) ::
                var content := text[line.start..M.BreakFrom(text, line.start)];
                Blank(content) || exists lead, first, columns, close :: RuleLine(content, lead, first, columns, close)
  {
    hide TableRule, RuleLine, M.LinesFrom, M.BreakFrom, Blank;
    forall line | line in M.LinesFrom(text, 0)
      ensures var content := text[line.start..M.BreakFrom(text, line.start)];
              TableRule(content) <==> exists lead, first, columns, close :: RuleLine(content, lead, first, columns, close)
    {
      var content := text[line.start..M.BreakFrom(text, line.start)];
      if TableRule(content) {
        var lead, first, columns, close := RuleIsDrawn(content);
      }
      forall lead, first, columns, close | RuleLine(content, lead, first, columns, close) ensures TableRule(content) {
        RuleIsRead(content, lead, first, columns, close);
      }
    }
  }

  /* ---- where units may be divided ---- */

  /** A line that is a title and does not begin inside a formula, a citation or code. */
  ghost predicate TitleHere(input: Input, guarded: seq<Span>, line: M.Line)
    requires line.start <= line.end <= |input.answer|
  {
    N.TitleLine(input.answer[line.start..line.end]) && forall x | x in guarded :: !(x.start < line.start < x.end)
  }

  /** A block of code: nothing but blanks before it on its line, and three marks at its start. */
  ghost predicate CodeHere(answer: string, s: Span, from: nat)
  {
    && from <= s.start <= s.end <= |answer| && (from == 0 || answer[from - 1] == '\n')
    && (forall k | from <= k < s.start :: IsSpace(answer[k]) && answer[k] != '\n')
    && s.start + 3 <= s.end && (answer[s.start] == '`' || answer[s.start] == '~')
    && answer[s.start] == answer[s.start + 1] == answer[s.start + 2]
  }

  lemma CodeIsRead(answer: string, s: Span)
    requires s.start <= s.end <= |answer|
    ensures CodeBlock(answer, s) <==> exists from :: CodeHere(answer, s, from)
  {
    hide IsSpace, LineStart, Blank;
    var start := LineStart(answer, s.start);
    D.LineStarts(answer, s.start);
    BlankIsSpaces(answer, start, s.start);
    MarksStart(Text(answer, s));
    if CodeBlock(answer, s) {
      assert CodeHere(answer, s, start);
    }
    forall from | CodeHere(answer, s, from) ensures CodeBlock(answer, s) {
      D.LineStartIs(answer, from, s.start);
    }
  }

  lemma MarksStart(text: string)
    ensures "```" <= text || "~~~" <= text <==>
            |text| >= 3 && (text[0] == '`' || text[0] == '~') && text[0] == text[1] == text[2]
  {
    if |text| >= 3 && text[0] == text[1] == text[2] {
      assert text[..3] == [text[0], text[0], text[0]];
    }
  }

  /**
   The places where units may be divided: the ends of the answer, of its titles and of its blocks of
   code, and the gaps between paragraphs that no formula, citation or code block holds.
   */
  lemma UnitDivisionsDecide(input: Input, guarded: seq<Span>, p: nat)
    requires Within(guarded, |input.answer|)
    ensures p in Divisions(input, guarded) <==>
              || p == 0 || p == |input.answer|
              || (exists line | line in M.LinesFrom(input.answer, 0) ::
                    TitleHere(input, guarded, line) && (p == line.start || p == line.end))
              || (exists s | s in guarded :: (exists from :: CodeHere(input.answer, s, from)) && (p == s.start || p == s.end))
              || exists g | g in M.Gaps(input.answer, 0) :: D.Outside(g, guarded) && (p == g.start || p == g.end)
  {
    hide Titles, CodeBlocks, OpenGaps, M.Gaps, CodeHere, TitleHere, D.Outside, M.LinesFrom, Edges;
    var titles, blocks, gaps := Titles(input, guarded), CodeBlocks(input.answer, guarded), OpenGaps(input.answer, guarded);
    D.EdgesAre(titles, p);
    D.EdgesAre(blocks, p);
    D.EdgesAre(gaps, p);
    TitlesAre(input, guarded, p);
    BlocksAre(input.answer, guarded);
    OpenGapsAre(input.answer, guarded);
  }

  lemma TitlesAre(input: Input, guarded: seq<Span>, p: nat)
    ensures (exists s | s in Titles(input, guarded) :: p == s.start || p == s.end) <==>
            exists line | line in M.LinesFrom(input.answer, 0) ::
              TitleHere(input, guarded, line) && (p == line.start || p == line.end)
  {
    hide M.IsTitle, N.TitleLine, M.LinesFrom;
    forall line | line in M.LinesFrom(input.answer, 0) ensures TitleLine(input, guarded, line) <==> TitleHere(input, guarded, line) {
      N.TitleIsRead(input.answer[line.start..line.end]);
    }
    hide TitleLine, TitleHere;
    if line :| line in M.LinesFrom(input.answer, 0) && TitleHere(input, guarded, line) && (p == line.start || p == line.end) {
      assert Span(line.start, line.end) in Titles(input, guarded);
    }
  }

  lemma BlocksAre(answer: string, guarded: seq<Span>)
    requires Within(guarded, |answer|)
    ensures forall s :: s in CodeBlocks(answer, guarded) <==> s in guarded && exists from :: CodeHere(answer, s, from)
  {
    hide CodeBlock, CodeHere;
    forall s | s in guarded ensures CodeBlock(answer, s) <==> exists from :: CodeHere(answer, s, from) {
      CodeIsRead(answer, s);
    }
  }

  lemma OpenGapsAre(answer: string, guarded: seq<Span>)
    ensures forall g :: g in OpenGaps(answer, guarded) <==> g in M.Gaps(answer, 0) && D.Outside(g, guarded)
  {
    hide M.Gaps;
  }

  /* ---- the end of a list item ---- */

  /**
   A visible line without a list marker ends the open item exactly if it is indented no deeper than
   the item, and a blank line stands before it, or it is a title, a fence or a quotation.
   */
  lemma ItemEndsAt(text: string, heading: bool, item: Item, blank: bool)
    ensures EndsItem(text, heading, item, blank) <==>
              && (exists n: nat :: N.Run(text, 0, ' ', n) && n <= item.indent)
              && ( || blank || heading || (exists indent, mark, n :: N.FenceLine(text, indent, mark, n))
                   || exists indent: nat :: N.Run(text, 0, ' ', indent) && indent <= 3 && indent < |text| && text[indent] == '>')
  {
    hide M.FenceAt, N.FenceLine, N.Run;
    N.RunIsMaximal(text, 0, ' ');
    forall n: nat | N.Run(text, 0, ' ', n) ensures n == M.RunOf(text, 0, ' ') {
      N.OneRun(text, 0, ' ', n);
    }
    N.BlockIsRead(text);
    if M.FenceAt(text).Some? {
      var indent := N.FenceIsWritten(text);
    }
    forall indent, mark, n | N.FenceLine(text, indent, mark, n) ensures M.FenceAt(text).Some? {
      N.FenceIsRead(text, indent, mark, n);
    }
  }

  /** Titles are the headings that were told and the title lines of the answer. */
  lemma TitleSpansAre(input: Input, guarded: seq<Span>, s: Span)
    ensures s in HeadingSpans(input, guarded) <==>
              || s in input.headings
              || exists line | line in M.LinesFrom(input.answer, 0) ::
                   TitleHere(input, guarded, line) && s == Span(line.start, line.end)
  {
    hide M.IsTitle, N.TitleLine, M.LinesFrom;
    forall line | line in M.LinesFrom(input.answer, 0) ensures TitleLine(input, guarded, line) <==> TitleHere(input, guarded, line) {
      N.TitleIsRead(input.answer[line.start..line.end]);
    }
  }
}
