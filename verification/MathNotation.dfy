/**
 Which text is a formula: for every notation, a text in which it is spelled out has exactly that
 formula first.  Nothing here goes through the tables of opening and closing tokens.
 */
module MathNotation {
  import opened Basics
  import opened MathSpans

  /** The characters with which a formula, or the escape of one, can begin. */
  predicate Signal(c: char)
  {
    c == '\\' || c == '$' || c == '['
  }

  /** Text in which nothing opens. */
  ghost predicate Quiet(text: string)
  {
    forall c | c in text :: !Signal(c)
  }

  /** Text in which nothing opens or closes. */
  ghost predicate Plain(text: string)
  {
    forall c | c in text :: !Signal(c) && c != ']' && c != '\n'
  }

  /* ---- the first formula ---- */

  /** A token that differs somewhere is not read. */
  lemma DiffersAt(text: string, i: nat, token: string, k: nat)
    requires k < |token| && (i + k < |text| ==> Fold(text[i + k]) != token[k])
    ensures !Reads(text, i, token)
  {
    if Reads(text, i, token) {
      ReadsThere(text, i, token, k);
    }
  }

  lemma ReadsThere(text: string, i: nat, token: string, k: nat)
    requires Reads(text, i, token) && k < |token|
    ensures i + k < |text| && Fold(text[i + k]) == token[k]
  {
  }

  lemma NoSignalIsRead(text: string, i: nat, token: string)
    requires token != [] && Signal(token[0]) && (i < |text| ==> !Signal(text[i]))
    ensures !Reads(text, i, token)
  {
    DiffersAt(text, i, token, 0);
  }

  lemma QuietOpensNothing(text: string, i: nat)
    requires i < |text| && !Signal(text[i])
    ensures OpenerAt(text, i).None?
  {
    NoSignalIsRead(text, i, "$$");
    NoSignalIsRead(text, i, "\\[");
    NoSignalIsRead(text, i, "\\(");
    NoSignalIsRead(text, i, "[MATH:");
    NoSignalIsRead(text, i, "[MATH]");
    NoSignalIsRead(text, i, "$");
    hide Reads;
  }

  lemma {:induction false} QuietIsPassed(text: string, from: nat, at: nat)
    requires from <= at <= |text| && forall k | from <= k < at :: !Signal(text[k])
    ensures Scan(text, from, 0, |text|) == Scan(text, at, 0, |text|)
    decreases at - from
  {
    hide OpenerAt, Signal;
    if from < at {
      QuietOpensNothing(text, from);
      QuietIsPassed(text, from + 1, at);
    }
  }

  lemma FirstFormula(text: string, at: nat, opener: Opener, stop: nat)
    requires at < |text| && forall k | 0 <= k < at :: !Signal(text[k])
    requires OpenerAt(text, at) == Some(opener) && !Escaped(text, at) && SpanEnd(text, at, opener) == Some(stop)
    ensures Spans(text) != [] && Spans(text)[0] == Span(at, stop)
  {
    hide OpenerAt, Escaped, SpanEnd, Signal;
    QuietIsPassed(text, 0, at);
    ScanParts(text, at, 0, |text|);
  }

  lemma NotEscaped(text: string, at: nat)
    requires at <= |text| && (at > 0 ==> text[at - 1] != '\\')
    ensures !Escaped(text, at)
  {
  }

  lemma {:induction false} ClosingAt(text: string, token: string, from: nat, at: nat)
    requires token != [] && from <= at && (forall k: nat | from <= k < at :: !Reads(text, k, token))
    requires Reads(text, at, token) && at <= |text| && !Escaped(text, at)
    ensures Closing(text, token, from) == Some(at + |token|)
    decreases at - from
  {
    hide Reads, Escaped;
    assert at + |token| <= |text| by { ReadsFits(text, at, token); }
    if from < at {
      ClosingAt(text, token, from + 1, at);
    }
  }

  lemma ReadsFits(text: string, at: nat, token: string)
    requires Reads(text, at, token)
    ensures at + |token| <= |text|
  {
  }

  lemma {:induction false} NeverClosing(text: string, token: string, from: nat)
    requires token != [] && forall k: nat | from <= k :: !Reads(text, k, token)
    ensures Closing(text, token, from) == None
    decreases |text| - from
  {
    hide Reads, Escaped;
    if from + |token| <= |text| {
      NeverClosing(text, token, from + 1);
    }
  }

  lemma {:induction false} FoundAt(text: string, token: string, from: nat, at: nat)
    requires token != [] && from <= at && (forall k: nat | from <= k < at :: !Reads(text, k, token)) && Reads(text, at, token)
    ensures Found(text, token, from) == Some(at + |token|)
    decreases at - from
  {
    hide Reads;
    ReadsFits(text, at, token);
    if from < at {
      FoundAt(text, token, from + 1, at);
    }
  }

  /* ---- a text around a formula ---- */

  /** The text is put together from these parts, the formula's inside between `from` and `last`. */
  ghost predicate Around(text: string, lead: string, open: string, inner: string, close: string, rest: string, from: nat, last: nat)
  {
    && text == lead + open + inner + close + rest
    && from == |lead| + |open| && last == from + |inner|
    && (forall k | 0 <= k < |lead| :: text[k] == lead[k])
    && (forall k | 0 <= k < |open| :: text[|lead| + k] == open[k])
    && (forall k | 0 <= k < |inner| :: text[from + k] == inner[k])
    && (forall k | 0 <= k < |close| :: text[last + k] == close[k])
    && last + |close| <= |text|
  }

  lemma PutTogether(lead: string, open: string, inner: string, close: string, rest: string)
    ensures Around(lead + open + inner + close + rest, lead, open, inner, close, rest,
                   |lead| + |open|, |lead| + |open| + |inner|)
  {
  }

  lemma AroundQuiet(text: string, lead: string, open: string, inner: string, close: string, rest: string, from: nat, last: nat)
    requires Around(text, lead, open, inner, close, rest, from, last) && Quiet(lead) && Plain(inner)
    ensures forall k | 0 <= k < |lead| :: !Signal(text[k])
    ensures forall k | from <= k < last :: !Signal(text[k]) && text[k] != ']' && text[k] != '\n'
    ensures |lead| <= |text| && !Escaped(text, |lead|)
  {
    hide Signal;
    forall k | 0 <= k < |lead| ensures !Signal(text[k]) {
      assert lead[k] in lead;
    }
    forall k | from <= k < last ensures !Signal(text[k]) && text[k] != ']' && text[k] != '\n' {
      assert text[from + (k - from)] == inner[k - from] && inner[k - from] in inner;
    }
    if lead != [] {
      SignalIsBackslash(text[|lead| - 1]);
    }
    NotEscaped(text, |lead|);
  }

  lemma SignalIsBackslash(c: char)
    requires !Signal(c)
    ensures c != '\\' && c != '$' && c != '['
  {
  }

  /* ---- the notations ---- */

  /** `\[ ... \]` is a formula. */
  lemma Brackets(lead: string, inner: string, rest: string)
    requires Quiet(lead) && Plain(inner)
    ensures var text := lead + "\\[" + inner + "\\]" + rest;
            Spans(text) != [] && Spans(text)[0] == Span(|lead|, |lead| + 2 + |inner| + 2)
  {
    hide *;
    PutTogether(lead, "\\[", inner, "\\]", rest);
    BackslashPair(lead + "\\[" + inner + "\\]" + rest, lead, inner, rest, '[', ']', Bracket);
  }

  /** `\( ... \)` is a formula. */
  lemma Parens(lead: string, inner: string, rest: string)
    requires Quiet(lead) && Plain(inner)
    ensures var text := lead + "\\(" + inner + "\\)" + rest;
            Spans(text) != [] && Spans(text)[0] == Span(|lead|, |lead| + 2 + |inner| + 2)
  {
    hide *;
    PutTogether(lead, "\\(", inner, "\\)", rest);
    BackslashPair(lead + "\\(" + inner + "\\)" + rest, lead, inner, rest, '(', ')', Paren);
  }

  lemma BackslashPair(text: string, lead: string, inner: string, rest: string, open: char, close: char, opener: Opener)
    requires (open == '[' && close == ']' && opener == Bracket) || (open == '(' && close == ')' && opener == Paren)
    requires Around(text, lead, ['\\', open], inner, ['\\', close], rest, |lead| + 2, |lead| + 2 + |inner|)
    requires Quiet(lead) && Plain(inner)
    ensures Spans(text) != [] && Spans(text)[0] == Span(|lead|, |lead| + 2 + |inner| + 2)
  {
    hide *;
    var at, from, last := |lead|, |lead| + 2, |lead| + 2 + |inner|;
    AroundEnds(text, lead, ['\\', open], inner, ['\\', close], rest, from, last);
    AroundQuiet(text, lead, ['\\', open], inner, ['\\', close], rest, from, last);
    BackslashOpens(text, at, open, opener);
    BackslashCloses(text, from, last, close, opener);
    FirstFormula(text, at, opener, last + 2);
  }

  /** The signs at the ends of the formula. */
  lemma AroundEnds(text: string, lead: string, open: string, inner: string, close: string, rest: string, from: nat, last: nat)
    requires Around(text, lead, open, inner, close, rest, from, last)
    ensures |lead| + |open| == from && from + |inner| == last && last + |close| <= |text|
    ensures open != [] ==> text[|lead|] == open[0] && text[from - 1] == open[|open| - 1]
    ensures close != [] ==> text[last] == close[0] && text[last + |close| - 1] == close[|close| - 1]
  {
    assert open != [] ==> text[|lead| + 0] == open[0] && text[|lead| + (|open| - 1)] == open[|open| - 1];
    assert close != [] ==> text[last + 0] == close[0] && text[last + (|close| - 1)] == close[|close| - 1];
  }

  lemma AroundParts(text: string, lead: string, open: string, inner: string, close: string, rest: string, from: nat, last: nat)
    requires Around(text, lead, open, inner, close, rest, from, last)
    ensures |lead| + |open| <= |text| && forall k | 0 <= k < |open| :: text[|lead| + k] == open[k]
    ensures last + |close| <= |text| && forall k | 0 <= k < |close| :: text[last + k] == close[k]
  {
  }

  lemma AroundLength(text: string, lead: string, open: string, inner: string, close: string, rest: string, from: nat, last: nat)
    requires Around(text, lead, open, inner, close, rest, from, last)
    ensures last == |lead| + |open| + |inner| && |text| == last + |close| + |rest|
  {
  }

  lemma BackslashOpens(text: string, at: nat, open: char, opener: Opener)
    requires at + 2 <= |text| && text[at] == '\\' && text[at + 1] == open
    requires (open == '[' && opener == Bracket) || (open == '(' && opener == Paren)
    ensures OpenerAt(text, at) == Some(opener)
  {
    DiffersAt(text, at, "$$", 0);
    if opener == Bracket {
      TwoAreRead(text, at, "\\[");
    } else {
      DiffersAt(text, at, "\\[", 1);
      TwoAreRead(text, at, "\\(");
    }
    hide Reads;
  }

  lemma BackslashCloses(text: string, from: nat, last: nat, close: char, opener: Opener)
    requires 2 <= from <= last && last + 2 <= |text| && text[last] == '\\' && text[last + 1] == close && text[from - 1] != '\\'
    requires (close == ']' && opener == Bracket) || (close == ')' && opener == Paren)
    requires forall k | from <= k < last :: !Signal(text[k])
    ensures SpanEnd(text, from - 2, opener) == Some(last + 2)
  {
    var token := ['\\', close];
    forall k: nat | from <= k < last ensures !Reads(text, k, token) {
      NoSignalIsRead(text, k, token);
    }
    assert text[last - 1] != '\\';
    NotEscaped(text, last);
    TwoAreRead(text, last, token);
    hide Reads, Escaped;
    ClosingAt(text, token, from, last);
  }

  lemma TwoAreRead(text: string, at: nat, token: string)
    requires at + 2 <= |text| && |token| == 2 && Fold(text[at]) == token[0] && Fold(text[at + 1]) == token[1]
    ensures Reads(text, at, token)
  {
  }

  /** `$$ ... $$` is a formula. */
  lemma Dollars(lead: string, inner: string, rest: string)
    requires Quiet(lead) && Plain(inner)
    ensures var text := lead + "$$" + inner + "$$" + rest;
            Spans(text) != [] && Spans(text)[0] == Span(|lead|, |lead| + 2 + |inner| + 2)
  {
    hide *;
    PutTogether(lead, "$$", inner, "$$", rest);
    DollarPair(lead + "$$" + inner + "$$" + rest, lead, inner, rest);
  }

  lemma DollarPair(text: string, lead: string, inner: string, rest: string)
    requires Around(text, lead, "$$", inner, "$$", rest, |lead| + 2, |lead| + 2 + |inner|) && Quiet(lead) && Plain(inner)
    ensures Spans(text) != [] && Spans(text)[0] == Span(|lead|, |lead| + 2 + |inner| + 2)
  {
    hide *;
    var at, from, last := |lead|, |lead| + 2, |lead| + 2 + |inner|;
    AroundEnds(text, lead, "$$", inner, "$$", rest, from, last);
    AroundQuiet(text, lead, "$$", inner, "$$", rest, from, last);
    DollarsOpen(text, at);
    DollarsClose(text, from, last);
    FirstFormula(text, at, Display, last + 2);
  }

  lemma DollarsOpen(text: string, at: nat)
    requires at + 2 <= |text| && text[at] == text[at + 1] == '$'
    ensures OpenerAt(text, at) == Some(Display)
  {
    TwoAreRead(text, at, "$$");
    hide Reads;
  }

  lemma DollarsClose(text: string, from: nat, last: nat)
    requires 2 <= from <= last && last + 2 <= |text| && text[last] == text[last + 1] == '$' && text[from - 1] != '\\'
    requires forall k | from <= k < last :: !Signal(text[k])
    ensures SpanEnd(text, from - 2, Display) == Some(last + 2)
  {
    forall k: nat | from <= k < last ensures !Reads(text, k, "$$") {
      NoSignalIsRead(text, k, "$$");
    }
    assert text[last - 1] != '\\';
    NotEscaped(text, last);
    TwoAreRead(text, last, "$$");
    hide Reads, Escaped;
    ClosingAt(text, "$$", from, last);
  }

  /** `$ ... $` with something between on one line is a formula. */
  lemma OneLine(lead: string, inner: string, rest: string)
    requires Quiet(lead) && Plain(inner) && inner != ""
    ensures var text := lead + "$" + inner + "$" + rest;
            Spans(text) != [] && Spans(text)[0] == Span(|lead|, |lead| + 1 + |inner| + 1)
  {
    hide *;
    PutTogether(lead, "$", inner, "$", rest);
    LineOfMath(lead + "$" + inner + "$" + rest, lead, inner, rest);
  }

  lemma OneIsRead(text: string, at: nat, token: string)
    requires at < |text| && |token| == 1 && Fold(text[at]) == token[0]
    ensures Reads(text, at, token)
  {
  }

  /** A dollar sign on its own opens a formula of one line. */
  lemma DollarOpens(text: string, at: nat)
    requires at < |text| && text[at] == '$' && (at > 0 ==> text[at - 1] != '$') && (at + 1 < |text| ==> text[at + 1] != '$')
    ensures OpenerAt(text, at) == Some(Inline)
  {
    OneIsRead(text, at, "$");
    DiffersAt(text, at, "$$", 1);
    DiffersAt(text, at, "\\[", 0);
    DiffersAt(text, at, "\\(", 0);
    DiffersAt(text, at, "[MATH:", 0);
    DiffersAt(text, at, "[MATH]", 0);
    hide Reads;
  }

  lemma LineOfMath(text: string, lead: string, inner: string, rest: string)
    requires Around(text, lead, "$", inner, "$", rest, |lead| + 1, |lead| + 1 + |inner|)
    requires Quiet(lead) && Plain(inner) && inner != ""
    ensures Spans(text) != [] && Spans(text)[0] == Span(|lead|, |lead| + 1 + |inner| + 1)
  {
    hide *;
    var at, from, last := |lead|, |lead| + 1, |lead| + 1 + |inner|;
    AroundEnds(text, lead, "$", inner, "$", rest, from, last);
    AroundQuiet(text, lead, "$", inner, "$", rest, from, last);
    InnerNotEmpty(inner);
    if at > 0 {
      SignalIsBackslash(text[at - 1]);
    }
    SignalIsBackslash(text[from]);
    DollarOpens(text, at);
    LineCloses(text, from, last);
    FirstFormula(text, at, Inline, last + 1);
  }

  lemma InnerNotEmpty(inner: string)
    requires inner != ""
    ensures |inner| > 0
  {
  }

  lemma LineCloses(text: string, from: nat, last: nat)
    requires 1 <= from < last < |text| && text[last] == '$'
    requires forall k | from <= k < last :: !Signal(text[k]) && text[k] != '\n'
    ensures SpanEnd(text, from - 1, Inline) == Some(last + 1)
  {
    forall k: nat | from <= k < last ensures !Reads(text, k, "$") {
      NoSignalIsRead(text, k, "$");
    }
    OneIsRead(text, last, "$");
    assert !Signal(text[last - 1]);
    NotEscaped(text, last);
    hide Escaped, Reads;
    ClosingAt(text, "$", from, last);
    NoFeedWithin(text, from, last + 1);
  }

  lemma NoFeedWithin(text: string, from: nat, stop: nat)
    requires from <= stop <= |text| && forall k | from <= k < stop :: text[k] != '\n'
    ensures '\n' !in text[from..stop]
  {
  }

  /** A dollar sign whose next is on another line, or nowhere, opens nothing. */
  lemma LoneDollarOpensNothing(lead: string, inner: string, rest: string)
    requires Quiet(lead) && Plain(inner) && (rest == "" || rest[0] == '\n')
    ensures forall s | s in Spans(lead + "$" + inner + rest) :: s.start != |lead|
  {
    hide *;
    var text := lead + "$" + inner + rest;
    PutTogether(lead, "$", inner, rest, "");
    assert lead + "$" + inner + rest + "" == text;
    LoneDollarIn(text, lead, inner, rest);
  }

  lemma LoneDollarIn(text: string, lead: string, inner: string, rest: string)
    requires Around(text, lead, "$", inner, rest, "", |lead| + 1, |lead| + 1 + |inner|)
    requires Quiet(lead) && Plain(inner) && (rest == "" || rest[0] == '\n')
    ensures forall s | s in Spans(text) :: s.start != |lead|
  {
    hide *;
    var at, from, last := |lead|, |lead| + 1, |lead| + 1 + |inner|;
    AroundEnds(text, lead, "$", inner, rest, "", from, last);
    AroundQuiet(text, lead, "$", inner, rest, "", from, last);
    AroundLength(text, lead, "$", inner, rest, "", from, last);
    BrokenDollar(text, at, from, last);
    QuietIsPassed(text, 0, at);
    PassedOver(text, at);
  }

  lemma PassedOver(text: string, at: nat)
    requires at < |text| && Scan(text, 0, 0, |text|) == Scan(text, at, 0, |text|) && MoveAt(text, at, 0) == Move(at + 1, None)
    ensures forall s | s in Spans(text) :: s.start != at
  {
    hide OpenerAt, Escaped, SpanEnd, Scan, MoveAt;
    ScanParts(text, at, 0, |text|);
    ScanIsOrdered(text, at + 1, 0, |text|);
  }

  lemma BrokenDollar(text: string, at: nat, from: nat, last: nat)
    requires from == at + 1 && from <= last <= |text| && text[at] == '$' && (last < |text| ==> text[last] == '\n')
    requires at > 0 ==> !Signal(text[at - 1])
    requires forall k | from <= k < last :: !Signal(text[k])
    ensures MoveAt(text, at, 0) == Move(at + 1, None)
  {
    hide *;
    if at > 0 {
      SignalIsBackslash(text[at - 1]);
    }
    NotAtFeed(text, from, last);
    DollarOpens(text, at);
    NeverOnLine(text, at, last);
    NothingOpened(text, at, Inline);
  }

  lemma NotAtFeed(text: string, from: nat, last: nat)
    requires from <= last <= |text| && (last < |text| ==> text[last] == '\n')
    requires forall k | from <= k < last :: !Signal(text[k])
    ensures from < |text| ==> text[from] != '$'
    ensures forall k: nat | from <= k <= last :: !Reads(text, k, "$")
  {
    forall k: nat | from <= k <= last ensures !Reads(text, k, "$") {
      NoSignalIsRead(text, k, "$");
    }
  }

  lemma NeverOnLine(text: string, at: nat, last: nat)
    requires at < last <= |text| && (last < |text| ==> text[last] == '\n')
    requires forall k: nat | at + 1 <= k <= last :: !Reads(text, k, "$")
    ensures SpanEnd(text, at, Inline) == None
  {
    hide Closing, Reads, Escaped;
    NotBefore(text, "$", at + 1, last);
    var close := Closing(text, "$", at + 1);
    if close.Some? {
      assert text[at + 1..close.value][last - at - 1] == text[last];
    }
  }

  lemma NothingOpened(text: string, at: nat, opener: Opener)
    requires at < |text| && OpenerAt(text, at) == Some(opener) && SpanEnd(text, at, opener) == None && opener == Inline
    ensures MoveAt(text, at, 0) == Move(at + 1, None)
  {
    hide OpenerAt, SpanEnd, Escaped;
  }

  lemma {:induction false} NotBefore(text: string, token: string, from: nat, last: nat)
    requires token != [] && from <= last <= |text| && forall k: nat | from <= k <= last :: !Reads(text, k, token)
    ensures Closing(text, token, from).Some? ==> last + 1 + |token| <= Closing(text, token, from).value <= |text|
    decreases last - from
  {
    hide Reads, Escaped;
    if from < last {
      NotBefore(text, token, from + 1, last);
    }
  }

  /** The letter in the other case, if it is a capital. */
  function Lower(c: char): char
  {
    if 'A' <= c <= 'Z' then c - 'A' + 'a' else c
  }

  /** The text spells the word, which is in small letters, in either case. */
  ghost predicate Spells(text: string, word: string)
  {
    |text| == |word| && forall k | 0 <= k < |word| :: Lower(text[k]) == word[k]
  }

  /** `[MATH] ... [/MATH]` in either case is a formula. */
  lemma Tags(lead: string, open: string, inner: string, close: string, rest: string)
    requires Quiet(lead) && Plain(inner) && Spells(open, "[math]") && Spells(close, "[/math]")
    ensures var text := lead + open + inner + close + rest;
            Spans(text) != [] && Spans(text)[0] == Span(|lead|, |lead| + 6 + |inner| + 7)
  {
    SpelledLength(open, "[math]");
    SpelledLength(close, "[/math]");
    hide *;
    PutTogether(lead, open, inner, close, rest);
    TagPair(lead + open + inner + close + rest, lead, open, inner, close, rest);
  }

  lemma SpelledLength(text: string, word: string)
    requires Spells(text, word)
    ensures |text| == |word|
  {
  }

  lemma SpelledIsRead(text: string, at: nat, part: string, word: string, capitals: string)
    requires at + |part| <= |text| && (forall k | 0 <= k < |part| :: text[at + k] == part[k]) && Spells(part, word)
    requires (word == "[math]" && capitals == "[MATH]") || (word == "[/math]" && capitals == "[/MATH]")
          || (word == "[math:" && capitals == "[MATH:")
    ensures Reads(text, at, capitals)
  {
    forall k | 0 <= k < |capitals| ensures Fold(text[at + k]) == capitals[k] {
      assert Lower(part[k]) == word[k];
    }
  }

  lemma TagPair(text: string, lead: string, open: string, inner: string, close: string, rest: string)
    requires |open| == 6 && |close| == 7 && Spells(open, "[math]") && Spells(close, "[/math]")
    requires Around(text, lead, open, inner, close, rest, |lead| + 6, |lead| + 6 + |inner|) && Quiet(lead) && Plain(inner)
    ensures Spans(text) != [] && Spans(text)[0] == Span(|lead|, |lead| + 6 + |inner| + 7)
  {
    hide *;
    var at, from, last := |lead|, |lead| + 6, |lead| + 6 + |inner|;
    AroundQuiet(text, lead, open, inner, close, rest, from, last);
    AroundParts(text, lead, open, inner, close, rest, from, last);
    SpelledIsRead(text, at, open, "[math]", "[MATH]");
    SpelledIsRead(text, last, close, "[/math]", "[/MATH]");
    TagOpens(text, at);
    TagCloses(text, from, last);
    FirstFormula(text, at, Tag, last + 7);
  }

  lemma TagOpens(text: string, at: nat)
    requires Reads(text, at, "[MATH]")
    ensures OpenerAt(text, at) == Some(Tag)
  {
    ReadsThere(text, at, "[MATH]", 0);
    ReadsThere(text, at, "[MATH]", 5);
    DiffersAt(text, at, "$$", 0);
    DiffersAt(text, at, "\\[", 0);
    DiffersAt(text, at, "\\(", 0);
    DiffersAt(text, at, "[MATH:", 5);
    hide Reads;
  }

  lemma TagCloses(text: string, from: nat, last: nat)
    requires 6 <= from <= last <= |text| && Reads(text, last, "[/MATH]") && forall k | from <= k < last :: !Signal(text[k])
    ensures SpanEnd(text, from - 6, Tag) == Some(last + 7)
  {
    forall k: nat | from <= k < last ensures !Reads(text, k, "[/MATH]") {
      NoSignalIsRead(text, k, "[/MATH]");
    }
    hide Reads;
    FoundAt(text, "[/MATH]", from, last);
  }

  /** `[MATH: ... ]` in either case is a formula. */
  lemma Markers(lead: string, open: string, inner: string, rest: string)
    requires Quiet(lead) && Plain(inner) && Spells(open, "[math:")
    ensures var text := lead + open + inner + "]" + rest;
            Spans(text) != [] && Spans(text)[0] == Span(|lead|, |lead| + 6 + |inner| + 1)
  {
    SpelledLength(open, "[math:");
    hide *;
    PutTogether(lead, open, inner, "]", rest);
    MarkerPair(lead + open + inner + "]" + rest, lead, open, inner, rest);
  }

  lemma MarkerPair(text: string, lead: string, open: string, inner: string, rest: string)
    requires |open| == 6 && Spells(open, "[math:")
    requires Around(text, lead, open, inner, "]", rest, |lead| + 6, |lead| + 6 + |inner|) && Quiet(lead) && Plain(inner)
    ensures Spans(text) != [] && Spans(text)[0] == Span(|lead|, |lead| + 6 + |inner| + 1)
  {
    hide *;
    var at, from, last := |lead|, |lead| + 6, |lead| + 6 + |inner|;
    AroundEnds(text, lead, open, inner, "]", rest, from, last);
    AroundQuiet(text, lead, open, inner, "]", rest, from, last);
    AroundParts(text, lead, open, inner, "]", rest, from, last);
    SpelledIsRead(text, at, open, "[math:", "[MATH:");
    WordIsQuiet(text, at, open);
    MarkerOpens(text, at);
    MarkerCloses(text, at, last);
    FirstFormula(text, at, Marker, last + 1);
  }

  lemma WordIsQuiet(text: string, at: nat, open: string)
    requires |open| == 6 && at + 6 <= |text| && (forall k | 0 <= k < |open| :: text[at + k] == open[k]) && Spells(open, "[math:")
    ensures text[at] != '\\' && forall k | at + 1 <= k < at + 6 :: text[k] != '[' && text[k] != ']' && text[k] != '\\'
  {
    forall k | 0 <= k < 6 ensures Lower(text[at + k]) == "[math:"[k] {
      assert text[at + k] == open[k];
    }
    forall k | at + 1 <= k < at + 6 ensures text[k] != '[' && text[k] != ']' && text[k] != '\\' {
      assert Lower(text[at + (k - at)]) == "[math:"[k - at];
    }
    assert Lower(text[at + 0]) == "[math:"[0];
  }

  lemma MarkerOpens(text: string, at: nat)
    requires Reads(text, at, "[MATH:")
    ensures OpenerAt(text, at) == Some(Marker)
  {
    ReadsThere(text, at, "[MATH:", 0);
    DiffersAt(text, at, "$$", 0);
    DiffersAt(text, at, "\\[", 0);
    DiffersAt(text, at, "\\(", 0);
    hide Reads;
  }

  lemma MarkerCloses(text: string, at: nat, last: nat)
    requires at + 6 <= last < |text| && text[last] == ']' && text[at] != '\\'
    requires forall k | at + 1 <= k < at + 6 :: text[k] != '[' && text[k] != ']' && text[k] != '\\'
    requires forall k | at + 6 <= k < last :: !Signal(text[k]) && text[k] != ']'
    ensures SpanEnd(text, at, Marker) == Some(last + 1)
  {
    hide Balanced;
    BalancedAt(text, at + 1, last);
  }

  lemma {:induction false} BalancedAt(text: string, from: nat, last: nat)
    requires 0 < from <= last < |text| && text[last] == ']' && text[from - 1] != '\\'
    requires forall k | from <= k < last :: text[k] != '[' && text[k] != ']' && text[k] != '\\'
    ensures Balanced(text, from, 1) == Some(last + 1)
    decreases last - from
  {
    NotEscaped(text, from);
    if from < last {
      BalancedAt(text, from + 1, last);
    }
  }

  /** A formula that is opened and never closed reaches to the end of the text. */
  lemma Unclosed(lead: string, open: string, inner: string)
    requires Quiet(lead) && Plain(inner) && (open == "\\[" || open == "\\(" || open == "$$")
    ensures var text := lead + open + inner;
            Spans(text) != [] && Spans(text)[0] == Span(|lead|, |text|)
  {
    hide *;
    var text := lead + open + inner;
    PutTogether(lead, open, inner, "", "");
    assert lead + open + inner + "" + "" == text;
    OpenedForEver(text, lead, open, inner);
  }

  lemma OpenedForEver(text: string, lead: string, open: string, inner: string)
    requires open == "\\[" || open == "\\(" || open == "$$"
    requires Around(text, lead, open, inner, "", "", |lead| + 2, |lead| + 2 + |inner|) && Quiet(lead) && Plain(inner)
    ensures Spans(text) != [] && Spans(text)[0] == Span(|lead|, |text|)
  {
    hide *;
    var at, from := |lead|, |lead| + 2;
    var last := |lead| + 2 + |inner|;
    AroundLength(text, lead, open, inner, "", "", from, last);
    AroundEnds(text, lead, open, inner, "", "", from, last);
    assert |open| == 2;
    AroundQuiet(text, lead, open, inner, "", "", from, last);
    if open == "$$" {
      DollarsOpen(text, at);
      NothingCloses(text, from, Display, "$$");
      FirstFormula(text, at, Display, |text|);
    } else if open == "\\[" {
      BackslashOpens(text, at, '[', Bracket);
      NothingCloses(text, from, Bracket, "\\]");
      FirstFormula(text, at, Bracket, |text|);
    } else {
      BackslashOpens(text, at, '(', Paren);
      NothingCloses(text, from, Paren, "\\)");
      FirstFormula(text, at, Paren, |text|);
    }
  }

  lemma NothingCloses(text: string, from: nat, opener: Opener, token: string)
    requires (opener == Display && token == "$$") || (opener == Bracket && token == "\\]") || (opener == Paren && token == "\\)")
    requires 2 <= from <= |text| && forall k | from <= k < |text| :: !Signal(text[k])
    ensures from - 2 < |text| && SpanEnd(text, from - 2, opener) == Some(|text|)
  {
    forall k: nat | from <= k ensures !Reads(text, k, token) {
      NoSignalIsRead(text, k, token);
    }
    hide Reads;
    NeverClosing(text, token, from);
  }

  /* ---- what opens a formula ---- */

  /** The text has these signs from the place on, the letters in either case. */
  ghost predicate Has(text: string, i: nat, word: string)
  {
    i + |word| <= |text| && forall k | 0 <= k < |word| :: Lower(text[i + k]) == word[k]
  }

  /** The signs of each opening; a dollar sign is one only if no other stands beside it. */
  ghost predicate Begins(text: string, i: nat, opener: Opener)
  {
    match opener
    case Display => Has(text, i, "$$")
    case Bracket => Has(text, i, "\\[")
    case Paren => Has(text, i, "\\(")
    case Marker => Has(text, i, "[math:")
    case Tag => Has(text, i, "[math]")
    case Inline => Has(text, i, "$") && !(i > 0 && text[i - 1] == '$') && !(i + 1 < |text| && text[i + 1] == '$')
  }

  /** The capital of a letter, and any other sign itself. */
  predicate Capitals(word: string, capitals: string)
  {
    |word| == |capitals| && forall k | 0 <= k < |word| :: Fold(word[k]) == capitals[k] && Lower(capitals[k]) == word[k]
  }

  lemma HasIsRead(text: string, i: nat, word: string, capitals: string)
    requires Capitals(word, capitals)
    ensures Has(text, i, word) <==> Reads(text, i, capitals)
  {
    if i + |word| <= |text| {
      forall k | 0 <= k < |word| ensures Lower(text[i + k]) == word[k] <==> Fold(text[i + k]) == capitals[k] {
        CaseIsOne(text[i + k], word[k], capitals[k]);
      }
    }
  }

  lemma CaseIsOne(c: char, small: char, capital: char)
    requires Fold(small) == capital && Lower(capital) == small
    ensures Lower(c) == small <==> Fold(c) == capital
  {
  }

  lemma OpeningsAre()
    ensures Capitals("$$", Token(Display)) && Capitals("\\[", Token(Bracket)) && Capitals("\\(", Token(Paren))
    ensures Capitals("[math:", Token(Marker)) && Capitals("[math]", Token(Tag)) && Capitals("$", Token(Inline))
  {
  }

  /** Exactly these signs open a formula. */
  lemma OpenerIs(text: string, i: nat, opener: Opener)
    requires i < |text|
    ensures OpenerAt(text, i) == Some(opener) <==> Begins(text, i, opener)
  {
    OpeningsAre();
    HasIsRead(text, i, "$$", Token(Display));
    HasIsRead(text, i, "\\[", Token(Bracket));
    HasIsRead(text, i, "\\(", Token(Paren));
    HasIsRead(text, i, "[math:", Token(Marker));
    HasIsRead(text, i, "[math]", Token(Tag));
    HasIsRead(text, i, "$", Token(Inline));
    OneOpening(text, i);
    hide Has, Reads, Token, Capitals;
  }

  lemma OneOpening(text: string, i: nat)
    requires i < |text|
    ensures Has(text, i, "$$") ==> i + 1 < |text| && text[i + 1] == '$'
    ensures Has(text, i, "$$") || Has(text, i, "$") ==> text[i] == '$'
    ensures Has(text, i, "\\[") ==> text[i] == '\\' && i + 1 < |text| && text[i + 1] == '['
    ensures Has(text, i, "\\(") ==> text[i] == '\\' && i + 1 < |text| && text[i + 1] == '('
    ensures Has(text, i, "[math:") ==> text[i] == '[' && i + 5 < |text| && text[i + 5] == ':'
    ensures Has(text, i, "[math]") ==> text[i] == '[' && i + 5 < |text| && text[i + 5] == ']'
  {
    FirstSigns(text, i, "$$", 0);
    FirstSigns(text, i, "$$", 1);
    FirstSigns(text, i, "$", 0);
    FirstSigns(text, i, "\\[", 0);
    FirstSigns(text, i, "\\[", 1);
    FirstSigns(text, i, "\\(", 0);
    FirstSigns(text, i, "\\(", 1);
    FirstSigns(text, i, "[math:", 0);
    FirstSigns(text, i, "[math:", 5);
    FirstSigns(text, i, "[math]", 0);
    FirstSigns(text, i, "[math]", 5);
    hide Has;
  }

  lemma FirstSigns(text: string, i: nat, word: string, k: nat)
    requires i < |text| && k < |word| && !('a' <= word[k] <= 'z')
    ensures Has(text, i, word) ==> i + k < |text| && text[i + k] == word[k]
  {
  }

  /* ---- escapes ---- */

  /** After a run of backslashes a character is escaped exactly if the run is odd. */
  lemma {:induction false} EscapedIsOdd(text: string, from: nat, at: nat)
    requires from <= at <= |text| && (from > 0 ==> text[from - 1] != '\\')
    requires forall k | from <= k < at :: text[k] == '\\'
    ensures Escaped(text, at) <==> (at - from) % 2 == 1
    decreases at - from
  {
    if from < at {
      EscapedIsOdd(text, from, at - 1);
    }
  }

  /** A formula whose opening is escaped does not open. */
  lemma EscapedOpensNothing(text: string, at: nat, end: nat)
    requires at < |text| && Escaped(text, at)
    ensures MoveAt(text, at, end).span.None?
  {
    hide OpenerAt, SpanEnd, Escaped;
  }
}
