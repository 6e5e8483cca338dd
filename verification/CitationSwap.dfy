/**
 Replacing one bracketed list of identifiers by another moves no text into or out of the literal
 parts of an answer.
 */
module CitationSwap {
  import opened Basics
  import opened MarkdownLines
  import opened CitationShields
  import M = MathSpans

  /** Characters that open, close, escape or break nothing. */
  predicate Quiet(c: char)
  {
    && c != '[' && c != ']' && c != '\\' && c != '$' && c != '`' && c != '~' && c != '/' && c != 'm' && c != 'M'
    && c != '\r' && c != '\n' && CloserOf(c).None? && !IsClosing(c)
  }

  /** Text `u` is text `t` with the bracket `t[s..e]` replaced by the bracket `u[s..f]`. */
  datatype Swap = Swap(t: string, u: string, s: nat, e: nat, f: nat)

  ghost predicate Bracket(text: string, s: nat, e: nat)
  {
    && s + 2 <= e <= |text| && text[s] == '[' && text[e - 1] == ']'
    && forall k | s < k < e - 1 :: Quiet(text[k])
  }

  ghost predicate Valid(x: Swap)
  {
    && Bracket(x.t, x.s, x.e) && Bracket(x.u, x.s, x.f) && |x.t| - x.e == |x.u| - x.f
    && x.t[..x.s] == x.u[..x.s] && x.t[x.e..] == x.u[x.f..]
  }

  type Exchange = x: Swap | Valid(x) ghost witness Swap("[]", "[]", 0, 2, 2)

  /** Positions outside the bracket, and where they go. */
  predicate Ok(x: Swap, p: nat)
  {
    p <= x.s || (x.e <= p <= |x.t|)
  }

  function At(x: Swap, p: nat): (q: nat)
    requires Ok(x, p)
  {
    if p <= x.s then p else p - x.e + x.f
  }

  ghost predicate Corresponds(x: Swap, a: Option<nat>, b: Option<nat>)
  {
    if a.None? then b.None? else b.Some? && Ok(x, a.value) && b.value == At(x, a.value)
  }

  /** What holds of the place `p` outside the bracket in both texts. */
  lemma Same(x: Exchange, p: nat)
    requires Ok(x, p)
    ensures At(x, p) <= |x.u| && (p < |x.t| <==> At(x, p) < |x.u|)
    ensures p < |x.t| ==> x.t[p] == x.u[At(x, p)]
    ensures p > 0 && p != x.e ==> Ok(x, p - 1) && At(x, p - 1) == At(x, p) - 1
    ensures p < |x.t| && p != x.s ==> Ok(x, p + 1) && At(x, p + 1) == At(x, p) + 1
    ensures p > 0 <==> At(x, p) > 0
    ensures p > 0 ==> x.t[p - 1] == x.u[At(x, p) - 1]
  {
    if p < x.s {
      assert x.t[..x.s][p] == x.u[..x.s][p];
    } else if x.e <= p < |x.t| {
      assert x.t[x.e..][p - x.e] == x.u[x.f..][p - x.e];
    }
    if 0 < p <= x.s {
      assert x.t[..x.s][p - 1] == x.u[..x.s][p - 1];
    } else if x.e < p {
      assert x.t[x.e..][p - 1 - x.e] == x.u[x.f..][p - 1 - x.e];
    }
  }

  lemma Brackets(x: Exchange)
    ensures Bracket(x.t, x.s, x.e) && Bracket(x.u, x.s, x.f)
    ensures Ok(x, x.s) && Ok(x, x.e) && At(x, x.s) == x.s && At(x, x.e) == x.f
  {
  }

  lemma Monotone(x: Exchange, p: nat, q: nat)
    requires Ok(x, p) && Ok(x, q)
    ensures p < q <==> At(x, p) < At(x, q)
    ensures p == q <==> At(x, p) == At(x, q)
  {
  }

  /* ---- formulas ---- */

  lemma {:induction false} EscapedSwap(x: Exchange, p: nat)
    requires Ok(x, p)
    ensures At(x, p) <= |x.u| && p <= |x.t| && M.Escaped(x.t, p) == M.Escaped(x.u, At(x, p))
  {
    Same(x, p);
    if p > 0 && p != x.e {
      EscapedSwap(x, p - 1);
    }
  }

  /** The tokens of formulas: none is spelled with quiet characters alone. */
  predicate Mark(token: string)
  {
    || token == "$"
    || token == "$$" || (|token| == 2 && token[0] == '\\')
    || (|token| > 2 && token[0] == '[' && (token[1] == 'M' || token[1] == '/') && '[' !in token[1..])
  }

  lemma TokensAreMarks(opener: M.Opener)
    ensures Mark(M.Token(opener)) && Mark(M.Closer(opener))
    ensures opener.Marker? || opener.Tag? <==> M.Token(opener)[0] == '['
  {
  }

  lemma QuietReads(text: string, s: nat, e: nat, p: nat, token: string)
    requires Bracket(text, s, e) && s <= p < e && Mark(token)
    ensures !M.Reads(text, p, token)
  {
    if p + |token| <= |text| {
      var k := if |token| > 2 && p == s then 1 else 0;
      assert M.Fold(text[p + k]) != token[k];
    }
  }

  lemma ReadsSlice(t: string, p: nat, u: string, q: nat, token: string)
    requires p + |token| <= |t| && q + |token| <= |u| && t[p..p + |token|] == u[q..q + |token|]
    ensures M.Reads(t, p, token) ==> M.Reads(u, q, token)
  {
    if M.Reads(t, p, token) {
      forall k | 0 <= k < |token| ensures M.Fold(u[q + k]) == token[k] {
        assert t[p..p + |token|][k] == u[q..q + |token|][k];
        assert M.Fold(t[p + k]) == token[k];
      }
    }
  }

  lemma SlicePrefix(text: string, a: nat, b: nat, c: nat)
    requires a <= b <= c <= |text|
    ensures text[a..b] == text[..c][a..b]
  {
  }

  /** A token that reaches into the bracket is the backslash that opens a formula with it. */
  lemma ReadsAcross(text: string, s: nat, e: nat, p: nat, token: string)
    requires Bracket(text, s, e) && p < s < p + |token| && Mark(token) && M.Reads(text, p, token)
    ensures token == "\\[" && p + 1 == s
  {
    assert M.Fold(text[p + (s - p)]) == token[s - p];
    assert token[1..][s - p - 1] == '[';
    assert token == [token[0], token[1]];
  }

  /** A token before the bracket ends before it, or with its first character. */
  lemma ReadsBefore(x: Exchange, p: nat, token: string)
    requires p < x.s && Mark(token)
    ensures M.Reads(x.t, p, token) <==> M.Reads(x.u, p, token)
    ensures M.Reads(x.t, p, token) ==> p + |token| <= x.s + (if token == "\\[" then 1 else 0)
  {
    hide M.Reads;
    var n := p + |token|;
    if n > x.s {
      if M.Reads(x.t, p, token) {
        ReadsAcross(x.t, x.s, x.e, p, token);
      }
      if M.Reads(x.u, p, token) {
        ReadsAcross(x.u, x.s, x.f, p, token);
      }
    }
    if n <= x.s + 1 {
      assert x.t[..x.s + 1] == x.t[..x.s] + ['['] && x.u[..x.s + 1] == x.u[..x.s] + ['['];
      SlicePrefix(x.t, p, n, x.s + 1);
      SlicePrefix(x.u, p, n, x.s + 1);
      ReadsSlice(x.t, p, x.u, p, token);
      ReadsSlice(x.u, p, x.t, p, token);
    }
  }

  lemma ReadsSwap(x: Exchange, p: nat, token: string)
    requires Ok(x, p) && Mark(token)
    ensures M.Reads(x.t, p, token) <==> M.Reads(x.u, At(x, p), token)
  {
    if p < x.s {
      ReadsBefore(x, p, token);
    } else if p == x.s {
      QuietReads(x.t, x.s, x.e, p, token);
      QuietReads(x.u, x.s, x.f, p, token);
    } else {
      var q := At(x, p);
      if p + |token| <= |x.t| {
        SliceAfter(x, p, p + |token|);
        ReadsSlice(x.t, p, x.u, q, token);
        ReadsSlice(x.u, q, x.t, p, token);
      }
    }
  }

  lemma DollarSwap(x: Exchange, p: nat)
    requires Ok(x, p)
    ensures M.LoneDollar(x.t, p) <==> M.LoneDollar(x.u, At(x, p))
  {
    var q := At(x, p);
    ReadsSwap(x, p, "$");
    Same(x, p);
    if p == x.s {
      QuietReads(x.t, x.s, x.e, p, "$");
    } else if p < |x.t| {
      Same(x, p + 1);
    }
    hide M.Reads;
  }

  lemma OpenerSwap(x: Exchange, p: nat)
    requires Ok(x, p)
    ensures M.OpenerAt(x.t, p) == M.OpenerAt(x.u, At(x, p))
  {
    hide M.Reads, M.LoneDollar, Valid, Ok, At, Mark;
    forall opener: M.Opener
      ensures M.Reads(x.t, p, M.Token(opener)) <==> M.Reads(x.u, At(x, p), M.Token(opener))
    {
      TokensAreMarks(opener);
      ReadsSwap(x, p, M.Token(opener));
    }
    DollarSwap(x, p);
  }

  lemma QuietOpener(text: string, s: nat, e: nat, p: nat)
    requires Bracket(text, s, e) && s <= p < e
    ensures M.OpenerAt(text, p).None?
  {
    hide M.Reads, Bracket, Mark;
    forall opener: M.Opener ensures !M.Reads(text, p, M.Token(opener)) {
      TokensAreMarks(opener);
      QuietReads(text, s, e, p, M.Token(opener));
    }
  }

  lemma {:induction false} ClosingSkips(text: string, token: string, i: nat, j: nat)
    requires token != [] && i <= j <= |text| && forall k | i <= k < j :: !M.Reads(text, k, token)
    ensures M.Closing(text, token, i) == M.Closing(text, token, j)
    decreases j - i
  {
    hide M.Reads;
    if i < j {
      M.ClosingBeyond(text, token, i);
      ClosingSkips(text, token, i + 1, j);
    }
  }

  lemma {:induction false} FoundSkips(text: string, token: string, i: nat, j: nat)
    requires token != [] && i <= j <= |text| && forall k | i <= k < j :: !M.Reads(text, k, token)
    ensures M.Found(text, token, i) == M.Found(text, token, j)
    decreases j - i
  {
    hide M.Reads;
    if i < j {
      M.FoundBeyond(text, token, i);
      FoundSkips(text, token, i + 1, j);
    }
  }

  lemma ClosingSkipsBracket(text: string, s: nat, e: nat, i: nat, token: string)
    requires Bracket(text, s, e) && s <= i <= e && Mark(token)
    ensures M.Closing(text, token, i) == M.Closing(text, token, e)
    ensures M.Found(text, token, i) == M.Found(text, token, e)
  {
    forall k: nat | i <= k < e ensures !M.Reads(text, k, token) {
      QuietReads(text, s, e, k, token);
    }
    hide M.Reads;
    ClosingSkips(text, token, i, e);
    FoundSkips(text, token, i, e);
  }

  /** A token found outside the bracket ends outside it. */
  lemma ReadsEnd(x: Exchange, p: nat, token: string)
    requires Ok(x, p) && Mark(token) && token != "\\[" && M.Reads(x.t, p, token)
    ensures p != x.s && p + |token| <= |x.t| && Ok(x, p + |token|) && At(x, p + |token|) == At(x, p) + |token|
  {
    if p < x.s {
      ReadsBefore(x, p, token);
    } else if p == x.s {
      QuietReads(x.t, x.s, x.e, p, token);
    }
  }

  lemma {:induction false} ClosingSwap(x: Exchange, token: string, i: nat)
    requires Ok(x, i) && Mark(token) && token != "\\["
    ensures Corresponds(x, M.Closing(x.t, token, i), M.Closing(x.u, token, At(x, i)))
    decreases |x.t| - i
  {
    hide *;
    MarkIsNotEmpty(token);
    Same(x, i);
    Brackets(x);
    ExchangeSizes(x, i);
    if i == x.s {
      ClosingSkipsBracket(x.t, x.s, x.e, i, token);
      ClosingSkipsBracket(x.u, x.s, x.f, i, token);
      ClosingSwap(x, token, x.e);
    } else if i < |x.t| {
      ReadsSwap(x, i, token);
      if M.Reads(x.t, i, token) {
        ReadsEnd(x, i, token);
        EscapedSwap(x, i);
        Same(x, i + |token|);
        ExchangeSizes(x, i + |token|);
        ClosingHere(x.t, token, i);
        ClosingHere(x.u, token, At(x, i));
        if M.Escaped(x.t, i) {
          ClosingSwap(x, token, i + |token|);
        } else {
          BothSome(x, i + |token|);
        }
      } else {
        M.ClosingBeyond(x.t, token, i);
        M.ClosingBeyond(x.u, token, At(x, i));
        ClosingSwap(x, token, i + 1);
      }
    } else {
      NoneClosing(x.t, token, i);
      NoneClosing(x.u, token, At(x, i));
      BothNone(x);
    }
  }

  lemma ExchangeSizes(x: Exchange, i: nat)
    requires Ok(x, i)
    ensures x.s < x.e <= |x.t| && i <= |x.t|
  {
  }

  lemma ClosingHere(text: string, token: string, i: nat)
    requires token != [] && M.Reads(text, i, token) && i + |token| <= |text|
    ensures M.Closing(text, token, i)
         == if M.Escaped(text, i) then M.Closing(text, token, i + |token|) else Some(i + |token|)
  {
    hide M.Escaped, M.Reads;
  }

  lemma NoneClosing(text: string, token: string, i: nat)
    requires i >= |text| && token != []
    ensures M.Closing(text, token, i) == None
  {
  }

  lemma MarkIsNotEmpty(token: string)
    requires Mark(token)
    ensures token != []
  {
  }

  lemma {:induction false} FoundSwap(x: Exchange, token: string, i: nat)
    requires Ok(x, i) && Mark(token) && token != "\\["
    ensures Corresponds(x, M.Found(x.t, token, i), M.Found(x.u, token, At(x, i)))
    decreases |x.t| - i
  {
    hide M.Reads, M.Escaped, Mark, Valid;
    assert token != [] by { MarkIsNotEmpty(token); }
    Same(x, i);
    Brackets(x);
    if i == x.s {
      ClosingSkipsBracket(x.t, x.s, x.e, i, token);
      ClosingSkipsBracket(x.u, x.s, x.f, i, token);
      FoundSwap(x, token, x.e);
    } else if i < |x.t| {
      ReadsSwap(x, i, token);
      if M.Reads(x.t, i, token) {
        ReadsEnd(x, i, token);
        assert At(x, i) + |token| <= |x.u| by { Same(x, i + |token|); }
      } else {
        M.FoundBeyond(x.t, token, i);
        M.FoundBeyond(x.u, token, At(x, i));
        FoundSwap(x, token, i + 1);
      }
    }
  }

  lemma {:induction false} BalancedQuiet(text: string, i: nat, j: nat, depth: nat)
    requires depth > 0 && i <= j <= |text| && forall k | i <= k < j :: Quiet(text[k])
    ensures M.Balanced(text, i, depth) == M.Balanced(text, j, depth)
    decreases j - i
  {
    if i < j {
      BalancedQuiet(text, i + 1, j, depth);
    }
  }

  /** A bracket in a formula adds one level and takes it away again. */
  lemma BalancedSkips(text: string, s: nat, e: nat, depth: nat)
    requires depth > 0 && Bracket(text, s, e)
    ensures M.Balanced(text, s, depth) ==
              if !M.Escaped(text, s) then M.Balanced(text, e, depth)
              else if depth == 1 then Some(e) else M.Balanced(text, e, depth - 1)
  {
    var inner := if M.Escaped(text, s) then depth else depth + 1;
    assert M.Balanced(text, s, depth) == M.Balanced(text, s + 1, inner);
    assert !M.Escaped(text, e - 1) by { assert text[e - 2] != '\\'; }
    assert M.Balanced(text, e - 1, inner) == if inner == 1 then Some(e) else M.Balanced(text, e, inner - 1);
    hide M.Balanced;
    BalancedQuiet(text, s + 1, e - 1, inner);
  }

  /** The depth after the character at `i`. */
  function Depth(text: string, i: nat, depth: nat): (d: nat)
    requires i < |text| && depth > 0
  {
    if M.Escaped(text, i) then depth
    else if text[i] == '[' then depth + 1
    else if text[i] == ']' then depth - 1
    else depth
  }

  lemma BalancedStep(text: string, i: nat, depth: nat)
    requires depth > 0
    ensures M.Balanced(text, i, depth) ==
              if i >= |text| then None
              else if Depth(text, i, depth) == 0 then Some(i + 1)
              else M.Balanced(text, i + 1, Depth(text, i, depth))
  {
    hide M.Escaped;
  }

  lemma DepthSwap(x: Exchange, i: nat, depth: nat)
    requires Ok(x, i) && depth > 0 && i < |x.t| && At(x, i) < |x.u|
    ensures Depth(x.t, i, depth) == Depth(x.u, At(x, i), depth)
  {
    Same(x, i);
    EscapedSwap(x, i);
    hide Valid, M.Escaped;
  }

  lemma {:induction false} BalancedSwap(x: Exchange, i: nat, depth: nat)
    requires Ok(x, i) && depth > 0
    ensures Corresponds(x, M.Balanced(x.t, i, depth), M.Balanced(x.u, At(x, i), depth))
    decreases |x.t| - i
  {
    Brackets(x);
    Same(x, i);
    if i == x.s {
      EscapedSwap(x, i);
      BalancedSkips(x.t, x.s, x.e, depth);
      BalancedSkips(x.u, x.s, x.f, depth);
      BothSome(x, x.e);
      hide M.Balanced, Bracket, Corresponds, Valid, M.Escaped, Ok, At;
      BalancedSwap(x, x.e, depth);
      if depth > 1 {
        BalancedSwap(x, x.e, depth - 1);
      }
    } else {
      hide M.Balanced, Bracket, Corresponds, Valid, M.Escaped, Depth, Ok, At;
      BalancedStep(x.t, i, depth);
      BalancedStep(x.u, At(x, i), depth);
      if i < |x.t| {
        DepthSwap(x, i, depth);
        if Depth(x.t, i, depth) == 0 {
          BothSome(x, i + 1);
        } else {
          BalancedSwap(x, i + 1, Depth(x.t, i, depth));
        }
      } else {
        BothNone(x);
      }
    }
  }

  lemma CloseSwap(x: Exchange, p: nat, opener: M.Opener)
    requires Ok(x, p) && M.Reads(x.t, p, M.Token(opener))
    ensures Corresponds(x, M.CloseOf(x.t, p, opener), M.CloseOf(x.u, At(x, p), opener))
  {
    hide *;
    var token, closer := M.Token(opener), M.Closer(opener);
    TokensAreMarks(opener);
    CloserIsNoBracket(opener);
    CloseUnfold(x.t, p, opener);
    CloseUnfold(x.u, At(x, p), opener);
    Brackets(x);
    Same(x, p);
    if p == x.s {
      QuietReads(x.t, x.s, x.e, p, token);
    } else if opener == M.Bracket && p < x.s < p + 2 {
      CloseAcross(x, p, closer);
    } else {
      StepOver(x, p, token);
      match opener
      case Marker => BalancedSwap(x, p + 1, 1);
      case Tag => FoundSwap(x, closer, p + |token|);
      case _ => ClosingSwap(x, closer, p + |token|);
    }
  }

  lemma CloseUnfold(text: string, i: nat, opener: M.Opener)
    ensures M.CloseOf(text, i, opener) ==
            match opener
            case Marker => M.Balanced(text, i + 1, 1)
            case Tag => M.Found(text, M.Closer(opener), i + |M.Token(opener)|)
            case _ => M.Closing(text, M.Closer(opener), i + |M.Token(opener)|)
  {
    hide M.Balanced, M.Found, M.Closing;
  }

  lemma CloserIsNoBracket(opener: M.Opener)
    ensures M.Closer(opener) != "\\["
    ensures M.Token(opener) == "\\[" <==> opener == M.Bracket
    ensures opener == M.Bracket ==> |M.Token(opener)| == 2
  {
  }

  /** An opening backslash just before the bracket: the search for the closer skips the bracket. */
  lemma CloseAcross(x: Exchange, p: nat, closer: string)
    requires p < x.s < p + 2 && Mark(closer) && closer != "\\["
    ensures Ok(x, p) && At(x, p) == p
    ensures Corresponds(x, M.Closing(x.t, closer, p + 2), M.Closing(x.u, closer, p + 2))
  {
    hide *;
    Before(x, p);
    Before(x, x.s);
    Brackets(x);
    ExchangeSizes(x, x.s);
    BracketSizes(x.t, x.s, x.e);
    BracketSizes(x.u, x.s, x.f);
    ClosingSkipsBracket(x.t, x.s, x.e, p + 2, closer);
    ClosingSkipsBracket(x.u, x.s, x.f, p + 2, closer);
    ClosingSwap(x, closer, x.e);
  }

  lemma Before(x: Exchange, p: nat)
    requires p <= x.s
    ensures Ok(x, p) && At(x, p) == p
  {
  }

  lemma BracketSizes(text: string, s: nat, e: nat)
    requires Bracket(text, s, e)
    ensures s + 2 <= e <= |text|
  {
  }

  lemma StepOver(x: Exchange, p: nat, token: string)
    requires Ok(x, p) && p != x.s && Mark(token) && M.Reads(x.t, p, token)
    requires !(token == "\\[" && p < x.s < p + 2)
    ensures p + |token| <= |x.t| && Ok(x, p + |token|) && At(x, p + |token|) == At(x, p) + |token|
    ensures Ok(x, p + 1) && At(x, p + 1) == At(x, p) + 1
  {
    if p < x.s {
      ReadsBefore(x, p, token);
    }
  }

  ghost predicate HasNewline(text: string, p: nat, q: nat)
  {
    exists k | p <= k < q && k < |text| :: text[k] == '\n'
  }

  lemma NewlineIn(text: string, p: nat, q: nat)
    requires p <= q <= |text|
    ensures '\n' in text[p..q] <==> HasNewline(text, p, q)
  {
    if '\n' in text[p..q] {
      var k :| 0 <= k < |text[p..q]| && text[p..q][k] == '\n';
      assert text[p + k] == '\n';
    }
    if HasNewline(text, p, q) {
      var k :| p <= k < q && text[k] == '\n';
      assert text[p..q][k - p] == '\n';
    }
  }

  lemma NewlineForth(x: Exchange, p: nat, q: nat)
    requires Ok(x, p) && Ok(x, q) && HasNewline(x.t, p, q)
    ensures HasNewline(x.u, At(x, p), At(x, q))
  {
    var k: nat :| p <= k < q && k < |x.t| && x.t[k] == '\n';
    assert Ok(x, k);
    hide Valid, Ok, At;
    Same(x, k);
    Monotone(x, k, p);
    Monotone(x, k, q);
  }

  /** Undoing the replacement. */
  function Undo(x: Swap): (y: Swap)
  {
    Swap(x.u, x.t, x.s, x.f, x.e)
  }

  lemma UndoIsValid(x: Exchange, p: nat)
    requires Ok(x, p)
    ensures Valid(Undo(x)) && Ok(Undo(x), At(x, p)) && At(Undo(x), At(x, p)) == p
  {
  }

  lemma NewlineSwap(x: Exchange, p: nat, q: nat)
    requires Ok(x, p) && Ok(x, q) && p <= q
    ensures q <= |x.t| && At(x, p) <= At(x, q) <= |x.u|
    ensures '\n' in x.t[p..q] <==> '\n' in x.u[At(x, p)..At(x, q)]
  {
    assert q <= |x.t|;
    hide Valid, Ok, At, HasNewline;
    Monotone(x, p, q);
    Same(x, q);
    NewlineIn(x.t, p, q);
    NewlineIn(x.u, At(x, p), At(x, q));
    if HasNewline(x.t, p, q) {
      NewlineForth(x, p, q);
    }
    if HasNewline(x.u, At(x, p), At(x, q)) {
      UndoIsValid(x, p);
      UndoIsValid(x, q);
      NewlineForth(Undo(x), At(x, p), At(x, q));
    }
  }

  lemma SpanEndSwap(x: Exchange, p: nat, opener: M.Opener)
    requires Ok(x, p) && p < |x.t| && At(x, p) < |x.u| && M.Reads(x.t, p, M.Token(opener))
    ensures Corresponds(x, M.SpanEnd(x.t, p, opener), M.SpanEnd(x.u, At(x, p), opener))
  {
    hide M.CloseOf, M.Reads, M.Token;
    CloseSwap(x, p, opener);
    var close := M.CloseOf(x.t, p, opener);
    TokensAreMarks(opener);
    if p == x.s {
      QuietReads(x.t, x.s, x.e, p, M.Token(opener));
    }
    Same(x, p);
    if opener == M.Inline && close.Some? {
      NewlineSwap(x, p + 1, close.value);
    }
  }

  lemma MathEndSwap(x: Exchange, p: nat)
    requires Ok(x, p) && p < |x.t| && At(x, p) < |x.u|
    ensures Corresponds(x, MathEnd(x.t, p), MathEnd(x.u, At(x, p)))
  {
    hide M.OpenerAt, M.SpanEnd, M.Escaped, Valid, Ok, At;
    OpenerSwap(x, p);
    EscapedSwap(x, p);
    var opener := M.OpenerAt(x.t, p);
    if opener.Some? {
      SpanEndSwap(x, p, opener.value);
    }
  }

  /* ---- code ---- */

  ghost predicate OkSpans(x: Swap, spans: seq<Span>)
  {
    forall i | 0 <= i < |spans| :: Ok(x, spans[i].start) && Ok(x, spans[i].end)
  }

  ghost function Moved(x: Swap, spans: seq<Span>): (moved: seq<Span>)
    requires OkSpans(x, spans)
    ensures |moved| == |spans|
  {
    seq(|spans|, i requires 0 <= i < |spans| => Span(At(x, spans[i].start), At(x, spans[i].end)))
  }

  /** The spans of the two texts are the same, moved. */
  ghost predicate Follows(x: Swap, a: seq<Span>, b: seq<Span>)
  {
    OkSpans(x, a) && b == Moved(x, a)
  }

  lemma FollowsNothing(x: Swap)
    ensures Follows(x, [], [])
  {
  }

  lemma FollowsMore(x: Swap, start: nat, end: nat, a: seq<Span>, b: seq<Span>)
    requires Ok(x, start) && Ok(x, end) && Follows(x, a, b)
    ensures Follows(x, [Span(start, end)] + a, [Span(At(x, start), At(x, end))] + b)
  {
    assert Moved(x, [Span(start, end)] + a) == [Span(At(x, start), At(x, end))] + Moved(x, a);
  }

  lemma FollowsBoth(x: Swap, a: seq<Span>, b: seq<Span>, c: seq<Span>, d: seq<Span>)
    requires Follows(x, a, b) && Follows(x, c, d)
    ensures Follows(x, a + c, b + d)
  {
    assert Moved(x, a + c) == Moved(x, a) + Moved(x, c);
  }

  lemma CoveredSwap(x: Exchange, a: seq<Span>, b: seq<Span>, p: nat)
    requires Follows(x, a, b) && Ok(x, p)
    ensures Covered(a, p) <==> Covered(b, At(x, p))
  {
    if Covered(a, p) {
      var i :| 0 <= i < |a| && a[i].start <= p < a[i].end;
      assert b[i] in b;
    }
    if Covered(b, At(x, p)) {
      var i :| 0 <= i < |b| && b[i].start <= At(x, p) < b[i].end;
      assert a[i] in a;
    }
  }

  lemma {:induction false} RunSwap(x: Exchange, p: nat, c: char)
    requires Ok(x, p) && c != '[' && c != ']'
    ensures RunOf(x.t, p, c) == RunOf(x.u, At(x, p), c)
    ensures Ok(x, p + RunOf(x.t, p, c)) && At(x, p + RunOf(x.t, p, c)) == At(x, p) + RunOf(x.t, p, c)
    decreases |x.t| - p
  {
    Same(x, p);
    if p < |x.t| && x.t[p] == c {
      RunSwap(x, p + 1, c);
    }
  }

  lemma {:induction false} NextRunSkips(text: string, i: nat, j: nat, n: nat)
    requires i <= j <= |text| && forall k | i <= k < j :: text[k] != '`'
    ensures NextRun(text, i, n) == NextRun(text, j, n)
    decreases j - i
  {
    if i < j {
      NextRunSkips(text, i + 1, j, n);
    }
  }

  lemma NextRunStep(text: string, i: nat, n: nat)
    requires i < |text|
    ensures var m := RunOf(text, i, '`');
            && i + m <= |text|
            && NextRun(text, i, n) == if m == 0 then NextRun(text, i + 1, n) else if m == n then Some(i + m) else NextRun(text, i + m, n)
  {
  }

  /** No backtick stands in the bracket. */
  lemma NoTicks(x: Exchange)
    ensures x.s < x.e <= |x.t| && forall k | x.s <= k < x.e :: x.t[k] != '`'
    ensures x.s < x.f <= |x.u| && forall k | x.s <= k < x.f :: x.u[k] != '`'
    ensures Ok(x, x.s) && Ok(x, x.e) && At(x, x.s) == x.s && At(x, x.e) == x.f
  {
  }

  lemma {:induction false} NextRunSwap(x: Exchange, i: nat, n: nat)
    requires Ok(x, i) && At(x, i) <= |x.u| && i <= |x.t|
    ensures Corresponds(x, NextRun(x.t, i, n), NextRun(x.u, At(x, i), n))
    decreases |x.t| - i
  {
    hide Valid, Ok, At, Corresponds, NextRun;
    Same(x, i);
    if i == x.s {
      NoTicks(x);
      NextRunSkips(x.t, x.s, x.e, n);
      NextRunSkips(x.u, x.s, x.f, n);
      NextRunSwap(x, x.e, n);
    } else if i < |x.t| {
      NextRunAhead(x, i, n);
    } else {
      NoRun(x.t, i, n);
      NoRun(x.u, At(x, i), n);
      BothNone(x);
    }
  }

  lemma NoRun(text: string, i: nat, n: nat)
    requires i == |text|
    ensures NextRun(text, i, n) == None
  {
  }

  lemma BothNone(x: Swap)
    ensures Corresponds(x, None, None)
  {
  }

  lemma BothSome(x: Swap, p: nat)
    requires Ok(x, p)
    ensures Corresponds(x, Some(p), Some(At(x, p)))
  {
  }

  lemma {:induction false} NextRunAhead(x: Exchange, i: nat, n: nat)
    requires Ok(x, i) && i < |x.t| && At(x, i) < |x.u| && i != x.s
    ensures Corresponds(x, NextRun(x.t, i, n), NextRun(x.u, At(x, i), n))
    decreases |x.t| - i, 0
  {
    hide Valid, Ok, At, Corresponds, NextRun, RunOf;
    var m := RunOf(x.t, i, '`');
    Same(x, i);
    RunSwap(x, i, '`');
    NextRunStep(x.t, i, n);
    NextRunStep(x.u, At(x, i), n);
    Same(x, i + m);
    if m == 0 {
      NextRunSwap(x, i + 1, n);
    } else if m != n {
      NextRunSwap(x, i + m, n);
    } else {
      BothSome(x, i + m);
    }
  }

  lemma {:induction false} InlineSkips(text: string, fences: seq<Span>, i: nat, j: nat, end: nat)
    requires i <= j <= |text| && forall k | i <= k < j :: text[k] != '`'
    ensures InlineCode(text, fences, i, end) == InlineCode(text, fences, j, end)
    decreases j - i
  {
    if i < j {
      InlineSkips(text, fences, i + 1, j, end);
    }
  }

  lemma {:induction false} InlineSwap(x: Exchange, a: seq<Span>, b: seq<Span>, i: nat, end: nat)
    requires Follows(x, a, b) && Ok(x, i) && Ok(x, end)
    ensures Follows(x, InlineCode(x.t, a, i, end), InlineCode(x.u, b, At(x, i), At(x, end)))
    decreases |x.t| - i
  {
    hide Valid, Ok, At, Follows, InlineCode;
    Same(x, i);
    if i == x.s {
      NoTicks(x);
      InlineSkips(x.t, a, x.s, x.e, end);
      InlineSkips(x.u, b, x.s, x.f, At(x, end));
      InlineSwap(x, a, b, x.e, end);
    } else if i < |x.t| {
      InlineRunSwap(x, a, b, i, end);
    } else {
      NoCode(x.t, a, i, end);
      NoCode(x.u, b, At(x, i), At(x, end));
      FollowsNothing(x);
    }
  }

  lemma NoCode(text: string, fences: seq<Span>, i: nat, end: nat)
    requires i >= |text|
    ensures InlineCode(text, fences, i, end) == []
  {
  }

  /** The code that begins with a run of `n` backticks, or what comes after the run. */
  lemma InlineStep(text: string, fences: seq<Span>, i: nat, end: nat, n: nat)
    requires i < |text| && n == RunOf(text, i, '`')
    ensures i + n <= |text|
    ensures n == 0 ==> InlineCode(text, fences, i, end) == InlineCode(text, fences, i + 1, end)
    ensures n > 0 && (i < end || Covered(fences, i) || NextRun(text, i + n, n).None?) ==>
              InlineCode(text, fences, i, end) == InlineCode(text, fences, i + n, end)
    ensures n > 0 && !(i < end || Covered(fences, i)) && NextRun(text, i + n, n).Some? ==>
              var close := NextRun(text, i + n, n).value;
              InlineCode(text, fences, i, end) == [Span(i, close)] + InlineCode(text, fences, i + n, close)
  {
    hide Covered, NextRun;
  }

  lemma {:induction false} InlineRunSwap(x: Exchange, a: seq<Span>, b: seq<Span>, i: nat, end: nat)
    requires Follows(x, a, b) && Ok(x, i) && Ok(x, end) && i < |x.t| && At(x, i) < |x.u| && i != x.s
    ensures Follows(x, InlineCode(x.t, a, i, end), InlineCode(x.u, b, At(x, i), At(x, end)))
    decreases |x.t| - i, 1
  {
    hide Follows, Covered, RunOf, NextRun, Valid, InlineCode, At, Ok;
    var n := RunOf(x.t, i, '`');
    RunSwap(x, i, '`');
    InlineStep(x.t, a, i, end, n);
    InlineStep(x.u, b, At(x, i), At(x, end), n);
    Same(x, i);
    Same(x, i + n);
    if n == 0 {
      InlineSwap(x, a, b, i + 1, end);
    } else {
      NextRunSwap(x, i + n, n);
      CoveredSwap(x, a, b, i);
      Monotone(x, i, end);
      var close := NextRun(x.t, i + n, n);
      if i < end || Covered(a, i) || close.None? {
        InlineSwap(x, a, b, i + n, end);
      } else {
        InlinePair(x, a, b, i, n, close.value);
      }
    }
  }

  lemma {:induction false} InlinePair(x: Exchange, a: seq<Span>, b: seq<Span>, i: nat, n: nat, close: nat)
    requires Follows(x, a, b) && Ok(x, i) && i < |x.t| && Ok(x, close) && n > 0
    requires Ok(x, i + n) && At(x, i + n) == At(x, i) + n
    ensures Follows(x, [Span(i, close)] + InlineCode(x.t, a, i + n, close),
                    [Span(At(x, i), At(x, close))] + InlineCode(x.u, b, At(x, i) + n, At(x, close)))
    decreases |x.t| - i, 0
  {
    hide Follows, InlineCode, Valid;
    InlineSwap(x, a, b, i + n, close);
    FollowsMore(x, i, close, InlineCode(x.t, a, i + n, close), InlineCode(x.u, b, At(x, i) + n, At(x, close)));
  }

  /* ---- fenced code ---- */

  lemma {:induction false} RunPrefix(a: string, b: string, k: nat, i: nat, c: char)
    requires i <= k < |a| && k < |b| && a[..k] == b[..k] && a[k] != c && b[k] != c
    ensures RunOf(a, i, c) == RunOf(b, i, c) <= k - i
    decreases k - i
  {
    if i < k {
      assert a[i] == a[..k][i] && b[i] == b[..k][i];
      RunPrefix(a, b, k, i + 1, c);
    }
  }

  lemma FenceOfPrefix(a: string, b: string, k: nat, indent: nat, mark: char)
    requires indent <= k < |a| && k < |b| && a[..k] == b[..k] && a[k] == b[k] == '[' && mark != '['
    ensures FenceOf(a, indent, mark) == FenceOf(b, indent, mark)
    ensures FenceOf(a, indent, mark).Some? ==> !FenceOf(a, indent, mark).value.bare
  {
    RunPrefix(a, b, k, indent, mark);
    var n := RunOf(a, indent, mark);
    assert a[indent + n..][k - indent - n] == '[' && b[indent + n..][k - indent - n] == '[';
    assert '[' in a[indent + n..] && '[' in b[indent + n..];
  }

  /** A fence is known from what stands before the bracket, and such a fence is not bare. */
  lemma FencePrefix(a: string, b: string, k: nat)
    requires k < |a| && k < |b| && a[..k] == b[..k] && a[k] == b[k] == '['
    ensures FenceAt(a) == FenceAt(b) && (FenceAt(a).Some? ==> !FenceAt(a).value.bare)
  {
    hide RunOf, FenceOf;
    RunPrefix(a, b, k, 0, ' ');
    FenceOfPrefix(a, b, k, RunOf(a, 0, ' '), '`');
    FenceOfPrefix(a, b, k, RunOf(a, 0, ' '), '~');
  }

  /** A line that begins inside the bracket is no fence. */
  lemma QuietFence(text: string, s: nat, e: nat, j: nat)
    requires Bracket(text, s, e) && s < j < e
    ensures FenceAt(text[j..LineAt(text, j).end]).None?
  {
    var line := text[j..LineAt(text, j).end];
    var indent := RunOf(line, 0, ' ');
    RunStops(line, 0, ' ');
    if indent < |line| {
      RunShort(line, 0, ' ', e - 1 - j);
      assert line[indent] == text[j + indent];
    }
  }

  lemma {:induction false} RunStops(line: string, i: nat, c: char)
    requires i <= |line|
    ensures var n := RunOf(line, i, c); i + n < |line| ==> line[i + n] != c
    decreases |line| - i
  {
    if i < |line| && line[i] == c {
      RunStops(line, i + 1, c);
    }
  }

  lemma {:induction false} RunShort(line: string, i: nat, c: char, k: nat)
    requires i <= |line| && (i + k < |line| ==> line[i + k] != c) && i + RunOf(line, i, c) < |line|
    ensures RunOf(line, i, c) <= k || i + k >= |line|
    decreases k
  {
    if i < |line| && line[i] == c && k > 0 {
      RunShort(line, i + 1, c, k - 1);
    }
  }

  function FencesFrom(text: string, i: nat, open: Option<OpenFence>): seq<Span>
    requires i <= |text|
  {
    Fences(text, LinesFrom(text, i), [], open)
  }

  predicate Closes(open: Option<OpenFence>, fence: Option<Fence>)
  {
    && open.Some? && fence.Some? && fence.value.mark == open.value.mark
    && fence.value.length >= open.value.length && fence.value.bare
  }

  /** The open fence after a line that closes nothing. */
  function Opened(open: Option<OpenFence>, i: nat, fence: Option<Fence>): Option<OpenFence>
  {
    if open.None? && fence.Some? then Some(OpenFence(i, fence.value.mark, fence.value.length)) else open
  }

  lemma FencesStep(text: string, i: nat, open: Option<OpenFence>)
    requires i < |text|
    ensures var line := LineAt(text, i);
            var fence := FenceAt(text[i..line.end]);
            FencesFrom(text, i, open) ==
              if Closes(open, fence) then [Span(open.value.start, line.next)] + FencesFrom(text, line.next, None)
              else FencesFrom(text, line.next, Opened(open, i, fence))
  {
    hide FenceAt, LineAt;
    assert LinesFrom(text, i)[1..] == LinesFrom(text, LineAt(text, i).next);
    assert !Covered([], i);
  }

  /** Where lines go on after a place in the middle of a line. */
  function Resume(text: string, e: nat): (r: nat)
    requires e <= |text|
    ensures e <= r <= |text|
  {
    if e == |text| then e else LineAt(text, e).next
  }

  lemma {:induction false} BreakAhead(text: string, i: nat, e: nat)
    requires i <= e <= |text| && BreakFrom(text, i) >= e
    ensures BreakFrom(text, i) == BreakFrom(text, e)
    decreases e - i
  {
    if i < e {
      BreakAhead(text, i + 1, e);
    }
  }

  lemma LineReach(text: string, i: nat, e: nat)
    requires i < e <= |text| && text[e - 1] == ']'
    ensures LineAt(text, i).next < e || LineAt(text, i).next == Resume(text, e)
  {
    if BreakFrom(text, i) >= e {
      BreakAhead(text, i, e);
    }
    hide BreakFrom;
  }

  /** The lines that begin inside the bracket change nothing. */
  lemma {:induction false} FencesSkip(text: string, s: nat, e: nat, j: nat, open: Option<OpenFence>)
    requires Bracket(text, s, e) && s < j && (j < e || j == Resume(text, e))
    ensures j <= |text| && FencesFrom(text, j, open) == FencesFrom(text, Resume(text, e), open)
    decreases |text| - j
  {
    if j < e {
      QuietFence(text, s, e, j);
      FencesStep(text, j, open);
      LineReach(text, j, e);
      hide FencesFrom, Bracket, FenceAt;
      FencesSkip(text, s, e, LineAt(text, j).next, open);
    }
  }

  lemma {:induction false} BreakBefore(x: Exchange, i: nat)
    requires i <= x.s
    ensures BreakFrom(x.t, i) == BreakFrom(x.u, i) < x.s || (BreakFrom(x.t, i) > x.s && BreakFrom(x.u, i) > x.s)
    decreases x.s - i
  {
    Same(x, i);
    if i < x.s {
      BreakBefore(x, i + 1);
    }
  }

  lemma {:induction false} BreakAfter(x: Exchange, i: nat)
    requires x.e <= i <= |x.t|
    ensures At(x, i) <= |x.u| && BreakFrom(x.u, At(x, i)) == At(x, BreakFrom(x.t, i))
    decreases |x.t| - i
  {
    Same(x, i);
    if i < |x.t| {
      BreakAfter(x, i + 1);
    }
  }

  lemma SliceAfter(x: Exchange, i: nat, j: nat)
    requires x.e <= i <= j <= |x.t|
    ensures At(x, i) <= At(x, j) <= |x.u| && x.t[i..j] == x.u[At(x, i)..At(x, j)]
  {
    assert x.t[i..j] == x.t[x.e..][i - x.e..j - x.e];
    assert x.u[At(x, i)..At(x, j)] == x.u[x.f..][i - x.e..j - x.e];
  }

  lemma SliceBefore(x: Exchange, i: nat, j: nat)
    requires i <= j <= x.s
    ensures j <= |x.t| && j <= |x.u| && x.t[i..j] == x.u[i..j]
  {
    assert x.t[i..j] == x.t[..x.s][i..j] && x.u[i..j] == x.u[..x.s][i..j];
  }

  lemma LineAfter(x: Exchange, i: nat)
    requires x.e <= i < |x.t|
    ensures var line := LineAt(x.t, i);
            && At(x, i) < |x.u| && LineAt(x.u, At(x, i)) == Line(At(x, i), At(x, line.end), At(x, line.next))
            && x.t[i..line.end] == x.u[At(x, i)..At(x, line.end)]
  {
    hide Valid, BreakFrom;
    BreakAfter(x, i);
    var stop := BreakFrom(x.t, i);
    Same(x, i);
    Same(x, stop);
    if stop < |x.t| {
      Same(x, stop + 1);
    }
    Brackets(x);
    hide Bracket;
    SliceAfter(x, i, LineAt(x.t, i).end);
  }

  lemma SameBefore(x: Exchange, p: nat)
    requires p <= x.s
    ensures p < |x.t| && p < |x.u| && x.t[p] == x.u[p]
  {
    Same(x, p);
  }

  lemma LineBefore(x: Exchange, i: nat)
    requires i <= x.s
    ensures i < |x.t| && i < |x.u|
    ensures var a, b := LineAt(x.t, i), LineAt(x.u, i);
            if a.next <= x.s then a == b && x.t[i..a.end] == x.u[i..b.end]
            else a.end > x.s && b.end > x.s && b.next > x.s
  {
    BreakBefore(x, i);
    Brackets(x);
    SameBefore(x, i);
    hide Valid, BreakFrom, Ok, At, Bracket;
    var stop := BreakFrom(x.t, i);
    if stop < x.s {
      SameBefore(x, stop);
      SameBefore(x, stop + 1);
      assert LineAt(x.t, i) == LineAt(x.u, i);
      hide LineAt;
      SliceBefore(x, i, LineAt(x.t, i).end);
    }
  }

  /** The line with the bracket is the same up to the bracket. */
  lemma LineUpTo(x: Exchange, i: nat, n: nat, m: nat)
    requires i <= x.s < n <= |x.t| && x.s < m <= |x.u|
    ensures x.t[i..n][..x.s - i] == x.u[i..m][..x.s - i] && x.t[i..n][x.s - i] == '[' == x.u[i..m][x.s - i]
  {
    Brackets(x);
    SliceBefore(x, i, x.s);
    hide Valid;
    assert x.t[i..n][..x.s - i] == x.t[i..x.s] && x.u[i..m][..x.s - i] == x.u[i..x.s];
  }

  ghost predicate OpenSwap(x: Swap, a: Option<OpenFence>, b: Option<OpenFence>)
  {
    if a.None? then b.None? else
      b.Some? && Ok(x, a.value.start) && b.value == OpenFence(At(x, a.value.start), a.value.mark, a.value.length)
  }

  lemma {:induction false} FencesSwap(x: Exchange, i: nat, a: Option<OpenFence>, b: Option<OpenFence>)
    requires Ok(x, i) && OpenSwap(x, a, b)
    ensures i <= |x.t| && At(x, i) <= |x.u| && Follows(x, FencesFrom(x.t, i, a), FencesFrom(x.u, At(x, i), b))
    decreases |x.t| - i
  {
    Same(x, i);
    Brackets(x);
    hide Valid, Follows, FencesFrom, LineAt;
    if i <= x.s && LineAt(x.t, i).next > x.s {
      FencesAcross(x, i, a, b);
    } else if i < |x.t| {
      FencesAlong(x, i, a, b);
    } else {
      FencesEnd(x, a, b);
    }
  }

  lemma FencesEnd(x: Exchange, a: Option<OpenFence>, b: Option<OpenFence>)
    requires OpenSwap(x, a, b)
    ensures Follows(x, FencesFrom(x.t, |x.t|, a), FencesFrom(x.u, |x.u|, b))
  {
    FollowsNothing(x);
    if a.Some? {
      FollowsMore(x, a.value.start, |x.t|, [], []);
    }
  }

  lemma LineSwap(x: Exchange, i: nat)
    requires Ok(x, i) && i < |x.t| && At(x, i) < |x.u| && (i <= x.s ==> LineAt(x.t, i).next <= x.s)
    ensures var line, moved := LineAt(x.t, i), LineAt(x.u, At(x, i));
            && Ok(x, line.next) && moved.next == At(x, line.next)
            && x.t[i..line.end] == x.u[At(x, i)..moved.end]
  {
    if i <= x.s {
      LineBefore(x, i);
    } else {
      LineAfter(x, i);
    }
    hide LineAt;
  }

  /** A line that lies outside the bracket. */
  lemma {:induction false} FencesAlong(x: Exchange, i: nat, a: Option<OpenFence>, b: Option<OpenFence>)
    requires Ok(x, i) && OpenSwap(x, a, b) && i < |x.t| && At(x, i) < |x.u|
    requires i <= x.s ==> LineAt(x.t, i).next <= x.s
    ensures Follows(x, FencesFrom(x.t, i, a), FencesFrom(x.u, At(x, i), b))
    decreases |x.t| - i, 0
  {
    hide Valid, Follows, FencesFrom, LineAt, FenceAt;
    LineSwap(x, i);
    FencesStep(x.t, i, a);
    FencesStep(x.u, At(x, i), b);
    var line := LineAt(x.t, i);
    var fence := FenceAt(x.t[i..line.end]);
    if Closes(a, fence) {
      FencesSwap(x, line.next, None, None);
      FollowsMore(x, a.value.start, line.next, FencesFrom(x.t, line.next, None), FencesFrom(x.u, At(x, line.next), None));
    } else {
      FencesSwap(x, line.next, Opened(a, i, fence), Opened(b, At(x, i), fence));
    }
  }

  lemma FencesOver(text: string, s: nat, e: nat, i: nat, open: Option<OpenFence>, fence: Option<Fence>)
    requires Bracket(text, s, e) && i <= s < LineAt(text, i).next
    requires fence == FenceAt(text[i..LineAt(text, i).end]) && (fence.Some? ==> !fence.value.bare)
    ensures FencesFrom(text, i, open) == FencesFrom(text, Resume(text, e), Opened(open, i, fence))
  {
    FencesStep(text, i, open);
    LineReach(text, i, e);
    hide FencesFrom, FenceAt, LineAt, Resume;
    FencesSkip(text, s, e, LineAt(text, i).next, Opened(open, i, fence));
  }

  /** The line that the bracket begins in. */
  lemma {:induction false} FencesAcross(x: Exchange, i: nat, a: Option<OpenFence>, b: Option<OpenFence>)
    requires OpenSwap(x, a, b) && i <= x.s && LineAt(x.t, i).next > x.s
    ensures Follows(x, FencesFrom(x.t, i, a), FencesFrom(x.u, i, b))
    decreases |x.t| - i, 0
  {
    hide *;
    LineBefore(x, i);
    Brackets(x);
    ResumeSwap(x);
    LineReach(x.t, i, x.e);
    var fence := FenceAcross(x, i);
    FencesOver(x.t, x.s, x.e, i, a, fence);
    FencesOver(x.u, x.s, x.f, i, b, fence);
    OpenedSwap(x, i, a, b, fence);
    FencesSwap(x, Resume(x.t, x.e), Opened(a, i, fence), Opened(b, i, fence));
  }

  /** The line of the bracket is the same fence in both texts. */
  lemma FenceAcross(x: Exchange, i: nat) returns (fence: Option<Fence>)
    requires i <= x.s && LineAt(x.t, i).next > x.s
    ensures i < |x.t| && i < |x.u| && LineAt(x.u, i).next > x.s
    ensures fence == FenceAt(x.t[i..LineAt(x.t, i).end]) == FenceAt(x.u[i..LineAt(x.u, i).end])
    ensures fence.Some? ==> !fence.value.bare
  {
    hide *;
    LineBefore(x, i);
    var n, m := LineAt(x.t, i), LineAt(x.u, i);
    LineUpTo(x, i, n.end, m.end);
    FencePrefix(x.t[i..n.end], x.u[i..m.end], x.s - i);
    fence := FenceAt(x.t[i..n.end]);
  }

  lemma OpenedSwap(x: Exchange, i: nat, a: Option<OpenFence>, b: Option<OpenFence>, fence: Option<Fence>)
    requires OpenSwap(x, a, b) && i <= x.s
    ensures OpenSwap(x, Opened(a, i, fence), Opened(b, i, fence))
  {
  }

  lemma ResumeSwap(x: Exchange)
    ensures Ok(x, Resume(x.t, x.e)) && At(x, Resume(x.t, x.e)) == Resume(x.u, x.f)
  {
    if x.e < |x.t| {
      LineAfter(x, x.e);
    }
  }

  lemma CodeSwap(x: Exchange)
    ensures Follows(x, CodeSpans(x.t), CodeSpans(x.u))
  {
    hide Valid, Follows, Fences, InlineCode;
    FencesSwap(x, 0, None, None);
    InlineSwap(x, FenceSpans(x.t), FenceSpans(x.u), 0, 0);
    FollowsBoth(x, FenceSpans(x.t), FenceSpans(x.u),
                InlineCode(x.t, FenceSpans(x.t), 0, 0), InlineCode(x.u, FenceSpans(x.u), 0, 0));
  }

  /* ---- quotations ---- */

  lemma QuietCloses(text: string, s: nat, e: nat, letter: char -> bool, code: seq<Span>, c: char, j: nat)
    requires Bracket(text, s, e) && s <= j < e && IsClosing(c)
    ensures !ClosesAt(text, letter, code, c, j)
  {
    hide Covered, M.Escaped;
  }

  lemma ClosesSwap(x: Exchange, letter: char -> bool, a: seq<Span>, b: seq<Span>, c: char, j: nat)
    requires Follows(x, a, b) && Ok(x, j) && IsClosing(c)
    ensures ClosesAt(x.t, letter, a, c, j) <==> ClosesAt(x.u, letter, b, c, At(x, j))
  {
    Same(x, j);
    Brackets(x);
    hide Valid, Follows, Covered, M.Escaped;
    if j == x.s {
      QuietCloses(x.t, x.s, x.e, letter, a, c, j);
      QuietCloses(x.u, x.s, x.f, letter, b, c, j);
    } else if j < |x.t| {
      Same(x, j + 1);
      CoveredSwap(x, a, b, j);
      EscapedSwap(x, j);
    }
  }

  lemma {:induction false} CloserSkips(text: string, letter: char -> bool, code: seq<Span>, c: char, i: nat, j: nat)
    requires i <= j && forall k: nat | i <= k < j :: !ClosesAt(text, letter, code, c, k)
    ensures NextCloser(text, letter, code, c, i) == NextCloser(text, letter, code, c, j)
    decreases j - i
  {
    hide ClosesAt;
    if i < j {
      CloserSkips(text, letter, code, c, i + 1, j);
    }
  }

  lemma CloserSkipsBracket(text: string, s: nat, e: nat, letter: char -> bool, code: seq<Span>, c: char)
    requires Bracket(text, s, e) && IsClosing(c)
    ensures NextCloser(text, letter, code, c, s) == NextCloser(text, letter, code, c, e)
  {
    hide ClosesAt, NextCloser;
    forall k: nat | s <= k < e ensures !ClosesAt(text, letter, code, c, k) {
      QuietCloses(text, s, e, letter, code, c, k);
    }
    hide Bracket;
    CloserSkips(text, letter, code, c, s, e);
  }

  lemma CloserStep(text: string, letter: char -> bool, code: seq<Span>, c: char, j: nat)
    ensures NextCloser(text, letter, code, c, j) ==
              if j >= |text| then None
              else if ClosesAt(text, letter, code, c, j) then Some(j + 1)
              else NextCloser(text, letter, code, c, j + 1)
  {
    hide ClosesAt;
  }

  lemma {:induction false} CloserSwap(x: Exchange, letter: char -> bool, a: seq<Span>, b: seq<Span>, c: char, j: nat)
    requires Follows(x, a, b) && Ok(x, j) && IsClosing(c)
    ensures Corresponds(x, NextCloser(x.t, letter, a, c, j), NextCloser(x.u, letter, b, c, At(x, j)))
    decreases |x.t| - j
  {
    Same(x, j);
    Brackets(x);
    if j == x.s {
      CloserSkipsBracket(x.t, x.s, x.e, letter, a, c);
      CloserSkipsBracket(x.u, x.s, x.f, letter, b, c);
      hide Valid, Follows, ClosesAt, Bracket, NextCloser, IsClosing, Corresponds;
      CloserSwap(x, letter, a, b, c, x.e);
    } else {
      CloserAhead(x, letter, a, b, c, j);
    }
  }

  lemma {:induction false} CloserAhead(x: Exchange, letter: char -> bool, a: seq<Span>, b: seq<Span>, c: char, j: nat)
    requires Follows(x, a, b) && Ok(x, j) && IsClosing(c) && j != x.s
    ensures Corresponds(x, NextCloser(x.t, letter, a, c, j), NextCloser(x.u, letter, b, c, At(x, j)))
    decreases |x.t| - j, 0
  {
    hide Valid, Follows, ClosesAt, NextCloser, IsClosing, Corresponds, Ok, At;
    Same(x, j);
    CloserStep(x.t, letter, a, c, j);
    CloserStep(x.u, letter, b, c, At(x, j));
    if j < |x.t| {
      ClosesSwap(x, letter, a, b, c, j);
      if ClosesAt(x.t, letter, a, c, j) {
        BothSome(x, j + 1);
      } else {
        CloserSwap(x, letter, a, b, c, j + 1);
      }
    } else {
      BothNone(x);
    }
  }

  lemma OpensSwap(x: Exchange, letter: char -> bool, p: nat)
    requires Ok(x, p) && p < |x.t| && At(x, p) < |x.u|
    ensures OpensQuote(x.t, letter, p) <==> OpensQuote(x.u, letter, At(x, p))
    ensures OpensQuote(x.t, letter, p) ==> p != x.s
  {
    Same(x, p);
    EscapedSwap(x, p);
    Brackets(x);
    hide M.Escaped, Valid;
  }

  lemma LiteralEndSwap(x: Exchange, letter: char -> bool, a: seq<Span>, b: seq<Span>, p: nat)
    requires Follows(x, a, b) && Ok(x, p) && p < |x.t| && At(x, p) < |x.u|
    ensures Corresponds(x, LiteralEnd(x.t, letter, a, p), LiteralEnd(x.u, letter, b, At(x, p)))
  {
    hide MathEnd, OpensQuote, NextCloser, Valid, Follows, Ok, At, CloserOf, IsClosing;
    Same(x, p);
    MathEndSwap(x, p);
    OpensSwap(x, letter, p);
    if OpensQuote(x.t, letter, p) {
      QuotesClose(x.t, letter, p);
      QuotesClose(x.u, letter, At(x, p));
      CloserSwap(x, letter, a, b, CloserOf(x.t[p]).value, p + 1);
    }
  }

  lemma QuietLiteral(text: string, s: nat, e: nat, letter: char -> bool, code: seq<Span>, p: nat)
    requires Bracket(text, s, e) && s <= p < e
    ensures LiteralEnd(text, letter, code, p).None?
  {
    QuietOpener(text, s, e, p);
    hide M.OpenerAt, M.SpanEnd, M.Escaped, NextCloser;
  }

  lemma {:induction false} LiteralsSkip(text: string, letter: char -> bool, code: seq<Span>, p: nat, q: nat)
    requires p <= q <= |text| && forall k: nat | p <= k < q :: LiteralEnd(text, letter, code, k).None?
    ensures Literals(text, letter, code, p) == Literals(text, letter, code, q)
    decreases q - p
  {
    hide LiteralEnd, Covered;
    if p < q {
      LiteralsSkip(text, letter, code, p + 1, q);
    }
  }

  lemma LiteralsSkipBracket(text: string, s: nat, e: nat, letter: char -> bool, code: seq<Span>)
    requires Bracket(text, s, e)
    ensures Literals(text, letter, code, s) == Literals(text, letter, code, e)
  {
    forall k: nat | s <= k < e ensures LiteralEnd(text, letter, code, k).None? {
      QuietLiteral(text, s, e, letter, code, k);
    }
    hide LiteralEnd, Literals;
    LiteralsSkip(text, letter, code, s, e);
  }

  lemma {:induction false} LiteralsSwap(x: Exchange, letter: char -> bool, a: seq<Span>, b: seq<Span>, p: nat)
    requires Follows(x, a, b) && Ok(x, p)
    ensures Follows(x, Literals(x.t, letter, a, p), Literals(x.u, letter, b, At(x, p)))
    decreases |x.t| - p
  {
    Same(x, p);
    Brackets(x);
    hide Valid, Follows, Bracket, Literals, Ok, At;
    if p == x.s {
      LiteralsSkipBracket(x.t, x.s, x.e, letter, a);
      LiteralsSkipBracket(x.u, x.s, x.f, letter, b);
      LiteralsSwap(x, letter, a, b, x.e);
    } else if p < |x.t| {
      LiteralsAhead(x, letter, a, b, p);
    } else {
      NoLiterals(x.t, letter, a, p);
      NoLiterals(x.u, letter, b, At(x, p));
      FollowsNothing(x);
    }
  }

  lemma {:induction false} LiteralsAhead(x: Exchange, letter: char -> bool, a: seq<Span>, b: seq<Span>, p: nat)
    requires Follows(x, a, b) && Ok(x, p) && p < |x.t| && At(x, p) < |x.u| && p != x.s
    ensures Follows(x, Literals(x.t, letter, a, p), Literals(x.u, letter, b, At(x, p)))
    decreases |x.t| - p, 0
  {
    hide Valid, Follows, Literals, LiteralEnd, Covered, Ok, At;
    Same(x, p);
    LiteralsStep(x.t, letter, a, p);
    LiteralsStep(x.u, letter, b, At(x, p));
    CoveredSwap(x, a, b, p);
    LiteralEndSwap(x, letter, a, b, p);
    var stop := LiteralEnd(x.t, letter, a, p);
    if Covered(a, p) || stop.None? {
      LiteralsSwap(x, letter, a, b, p + 1);
    } else {
      LiteralsSwap(x, letter, a, b, stop.value);
      FollowsMore(x, p, stop.value, Literals(x.t, letter, a, stop.value), Literals(x.u, letter, b, At(x, stop.value)));
    }
  }

  /** The literal parts of the two texts are the same, moved. */
  lemma ShieldsSwap(x: Exchange, letter: char -> bool)
    ensures Follows(x, Shields(x.t, letter), Shields(x.u, letter))
  {
    hide Valid, Follows, CodeSpans, Literals;
    CodeSwap(x);
    LiteralsSwap(x, letter, CodeSpans(x.t), CodeSpans(x.u), 0);
    FollowsBoth(x, CodeSpans(x.t), CodeSpans(x.u),
                Literals(x.t, letter, CodeSpans(x.t), 0), Literals(x.u, letter, CodeSpans(x.u), 0));
  }

  /** Replacing a bracket shields nothing and exposes nothing, before it or after it. */
  lemma ShieldedSwap(x: Exchange, letter: char -> bool, p: nat)
    requires Ok(x, p)
    ensures Shielded(x.t, letter, p) <==> Shielded(x.u, letter, At(x, p))
  {
    hide Valid, Follows, Shields, Covered;
    ShieldsSwap(x, letter);
    CoveredSwap(x, Shields(x.t, letter), Shields(x.u, letter), p);
  }
}
