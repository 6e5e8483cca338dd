/**
 Normalizing citations is idempotent: a second pass converts nothing, changes nothing and reports
 the same invalid citations.
 */
module CitationNormalForm {
  import opened Basics
  import opened CitationShields
  import opened CitationSwap
  import opened Citations
  import M = MathSpans
  import S = PublicationSegments

  /* ---- groups that convert are quiet ---- */

  predicate IsReferenceSign(c: char)
  {
    c == 'E' || c == 'P' || c == ':' || IsDigit(c)
  }

  lemma IdentifierSigns(id: string)
    requires IsPassage(id) || IsSource(id)
    ensures forall k | 0 <= k < |id| :: IsReferenceSign(id[k])
  {
    if IsSource(id) {
      SourceSigns(id);
    } else {
      var k := Find(id, ':', 0);
      SourceSigns(id[..k]);
      forall j | 0 <= j < |id| ensures IsReferenceSign(id[j]) {
        if j < k {
          assert id[j] == id[..k][j];
        } else if j >= k + 2 {
          assert id[j] == id[k + 2..][j - k - 2];
        }
      }
    }
  }

  lemma SourceSigns(id: string)
    requires IsSource(id)
    ensures forall k | 0 <= k < |id| :: id[k] == 'E' || IsDigit(id[k])
  {
    forall k | 1 <= k < |id| ensures IsDigit(id[k]) {
      assert id[k] == id[1..][k - 1];
    }
  }

  predicate IsTokenSign(c: char)
  {
    IsSpace(c) || IsReferenceSign(M.Fold(c))
  }

  lemma ResolvedSigns(token: string, context: Context)
    requires Resolve(token, context).Some?
    ensures forall k | 0 <= k < |token| :: IsTokenSign(token[k])
  {
    var from := S.TrimStart(token, 0, |token|);
    var to := S.TrimEnd(token, from, |token|);
    var id := Upper(Strip(token));
    hide S.TrimStart, S.TrimEnd;
    IdentifierSigns(id);
    forall k | 0 <= k < |token| ensures IsTokenSign(token[k]) {
      if from <= k < to {
        assert id[k - from] == M.Fold(token[k]);
      }
    }
  }

  lemma {:induction false} SplitCovers(s: string, i: nat)
    requires i < |s| && !IsSeparator(s[i])
    ensures exists t | t in Split(s) :: s[i] in t
    decreases |s|
  {
    var k := SeparatorFrom(s, 0);
    if k == |s| {
      assert Split(s) == [s] && s in Split(s);
    } else {
      var rest := s[k + 1..];
      assert Split(s) == [s[..k]] + Split(rest);
      if i < k {
        assert s[..k][i] == s[i] && s[..k] in Split(s);
      } else {
        SeparatorBefore(s, 0, i);
        SplitCovers(rest, i - k - 1);
        var t :| t in Split(rest) && rest[i - k - 1] in t;
        assert t in Split(s);
      }
    }
  }

  lemma SeparatorBefore(s: string, from: nat, i: nat)
    requires i < |s| && from <= i && !IsSeparator(s[i])
    ensures SeparatorFrom(s, from) != i
  {
  }

  lemma ConvertedSigns(body: string, context: Context)
    requires Convert(body, context).Some?
    ensures forall k | 0 <= k < |body| :: IsSeparator(body[k]) || IsTokenSign(body[k])
  {
    var tokens := Split(body);
    hide Split, Resolve;
    ResolvesExactly(tokens, context, [], 0);
    hide ResolveAll;
    forall k | 0 <= k < |body| && !IsSeparator(body[k]) ensures IsTokenSign(body[k]) {
      SplitCovers(body, k);
      var t :| t in tokens && body[k] in t;
      ResolvedSigns(t, context);
    }
  }

  lemma SignsAreQuiet(c: char)
    requires (IsSeparator(c) || IsTokenSign(c)) && c != '\r' && c != '\n'
    ensures Quiet(c)
  {
  }

  predicate IsCiteSign(c: char)
  {
    c == 'E' || IsDigit(c) || c == ',' || c == ' '
  }

  lemma {:induction false} JoinSigns(parents: seq<string>)
    requires forall i | 0 <= i < |parents| :: IsSource(parents[i])
    ensures forall k | 0 <= k < |Join(parents)| :: IsCiteSign(Join(parents)[k])
  {
    if parents != [] {
      SourceSigns(parents[0]);
      JoinSigns(parents[1..]);
      hide IsSource;
    }
  }

  lemma ResolvedIsSource(token: string, context: Context)
    requires context.Valid() && Resolve(token, context).Some?
    ensures IsSource(Resolve(token, context).value)
  {
    hide IsPassage, IsSource, Strip, Upper;
  }

  lemma {:induction false} ParentsAreSources(tokens: seq<string>, context: Context, parents: seq<string>, passages: nat)
    requires context.Valid() && forall i | 0 <= i < |parents| :: IsSource(parents[i])
    ensures var r := ResolveAll(tokens, context, parents, passages);
            r.Some? ==> forall i | 0 <= i < |r.value.parents| :: IsSource(r.value.parents[i])
    decreases |tokens|
  {
    hide IsPassage, IsSource, Resolve;
    if tokens != [] {
      var parent := Resolve(tokens[0], context);
      if parent.Some? {
        ResolvedIsSource(tokens[0], context);
        var more := if parent.value in parents then parents else parents + [parent.value];
        assert forall i | 0 <= i < |more| :: IsSource(more[i]);
        ParentsAreSources(tokens[1..], context, more, if IsPassage(Upper(Strip(tokens[0]))) then passages + 1 else passages);
      }
    }
  }

  lemma MarkerHasColon(body: string)
    requires HasMarker(body)
    ensures ':' in body
  {
    hide AfterGap, SkipName;
    if MarkerAt(body, 0) {
      ColonOfMarker(body, 0);
    } else {
      var k :| 0 <= k < |body| && IsSeparator(body[k]) && MarkerAt(body, k + 1);
      ColonOfMarker(body, k + 1);
    }
  }

  lemma ColonOfMarker(body: string, i: nat)
    requires i <= |body| && MarkerAt(body, i)
    ensures ':' in body
  {
    hide AfterGap, SkipName;
    var colon := AfterGap(body, SkipName(body, AfterGap(body, i) + 1));
    assert body[colon] == ':';
  }

  /** The rewritten group is a bracket of source names, and cites no passage. */
  lemma CiteIsQuiet(parents: seq<string>)
    requires forall i | 0 <= i < |parents| :: IsSource(parents[i])
    ensures Bracket(Cite(parents), 0, |Cite(parents)|)
    ensures !HasMarker(Cite(parents)[1..|Cite(parents)| - 1])
  {
    var cite, inner := Cite(parents), Join(parents);
    JoinSigns(parents);
    hide Join, IsSource, HasMarker;
    assert cite[1..|cite| - 1] == inner;
    forall k | 0 < k < |cite| - 1 ensures Quiet(cite[k]) {
      assert cite[k] == inner[k - 1];
    }
    assert ':' !in inner;
    if HasMarker(inner) {
      MarkerHasColon(inner);
    }
  }

  /* ---- one replacement ---- */

  /** The text with a group converted. */
  function Step(text: string, context: Context, g: Span): (x: Swap)
    requires Fits(text, g) && ConversionOf(text, context, g).Some?
    ensures x.t == text && x.s == g.start && x.e == g.end
  {
    var cite := Cite(ConversionOf(text, context, g).value.parents);
    Swap(text, text[..g.start] + cite + text[g.end..], g.start, g.end, g.start + |cite|)
  }

  lemma GroupIsBracket(text: string, s: nat, e: nat, context: Context)
    requires s < |text| && GroupEnd(text, s) == Some(e) && Convert(text[s + 1..e - 1], context).Some?
    ensures Bracket(text, s, e)
  {
    var body := text[s + 1..e - 1];
    ConvertedSigns(body, context);
    hide Convert, IsTokenSign;
    forall k | s < k < e - 1 ensures Quiet(text[k]) {
      assert body[k - s - 1] == text[k];
      SignsAreQuiet(text[k]);
    }
  }

  lemma BracketMoves(text: string, prefix: string, cite: string, suffix: string)
    requires Bracket(cite, 0, |cite|) && text == prefix + cite + suffix
    ensures Bracket(text, |prefix|, |prefix| + |cite|)
  {
    hide Quiet;
    forall k | |prefix| < k < |prefix| + |cite| - 1 ensures Quiet(text[k]) {
      assert text[k] == cite[k - |prefix|];
    }
  }

  lemma SpliceIsSwap(x: Swap, cite: string)
    requires Bracket(x.t, x.s, x.e) && Bracket(cite, 0, |cite|)
    requires x.u == x.t[..x.s] + cite + x.t[x.e..] && x.f == x.s + |cite|
    ensures Valid(x) && x.e <= |x.t| && x.f <= |x.u| && x.u[x.s + 1..x.f - 1] == cite[1..|cite| - 1]
  {
    BracketMoves(x.u, x.t[..x.s], cite, x.t[x.e..]);
    assert x.u[..x.s] == x.t[..x.s] && x.u[x.f..] == x.t[x.e..];
    hide Quiet;
    assert forall k | 0 <= k < |cite| :: x.u[x.s + k] == cite[k];
  }

  lemma ConversionIsQuiet(body: string, context: Context)
    requires context.Valid() && Convert(body, context).Some?
    ensures var cite := Cite(Convert(body, context).value.parents);
            Bracket(cite, 0, |cite|) && !HasMarker(cite[1..|cite| - 1])
  {
    ParentsAreSources(Split(body), context, [], 0);
    hide ResolveAll, Split, IsSource, Cite, HasMarker, Bracket;
    CiteIsQuiet(Convert(body, context).value.parents);
  }

  lemma StepIsExchange(text: string, context: Context, g: Span)
    requires context.Valid() && Fits(text, g) && GroupEnd(text, g.start) == Some(g.end)
    requires ConversionOf(text, context, g).Some?
    ensures var x := Step(text, context, g);
            Valid(x) && x.f <= |x.u| && !HasMarker(x.u[x.s + 1..x.f - 1])
  {
    hide *;
    var x, cite := StepParts(text, context, g);
    GroupIsBracket(text, g.start, g.end, context);
    ConversionIsQuiet(text[g.start + 1..g.end - 1], context);
    SpliceIsSwap(x, cite);
  }

  lemma StepParts(text: string, context: Context, g: Span) returns (x: Swap, cite: string)
    requires Fits(text, g) && ConversionOf(text, context, g).Some?
    ensures g.start + 2 <= g.end <= |text| && x == Step(text, context, g)
    ensures var r := Convert(text[g.start + 1..g.end - 1], context); r.Some? && cite == Cite(r.value.parents)
    ensures x.u == text[..x.s] + cite + text[x.e..] && x.f == x.s + |cite|
  {
    hide Convert, Cite;
    x, cite := Step(text, context, g), Cite(ConversionOf(text, context, g).value.parents);
  }

  lemma {:induction false} BodyEndSwap(x: Exchange, j: nat)
    requires Ok(x, j)
    ensures j <= |x.t| && At(x, j) <= |x.u|
    ensures Ok(x, BodyEnd(x.t, j)) && BodyEnd(x.u, At(x, j)) == At(x, BodyEnd(x.t, j))
    ensures j <= x.s ==> BodyEnd(x.t, j) <= x.s
    decreases |x.t| - j
  {
    Same(x, j);
    Brackets(x);
    hide Valid;
    if j < |x.t| && j != x.s {
      BodyEndSwap(x, j + 1);
    }
  }

  lemma GroupEndFacts(text: string, i: nat)
    requires i < |text|
    ensures var k := BodyEnd(text, i + 1);
            GroupEnd(text, i) ==
              if text[i] != '[' || (i > 0 && text[i - 1] == '[')
                 || k == |text| || text[k] != ']' || (k + 1 < |text| && text[k + 1] == ']') then None
              else Some(k + 1)
  {
  }

  lemma Ends(x: Exchange)
    ensures x.s + 2 <= x.e <= |x.t| && x.s + 2 <= x.f <= |x.u|
    ensures x.t[x.s] == '[' == x.u[x.s] && x.t[x.e - 1] == ']' == x.u[x.f - 1]
    ensures Ok(x, x.s) && Ok(x, x.e) && At(x, x.s) == x.s && At(x, x.e) == x.f
  {
    Brackets(x);
    hide Valid, Quiet;
  }

  lemma GroupEndSwap(x: Exchange, p: nat)
    requires Ok(x, p) && p != x.s && p < |x.t| && At(x, p) < |x.u|
    ensures Corresponds(x, GroupEnd(x.t, p), GroupEnd(x.u, At(x, p)))
    ensures p < x.s && GroupEnd(x.t, p).Some? ==> GroupEnd(x.t, p).value <= x.s
  {
    hide *;
    Same(x, p);
    Ends(x);
    BodyEndSwap(x, p + 1);
    var k := BodyEnd(x.t, p + 1);
    GroupEndFacts(x.t, p);
    GroupEndFacts(x.u, At(x, p));
    Same(x, k);
    if k < |x.t| && k != x.s {
      Same(x, k + 1);
      BothSome(x, k + 1);
    }
    BothNone(x);
  }

  lemma CitesSwap(x: Exchange, letter: char -> bool, p: nat)
    requires Ok(x, p) && p != x.s && p < |x.t| && At(x, p) < |x.u|
    ensures Cites(x.t, letter, p) <==> Cites(x.u, letter, At(x, p))
  {
    hide Valid, GroupEnd, HasMarker, Shielded, Bracket, At, Ok;
    Same(x, p);
    ShieldedSwap(x, letter, p);
    GroupEndSwap(x, p);
    var end := GroupEnd(x.t, p);
    if end.Some? {
      GroupEndFacts(x.t, p);
      Same(x, end.value);
      GroupBodySwap(x, p, end.value);
    }
  }

  lemma GroupBodySwap(x: Exchange, p: nat, end: nat)
    requires Ok(x, p) && p != x.s && p < |x.t| && p + 2 <= end && Ok(x, end) && (p < x.s ==> end <= x.s)
    ensures end <= |x.t| && At(x, p) + 2 <= At(x, end) <= |x.u|
    ensures x.t[p + 1..end - 1] == x.u[At(x, p) + 1..At(x, end) - 1]
  {
    Brackets(x);
    if p < x.s {
      SliceBefore(x, p + 1, end - 1);
    } else {
      SliceAfter(x, p + 1, end - 1);
    }
    hide Valid;
  }

  lemma {:induction false} GroupsSplit(text: string, letter: char -> bool, i: nat, m: nat, j: nat)
    requires i <= m <= j <= |text|
    ensures GroupsTo(text, letter, i, j) == GroupsTo(text, letter, i, m) + GroupsTo(text, letter, m, j)
    decreases m - i
  {
    hide Cites;
    if i < m {
      GroupsSplit(text, letter, i + 1, m, j);
    }
  }

  lemma CitedEnd(text: string, letter: char -> bool, i: nat)
    requires i < |text| && Cites(text, letter, i)
    ensures GroupEnd(text, i).Some?
  {
  }

  /** A citation outside the bracket is a citation in both texts. */
  lemma CitationMoves(x: Exchange, letter: char -> bool, p: nat)
    requires Ok(x, p) && p != x.s && p < |x.t| && At(x, p) < |x.u|
    ensures Follows(x, CitationAt(x.t, letter, p), CitationAt(x.u, letter, At(x, p)))
    ensures p < x.s ==> forall g | g in CitationAt(x.t, letter, p) :: g.end <= x.s
  {
    hide Valid, Cites, GroupEnd, Ok, At;
    CitesSwap(x, letter, p);
    GroupEndSwap(x, p);
    FollowsNothing(x);
    if Cites(x.t, letter, p) {
      CitedEnd(x.t, letter, p);
      FollowsMore(x, p, GroupEnd(x.t, p).value, [], []);
      assert [Span(p, GroupEnd(x.t, p).value)] + [] == [Span(p, GroupEnd(x.t, p).value)];
      assert [Span(At(x, p), GroupEnd(x.u, At(x, p)).value)] + [] == [Span(At(x, p), GroupEnd(x.u, At(x, p)).value)];
      hide Follows;
    }
  }

  ghost predicate EndBy(spans: seq<Span>, limit: nat)
  {
    forall g | g in spans :: g.start <= g.end <= limit
  }

  lemma FollowsBefore(x: Exchange, a: seq<Span>, b: seq<Span>)
    requires Follows(x, a, b) && EndBy(a, x.s)
    ensures a == b
  {
    hide Valid;
    forall i | 0 <= i < |a| ensures a[i] == b[i] {
      assert a[i] in a;
    }
  }

  lemma {:induction false} HeadSame(x: Exchange, letter: char -> bool, i: nat)
    requires i <= x.s
    ensures x.s <= |x.t| && x.s <= |x.u|
    ensures GroupsTo(x.t, letter, i, x.s) == GroupsTo(x.u, letter, i, x.s)
    ensures EndBy(GroupsTo(x.t, letter, i, x.s), x.s)
    decreases x.s - i
  {
    hide *;
    SameBefore(x, i);
    SameBefore(x, x.s);
    BeforeIsOk(x, i);
    GroupsUnfold(x.t, letter, i, x.s);
    GroupsUnfold(x.u, letter, i, x.s);
    if i < x.s {
      CitationMoves(x, letter, i);
      EndsByStart(x, letter, i);
      FollowsBefore(x, CitationAt(x.t, letter, i), CitationAt(x.u, letter, i));
      HeadSame(x, letter, i + 1);
      EndByBoth(CitationAt(x.t, letter, i), GroupsTo(x.t, letter, i + 1, x.s), x.s);
    } else {
      EndByNone(x.s);
    }
  }

  lemma BeforeIsOk(x: Exchange, i: nat)
    requires i <= x.s
    ensures Ok(x, i) && At(x, i) == i
  {
    hide Valid;
  }

  lemma EndsByStart(x: Exchange, letter: char -> bool, i: nat)
    requires i < x.s && i < |x.t| && forall g | g in CitationAt(x.t, letter, i) :: g.end <= x.s
    ensures EndBy(CitationAt(x.t, letter, i), x.s)
  {
    hide Valid, GroupEnd, HasMarker, Shielded;
  }

  lemma EndByBoth(a: seq<Span>, b: seq<Span>, limit: nat)
    requires EndBy(a, limit) && EndBy(b, limit)
    ensures EndBy(a + b, limit)
  {
  }

  lemma EndByNone(limit: nat)
    ensures EndBy([], limit)
  {
  }

  lemma GroupsUnfold(text: string, letter: char -> bool, i: nat, j: nat)
    requires i <= j <= |text|
    ensures GroupsTo(text, letter, i, j) ==
              if i == j then [] else CitationAt(text, letter, i) + GroupsTo(text, letter, i + 1, j)
  {
    hide CitationAt;
  }

  lemma {:induction false} TailFollows(x: Exchange, letter: char -> bool, i: nat)
    requires Ok(x, i) && x.e <= i <= |x.t| && At(x, i) <= |x.u|
    ensures Follows(x, GroupsTo(x.t, letter, i, |x.t|), GroupsTo(x.u, letter, At(x, i), |x.u|))
    decreases |x.t| - i
  {
    hide *;
    Ends(x);
    Same(x, i);
    GroupsUnfold(x.t, letter, i, |x.t|);
    GroupsUnfold(x.u, letter, At(x, i), |x.u|);
    if i < |x.t| {
      Same(x, i + 1);
      CitationMoves(x, letter, i);
      TailFollows(x, letter, i + 1);
      FollowsBoth(x, CitationAt(x.t, letter, i), CitationAt(x.u, letter, At(x, i)),
                  GroupsTo(x.t, letter, i + 1, |x.t|), GroupsTo(x.u, letter, At(x, i) + 1, |x.u|));
    } else {
      FollowsNothing(x);
    }
  }

  lemma {:induction false} BodyEndQuiet(text: string, i: nat, k: nat)
    requires i <= k < |text| && text[k] == ']' && forall j | i <= j < k :: Quiet(text[j])
    ensures BodyEnd(text, i) == k
    decreases k - i
  {
    if i < k {
      BodyEndQuiet(text, i + 1, k);
    }
  }

  lemma ConvertedGroup(x: Exchange)
    requires x.s < |x.t| && GroupEnd(x.t, x.s) == Some(x.e)
    ensures x.s < |x.u| && GroupEnd(x.u, x.s) == Some(x.f)
  {
    Brackets(x);
    BodyEndQuiet(x.u, x.s + 1, x.f - 1);
    Same(x, x.s);
    Same(x, x.e);
    hide Valid, Quiet, Bracket;
    GroupEndFacts(x.t, x.s);
    GroupEndFacts(x.u, x.s);
    hide GroupEnd;
  }

  lemma NotCited(text: string, letter: char -> bool, i: nat, end: nat)
    requires i < |text| && GroupEnd(text, i) == Some(end) && !HasMarker(text[i + 1..end - 1])
    ensures CitationAt(text, letter, i) == []
  {
    hide HasMarker, Shielded;
  }

  lemma GroupsAreAll(text: string, letter: char -> bool)
    ensures Groups(text, letter) == GroupsTo(text, letter, 0, |text|)
  {
  }

  /** The other citations stay, in their places. */
  lemma GroupsSwap(x: Exchange, letter: char -> bool)
    requires x.s < |x.t| && GroupEnd(x.t, x.s) == Some(x.e) && CitationAt(x.t, letter, x.s) == [Span(x.s, x.e)]
    requires x.f <= |x.u| && !HasMarker(x.u[x.s + 1..x.f - 1])
    ensures x.e <= |x.t|
    ensures Groups(x.t, letter) ==
              GroupsTo(x.t, letter, 0, x.s) + [Span(x.s, x.e)] + GroupsTo(x.t, letter, x.e, |x.t|)
    ensures Groups(x.u, letter) == GroupsTo(x.t, letter, 0, x.s) + GroupsTo(x.u, letter, x.f, |x.u|)
    ensures EndBy(GroupsTo(x.t, letter, 0, x.s), x.s)
    ensures Follows(x, GroupsTo(x.t, letter, x.e, |x.t|), GroupsTo(x.u, letter, x.f, |x.u|))
  {
    hide *;
    GroupsAreAll(x.t, letter);
    GroupsAreAll(x.u, letter);
    Ends(x);
    ConvertedGroup(x);
    NotCited(x.u, letter, x.s, x.f);
    GroupsAfter(x.t, letter, x.s, x.e);
    GroupsAfter(x.u, letter, x.s, x.f);
    GroupsSplit(x.t, letter, 0, x.s, |x.t|);
    GroupsSplit(x.u, letter, 0, x.s, |x.u|);
    HeadSame(x, letter, 0);
    TailFollows(x, letter, x.e);
  }

  /* ---- one pass and the next ---- */

  ghost predicate Settled(text: string, context: Context, groups: seq<Span>)
  {
    AllFit(text, groups) && forall i | 0 <= i < |groups| :: ConversionOf(text, context, groups[i]).None?
  }

  lemma SameConversion(t: string, g: Span, u: string, h: Span, context: Context)
    requires Fits(t, g) && Fits(u, h)
    requires t[g.start..g.end] == u[h.start..h.end] && t[g.start + 1..g.end - 1] == u[h.start + 1..h.end - 1]
    ensures ConversionOf(t, context, g) == ConversionOf(u, context, h) && Result(t, context, g) == Result(u, context, h)
  {
    hide Convert, Cite;
  }

  /** A group after the bracket is the same group in both texts. */
  lemma MovedGroup(x: Exchange, g: Span, h: Span, context: Context)
    requires x.e <= g.start && Fits(x.t, g) && Ok(x, g.start) && Ok(x, g.end)
    requires h == Span(At(x, g.start), At(x, g.end))
    ensures Fits(x.u, h) && ConversionOf(x.t, context, g) == ConversionOf(x.u, context, h)
    ensures x.t[g.start..g.end] == x.u[h.start..h.end] && Result(x.t, context, g) == Result(x.u, context, h)
  {
    hide Valid, Convert, Cite, Result, ConversionOf;
    Ends(x);
    SliceAfter(x, g.start, g.end);
    SliceAfter(x, g.start + 1, g.end - 1);
    SameConversion(x.t, g, x.u, h, context);
  }

  lemma FollowsInOrder(x: Exchange, a: seq<Span>, b: seq<Span>, from: nat)
    requires Follows(x, a, b) && InOrder(x.t, a, from) && x.e <= from <= |x.t|
    ensures At(x, from) <= |x.u| && InOrder(x.u, b, At(x, from))
  {
    Same(x, from);
    Brackets(x);
    var shift := |x.u| - |x.t|;
    assert |x.t| - x.e == |x.u| - x.f;
    hide Valid;
    forall i | 0 <= i < |b| ensures At(x, from) <= b[i].start && b[i].start + 2 <= b[i].end <= |x.u| {
      assert from <= a[i].start && a[i].end <= |x.t|;
    }
    forall i, j | 0 <= i < j < |b| ensures b[i].end <= b[j].start {
      assert a[i].end <= a[j].start && from <= a[i].start;
    }
  }

  lemma FollowsRest(x: Swap, a: seq<Span>, b: seq<Span>)
    requires Follows(x, a, b) && a != []
    ensures b != [] && Follows(x, a[1..], b[1..])
    ensures Ok(x, a[0].start) && Ok(x, a[0].end) && b[0] == Span(At(x, a[0].start), At(x, a[0].end))
  {
    assert b[1..] == Moved(x, a[1..]);
  }

  lemma {:induction false} RewrittenMoves(x: Exchange, a: seq<Span>, b: seq<Span>, context: Context, from: nat)
    requires Follows(x, a, b) && InOrder(x.t, a, from) && x.e <= from <= |x.t|
    ensures At(x, from) <= |x.u| && InOrder(x.u, b, At(x, from)) && AllFit(x.t, a) && AllFit(x.u, b)
    ensures Rewritten(x.u, context, b, At(x, from)) == Rewritten(x.t, context, a, from)
    ensures Unresolved(x.u, context, b) == Unresolved(x.t, context, a)
    decreases |a|
  {
    FollowsInOrder(x, a, b, from);
    Ends(x);
    if a == [] {
      SliceAfter(x, from, |x.t|);
      Same(x, |x.t|);
    } else {
      hide Valid, Follows, InOrder, Rewritten, Unresolved, ConversionOf, Result;
      HeadStep(x.t, context, a, from);
      HeadStep(x.u, context, b, At(x, from));
      FollowsRest(x, a, b);
      MovedGroup(x, a[0], b[0], context);
      SliceAfter(x, from, a[0].start);
      RewrittenMoves(x, a[1..], b[1..], context, a[0].end);
    }
  }

  lemma RewrittenFrom(text: string, context: Context, groups: seq<Span>, from: nat, to: nat)
    requires from <= to <= |text| && InOrder(text, groups, to)
    ensures InOrder(text, groups, from)
    ensures Rewritten(text, context, groups, from) == text[from..to] + Rewritten(text, context, groups, to)
  {
    hide *;
    InOrderEarlier(text, groups, to, from);
    if groups == [] {
      TailStep(text, context, from);
      TailStep(text, context, to);
      SliceJoins(text, from, to, |text|);
    } else {
      HeadStep(text, context, groups, from);
      HeadStep(text, context, groups, to);
      var g := groups[0];
      SliceJoins(text, from, to, g.start);
      Associate(text[from..to], text[to..g.start], Result(text, context, g),
                Rewritten(text, context, groups[1..], g.end));
    }
  }

  lemma SliceJoins(text: string, a: nat, b: nat, c: nat)
    requires a <= b <= c <= |text|
    ensures text[a..c] == text[a..b] + text[b..c] && text[a..|text|] == text[a..]
  {
  }

  /** Groups before the bracket are the same groups in both texts. */
  lemma SettledBefore(x: Exchange, groups: seq<Span>, context: Context)
    requires Settled(x.t, context, groups) && EndBy(groups, x.s)
    ensures Settled(x.u, context, groups) && Texts(x.u, groups) == Texts(x.t, groups)
  {
    Ends(x);
    hide Valid, ConversionOf;
    forall i | 0 <= i < |groups|
      ensures Fits(x.u, groups[i]) && ConversionOf(x.u, context, groups[i]) == ConversionOf(x.t, context, groups[i])
      ensures x.u[groups[i].start..groups[i].end] == x.t[groups[i].start..groups[i].end]
    {
      var g := groups[i];
      assert g in groups && Fits(x.t, g);
      SliceBefore(x, g.start, g.end);
      SliceBefore(x, g.start + 1, g.end - 1);
      SameConversion(x.t, g, x.u, g, context);
    }
  }

  /** One group left as it is. */
  lemma SettledMore(text: string, context: Context, groups: seq<Span>, g: Span)
    requires Settled(text, context, groups) && Fits(text, g) && ConversionOf(text, context, g).None?
    ensures Settled(text, context, groups + [g])
    ensures Texts(text, groups + [g]) == Texts(text, groups) + [text[g.start..g.end]]
  {
    hide ConversionOf;
  }

  /**
   Converting what is pending, after groups that cannot be converted: in the result exactly the
   groups that could not be converted are left.
   */
  lemma {:induction false} Settle(text: string, letter: char -> bool, context: Context, done: seq<Span>, pending: seq<Span>)
    requires context.Valid() && Groups(text, letter) == done + pending
    requires Settled(text, context, done) && InOrder(text, pending, 0)
    ensures AllFit(text, pending)
    ensures var out := Rewritten(text, context, pending, 0);
            && Settled(out, context, Groups(out, letter))
            && Texts(out, Groups(out, letter)) == Texts(text, done) + Unresolved(text, context, pending)
    decreases |pending|
  {
    hide *;
    if pending == [] {
      TailStep(text, context, 0);
      SliceJoins(text, 0, 0, |text|);
      assert done + pending == done && text[0..] == text;
      assert AllFit(text, done) by { SettledFits(text, context, done); }
      assert AllFit(text, pending) by { NothingFits(text, pending); }
      NothingUnresolved(text, context, pending, Texts(text, done));
    } else {
      HeadStep(text, context, pending, 0);
      if ConversionOf(text, context, pending[0]).None? {
        Leave(text, letter, context, done, pending);
      } else {
        Change(text, letter, context, done, pending);
      }
    }
  }

  lemma NothingFits(text: string, pending: seq<Span>)
    requires pending == []
    ensures AllFit(text, pending)
  {
  }

  lemma SettledFits(text: string, context: Context, groups: seq<Span>)
    requires Settled(text, context, groups)
    ensures AllFit(text, groups)
  {
  }

  lemma NothingUnresolved(text: string, context: Context, pending: seq<Span>, texts: seq<string>)
    requires pending == []
    ensures AllFit(text, pending) && texts + Unresolved(text, context, pending) == texts
  {
  }

  lemma LeftAlone(text: string, context: Context, g: Span)
    requires Fits(text, g) && ConversionOf(text, context, g).None?
    ensures g.start <= g.end <= |text| && Result(text, context, g) == text[g.start..g.end]
  {
    hide ConversionOf;
  }

  lemma {:induction false} Leave(text: string, letter: char -> bool, context: Context, done: seq<Span>, pending: seq<Span>)
    requires context.Valid() && Groups(text, letter) == done + pending && Settled(text, context, done)
    requires InOrder(text, pending, 0) && pending != [] && Fits(text, pending[0])
    requires ConversionOf(text, context, pending[0]).None?
    ensures AllFit(text, pending)
    ensures var out := Rewritten(text, context, pending, 0);
            && Settled(out, context, Groups(out, letter))
            && Texts(out, Groups(out, letter)) == Texts(text, done) + Unresolved(text, context, pending)
    decreases |pending|, 0
  {
    hide *;
    var g, rest := pending[0], pending[1..];
    LeftAlone(text, context, g);
    SettledFits(text, context, done);
    HeadStep(text, context, pending, 0);
    SettledMore(text, context, done, g);
    InOrderEarlier(text, rest, g.end, 0);
    RewrittenFrom(text, context, rest, 0, g.end);
    SliceJoins(text, 0, g.start, g.end);
    assert done + pending == done + [g] + rest;
    Settle(text, letter, context, done + [g], rest);
    AssociateTexts(Texts(text, done), [text[g.start..g.end]], Unresolved(text, context, rest));
  }

  lemma CitationIs(text: string, letter: char -> bool, i: nat, g: Span)
    requires i < |text| && g in CitationAt(text, letter, i)
    ensures g.start == i && GroupEnd(text, i) == Some(g.end) && CitationAt(text, letter, i) == [g]
  {
    hide GroupEnd, HasMarker, Shielded;
  }

  lemma {:induction false} GroupsCite(text: string, letter: char -> bool, i: nat, g: Span)
    requires i <= |text| && g in GroupsTo(text, letter, i, |text|)
    ensures g.start < |text| && GroupEnd(text, g.start) == Some(g.end) && CitationAt(text, letter, g.start) == [g]
    decreases |text| - i
  {
    hide *;
    GroupsUnfold(text, letter, i, |text|);
    if g in CitationAt(text, letter, i) {
      CitationIs(text, letter, i, g);
    } else {
      GroupsCite(text, letter, i + 1, g);
    }
  }

  /** The groups before a group and after it are determined by it. */
  lemma SplitAt(text: string, a: seq<Span>, b: seq<Span>, g: Span, c: seq<Span>, d: seq<Span>)
    requires a + [g] + b == c + [g] + d && InOrder(text, a + [g] + b, 0)
    ensures a == c && b == d
  {
    var all := a + [g] + b;
    assert all == c + [g] + d;
    assert all[|a|] == g && all[|c|] == g;
    assert |a| == |c|;
    assert a == all[..|a|] && c == all[..|c|] && b == all[|a| + 1..] && d == all[|c| + 1..];
  }

  lemma TailStep(text: string, context: Context, from: nat)
    requires from <= |text|
    ensures InOrder(text, [], from) && AllFit(text, [])
    ensures Rewritten(text, context, [], from) == text[from..]
    ensures Passages(text, context, []) == 0 && Unresolved(text, context, []) == []
  {
  }

  lemma StepSlices(text: string, context: Context, g: Span)
    requires Fits(text, g) && ConversionOf(text, context, g).Some?
    ensures var x := Step(text, context, g);
            && x.t == text && x.s == g.start && x.e == g.end && x.f <= |x.u|
            && x.u[0..x.f] == text[0..g.start] + Result(text, context, g)
  {
    hide ConversionOf, Cite;
    var x := Step(text, context, g);
    assert x.u[0..x.f] == text[..g.start] + Cite(ConversionOf(text, context, g).value.parents);
  }

  lemma {:induction false} Change(text: string, letter: char -> bool, context: Context, done: seq<Span>, pending: seq<Span>)
    requires context.Valid() && Groups(text, letter) == done + pending && Settled(text, context, done)
    requires InOrder(text, pending, 0) && pending != [] && Fits(text, pending[0])
    requires ConversionOf(text, context, pending[0]).Some?
    ensures AllFit(text, pending)
    ensures var out := Rewritten(text, context, pending, 0);
            && Settled(out, context, Groups(out, letter))
            && Texts(out, Groups(out, letter)) == Texts(text, done) + Unresolved(text, context, pending)
    decreases |pending|, 0
  {
    hide *;
    var g, rest := pending[0], pending[1..];
    GroupsAreAll(text, letter);
    assert done + pending == done + [g] + rest;
    assert g in Groups(text, letter) by { assert (done + [g] + rest)[|done|] == g; }
    HeadStep(text, context, pending, 0);
    GroupsInOrder(text, letter, 0);
    GroupsCite(text, letter, 0, g);
    StepIsExchange(text, context, g);
    StepSlices(text, context, g);
    var x: Exchange := Step(text, context, g);
    GroupsSwap(x, letter);
    var before, after, moved := GroupsTo(text, letter, 0, x.s), GroupsTo(text, letter, x.e, |text|), GroupsTo(x.u, letter, x.f, |x.u|);
    assert g == Span(x.s, x.e);
    SplitAt(text, done, rest, g, before, after);
    SettledBefore(x, done, context);
    Ends(x);
    RewrittenMoves(x, rest, moved, context, x.e);
    InOrderEarlier(x.u, moved, x.f, 0);
    RewrittenFrom(x.u, context, moved, 0, x.f);
    FollowsLength(x, rest, moved);
    Settle(x.u, letter, context, done, moved);
    NothingUnresolved(text, context, [], []);
    assert [] + Unresolved(text, context, rest) == Unresolved(text, context, rest);
  }

  lemma FollowsLength(x: Swap, a: seq<Span>, b: seq<Span>)
    requires Follows(x, a, b)
    ensures |a| == |b|
  {
  }

  lemma SettledRest(text: string, context: Context, groups: seq<Span>)
    requires Settled(text, context, groups) && groups != []
    ensures Fits(text, groups[0]) && ConversionOf(text, context, groups[0]).None? && Settled(text, context, groups[1..])
    ensures AllFit(text, groups) && AllFit(text, groups[1..])
    ensures Texts(text, groups) == [text[groups[0].start..groups[0].end]] + Texts(text, groups[1..])
  {
    hide ConversionOf;
  }

  lemma {:induction false} SettledUnchanged(text: string, context: Context, groups: seq<Span>, from: nat)
    requires from <= |text| && InOrder(text, groups, from) && Settled(text, context, groups)
    ensures AllFit(text, groups)
    ensures Rewritten(text, context, groups, from) == text[from..] && Passages(text, context, groups) == 0
    ensures Unresolved(text, context, groups) == Texts(text, groups)
    decreases |groups|
  {
    hide *;
    SettledFits(text, context, groups);
    if groups == [] {
      TailStep(text, context, from);
      NoTexts(text, groups);
    } else {
      var g, rest := groups[0], groups[1..];
      SettledRest(text, context, groups);
      LeftAlone(text, context, g);
      HeadStep(text, context, groups, from);
      SettledUnchanged(text, context, rest, g.end);
      SliceJoins(text, from, g.start, |text|);
      SliceJoins(text, g.start, g.end, |text|);
      Associate("", text[from..g.start], text[g.start..g.end], text[g.end..]);
    }
  }

  lemma NoTexts(text: string, groups: seq<Span>)
    requires groups == []
    ensures AllFit(text, groups) && Texts(text, groups) == []
  {
  }

  /** A second pass changes nothing, converts nothing, and finds the same invalid citations. */
  lemma NormalizeTwice(answer: string, letter: char -> bool, evidence: Option<Context>)
    requires evidence.Some? ==> evidence.value.Valid()
    ensures var once := Normalize(answer, letter, evidence);
            Normalize(once.answer, letter, evidence) == Normalization(once.answer, 0, once.invalid)
  {
    var groups := Groups(answer, letter);
    if groups != [] && evidence.Some? {
      var context := evidence.value;
      assert groups == [] + groups;
      assert Groups(answer, letter) == GroupsTo(answer, letter, 0, |answer|);
      GroupsInOrder(answer, letter, 0);
      hide Settled, GroupsTo, Rewritten, InOrder, Unresolved, Texts, Passages;
      NothingSettled(answer, context);
      Settle(answer, letter, context, [], groups);
      var out := Rewritten(answer, context, groups, 0);
      GroupsInOrder(out, letter, 0);
      SettledUnchanged(out, context, Groups(out, letter), 0);
      assert out[0..] == out;
      NothingUnresolved(answer, context, [], []);
      assert [] + Unresolved(answer, context, groups) == Unresolved(answer, context, groups);
      TailStep(out, context, 0);
    }
  }

  lemma NothingSettled(text: string, context: Context)
    ensures Settled(text, context, []) && Texts(text, []) == []
  {
  }

  /* ---- what is counted ---- */

  lemma StrippedHolds(token: string, k: nat)
    requires k < |token| && !IsSpace(token[k])
    ensures exists j | 0 <= j < |Strip(token)| :: Upper(Strip(token))[j] == M.Fold(token[k])
  {
    var from := S.TrimStart(token, 0, |token|);
    var to := S.TrimEnd(token, from, |token|);
    hide S.TrimStart, S.TrimEnd;
    assert Upper(Strip(token))[k - from] == M.Fold(token[k]);
  }

  lemma ColonMeansPassage(token: string, context: Context)
    requires Resolve(token, context).Some? && ':' in token
    ensures IsPassage(Upper(Strip(token)))
  {
    var k :| 0 <= k < |token| && token[k] == ':';
    hide Strip, IsPassage;
    StrippedHolds(token, k);
    if IsSource(Upper(Strip(token))) {
      SourceSigns(Upper(Strip(token)));
    }
  }

  /** A citation of passages that converts, converts at least one. */
  lemma MarkedCounts(body: string, context: Context)
    requires HasMarker(body) && Convert(body, context).Some?
    ensures Convert(body, context).value.passages > 0
  {
    MarkerHasColon(body);
    var k :| 0 <= k < |body| && body[k] == ':';
    SplitCovers(body, k);
    hide HasMarker, Split, Resolve, IsPassage, Upper, Strip;
    var t :| t in Split(body) && ':' in t;
    ResolvesExactly(Split(body), context, [], 0);
    hide ResolveAll;
    ColonMeansPassage(t, context);
  }

  lemma CitedMarker(text: string, letter: char -> bool, g: Span)
    requires g.start < |text| && GroupEnd(text, g.start) == Some(g.end) && CitationAt(text, letter, g.start) == [g]
    ensures HasMarker(text[g.start + 1..g.end - 1])
  {
    hide HasMarker, GroupEnd, Shielded;
  }

  lemma ConversionBody(text: string, context: Context, g: Span)
    requires Fits(text, g)
    ensures g.start + 2 <= g.end <= |text| && ConversionOf(text, context, g) == Convert(text[g.start + 1..g.end - 1], context)
  {
    hide Convert;
  }

  lemma CitationCounts(text: string, letter: char -> bool, context: Context, g: Span)
    requires g in Groups(text, letter) && Fits(text, g) && ConversionOf(text, context, g).Some?
    ensures ConversionOf(text, context, g).value.passages > 0
  {
    hide *;
    GroupsAreAll(text, letter);
    GroupsCite(text, letter, 0, g);
    CitedMarker(text, letter, g);
    ConversionBody(text, context, g);
    MarkedCounts(text[g.start + 1..g.end - 1], context);
  }

  lemma {:induction false} CountedAll(text: string, letter: char -> bool, context: Context, groups: seq<Span>)
    requires AllFit(text, groups) && Passages(text, context, groups) == 0
    requires forall i | 0 <= i < |groups| :: groups[i] in Groups(text, letter)
    ensures Settled(text, context, groups)
    decreases |groups|
  {
    hide Groups, ConversionOf, Fits;
    if groups != [] {
      var g, rest := groups[0], groups[1..];
      assert forall i | 0 <= i < |rest| :: rest[i] == groups[i + 1];
      CountedAll(text, letter, context, rest);
      if ConversionOf(text, context, g).Some? {
        CitationCounts(text, letter, context, g);
      }
      forall i | 0 <= i < |groups| ensures ConversionOf(text, context, groups[i]).None? {
        if i > 0 {
          assert groups[i] == rest[i - 1];
        }
      }
    }
  }

  /** The count says whether anything was changed. */
  lemma NothingConverted(answer: string, letter: char -> bool, evidence: Option<Context>)
    requires Normalize(answer, letter, evidence).converted == 0
    ensures Normalize(answer, letter, evidence).answer == answer
  {
    var groups := Groups(answer, letter);
    if groups != [] && evidence.Some? {
      GroupsAreAll(answer, letter);
      GroupsInOrder(answer, letter, 0);
      assert Normalize(answer, letter, evidence).answer == Rewritten(answer, evidence.value, groups, 0);
      hide Rewritten, Passages, Unresolved, Groups, Settled;
      assert forall i | 0 <= i < |groups| :: groups[i] in groups;
      CountedAll(answer, letter, evidence.value, groups);
      SettledUnchanged(answer, evidence.value, groups, 0);
      assert answer[0..] == answer;
    }
  }
}
