/**
 Rewriting passage citations to source citations, as `normalize_answer_citations` of
 answer_citations.py does.
 */
module Citations {
  import opened Basics
  import opened CitationShields
  import M = MathSpans
  import S = PublicationSegments

  /** The passages and sources of one evidence snapshot; identifiers are in capitals. */
  datatype Context = Context(anchors: map<string, string>, known: set<string>)
  {
    ghost predicate Valid()
    {
      && (forall pid | pid in anchors :: IsSource(anchors[pid]))
      && (forall id | id in known :: IsSource(id))
    }
  }

  /* ---- identifiers ---- */

  predicate IsDigit(c: char)
  {
    '0' <= c <= '9'
  }

  predicate IsNumber(s: string)
  {
    s != [] && s[0] != '0' && forall c | c in s :: IsDigit(c)
  }

  predicate IsSource(s: string)
  {
    s != [] && s[0] == 'E' && IsNumber(s[1..])
  }

  function Find(s: string, c: char, i: nat): (k: nat)
    requires i <= |s|
    ensures i <= k <= |s| && (k < |s| ==> s[k] == c) && c !in s[i..k]
    decreases |s| - i
  {
    if i == |s| || s[i] == c then i else
    var k := Find(s, c, i + 1);
    assert s[i..k] == [s[i]] + s[i + 1..k];
    k
  }

  predicate IsPassage(s: string)
  {
    var k := Find(s, ':', 0);
    k + 1 < |s| && IsSource(s[..k]) && s[k + 1] == 'P' && IsNumber(s[k + 2..])
  }

  function Upper(s: string): (r: string)
    ensures |r| == |s|
  {
    seq(|s|, i requires 0 <= i < |s| => M.Fold(s[i]))
  }

  function Strip(s: string): string
  {
    var from := S.TrimStart(s, 0, |s|);
    s[from..S.TrimEnd(s, from, |s|)]
  }

  /** The source a token names, if it names a known source or a known passage. */
  function Resolve(token: string, context: Context): Option<string>
  {
    var id := Upper(Strip(token));
    if IsPassage(id) then (if id in context.anchors then Some(context.anchors[id]) else None)
    else if IsSource(id) && id in context.known then Some(id)
    else None
  }

  predicate IsSeparator(c: char)
  {
    c == ',' || c == ';'
  }

  function SeparatorFrom(s: string, i: nat): (k: nat)
    requires i <= |s|
    ensures i <= k <= |s| && (k < |s| ==> IsSeparator(s[k]))
    decreases |s| - i
  {
    if i == |s| || IsSeparator(s[i]) then i else SeparatorFrom(s, i + 1)
  }

  function Split(s: string): (tokens: seq<string>)
    ensures tokens != []
    decreases |s|
  {
    var k := SeparatorFrom(s, 0);
    if k == |s| then [s] else [s[..k]] + Split(s[k + 1..])
  }

  /* ---- conversion of a group ---- */

  const MAX_CHARS := 4096
  const MAX_TOKENS := 32

  datatype Conversion = Conversion(parents: seq<string>, passages: nat)

  function ResolveAll(tokens: seq<string>, context: Context, parents: seq<string>, passages: nat): Option<Conversion>
  {
    if tokens == [] then Some(Conversion(parents, passages)) else
    var parent := Resolve(tokens[0], context);
    if parent.None? then None else
    ResolveAll(tokens[1..], context,
               if parent.value in parents then parents else parents + [parent.value],
               if IsPassage(Upper(Strip(tokens[0]))) then passages + 1 else passages)
  }

  function Convert(body: string, context: Context): Option<Conversion>
  {
    if |body| > MAX_CHARS || |Split(body)| > MAX_TOKENS then None else ResolveAll(Split(body), context, [], 0)
  }

  method ConvertGroup(body: string, context: Context) returns (r: Option<Conversion>)
    ensures r == Convert(body, context)
  {
    hide Split, Resolve, IsPassage;
    if |body| > MAX_CHARS {
      return None;
    }
    var tokens := Split(body);
    if |tokens| > MAX_TOKENS {
      return None;
    }
    var parents: seq<string>, count: nat := [], 0;
    for k := 0 to |tokens|
      invariant ResolveAll(tokens, context, [], 0) == ResolveAll(tokens[k..], context, parents, count)
    {
      var token := tokens[k];
      assert tokens[k..][0] == token && tokens[k..][1..] == tokens[k + 1..];
      var parent := Resolve(token, context);
      if parent.None? {
        return None;
      }
      if IsPassage(Upper(Strip(token))) {
        count := count + 1;
      }
      if parent.value !in parents {
        parents := parents + [parent.value];
      }
    }
    assert tokens[|tokens|..] == [];
    return Some(Conversion(parents, count));
  }

  ghost predicate Distinct(s: seq<string>)
  {
    forall i, j | 0 <= i < j < |s| :: s[i] != s[j]
  }

  /** Whether the tokens resolve, and to what: exactly their sources, each once. */
  lemma {:induction false} ResolvesExactly(tokens: seq<string>, context: Context, parents: seq<string>, passages: nat)
    requires Distinct(parents)
    ensures ResolveAll(tokens, context, parents, passages).Some? <==> forall t | t in tokens :: Resolve(t, context).Some?
    ensures var r := ResolveAll(tokens, context, parents, passages);
            r.Some? ==>
              && Distinct(r.value.parents) && passages <= r.value.passages
              && (forall p :: p in r.value.parents <==> p in parents || exists t | t in tokens :: Resolve(t, context) == Some(p))
              && ((exists t | t in tokens :: IsPassage(Upper(Strip(t)))) ==> passages < r.value.passages)
    decreases |tokens|
  {
    hide Resolve, IsPassage;
    if tokens != [] {
      assert forall t | t in tokens :: t == tokens[0] || t in tokens[1..];
      var parent := Resolve(tokens[0], context);
      if parent.Some? {
        var more := if parent.value in parents then parents else parents + [parent.value];
        ResolvesExactly(tokens[1..], context, more,
                        if IsPassage(Upper(Strip(tokens[0]))) then passages + 1 else passages);
      }
    }
  }

  function Join(parts: seq<string>): string
  {
    if parts == [] then "" else
    if |parts| == 1 then parts[0] else parts[0] + ", " + Join(parts[1..])
  }

  /* ---- groups ---- */

  /** The next bracket or line end. */
  function BodyEnd(text: string, i: nat): (k: nat)
    requires i <= |text|
    ensures i <= k <= |text|
    ensures k < |text| ==> text[k] == '[' || text[k] == ']' || text[k] == '\r' || text[k] == '\n'
    ensures forall j | i <= j < k :: text[j] != '[' && text[j] != ']' && text[j] != '\r' && text[j] != '\n'
    decreases |text| - i
  {
    if i == |text| || text[i] == '[' || text[i] == ']' || text[i] == '\r' || text[i] == '\n' then i
    else BodyEnd(text, i + 1)
  }

  /** The end of the single bracket that begins at `i`. */
  function GroupEnd(text: string, i: nat): (r: Option<nat>)
    requires i < |text|
    ensures r.Some? ==> i + 2 <= r.value <= |text|
  {
    if text[i] != '[' || (i > 0 && text[i - 1] == '[') then None else
    var k := BodyEnd(text, i + 1);
    if k == |text| || text[k] != ']' || (k + 1 < |text| && text[k + 1] == ']') then None else Some(k + 1)
  }

  function SkipName(text: string, i: nat): (r: nat)
    requires i <= |text|
    ensures i <= r <= |text|
    decreases |text| - i
  {
    if i < |text| && !IsSpace(text[i]) && text[i] != ',' && text[i] != ':' && text[i] != ';' && text[i] != '[' && text[i] != ']'
    then SkipName(text, i + 1) else i
  }

  /** A source, a colon, and the beginning of a passage number. */
  predicate MarkerAt(body: string, i: nat)
    requires i <= |body|
  {
    var name := AfterGap(body, i);
    name < |body| && M.Fold(body[name]) == 'E' &&
    var colon := AfterGap(body, SkipName(body, name + 1));
    colon < |body| && body[colon] == ':' &&
    var passage := AfterGap(body, colon + 1);
    passage < |body| && M.Fold(body[passage]) == 'P'
  }

  predicate HasMarker(body: string)
  {
    MarkerAt(body, 0) || exists k | 0 <= k < |body| :: IsSeparator(body[k]) && MarkerAt(body, k + 1)
  }

  /** A citation of passages, neither in a literal part nor the label of a link or an image. */
  predicate Cites(text: string, letter: char -> bool, i: nat)
    requires i < |text|
  {
    var end := GroupEnd(text, i);
    && end.Some? && HasMarker(text[i + 1..end.value - 1]) && !Shielded(text, letter, i)
    && !(i > 0 && text[i - 1] == '!')
    && !(end.value < |text| && (text[end.value] == '(' || text[end.value] == ':'))
  }

  function CitationAt(text: string, letter: char -> bool, i: nat): seq<Span>
    requires i < |text|
  {
    if Cites(text, letter, i) then [Span(i, GroupEnd(text, i).value)] else []
  }

  /** The citations that begin in `[i, limit)`. */
  function GroupsTo(text: string, letter: char -> bool, i: nat, limit: nat): seq<Span>
    requires limit <= |text|
    decreases limit - i
  {
    if i >= limit then [] else CitationAt(text, letter, i) + GroupsTo(text, letter, i + 1, limit)
  }

  function Groups(text: string, letter: char -> bool): seq<Span>
  {
    GroupsTo(text, letter, 0, |text|)
  }

  lemma InGroupIsNone(text: string, i: nat, j: nat)
    requires i < |text| && GroupEnd(text, i).Some? && i < j < GroupEnd(text, i).value
    ensures GroupEnd(text, j).None?
  {
  }

  lemma {:induction false} GroupsSkip(text: string, letter: char -> bool, i: nat, j: nat)
    requires i <= j <= |text| && forall k: nat | i <= k < j :: GroupEnd(text, k).None?
    ensures GroupsTo(text, letter, i, |text|) == GroupsTo(text, letter, j, |text|)
    decreases j - i
  {
    hide *;
    if i < j {
      NoGroupNoCitation(text, letter, i);
      GroupsStep(text, letter, i);
      GroupsSkip(text, letter, i + 1, j);
    }
  }

  lemma NoGroupNoCitation(text: string, letter: char -> bool, i: nat)
    requires i < |text| && GroupEnd(text, i).None?
    ensures !Cites(text, letter, i)
  {
    hide GroupEnd, Shielded, HasMarker;
  }

  /** How many spans begin at or before the position. */
  method BisectRight(spans: seq<Span>, p: nat) returns (n: nat)
    requires Apart(spans)
    ensures n <= |spans| && (forall k | 0 <= k < n :: spans[k].start <= p) && (n < |spans| ==> p < spans[n].start)
  {
    n := 0;
    while n < |spans| && spans[n].start <= p
      invariant n <= |spans| && forall k | 0 <= k < n :: spans[k].start <= p
    {
      n := n + 1;
    }
  }

  lemma LastDecides(spans: seq<Span>, p: nat, n: nat)
    requires Apart(spans) && n <= |spans|
    requires (forall k | 0 <= k < n :: spans[k].start <= p) && (n < |spans| ==> p < spans[n].start)
    ensures Covered(spans, p) <==> n > 0 && p < spans[n - 1].end
  {
    if n > 0 && p < spans[n - 1].end {
      assert spans[n - 1] in spans;
    }
  }

  /** No citation begins inside a bracket. */
  lemma GroupsAfter(text: string, letter: char -> bool, i: nat, end: nat)
    requires i < |text| && GroupEnd(text, i) == Some(end)
    ensures end <= |text|
    ensures GroupsTo(text, letter, i, |text|) == CitationAt(text, letter, i) + GroupsTo(text, letter, end, |text|)
  {
    forall j: nat | i < j < end ensures GroupEnd(text, j).None? {
      InGroupIsNone(text, i, j);
    }
    hide GroupEnd, Cites;
    GroupsSkip(text, letter, i + 1, end);
  }

  lemma GroupsStep(text: string, letter: char -> bool, i: nat)
    requires i < |text| && !Cites(text, letter, i)
    ensures GroupsTo(text, letter, i, |text|) == GroupsTo(text, letter, i + 1, |text|)
  {
    hide Cites;
  }

  method CitesHere(text: string, letter: char -> bool, spans: seq<Span>, i: nat, end: nat) returns (cites: bool)
    requires Apart(spans) && SameCover(spans, Shields(text, letter)) && i < |text| && GroupEnd(text, i) == Some(end)
    ensures cites == Cites(text, letter, i)
  {
    hide GroupEnd, HasMarker, Covered, Shields;
    var number := BisectRight(spans, i);
    LastDecides(spans, i, number);
    return HasMarker(text[i + 1..end - 1]) && !(number > 0 && i < spans[number - 1].end)
        && !(i > 0 && text[i - 1] == '!') && !(end < |text| && (text[end] == '(' || text[end] == ':'));
  }

  method FindGroups(text: string, letter: char -> bool) returns (groups: seq<Span>)
    ensures groups == Groups(text, letter)
  {
    var spans := FindShields(text, letter);
    hide GroupEnd, Apart, SameCover, Shields, GroupsTo, Cites;
    groups := [];
    var i: nat := 0;
    while i < |text|
      invariant i <= |text| && Groups(text, letter) == groups + GroupsTo(text, letter, i, |text|)
      decreases |text| - i
    {
      var end := GroupEnd(text, i);
      if end.None? {
        NoneCites(text, letter, i);
        GroupsStep(text, letter, i);
        i := i + 1;
        continue;
      }
      GroupsAfter(text, letter, i, end.value);
      var cites := CitesHere(text, letter, spans, i, end.value);
      if cites {
        groups := groups + [Span(i, end.value)];
      }
      i := end.value;
    }
    NoGroups(text, letter);
  }

  lemma NoneCites(text: string, letter: char -> bool, i: nat)
    requires i < |text| && GroupEnd(text, i).None?
    ensures !Cites(text, letter, i)
  {
  }

  lemma NoGroups(text: string, letter: char -> bool)
    ensures GroupsTo(text, letter, |text|, |text|) == []
  {
  }

  /* ---- the rewriting ---- */

  datatype Normalization = Normalization(answer: string, converted: nat, invalid: seq<string>)

  ghost predicate InOrder(text: string, groups: seq<Span>, from: nat)
  {
    && (forall i | 0 <= i < |groups| :: from <= groups[i].start && groups[i].start + 2 <= groups[i].end <= |text|)
    && (forall i, j | 0 <= i < j < |groups| :: groups[i].end <= groups[j].start)
  }

  predicate Fits(text: string, g: Span)
  {
    g.start + 2 <= g.end <= |text|
  }

  function ConversionOf(text: string, context: Context, g: Span): Option<Conversion>
    requires Fits(text, g)
  {
    Convert(text[g.start + 1..g.end - 1], context)
  }

  /** What a group becomes. */
  function Result(text: string, context: Context, g: Span): string
    requires Fits(text, g)
  {
    var r := ConversionOf(text, context, g);
    if r.None? then text[g.start..g.end] else Cite(r.value.parents)
  }

  function Cite(parents: seq<string>): string
  {
    "[" + Join(parents) + "]"
  }

  /** The text from `from` on, each of the groups replaced where it can be. */
  function Rewritten(text: string, context: Context, groups: seq<Span>, from: nat): string
    requires from <= |text| && InOrder(text, groups, from)
    decreases |groups|
  {
    if groups == [] then text[from..] else
    assert InOrder(text, groups[1..], groups[0].end) by { RestInOrder(text, groups, from); }
    text[from..groups[0].start] + Result(text, context, groups[0]) + Rewritten(text, context, groups[1..], groups[0].end)
  }

  lemma RestInOrder(text: string, groups: seq<Span>, from: nat)
    requires InOrder(text, groups, from) && groups != []
    ensures InOrder(text, groups[1..], groups[0].end)
    ensures from <= groups[0].start && Fits(text, groups[0])
  {
  }

  ghost predicate AllFit(text: string, groups: seq<Span>)
  {
    forall i | 0 <= i < |groups| :: Fits(text, groups[i])
  }

  function Passages(text: string, context: Context, groups: seq<Span>): nat
    requires AllFit(text, groups)
  {
    if groups == [] then 0 else
    var r := ConversionOf(text, context, groups[0]);
    (if r.None? then 0 else r.value.passages) + Passages(text, context, groups[1..])
  }

  /** The texts of the groups that cannot be converted. */
  function Unresolved(text: string, context: Context, groups: seq<Span>): seq<string>
    requires AllFit(text, groups)
  {
    if groups == [] then [] else
    (if ConversionOf(text, context, groups[0]).None? then [text[groups[0].start..groups[0].end]] else [])
    + Unresolved(text, context, groups[1..])
  }

  function Texts(text: string, groups: seq<Span>): (texts: seq<string>)
    requires AllFit(text, groups)
    ensures |texts| == |groups|
  {
    seq(|groups|, i requires 0 <= i < |groups| => text[groups[i].start..groups[i].end])
  }

  /** Every text once, in the order of first appearance. */
  function Unique(texts: seq<string>, seen: seq<string>): seq<string>
  {
    if texts == [] then seen
    else Unique(texts[1..], if texts[0] in seen then seen else seen + [texts[0]])
  }

  lemma {:induction false} GroupsInOrder(text: string, letter: char -> bool, i: nat)
    requires i <= |text|
    ensures InOrder(text, GroupsTo(text, letter, i, |text|), i)
    decreases |text| - i
  {
    hide GroupEnd, Cites, GroupsTo, InOrder;
    if i == |text| {
      NoGroups(text, letter);
      EmptyInOrder(text, i);
    } else if Cites(text, letter, i) {
      var end := GroupEndOf(text, letter, i);
      GroupsAfter(text, letter, i, end);
      GroupsInOrder(text, letter, end);
      InOrderBefore(text, Span(i, end), GroupsTo(text, letter, end, |text|));
    } else {
      GroupsStep(text, letter, i);
      GroupsInOrder(text, letter, i + 1);
      InOrderEarlier(text, GroupsTo(text, letter, i + 1, |text|), i + 1, i);
    }
  }

  lemma EmptyInOrder(text: string, from: nat)
    ensures InOrder(text, [], from)
  {
  }

  lemma InOrderEarlier(text: string, groups: seq<Span>, from: nat, earlier: nat)
    requires InOrder(text, groups, from) && earlier <= from
    ensures InOrder(text, groups, earlier)
  {
  }

  lemma InOrderBefore(text: string, g: Span, rest: seq<Span>)
    requires InOrder(text, rest, g.end) && g.start + 2 <= g.end <= |text|
    ensures InOrder(text, [g] + rest, g.start)
  {
    var all := [g] + rest;
    forall j | 1 <= j < |all| ensures g.end <= all[j].start {
      assert all[j] in rest;
    }
  }

  lemma GroupEndOf(text: string, letter: char -> bool, i: nat) returns (end: nat)
    requires i < |text| && Cites(text, letter, i)
    ensures GroupEnd(text, i) == Some(end) && i + 2 <= end <= |text|
  {
    end := GroupEnd(text, i).value;
  }

  /** The whole normalization; without usable evidence every citation is invalid. */
  function Normalize(answer: string, letter: char -> bool, evidence: Option<Context>): Normalization
  {
    GroupsInOrder(answer, letter, 0);
    var groups := Groups(answer, letter);
    if groups == [] then Normalization(answer, 0, [])
    else if evidence.None? then Normalization(answer, 0, Unique(Texts(answer, groups), []))
    else Normalization(Rewritten(answer, evidence.value, groups, 0), Passages(answer, evidence.value, groups),
                       Unique(Unresolved(answer, evidence.value, groups), []))
  }

  /** What the loop has done after `k` groups. */
  ghost predicate DoneTo(text: string, context: Context, groups: seq<Span>, k: nat, previous: nat,
                         chunks: string, converted: nat, invalid: seq<string>)
  {
    && k <= |groups| && previous <= |text| && InOrder(text, groups, 0) && InOrder(text, groups[k..], previous)
    && Rewritten(text, context, groups, 0) == chunks + Rewritten(text, context, groups[k..], previous)
    && Passages(text, context, groups) == converted + Passages(text, context, groups[k..])
    && Unresolved(text, context, groups) == invalid + Unresolved(text, context, groups[k..])
  }

  lemma NothingDone(text: string, context: Context, groups: seq<Span>)
    requires InOrder(text, groups, 0)
    ensures DoneTo(text, context, groups, 0, 0, "", 0, [])
  {
    assert groups[0..] == groups;
    hide Rewritten, Passages, Unresolved;
  }

  lemma Associate(a: string, b: string, c: string, d: string)
    ensures a + (b + c + d) == a + b + c + d
  {
  }

  lemma HeadStep(text: string, context: Context, groups: seq<Span>, from: nat)
    requires from <= |text| && InOrder(text, groups, from) && groups != []
    ensures InOrder(text, groups[1..], groups[0].end) && from <= groups[0].start && Fits(text, groups[0])
    ensures AllFit(text, groups[1..]) && AllFit(text, groups)
    ensures Rewritten(text, context, groups, from) ==
              text[from..groups[0].start] + Result(text, context, groups[0])
              + Rewritten(text, context, groups[1..], groups[0].end)
    ensures var r := ConversionOf(text, context, groups[0]);
            && Passages(text, context, groups) ==
                 (if r.None? then 0 else r.value.passages) + Passages(text, context, groups[1..])
            && Unresolved(text, context, groups) ==
                 (if r.None? then [text[groups[0].start..groups[0].end]] else []) + Unresolved(text, context, groups[1..])
  {
    RestInOrder(text, groups, from);
    hide ConversionOf, Result;
  }

  lemma DoneNext(text: string, context: Context, groups: seq<Span>, k: nat, previous: nat,
                 chunks: string, converted: nat, invalid: seq<string>)
    requires DoneTo(text, context, groups, k, previous, chunks, converted, invalid) && k < |groups|
    ensures previous <= groups[k].start && Fits(text, groups[k])
    ensures var g := groups[k];
            var r := ConversionOf(text, context, g);
            DoneTo(text, context, groups, k + 1, g.end, chunks + text[previous..g.start] + Result(text, context, g),
                   converted + (if r.None? then 0 else r.value.passages),
                   invalid + if r.None? then [text[g.start..g.end]] else [])
  {
    hide InOrder, ConversionOf, Result, Rewritten, Passages, Unresolved, AllFit;
    var g := groups[k];
    HeadStep(text, context, groups[k..], previous);
    assert groups[k..][0] == g && groups[k..][1..] == groups[k + 1..];
    Associate(chunks, text[previous..g.start], Result(text, context, g), Rewritten(text, context, groups[k + 1..], g.end));
    AssociateTexts(invalid, if ConversionOf(text, context, g).None? then [text[g.start..g.end]] else [],
                   Unresolved(text, context, groups[k + 1..]));
  }

  lemma AssociateTexts(a: seq<string>, b: seq<string>, c: seq<string>)
    ensures a + (b + c) == a + b + c
  {
  }

  lemma AllDone(text: string, context: Context, groups: seq<Span>, previous: nat,
                chunks: string, converted: nat, invalid: seq<string>)
    requires DoneTo(text, context, groups, |groups|, previous, chunks, converted, invalid)
    ensures previous <= |text| && InOrder(text, groups, 0)
    ensures Rewritten(text, context, groups, 0) == chunks + text[previous..]
    ensures Passages(text, context, groups) == converted && Unresolved(text, context, groups) == invalid
  {
    assert groups[|groups|..] == [];
  }

  /** One group: what it becomes, the passages converted, and its text if it stays as it is. */
  method RewriteGroup(text: string, context: Context, g: Span)
    returns (group: string, passages: nat, unresolved: seq<string>)
    requires Fits(text, g)
    ensures var r := ConversionOf(text, context, g);
            && group == Result(text, context, g)
            && passages == (if r.None? then 0 else r.value.passages)
            && unresolved == if r.None? then [text[g.start..g.end]] else []
  {
    hide Convert, Cite;
    var conversion := ConvertGroup(text[g.start + 1..g.end - 1], context);
    if conversion.Some? {
      return Cite(conversion.value.parents), conversion.value.passages, [];
    }
    return text[g.start..g.end], 0, [text[g.start..g.end]];
  }

  method RewriteGroups(text: string, context: Context, groups: seq<Span>)
    returns (answer: string, converted: nat, invalid: seq<string>)
    requires InOrder(text, groups, 0)
    ensures answer == Rewritten(text, context, groups, 0)
    ensures converted == Passages(text, context, groups)
    ensures invalid == Unresolved(text, context, groups)
  {
    hide DoneTo, InOrder, Rewritten, Passages, Unresolved, Result, ConversionOf;
    var chunks, previous: nat := "", 0;
    converted, invalid := 0, [];
    NothingDone(text, context, groups);
    for k := 0 to |groups|
      invariant DoneTo(text, context, groups, k, previous, chunks, converted, invalid)
    {
      var g := groups[k];
      DoneNext(text, context, groups, k, previous, chunks, converted, invalid);
      var group, passages, unresolved := RewriteGroup(text, context, g);
      chunks := chunks + text[previous..g.start] + group;
      converted := converted + passages;
      invalid := invalid + unresolved;
      previous := g.end;
    }
    AllDone(text, context, groups, previous, chunks, converted, invalid);
    answer := chunks + text[previous..];
  }

  method NormalizeAnswer(answer: string, letter: char -> bool, evidence: Option<Context>) returns (r: Normalization)
    ensures r == Normalize(answer, letter, evidence)
  {
    var groups := FindGroups(answer, letter);
    GroupsInOrder(answer, letter, 0);
    hide GroupsTo, Rewritten, Passages, Unresolved, Texts, Unique;
    if groups == [] {
      return Normalization(answer, 0, []);
    }
    if evidence.None? {
      return Normalization(answer, 0, Unique(Texts(answer, groups), []));
    }
    var body, converted, invalid := RewriteGroups(answer, evidence.value, groups);
    return Normalization(body, converted, Unique(invalid, []));
  }
}
