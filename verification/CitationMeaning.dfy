/**
 What a citation says: how the bracket is cut into names, which names stand for which sources, and
 when a group is converted, told without the functions that compute it.
 */
module CitationMeaning {
  import opened Basics
  import opened CitationShields
  import opened Citations
  import L = MarkdownLines
  import N = MarkdownNotation
  import S = PublicationSegments
  import M = MathSpans

  /* ---- names ---- */

  /** A number without leading zeros fills the text from `from` on. */
  ghost predicate NumberFrom(s: string, from: nat)
  {
    from < |s| && '1' <= s[from] <= '9' && forall k | from <= k < |s| :: '0' <= s[k] <= '9'
  }

  ghost predicate SourceName(s: string)
  {
    |s| >= 1 && s[0] == 'E' && NumberFrom(s, 1)
  }

  /** A source name, a colon, and `P` with a number; `k` is the place of the colon. */
  ghost predicate PassageNameAt(s: string, k: nat)
  {
    k + 1 < |s| && SourceName(s[..k]) && s[k] == ':' && s[k + 1] == 'P' && NumberFrom(s, k + 2)
  }

  ghost predicate PassageName(s: string)
  {
    exists k: nat :: PassageNameAt(s, k)
  }

  function Capital(c: char): char
  {
    if 'a' <= c <= 'z' then 'A' + (c - 'a') else c
  }

  /** `id` is the token without the blanks around it, in capitals. */
  ghost predicate Names(token: string, id: string, from: nat)
  {
    && from + |id| <= |token|
    && (forall k | 0 <= k < from || from + |id| <= k < |token| :: IsSpace(token[k]))
    && (id != "" ==> !IsSpace(token[from]) && !IsSpace(token[from + |id| - 1]))
    && (forall k | 0 <= k < |id| :: id[k] == Capital(token[from + k]))
  }

  lemma NumberIsFrom(s: string, from: nat)
    requires from <= |s|
    ensures IsNumber(s[from..]) <==> NumberFrom(s, from)
  {
    var tail := s[from..];
    if NumberFrom(s, from) {
      forall c | c in tail ensures IsDigit(c) {
        var k :| 0 <= k < |tail| && tail[k] == c;
        assert s[from + k] == c;
      }
    }
    if IsNumber(tail) {
      forall k | from <= k < |s| ensures '0' <= s[k] <= '9' {
        assert tail[k - from] in tail;
      }
    }
  }

  lemma SourceIsNamed(s: string)
    ensures IsSource(s) <==> SourceName(s)
  {
    if s != [] {
      NumberIsFrom(s, 1);
    }
    hide IsNumber;
  }

  lemma FindFirst(s: string, c: char, i: nat, k: nat)
    requires i <= k < |s| && s[k] == c && c !in s[i..k]
    ensures Find(s, c, i) == k
  {
    var found := Find(s, c, i);
  }

  lemma NoColonInSource(s: string)
    requires SourceName(s)
    ensures ':' !in s
  {
  }

  lemma PassageIsNamed(s: string)
    ensures IsPassage(s) <==> PassageName(s)
  {
    hide IsNumber, SourceName, NumberFrom, IsSource;
    var k := Find(s, ':', 0);
    if k + 1 < |s| {
      SourceIsNamed(s[..k]);
      NumberIsFrom(s, k + 2);
      if IsPassage(s) {
        assert PassageNameAt(s, k);
      }
    }
    if PassageName(s) {
      var j: nat :| PassageNameAt(s, j);
      NoColonInSource(s[..j]);
      assert s[0..j] == s[..j];
      FindFirst(s, ':', 0, j);
    }
  }

  lemma OneTrim(text: string, from: nat, last: nat)
    requires from <= last <= |text|
    requires forall k | 0 <= k < from || last <= k < |text| :: IsSpace(text[k])
    requires from < last ==> !IsSpace(text[from]) && !IsSpace(text[last - 1])
    ensures Strip(text) == text[from..last]
  {
    hide IsSpace;
    var a := S.TrimStart(text, 0, |text|);
    var b := S.TrimEnd(text, a, |text|);
    if from < last {
      assert a == from && b == last;
    } else {
      assert a == |text|;
    }
  }

  /** A token has one name: the token trimmed and capitalised. */
  lemma NameOf(token: string, id: string, from: nat)
    requires Names(token, id, from)
    ensures Upper(Strip(token)) == id
  {
    OneTrim(token, from, from + |id|);
    forall k | 0 <= k < |id| ensures M.Fold(token[from..from + |id|][k]) == id[k] {
      assert token[from..from + |id|][k] == token[from + k];
    }
  }

  /** Whether the context knows the name, and the source it stands for. */
  ghost predicate Known(context: Context, id: string)
  {
    (PassageName(id) && id in context.anchors) || (SourceName(id) && id in context.known)
  }

  ghost function SourceOf(context: Context, id: string): string
    requires Known(context, id)
  {
    if PassageName(id) then context.anchors[id] else id
  }

  lemma OneKind(id: string)
    requires PassageName(id)
    ensures !SourceName(id)
  {
    var k: nat :| PassageNameAt(id, k);
    assert id[k] == ':';
  }

  lemma ResolveMeans(token: string, id: string, from: nat, context: Context)
    requires Names(token, id, from)
    ensures IsPassage(Upper(Strip(token))) <==> PassageName(id)
    ensures Resolve(token, context) == if Known(context, id) then Some(SourceOf(context, id)) else None
  {
    NameOf(token, id, from);
    PassageIsNamed(id);
    SourceIsNamed(id);
    if PassageName(id) {
      OneKind(id);
    }
    hide IsPassage, PassageName, IsSource, SourceName, Upper, Strip, Names;
  }

  /* ---- the bracket cut into tokens ---- */

  /** Tokens put together, each sign between two of them. */
  function Glue(tokens: seq<string>, signs: string): string
    requires |tokens| == |signs| + 1
  {
    if signs == [] then tokens[0] else tokens[0] + [signs[0]] + Glue(tokens[1..], signs[1..])
  }

  /** Tokens with commas and semicolons between them, and none in them. */
  ghost predicate Separated(tokens: seq<string>, signs: string)
  {
    && |tokens| == |signs| + 1
    && (forall c | c in signs :: c == ',' || c == ';')
    && (forall t | t in tokens :: ',' !in t && ';' !in t)
  }

  lemma {:induction false} NoSeparatorYet(s: string, i: nat, k: nat)
    requires i <= k <= |s| && (k < |s| ==> s[k] == ',' || s[k] == ';')
    requires forall j | i <= j < k :: s[j] != ',' && s[j] != ';'
    ensures SeparatorFrom(s, i) == k
    decreases k - i
  {
    if i < k {
      NoSeparatorYet(s, i + 1, k);
    }
  }

  lemma {:induction false} SplitGlue(tokens: seq<string>, signs: string)
    requires Separated(tokens, signs)
    ensures Split(Glue(tokens, signs)) == tokens
    decreases |signs|
  {
    hide Separated, Split;
    SeparatedHead(tokens, signs);
    if signs == [] {
      SplitOne(tokens[0]);
      assert tokens == [tokens[0]];
    } else {
      SplitGlue(tokens[1..], signs[1..]);
      SplitFirst(tokens[0], signs[0], Glue(tokens[1..], signs[1..]));
      assert tokens == [tokens[0]] + tokens[1..];
    }
  }

  lemma SeparatedHead(tokens: seq<string>, signs: string)
    requires Separated(tokens, signs)
    ensures |tokens| == |signs| + 1 && ',' !in tokens[0] && ';' !in tokens[0]
    ensures signs != [] ==> (signs[0] == ',' || signs[0] == ';') && Separated(tokens[1..], signs[1..])
  {
    assert tokens[0] in tokens;
    if signs != [] {
      assert signs[0] in signs;
      assert forall c | c in signs[1..] :: c in signs;
      assert forall t | t in tokens[1..] :: t in tokens;
    }
  }

  lemma SplitOne(token: string)
    requires ',' !in token && ';' !in token
    ensures Split(token) == [token]
  {
    NoSeparatorYet(token, 0, |token|);
  }

  lemma SplitFirst(head: string, sign: char, rest: string)
    requires ',' !in head && ';' !in head && (sign == ',' || sign == ';')
    ensures Split(head + [sign] + rest) == [head] + Split(rest)
  {
    var all, k := head + [sign] + rest, |head|;
    forall j | 0 <= j < k ensures all[j] != ',' && all[j] != ';' {
      assert all[j] == head[j] && head[j] in head;
    }
    assert all[k] == sign;
    NoSeparatorYet(all, 0, k);
    assert all[..k] == head && all[k + 1..] == rest;
    hide SeparatorFrom;
  }

  lemma {:induction false} EveryBodyIsGlued(body: string) returns (tokens: seq<string>, signs: string)
    ensures Separated(tokens, signs) && Glue(tokens, signs) == body
    decreases |body|
  {
    var k := SeparatorFrom(body, 0);
    NoneBefore(body, 0, k);
    var head := body[..k];
    assert forall c | c in head :: exists j | 0 <= j < k :: body[j] == c;
    if k == |body| {
      tokens, signs := [body], "";
      assert head == body;
    } else {
      var more, others := EveryBodyIsGlued(body[k + 1..]);
      tokens, signs := [head] + more, [body[k]] + others;
      assert tokens[1..] == more && signs[1..] == others;
      assert body == head + [body[k]] + body[k + 1..];
    }
  }

  lemma {:induction false} NoneBefore(s: string, i: nat, k: nat)
    requires i <= |s| && k == SeparatorFrom(s, i)
    ensures forall j | i <= j < k :: s[j] != ',' && s[j] != ';'
    decreases |s| - i
  {
    if i < |s| && !IsSeparator(s[i]) {
      NoneBefore(s, i + 1, k);
    }
  }

  lemma EveryTokenHasAName(token: string) returns (id: string, from: nat)
    ensures Names(token, id, from)
  {
    var a := S.TrimStart(token, 0, |token|);
    var b := S.TrimEnd(token, a, |token|);
    from := a;
    id := seq(b - a, k requires 0 <= k < b - a => Capital(token[a + k]));
  }

  /** Every bracket is cut in one way, and every token in it has a name. */
  lemma EveryGroupIsNamed(body: string) returns (tokens: seq<string>, signs: string, ids: seq<string>, starts: seq<nat>)
    ensures Separated(tokens, signs) && Glue(tokens, signs) == body && AllNamed(tokens, ids, starts)
  {
    hide Separated, Glue, Names;
    tokens, signs := EveryBodyIsGlued(body);
    ids, starts := [], [];
    for i := 0 to |tokens|
      invariant |ids| == |starts| == i && forall j | 0 <= j < i :: Names(tokens[j], ids[j], starts[j])
    {
      var id, from := EveryTokenHasAName(tokens[i]);
      ids, starts := ids + [id], starts + [from];
    }
  }

  /* ---- conversion ---- */

  /** Each value once, in the order of first appearance. */
  ghost predicate OnceEach(once: seq<string>, values: seq<string>)
  {
    && (forall a, b | 0 <= a < b < |once| :: once[a] != once[b])
    && (forall v :: v in once <==> v in values)
    && (forall a, b | 0 <= a < b < |once| :: AppearsBefore(values, once[a], once[b]))
  }

  ghost predicate AppearsBefore(values: seq<string>, x: string, y: string)
  {
    exists i | 0 <= i < |values| :: values[i] == x && y !in values[..i + 1]
  }

  lemma OnceMore(once: seq<string>, values: seq<string>, v: string)
    requires OnceEach(once, values)
    ensures OnceEach(if v in once then once else once + [v], values + [v])
  {
    var next, all := if v in once then once else once + [v], values + [v];
    forall a, b | 0 <= a < b < |next| ensures AppearsBefore(all, next[a], next[b]) {
      if b < |once| {
        assert AppearsBefore(values, once[a], once[b]);
        var i :| 0 <= i < |values| && values[i] == once[a] && once[b] !in values[..i + 1];
        assert all[i] == once[a] && all[..i + 1] == values[..i + 1];
      } else {
        assert once[a] in values;
        var i :| 0 <= i < |values| && values[i] == once[a];
        assert all[i] == once[a] && all[..i + 1] == values[..i + 1];
        assert v !in values;
      }
    }
  }

  /** The names of a group: one for each token. */
  ghost predicate AllNamed(tokens: seq<string>, ids: seq<string>, starts: seq<nat>)
  {
    |ids| == |starts| == |tokens| && forall i | 0 <= i < |tokens| :: Names(tokens[i], ids[i], starts[i])
  }

  ghost predicate AllKnown(context: Context, ids: seq<string>)
  {
    forall i | 0 <= i < |ids| :: Known(context, ids[i])
  }

  ghost function SourcesOf(context: Context, ids: seq<string>): (sources: seq<string>)
    requires AllKnown(context, ids)
  {
    seq(|ids|, i requires 0 <= i < |ids| => SourceOf(context, ids[i]))
  }

  ghost function PassageCount(ids: seq<string>): nat
  {
    if ids == [] then 0 else (if PassageName(ids[0]) then 1 else 0) + PassageCount(ids[1..])
  }

  lemma {:induction false} ResolveAllMeans(tokens: seq<string>, ids: seq<string>, starts: seq<nat>, context: Context,
                                           parents: seq<string>, passages: nat, values: seq<string>)
    requires AllNamed(tokens, ids, starts) && OnceEach(parents, values)
    ensures ResolveAll(tokens, context, parents, passages).Some? <==> AllKnown(context, ids)
    ensures AllKnown(context, ids) ==>
              var r := ResolveAll(tokens, context, parents, passages).value;
              OnceEach(r.parents, values + SourcesOf(context, ids)) && r.passages == passages + PassageCount(ids)
    decreases |tokens|
  {
    hide Resolve, IsPassage, Names, OnceEach, Known, SourceOf, PassageName;
    if tokens == [] {
      assert AllKnown(context, ids);
      assert values + SourcesOf(context, ids) == values;
    } else {
      ResolveMeans(tokens[0], ids[0], starts[0], context);
      if Known(context, ids[0]) {
        var v := SourceOf(context, ids[0]);
        OnceMore(parents, values, v);
        ResolveAllMeans(tokens[1..], ids[1..], starts[1..], context, if v in parents then parents else parents + [v],
                        if PassageName(ids[0]) then passages + 1 else passages, values + [v]);
        KnownHead(context, ids);
        if AllKnown(context, ids) {
          assert values + [v] + SourcesOf(context, ids[1..]) == values + SourcesOf(context, ids);
        }
      }
    }
  }

  lemma KnownHead(context: Context, ids: seq<string>)
    requires ids != []
    ensures AllKnown(context, ids) <==> Known(context, ids[0]) && AllKnown(context, ids[1..])
  {
    hide Known;
    if Known(context, ids[0]) && AllKnown(context, ids[1..]) {
      forall i | 0 <= i < |ids| ensures Known(context, ids[i]) {
        assert i > 0 ==> ids[1..][i - 1] == ids[i];
      }
    }
    if AllKnown(context, ids) {
      forall i | 0 <= i < |ids[1..]| ensures Known(context, ids[1..][i]) {
        assert ids[1..][i] == ids[i + 1];
      }
    }
  }

  /**
   A group converts exactly if it is within both limits and the context knows every name in it; it
   becomes the sources of those names, each once in the order of first appearance, and as many
   passages as passages are named are counted.
   */
  lemma ConversionDecides(tokens: seq<string>, signs: string, ids: seq<string>, starts: seq<nat>, context: Context)
    requires Separated(tokens, signs) && AllNamed(tokens, ids, starts)
    ensures var r := Convert(Glue(tokens, signs), context);
            && (r.Some? <==> |Glue(tokens, signs)| <= 4096 && |tokens| <= 32 && AllKnown(context, ids))
            && (r.Some? ==> OnceEach(r.value.parents, SourcesOf(context, ids)) && r.value.passages == PassageCount(ids))
  {
    hide ResolveAll, Split, OnceEach, Glue, Known, SourcesOf, PassageCount, AllNamed;
    SplitGlue(tokens, signs);
    NoneYet();
    ResolveAllMeans(tokens, ids, starts, context, [], 0, []);
    assert AllKnown(context, ids) ==> [] + SourcesOf(context, ids) == SourcesOf(context, ids);
  }

  lemma NoneYet()
    ensures OnceEach([], [])
  {
  }

  /** No source is invented: what a group becomes are sources of known passages, or known themselves. */
  lemma NothingInvented(body: string, context: Context, parent: string)
    requires Convert(body, context).Some? && parent in Convert(body, context).value.parents
    ensures parent in context.known || exists pid :: PassageName(pid) && pid in context.anchors && context.anchors[pid] == parent
  {
    hide Split, ResolveAll, IsPassage, PassageName, IsSource, SourceName, Strip, Upper;
    var tokens := Split(body);
    ResolvesExactly(tokens, context, [], 0);
    var t :| t in tokens && Resolve(t, context) == Some(parent);
    PassageIsNamed(Upper(Strip(t)));
  }

  /** Invalid references are reported once each, in the order of first appearance. */
  lemma UniqueIsOnce(texts: seq<string>)
    ensures OnceEach(Unique(texts, []), texts)
  {
    hide OnceEach;
    NoneYet();
    UniqueAfter(texts, [], []);
    assert [] + texts == texts;
  }

  lemma {:induction false} UniqueAfter(texts: seq<string>, seen: seq<string>, values: seq<string>)
    requires OnceEach(seen, values)
    ensures OnceEach(Unique(texts, seen), values + texts)
    decreases |texts|
  {
    hide OnceEach;
    if texts == [] {
      assert values + texts == values;
    } else {
      OnceMore(seen, values, texts[0]);
      UniqueAfter(texts[1..], if texts[0] in seen then seen else seen + [texts[0]], values + [texts[0]]);
      assert values + [texts[0]] + texts[1..] == values + texts;
    }
  }

  /** Sources are written in one bracket with a comma and a blank between them. */
  lemma CiteIsWritten(parents: seq<string>, last: string)
    ensures Cite([last]) == "[" + last + "]"
    ensures parents != [] ==> Cite(parents)[|Cite(parents)| - 1] == ']'
    ensures parents != [] ==> Cite(parents + [last]) == Cite(parents)[..|Cite(parents)| - 1] + ", " + last + "]"
  {
    if parents != [] {
      JoinMore(parents, last);
      assert ("[" + Join(parents) + "]")[..|Cite(parents)| - 1] == "[" + Join(parents);
    }
  }

  lemma {:induction false} JoinMore(parts: seq<string>, last: string)
    requires parts != []
    ensures Join(parts + [last]) == Join(parts) + ", " + last
    decreases |parts|
  {
    var all := parts + [last];
    if |parts| == 1 {
      assert all[1..] == [last];
    } else {
      assert all[1..] == parts[1..] + [last];
      JoinMore(parts[1..], last);
    }
  }

  /* ---- which brackets are groups ---- */

  /** A single bracket on one line, with no bracket in it. */
  ghost predicate Bracketed(text: string, i: nat, end: nat)
  {
    && i + 2 <= end <= |text| && text[i] == '[' && text[end - 1] == ']'
    && (forall k | i < k < end - 1 :: text[k] != '[' && text[k] != ']' && text[k] != '\r' && text[k] != '\n')
    && (i > 0 ==> text[i - 1] != '[') && (end < |text| ==> text[end] != ']')
  }

  lemma GroupIsBracketed(text: string, i: nat, end: nat)
    requires i < |text|
    ensures GroupEnd(text, i) == Some(end) <==> Bracketed(text, i, end)
  {
    if text[i] == '[' {
      var k := BodyEnd(text, i + 1);
      if Bracketed(text, i, end) {
        assert k == end - 1;
      }
    }
  }

  /** White space that a citation may hold between its parts. */
  ghost predicate Pad(s: string)
  {
    forall c | c in s :: c == ' ' || c == '\t'
  }

  ghost predicate NameRest(s: string)
  {
    forall c | c in s :: !IsSpace(c) && c != ',' && c != ':' && c != ';' && c != '[' && c != ']'
  }

  /** The body holds `E`, a colon and `P`, after a separator or at its start. */
  ghost predicate Marked(body: string, lead: string, pad: string, e: char, name: string, gap: string, next: string, p: char, rest: string)
  {
    && body == lead + pad + [e] + name + gap + ":" + next + [p] + rest
    && (lead == "" || lead[|lead| - 1] == ',' || lead[|lead| - 1] == ';')
    && Pad(pad) && (e == 'E' || e == 'e') && NameRest(name) && Pad(gap) && Pad(next) && (p == 'P' || p == 'p')
  }

  lemma {:induction false} GapEnds(text: string, i: nat, k: nat)
    requires i <= k <= |text| && (forall j | i <= j < k :: text[j] == ' ' || text[j] == '\t')
    requires k < |text| ==> text[k] != ' ' && text[k] != '\t'
    ensures AfterGap(text, i) == k
    decreases k - i
  {
    if i < k {
      GapEnds(text, i + 1, k);
    }
  }

  lemma {:induction false} GapIsPad(text: string, i: nat)
    requires i <= |text|
    ensures Pad(text[i..AfterGap(text, i)])
    decreases |text| - i
  {
    if i < |text| && (text[i] == ' ' || text[i] == '\t') {
      GapIsPad(text, i + 1);
      assert text[i..AfterGap(text, i)] == [text[i]] + text[i + 1..AfterGap(text, i)];
    }
  }

  lemma {:induction false} NameEnds(text: string, i: nat, k: nat)
    requires i <= k <= |text| && NameRest(text[i..k])
    requires k < |text| && (text[k] == ' ' || text[k] == '\t' || text[k] == ':')
    ensures SkipName(text, i) == k
    decreases k - i
  {
    if i < k {
      assert text[i] == text[i..k][0];
      assert NameRest(text[i + 1..k]) by {
        assert forall c | c in text[i + 1..k] :: c in text[i..k];
      }
      NameEnds(text, i + 1, k);
    }
  }

  lemma {:induction false} SkippedIsName(text: string, i: nat)
    requires i <= |text|
    ensures NameRest(text[i..SkipName(text, i)])
    decreases |text| - i
  {
    if SkipName(text, i) > i {
      SkippedIsName(text, i + 1);
      assert text[i..SkipName(text, i)] == [text[i]] + text[i + 1..SkipName(text, i)];
    }
  }

  /** The parts of a marker by their places. */
  ghost predicate MarkedAt(body: string, a: nat, n: nat, m: nat, c: nat, q: nat)
  {
    && a <= n < m <= c < q < |body|
    && (a == 0 || body[a - 1] == ',' || body[a - 1] == ';')
    && Pad(body[a..n]) && (body[n] == 'E' || body[n] == 'e') && NameRest(body[n + 1..m]) && Pad(body[m..c])
    && body[c] == ':' && Pad(body[c + 1..q]) && (body[q] == 'P' || body[q] == 'p')
  }

  lemma MarkedByPlaces(body: string, lead: string, pad: string, e: char, name: string, gap: string, next: string, p: char, rest: string)
    requires Marked(body, lead, pad, e, name, gap, next, p, rest)
    ensures var n := |lead| + |pad|;
            var m := n + 1 + |name|;
            var c := m + |gap|;
            MarkedAt(body, |lead|, n, m, c, c + 1 + |next|)
  {
    hide Pad, NameRest;
    var a, n := |lead|, |lead| + |pad|;
    var m := n + 1 + |name|;
    var c := m + |gap|;
    var q := c + 1 + |next|;
    assert body[a..n] == pad && body[n] == e && body[n + 1..m] == name && body[m..c] == gap;
    assert body[c] == ':' && body[c + 1..q] == next && body[q] == p;
    assert a > 0 ==> body[a - 1] == lead[a - 1];
  }

  lemma PlacesAreMarked(body: string, a: nat, n: nat, m: nat, c: nat, q: nat)
    requires MarkedAt(body, a, n, m, c, q)
    ensures Marked(body, body[..a], body[a..n], body[n], body[n + 1..m], body[m..c], body[c + 1..q], body[q], body[q + 1..])
  {
    hide Pad, NameRest;
  }

  lemma PadIsSpace(text: string, i: nat, k: nat)
    requires i <= k <= |text| && Pad(text[i..k])
    ensures forall j | i <= j < k :: text[j] == ' ' || text[j] == '\t'
  {
    forall j | i <= j < k ensures text[j] == ' ' || text[j] == '\t' {
      assert text[i..k][j - i] in text[i..k];
    }
  }

  lemma PlacesMark(body: string, a: nat, n: nat, m: nat, c: nat, q: nat)
    requires MarkedAt(body, a, n, m, c, q)
    ensures MarkerAt(body, a)
  {
    hide Pad, NameRest, AfterGap, SkipName;
    PadIsSpace(body, a, n);
    GapEnds(body, a, n);
    PadIsSpace(body, m, c);
    NameEnds(body, n + 1, m);
    GapEnds(body, m, c);
    PadIsSpace(body, c + 1, q);
    GapEnds(body, c + 1, q);
  }

  lemma MarkPlaces(body: string, a: nat) returns (n: nat, m: nat, c: nat, q: nat)
    requires a <= |body| && MarkerAt(body, a) && (a == 0 || body[a - 1] == ',' || body[a - 1] == ';')
    ensures MarkedAt(body, a, n, m, c, q)
  {
    hide Pad, NameRest, AfterGap, SkipName;
    n := AfterGap(body, a);
    GapIsPad(body, a);
    m := SkipName(body, n + 1);
    SkippedIsName(body, n + 1);
    c := AfterGap(body, m);
    GapIsPad(body, m);
    q := AfterGap(body, c + 1);
    GapIsPad(body, c + 1);
  }

  /** A bracket with such a marker in it cites passages. */
  lemma MarkedIsFound(body: string, lead: string, pad: string, e: char, name: string, gap: string, next: string, p: char, rest: string)
    requires Marked(body, lead, pad, e, name, gap, next, p, rest)
    ensures HasMarker(body)
  {
    MarkedByPlaces(body, lead, pad, e, name, gap, next, p, rest);
    hide Marked, MarkerAt;
    var n := |lead| + |pad|;
    var m := n + 1 + |name|;
    var c := m + |gap|;
    PlacesMark(body, |lead|, n, m, c, c + 1 + |next|);
    StartOfMarker(body, |lead|, n, m, c, c + 1 + |next|);
    if |lead| > 0 {
      assert IsSeparator(body[|lead| - 1]) && MarkerAt(body, |lead| - 1 + 1);
    }
  }

  lemma StartOfMarker(body: string, a: nat, n: nat, m: nat, c: nat, q: nat)
    requires MarkedAt(body, a, n, m, c, q)
    ensures a <= |body| && (a > 0 ==> body[a - 1] == ',' || body[a - 1] == ';')
  {
  }

  /** A bracket that cites passages has such a marker in it. */
  lemma FoundIsMarked(body: string)
    returns (lead: string, pad: string, e: char, name: string, gap: string, next: string, p: char, rest: string)
    requires HasMarker(body)
    ensures Marked(body, lead, pad, e, name, gap, next, p, rest)
  {
    hide MarkedAt, MarkerAt, Marked;
    var a := 0;
    if !MarkerAt(body, 0) {
      var k :| 0 <= k < |body| && IsSeparator(body[k]) && MarkerAt(body, k + 1);
      a := k + 1;
    }
    var n, m, c, q := MarkPlaces(body, a);
    PlacesAreOrdered(body, a, n, m, c, q);
    PlacesAreMarked(body, a, n, m, c, q);
    lead, pad, e, name := body[..a], body[a..n], body[n], body[n + 1..m];
    gap, next, p, rest := body[m..c], body[c + 1..q], body[q], body[q + 1..];
  }

  lemma PlacesAreOrdered(body: string, a: nat, n: nat, m: nat, c: nat, q: nat)
    requires MarkedAt(body, a, n, m, c, q)
    ensures a <= n < m <= c < q < |body|
  {
  }

  /* ---- quotations and code ---- */

  /** The quotation marks in pairs. */
  ghost predicate Pair(open: char, close: char)
  {
    || (open == '"' && close == '"') || (open == '\'' && close == '\'') || (open == '\U{00AB}' && close == '\U{00BB}')
    || (open == '\U{201C}' && close == '\U{201D}') || (open == '\U{2018}' && close == '\U{2019}')
  }

  /** A mark that can be an apostrophe opens nothing just after a letter or digit. */
  ghost predicate Opens(text: string, letter: char -> bool, p: nat, close: char)
  {
    && p < |text| && Pair(text[p], close) && !M.Escaped(text, p)
    && !((text[p] == '"' || text[p] == '\'' || text[p] == '\U{2018}') && p > 0 && letter(text[p - 1]))
  }

  /** A mark that can be an apostrophe closes nothing just before a letter or digit. */
  ghost predicate Closes(text: string, letter: char -> bool, code: seq<Span>, close: char, j: nat)
  {
    && j < |text| && text[j] == close && !M.Escaped(text, j) && (forall x | x in code :: !(x.start <= j < x.end))
    && !((close == '\'' || close == '\U{2019}') && j + 1 < |text| && letter(text[j + 1]))
  }

  /** Where no formula begins, a quotation runs from its mark to the first partner that may close it. */
  lemma QuotationsAre(text: string, letter: char -> bool, code: seq<Span>, p: nat, end: nat)
    requires p < |text| && MathEnd(text, p).None?
    ensures LiteralEnd(text, letter, code, p) == Some(end) <==>
              exists close :: Opens(text, letter, p, close) && p + 1 < end && Closes(text, letter, code, close, end - 1)
                              && forall j: nat | p < j < end - 1 :: !Closes(text, letter, code, close, j)
  {
    hide MathEnd, M.Escaped;
    forall close, j: nat ensures ClosesAt(text, letter, code, close, j) <==> Closes(text, letter, code, close, j) {
    }
    hide ClosesAt, Closes;
    assert forall close | Opens(text, letter, p, close) :: OpensQuote(text, letter, p) && CloserOf(text[p]) == Some(close);
    if OpensQuote(text, letter, p) {
      assert Opens(text, letter, p, CloserOf(text[p]).value);
    }
  }

  /** A run of exactly `n` backticks, as seen from `from` on. */
  ghost predicate TickRun(text: string, from: nat, n: nat, j: nat)
  {
    && from <= j && n > 0 && j + n <= |text| && (forall k | j <= k < j + n :: text[k] == '`')
    && (j > from ==> text[j - 1] != '`') && (j + n < |text| ==> text[j + n] != '`')
  }

  /** Inline code is closed by the next run of as many backticks. */
  lemma {:induction false} NextRunIsFirst(text: string, i: nat, n: nat)
    requires i <= |text| && n > 0
    ensures var r := NextRun(text, i, n);
            && (r.Some? ==> r.value >= n && TickRun(text, i, n, r.value - n))
            && forall j: nat | TickRun(text, i, n, j) :: r.Some? && r.value <= j + n
    decreases |text| - i
  {
    if i < |text| {
      var m := L.RunOf(text, i, '`');
      N.RunIsMaximal(text, i, '`');
      var next := if m == 0 then i + 1 else i + m;
      NextRunIsFirst(text, next, n);
      hide L.RunOf, NextRun;
      forall j: nat | TickRun(text, i, n, j) && !(m == n && j == i) ensures TickRun(text, next, n, j) {
      }
    }
  }
}
