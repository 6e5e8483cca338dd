/**
 The claims of an answer and the headings they stand under, as `_answer_structure` of
 grounding_verifier.py finds them.
 */
module AnswerStructure {
  import opened Basics
  import opened MarkdownLines
  import opened PublicationSegments

  /** A heading; its parent is named by its number. */
  datatype Heading = Heading(start: nat, end: nat, level: nat, parent: Option<nat>)

  datatype Outline = Outline(headings: seq<Heading>, stack: seq<nat>)

  /* ---- headings ---- */

  function LevelOf(text: string): Option<nat>
  {
    if AtxLevel(text).Some? then AtxLevel(text) else if IsBold(text) then Some(7) else None
  }

  predicate Fits(stack: seq<nat>, n: nat)
  {
    forall k | 0 <= k < |stack| :: stack[k] < n
  }

  /** How much of the first `n` entries of the stack is above the level. */
  function Kept(headings: seq<Heading>, stack: seq<nat>, level: nat, n: nat): (r: nat)
    requires Fits(stack, |headings|) && n <= |stack|
    ensures r <= n
    ensures r > 0 ==> headings[stack[r - 1]].level < level
  {
    if n == 0 || headings[stack[n - 1]].level < level then n else Kept(headings, stack, level, n - 1)
  }

  /** Nothing but white space since the previous heading. */
  predicate FollowsTitle(answer: string, headings: seq<Heading>, position: nat)
    requires position <= |answer|
  {
    headings != [] && (headings[|headings| - 1].end <= position ==> Blank(answer[headings[|headings| - 1].end..position]))
  }

  predicate StackFits(o: Outline)
  {
    Fits(o.stack, |o.headings|)
  }

  function AddLine(answer: string, protected: seq<Span>, line: Line, o: Outline): (r: Outline)
    requires line.start <= line.end <= |answer| && StackFits(o)
    ensures StackFits(r)
  {
    var level := LevelOf(answer[line.start..line.end]);
    if level.None? || Covered(protected, line.start) then o else
    var stack := o.stack[..Kept(o.headings, o.stack, level.value, |o.stack|)];
    var parent :=
      if FollowsTitle(answer, o.headings, line.start) then Some(|o.headings| - 1)
      else if stack == [] then None else Some(stack[|stack| - 1]);
    Outline(o.headings + [Heading(line.start, line.end, level.value, parent)], stack + [|o.headings|])
  }

  function OutlineFrom(answer: string, protected: seq<Span>, lines: seq<Line>, o: Outline): (r: Outline)
    requires (forall line | line in lines :: line.start <= line.end <= |answer|) && StackFits(o)
  {
    if lines == [] then o
    else OutlineFrom(answer, protected, lines[1..], AddLine(answer, protected, lines[0], o))
  }

  method FindHeadings(answer: string, protected: seq<Span>, lines: seq<Line>) returns (headings: seq<Heading>)
    requires forall line | line in lines :: line.start <= line.end <= |answer|
    ensures headings == OutlineFrom(answer, protected, lines, Outline([], [])).headings
  {
    hide LevelOf, Covered, FollowsTitle, Kept;
    headings := [];
    var stack: seq<nat> := [];
    for k := 0 to |lines|
      invariant Fits(stack, |headings|)
      invariant OutlineFrom(answer, protected, lines, Outline([], []))
             == OutlineFrom(answer, protected, lines[k..], Outline(headings, stack))
    {
      var line := lines[k];
      assert lines[k..][0] == line && lines[k..][1..] == lines[k + 1..];
      var level := LevelOf(answer[line.start..line.end]);
      if level.None? || Covered(protected, line.start) {
        continue;
      }
      stack := PopStack(headings, stack, level.value);
      var parent := if stack == [] then None else Some(stack[|stack| - 1]);
      if FollowsTitle(answer, headings, line.start) {
        FollowsSome(answer, headings, line.start);
        parent := Some(|headings| - 1);
      }
      stack := stack + [|headings|];
      headings := headings + [Heading(line.start, line.end, level.value, parent)];
    }
    assert lines[|lines|..] == [];
  }

  lemma FollowsSome(answer: string, headings: seq<Heading>, position: nat)
    requires position <= |answer| && FollowsTitle(answer, headings, position)
    ensures headings != []
  {
  }

  method PopStack(headings: seq<Heading>, stack: seq<nat>, level: nat) returns (rest: seq<nat>)
    requires Fits(stack, |headings|)
    ensures rest == stack[..Kept(headings, stack, level, |stack|)]
  {
    rest := stack;
    while rest != [] && headings[rest[|rest| - 1]].level >= level
      invariant rest <= stack
      invariant Kept(headings, stack, level, |stack|) == Kept(headings, stack, level, |rest|)
      decreases |rest|
    {
      rest := rest[..|rest| - 1];
    }
  }

  /* ---- the heading forest ---- */

  /** The last heading before `i` with a smaller level. */
  ghost function Enclosing(headings: seq<Heading>, i: nat, level: nat): (r: Option<nat>)
    requires i <= |headings|
    ensures r.Some? ==> r.value < i && headings[r.value].level < level
    ensures forall j | (if r.Some? then r.value + 1 else 0) <= j < i :: headings[j].level >= level
  {
    if i == 0 then None
    else if headings[i - 1].level < level then Some(i - 1)
    else Enclosing(headings, i - 1, level)
  }

  /** Headings stand in the text one after another. */
  ghost predicate InSequence(headings: seq<Heading>, limit: nat)
  {
    && (forall h | h in headings :: h.start < h.end <= limit)
    && (forall i, j | 0 <= i < j < |headings| :: headings[i].end <= headings[j].start)
  }

  /**
   The parent of a heading is the title just before it when nothing stands between them, and
   otherwise the last heading before it with a smaller level.
   */
  ghost predicate RightParent(answer: string, headings: seq<Heading>, i: nat)
    requires i < |headings|
  {
    var h := headings[i];
    && h.start <= |answer|
    && h.parent ==
         if i > 0 && headings[i - 1].end <= h.start && Blank(answer[headings[i - 1].end..h.start]) then Some(i - 1)
         else Enclosing(headings[..i], i, h.level)
  }

  ghost predicate Forest(answer: string, headings: seq<Heading>)
  {
    InSequence(headings, |answer|) && forall i | 0 <= i < |headings| :: RightParent(answer, headings, i)
  }

  /** The stack holds, from the last heading inwards, the headings that still enclose what follows. */
  ghost predicate Monotone(headings: seq<Heading>, stack: seq<nat>)
  {
    && Fits(stack, |headings|)
    && (forall k | 0 < k < |stack| :: stack[k - 1] < stack[k] && headings[stack[k - 1]].level < headings[stack[k]].level)
    && (headings != [] ==> stack != [] && stack[|stack| - 1] == |headings| - 1)
    && (forall k | 0 <= k < |stack| :: Clear(headings, stack, k))
  }

  /** Just after the stack entry before `k`. */
  ghost function Floor(stack: seq<nat>, k: nat): nat
    requires k <= |stack|
  {
    if k == 0 then 0 else stack[k - 1] + 1
  }

  /** No heading between two stack entries is above the second. */
  ghost predicate Clear(headings: seq<Heading>, stack: seq<nat>, k: nat)
    requires Fits(stack, |headings|) && k < |stack|
  {
    NoneBelow(headings, Floor(stack, k), stack[k], headings[stack[k]].level)
  }

  /** No heading of the range is above the level. */
  ghost predicate NoneBelow(headings: seq<Heading>, from: nat, to: nat, level: nat)
    requires to <= |headings|
  {
    forall j | from <= j < to :: headings[j].level >= level
  }

  /** What is left after popping is the enclosing heading. */
  lemma {:induction false} KeptEncloses(headings: seq<Heading>, stack: seq<nat>, level: nat, n: nat)
    requires Monotone(headings, stack) && n <= |stack|
    requires NoneBelow(headings, Floor(stack, n), |headings|, level)
    ensures var r := Kept(headings, stack, level, n);
            && Enclosing(headings, |headings|, level) == (if r == 0 then None else Some(stack[r - 1]))
            && NoneBelow(headings, Floor(stack, r), |headings|, level)
    decreases n
  {
    if n > 0 && headings[stack[n - 1]].level >= level {
      assert Clear(headings, stack, n - 1);
      KeptEncloses(headings, stack, level, n - 1);
    } else {
      EnclosingIsLast(headings, |headings|, level, if n == 0 then None else Some(stack[n - 1]));
    }
  }

  lemma {:induction false} EnclosingIsLast(headings: seq<Heading>, i: nat, level: nat, r: Option<nat>)
    requires i <= |headings| && (r.Some? ==> r.value < i && headings[r.value].level < level)
    requires forall j | (if r.Some? then r.value + 1 else 0) <= j < i :: headings[j].level >= level
    ensures Enclosing(headings, i, level) == r
  {
    if i > 0 && headings[i - 1].level >= level {
      EnclosingIsLast(headings, i - 1, level, r);
    }
  }

  lemma WholeStackKept(headings: seq<Heading>, stack: seq<nat>, level: nat)
    requires Monotone(headings, stack)
    ensures var r := Kept(headings, stack, level, |stack|);
            && Enclosing(headings, |headings|, level) == (if r == 0 then None else Some(stack[r - 1]))
            && NoneBelow(headings, Floor(stack, r), |headings|, level)
  {
    KeptEncloses(headings, stack, level, |stack|);
  }

  lemma PushIsMonotone(headings: seq<Heading>, stack: seq<nat>, h: Heading)
    requires Monotone(headings, stack)
    ensures Monotone(headings + [h], stack[..Kept(headings, stack, h.level, |stack|)] + [|headings|])
  {
    hide Kept, Enclosing, Clear, Floor, Monotone;
    var r := KeptAll(headings, stack, h.level);
    var all, next := headings + [h], stack[..r] + [|headings|];
    PushRises(headings, stack, h, r);
    forall k | 0 <= k < |next| ensures Clear(all, next, k) {
      PushClear(headings, stack, h, r, k);
    }
    MonotoneFrom(all, next);
  }

  lemma KeptAll(headings: seq<Heading>, stack: seq<nat>, level: nat) returns (r: nat)
    requires Monotone(headings, stack)
    ensures Fits(stack, |headings|)
    ensures r == Kept(headings, stack, level, |stack|) <= |stack| && (r > 0 ==> headings[stack[r - 1]].level < level)
    ensures NoneBelow(headings, Floor(stack, r), |headings|, level)
  {
    r := Kept(headings, stack, level, |stack|);
    WholeStackKept(headings, stack, level);
  }

  lemma MonotoneFrom(headings: seq<Heading>, stack: seq<nat>)
    requires Fits(stack, |headings|)
    requires forall k | 0 < k < |stack| :: stack[k - 1] < stack[k] && headings[stack[k - 1]].level < headings[stack[k]].level
    requires stack != [] && stack[|stack| - 1] == |headings| - 1
    requires forall k | 0 <= k < |stack| :: Clear(headings, stack, k)
    ensures Monotone(headings, stack)
  {
  }

  lemma PushClear(headings: seq<Heading>, stack: seq<nat>, h: Heading, r: nat, k: nat)
    requires Monotone(headings, stack) && k <= r <= |stack|
    requires NoneBelow(headings, Floor(stack, r), |headings|, h.level)
    ensures Fits(stack[..r] + [|headings|], |headings| + 1)
    ensures Clear(headings + [h], stack[..r] + [|headings|], k)
  {
    hide NoneBelow;
    if k < r {
      assert Clear(headings, stack, k);
      ClearStays(headings, stack, h, r, k);
    } else {
      ClearLast(headings, stack, h, r);
    }
  }

  lemma PushRises(headings: seq<Heading>, stack: seq<nat>, h: Heading, r: nat)
    requires Monotone(headings, stack) && r <= |stack| && (r > 0 ==> headings[stack[r - 1]].level < h.level)
    ensures var all, next := headings + [h], stack[..r] + [|headings|];
            && Fits(next, |all|)
            && forall k | 0 < k < |next| :: next[k - 1] < next[k] && all[next[k - 1]].level < all[next[k]].level
  {
    hide Clear;
  }

  lemma ClearLast(headings: seq<Heading>, stack: seq<nat>, h: Heading, r: nat)
    requires Fits(stack, |headings|) && r <= |stack| && NoneBelow(headings, Floor(stack, r), |headings|, h.level)
    ensures Fits(stack[..r] + [|headings|], |headings| + 1)
    ensures Clear(headings + [h], stack[..r] + [|headings|], r)
  {
    NoneBelowGrows(headings, h, Floor(stack, r), |headings|, h.level);
  }

  lemma ClearStays(headings: seq<Heading>, stack: seq<nat>, h: Heading, r: nat, k: nat)
    requires Fits(stack, |headings|) && k < r <= |stack| && Clear(headings, stack, k)
    ensures Fits(stack[..r] + [|headings|], |headings| + 1) && Clear(headings + [h], stack[..r] + [|headings|], k)
  {
  }

  lemma NoneBelowGrows(headings: seq<Heading>, h: Heading, from: nat, to: nat, level: nat)
    requires to <= |headings| && NoneBelow(headings, from, to, level)
    ensures NoneBelow(headings + [h], from, to, level)
  {
  }

  ghost predicate Good(answer: string, o: Outline, from: nat)
  {
    && Forest(answer, o.headings) && Monotone(o.headings, o.stack)
    && (o.headings != [] ==> o.headings[|o.headings| - 1].end <= from)
  }

  lemma AddLineIsGood(answer: string, protected: seq<Span>, line: Line, o: Outline)
    requires Good(answer, o, line.start) && line.start <= line.end <= line.next <= |answer|
    ensures Good(answer, AddLine(answer, protected, line, o), line.next)
  {
    hide LevelOf, Covered, Monotone, Kept, Enclosing, Forest;
    assert StackFits(o) by { MonotoneFits(o); }
    var level := LevelOf(answer[line.start..line.end]);
    if level.Some? && !Covered(protected, line.start) {
      TitleIsNotEmpty(answer[line.start..line.end]);
      var r := AddLine(answer, protected, line, o);
      var h := r.headings[|o.headings|];
      PushIsMonotone(o.headings, o.stack, h);
      WholeStackKept(o.headings, o.stack, h.level);
      ForestGrows(answer, o.headings, h);
    }
  }

  lemma MonotoneFits(o: Outline)
    requires Monotone(o.headings, o.stack)
    ensures StackFits(o)
  {
  }

  lemma TitleIsNotEmpty(text: string)
    requires LevelOf(text).Some?
    ensures text != ""
  {
  }

  lemma ForestGrows(answer: string, headings: seq<Heading>, h: Heading)
    requires Forest(answer, headings) && h.start < h.end <= |answer|
    requires headings != [] ==> headings[|headings| - 1].end <= h.start
    requires h.parent ==
               if headings != [] && Blank(answer[headings[|headings| - 1].end..h.start]) then Some(|headings| - 1)
               else Enclosing(headings, |headings|, h.level)
    ensures Forest(answer, headings + [h])
  {
    hide RightParent;
    var n, all := |headings|, headings + [h];
    forall i | 0 <= i < |all| ensures RightParent(answer, all, i) {
      if i < n {
        ParentStays(answer, headings, h, i);
      } else {
        LastParent(answer, headings, h);
      }
    }
    SequenceGrows(headings, h, |answer|);
  }

  lemma ParentStays(answer: string, headings: seq<Heading>, h: Heading, i: nat)
    requires i < |headings| && RightParent(answer, headings, i)
    ensures RightParent(answer, headings + [h], i)
  {
    assert (headings + [h])[..i] == headings[..i];
  }

  lemma LastParent(answer: string, headings: seq<Heading>, h: Heading)
    requires h.start <= |answer| && (headings != [] ==> headings[|headings| - 1].end <= h.start)
    requires h.parent ==
               if headings != [] && Blank(answer[headings[|headings| - 1].end..h.start]) then Some(|headings| - 1)
               else Enclosing(headings, |headings|, h.level)
    ensures RightParent(answer, headings + [h], |headings|)
  {
    assert (headings + [h])[..|headings|] == headings;
  }

  lemma SequenceGrows(headings: seq<Heading>, h: Heading, limit: nat)
    requires InSequence(headings, limit) && h.start < h.end <= limit
    requires headings != [] ==> headings[|headings| - 1].end <= h.start
    ensures InSequence(headings + [h], limit)
  {
    forall i | 0 <= i < |headings| ensures headings[i].end <= h.start {
      assert headings[i] in headings && headings[|headings| - 1] in headings;
    }
  }

  lemma {:induction false} OutlineIsGood(answer: string, protected: seq<Span>, lines: seq<Line>, o: Outline, from: nat)
    requires Tiled(lines, from, |answer|) && forall line | line in lines :: line.start <= line.end <= |answer|
    requires StackFits(o) && Good(answer, o, from)
    ensures Good(answer, OutlineFrom(answer, protected, lines, o), |answer|)
    decreases |lines|
  {
    hide Good, AddLine;
    if lines != [] {
      AddLineIsGood(answer, protected, lines[0], o);
      OutlineIsGood(answer, protected, lines[1..], AddLine(answer, protected, lines[0], o), lines[0].next);
    }
  }
}
