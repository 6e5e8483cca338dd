/**
 What a turn in the frontier schedule takes, and what a record is worth to the coverage order, in
 numbers and not by the functions that compute them.
 */
module SelectionMeaning {
  import opened Basics
  import F = QueryFrontiers
  import C = QueryCoverage

  /* ---- turns ---- */

  /** The record is new and there is room for it. */
  ghost predicate Takes(plan: F.Plan, s: F.State, x: nat)
  {
    x < |plan.costs| && plan.costs[x] + s.used <= plan.budget && forall i | 0 <= i < |s.selected| :: s.selected[i] != x
  }

  /** The queue: records that cannot be taken, then one that can, then the rest. */
  ghost predicate Serves(plan: F.Plan, s: F.State, queue: seq<nat>, skipped: seq<nat>, x: nat, rest: seq<nat>)
  {
    && queue == skipped + [x] + rest && Takes(plan, s, x)
    && forall i | 0 <= i < |skipped| :: skipped[i] < |plan.costs| && !Takes(plan, s, skipped[i])
  }

  lemma FitsIsTakes(plan: F.Plan, s: F.State, x: nat)
    requires x < |plan.costs|
    ensures F.Fits(plan, s.selected, s.used, x) <==> Takes(plan, s, x)
  {
  }

  lemma {:induction false} TurnTakes(plan: F.Plan, s: F.State, queue: seq<nat>, skipped: seq<nat>, x: nat, rest: seq<nat>)
    requires (forall y | y in queue :: y < |plan.costs|) && Serves(plan, s, queue, skipped, x, rest)
    ensures F.Turn(plan, queue, s.selected, s.used) == (Some(x), rest)
    decreases |skipped|
  {
    hide F.Fits, Takes;
    assert queue[0] in queue && forall y | y in queue[1..] :: y in queue;
    if skipped == [] {
      assert queue == [x] + rest;
      FitsIsTakes(plan, s, x);
    } else {
      assert queue[0] == skipped[0] && queue[1..] == skipped[1..] + [x] + rest;
      assert forall i | 0 <= i < |skipped[1..]| :: skipped[1..][i] == skipped[i + 1];
      FitsIsTakes(plan, s, skipped[0]);
      TurnTakes(plan, s, queue[1..], skipped[1..], x, rest);
    }
  }

  lemma {:induction false} TurnPasses(plan: F.Plan, s: F.State, queue: seq<nat>)
    requires forall i | 0 <= i < |queue| :: queue[i] < |plan.costs| && !Takes(plan, s, queue[i])
    ensures (forall y | y in queue :: y < |plan.costs|) && F.Turn(plan, queue, s.selected, s.used) == (None, [])
    decreases |queue|
  {
    hide F.Fits, Takes;
    if queue != [] {
      FitsIsTakes(plan, s, queue[0]);
      TurnPasses(plan, s, queue[1..]);
    }
  }

  /**
   The turn of the original query: the first record of its queue that can be taken is picked, and the
   ones before it are dropped; if there is none the queue is spent.
   */
  lemma RawTurnIs(plan: F.Plan, s: F.State, skipped: seq<nat>, x: nat, rest: seq<nat>)
    requires forall y | y in s.raw :: y < |plan.costs|
    ensures Serves(plan, s, s.raw, skipped, x, rest) ==>
              F.RawTurn(plan, s) ==
                F.State(rest, s.others, s.selected + [x], s.used + plan.costs[x], s.rawPicks + 1, s.picks)
    ensures (forall i | 0 <= i < |s.raw| :: !Takes(plan, s, s.raw[i])) ==> F.RawTurn(plan, s) == s.(raw := [])
  {
    hide F.Turn, Takes;
    if Serves(plan, s, s.raw, skipped, x, rest) {
      TurnTakes(plan, s, s.raw, skipped, x, rest);
    }
    if forall i | 0 <= i < |s.raw| :: !Takes(plan, s, s.raw[i]) {
      assert forall i | 0 <= i < |s.raw| :: s.raw[i] in s.raw;
      TurnPasses(plan, s, s.raw);
    }
  }

  /** The turn of a paraphrase, likewise; the other queues stay. */
  lemma OtherTurnIs(plan: F.Plan, s: F.State, k: nat, skipped: seq<nat>, x: nat, rest: seq<nat>)
    requires k < |s.others| == |s.picks| && forall y | y in s.others[k] :: y < |plan.costs|
    ensures Serves(plan, s, s.others[k], skipped, x, rest) ==>
              F.OtherTurn(plan, s, k) ==
                F.State(s.raw, s.others[k := rest], s.selected + [x], s.used + plan.costs[x], s.rawPicks,
                        s.picks[k := s.picks[k] + 1])
    ensures (forall i | 0 <= i < |s.others[k]| :: !Takes(plan, s, s.others[k][i])) ==>
              F.OtherTurn(plan, s, k) == s.(others := s.others[k := []])
  {
    hide F.Turn, Takes;
    var queue := s.others[k];
    if Serves(plan, s, queue, skipped, x, rest) {
      TurnTakes(plan, s, queue, skipped, x, rest);
    }
    if forall i | 0 <= i < |queue| :: !Takes(plan, s, queue[i]) {
      assert forall i | 0 <= i < |queue| :: queue[i] in queue;
      TurnPasses(plan, s, queue);
    }
  }

  /** Every queue either can be served or is spent. */
  lemma {:induction false} ServedOrSpent(plan: F.Plan, s: F.State, queue: seq<nat>)
    returns (skipped: seq<nat>, x: nat, rest: seq<nat>)
    requires forall y | y in queue :: y < |plan.costs|
    ensures Serves(plan, s, queue, skipped, x, rest) || forall i | 0 <= i < |queue| :: !Takes(plan, s, queue[i])
    decreases |queue|
  {
    hide Takes;
    skipped, x, rest := [], 0, [];
    if queue != [] {
      assert queue[0] in queue && forall y | y in queue[1..] :: y in queue;
      if Takes(plan, s, queue[0]) {
        x, rest := queue[0], queue[1..];
        assert queue == [] + [x] + rest;
      } else {
        skipped, x, rest := ServedOrSpent(plan, s, queue[1..]);
        if Serves(plan, s, queue[1..], skipped, x, rest) {
          assert queue == [queue[0]] + skipped + [x] + rest;
          skipped := [queue[0]] + skipped;
        } else {
          assert forall i | 1 <= i < |queue| :: queue[i] == queue[1..][i - 1];
        }
      }
    }
  }

  /** At first nothing is picked, nothing is used, and every queue is as it was offered. */
  lemma StartIs(plan: F.Plan)
    ensures var s := F.Start(plan);
            && s.selected == [] && s.used == 0 && s.rawPicks == 0 && s.others == plan.others
            && |s.picks| == |plan.others| && (forall k | 0 <= k < |s.picks| :: s.picks[k] == 0)
            && s.raw == match plan.raw case Some(queue) => queue case None => []
  {
  }

  /* ---- what a record is worth ---- */

  /** How well a query is covered; not at all if nothing was found for it. */
  ghost function Level(covered: C.Covered, q: string): real
  {
    if q in covered then covered[q] else 0.0
  }

  /** The score times one more than the rank is one. */
  lemma ScoreIs(rank: nat)
    ensures C.Times(C.Score(rank), (1 + rank) as real) == 1.0
  {
    var n := (1 + rank) as real;
    assert n > 0.0;
    Inverse(n);
  }

  lemma Inverse(n: real)
    requires n > 0.0
    ensures C.Times(1.0 / n, n) == 1.0
  {
  }

  /** A query is covered by the best record accepted for it. */
  lemma CoverageIs(covered: C.Covered, ranks: C.Ranks, q: string)
    ensures var before, after := Level(covered, q), Level(C.Accept(covered, ranks), q);
            if q in ranks
            then after >= before && after >= C.Score(ranks[q]) && (after == before || after == C.Score(ranks[q]))
            else after == before
  {
    hide C.Score;
  }

  /** The original query weighs one, and so do all the others together, each the same. */
  lemma WeightsAre(groups: seq<string>, i: nat)
    requires i < |groups|
    ensures var ws := C.Allocate(groups);
            && |ws| == |groups| + 1 && ws[0] == ("raw", 1.0)
            && ws[i + 1].0 == groups[i] && C.Times(ws[i + 1].1, |groups| as real) == 1.0
  {
    Inverse(|groups| as real);
  }

  /** A record is worth choosing if it fits and its queries are not covered as well already. */
  lemma WorthIs(st: C.State, c: C.Candidate)
    ensures C.Eligible(st, c) <==>
              0 < c.cost <= st.budget - st.used && C.Total(st.ws, C.Accept(st.covered, c.ranks)) > C.Total(st.ws, st.covered)
    ensures C.Value(st, c) == C.Total(st.ws, C.Accept(st.covered, c.ranks)) - C.Total(st.ws, st.covered)
  {
    C.AcceptAddsGain(st.ws, st.covered, c.ranks);
    hide C.Gain, C.Total, C.Accept;
  }

  lemma Ratio(v: real, c: real, w: real, d: real)
    requires c > 0.0 && d > 0.0
    ensures v / c > w / d <==> C.Times(v, d) > C.Times(w, c)
    ensures v / c == w / d <==> C.Times(v, d) == C.Times(w, c)
  {
    var x, y := v / c, w / d;
    assert x * c == v && y * d == w;
    assert v * d == x * (c * d) && w * c == y * (c * d);
    Positive(x, y, c * d);
  }

  lemma Positive(x: real, y: real, k: real)
    requires k > 0.0
    ensures x > y <==> x * k > y * k
    ensures x == y <==> x * k == y * k
  {
  }

  /** More per character, then more altogether, then the earlier place. */
  lemma PreferenceIs(st: C.State, a: C.Candidate, b: C.Candidate)
    requires a.cost > 0 && b.cost > 0
    ensures var v, w := C.Value(st, a), C.Value(st, b);
            var more, less := C.Times(v, b.cost as real), C.Times(w, a.cost as real);
            C.Prefers(st, a, b) <==> more > less || (more == less && (v > w || (v == w && a.index < b.index)))
  {
    hide C.Value;
    Ratio(C.Value(st, a), a.cost as real, C.Value(st, b), b.cost as real);
  }
}
