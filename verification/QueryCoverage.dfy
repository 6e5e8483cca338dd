/**
 Diminishing coverage of query lists (`MarginalQueryCoverage` of query_rank.py) and the greedy
 order that spends a budget on it (`order_by_query_coverage` of candidate_admission.py).
 */
module QueryCoverage {
  import opened Basics

  /** The best rank at which each query found a record. */
  type Ranks = map<string, nat>

  /** How well each query is covered, between 0 and 1. */
  type Covered = map<string, real>

  function Score(rank: nat): (s: real)
    ensures 0.0 < s <= 1.0
  {
    1.0 / (1 + rank) as real
  }

  function Cover(covered: Covered, q: string): real
  {
    if q in covered then covered[q] else 0.0
  }

  function Max(a: real, b: real): real
  {
    if a >= b then a else b
  }

  /** What the record would add for one query. */
  function Extra(covered: Covered, ranks: Ranks, q: string): (e: real)
    ensures e >= 0.0
  {
    if q in ranks then Max(0.0, Score(ranks[q]) - Cover(covered, q)) else 0.0
  }

  /** The queries, each once, with their weights. */
  type Weights = seq<(string, real)>

  ghost predicate Sound(ws: Weights)
  {
    && (forall i | 0 <= i < |ws| :: ws[i].1 >= 0.0)
    && forall i, j | 0 <= i < j < |ws| :: ws[i].0 != ws[j].0
  }

  function Times(w: real, a: real): real
  {
    w * a
  }

  function Gain(ws: Weights, covered: Covered, ranks: Ranks): real
  {
    if ws == [] then 0.0 else Times(ws[0].1, Extra(covered, ranks, ws[0].0)) + Gain(ws[1..], covered, ranks)
  }

  function Accept(covered: Covered, ranks: Ranks): Covered
  {
    map q | q in covered.Keys + ranks.Keys ::
      if q in ranks then Max(Cover(covered, q), Score(ranks[q])) else covered[q]
  }

  function Total(ws: Weights, covered: Covered): real
  {
    if ws == [] then 0.0 else Times(ws[0].1, Cover(covered, ws[0].0)) + Total(ws[1..], covered)
  }

  lemma Distribute(w: real, a: real, b: real)
    ensures Times(w, a + b) == Times(w, a) + Times(w, b)
  {
  }

  lemma Scale(w: real, a: real, b: real)
    requires w >= 0.0 && a <= b
    ensures Times(w, a) <= Times(w, b)
  {
  }

  lemma Whole(w: real)
    ensures Times(w, 0.0) == 0.0 && Times(w, 1.0) == w
  {
  }

  lemma AcceptCovers(covered: Covered, ranks: Ranks, q: string)
    ensures Cover(Accept(covered, ranks), q) == Cover(covered, q) + Extra(covered, ranks, q)
  {
    hide Score;
  }

  /** Accepting a record adds exactly its gain. */
  lemma {:induction false} AcceptAddsGain(ws: Weights, covered: Covered, ranks: Ranks)
    ensures Total(ws, Accept(covered, ranks)) == Total(ws, covered) + Gain(ws, covered, ranks)
  {
    if ws != [] {
      AcceptAddsGain(ws[1..], covered, ranks);
      var q := ws[0].0;
      AcceptCovers(covered, ranks, q);
      hide Cover, Extra, Accept, Times;
      Distribute(ws[0].1, Cover(covered, q), Extra(covered, ranks, q));
    }
  }

  lemma {:induction false} GainIsNotNegative(ws: Weights, covered: Covered, ranks: Ranks)
    requires forall i | 0 <= i < |ws| :: ws[i].1 >= 0.0
    ensures Gain(ws, covered, ranks) >= 0.0
  {
    hide Extra, Times;
    if ws != [] {
      GainIsNotNegative(ws[1..], covered, ranks);
      Whole(ws[0].1);
      Scale(ws[0].1, 0.0, Extra(covered, ranks, ws[0].0));
    }
  }

  /** At least as well covered everywhere. */
  ghost predicate AtLeast(more: Covered, less: Covered)
  {
    forall q :: Cover(less, q) <= Cover(more, q)
  }

  /** Ranks at least as good wherever the other has any. */
  ghost predicate Better(best: Ranks, other: Ranks)
  {
    forall q | q in other :: q in best && best[q] <= other[q]
  }

  lemma ScoreFalls(a: nat, b: nat)
    requires a <= b
    ensures Score(b) <= Score(a)
  {
    var x, y := (1 + a) as real, (1 + b) as real;
    assert 0.0 < x <= y;
    Reciprocal(x, y);
  }

  lemma Reciprocal(x: real, y: real)
    requires 0.0 < x <= y
    ensures 1.0 / y <= 1.0 / x
  {
  }

  lemma ExtraFalls(less: Covered, more: Covered, best: Ranks, other: Ranks, q: string)
    requires AtLeast(more, less) && Better(best, other)
    ensures Extra(more, other, q) <= Extra(less, best, q)
  {
    assert Cover(less, q) <= Cover(more, q);
    if q in other {
      ScoreFalls(best[q], other[q]);
    }
    hide Score, Cover;
  }

  /** The gain of a record never rises as others are accepted, and is no smaller for better ranks. */
  lemma {:induction false} GainFalls(ws: Weights, less: Covered, more: Covered, best: Ranks, other: Ranks)
    requires (forall i | 0 <= i < |ws| :: ws[i].1 >= 0.0) && AtLeast(more, less) && Better(best, other)
    ensures Gain(ws, more, other) <= Gain(ws, less, best)
  {
    hide Extra, AtLeast, Better, Times;
    if ws != [] {
      GainFalls(ws[1..], less, more, best, other);
      ExtraFalls(less, more, best, other, ws[0].0);
      Scale(ws[0].1, Extra(more, other, ws[0].0), Extra(less, best, ws[0].0));
    }
  }

  lemma AcceptCoversMore(covered: Covered, ranks: Ranks)
    ensures AtLeast(Accept(covered, ranks), covered)
  {
    hide Score;
  }

  /* ---- totals ---- */

  function Sum(ws: Weights): real
  {
    if ws == [] then 0.0 else ws[0].1 + Sum(ws[1..])
  }

  ghost predicate AtMostOne(covered: Covered)
  {
    forall q | q in covered :: 0.0 <= covered[q] <= 1.0
  }

  lemma AcceptAtMostOne(covered: Covered, ranks: Ranks)
    requires AtMostOne(covered)
    ensures AtMostOne(Accept(covered, ranks))
  {
    hide Score;
  }

  lemma {:induction false} TotalAtMostSum(ws: Weights, covered: Covered)
    requires (forall i | 0 <= i < |ws| :: ws[i].1 >= 0.0) && AtMostOne(covered)
    ensures 0.0 <= Total(ws, covered) <= Sum(ws)
  {
    if ws != [] {
      TotalAtMostSum(ws[1..], covered);
      Whole(ws[0].1);
      hide Times;
      Scale(ws[0].1, Cover(covered, ws[0].0), 1.0);
      Scale(ws[0].1, 0.0, Cover(covered, ws[0].0));
    }
  }

  /** The weights of the source: one for the raw query and one shared by the other groups. */
  function Allocate(groups: seq<string>): (ws: Weights)
    ensures |ws| == 1 + |groups|
  {
    [("raw", 1.0)] + Shares(groups, |groups|)
  }

  function Shares(groups: seq<string>, count: nat): (ws: Weights)
    requires |groups| <= count
    ensures |ws| == |groups| && forall i | 0 <= i < |groups| :: ws[i] == (groups[i], 1.0 / count as real)
  {
    if groups == [] then [] else [(groups[0], 1.0 / count as real)] + Shares(groups[1..], count)
  }

  lemma {:induction false} SharesSum(groups: seq<string>, count: nat)
    requires |groups| <= count && count > 0
    ensures Sum(Shares(groups, count)) == Times(1.0 / count as real, |groups| as real)
  {
    if groups != [] {
      SharesSum(groups[1..], count);
      var share, n := 1.0 / count as real, |groups[1..]| as real;
      assert |groups| as real == n + 1.0;
      Distribute(share, n, 1.0);
      assert Shares(groups, count)[1..] == Shares(groups[1..], count);
    }
  }

  /** All gains together never exceed two. */
  lemma TotalAtMostTwo(groups: seq<string>, covered: Covered)
    requires AtMostOne(covered)
    ensures Total(Allocate(groups), covered) <= 2.0
    ensures groups == [] ==> Total(Allocate(groups), covered) <= 1.0
  {
    var ws := Allocate(groups);
    var shares := Shares(groups, |groups|);
    assert ws[0] == ("raw", 1.0) && ws[1..] == shares;
    if groups != [] {
      SharesSum(groups, |groups|);
      assert Times(1.0 / |groups| as real, |groups| as real) == 1.0;
      assert 1.0 / |groups| as real >= 0.0;
    }
    forall i | 0 <= i < |ws| ensures ws[i].1 >= 0.0 {
      if i > 0 {
        assert ws[i] == shares[i - 1];
      }
    }
    hide Total, Allocate, Shares;
    TotalAtMostSum(ws, covered);
  }

  /* ---- the greedy order ---- */

  /** A usable record: its place in the pool, the length of its text, and its ranks. */
  datatype Candidate = Candidate(index: nat, cost: nat, ranks: Ranks)

  datatype State = State(ws: Weights, covered: Covered, used: nat, budget: nat)

  function Value(st: State, c: Candidate): real
  {
    Gain(st.ws, st.covered, c.ranks)
  }

  predicate Eligible(st: State, c: Candidate)
  {
    c.cost > 0 && c.cost + st.used <= st.budget && Value(st, c) > 0.0
  }

  /** More gain per character, then more gain, then the earlier place. */
  predicate Prefers(st: State, a: Candidate, b: Candidate)
    requires a.cost > 0 && b.cost > 0
  {
    var x, y := Value(st, a) / a.cost as real, Value(st, b) / b.cost as real;
    x > y || (x == y && (Value(st, a) > Value(st, b) || (Value(st, a) == Value(st, b) && a.index < b.index)))
  }

  /** The preferred one of the eligible candidates. */
  function Best(st: State, candidates: seq<Candidate>): (best: Option<nat>)
    ensures best.Some? ==> best.value < |candidates| && Eligible(st, candidates[best.value])
  {
    if candidates == [] then None else
    var later := Best(st, candidates[1..]);
    if later.None? then (if Eligible(st, candidates[0]) then Some(0) else None)
    else if Eligible(st, candidates[0]) && Prefers(st, candidates[0], candidates[1..][later.value]) then Some(0)
    else Some(later.value + 1)
  }

  /** Places rise along the list. */
  ghost predicate Rising(candidates: seq<Candidate>)
  {
    forall i, j | 0 <= i < j < |candidates| :: candidates[i].index < candidates[j].index
  }

  lemma {:induction false} BestIsPreferred(st: State, candidates: seq<Candidate>)
    requires Rising(candidates)
    ensures var best := Best(st, candidates);
            if best.None? then forall i | 0 <= i < |candidates| :: !Eligible(st, candidates[i])
            else forall i | 0 <= i < |candidates| && Eligible(st, candidates[i]) && i != best.value ::
                   Prefers(st, candidates[best.value], candidates[i])
  {
    hide Value;
    if candidates != [] {
      var rest := candidates[1..];
      assert Rising(rest) by {
        assert forall i | 0 <= i < |rest| :: rest[i] == candidates[i + 1];
      }
      BestIsPreferred(st, rest);
      assert forall i | 1 <= i < |candidates| :: candidates[i] == rest[i - 1];
    }
  }

  function Without(candidates: seq<Candidate>, k: nat): (r: seq<Candidate>)
    requires k < |candidates|
    ensures |r| == |candidates| - 1
  {
    candidates[..k] + candidates[k + 1..]
  }

  function Accepting(st: State, c: Candidate): State
  {
    st.(covered := Accept(st.covered, c.ranks), used := st.used + c.cost)
  }

  /** The records chosen, and what is left with the final state. */
  function Greedy(st: State, candidates: seq<Candidate>): (r: (seq<Candidate>, seq<Candidate>, State))
    decreases |candidates|
  {
    var best := Best(st, candidates);
    if best.None? then ([], candidates, st) else
    var c := candidates[best.value];
    var rest := Greedy(Accepting(st, c), Without(candidates, best.value));
    ([c] + rest.0, rest.1, rest.2)
  }

  function Cost(chosen: seq<Candidate>): nat
  {
    if chosen == [] then 0 else chosen[0].cost + Cost(chosen[1..])
  }

  lemma WithoutIsRising(candidates: seq<Candidate>, k: nat)
    requires Rising(candidates) && k < |candidates|
    ensures Rising(Without(candidates, k))
    ensures multiset(candidates) == multiset{candidates[k]} + multiset(Without(candidates, k))
  {
    assert candidates == candidates[..k] + [candidates[k]] + candidates[k + 1..];
  }

  /** The gains of the chosen records, each at the moment it was chosen. */
  function Gains(st: State, chosen: seq<Candidate>): real
    decreases |chosen|
  {
    if chosen == [] then 0.0 else Value(st, chosen[0]) + Gains(Accepting(st, chosen[0]), chosen[1..])
  }

  /** Altogether the chosen records gain what the total has grown by, at most two. */
  lemma {:induction false} GainsAdd(st: State, chosen: seq<Candidate>, covered: Covered)
    requires covered == AcceptAll(st.covered, chosen)
    ensures Total(st.ws, covered) == Total(st.ws, st.covered) + Gains(st, chosen)
    decreases |chosen|
  {
    hide Gain, Total, Accept;
    if chosen != [] {
      AcceptAddsGain(st.ws, st.covered, chosen[0].ranks);
      GainsAdd(Accepting(st, chosen[0]), chosen[1..], covered);
    }
  }

  function AcceptAll(covered: Covered, chosen: seq<Candidate>): Covered
    decreases |chosen|
  {
    if chosen == [] then covered else AcceptAll(Accept(covered, chosen[0].ranks), chosen[1..])
  }

  lemma {:induction false} GreedyAccepts(st: State, candidates: seq<Candidate>)
    ensures Greedy(st, candidates).2.covered == AcceptAll(st.covered, Greedy(st, candidates).0)
    decreases |candidates|
  {
    hide Best, Accept;
    var best := Best(st, candidates);
    if best.Some? {
      var c := candidates[best.value];
      GreedyAccepts(Accepting(st, c), Without(candidates, best.value));
      var rest := Greedy(Accepting(st, c), Without(candidates, best.value));
      assert ([c] + rest.0)[1..] == rest.0;
    }
  }

  /**
   The chosen records fit the budget, chosen and left together are the candidates, the total grows
   by the gains, and no record that is left would still fit and gain.
   */
  lemma {:induction false} GreedyIsSound(st: State, candidates: seq<Candidate>)
    requires Rising(candidates) && st.used <= st.budget
    ensures var (chosen, left, final) := Greedy(st, candidates);
            && final.used == st.used + Cost(chosen) <= st.budget && final.budget == st.budget && final.ws == st.ws
            && multiset(chosen) + multiset(left) == multiset(candidates)
            && AtLeast(final.covered, st.covered) && (AtMostOne(st.covered) ==> AtMostOne(final.covered))
            && final.covered == AcceptAll(st.covered, chosen)
            && Total(final.ws, final.covered) == Total(st.ws, st.covered) + Gains(st, chosen)
            && Rising(left) && forall i | 0 <= i < |left| :: !Eligible(final, left[i])
    decreases |candidates|
  {
    hide Total, Gains, AcceptAll;
    BestIsPreferred(st, candidates);
    GreedyAccepts(st, candidates);
    GainsAdd(st, Greedy(st, candidates).0, Greedy(st, candidates).2.covered);
    var best := Best(st, candidates);
    if best.Some? {
      var c := candidates[best.value];
      assert c.cost + st.used <= st.budget;
      hide Best, Eligible, Accept, AtMostOne, AtLeast, Rising;
      WithoutIsRising(candidates, best.value);
      var next := Accepting(st, c);
      GreedyIsSound(next, Without(candidates, best.value));
      var rest := Greedy(next, Without(candidates, best.value));
      AcceptCoversMore(st.covered, c.ranks);
      CoverChains(st.covered, next.covered, rest.2.covered);
      if AtMostOne(st.covered) {
        AcceptAtMostOne(st.covered, c.ranks);
      }
      assert ([c] + rest.0)[1..] == rest.0;
    } else {
      hide Eligible;
    }
  }

  lemma CoverChains(a: Covered, b: Covered, c: Covered)
    requires AtLeast(b, a) && AtLeast(c, b)
    ensures AtLeast(c, a)
  {
    forall q ensures Cover(a, q) <= Cover(c, q) {
      assert Cover(a, q) <= Cover(b, q) <= Cover(c, q);
    }
  }

  /** A record gains no more when it is chosen later. */
  lemma LaterGainsLess(st: State, later: State, c: Candidate)
    requires Sound(st.ws) && later.ws == st.ws && AtLeast(later.covered, st.covered)
    ensures 0.0 <= Value(later, c) <= Value(st, c)
  {
    GainFalls(st.ws, st.covered, later.covered, c.ranks, c.ranks);
    GainIsNotNegative(st.ws, later.covered, c.ranks);
  }

  /** The whole selection with the weights of the source gains at most two. */
  lemma GainsAtMostTwo(groups: seq<string>, candidates: seq<Candidate>, budget: nat)
    ensures Gains(State(Allocate(groups), map[], 0, budget), Greedy(State(Allocate(groups), map[], 0, budget), candidates).0) <= 2.0
  {
    var st := State(Allocate(groups), map[], 0, budget);
    var chosen := Greedy(st, candidates).0;
    var covered := AcceptAll(st.covered, chosen);
    GainsAdd(st, chosen, covered);
    AllAtMostOne(map[], chosen);
    TotalAtMostTwo(groups, covered);
    NothingCovered(st.ws);
  }

  lemma {:induction false} AllAtMostOne(covered: Covered, chosen: seq<Candidate>)
    requires AtMostOne(covered)
    ensures AtMostOne(AcceptAll(covered, chosen))
    decreases |chosen|
  {
    hide AtMostOne, Accept;
    if chosen != [] {
      AcceptAtMostOne(covered, chosen[0].ranks);
      AllAtMostOne(Accept(covered, chosen[0].ranks), chosen[1..]);
    }
  }

  lemma {:induction false} NothingCovered(ws: Weights)
    ensures Total(ws, map[]) == 0.0
  {
    if ws != [] {
      NothingCovered(ws[1..]);
    }
  }

  /** The loop of the source. */
  method OrderByCoverage(st: State, candidates: seq<Candidate>) returns (chosen: seq<Candidate>, left: seq<Candidate>, covered: Covered)
    ensures var r := Greedy(st, candidates); chosen == r.0 && left == r.1 && covered == r.2.covered
  {
    hide Best, Accept, Without;
    var now := st;
    chosen, left := [], candidates;
    assert [] + Greedy(now, left).0 == Greedy(now, left).0;
    while left != []
      invariant var rest := Greedy(now, left); Greedy(st, candidates) == (chosen + rest.0, rest.1, rest.2)
      decreases |left|
    {
      var best := Best(now, left);
      if best.None? {
        break;
      }
      var c := left[best.value];
      ghost var rest := Greedy(Accepting(now, c), Without(left, best.value));
      assert chosen + ([c] + rest.0) == chosen + [c] + rest.0;
      chosen := chosen + [c];
      now := Accepting(now, c);
      left := Without(left, best.value);
    }
    NothingLeft(now, left);
    covered := now.covered;
  }

  lemma NothingLeft(st: State, candidates: seq<Candidate>)
    ensures Best(st, candidates).None? ==> Greedy(st, candidates) == ([], candidates, st)
    ensures candidates == [] ==> Best(st, candidates).None?
  {
  }
}
